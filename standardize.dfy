/** `standardizeRows`: every derived metric is turned into a z-score, either
    against all players or against the players of the same role. Results are
    collected in maps keyed by player name, so a later player with the same
    name overwrites an earlier one; the model keeps that behaviour. */
module Standardize {
  import Stats
  import Players
  import Derive

  /** The z-scores of one player, by metric. */
  type ZRow = map<Derive.Metric, real>

  /** One entry of the result: the derived record and its z-scores. */
  datatype StdRow = StdRow(raw: Derive.Derived, z: ZRow)

  /** The set of the eight metrics. */
  function MetricSet(): set<Derive.Metric>
  {
    set m | m in Derive.Metrics
  }

  /** The values of one metric across a group. */
  function Values(group: seq<Derive.Derived>, m: Derive.Metric): (vs: seq<real>)
    ensures |vs| == |group|
  {
    seq(|group|, i requires 0 <= i < |group| => Derive.MetricValue(group[i], m))
  }

  /** `rows.map(computeDerived)`. */
  function DerivedRows(rows: seq<Players.Player>): (ds: seq<Derive.Derived>)
    ensures |ds| == |rows|
    ensures forall i :: 0 <= i < |rows| ==> ds[i] == Derive.ComputeDerived(rows[i]) && ds[i].row == rows[i]
  {
    seq(|rows|, i requires 0 <= i < |rows| => Derive.ComputeDerived(rows[i]))
  }

  function Names(group: seq<Derive.Derived>): set<string>
  {
    set i | 0 <= i < |group| :: group[i].row.name
  }

  // ---------------------------------------------------------------------------
  // Grouping by role

  /** The players of one role, in input order. */
  function WithRole(ds: seq<Derive.Derived>, role: string): seq<Derive.Derived>
  {
    if ds == [] then []
    else
      var last := ds[|ds| - 1];
      WithRole(ds[..|ds| - 1], role) + (if last.row.role == role then [last] else [])
  }

  /** The roles in the order in which they first appear. */
  function RolesInOrder(ds: seq<Derive.Derived>): seq<string>
  {
    if ds == [] then []
    else
      var roles := RolesInOrder(ds[..|ds| - 1]);
      var role := ds[|ds| - 1].row.role;
      if role in roles then roles else roles + [role]
  }

  /** A group holds exactly the players of its role. */
  lemma {:induction false} WithRoleMembers(ds: seq<Derive.Derived>, role: string)
    ensures forall x :: x in WithRole(ds, role) ==> x in ds && x.row.role == role
    ensures forall i :: 0 <= i < |ds| && ds[i].row.role == role ==> ds[i] in WithRole(ds, role)
  {
    if ds != [] {
      var init := ds[..|ds| - 1];
      WithRoleMembers(init, role);
      assert forall i :: 0 <= i < |ds| - 1 ==> init[i] == ds[i];
      assert ds == init + [ds[|ds| - 1]];
    }
  }

  /** Each role that occurs is listed, once. */
  lemma {:induction false} RolesInOrderMembers(ds: seq<Derive.Derived>)
    ensures forall k, l :: 0 <= k < l < |RolesInOrder(ds)| ==> RolesInOrder(ds)[k] != RolesInOrder(ds)[l]
    ensures forall r :: r in RolesInOrder(ds) <==> exists i :: 0 <= i < |ds| && ds[i].row.role == r
  {
    if ds != [] {
      var init := ds[..|ds| - 1];
      RolesInOrderMembers(init);
      assert forall i :: 0 <= i < |ds| - 1 ==> init[i] == ds[i];
    }
  }

  /** The groups the z-scores are computed in: one per role, in order of first
      appearance, or everybody together. */
  function Groups(ds: seq<Derive.Derived>, byRole: bool): (groups: seq<seq<Derive.Derived>>)
  {
    if byRole then
      var roles := RolesInOrder(ds);
      seq(|roles|, k requires 0 <= k < |roles| => WithRole(ds, roles[k]))
    else [ds]
  }

  lemma {:induction false} WithRoleEmpty(ds: seq<Derive.Derived>, role: string)
    requires role !in RolesInOrder(ds)
    ensures WithRole(ds, role) == []
  {
    if ds != [] {
      WithRoleEmpty(ds[..|ds| - 1], role);
    }
  }

  /** The accumulator of the reduce after the rows `ds`: each row is appended
      to the list of its role, which is created on the role's first row. */
  function Grouped(ds: seq<Derive.Derived>): map<string, seq<Derive.Derived>>
  {
    if ds == [] then map[]
    else
      var acc := Grouped(ds[..|ds| - 1]);
      var d := ds[|ds| - 1];
      acc[d.row.role := (if d.row.role in acc then acc[d.row.role] else []) + [d]]
  }

  lemma GroupedStep(ds: seq<Derive.Derived>, i: nat)
    requires i < |ds|
    ensures var acc, role := Grouped(ds[..i]), ds[i].row.role;
      Grouped(ds[..i + 1]) == acc[role := (if role in acc then acc[role] else []) + [ds[i]]]
    ensures RolesInOrder(ds[..i + 1]) ==
      if ds[i].row.role in RolesInOrder(ds[..i]) then RolesInOrder(ds[..i])
      else RolesInOrder(ds[..i]) + [ds[i].row.role]
  {
    assert ds[..i + 1][..i] == ds[..i] && ds[..i + 1][i] == ds[i];
  }

  /** The accumulator has one entry per role that occurs, holding the
      players of that role in input order. */
  lemma {:induction false} GroupedAt(ds: seq<Derive.Derived>, role: string)
    ensures role in Grouped(ds) <==> role in RolesInOrder(ds)
    ensures role in Grouped(ds) ==> Grouped(ds)[role] == WithRole(ds, role)
  {
    if ds != [] {
      var init := ds[..|ds| - 1];
      GroupedAt(init, role);
      if role !in RolesInOrder(init) {
        WithRoleEmpty(init, role);
      }
    }
  }

  /** The reduce over the rows that fills `acc[role]`, followed by
      `Object.values(acc)`. */
  method GroupByRole(ds: seq<Derive.Derived>) returns (roles: seq<string>, groups: seq<seq<Derive.Derived>>)
    ensures roles == RolesInOrder(ds)
    ensures groups == Groups(ds, true)
  {
    var acc: map<string, seq<Derive.Derived>> := map[];
    roles := [];
    var i := 0;
    while i < |ds|
      invariant 0 <= i <= |ds|
      invariant roles == RolesInOrder(ds[..i])
      invariant acc == Grouped(ds[..i])
    {
      var role := ds[i].row.role;
      GroupedAt(ds[..i], role);
      GroupedStep(ds, i);
      if role !in acc {
        assert [] + [ds[i]] == [ds[i]];
        roles := roles + [role];
        acc := acc[role := [ds[i]]];
      } else {
        acc := acc[role := acc[role] + [ds[i]]];
      }
      i := i + 1;
    }
    assert ds[..|ds|] == ds;
    forall r | r in roles
      ensures r in acc && acc[r] == WithRole(ds, r)
    {
      GroupedAt(ds, r);
    }
    groups := seq(|roles|, k requires 0 <= k < |roles| => acc[roles[k]]);
  }

  // ---------------------------------------------------------------------------
  // Z-scores within a group

  /** The z-scores of one metric across a group (`robustZ(vals)`). */
  function GroupZ(sqrt: real -> real, group: seq<Derive.Derived>, m: Derive.Metric): (z: seq<real>)
    ensures |z| == |group|
  {
    Stats.RobustZ(sqrt, Values(group, m))
  }

  /** The position of the last player named `n`. */
  function LastIndex(group: seq<Derive.Derived>, n: string): (i: nat)
    requires n in Names(group)
    ensures i < |group| && group[i].row.name == n
    ensures forall j :: i < j < |group| ==> group[j].row.name != n
  {
    var last := |group| - 1;
    if group[last].row.name == n then last
    else
      assert n in Names(group[..last]) by {
        var i :| 0 <= i < |group| && group[i].row.name == n;
        assert group[..last][i] == group[i];
      }
      LastIndex(group[..last], n)
  }

  /** The z-scores of the player at position `j` for the first `count`
      metrics. */
  function PartialRow(sqrt: real -> real, group: seq<Derive.Derived>, j: nat, count: nat): (z: ZRow)
    requires j < |group| && count <= |Derive.Metrics|
  {
    map m | m in Derive.Metrics[..count] :: GroupZ(sqrt, group, m)[j]
  }

  /** The z-scores of the player at position `j` for all eight metrics. */
  function ZRowAt(sqrt: real -> real, group: seq<Derive.Derived>, j: nat): (z: ZRow)
    requires j < |group|
    ensures z.Keys == MetricSet()
  {
    PartialRow(sqrt, group, j, |Derive.Metrics|)
  }

  /** `zed`: for every name in the group, the z-scores of the last player with
      that name. */
  function Zed(sqrt: real -> real, group: seq<Derive.Derived>): (zed: map<string, ZRow>)
    ensures zed.Keys == Names(group)
  {
    map n | n in Names(group) :: ZRowAt(sqrt, group, LastIndex(group, n))
  }

  lemma PartialRowStep(sqrt: real -> real, group: seq<Derive.Derived>, j: nat, count: nat)
    requires j < |group| && count < |Derive.Metrics|
    ensures PartialRow(sqrt, group, j, count + 1) ==
      PartialRow(sqrt, group, j, count)[Derive.Metrics[count] := GroupZ(sqrt, group, Derive.Metrics[count])[j]]
  {
    assert Derive.Metrics[..count + 1] == Derive.Metrics[..count] + [Derive.Metrics[count]];
  }

  lemma NamesStep(group: seq<Derive.Derived>, k: nat)
    requires k < |group|
    ensures Names(group[..k + 1]) == Names(group[..k]) + {group[k].row.name}
  {
    assert forall i :: 0 <= i < k ==> group[..k + 1][i] == group[..k][i];
    assert group[..k + 1][k] == group[k];
  }

  /** The row stored under `n`, or an empty row (`zed[id] ||= {}`). */
  function Entry(zed: map<string, ZRow>, n: string): ZRow
  {
    if n in zed then zed[n] else map[]
  }

  /** `zed` after the inner loop has written the z-score `z[i]` of metric `m`
      under the name of each of the first `k` players. */
  function Fill(zed: map<string, ZRow>, group: seq<Derive.Derived>, m: Derive.Metric, z: seq<real>, k: nat): map<string, ZRow>
    requires k <= |group| == |z|
  {
    if k == 0 then zed
    else
      var prev := Fill(zed, group, m, z, k - 1);
      var id := group[k - 1].row.name;
      prev[id := Entry(prev, id)[m := z[k - 1]]]
  }

  /** After the inner loop, a name of the first `k` players holds the score of
      its last occurrence there; every other name is untouched. */
  lemma FillAt(zed: map<string, ZRow>, group: seq<Derive.Derived>, m: Derive.Metric, z: seq<real>, k: nat, n: string)
    requires k <= |group| == |z|
    ensures n in Fill(zed, group, m, z, k) <==> n in zed || n in Names(group[..k])
    ensures n in Names(group[..k]) ==>
      Fill(zed, group, m, z, k)[n] == Entry(zed, n)[m := z[LastIndex(group[..k], n)]]
    ensures n !in Names(group[..k]) && n in zed ==> Fill(zed, group, m, z, k)[n] == zed[n]
  {
    FillDomain(zed, group, m, z, k, n);
    FillKept(zed, group, m, z, k, n);
    FillLast(zed, group, m, z, k, n);
  }

  lemma {:induction false} FillDomain(zed: map<string, ZRow>, group: seq<Derive.Derived>, m: Derive.Metric, z: seq<real>, k: nat, n: string)
    requires k <= |group| == |z|
    ensures n in Fill(zed, group, m, z, k) <==> n in zed || n in Names(group[..k])
  {
    if k == 0 {
      assert Names(group[..0]) == {};
    } else {
      FillDomain(zed, group, m, z, k - 1, n);
      NamesStep(group, k - 1);
    }
  }

  lemma {:induction false} FillKept(zed: map<string, ZRow>, group: seq<Derive.Derived>, m: Derive.Metric, z: seq<real>, k: nat, n: string)
    requires k <= |group| == |z|
    ensures n !in Names(group[..k]) && n in zed ==>
      n in Fill(zed, group, m, z, k) && Fill(zed, group, m, z, k)[n] == zed[n]
  {
    if k == 0 {
    } else if n !in Names(group[..k]) && n in zed {
      FillKept(zed, group, m, z, k - 1, n);
      FillDomain(zed, group, m, z, k - 1, n);
      NamesStep(group, k - 1);
    }
  }

  lemma {:induction false} FillLast(zed: map<string, ZRow>, group: seq<Derive.Derived>, m: Derive.Metric, z: seq<real>, k: nat, n: string)
    requires k <= |group| == |z|
    ensures n in Names(group[..k]) ==>
      n in Fill(zed, group, m, z, k) &&
      Fill(zed, group, m, z, k)[n] == Entry(zed, n)[m := z[LastIndex(group[..k], n)]]
  {
    if k > 0 && n in Names(group[..k]) {
      LastIndexPrefix(group, k, n);
      if n in Names(group[..k - 1]) {
        FillLast(zed, group, m, z, k - 1, n);
        FillAgain(zed, group, m, z, k, n);
      } else {
        FillDomain(zed, group, m, z, k - 1, n);
        FillKept(zed, group, m, z, k - 1, n);
        FillFirst(zed, group, m, z, k, n);
      }
    }
  }

  /** Step of `FillLast` for a name already among the first `k - 1` players. */
  lemma FillAgain(zed: map<string, ZRow>, group: seq<Derive.Derived>, m: Derive.Metric, z: seq<real>, k: nat, n: string)
    requires 0 < k <= |group| == |z| && n in Names(group[..k - 1])
    requires n in Fill(zed, group, m, z, k - 1)
    requires Fill(zed, group, m, z, k - 1)[n] == Entry(zed, n)[m := z[LastIndex(group[..k - 1], n)]]
    ensures n in Fill(zed, group, m, z, k)
    ensures n == group[k - 1].row.name ==> Fill(zed, group, m, z, k)[n] == Entry(zed, n)[m := z[k - 1]]
    ensures n != group[k - 1].row.name ==> Fill(zed, group, m, z, k)[n] == Fill(zed, group, m, z, k - 1)[n]
  {
    if n == group[k - 1].row.name {
      UpdateTwice(Entry(zed, n), m, z[LastIndex(group[..k - 1], n)], z[k - 1]);
    }
  }

  /** Step of `FillLast` for a name first seen at position `k - 1`. */
  lemma FillFirst(zed: map<string, ZRow>, group: seq<Derive.Derived>, m: Derive.Metric, z: seq<real>, k: nat, n: string)
    requires 0 < k <= |group| == |z| && n == group[k - 1].row.name
    requires n in Fill(zed, group, m, z, k - 1) <==> n in zed
    requires n in zed ==> n in Fill(zed, group, m, z, k - 1) && Fill(zed, group, m, z, k - 1)[n] == zed[n]
    ensures n in Fill(zed, group, m, z, k)
    ensures Fill(zed, group, m, z, k)[n] == Entry(zed, n)[m := z[k - 1]]
  {
    assert Entry(Fill(zed, group, m, z, k - 1), n) == Entry(zed, n);
  }

  /** The last occurrence of `n` among the first `k` players. */
  lemma LastIndexPrefix(group: seq<Derive.Derived>, k: nat, n: string)
    requires 0 < k <= |group| && n in Names(group[..k])
    ensures group[k - 1].row.name == n ==> LastIndex(group[..k], n) == k - 1
    ensures group[k - 1].row.name != n ==>
      n in Names(group[..k - 1]) && LastIndex(group[..k], n) == LastIndex(group[..k - 1], n)
  {
    assert group[..k][..k - 1] == group[..k - 1];
  }

  lemma UpdateTwice(base: ZRow, m: Derive.Metric, a: real, b: real)
    ensures base[m := a][m := b] == base[m := b]
  {
  }

  /** `zed` after the first `mi` metrics. */
  function Scores(sqrt: real -> real, group: seq<Derive.Derived>, mi: nat): map<string, ZRow>
    requires mi <= |Derive.Metrics|
  {
    if mi == 0 then map[]
    else
      var m := Derive.Metrics[mi - 1];
      Fill(Scores(sqrt, group, mi - 1), group, m, GroupZ(sqrt, group, m), |group|)
  }

  lemma {:induction false} ScoresAt(sqrt: real -> real, group: seq<Derive.Derived>, mi: nat, n: string)
    requires mi <= |Derive.Metrics|
    ensures n in Scores(sqrt, group, mi) <==> mi > 0 && n in Names(group)
    ensures n in Scores(sqrt, group, mi) ==>
      Scores(sqrt, group, mi)[n] == PartialRow(sqrt, group, LastIndex(group, n), mi)
  {
    if mi > 0 {
      var m := Derive.Metrics[mi - 1];
      ScoresAt(sqrt, group, mi - 1, n);
      FillAt(Scores(sqrt, group, mi - 1), group, m, GroupZ(sqrt, group, m), |group|, n);
      assert group[..|group|] == group;
      if n in Names(group) {
        var j := LastIndex(group, n);
        PartialRowStep(sqrt, group, j, mi - 1);
        if mi == 1 {
          assert Derive.Metrics[..0] == [];
          assert PartialRow(sqrt, group, j, 0) == map[];
        }
      }
    }
  }

  lemma ScoresIsZed(sqrt: real -> real, group: seq<Derive.Derived>)
    ensures Scores(sqrt, group, |Derive.Metrics|) == Zed(sqrt, group)
  {
    forall n
      ensures n in Scores(sqrt, group, |Derive.Metrics|) <==> n in Zed(sqrt, group)
      ensures n in Zed(sqrt, group) ==> Scores(sqrt, group, |Derive.Metrics|)[n] == Zed(sqrt, group)[n]
    {
      ScoresAt(sqrt, group, |Derive.Metrics|, n);
    }
  }

  /** The nested loops that fill `zed`: for each metric, the z-scores of the
      group, written under each player's name in turn. */
  method ScoreGroup(sqrt: real -> real, group: seq<Derive.Derived>) returns (zed: map<string, ZRow>)
    ensures zed == Zed(sqrt, group)
  {
    zed := map[];
    var mi := 0;
    while mi < |Derive.Metrics|
      invariant 0 <= mi <= |Derive.Metrics|
      invariant zed == Scores(sqrt, group, mi)
    {
      var m := Derive.Metrics[mi];
      var z := GroupZ(sqrt, group, m);
      ghost var start := zed;
      var k := 0;
      while k < |group|
        invariant 0 <= k <= |group|
        invariant zed == Fill(start, group, m, z, k)
      {
        var id := group[k].row.name;
        zed := zed[id := Entry(zed, id)[m := z[k]]];
        k := k + 1;
      }
      mi := mi + 1;
    }
    ScoresIsZed(sqrt, group);
  }

  // ---------------------------------------------------------------------------
  // The whole of `standardizeRows`

  /** `zMap` after all groups: each group writes the entries of its `zed`,
      so a name that occurs in several groups keeps the last one. */
  function ZTable(sqrt: real -> real, groups: seq<seq<Derive.Derived>>): map<string, ZRow>
  {
    if groups == [] then map[]
    else ZTable(sqrt, groups[..|groups| - 1]) + Zed(sqrt, groups[|groups| - 1])
  }

  /** The result of `standardizeRows`: one entry per input row, in input
      order, holding the derived record and the z-scores stored under the
      row's name (or none). */
  function StandardizedRows(sqrt: real -> real, rows: seq<Players.Player>, byRole: bool): (out: seq<StdRow>)
    ensures |out| == |rows|
    ensures forall i :: 0 <= i < |rows| ==> out[i].raw == DerivedRows(rows)[i]
  {
    var ds := DerivedRows(rows);
    var table := ZTable(sqrt, Groups(ds, byRole));
    seq(|rows|, i requires 0 <= i < |rows| =>
      StdRow(ds[i], if rows[i].name in table then table[rows[i].name] else map[]))
  }

  /** `zMap` after the players `group[..k]` have stored their entries of
      `zed` in it. */
  function Copy(table: map<string, ZRow>, group: seq<Derive.Derived>, zed: map<string, ZRow>, k: nat): map<string, ZRow>
    requires k <= |group| && zed.Keys == Names(group)
  {
    if k == 0 then table
    else
      var id := group[k - 1].row.name;
      assert id in Names(group);
      Copy(table, group, zed, k - 1)[id := zed[id]]
  }

  lemma {:induction false} CopyAt(table: map<string, ZRow>, group: seq<Derive.Derived>, zed: map<string, ZRow>, k: nat, n: string)
    requires k <= |group| && zed.Keys == Names(group)
    ensures n in Copy(table, group, zed, k) <==> n in table || n in Names(group[..k])
    ensures n in Names(group[..k]) ==> Copy(table, group, zed, k)[n] == zed[n]
    ensures n !in Names(group[..k]) && n in table ==> Copy(table, group, zed, k)[n] == table[n]
  {
    if k == 0 {
      assert Names(group[..0]) == {};
    } else {
      CopyAt(table, group, zed, k - 1, n);
      NamesStep(group, k - 1);
    }
  }

  /** Storing every player of a group writes the group's whole `zed` over
      the table. */
  lemma CopyAll(table: map<string, ZRow>, group: seq<Derive.Derived>, zed: map<string, ZRow>)
    requires zed.Keys == Names(group)
    ensures Copy(table, group, zed, |group|) == table + zed
  {
    assert group[..|group|] == group;
    forall n
      ensures n in Copy(table, group, zed, |group|) <==> n in table + zed
      ensures n in table + zed ==> Copy(table, group, zed, |group|)[n] == (table + zed)[n]
    {
      CopyAt(table, group, zed, |group|, n);
    }
  }

  lemma ZTableStep(sqrt: real -> real, groups: seq<seq<Derive.Derived>>, gi: nat)
    requires gi < |groups|
    ensures ZTable(sqrt, groups[..gi + 1]) == ZTable(sqrt, groups[..gi]) + Zed(sqrt, groups[gi])
  {
    assert groups[..gi + 1][..gi] == groups[..gi] && groups[..gi + 1][gi] == groups[gi];
  }

  /** `group.forEach((g) => zMap.set(g.name, ...))`: every player of the
      group stores its entry of `zed`. */
  method StoreGroup(zMap: map<string, ZRow>, group: seq<Derive.Derived>, zed: map<string, ZRow>)
    returns (stored: map<string, ZRow>)
    requires zed.Keys == Names(group)
    ensures stored == zMap + zed
  {
    stored := zMap;
    var k := 0;
    while k < |group|
      invariant 0 <= k <= |group|
      invariant stored == Copy(zMap, group, zed, k)
    {
      assert group[k].row.name in Names(group);
      stored := stored[group[k].row.name := zed[group[k].row.name]];
      k := k + 1;
    }
    CopyAll(zMap, group, zed);
  }

  /** The `groups.forEach` loop: each group's `zed` is computed and its
      players' entries are stored in `zMap`. */
  method BuildTable(sqrt: real -> real, groups: seq<seq<Derive.Derived>>) returns (zMap: map<string, ZRow>)
    ensures zMap == ZTable(sqrt, groups)
  {
    zMap := map[];
    var gi := 0;
    while gi < |groups|
      invariant 0 <= gi <= |groups|
      invariant zMap == ZTable(sqrt, groups[..gi])
    {
      var zed := ScoreGroup(sqrt, groups[gi]);
      zMap := StoreGroup(zMap, groups[gi], zed);
      ZTableStep(sqrt, groups, gi);
      gi := gi + 1;
    }
    assert groups[..|groups|] == groups;
  }

  /** `standardizeRows`. */
  method StandardizeRows(sqrt: real -> real, rows: seq<Players.Player>, byRole: bool) returns (out: seq<StdRow>)
    ensures out == StandardizedRows(sqrt, rows, byRole)
  {
    var derived := DerivedRows(rows);
    var groups: seq<seq<Derive.Derived>>;
    if byRole {
      var roles;
      roles, groups := GroupByRole(derived);
    } else {
      groups := [derived];
    }
    var zMap := BuildTable(sqrt, groups);
    out := seq(|rows|, i requires 0 <= i < |rows| =>
      StdRow(derived[i], if rows[i].name in zMap then zMap[rows[i].name] else map[]));
  }

  // ---------------------------------------------------------------------------
  // What the z-scores mean

  /** The players row `i` is compared with: those of its role, or all. */
  function Peers(ds: seq<Derive.Derived>, i: nat, byRole: bool): seq<Derive.Derived>
    requires i < |ds|
  {
    if byRole then WithRole(ds, ds[i].row.role) else ds
  }

  /** The z-score of metric `m` of `d` against `peers`: its distance from the
      peers' mean, in units of the peers' spread. */
  function PeerZ(sqrt: real -> real, peers: seq<Derive.Derived>, d: Derive.Derived, m: Derive.Metric): real
  {
    var vs := Values(peers, m);
    (Derive.MetricValue(d, m) - Stats.Mean(vs)) / Stats.Spread(sqrt, vs)
  }

  /** The eight z-scores of `d` against `peers`. */
  function PeerRow(sqrt: real -> real, peers: seq<Derive.Derived>, d: Derive.Derived): (z: ZRow)
    ensures z.Keys == MetricSet()
  {
    map m | m in MetricSet() :: PeerZ(sqrt, peers, d, m)
  }

  predicate DistinctNames(rows: seq<Players.Player>)
  {
    forall i, j :: 0 <= i < j < |rows| ==> rows[i].name != rows[j].name
  }

  /** A name stored by some group is in the table, and every entry of the
      table holds all eight metrics. */
  lemma {:induction false} ZTableEntries(sqrt: real -> real, groups: seq<seq<Derive.Derived>>, n: string)
    ensures n in ZTable(sqrt, groups) ==> ZTable(sqrt, groups)[n].Keys == MetricSet()
    ensures forall gi :: 0 <= gi < |groups| && n in Names(groups[gi]) ==> n in ZTable(sqrt, groups)
  {
    if groups != [] {
      var init := groups[..|groups| - 1];
      ZTableEntries(sqrt, init, n);
      assert forall gi :: 0 <= gi < |groups| - 1 ==> init[gi] == groups[gi];
    }
  }

  /** A name that only one group holds gets that group's scores. */
  lemma {:induction false} ZTableAt(sqrt: real -> real, groups: seq<seq<Derive.Derived>>, gi: nat, n: string)
    requires gi < |groups| && n in Names(groups[gi])
    requires forall gj :: 0 <= gj < |groups| && gj != gi ==> n !in Names(groups[gj])
    ensures n in ZTable(sqrt, groups) && ZTable(sqrt, groups)[n] == Zed(sqrt, groups[gi])[n]
  {
    var last := |groups| - 1;
    if gi < last {
      var init := groups[..last];
      assert forall gj :: 0 <= gj < last ==> init[gj] == groups[gj];
      ZTableAt(sqrt, init, gi, n);
      assert n !in Names(groups[last]);
    }
  }

  /** Row `i` belongs to the group of its peers. */
  lemma GroupOf(ds: seq<Derive.Derived>, i: nat, byRole: bool) returns (gi: nat)
    requires i < |ds|
    ensures gi < |Groups(ds, byRole)| && Groups(ds, byRole)[gi] == Peers(ds, i, byRole)
    ensures ds[i] in Peers(ds, i, byRole)
    ensures ds[i].row.name in Names(Peers(ds, i, byRole))
  {
    var peers := Peers(ds, i, byRole);
    if byRole {
      var role := ds[i].row.role;
      RolesInOrderMembers(ds);
      WithRoleMembers(ds, role);
      var roles := RolesInOrder(ds);
      assert role in roles by {
        assert 0 <= i < |ds| && ds[i].row.role == role;
      }
      gi :| 0 <= gi < |roles| && roles[gi] == role;
    } else {
      gi := 0;
    }
    var j :| 0 <= j < |peers| && peers[j] == ds[i];
    assert peers[j].row.name in Names(peers);
  }

  /** With distinct names, only the group of row `i` holds its name. */
  lemma OnlyGroup(ds: seq<Derive.Derived>, i: nat, byRole: bool, gi: nat, gj: nat)
    requires i < |ds| && forall k, l :: 0 <= k < l < |ds| ==> ds[k].row.name != ds[l].row.name
    requires gi < |Groups(ds, byRole)| && Groups(ds, byRole)[gi] == Peers(ds, i, byRole)
    requires gj < |Groups(ds, byRole)| && ds[i].row.name in Names(Groups(ds, byRole)[gj])
    ensures gj == gi
  {
    if byRole {
      var roles := RolesInOrder(ds);
      var g := Groups(ds, true)[gj];
      var j :| 0 <= j < |g| && g[j].row.name == ds[i].row.name;
      WithRoleMembers(ds, roles[gj]);
      assert g[j] in ds;
      var k :| 0 <= k < |ds| && ds[k] == g[j];
      assert k == i;
      WithRoleMembers(ds, roles[gi]);
      assert ds[i] in Groups(ds, true)[gi];
      RolesInOrderMembers(ds);
      assert roles[gj] == roles[gi];
    }
  }

  /** In a group, the last player named like `d`, when no other player has
      that name, is `d` itself. */
  lemma LastIsOnly(ds: seq<Derive.Derived>, i: nat, peers: seq<Derive.Derived>)
    requires i < |ds| && forall k, l :: 0 <= k < l < |ds| ==> ds[k].row.name != ds[l].row.name
    requires forall x :: x in peers ==> x in ds
    requires ds[i].row.name in Names(peers)
    ensures peers[LastIndex(peers, ds[i].row.name)] == ds[i]
  {
    var j := LastIndex(peers, ds[i].row.name);
    assert peers[j] in ds;
    var k :| 0 <= k < |ds| && ds[k] == peers[j];
    assert k == i;
  }

  /** The entry of the player at position `j` of a group for metric `m`. */
  lemma ZRowAtMetric(sqrt: real -> real, group: seq<Derive.Derived>, j: nat, m: Derive.Metric)
    requires j < |group|
    ensures m in ZRowAt(sqrt, group, j)
    ensures ZRowAt(sqrt, group, j)[m] == PeerZ(sqrt, group, group[j], m)
  {
    ZRowAtEntry(sqrt, group, j, m);
    Stats.ZScoreAt(sqrt, Values(group, m), j);
  }

  lemma ZRowAtEntry(sqrt: real -> real, group: seq<Derive.Derived>, j: nat, m: Derive.Metric)
    requires j < |group|
    ensures m in ZRowAt(sqrt, group, j)
    ensures ZRowAt(sqrt, group, j)[m] == GroupZ(sqrt, group, m)[j]
  {
    assert Derive.Metrics[..|Derive.Metrics|] == Derive.Metrics;
    assert m in Derive.Metrics by {
      match m
      case Kpr => assert Derive.Metrics[0] == m;
      case Dpr => assert Derive.Metrics[1] == m;
      case Adr => assert Derive.Metrics[2] == m;
      case Kast => assert Derive.Metrics[3] == m;
      case Entry => assert Derive.Metrics[4] == m;
      case AcsPerRound => assert Derive.Metrics[5] == m;
      case Headshot => assert Derive.Metrics[6] == m;
      case Consistency => assert Derive.Metrics[7] == m;
    }
  }

  /** Every row keeps its derived record and gets a z-score for each of the
      eight metrics. */
  lemma StandardizedShape(sqrt: real -> real, rows: seq<Players.Player>, byRole: bool, i: nat)
    requires i < |rows|
    ensures var out := StandardizedRows(sqrt, rows, byRole);
      out[i].raw == Derive.ComputeDerived(rows[i]) && out[i].z.Keys == MetricSet()
  {
    var ds := DerivedRows(rows);
    var groups := Groups(ds, byRole);
    var gi := GroupOf(ds, i, byRole);
    ZTableEntries(sqrt, groups, rows[i].name);
  }

  /** With distinct player names, each z-score is the player's metric
      standardized against exactly its peers: the players of its role when
      grouping by role, all players otherwise. */
  lemma StandardizedAgainstPeers(sqrt: real -> real, rows: seq<Players.Player>, byRole: bool, i: nat, m: Derive.Metric)
    requires DistinctNames(rows) && i < |rows|
    ensures var out := StandardizedRows(sqrt, rows, byRole);
      var ds := DerivedRows(rows);
      m in out[i].z && out[i].z[m] == PeerZ(sqrt, Peers(ds, i, byRole), ds[i], m)
  {
    var ds := DerivedRows(rows);
    var groups := Groups(ds, byRole);
    var n := rows[i].name;
    var peers := Peers(ds, i, byRole);
    var gi := GroupOf(ds, i, byRole);
    forall gj | 0 <= gj < |groups| && gj != gi
      ensures n !in Names(groups[gj])
    {
      if n in Names(groups[gj]) {
        OnlyGroup(ds, i, byRole, gi, gj);
      }
    }
    ZTableAt(sqrt, groups, gi, n);
    if byRole {
      WithRoleMembers(ds, ds[i].row.role);
    }
    LastIsOnly(ds, i, peers);
    ZRowAtMetric(sqrt, peers, LastIndex(peers, n), m);
  }

  /** With distinct player names, a player's whole row of z-scores is the row
      of its z-scores against its peers. */
  lemma StandardizedRowAgainstPeers(sqrt: real -> real, rows: seq<Players.Player>, byRole: bool, i: nat)
    requires DistinctNames(rows) && i < |rows|
    ensures var ds := DerivedRows(rows);
      StandardizedRows(sqrt, rows, byRole)[i].z == PeerRow(sqrt, Peers(ds, i, byRole), ds[i])
  {
    var out := StandardizedRows(sqrt, rows, byRole);
    var ds := DerivedRows(rows);
    var pz := PeerRow(sqrt, Peers(ds, i, byRole), ds[i]);
    StandardizedShape(sqrt, rows, byRole, i);
    forall m | m in MetricSet()
      ensures out[i].z[m] == pz[m]
    {
      StandardizedAgainstPeers(sqrt, rows, byRole, i, m);
    }
  }
}
