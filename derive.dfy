/** `computeDerived`: the eight per-round metrics of a player, all divided by
    R = max(1, rounds) so that no division by zero can happen. */
module Derive {
  import Players
  import Stats

  /** The eight metrics the ratings are built from. */
  datatype Metric = Kpr | Dpr | Adr | Kast | Entry | AcsPerRound | Headshot | Consistency

  /** The metrics in the order the application processes them. */
  const Metrics: seq<Metric> := [Kpr, Dpr, Adr, Kast, Entry, AcsPerRound, Headshot, Consistency]

  /** A player's record extended with the derived metrics. The record keeps
      every field of the input row; in the application the `adr` field of the
      result is the derived one. */
  datatype Derived = Derived(
    row: Players.Player,
    kpr: real, dpr: real, adr: real, kast: real, entry: real,
    acsPerRound: real, headshot: real, consistency: real)

  /** `Math.max(1, row.rounds || 0)`. */
  function Divisor(p: Players.Player): (r: real)
    ensures r >= 1.0
    ensures r == p.rounds || (r == 1.0 && p.rounds < 1.0)
  {
    Stats.Max(1.0, Stats.Or(p.rounds, 0.0))
  }

  /** Kills per round on one side: the side's kills (or half of all kills
      when that column is 0) over the side's rounds, or the overall `kpr` when
      the side has no rounds. */
  function SideKpr(sideKills: real, kills: real, sideRounds: real, kpr: real): (k: real)
    ensures sideRounds <= 0.0 ==> k == kpr
    ensures sideRounds > 0.0 && sideKills != 0.0 ==> k * sideRounds == sideKills
    ensures sideRounds > 0.0 && sideKills == 0.0 ==> k * sideRounds == kills * 0.5
  {
    if sideRounds > 0.0 then Stats.Or(sideKills, kills * 0.5) / sideRounds else kpr
  }

  /** The balance between attack and defence kills per round, clamped below at
      0: 1 when both sides are equal, less the further apart they are. */
  function ConsistencyOf(attack: real, defense: real): (c: real)
    ensures 0.0 <= c <= 1.0
    ensures c == 1.0 <==> attack == defense
  {
    var spread := Stats.Max(Stats.Max(attack, defense), 0.1);
    assert Stats.Abs(attack - defense) / spread >= 0.0;
    Stats.Max(0.0, 1.0 - Stats.Abs(attack - defense) / spread)
  }

  /** Kills per round on attack; without attack rounds, the overall kills
      per round. */
  function AttackKpr(p: Players.Player): real
  {
    SideKpr(p.killsAttack, p.kills, p.attackRounds, p.kills / Divisor(p))
  }

  /** Kills per round on defence; without defence rounds, the overall kills
      per round. */
  function DefenseKpr(p: Players.Player): real
  {
    SideKpr(p.killsDefense, p.kills, p.defenseRounds, p.kills / Divisor(p))
  }

  /** Each side's kills per round times that side's rounds gives back the
      side's kills (half of all kills when the side's column is 0); a side
      without rounds has the overall kills per round. */
  lemma SideKprRules(p: Players.Player)
    ensures p.attackRounds <= 0.0 ==> AttackKpr(p) * Divisor(p) == p.kills
    ensures p.attackRounds > 0.0 && p.killsAttack != 0.0 ==> AttackKpr(p) * p.attackRounds == p.killsAttack
    ensures p.attackRounds > 0.0 && p.killsAttack == 0.0 ==> AttackKpr(p) * p.attackRounds == p.kills * 0.5
    ensures p.defenseRounds <= 0.0 ==> DefenseKpr(p) * Divisor(p) == p.kills
    ensures p.defenseRounds > 0.0 && p.killsDefense != 0.0 ==> DefenseKpr(p) * p.defenseRounds == p.killsDefense
    ensures p.defenseRounds > 0.0 && p.killsDefense == 0.0 ==> DefenseKpr(p) * p.defenseRounds == p.kills * 0.5
  {
    var r := Divisor(p);
    assert (p.kills / r) * r == p.kills;
  }

  /** `computeDerived`. Each per-round metric times the divisor gives back the
      count it came from; rates are percentages over 100; the consistency is
      that of the two sides' kills per round; the row is kept. */
  function ComputeDerived(p: Players.Player): (d: Derived)
    ensures d.row == p
    ensures d.kpr * Divisor(p) == p.kills && d.dpr * Divisor(p) == p.deaths
    ensures d.entry * Divisor(p) == p.firstKills - p.firstDeaths
    ensures d.acsPerRound * Divisor(p) == p.acs
    ensures p.adr != 0.0 ==> d.adr == p.adr
    ensures p.adr == 0.0 ==> d.adr * Divisor(p) == p.totalDamage
    ensures d.kast * 100.0 == p.kastPercent && d.headshot * 100.0 == p.hsPercent
    ensures d.consistency == ConsistencyOf(AttackKpr(p), DefenseKpr(p))
    ensures 0.0 <= d.consistency <= 1.0
    ensures d.consistency == 1.0 <==> AttackKpr(p) == DefenseKpr(p)
  {
    var r := Divisor(p);
    Derived(
      row := p,
      kpr := p.kills / r,
      dpr := p.deaths / r,
      adr := Stats.Or(p.adr, p.totalDamage / r),
      kast := Stats.Or(p.kastPercent, 0.0) / 100.0,
      entry := (p.firstKills - p.firstDeaths) / r,
      acsPerRound := Stats.Or(p.acs, 0.0) / r,
      headshot := Stats.Or(p.hsPercent, 0.0) / 100.0,
      consistency := ConsistencyOf(AttackKpr(p), DefenseKpr(p)))
  }

  /** The value of one metric. */
  function MetricValue(d: Derived, m: Metric): real
  {
    match m
    case Kpr => d.kpr
    case Dpr => d.dpr
    case Adr => d.adr
    case Kast => d.kast
    case Entry => d.entry
    case AcsPerRound => d.acsPerRound
    case Headshot => d.headshot
    case Consistency => d.consistency
  }

  /** With non-negative kills per round the clamp at 0 never acts: the
      consistency is exactly 1 - |a - d| / max(a, d, 0.1). */
  lemma ConsistencyUnclamped(attack: real, defense: real)
    requires attack >= 0.0 && defense >= 0.0
    ensures ConsistencyOf(attack, defense) ==
      1.0 - Stats.Abs(attack - defense) / Stats.Max(Stats.Max(attack, defense), 0.1)
  {
    var spread := Stats.Max(Stats.Max(attack, defense), 0.1);
    assert Stats.Abs(attack - defense) <= spread;
    DivideAtMost(Stats.Abs(attack - defense), spread);
  }

  lemma DivideAtMost(a: real, b: real)
    requires 0.0 <= a <= b && b > 0.0
    ensures a / b <= 1.0
  {
  }

  /** More deaths over the same rounds never lower the deaths per round, and
      more kills never lower the kills per round. */
  lemma PerRoundMonotone(p: Players.Player, q: Players.Player)
    requires p.rounds == q.rounds
    ensures p.deaths <= q.deaths ==> ComputeDerived(p).dpr <= ComputeDerived(q).dpr
    ensures p.kills <= q.kills ==> ComputeDerived(p).kpr <= ComputeDerived(q).kpr
  {
    var r := Divisor(p);
    assert r == Divisor(q);
    if p.deaths <= q.deaths {
      DivideMonotone(p.deaths, q.deaths, r);
    }
    if p.kills <= q.kills {
      DivideMonotone(p.kills, q.kills, r);
    }
  }

  lemma DivideMonotone(a: real, b: real, r: real)
    requires a <= b && r > 0.0
    ensures a / r <= b / r
  {
  }
}
