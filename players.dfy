/** `csvToObjects`: turns the records read from a match-data file into typed
    player records. `Number(...)` is code the model cannot see; it is passed in
    as the parameter `toNumber`. */
module Players {
  import Csv
  import Tables

  /** One player's line of match data. Counts are per match; the attack and
      defence columns are optional. */
  datatype Player = Player(
    name: string, agent: string, role: string,
    rounds: real, attackRounds: real, defenseRounds: real,
    kills: real, deaths: real, assists: real, firstKills: real, firstDeaths: real,
    acs: real, adr: real, kastPercent: real, hsPercent: real, totalDamage: real,
    killsAttack: real, killsDefense: real, deathsAttack: real, deathsDefense: real,
    assistsAttack: real, assistsDefense: real, acsAttack: real, acsDefense: real,
    adrAttack: real, adrDefense: real, kastAttack: real, kastDefense: real,
    hsAttack: real, hsDefense: real)

  type Record = map<string, string>

  /** `num(k)`: an absent or empty cell reads as 0. */
  function Num(toNumber: string -> real, r: Record, key: string): (n: real)
    ensures (key !in r || r[key] == "") ==> n == 0.0
  {
    if key !in r || r[key] == "" then 0.0 else toNumber(r[key])
  }

  /** The position of the first `c` in `s`. */
  function FirstIndex(s: string, c: char): (i: nat)
    requires c in s
    ensures i < |s| && s[i] == c && c !in s[..i]
  {
    if s[0] == c then 0
    else
      assert c in s[1..] by { assert s == [s[0]] + s[1..]; }
      var j := FirstIndex(s[1..], c);
      assert s[..j + 1] == [s[0]] + s[1..][..j];
      j + 1
  }

  /** `val.toString().replace('%', '')`: removes the first `c`, if any. */
  function RemoveFirst(s: string, c: char): (t: string)
    ensures c !in s ==> t == s
    ensures c in s ==> |t| == |s| - 1 && multiset(t) + multiset{c} == multiset(s)
  {
    if c in s then
      var i := FirstIndex(s, c);
      assert s == s[..i] + [c] + s[i + 1..];
      s[..i] + s[i + 1..]
    else s
  }

  /** `parsePercent(k)`: an absent or empty cell reads as 0; otherwise the
      number left after removing one percent sign. */
  function Percent(toNumber: string -> real, r: Record, key: string): (n: real)
    ensures (key !in r || r[key] == "") ==> n == 0.0
  {
    if key !in r || r[key] == "" then 0.0 else toNumber(RemoveFirst(r[key], '%'))
  }

  /** `a || b` on strings: `a` unless it is absent or empty. */
  function Text(r: Record, key: string): string
  {
    if key in r then r[key] else ""
  }

  /** The name column: `Player_Name`, else `name`, else "". */
  function NameOf(r: Record): (name: string)
    ensures name != "" ==> name == Text(r, "Player_Name") || name == Text(r, "name")
    ensures Text(r, "Player_Name") != "" ==> name == Text(r, "Player_Name")
    ensures Text(r, "Player_Name") == "" ==> name == Text(r, "name")
  {
    if Text(r, "Player_Name") != "" then Text(r, "Player_Name") else Text(r, "name")
  }

  /** The typed record of one line. The role comes from the agent table,
      rounds are attack plus defence rounds and the total damage is the
      average damage per round times the rounds. */
  function ToPlayer(toNumber: string -> real, r: Record): (p: Player)
    ensures p.name == NameOf(r) && p.agent == Text(r, "Agent")
    ensures p.role in Tables.Roles && p.role == Tables.RoleOf(p.agent)
    ensures p.role != Tables.Unknown <==> p.agent in Tables.AgentToRole
    ensures p.attackRounds == Num(toNumber, r, "Attack_Got_Round")
    ensures p.defenseRounds == Num(toNumber, r, "Defense_Got_Round")
    ensures p.rounds == p.attackRounds + p.defenseRounds
    ensures p.kills == Num(toNumber, r, "Kill_All") && p.deaths == Num(toNumber, r, "Death_All")
    ensures p.assists == Num(toNumber, r, "Assists_All")
    ensures p.firstKills == Num(toNumber, r, "Fk_All") && p.firstDeaths == Num(toNumber, r, "Fd_All")
    ensures p.acs == Num(toNumber, r, "Acs_All") && p.adr == Num(toNumber, r, "Adr_All")
    ensures p.kastPercent == Percent(toNumber, r, "Kast_All")
    ensures p.hsPercent == Percent(toNumber, r, "Hs_All")
    ensures p.killsAttack == Num(toNumber, r, "Kill_Attack")
    ensures p.killsDefense == Num(toNumber, r, "Kill_Defence")
    ensures p.deathsAttack == Num(toNumber, r, "Death_Attack")
    ensures p.deathsDefense == Num(toNumber, r, "Death_Defence")
    ensures p.assistsAttack == Num(toNumber, r, "Assists_Attack")
    ensures p.assistsDefense == Num(toNumber, r, "Assists_Defence")
    ensures p.acsAttack == Num(toNumber, r, "Acs_Attack")
    ensures p.acsDefense == Num(toNumber, r, "Acs_Defence")
    ensures p.adrAttack == Num(toNumber, r, "Adr_Attack")
    ensures p.adrDefense == Num(toNumber, r, "Adr_Defence")
    ensures p.kastAttack == Percent(toNumber, r, "Kast_Attack")
    ensures p.kastDefense == Percent(toNumber, r, "Kast_Defence")
    ensures p.hsAttack == Percent(toNumber, r, "Hs_Attack")
    ensures p.hsDefense == Percent(toNumber, r, "Hs_Defence")
  {
    var attack := Num(toNumber, r, "Attack_Got_Round");
    var defense := Num(toNumber, r, "Defense_Got_Round");
    var agent := Text(r, "Agent");
    var rounds := attack + defense;
    var adr := Num(toNumber, r, "Adr_All");
    Player(
      name := NameOf(r),
      agent := agent,
      role := Tables.RoleOf(agent),
      rounds := rounds,
      attackRounds := attack,
      defenseRounds := defense,
      kills := Num(toNumber, r, "Kill_All"),
      deaths := Num(toNumber, r, "Death_All"),
      assists := Num(toNumber, r, "Assists_All"),
      firstKills := Num(toNumber, r, "Fk_All"),
      firstDeaths := Num(toNumber, r, "Fd_All"),
      acs := Num(toNumber, r, "Acs_All"),
      adr := adr,
      kastPercent := Percent(toNumber, r, "Kast_All"),
      hsPercent := Percent(toNumber, r, "Hs_All"),
      totalDamage := adr * rounds,
      killsAttack := Num(toNumber, r, "Kill_Attack"),
      killsDefense := Num(toNumber, r, "Kill_Defence"),
      deathsAttack := Num(toNumber, r, "Death_Attack"),
      deathsDefense := Num(toNumber, r, "Death_Defence"),
      assistsAttack := Num(toNumber, r, "Assists_Attack"),
      assistsDefense := Num(toNumber, r, "Assists_Defence"),
      acsAttack := Num(toNumber, r, "Acs_Attack"),
      acsDefense := Num(toNumber, r, "Acs_Defence"),
      adrAttack := Num(toNumber, r, "Adr_Attack"),
      adrDefense := Num(toNumber, r, "Adr_Defence"),
      kastAttack := Percent(toNumber, r, "Kast_Attack"),
      kastDefense := Percent(toNumber, r, "Kast_Defence"),
      hsAttack := Percent(toNumber, r, "Hs_Attack"),
      hsDefense := Percent(toNumber, r, "Hs_Defence"))
  }

  /** The total damage is the average damage per round times the rounds. */
  lemma TotalDamageRule(toNumber: string -> real, r: Record)
    ensures var p := ToPlayer(toNumber, r); p.totalDamage == p.adr * p.rounds
  {
  }

  /** A line whose cells are all empty or absent gives a player with no name,
      an unknown role and every number 0, whatever `toNumber` does. */
  lemma EmptyCellsDefault(toNumber: string -> real, r: Record)
    requires forall k :: k in r ==> r[k] == ""
    ensures var p := ToPlayer(toNumber, r);
      p.name == "" && p.agent == "" && p.role == Tables.Unknown
      && p.rounds == 0.0 && p.kills == 0.0 && p.deaths == 0.0 && p.assists == 0.0
      && p.firstKills == 0.0 && p.firstDeaths == 0.0 && p.acs == 0.0 && p.adr == 0.0
      && p.kastPercent == 0.0 && p.hsPercent == 0.0 && p.totalDamage == 0.0
      && p.killsAttack == 0.0 && p.killsDefense == 0.0 && p.deathsAttack == 0.0
      && p.deathsDefense == 0.0 && p.assistsAttack == 0.0 && p.assistsDefense == 0.0
      && p.acsAttack == 0.0 && p.acsDefense == 0.0 && p.adrAttack == 0.0 && p.adrDefense == 0.0
      && p.kastAttack == 0.0 && p.kastDefense == 0.0 && p.hsAttack == 0.0 && p.hsDefense == 0.0
  {
  }

  lemma RemoveFirstAt(a: string, b: string, c: char)
    requires c !in a
    ensures RemoveFirst(a + [c] + b, c) == a + b
  {
    var u := a + [c] + b;
    assert u[|a|] == c;
    var i := FirstIndex(u, c);
    assert u[..i] == a && u[i + 1..] == b;
  }

  /** A percentage cell loses its first percent sign, and only that one,
      before conversion: "75%" reads as `toNumber("75")`. */
  lemma PercentSignRemoved(toNumber: string -> real, r: Record, key: string, a: string, b: string)
    requires key in r && r[key] == a + "%" + b && '%' !in a
    ensures Percent(toNumber, r, key) == toNumber(a + b)
  {
    RemoveFirstAt(a, b, '%');
  }

  /** `csvToObjects`: one player per data line of the text. */
  method CsvToObjects(toNumber: string -> real, text: string) returns (players: seq<Player>)
    ensures |players| == |Csv.Lines(text)| - 1
    ensures forall i :: 0 <= i < |players| ==> players[i] == ToPlayer(toNumber, Csv.ParsedRecords(text)[i])
  {
    var rows := Csv.ParseCsv(text);
    players := seq(|rows|, i requires 0 <= i < |rows| => ToPlayer(toNumber, rows[i]));
  }
}
