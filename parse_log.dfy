/**
 * The event loop of misc/valheim/parse-log.py: each server log line is tried
 * against the "character spawned" pattern and, only if that fails, against
 * the "zdo destroyed" pattern; the two module-level dictionaries `players`
 * (ZDOID to player name, or None once destroyed) and `death_states` (player
 * name to "is dead") are updated and a human-readable report may be output.
 *
 * Lines arrive already matched: a `Line` carries what each of the two
 * regular expressions captured, if it matched.
 */
module ValheimLog {
  import opened Wrappers

  /** Captures of `... Got character ZDOID from <name> : <zdoid>`. */
  datatype SpawnMatch = SpawnMatch(timestamp: string, name: string, zdoid: string)

  /** Captures of `... Destroying abandoned non persistent zdo <zdoid>`. */
  datatype DestroyMatch = DestroyMatch(timestamp: string, zdoid: string)

  /** One log line: the result of each pattern applied to it. */
  datatype Line = Line(spawn: Option<SpawnMatch>, destroy: Option<DestroyMatch>)

  /** A report line; the timestamp is the raw log timestamp. */
  datatype Report =
    | Died(timestamp: string, name: string)
    | Respawned(timestamp: string, name: string)
    | Login(timestamp: string, name: string)
    | Logout(timestamp: string, name: string)

  /** The two dictionaries, as values. */
  datatype State = State(players: map<string, Option<string>>, deathStates: map<string, bool>)

  /** The ZDOID the game reports for a character that has just died. */
  const DeadZdoid := "0"

  /** `death_states.get(name, False)`. */
  function IsDead(deathStates: map<string, bool>, name: string): bool
  {
    if name in deathStates then deathStates[name] else false
  }

  /** The state change and the report caused by one line (one iteration of the loop). */
  function Step(s: State, line: Line): (r: (State, Option<Report>))
    // `players` gains at most the entry the line writes, and every other entry keeps its value
    ensures r.0.players.Keys ==
      s.players.Keys + (if PlayerKeyWritten(line).Some? then {PlayerKeyWritten(line).value} else {})
    ensures forall z :: z in s.players && PlayerKeyWritten(line) != Some(z) ==>
      z in r.0.players && r.0.players[z] == s.players[z]
    // only a spawn line touches `death_states`
    ensures line.spawn.None? ==> r.0.deathStates == s.deathStates
    // a spawn line always reports; any other line reports at most a logout
    ensures line.spawn.Some? ==> r.1.Some?
    ensures line.spawn.None? && r.1.Some? ==> r.1.value.Logout?
  {
    match line.spawn
    case Some(m) =>
      if m.zdoid == DeadZdoid then
        (State(s.players, s.deathStates[m.name := true]), Some(Died(m.timestamp, m.name)))
      else if IsDead(s.deathStates, m.name) then
        (State(s.players[m.zdoid := Some(m.name)], s.deathStates[m.name := false]),
         Some(Respawned(m.timestamp, m.name)))
      else
        (State(s.players[m.zdoid := Some(m.name)], s.deathStates), Some(Login(m.timestamp, m.name)))
    case None =>
      match line.destroy
      case Some(d) =>
        var report :=
          if d.zdoid in s.players && s.players[d.zdoid].Some?
          then Some(Logout(d.timestamp, s.players[d.zdoid].value))
          else None;
        (State(s.players[d.zdoid := None], s.deathStates), report)
      case None => (s, None)
  }

  /**
   * The state and the reports, in order, after handling `lines` from `s`.
   * Each line adds at most one report, and no `players` entry is ever removed.
   */
  function Run(s: State, lines: seq<Line>): (r: (State, seq<Report>))
    ensures |r.1| <= |lines|
    ensures s.players.Keys <= r.0.players.Keys
    decreases |lines|
  {
    if lines == [] then (s, [])
    else
      var (s1, reports) := Run(s, lines[..|lines| - 1]);
      var (s2, report) := Step(s1, lines[|lines| - 1]);
      (s2, if report.Some? then reports + [report.value] else reports)
  }

  /** Both dictionaries start empty when the script starts. */
  const Initial := State(map[], map[])

  // ---------------------------------------------------------------------
  // Reference definitions, one key at a time
  // ---------------------------------------------------------------------

  /** The ZDOID whose `players` entry `line` writes, if any. */
  function PlayerKeyWritten(line: Line): Option<string>
  {
    match line.spawn
    case Some(m) => if m.zdoid == DeadZdoid then None else Some(m.zdoid)
    case None => if line.destroy.Some? then Some(line.destroy.value.zdoid) else None
  }

  /**
   * What `players[z]` should be after `lines`, read off the last line that
   * writes the entry: absent if none does, the spawned name after a spawn,
   * `None` after a destroy.
   */
  function ExpectedPlayer(lines: seq<Line>, z: string): Option<Option<string>>
    decreases |lines|
  {
    if lines == [] then None
    else
      var last := lines[|lines| - 1];
      if PlayerKeyWritten(last) == Some(z) then
        Some(if last.spawn.Some? then Some(last.spawn.value.name) else None)
      else ExpectedPlayer(lines[..|lines| - 1], z)
  }

  /**
   * Whether `name` should be marked dead after `lines`: exactly when the last
   * spawn line for that name carried the dead ZDOID.
   */
  function ExpectedDead(lines: seq<Line>, name: string): bool
    decreases |lines|
  {
    if lines == [] then false
    else
      var last := lines[|lines| - 1];
      if last.spawn.Some? && last.spawn.value.name == name then last.spawn.value.zdoid == DeadZdoid
      else ExpectedDead(lines[..|lines| - 1], name)
  }

  function Lookup(players: map<string, Option<string>>, z: string): Option<Option<string>>
  {
    if z in players then Some(players[z]) else None
  }

  // ---------------------------------------------------------------------
  // Single-line properties
  // ---------------------------------------------------------------------

  /** A spawn with ZDOID "0" reports a death, marks the player dead and leaves `players` alone. */
  lemma SpawnZeroReportsDeath(s: State, line: Line)
    requires line.spawn.Some? && line.spawn.value.zdoid == "0"
    ensures var (s', r) := Step(s, line);
      && r == Some(Died(line.spawn.value.timestamp, line.spawn.value.name))
      && s'.players == s.players
      && IsDead(s'.deathStates, line.spawn.value.name)
  {
  }

  /**
   * Any other spawn registers the ZDOID for the player; it reports
   * "respawned" and clears the dead flag exactly when the player was marked
   * dead, and otherwise reports LOGIN and leaves `death_states` unchanged.
   */
  lemma SpawnNonZero(s: State, line: Line)
    requires line.spawn.Some? && line.spawn.value.zdoid != "0"
    ensures var (s', r) := Step(s, line);
      var m := line.spawn.value;
      && s'.players == s.players[m.zdoid := Some(m.name)]
      && (IsDead(s.deathStates, m.name) ==>
            r == Some(Respawned(m.timestamp, m.name)) && s'.deathStates == s.deathStates[m.name := false])
      && (!IsDead(s.deathStates, m.name) ==>
            r == Some(Login(m.timestamp, m.name)) && s'.deathStates == s.deathStates)
      && !IsDead(s'.deathStates, m.name)
  {
  }

  /**
   * A destroy line (one that does not match the spawn pattern) reports LOG
   * OUT only when the ZDOID maps to a name; afterwards the entry is `None`.
   */
  lemma DestroyReportsLogout(s: State, line: Line)
    requires line.spawn.None? && line.destroy.Some?
    ensures var (s', r) := Step(s, line);
      var d := line.destroy.value;
      && s'.players == s.players[d.zdoid := None]
      && s'.deathStates == s.deathStates
      && (r.Some? <==> d.zdoid in s.players && s.players[d.zdoid].Some?)
      && (r.Some? ==> r.value == Logout(d.timestamp, s.players[d.zdoid].value))
  {
  }

  /** A second destroy of the same ZDOID reports nothing and changes nothing. */
  lemma DestroyIdempotent(s: State, line1: Line, line2: Line)
    requires line1.spawn.None? && line1.destroy.Some?
    requires line2.spawn.None? && line2.destroy.Some?
    requires line1.destroy.value.zdoid == line2.destroy.value.zdoid
    ensures var s1 := Step(s, line1).0;
      Step(s1, line2) == (s1, None)
  {
    var z := line1.destroy.value.zdoid;
    assert Step(s, line1).0.players[z := None] == Step(s, line1).0.players;
  }

  /** The destroy pattern is consulted only when the spawn pattern does not match. */
  lemma SpawnTakesPriority(s: State, line: Line)
    requires line.spawn.Some?
    ensures Step(s, line) == Step(s, Line(line.spawn, None))
  {
  }

  /** A line matching neither pattern changes nothing and reports nothing. */
  lemma UnmatchedLineIgnored(s: State, line: Line)
    requires line.spawn.None? && line.destroy.None?
    ensures Step(s, line) == (s, None)
  {
  }

  // ---------------------------------------------------------------------
  // Whole-log properties
  // ---------------------------------------------------------------------

  /** After any log, `players[z]` is what the last line writing that entry put there. */
  lemma {:induction false} RunTracksPlayers(lines: seq<Line>, z: string)
    ensures Lookup(Run(Initial, lines).0.players, z) == ExpectedPlayer(lines, z)
    decreases |lines|
  {
    if lines != [] {
      RunTracksPlayers(lines[..|lines| - 1], z);
    }
  }

  /** After any log, a player is marked dead exactly when their last spawn line was a death. */
  lemma {:induction false} RunTracksDeaths(lines: seq<Line>, name: string)
    ensures IsDead(Run(Initial, lines).0.deathStates, name) == ExpectedDead(lines, name)
    decreases |lines|
  {
    if lines != [] {
      RunTracksDeaths(lines[..|lines| - 1], name);
    }
  }

  /**
   * A destroy line following a log reports LOG OUT for `n` exactly when the
   * last earlier line writing that ZDOID was a spawn of `n`.
   */
  lemma LogoutIffLastSpawned(lines: seq<Line>, line: Line, n: string)
    requires line.spawn.None? && line.destroy.Some?
    ensures Step(Run(Initial, lines).0, line).1 == Some(Logout(line.destroy.value.timestamp, n))
        <==> ExpectedPlayer(lines, line.destroy.value.zdoid) == Some(Some(n))
  {
    RunTracksPlayers(lines, line.destroy.value.zdoid);
  }

  /**
   * A non-zero spawn following a log reports "respawned" exactly when the
   * player's last earlier spawn line was a death, and LOGIN otherwise.
   */
  lemma RespawnIffLastDied(lines: seq<Line>, line: Line)
    requires line.spawn.Some? && line.spawn.value.zdoid != "0"
    ensures var m := line.spawn.value;
      Step(Run(Initial, lines).0, line).1 ==
        if ExpectedDead(lines, m.name) then Some(Respawned(m.timestamp, m.name))
        else Some(Login(m.timestamp, m.name))
  {
    RunTracksDeaths(lines, line.spawn.value.name);
  }

  /** The two module-level dictionaries and the loop that feeds lines to them. */
  class LogState {
    var players: map<string, Option<string>>
    var deathStates: map<string, bool>

    constructor ()
      ensures players == map[] && deathStates == map[]
    {
      players := map[];
      deathStates := map[];
    }

    /** One iteration of the `while True` loop. */
    method Handle(line: Line) returns (report: Option<Report>)
      modifies this
      ensures (State(players, deathStates), report) == Step(old(State(players, deathStates)), line)
    {
      match line.spawn {
        case Some(m) =>
          if m.zdoid == DeadZdoid {
            report := Some(Died(m.timestamp, m.name));
            deathStates := deathStates[m.name := true];
          } else {
            if IsDead(deathStates, m.name) {
              report := Some(Respawned(m.timestamp, m.name));
              deathStates := deathStates[m.name := false];
            } else {
              report := Some(Login(m.timestamp, m.name));
            }
            players := players[m.zdoid := Some(m.name)];
          }
        case None =>
          report := None;
          match line.destroy {
            case Some(d) =>
              if d.zdoid in players && players[d.zdoid].Some? {
                report := Some(Logout(d.timestamp, players[d.zdoid].value));
              }
              players := players[d.zdoid := None];
            case None =>
          }
      }
    }

    /** The loop over a finite stretch of the log; the reports are what it outputs, in order. */
    method HandleAll(lines: seq<Line>) returns (reports: seq<Report>)
      modifies this
      ensures (State(players, deathStates), reports) == Run(old(State(players, deathStates)), lines)
    {
      ghost var s0 := State(players, deathStates);
      reports := [];
      var i := 0;
      while i < |lines|
        invariant 0 <= i <= |lines|
        invariant (State(players, deathStates), reports) == Run(s0, lines[..i])
      {
        assert lines[..i + 1][..i] == lines[..i];
        var report := Handle(lines[i]);
        if report.Some? {
          reports := reports + [report.value];
        }
        i := i + 1;
      }
      assert lines[..i] == lines;
    }
  }
}
