/** The effort policies and the audit as the loops that run them. */
module EffortRuns {
  import opened Results
  import opened Effort

  // ----- Counters as functions of the units

  function Attempts(units: seq<Unit>, hot: set<int>, encode: Encoder): nat {
    if units == [] then 0
    else Attempts(units[..|units| - 1], hot, encode) + Policy(units[|units| - 1], hot, encode).attempts
  }

  function EarlyStops(units: seq<Unit>, hot: set<int>, encode: Encoder): nat {
    if units == [] then 0
    else EarlyStops(units[..|units| - 1], hot, encode)
         + if Policy(units[|units| - 1], hot, encode).stop.Some? then 1 else 0
  }

  /** How many packs were left at a level, 0 for the stored payload. */
  function LeftAt(units: seq<Unit>, hot: set<int>, encode: Encoder, level: int): nat {
    if units == [] then 0
    else LeftAt(units[..|units| - 1], hot, encode, level)
         + if Policy(units[|units| - 1], hot, encode).level == level then 1 else 0
  }

  datatype PolicyStats = PolicyStats(attempts: nat, earlyStops: nat, selectedLevels: map<int, nat>)

  datatype ProbeStats = ProbeStats(attempts: nat, probes: nat, wins: nat, stops: nat)

  function ProbeTotals(units: seq<Unit>, hot: set<int>, encode: Encoder): ProbeStats {
    if units == [] then ProbeStats(0, 0, 0, 0)
    else
      var s, t := ProbeTotals(units[..|units| - 1], hot, encode), Probe(units[|units| - 1], hot, encode);
      ProbeStats(s.attempts + t.attempts, s.probes + t.probes, s.wins + t.wins, s.stops + t.stops)
  }

  const LEVEL_KEYS: set<int> := {0, 3, 6, 12, 19}

  lemma PolicyLevel(u: Unit, hot: set<int>, encode: Encoder)
    ensures Policy(u, hot, encode).level in LEVEL_KEYS
  {
    hide Climb;
    if u.index !in hot {
      var n := ClimbExact(u.stored, 0, u.raw, POLICY_LEVELS, encode);
      assert forall l :: l in POLICY_LEVELS[..n] ==> l in POLICY_LEVELS;
    }
  }

  /** Every pack is left at exactly one level. */
  lemma {:induction false} LevelsConserved(units: seq<Unit>, hot: set<int>, encode: Encoder)
    ensures LeftAt(units, hot, encode, 0) + LeftAt(units, hot, encode, 3) + LeftAt(units, hot, encode, 6)
            + LeftAt(units, hot, encode, 12) + LeftAt(units, hot, encode, 19) == |units|
  {
    hide Policy;
    if units != [] {
      LevelsConserved(units[..|units| - 1], hot, encode);
      PolicyLevel(units[|units| - 1], hot, encode);
    }
  }

  /** How many cold packs the probe level recovers. */
  ghost function RecoveredPacks(units: seq<Unit>, hot: set<int>, encode: Encoder): nat {
    if units == [] then 0
    else RecoveredPacks(units[..|units| - 1], hot, encode) + if Recovers(units[|units| - 1], hot, encode) then 1 else 0
  }

  /** The probe policy wins once for every pack that it recovers; it stops no less often than it probes
      in vain; and without a win every probe is one extra attempt. */
  lemma {:induction false} WinsAreRecoveries(units: seq<Unit>, hot: set<int>, encode: Encoder)
    ensures ProbeTotals(units, hot, encode).wins <= ProbeTotals(units, hot, encode).probes
            <= EarlyStops(units, hot, encode)
    ensures ProbeTotals(units, hot, encode).wins == RecoveredPacks(units, hot, encode)
    ensures ProbeTotals(units, hot, encode).probes - ProbeTotals(units, hot, encode).wins
            <= ProbeTotals(units, hot, encode).stops
    ensures ProbeTotals(units, hot, encode).wins == 0 ==>
              ProbeTotals(units, hot, encode).attempts
              == Attempts(units, hot, encode) + ProbeTotals(units, hot, encode).probes
  {
    hide Recover, Climb;
    if units != [] {
      var init, u := units[..|units| - 1], units[|units| - 1];
      assert units == init + [u];
      WinsAreRecoveries(init, hot, encode);
      RecoverExact(u.stored, 0, u.raw, POLICY_LEVELS, encode);
    }
  }

  // ----- The loops

  method ClimbPack(u: Unit, encode: Encoder) returns (t: Trace)
    ensures t == Climb(u.stored, 0, u.raw, POLICY_LEVELS, encode)
  {
    var best, level, attempts: nat := u.stored, 0, 0;
    ghost var whole := Climb(u.stored, 0, u.raw, POLICY_LEVELS, encode);
    assert POLICY_LEVELS[0..] == POLICY_LEVELS;
    for k := 0 to |POLICY_LEVELS|
      invariant whole == Climb(best, level, u.raw, POLICY_LEVELS[k..], encode).(
                           attempts := attempts + Climb(best, level, u.raw, POLICY_LEVELS[k..], encode).attempts)
    {
      var l := POLICY_LEVELS[k];
      assert POLICY_LEVELS[k..][0] == l && POLICY_LEVELS[k..][1..] == POLICY_LEVELS[k + 1..];
      attempts := attempts + 1;
      var tried := encode(u.raw, l);
      if Size(tried) <= Size(best) {
        if Size(tried) < Size(best) {
          best, level := tried, l;
        }
        continue;
      }
      return Trace(best, level, attempts, Some(l));
    }
    t := Trace(best, level, attempts, None);
  }

  /** `_run_policy_once` */
  method RunPolicyOnce(units: seq<Unit>, hot: set<int>, encode: Encoder)
    returns (selected: seq<Coded>, stats: PolicyStats)
    ensures selected == Taken(units, hot, encode)
    ensures stats.attempts == Attempts(units, hot, encode) && stats.earlyStops == EarlyStops(units, hot, encode)
    ensures stats.selectedLevels.Keys == LEVEL_KEYS
    ensures forall l :: l in LEVEL_KEYS ==> stats.selectedLevels[l] == LeftAt(units, hot, encode, l)
  {
    hide Climb;
    selected := [];
    var attempts, earlyStops: nat := 0, 0;
    var levels: map<int, nat> := map[0 := 0, 3 := 0, 6 := 0, 12 := 0, 19 := 0];
    for i := 0 to |units|
      invariant selected == Taken(units[..i], hot, encode)
      invariant attempts == Attempts(units[..i], hot, encode) && earlyStops == EarlyStops(units[..i], hot, encode)
      invariant levels.Keys == LEVEL_KEYS
      invariant forall l :: l in LEVEL_KEYS ==> levels[l] == LeftAt(units[..i], hot, encode, l)
    {
      var u := units[i];
      assert units[..i + 1][..i] == units[..i];
      var t := Trace(u.stored, 0, 0, None);
      if u.index !in hot {
        t := ClimbPack(u, encode);
      }
      PolicyLevel(u, hot, encode);
      attempts := attempts + t.attempts;
      earlyStops := earlyStops + if t.stop.Some? then 1 else 0;
      levels := levels[t.level := levels[t.level] + 1];
      selected := selected + [t.best];
    }
    assert units[..|units|] == units;
    stats := PolicyStats(attempts, earlyStops, levels);
  }

  function Plus(n: nat, probes: nat, wins: nat, t: ProbeTrace): ProbeTrace {
    ProbeTrace(t.best, n + t.attempts, probes + t.probes, wins + t.wins, t.stops)
  }

  method RecoverPack(u: Unit, encode: Encoder) returns (t: ProbeTrace)
    ensures t == Recover(u.stored, u.raw, POLICY_LEVELS, false, encode)
  {
    var best, used := u.stored, false;
    var attempts, probes, wins: nat := 0, 0, 0;
    ghost var whole := Recover(u.stored, u.raw, POLICY_LEVELS, false, encode);
    assert POLICY_LEVELS[0..] == POLICY_LEVELS;
    for k := 0 to |POLICY_LEVELS|
      invariant whole == Plus(attempts, probes, wins, Recover(best, u.raw, POLICY_LEVELS[k..], used, encode))
    {
      var l := POLICY_LEVELS[k];
      assert POLICY_LEVELS[k..][0] == l && POLICY_LEVELS[k..][1..] == POLICY_LEVELS[k + 1..];
      attempts := attempts + 1;
      var tried := encode(u.raw, l);
      if Size(tried) <= Size(best) {
        if Size(tried) < Size(best) {
          best := tried;
        }
        continue;
      }
      if l < PROBE_LEVEL && !used {
        used := true;
        probes := probes + 1;
        attempts := attempts + 1;
        var probe := encode(u.raw, PROBE_LEVEL);
        if Size(probe) < Size(best) {
          wins := wins + 1;
          best := probe;
          continue;
        }
      }
      return ProbeTrace(best, attempts, probes, wins, 1);
    }
    t := ProbeTrace(best, attempts, probes, wins, 0);
  }

  /** `_probe_once` */
  method ProbeOnce(units: seq<Unit>, hot: set<int>, encode: Encoder) returns (selected: seq<Coded>, stats: ProbeStats)
    ensures selected == Probed(units, hot, encode)
    ensures stats == ProbeTotals(units, hot, encode)
  {
    hide Recover;
    selected, stats := [], ProbeStats(0, 0, 0, 0);
    for i := 0 to |units|
      invariant selected == Probed(units[..i], hot, encode) && stats == ProbeTotals(units[..i], hot, encode)
    {
      var u := units[i];
      assert units[..i + 1][..i] == units[..i];
      var t := ProbeTrace(u.stored, 0, 0, 0, 0);
      if u.index !in hot {
        t := RecoverPack(u, encode);
      }
      stats := ProbeStats(stats.attempts + t.attempts, stats.probes + t.probes, stats.wins + t.wins,
                          stats.stops + t.stops);
      selected := selected + [t.best];
    }
    assert units[..|units|] == units;
  }

  method ReplayStop(u: Unit, encode: Encoder) returns (best: nat, stopAt: Option<int>)
    ensures (best, stopAt) == Replay(Size(u.stored), POLICY_LEVELS, CurveOf(u.raw, encode))
  {
    best, stopAt := Size(u.stored), None;
    ghost var curve := CurveOf(u.raw, encode);
    assert POLICY_LEVELS[0..] == POLICY_LEVELS;
    for k := 0 to |POLICY_LEVELS|
      invariant Replay(Size(u.stored), POLICY_LEVELS, curve) == Replay(best, POLICY_LEVELS[k..], curve)
    {
      var l := POLICY_LEVELS[k];
      assert POLICY_LEVELS[k..][0] == l && POLICY_LEVELS[k..][1..] == POLICY_LEVELS[k + 1..];
      var size := Size(encode(u.raw, l));
      if size <= best {
        best := if size < best then size else best;
      } else {
        stopAt := Some(l);
        return;
      }
    }
  }

  /** The hostile review of the stop law: `stop_missed`. */
  method AuditStops(units: seq<Unit>, hot: set<int>, selected: seq<Coded>, encode: Encoder)
    returns (missed: seq<Missed>)
    requires |selected| == |units|
    ensures missed == Audit(units, hot, selected, encode)
    ensures selected == Taken(units, hot, encode) ==> MissedBytes(missed) == Excess(units, hot, encode)
  {
    hide Replay, MinOr, Later, MinSize;
    missed := [];
    for i := 0 to |units|
      invariant missed == Audit(units[..i], hot, selected[..i], encode)
    {
      var u := units[i];
      assert units[..i + 1][..i] == units[..i] && selected[..i + 1][..i] == selected[..i];
      if u.index in hot {
        continue;
      }
      var best, stopAt := ReplayStop(u, encode);
      if stopAt.Some? {
        var laterBest := MinOr(best, Later(POLICY_LEVELS, stopAt.value), CurveOf(u.raw, encode));
        if laterBest < Size(selected[i]) {
          var size := Size(selected[i]);
          missed := missed + [Missed(u.index, stopAt.value, size, laterBest, size - laterBest)];
        }
      }
    }
    assert units[..|units|] == units && selected[..|units|] == selected;
    MissedBytesConserved(units, hot, encode);
  }
}
