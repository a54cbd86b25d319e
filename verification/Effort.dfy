/** The early-stop effort policy, its one-probe successor, and the audit of the bytes they miss. */
module Effort {
  import opened Results
  import opened ByteLayout
  import opened Numbers

  const POLICY_LEVELS: seq<int> := [3, 6, 12, 19]

  const PROBE_LEVEL := 9

  /** An encoded pack. */
  datatype Coded = Coded(codec: int, payload: Bytes)

  /** A pack as it is stored now, and its raw bytes. */
  datatype Unit = Unit(index: int, stored: Coded, raw: Bytes)

  /** Deterministic encoding of raw bytes at a level. */
  type Encoder = (Bytes, int) -> Coded

  function Size(c: Coded): nat { |c.payload| }

  /** The size curve of a pack. */
  function CurveOf(raw: Bytes, encode: Encoder): int -> nat {
    (level: int) => Size(encode(raw, level))
  }

  // ----- The historical policy on one pack

  /** `level` is 0 while the stored payload is the best; `stop` is the level that made it stop. */
  datatype Trace = Trace(best: Coded, level: int, attempts: nat, stop: Option<int>)

  function Climb(best: Coded, level: int, raw: Bytes, levels: seq<int>, encode: Encoder): Trace
    decreases |levels|
  {
    if levels == [] then Trace(best, level, 0, None)
    else
      var tried := encode(raw, levels[0]);
      if Size(tried) > Size(best) then Trace(best, level, 1, Some(levels[0]))
      else
        var better := Size(tried) < Size(best);
        var t := Climb(if better then tried else best, if better then levels[0] else level, raw, levels[1..], encode);
        t.(attempts := t.attempts + 1)
  }

  function Policy(u: Unit, hot: set<int>, encode: Encoder): Trace {
    if u.index in hot then Trace(u.stored, 0, 0, None)
    else Climb(u.stored, 0, u.raw, POLICY_LEVELS, encode)
  }

  // ----- What the policy selects, in terms of the size curve alone

  /** Smallest of the stored size and the sizes at the levels. */
  function MinSize(size: nat, levels: seq<int>, curve: int -> nat): nat
    decreases |levels|
  {
    if levels == [] then size else MinSize(Smaller(size, curve(levels[0])), levels[1..], curve)
  }

  /** The first `n` levels never made it worse, and the next one, if any, did. */
  ghost predicate StopsAfter(size: nat, levels: seq<int>, curve: int -> nat, n: nat) {
    && n <= |levels|
    && (forall j :: 0 <= j < n ==> curve(levels[j]) <= MinSize(size, levels[..j], curve))
    && (n < |levels| ==> curve(levels[n]) > MinSize(size, levels[..n], curve))
  }

  lemma {:induction false} MinSizeExact(size: nat, levels: seq<int>, curve: int -> nat)
    ensures MinSize(size, levels, curve) <= size
    ensures forall l :: l in levels ==> MinSize(size, levels, curve) <= curve(l)
    ensures MinSize(size, levels, curve) == size || exists l :: l in levels && MinSize(size, levels, curve) == curve(l)
    decreases |levels|
  {
    if levels != [] {
      MinSizeExact(Smaller(size, curve(levels[0])), levels[1..], curve);
      assert levels[0] in levels && forall l :: l in levels <==> l == levels[0] || l in levels[1..];
    }
  }

  lemma MinSizeTake(size: nat, levels: seq<int>, curve: int -> nat, j: nat)
    requires j < |levels|
    ensures MinSize(size, levels[..j + 1], curve) == MinSize(Smaller(size, curve(levels[0])), levels[1..][..j], curve)
  {
    assert levels[..j + 1][1..] == levels[1..][..j];
  }

  lemma StopsAfterCons(size: nat, levels: seq<int>, curve: int -> nat, n: nat)
    requires levels != [] && curve(levels[0]) <= size
    requires StopsAfter(Smaller(size, curve(levels[0])), levels[1..], curve, n)
    ensures StopsAfter(size, levels, curve, n + 1)
  {
    var rest := levels[1..];
    var next := Smaller(size, curve(levels[0]));
    forall j | 0 <= j < n + 1 ensures curve(levels[j]) <= MinSize(size, levels[..j], curve) {
      if j > 0 {
        MinSizeTake(size, levels, curve, j - 1);
        assert curve(rest[j - 1]) <= MinSize(next, rest[..j - 1], curve);
      }
    }
    if n + 1 < |levels| {
      MinSizeTake(size, levels, curve, n);
    }
  }

  /** The policy takes the smallest payload of the longest run of levels that never makes it worse,
      and reports how many levels it tried and which one stopped it. */
  lemma {:induction false} ClimbExact(best: Coded, level: int, raw: Bytes, levels: seq<int>, encode: Encoder)
    returns (n: nat)
    ensures StopsAfter(Size(best), levels, CurveOf(raw, encode), n)
    ensures var t := Climb(best, level, raw, levels, encode);
            && Size(t.best) == MinSize(Size(best), levels[..n], CurveOf(raw, encode))
            && t.attempts == (if n < |levels| then n + 1 else n)
            && t.stop == (if n < |levels| then Some(levels[n]) else None)
            && ((t.level == level && t.best == best) || (t.level in levels[..n] && t.best == encode(raw, t.level)))
    decreases |levels|
  {
    n := 0;
    if levels != [] && Size(encode(raw, levels[0])) <= Size(best) {
      var tried := encode(raw, levels[0]);
      var better := Size(tried) < Size(best);
      var next, level' := if better then tried else best, if better then levels[0] else level;
      var m := ClimbExact(next, level', raw, levels[1..], encode);
      n := m + 1;
      StopsAfterCons(Size(best), levels, CurveOf(raw, encode), m);
      MinSizeTake(Size(best), levels, CurveOf(raw, encode), m);
      assert levels[..n] == [levels[0]] + levels[1..][..m];
    } else {
      assert levels[..0] == [];
    }
  }

  // ----- The one-probe policy on one pack

  datatype ProbeTrace = ProbeTrace(best: Coded, attempts: nat, probes: nat, wins: nat, stops: nat)

  function Recover(best: Coded, raw: Bytes, levels: seq<int>, used: bool, encode: Encoder): ProbeTrace
    decreases |levels|
  {
    if levels == [] then ProbeTrace(best, 0, 0, 0, 0)
    else
      var tried, probe := encode(raw, levels[0]), encode(raw, PROBE_LEVEL);
      if Size(tried) <= Size(best) then
        var t := Recover(if Size(tried) < Size(best) then tried else best, raw, levels[1..], used, encode);
        t.(attempts := t.attempts + 1)
      else if levels[0] < PROBE_LEVEL && !used then
        if Size(probe) < Size(best) then
          var t := Recover(probe, raw, levels[1..], true, encode);
          t.(attempts := t.attempts + 2, probes := t.probes + 1, wins := t.wins + 1)
        else ProbeTrace(best, 2, 1, 0, 1)
      else ProbeTrace(best, 1, 0, 0, 1)
  }

  function Probe(u: Unit, hot: set<int>, encode: Encoder): ProbeTrace {
    if u.index in hot then ProbeTrace(u.stored, 0, 0, 0, 0)
    else Recover(u.stored, u.raw, POLICY_LEVELS, false, encode)
  }

  /** The historical policy stopped below the probe level, and the probe level beats what it took. */
  predicate Detects(t: Trace, raw: Bytes, encode: Encoder) {
    t.stop.Some? && t.stop.value < PROBE_LEVEL && Size(encode(raw, PROBE_LEVEL)) < Size(t.best)
  }

  /** Once the probe is used up, the two policies are the same. */
  lemma {:induction false} UsedProbeClimbs(best: Coded, level: int, raw: Bytes, levels: seq<int>, encode: Encoder)
    ensures var p, t := Recover(best, raw, levels, true, encode), Climb(best, level, raw, levels, encode);
            && p.best == t.best && p.attempts == t.attempts && p.probes == p.wins == 0
            && p.stops == (if t.stop.Some? then 1 else 0)
            && Size(p.best) <= Size(best)
    decreases |levels|
  {
    if levels != [] && Size(encode(raw, levels[0])) <= Size(best) {
      var better := Size(encode(raw, levels[0])) < Size(best);
      UsedProbeClimbs(if better then encode(raw, levels[0]) else best, if better then levels[0] else level,
                      raw, levels[1..], encode);
    }
  }

  /** The probe policy takes exactly what the historical policy takes, unless the probe level detects a
      better payload behind the stop; then what it takes is smaller, and at most the probe's. */
  lemma {:induction false} RecoverExact(best: Coded, level: int, raw: Bytes, levels: seq<int>, encode: Encoder)
    ensures var p, t := Recover(best, raw, levels, false, encode), Climb(best, level, raw, levels, encode);
            && p.wins == (if Detects(t, raw, encode) then 1 else 0)
            && p.probes == (if t.stop.Some? && t.stop.value < PROBE_LEVEL then 1 else 0)
            && (if Detects(t, raw, encode)
                then Size(p.best) <= Size(encode(raw, PROBE_LEVEL)) < Size(t.best)
                else p.best == t.best && p.attempts == t.attempts + p.probes
                     && p.stops == (if t.stop.Some? then 1 else 0))
            && p.attempts <= |levels| + 1
            && Size(t.best) <= Size(best)
    decreases |levels|
  {
    if levels != [] {
      var tried, probe := encode(raw, levels[0]), encode(raw, PROBE_LEVEL);
      if Size(tried) <= Size(best) {
        var better := Size(tried) < Size(best);
        RecoverExact(if better then tried else best, if better then levels[0] else level, raw, levels[1..], encode);
      } else if levels[0] < PROBE_LEVEL && Size(probe) < Size(best) {
        UsedProbeClimbs(probe, PROBE_LEVEL, raw, levels[1..], encode);
        var n := ClimbExact(probe, PROBE_LEVEL, raw, levels[1..], encode);
      }
    }
  }

  /** After a win the policy goes on from the probe's payload, behind the level that had stopped it. */
  lemma {:induction false} RecoverAfterWin(best: Coded, level: int, raw: Bytes, levels: seq<int>, encode: Encoder)
    returns (m: nat)
    requires Detects(Climb(best, level, raw, levels, encode), raw, encode)
    ensures var p, t := Recover(best, raw, levels, false, encode), Climb(best, level, raw, levels, encode);
            && m < |levels| && t.stop == Some(levels[m])
            && var again := Climb(encode(raw, PROBE_LEVEL), PROBE_LEVEL, raw, levels[m + 1..], encode);
            && p.best == again.best
            && p.attempts == t.attempts + 1 + again.attempts
            && p.stops == (if again.stop.Some? then 1 else 0)
    decreases |levels|
  {
    var tried := encode(raw, levels[0]);
    if Size(tried) <= Size(best) {
      var better := Size(tried) < Size(best);
      var k := RecoverAfterWin(if better then tried else best, if better then levels[0] else level,
                               raw, levels[1..], encode);
      m := k + 1;
      assert levels[m + 1..] == levels[1..][k + 1..];
    } else {
      m := 0;
      UsedProbeClimbs(encode(raw, PROBE_LEVEL), PROBE_LEVEL, raw, levels[1..], encode);
    }
  }

  // ----- Whole workloads

  function Taken(units: seq<Unit>, hot: set<int>, encode: Encoder): seq<Coded> {
    if units == [] then []
    else Taken(units[..|units| - 1], hot, encode) + [Policy(units[|units| - 1], hot, encode).best]
  }

  function Probed(units: seq<Unit>, hot: set<int>, encode: Encoder): seq<Coded> {
    if units == [] then []
    else Probed(units[..|units| - 1], hot, encode) + [Probe(units[|units| - 1], hot, encode).best]
  }

  function Stored(units: seq<Unit>): seq<Coded> {
    if units == [] then [] else Stored(units[..|units| - 1]) + [units[|units| - 1].stored]
  }

  /** `_physical_bytes`: every payload with its physical header. */
  function PhysicalBytes(encoded: seq<Coded>, header: nat): nat {
    if encoded == [] then 0
    else PhysicalBytes(encoded[..|encoded| - 1], header) + header + Size(encoded[|encoded| - 1])
  }

  ghost predicate Recovers(u: Unit, hot: set<int>, encode: Encoder) {
    u.index !in hot && Detects(Policy(u, hot, encode), u.raw, encode)
  }

  /** On every workload, size curve and set of hot packs the probe policy needs no more bytes than the
      historical one, and that no more than what is stored; the probe gains exactly when it recovers
      some cold pack. */
  lemma {:induction false} ProbeNeverRegresses(units: seq<Unit>, hot: set<int>, encode: Encoder, header: nat)
    ensures PhysicalBytes(Probed(units, hot, encode), header) <= PhysicalBytes(Taken(units, hot, encode), header)
    ensures PhysicalBytes(Taken(units, hot, encode), header) <= PhysicalBytes(Stored(units), header)
    ensures PhysicalBytes(Probed(units, hot, encode), header) < PhysicalBytes(Taken(units, hot, encode), header)
            <==> exists u :: u in units && Recovers(u, hot, encode)
  {
    if units != [] {
      var init, u := units[..|units| - 1], units[|units| - 1];
      assert units == init + [u];
      ProbeNeverRegresses(init, hot, encode, header);
      PackNeverRegresses(u, hot, encode);
      PhysicalAppend(Probed(init, hot, encode), Probe(u, hot, encode).best, header);
      PhysicalAppend(Taken(init, hot, encode), Policy(u, hot, encode).best, header);
      PhysicalAppend(Stored(init), u.stored, header);
      if Recovers(u, hot, encode) {
        assert u in units;
      }
      assert forall x :: x in init ==> x in units;
    }
  }

  lemma PhysicalAppend(encoded: seq<Coded>, c: Coded, header: nat)
    ensures PhysicalBytes(encoded + [c], header) == PhysicalBytes(encoded, header) + header + Size(c)
  {
    assert (encoded + [c])[..|encoded|] == encoded;
  }

  lemma PackNeverRegresses(u: Unit, hot: set<int>, encode: Encoder)
    ensures Size(Probe(u, hot, encode).best) <= Size(Policy(u, hot, encode).best) <= Size(u.stored)
    ensures Size(Probe(u, hot, encode).best) < Size(Policy(u, hot, encode).best) <==> Recovers(u, hot, encode)
  {
    if u.index !in hot {
      RecoverExact(u.stored, 0, u.raw, POLICY_LEVELS, encode);
    }
  }

  /** A workload: its packs, and which of them are hot. */
  datatype Workload = Workload(units: seq<Unit>, hot: set<int>)

  /** `held_no_regress` */
  predicate NoRegression(held: seq<Workload>, encode: Encoder, header: nat) {
    forall w :: w in held ==>
      PhysicalBytes(Probed(w.units, w.hot, encode), header) <= PhysicalBytes(Taken(w.units, w.hot, encode), header)
  }

  /** The held-out density gate cannot fail. */
  lemma GateNeverFails(held: seq<Workload>, encode: Encoder, header: nat)
    ensures NoRegression(held, encode, header)
  {
    forall w | w in held
      ensures PhysicalBytes(Probed(w.units, w.hot, encode), header)
              <= PhysicalBytes(Taken(w.units, w.hot, encode), header)
    {
      ProbeNeverRegresses(w.units, w.hot, encode, header);
    }
  }

  // ----- The audit of the stop law

  datatype Missed = Missed(index: int, stopLevel: int, policyBytes: nat, laterBest: nat, missed: nat)

  /** Reconstruct from the sizes alone where the policy stopped. */
  function Replay(best: nat, levels: seq<int>, curve: int -> nat): (nat, Option<int>)
    decreases |levels|
  {
    if levels == [] then (best, None)
    else if curve(levels[0]) <= best then Replay(Smaller(best, curve(levels[0])), levels[1..], curve)
    else (best, Some(levels[0]))
  }

  function Later(levels: seq<int>, stop: int): (r: seq<int>) {
    if levels == [] then [] else (if levels[0] > stop then [levels[0]] else []) + Later(levels[1..], stop)
  }

  /** `min(..., default=...)` */
  function MinOr(default: nat, levels: seq<int>, curve: int -> nat): nat {
    if levels == [] then default else MinSize(curve(levels[0]), levels[1..], curve)
  }

  function AuditPack(u: Unit, selected: nat, encode: Encoder): seq<Missed> {
    var curve := CurveOf(u.raw, encode);
    var (best, stop) := Replay(Size(u.stored), POLICY_LEVELS, curve);
    if stop.None? then []
    else
      var later := MinOr(best, Later(POLICY_LEVELS, stop.value), curve);
      if later < selected then [Missed(u.index, stop.value, selected, later, selected - later)] else []
  }

  function Audit(units: seq<Unit>, hot: set<int>, selected: seq<Coded>, encode: Encoder): seq<Missed>
    requires |selected| == |units|
  {
    if units == [] then []
    else
      var last := |units| - 1;
      Audit(units[..last], hot, selected[..last], encode)
      + if units[last].index in hot then [] else AuditPack(units[last], Size(selected[last]), encode)
  }

  function MissedBytes(ms: seq<Missed>): nat {
    if ms == [] then 0 else MissedBytes(ms[..|ms| - 1]) + ms[|ms| - 1].missed
  }

  lemma {:induction false} ReplayIsClimb(best: Coded, level: int, raw: Bytes, levels: seq<int>, encode: Encoder)
    ensures var t := Climb(best, level, raw, levels, encode);
            Replay(Size(best), levels, CurveOf(raw, encode)) == (Size(t.best), t.stop)
    decreases |levels|
  {
    if levels != [] && Size(encode(raw, levels[0])) <= Size(best) {
      var better := Size(encode(raw, levels[0])) < Size(best);
      ReplayIsClimb(if better then encode(raw, levels[0]) else best, if better then levels[0] else level,
                    raw, levels[1..], encode);
    }
  }

  ghost predicate Climbing(levels: seq<int>) {
    forall i, j | 0 <= i < j < |levels| :: levels[i] < levels[j]
  }

  lemma {:induction false} LaterExact(levels: seq<int>, stop: int)
    ensures forall l :: l in Later(levels, stop) <==> l in levels && l > stop
  {
    if levels != [] {
      LaterExact(levels[1..], stop);
      assert levels == [levels[0]] + levels[1..];
    }
  }

  lemma MinOrExact(default: nat, levels: seq<int>, curve: int -> nat)
    requires levels != []
    ensures forall l :: l in levels ==> MinOr(default, levels, curve) <= curve(l)
    ensures exists l :: l in levels && MinOr(default, levels, curve) == curve(l)
  {
    MinSizeExact(curve(levels[0]), levels[1..], curve);
    assert levels[0] in levels && forall l :: l in levels <==> l == levels[0] || l in levels[1..];
  }

  lemma LevelSplit(levels: seq<int>, n: nat, l: int)
    requires Climbing(levels) && n < |levels| && l in levels
    ensures l in levels[..n] || l == levels[n] || l > levels[n]
  {
    var k :| 0 <= k < |levels| && levels[k] == l;
    if k < n {
      assert levels[..n][k] == l;
    }
  }

  /** If the policy stopped, whatever beats its selection lies behind the stop. */
  lemma LeastBehindStop(size: nat, levels: seq<int>, curve: int -> nat, n: nat)
    requires Climbing(levels) && StopsAfter(size, levels, curve, n) && n < |levels|
    ensures var selected, least := MinSize(size, levels[..n], curve), MinSize(size, levels, curve);
            var laterBest := MinOr(selected, Later(levels, levels[n]), curve);
            least == if laterBest < selected then laterBest else selected
  {
    hide MinSize, MinOr, Later;
    var selected, least := MinSize(size, levels[..n], curve), MinSize(size, levels, curve);
    var later := Later(levels, levels[n]);
    MinSizeExact(size, levels, curve);
    MinSizeExact(size, levels[..n], curve);
    LaterExact(levels, levels[n]);
    if later != [] {
      MinOrExact(selected, later, curve);
    } else {
      NothingLater(selected, curve);
    }
    forall l | l in levels ensures curve(l) >= selected || l in later {
      LevelSplit(levels, n, l);
    }
    assert least <= selected by {
      assert forall l :: l in levels[..n] ==> l in levels;
    }
  }

  lemma NothingLater(default: nat, curve: int -> nat)
    ensures MinOr(default, [], curve) == default
  {
  }

  /** What the audit reports for a cold pack is exactly its distance from the best of the stored size
      and all policy levels. */
  lemma AuditPackExact(u: Unit, encode: Encoder)
    ensures var selected := Size(Climb(u.stored, 0, u.raw, POLICY_LEVELS, encode).best);
            var least := MinSize(Size(u.stored), POLICY_LEVELS, CurveOf(u.raw, encode));
            && least <= selected
            && MissedBytes(AuditPack(u, selected, encode)) == selected - least
  {
    hide MinSize, MinOr, Later, Climb, Replay, StopsAfter;
    var curve := CurveOf(u.raw, encode);
    var selected := Size(Climb(u.stored, 0, u.raw, POLICY_LEVELS, encode).best);
    ReplayIsClimb(u.stored, 0, u.raw, POLICY_LEVELS, encode);
    var n := ClimbExact(u.stored, 0, u.raw, POLICY_LEVELS, encode);
    if n < |POLICY_LEVELS| {
      LeastBehindStop(Size(u.stored), POLICY_LEVELS, curve, n);
      var report := AuditPack(u, selected, encode);
      if report != [] {
        OneMissed(report[0]);
      }
    } else {
      assert POLICY_LEVELS[..n] == POLICY_LEVELS;
    }
  }

  lemma OneMissed(m: Missed)
    ensures MissedBytes([m]) == m.missed
  {
    assert [m][..0] == [];
  }

  lemma {:induction false} MissedAppend(a: seq<Missed>, b: seq<Missed>)
    ensures MissedBytes(a + b) == MissedBytes(a) + MissedBytes(b)
  {
    if b == [] {
      assert a + b == a;
    } else {
      assert (a + b)[..|a + b| - 1] == a + b[..|b| - 1];
      MissedAppend(a, b[..|b| - 1]);
    }
  }

  /** By how much the policy's selection exceeds the best policy level, over the cold packs. */
  function Excess(units: seq<Unit>, hot: set<int>, encode: Encoder): int {
    if units == [] then 0
    else
      var u := units[|units| - 1];
      Excess(units[..|units| - 1], hot, encode)
      + if u.index in hot then 0
        else Size(Policy(u, hot, encode).best) - MinSize(Size(u.stored), POLICY_LEVELS, CurveOf(u.raw, encode))
  }

  ghost predicate Optimal(u: Unit, hot: set<int>, encode: Encoder) {
    Size(Policy(u, hot, encode).best) == MinSize(Size(u.stored), POLICY_LEVELS, CurveOf(u.raw, encode))
  }

  lemma {:induction false} TakenLength(units: seq<Unit>, hot: set<int>, encode: Encoder)
    ensures |Taken(units, hot, encode)| == |units|
  {
    if units != [] {
      TakenLength(units[..|units| - 1], hot, encode);
    }
  }

  /** Conservation: the bytes that the audit reports are those by which the policy's selection exceeds
      the best policy level, summed over the cold packs; none exactly when every cold pack is optimal. */
  lemma {:induction false} MissedBytesConserved(units: seq<Unit>, hot: set<int>, encode: Encoder)
    ensures |Taken(units, hot, encode)| == |units|
    ensures MissedBytes(Audit(units, hot, Taken(units, hot, encode), encode)) == Excess(units, hot, encode)
    ensures Excess(units, hot, encode) == 0 <==>
            forall u :: u in units && u.index !in hot ==> Optimal(u, hot, encode)
  {
    hide MinSize, Climb, AuditPack;
    TakenLength(units, hot, encode);
    if units != [] {
      var last := |units| - 1;
      var init, u, selected := units[..last], units[last], Taken(units, hot, encode);
      assert units == init + [u];
      TakenLength(init, hot, encode);
      assert selected[..last] == Taken(init, hot, encode);
      MissedBytesConserved(init, hot, encode);
      var report := if u.index in hot then [] else AuditPack(u, Size(selected[last]), encode);
      MissedAppend(Audit(init, hot, selected[..last], encode), report);
      if u.index !in hot {
        AuditPackExact(u, encode);
      }
      assert forall x :: x in units <==> x in init || x == u;
    }
  }
}
