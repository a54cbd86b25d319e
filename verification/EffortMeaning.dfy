/** The effort policies and their reports, told by the measured sizes alone. */
module EffortMeaning {
  import opened Results
  import opened ByteLayout
  import opened Numbers
  import opened Effort
  import opened EffortRuns
  import opened EffortEconomics

  // ----- One pack

  /** The stored size, then the size at every level. */
  function Sizes(stored: Coded, raw: Bytes, levels: seq<int>, encode: Encoder): (r: seq<nat>)
    ensures |r| == |levels| + 1
  {
    [|stored.payload|] + seq(|levels|, k requires 0 <= k < |levels| => |encode(raw, levels[k]).payload|)
  }

  /** From the first size on, `n` more never rise, and the next one does. */
  ghost predicate FallsFor(sizes: seq<nat>, n: nat) {
    && n < |sizes|
    && (forall k :: 0 < k <= n ==> NoRise(sizes, k))
    && (n + 1 < |sizes| ==> !NoRise(sizes, n + 1))
  }

  predicate NoRise(sizes: seq<nat>, k: nat)
    requires 0 < k < |sizes|
  {
    sizes[k] <= sizes[k - 1]
  }

  /** Of the sizes up to `n`, the `k`-th is the first that is as small as the last. */
  ghost predicate FirstOfLast(sizes: seq<nat>, k: nat, n: nat) {
    && k <= n < |sizes| && sizes[k] == sizes[n]
    && forall j :: 0 <= j < k ==> sizes[j] > sizes[k]
  }

  lemma FallsCons(sizes: seq<nat>, first: nat, n: nat)
    requires sizes != [] && sizes[0] <= first && FallsFor(sizes, n)
    ensures FallsFor([first] + sizes, n + 1)
  {
    var all := [first] + sizes;
    forall k | 0 < k <= n + 1 ensures NoRise(all, k) {
      if k > 1 {
        assert NoRise(sizes, k - 1);
      }
    }
    if n + 2 < |all| {
      assert !NoRise(sizes, n + 1);
    }
  }

  lemma FirstCons(sizes: seq<nat>, first: nat, k: nat, n: nat)
    requires FirstOfLast(sizes, k, n) && sizes[0] <= first
    ensures sizes[0] < first || k > 0 ==> FirstOfLast([first] + sizes, k + 1, n + 1)
    ensures sizes[0] == first && k == 0 ==> FirstOfLast([first] + sizes, 0, n + 1)
  {
    var all := [first] + sizes;
    assert forall j :: 0 <= j < |sizes| ==> all[j + 1] == sizes[j];
    forall j | 0 <= j < k + 1 && (sizes[0] < first || k > 0) ensures all[j] > all[k + 1] {
      if j > 0 {
        assert all[j] == sizes[j - 1];
      } else if k > 0 {
        assert sizes[0] > sizes[k];
      }
    }
  }

  lemma ClimbStep(best: Coded, level: int, raw: Bytes, levels: seq<int>, encode: Encoder)
    requires levels != [] && |encode(raw, levels[0]).payload| <= |best.payload|
    ensures var tried := encode(raw, levels[0]);
            var better := |tried.payload| < |best.payload|;
            var next := if better then tried else best;
            && Sizes(best, raw, levels, encode) == [|best.payload|] + Sizes(next, raw, levels[1..], encode)
            && Sizes(next, raw, levels[1..], encode)[0] == |tried.payload|
            && var t := Climb(next, if better then levels[0] else level, raw, levels[1..], encode);
               Climb(best, level, raw, levels, encode) == t.(attempts := t.attempts + 1)
  {
  }

  /** The policy tries levels until one is larger than the one before; it keeps the first payload of the
      smallest size that it saw, the stored one before any other. */
  lemma {:induction false} ClimbMeans(best: Coded, level: int, raw: Bytes, levels: seq<int>, encode: Encoder)
    returns (n: nat, k: nat)
    ensures FallsFor(Sizes(best, raw, levels, encode), n) && FirstOfLast(Sizes(best, raw, levels, encode), k, n)
    ensures var t := Climb(best, level, raw, levels, encode);
            && t.best == (if k == 0 then best else encode(raw, levels[k - 1]))
            && t.level == (if k == 0 then level else levels[k - 1])
            && t.attempts == (if n < |levels| then n + 1 else n)
            && t.stop == (if n < |levels| then Some(levels[n]) else None)
    decreases |levels|
  {
    hide Sizes, FirstOfLast, FallsFor;
    var sizes := Sizes(best, raw, levels, encode);
    if levels != [] && |encode(raw, levels[0]).payload| <= |best.payload| {
      var tried := encode(raw, levels[0]);
      var better := |tried.payload| < |best.payload|;
      var next := if better then tried else best;
      ClimbStep(best, level, raw, levels, encode);
      var m, j := ClimbMeans(next, if better then levels[0] else level, raw, levels[1..], encode);
      FallsCons(Sizes(next, raw, levels[1..], encode), |best.payload|, m);
      FirstCons(Sizes(next, raw, levels[1..], encode), |best.payload|, j, m);
      n, k := m + 1, if better || j > 0 then j + 1 else 0;
    } else {
      n, k := 0, 0;
      StopsAtOnce(best, raw, levels, encode);
    }
  }

  lemma StopsAtOnce(best: Coded, raw: Bytes, levels: seq<int>, encode: Encoder)
    requires levels == [] || |encode(raw, levels[0]).payload| > |best.payload|
    ensures FallsFor(Sizes(best, raw, levels, encode), 0) && FirstOfLast(Sizes(best, raw, levels, encode), 0, 0)
  {
  }

  // ----- The audit of one pack

  /** The least of the sizes behind the `n`-th level; the `n`-th size if there are none. */
  ghost predicate LeastAfter(sizes: seq<nat>, n: nat, m: nat)
    requires n + 1 < |sizes|
  {
    if n + 2 == |sizes| then m == sizes[n]
    else (exists j :: n + 2 <= j < |sizes| && m == sizes[j]) && forall j :: n + 2 <= j < |sizes| ==> m <= sizes[j]
  }

  lemma {:induction false} LaterOf(levels: seq<int>, n: nat)
    requires Climbing(levels) && n < |levels|
    ensures Later(levels, levels[n]) == levels[n + 1..]
  {
    var rest := levels[1..];
    ClimbingTail(levels);
    if n > 0 {
      assert rest[n - 1] == levels[n];
      assert levels[0] < levels[n];
      LaterOf(rest, n - 1);
    } else {
      AllLater(rest, levels[0]);
    }
  }

  lemma {:induction false} AllLater(levels: seq<int>, stop: int)
    requires forall l :: l in levels ==> stop < l
    ensures Later(levels, stop) == levels
  {
    if levels != [] {
      assert levels[0] in levels && forall l :: l in levels[1..] ==> l in levels;
      AllLater(levels[1..], stop);
    }
  }

  /** A pack is reported when the least size behind the level that stopped the policy is below the
      selected size, and the report tells these numbers. */
  lemma AuditMeans(u: Unit, selected: nat, encode: Encoder) returns (n: nat, m: nat)
    ensures var sizes := Sizes(u.stored, u.raw, [3, 6, 12, 19], encode);
            && FallsFor(sizes, n)
            && (n == 4 ==> AuditPack(u, selected, encode) == [])
            && (n < 4 ==>
                  && LeastAfter(sizes, n, m)
                  && AuditPack(u, selected, encode) ==
                     if m < selected then [Missed(u.index, [3, 6, 12, 19][n], selected, m, selected - m)] else [])
  {
    hide Climb, MinSize, Later, Replay, FallsFor, Sizes;
    var curve, sizes := CurveOf(u.raw, encode), Sizes(u.stored, u.raw, POLICY_LEVELS, encode);
    var k;
    n, k := ClimbMeans(u.stored, 0, u.raw, POLICY_LEVELS, encode);
    ReplayIsClimb(u.stored, 0, u.raw, POLICY_LEVELS, encode);
    m := 0;
    if n < 4 {
      LaterOf(POLICY_LEVELS, n);
      m := MinOr(sizes[n], POLICY_LEVELS[n + 1..], curve);
      SizesAre(u, encode);
      assert Size(Climb(u.stored, 0, u.raw, POLICY_LEVELS, encode).best) == sizes[n];
      LeastBehind(u, n, encode);
    }
  }

  lemma SizesAre(u: Unit, encode: Encoder)
    ensures var sizes := Sizes(u.stored, u.raw, POLICY_LEVELS, encode);
            && sizes[0] == Size(u.stored)
            && forall k :: 0 < k < 5 ==> sizes[k] == Size(encode(u.raw, POLICY_LEVELS[k - 1]))
  {
  }

  lemma LeastBehind(u: Unit, n: nat, encode: Encoder)
    requires n < 4
    ensures var sizes, levels := Sizes(u.stored, u.raw, POLICY_LEVELS, encode), POLICY_LEVELS[n + 1..];
            LeastAfter(sizes, n, MinOr(sizes[n], levels, CurveOf(u.raw, encode)))
  {
    hide MinOr, Sizes;
    SizesAre(u, encode);
    var sizes, levels, curve := Sizes(u.stored, u.raw, POLICY_LEVELS, encode), POLICY_LEVELS[n + 1..],
                                CurveOf(u.raw, encode);
    if levels == [] {
      NothingLater(sizes[n], curve);
    } else {
      MinOrExact(sizes[n], levels, curve);
      var m := MinOr(sizes[n], levels, curve);
      forall j | n + 2 <= j < |sizes| ensures m <= sizes[j] {
        var l := POLICY_LEVELS[j - 1];
        assert l == levels[j - n - 2] && l in levels;
        assert sizes[j] == curve(l);
      }
      var l :| l in levels && m == curve(l);
      var i :| 0 <= i < |levels| && levels[i] == l;
      assert l == POLICY_LEVELS[n + 1 + i];
      assert sizes[n + 2 + i] == m;
    }
  }

  // ----- Whole runs

  /** The reports are those of the cold packs, in their order. */
  lemma {:induction false} AuditIsListed(units: seq<Unit>, hot: set<int>, selected: seq<Coded>, encode: Encoder)
    requires |selected| == |units|
    ensures Audit(units, hot, selected, encode) ==
            Joined(seq(|units|, i requires 0 <= i < |units| =>
              if units[i].index in hot then [] else AuditPack(units[i], |selected[i].payload|, encode)))
  {
    hide AuditPack;
    var reports := seq(|units|, i requires 0 <= i < |units| =>
      if units[i].index in hot then [] else AuditPack(units[i], |selected[i].payload|, encode));
    if units != [] {
      var last := |units| - 1;
      AuditIsListed(units[..last], hot, selected[..last], encode);
      assert reports[..last] == seq(last, i requires 0 <= i < last =>
        if units[..last][i].index in hot then []
        else AuditPack(units[..last][i], |selected[..last][i].payload|, encode));
    }
  }

  function Joined<T>(lists: seq<seq<T>>): seq<T> {
    if lists == [] then [] else Joined(lists[..|lists| - 1]) + lists[|lists| - 1]
  }

  /** The historical policy on every pack: a hot one is left as it is. */
  ghost function Traces(units: seq<Unit>, hot: set<int>, encode: Encoder): (r: seq<Trace>)
    ensures |r| == |units|
  {
    seq(|units|, i requires 0 <= i < |units| =>
      if units[i].index in hot then Trace(units[i].stored, 0, 0, None)
      else Climb(units[i].stored, 0, units[i].raw, [3, 6, 12, 19], encode))
  }

  ghost function ProbeTraces(units: seq<Unit>, hot: set<int>, encode: Encoder): (r: seq<ProbeTrace>)
    ensures |r| == |units|
  {
    seq(|units|, i requires 0 <= i < |units| =>
      if units[i].index in hot then ProbeTrace(units[i].stored, 0, 0, 0, 0)
      else Recover(units[i].stored, units[i].raw, [3, 6, 12, 19], false, encode))
  }

  lemma TracesLast(units: seq<Unit>, hot: set<int>, encode: Encoder)
    requires units != []
    ensures var init, u := units[..|units| - 1], units[|units| - 1];
            && Traces(units, hot, encode) == Traces(init, hot, encode) + [Policy(u, hot, encode)]
            && ProbeTraces(units, hot, encode) == ProbeTraces(init, hot, encode) + [Probe(u, hot, encode)]
  {
    hide Climb, Recover;
  }

  /** How many elements are so. */
  ghost function Count<T>(s: seq<T>, p: T -> bool): nat {
    |set i | 0 <= i < |s| && p(s[i])|
  }

  lemma CountLast<T>(s: seq<T>, x: T, p: T -> bool)
    ensures Count(s + [x], p) == Count(s, p) + if p(x) then 1 else 0
  {
    var all := s + [x];
    var before, after := set i | 0 <= i < |s| && p(s[i]), set i | 0 <= i < |all| && p(all[i]);
    assert after == if p(x) then before + {|s|} else before;
  }

  ghost function Sum<T>(s: seq<T>, n: T -> nat): int {
    Total(seq(|s|, i requires 0 <= i < |s| => n(s[i])))
  }

  lemma SumLast<T>(s: seq<T>, x: T, n: T -> nat)
    ensures Sum(s + [x], n) == Sum(s, n) + n(x)
  {
    var all := s + [x];
    var before := seq(|s|, i requires 0 <= i < |s| => n(s[i]));
    var after := seq(|all|, i requires 0 <= i < |all| => n(all[i]));
    assert after == before + [n(x)];
    TotalAppend(before, [n(x)]);
    assert [n(x)][1..] == [];
  }

  lemma {:induction false} SelectionExact(units: seq<Unit>, hot: set<int>, encode: Encoder)
    ensures |Taken(units, hot, encode)| == |Probed(units, hot, encode)| == |Stored(units)| == |units|
    ensures forall i :: 0 <= i < |units| ==>
              && Taken(units, hot, encode)[i] == Traces(units, hot, encode)[i].best
              && Probed(units, hot, encode)[i] == ProbeTraces(units, hot, encode)[i].best
              && Stored(units)[i] == units[i].stored
  {
    hide Policy, Probe, Traces, ProbeTraces;
    if units != [] {
      SelectionExact(units[..|units| - 1], hot, encode);
      TracesLast(units, hot, encode);
    }
  }

  lemma {:induction false} PhysicalExact(encoded: seq<Coded>, header: nat)
    ensures PhysicalBytes(encoded, header) == ByteTotal(encoded, header)
  {
    hide Sum;
    if encoded != [] {
      var init, last := encoded[..|encoded| - 1], encoded[|encoded| - 1];
      PhysicalExact(init, header);
      SumLast(init, last, (c: Coded) => header + |c.payload|);
      assert encoded == init + [last];
    } else {
      assert Sum<Coded>([], (c: Coded) => header + |c.payload|) == 0 by {
        NoneCounted<Coded>((c: Coded) => true, (c: Coded) => header + |c.payload|);
      }
    }
  }

  /** The gate: no workload needs more bytes, headers included, under the probe policy. */
  lemma GateExact(held: seq<Workload>, encode: Encoder, header: nat)
    ensures NoRegression(held, encode, header) <==>
            forall w :: w in held ==>
              ByteTotal(Probed(w.units, w.hot, encode), header) <= ByteTotal(Taken(w.units, w.hot, encode), header)
  {
    hide ByteTotal;
    forall w | w in held
      ensures ByteTotal(Probed(w.units, w.hot, encode), header) == PhysicalBytes(Probed(w.units, w.hot, encode), header)
      ensures ByteTotal(Taken(w.units, w.hot, encode), header) == PhysicalBytes(Taken(w.units, w.hot, encode), header)
    {
      PhysicalExact(Probed(w.units, w.hot, encode), header);
      PhysicalExact(Taken(w.units, w.hot, encode), header);
    }
  }

  /** Every payload with a header. */
  ghost function ByteTotal(encoded: seq<Coded>, header: nat): int {
    Sum(encoded, (c: Coded) => header + |c.payload|)
  }

  lemma NoneCounted<T>(p: T -> bool, n: T -> nat)
    ensures Count([], p) == 0 && Sum([], n) == 0
  {
  }

  /** What the historical run reports: the attempts of all packs, the packs on which it stopped, and for
      every level the packs left at it. */
  lemma {:induction false} PolicyStatsExact(units: seq<Unit>, hot: set<int>, encode: Encoder, level: int)
    ensures var ts := Traces(units, hot, encode);
            && Attempts(units, hot, encode) == Sum(ts, (t: Trace) => t.attempts)
            && EarlyStops(units, hot, encode) == Count(ts, (t: Trace) => t.stop.Some?)
            && LeftAt(units, hot, encode, level) == Count(ts, (t: Trace) => t.level == level)
  {
    hide Policy, Traces, Count, Sum;
    var ts := Traces(units, hot, encode);
    if units != [] {
      var init, u := units[..|units| - 1], units[|units| - 1];
      PolicyStatsExact(init, hot, encode, level);
      TracesLast(units, hot, encode);
      SumLast(Traces(init, hot, encode), Policy(u, hot, encode), (t: Trace) => t.attempts);
      CountLast(Traces(init, hot, encode), Policy(u, hot, encode), (t: Trace) => t.stop.Some?);
      CountLast(Traces(init, hot, encode), Policy(u, hot, encode), (t: Trace) => t.level == level);
    } else {
      assert ts == [];
      NoneCounted<Trace>((t: Trace) => t.stop.Some?, (t: Trace) => t.attempts);
      NoneCounted<Trace>((t: Trace) => t.level == level, (t: Trace) => t.attempts);
    }
  }

  /** What the probe run reports, as sums over its packs. */
  lemma {:induction false} ProbeStatsExact(units: seq<Unit>, hot: set<int>, encode: Encoder)
    ensures var s, ts := ProbeTotals(units, hot, encode), ProbeTraces(units, hot, encode);
            && s.attempts == Sum(ts, (t: ProbeTrace) => t.attempts) && s.probes == Sum(ts, (t: ProbeTrace) => t.probes)
            && s.wins == Sum(ts, (t: ProbeTrace) => t.wins) && s.stops == Sum(ts, (t: ProbeTrace) => t.stops)
  {
    hide Probe, ProbeTraces, Sum;
    var ts := ProbeTraces(units, hot, encode);
    if units != [] {
      var init, u := units[..|units| - 1], units[|units| - 1];
      ProbeStatsExact(init, hot, encode);
      TracesLast(units, hot, encode);
      var before, t := ProbeTraces(init, hot, encode), Probe(u, hot, encode);
      SumLast(before, t, (t: ProbeTrace) => t.attempts);
      SumLast(before, t, (t: ProbeTrace) => t.probes);
      SumLast(before, t, (t: ProbeTrace) => t.wins);
      SumLast(before, t, (t: ProbeTrace) => t.stops);
    } else {
      assert ts == [];
      NoneCounted<ProbeTrace>((t: ProbeTrace) => true, (t: ProbeTrace) => t.attempts);
      NoneCounted<ProbeTrace>((t: ProbeTrace) => true, (t: ProbeTrace) => t.probes);
      NoneCounted<ProbeTrace>((t: ProbeTrace) => true, (t: ProbeTrace) => t.wins);
      NoneCounted<ProbeTrace>((t: ProbeTrace) => true, (t: ProbeTrace) => t.stops);
    }
  }

  // ----- The replay over a measured curve

  ghost predicate AllMeasured(levels: seq<int>, curve: Curve) {
    forall l :: l in levels ==> l in curve
  }

  /** A first size, then the sizes at the levels. */
  function CurveSizes(curve: Curve, levels: seq<int>, first: nat): (r: seq<nat>)
    requires AllMeasured(levels, curve)
    ensures |r| == |levels| + 1
    decreases |levels|
  {
    if levels == [] then [first]
    else
      var l := levels[0];
      assert l in levels;
      [first] + CurveSizes(curve, levels[1..], curve[l].bytes)
  }

  function TimeOf(levels: seq<int>, curve: Curve, time: Sample -> real): real
    requires AllMeasured(levels, curve)
  {
    if levels == [] then 0.0
    else
      var l := levels[0];
      assert l in levels;
      time(curve[l]) + TimeOf(levels[1..], curve, time)
  }

  lemma MeasuredTail(levels: seq<int>, curve: Curve, n: nat)
    requires AllMeasured(levels, curve) && n <= |levels|
    ensures AllMeasured(levels[..n], curve)
    ensures levels != [] ==> levels[0] in curve && AllMeasured(levels[1..], curve)
  {
    if levels != [] {
      var l := levels[0];
      assert l in levels;
    }
  }

  lemma ReplayStep(level: int, bytes: nat, levels: seq<int>, curve: Curve)
    requires levels != [] && levels[0] in curve && AllMeasured(levels, curve) && AllMeasured(levels[1..], curve)
    ensures var s := curve[levels[0]];
            && CurveSizes(curve, levels, bytes) == [bytes] + CurveSizes(curve, levels[1..], s.bytes)
            && CurveSizes(curve, levels[1..], s.bytes)[0] == s.bytes
            && Replayed(level, bytes, levels, curve) ==
               if s.bytes > bytes then History(level, bytes, Some(levels[0]), [levels[0]], s.cpu, s.wall)
               else var h := Replayed(if s.bytes < bytes then levels[0] else level, s.bytes, levels[1..], curve);
                    h.(attempted := [levels[0]] + h.attempted, cpu := s.cpu + h.cpu, wall := s.wall + h.wall)
  {
  }

  lemma TimeCons(l: int, rest: seq<int>, curve: Curve, time: Sample -> real)
    requires AllMeasured([l] + rest, curve)
    ensures l in curve && AllMeasured(rest, curve)
    ensures TimeOf([l] + rest, curve, time) == time(curve[l]) + TimeOf(rest, curve, time)
  {
    var levels := [l] + rest;
    assert levels[0] in levels && levels[1..] == rest;
    assert forall x :: x in rest ==> x in levels;
  }

  /** What the replay tells is what it walked, `walked` levels of them. */
  ghost predicate Tells(h: History, walked: seq<int>, level: int, bytes: nat, curve: Curve) {
    && h.chosenLevel == level && h.chosenBytes == bytes && h.attempted == walked
    && AllMeasured(walked, curve)
    && h.cpu == TimeOf(walked, curve, (s: Sample) => s.cpu)
    && h.wall == TimeOf(walked, curve, (s: Sample) => s.wall)
  }

  lemma TellsCons(h: History, l: int, walked: seq<int>, level: int, bytes: nat, curve: Curve)
    requires Tells(h, walked, level, bytes, curve) && l in curve
    ensures var s := curve[l];
            Tells(h.(attempted := [l] + h.attempted, cpu := s.cpu + h.cpu, wall := s.wall + h.wall),
                  [l] + walked, level, bytes, curve)
  {
    hide TimeOf;
    assert AllMeasured([l] + walked, curve);
    TimeCons(l, walked, curve, (s: Sample) => s.cpu);
    TimeCons(l, walked, curve, (s: Sample) => s.wall);
  }

  lemma TellsNothing(level: int, bytes: nat, stop: Option<int>, curve: Curve)
    ensures Tells(History(level, bytes, stop, [], 0.0, 0.0), [], level, bytes, curve)
  {
  }

  lemma TellsOne(level: int, bytes: nat, l: int, curve: Curve)
    requires l in curve
    ensures var s := curve[l]; Tells(History(level, bytes, Some(l), [l], s.cpu, s.wall), [l], level, bytes, curve)
  {
    hide TimeOf;
    TellsNothing(level, bytes, Some(l), curve);
    TellsCons(History(level, bytes, Some(l), [], 0.0, 0.0), l, [], level, bytes, curve);
    assert [l] + [] == [l];
  }

  /** The replay walks the levels until one is larger than the one before, takes the first of the smallest
      size, and charges the times of all that it walked. */
  lemma {:induction false} ReplayMeans(level: int, bytes: nat, levels: seq<int>, curve: Curve)
    returns (n: nat, k: nat)
    requires AllMeasured(levels, curve)
    ensures FallsFor(CurveSizes(curve, levels, bytes), n) && FirstOfLast(CurveSizes(curve, levels, bytes), k, n)
    ensures k <= n <= |levels|
    ensures var h := Replayed(level, bytes, levels, curve);
            && Tells(h, levels[..if n < |levels| then n + 1 else n], if k == 0 then level else levels[k - 1],
                     CurveSizes(curve, levels, bytes)[k], curve)
            && h.firstWorse == (if n < |levels| then Some(levels[n]) else None)
    decreases |levels|
  {
    hide FirstOfLast, FallsFor, Tells, Replayed, CurveSizes, AllMeasured;
    n, k := 0, 0;
    if levels != [] {
      MeasuredTail(levels, curve, 0);
      var l, rest := levels[0], levels[1..];
      var next := curve[l].bytes;
      ReplayStep(level, bytes, levels, curve);
      if next <= bytes {
        var m, j := ReplayMeans(if next < bytes then l else level, next, rest, curve);
        FallsCons(CurveSizes(curve, rest, next), bytes, m);
        FirstCons(CurveSizes(curve, rest, next), bytes, j, m);
        n, k := m + 1, if next < bytes || j > 0 then j + 1 else 0;
        var walked := if m < |rest| then m + 1 else m;
        assert levels[..walked + 1] == [l] + rest[..walked];
        var h := Replayed(if next < bytes then l else level, next, rest, curve);
        TellsCons(h, l, rest[..walked], if j == 0 then (if next < bytes then l else level) else rest[j - 1],
                  CurveSizes(curve, rest, next)[j], curve);
      } else {
        assert levels[..1] == [l];
        SizesStop(CurveSizes(curve, levels, bytes));
        TellsOne(level, bytes, l, curve);
      }
    } else {
      NothingReplayed(level, bytes, curve);
      SizesStop(CurveSizes(curve, levels, bytes));
      TellsNothing(level, bytes, None, curve);
    }
  }

  lemma NothingReplayed(level: int, bytes: nat, curve: Curve)
    ensures AllMeasured([], curve) && CurveSizes(curve, [], bytes) == [bytes]
    ensures Replayed(level, bytes, [], curve) == History(level, bytes, None, [], 0.0, 0.0)
  {
  }

  lemma SizesStop(sizes: seq<nat>)
    requires sizes != [] && (|sizes| > 1 ==> sizes[1] > sizes[0])
    ensures FallsFor(sizes, 0) && FirstOfLast(sizes, 0, 0)
  {
  }

  /** The replay over a curve, told by the sizes at levels 1, 3, 6, 12 and 19. */
  lemma HistoryMeans(curve: Curve) returns (n: nat, k: nat)
    requires Measured(curve)
    ensures 1 in curve && 3 in curve && 6 in curve && 12 in curve && 19 in curve
    ensures var sizes, h := [curve[1].bytes, curve[3].bytes, curve[6].bytes, curve[12].bytes, curve[19].bytes],
                            HistoryOf(curve);
            && FallsFor(sizes, n) && FirstOfLast(sizes, k, n) && n <= 4
            && Tells(h, [3, 6, 12, 19][..if n < 4 then n + 1 else n], [1, 3, 6, 12, 19][k], sizes[k], curve)
            && h.firstWorse == if n < 4 then Some([3, 6, 12, 19][n]) else None
  {
    hide FallsFor, FirstOfLast, Replayed, Tells;
    assert 1 in LEVELS && 3 in LEVELS && 6 in LEVELS && 12 in LEVELS && 19 in LEVELS;
    assert AllMeasured(POLICY_LEVELS, curve);
    FourSizes(curve);
    n, k := ReplayMeans(1, curve[1].bytes, POLICY_LEVELS, curve);
  }

  lemma FourSizes(curve: Curve)
    requires 1 in curve && 3 in curve && 6 in curve && 12 in curve && 19 in curve
    requires AllMeasured(POLICY_LEVELS, curve)
    ensures CurveSizes(curve, POLICY_LEVELS, curve[1].bytes)
         == [curve[1].bytes, curve[3].bytes, curve[6].bytes, curve[12].bytes, curve[19].bytes]
  {
    assert [3, 6, 12, 19][1..] == [6, 12, 19] && [6, 12, 19][1..] == [12, 19] && [12, 19][1..] == [19];
  }

  /** The columns about level 9 and the levels behind the stop. */
  lemma HeadroomExact(curve: Curve)
    requires Measured(curve)
    ensures 9 in curve && 12 in curve && 19 in curve
    ensures var o, h := OracleOf(curve), HistoryOf(curve);
            var over12, over19 := curve[9].bytes - curve[12].bytes, curve[9].bytes - curve[19].bytes;
            && (o.l9Detects <==> h.firstWorse.Some? && h.firstWorse.value < 9 && curve[9].bytes < h.chosenBytes)
            && (!o.l9Detects ==> o.postL9Headroom == 0)
            && (o.l9Detects ==> over12 <= o.postL9Headroom && over19 <= o.postL9Headroom
                                && o.postL9Headroom in [0, over12, over19])
            && (o.laterBestLevel.None? ==> o.laterBestBytes == h.chosenBytes)
            && (o.laterRecovery <==> h.firstWorse.Some? && o.laterBestBytes < h.chosenBytes)
  {
    hide HistoryOf, BestLevel, Later, MinOr, Smaller;
    assert 9 in LEVELS && 12 in LEVELS && 19 in LEVELS;
    var h := HistoryOf(curve);
    ExtremesExact(curve[12].bytes, curve[19].bytes, 0);
    NothingLater(h.chosenBytes, EffortEconomics.Bytes(curve));
  }
}
