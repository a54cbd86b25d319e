/** The same early-stop policy replayed over a measured size curve, and what the curve says about it. */
module EffortEconomics {
  import opened Results
  import opened Numbers
  import opened Effort

  const LEVELS: seq<int> := [1, 3, 6, 9, 12, 19]

  datatype Sample = Sample(bytes: nat, cpu: real, wall: real)

  type Curve = map<int, Sample>

  predicate Measured(curve: Curve) {
    forall l :: l in LEVELS ==> l in curve
  }

  datatype History =
    History(chosenLevel: int, chosenBytes: nat, firstWorse: Option<int>, attempted: seq<int>, cpu: real, wall: real)

  function Replayed(level: int, bytes: nat, levels: seq<int>, curve: Curve): History
    requires forall l :: l in levels ==> l in curve
    decreases |levels|
  {
    if levels == [] then History(level, bytes, None, [], 0.0, 0.0)
    else
      var l := levels[0];
      assert l in levels;
      var s := curve[l];
      var h := if s.bytes > bytes then History(level, bytes, Some(l), [], 0.0, 0.0)
               else Replayed(if s.bytes < bytes then l else level, Smaller(bytes, s.bytes), levels[1..], curve);
      h.(attempted := [l] + h.attempted, cpu := s.cpu + h.cpu, wall := s.wall + h.wall)
  }

  function HistoryOf(curve: Curve): History
    requires Measured(curve)
  {
    Replayed(1, curve[1].bytes, POLICY_LEVELS, curve)
  }

  /** The size at a level; levels that were not measured do not matter. */
  function Bytes(curve: Curve): int -> nat {
    (l: int) => if l in curve then curve[l].bytes else 0
  }

  /** The curve was measured on this pack. */
  ghost predicate CurveOfPack(curve: Curve, u: Unit, encode: Encoder) {
    && Measured(curve)
    && (forall l :: l in LEVELS ==> curve[l].bytes == Size(encode(u.raw, l)))
    && Size(u.stored) == curve[1].bytes
  }

  lemma {:induction false} ReplayedIsClimb(
    best: Coded, level: int, chosen: int, u: Unit, levels: seq<int>, curve: Curve, encode: Encoder)
    requires CurveOfPack(curve, u, encode) && forall l :: l in levels ==> l in LEVELS
    requires chosen == if level == 0 then 1 else level
    requires 0 !in levels
    ensures var h, t := Replayed(chosen, Size(best), levels, curve), Climb(best, level, u.raw, levels, encode);
            && h.chosenBytes == Size(t.best)
            && h.firstWorse == t.stop
            && |h.attempted| == t.attempts
            && h.attempted <= levels
            && h.chosenLevel == (if t.level == 0 then 1 else t.level)
    decreases |levels|
  {
    if levels != [] {
      var l := levels[0];
      assert l in levels && forall x :: x in levels[1..] ==> x in levels;
      if Size(encode(u.raw, l)) <= Size(best) {
        var better := Size(encode(u.raw, l)) < Size(best);
        ReplayedIsClimb(if better then encode(u.raw, l) else best, if better then l else level,
                        if better then l else chosen, u, levels[1..], curve, encode);
      }
    }
  }

  /** The replay over the curve is the policy: when the stored payload is the one of level 1, it takes
      the same level and size, tries as many levels and stops at the same one. */
  lemma HistoryIsPolicy(curve: Curve, u: Unit, encode: Encoder)
    requires CurveOfPack(curve, u, encode)
    ensures var h, t := HistoryOf(curve), Climb(u.stored, 0, u.raw, POLICY_LEVELS, encode);
            && h.chosenBytes == Size(t.best)
            && h.firstWorse == t.stop
            && |h.attempted| == t.attempts
            && h.attempted <= POLICY_LEVELS
            && h.chosenLevel == (if t.level == 0 then 1 else t.level)
  {
    ReplayedIsClimb(u.stored, 0, 1, u, POLICY_LEVELS, curve, encode);
  }

  // ----- The oracle part of a pack's row

  datatype Oracle = Oracle(
    bestLevel: int, bestBytes: nat, missed: nat, laterRecovery: bool, laterBestLevel: Option<int>, laterBestBytes: nat,
    l9Detects: bool, postL9Headroom: nat)

  /** `min(levels, key=...)` over ascending levels: the smallest size, and of several levels the lowest. */
  function BestLevel(levels: seq<int>, size: int -> nat): int
    requires levels != []
  {
    if |levels| == 1 then levels[0]
    else
      var rest := BestLevel(levels[1..], size);
      if size(levels[0]) <= size(rest) then levels[0] else rest
  }

  function OracleOf(curve: Curve): Oracle
    requires Measured(curve)
  {
    var hist, size := HistoryOf(curve), Bytes(curve);
    var best := MinOr(0, LEVELS, size);
    var later := if hist.firstWorse.Some? then Later(LEVELS, hist.firstWorse.value) else [];
    var laterBest := MinOr(hist.chosenBytes, later, size);
    var detects := hist.firstWorse.Some? && hist.firstWorse.value < 9 && size(9) < hist.chosenBytes;
    Oracle(BestLevel(LEVELS, size), best, NonNegative(hist.chosenBytes - best),
           hist.firstWorse.Some? && laterBest < hist.chosenBytes,
           if later == [] then None else Some(BestLevel(later, size)), laterBest,
           detects, if detects then NonNegative(size(9) - Smaller(size(12), size(19))) else 0)
  }

  /** What the replay chooses is the size of a measured level, and no level that it accepted is smaller. */
  lemma {:induction false} ReplayedExact(level: int, bytes: nat, levels: seq<int>, curve: Curve)
    requires forall l :: l in levels ==> l in curve
    requires Climbing(levels)
    ensures var h := Replayed(level, bytes, levels, curve);
            && h.chosenBytes <= bytes
            && (h.chosenBytes == bytes || exists l :: l in levels && curve[l].bytes == h.chosenBytes)
            && (h.firstWorse.Some? ==> h.firstWorse.value in levels)
            && forall l :: l in levels && (h.firstWorse.None? || l <= h.firstWorse.value) ==>
                 curve[l].bytes >= h.chosenBytes
    decreases |levels|
  {
    if levels != [] {
      assert levels[0] in levels;
      var s := curve[levels[0]];
      assert levels == [levels[0]] + levels[1..];
      assert Climbing(levels[1..]);
      forall x | x in levels[1..] ensures x > levels[0] {
        var k :| 0 <= k < |levels[1..]| && levels[1..][k] == x;
        assert levels[k + 1] == x;
      }
      if s.bytes <= bytes {
        ReplayedExact(if s.bytes < bytes then levels[0] else level, Smaller(bytes, s.bytes), levels[1..], curve);
      }
    }
  }

  /** The oracle's numbers are consistent. The clamp on `missed` never acts; bytes are missed exactly
      when a level behind the stop is smaller, or level 9, which the policy does not try; and a later
      recovery is worth no more than what is missed. */
  lemma OracleExact(curve: Curve)
    requires Measured(curve)
    ensures var o, h := OracleOf(curve), HistoryOf(curve);
            && o.bestBytes + o.missed == h.chosenBytes
            && (forall l :: l in LEVELS ==> o.bestBytes <= curve[l].bytes)
            && (exists l :: l in LEVELS && o.bestBytes == curve[l].bytes)
            && (o.missed > 0 <==> o.laterRecovery || curve[9].bytes < h.chosenBytes)
            && (o.laterRecovery ==> h.chosenBytes - o.laterBestBytes <= o.missed)
            && (o.l9Detects ==> o.laterRecovery)
  {
    hide MinOr, Later, HistoryOf, BestLevel;
    var h, o := HistoryOf(curve), OracleOf(curve);
    LeastLevel(curve);
    HistoryExact(curve);
    LaterLevels(curve, h);
    assert 9 in LEVELS;
    if o.missed > 0 && curve[9].bytes >= h.chosenBytes {
      var l :| l in LEVELS && o.bestBytes == curve[l].bytes;
      assert o.laterRecovery;
    }
  }

  lemma LeastLevel(curve: Curve)
    requires Measured(curve)
    ensures var best := MinOr(0, LEVELS, Bytes(curve));
            && (forall l :: l in LEVELS ==> best <= curve[l].bytes)
            && exists l :: l in LEVELS && best == curve[l].bytes
  {
    hide MinOr;
    var best, size := MinOr(0, LEVELS, Bytes(curve)), Bytes(curve);
    MinOrExact(0, LEVELS, size);
    forall l | l in LEVELS ensures best <= curve[l].bytes {
      assert best <= size(l);
    }
    var l :| l in LEVELS && best == size(l);
  }

  /** What the replay chooses is measured; everything smaller lies behind the stop or is level 9. */
  lemma HistoryExact(curve: Curve)
    requires Measured(curve)
    ensures var h := HistoryOf(curve);
            && (exists l :: l in LEVELS && curve[l].bytes == h.chosenBytes)
            && (h.firstWorse.Some? ==> h.firstWorse.value in LEVELS)
            && forall l :: l in LEVELS && l != 9 && (h.firstWorse.None? || l <= h.firstWorse.value)
                 ==> curve[l].bytes >= h.chosenBytes
  {
    hide Replayed;
    ReplayedExact(1, curve[1].bytes, POLICY_LEVELS, curve);
    assert 1 in LEVELS && forall l :: l in POLICY_LEVELS ==> l in LEVELS;
    assert forall l :: l in LEVELS ==> l == 9 || l == 1 || l in POLICY_LEVELS;
  }

  lemma {:induction false} BestLevelExact(levels: seq<int>, size: int -> nat)
    requires levels != [] && Climbing(levels)
    ensures var b := BestLevel(levels, size);
            && b in levels
            && forall l :: l in levels ==> size(b) < size(l) || (size(b) == size(l) && b <= l)
  {
    assert levels == [levels[0]] + levels[1..];
    if |levels| > 1 {
      var rest := levels[1..];
      assert Climbing(rest) by {
        assert forall i :: 0 <= i < |rest| ==> rest[i] == levels[i + 1];
      }
      BestLevelExact(rest, size);
      forall l | l in rest ensures levels[0] < l {
        var k :| 0 <= k < |rest| && rest[k] == l;
        assert levels[k + 1] == l;
      }
    }
  }

  /** The levels that the oracle names are those of its sizes, and the lowest of their size: the best of
      all levels, and the best of those behind the stop if there are any. */
  lemma OracleLevels(curve: Curve)
    requires Measured(curve)
    ensures var o, h := OracleOf(curve), HistoryOf(curve);
            && o.bestLevel in LEVELS && curve[o.bestLevel].bytes == o.bestBytes
            && (forall l :: l in LEVELS && curve[l].bytes == o.bestBytes ==> o.bestLevel <= l)
            && (o.laterBestLevel.Some? <==> h.firstWorse.Some? && exists l :: l in LEVELS && l > h.firstWorse.value)
            && (o.laterBestLevel.Some? ==>
                  var m := o.laterBestLevel.value;
                  && m in LEVELS && m > h.firstWorse.value && curve[m].bytes == o.laterBestBytes
                  && forall l :: l in LEVELS && l > h.firstWorse.value ==>
                       curve[m].bytes < curve[l].bytes || (curve[m].bytes == curve[l].bytes && m <= l))
  {
    hide HistoryOf, MinOr, Later, BestLevel;
    var size, h := Bytes(curve), HistoryOf(curve);
    LeastLevel(curve);
    BestLevelExact(LEVELS, size);
    if h.firstWorse.Some? {
      BestLater(curve, h.firstWorse.value, h.chosenBytes);
    }
  }

  lemma BestLater(curve: Curve, stop: int, default: nat)
    requires Measured(curve)
    ensures var later, size := Later(LEVELS, stop), Bytes(curve);
            && (later != [] <==> exists l :: l in LEVELS && l > stop)
            && (later != [] ==>
                  var m := BestLevel(later, size);
                  && m in LEVELS && m > stop && curve[m].bytes == MinOr(default, later, size)
                  && forall l :: l in LEVELS && l > stop ==>
                       curve[m].bytes < curve[l].bytes || (curve[m].bytes == curve[l].bytes && m <= l))
  {
    hide MinOr, Later, BestLevel;
    var later, size := Later(LEVELS, stop), Bytes(curve);
    LaterExact(LEVELS, stop);
    if later != [] {
      assert later[0] in later;
      LaterClimbs(LEVELS, stop);
      MinOrExact(default, later, size);
      BestLevelExact(later, size);
    }
  }

  lemma {:induction false} LaterClimbs(levels: seq<int>, stop: int)
    requires Climbing(levels)
    ensures Climbing(Later(levels, stop))
  {
    hide Climbing;
    if levels != [] {
      var rest := levels[1..];
      ClimbingTail(levels);
      LaterClimbs(rest, stop);
      LaterExact(rest, stop);
      var out, tail := Later(levels, stop), Later(rest, stop);
      assert out == tail || out == [levels[0]] + tail;
      if out != tail {
        ClimbingCons(levels[0], tail);
      }
    } else {
      NothingClimbs();
    }
  }

  lemma NothingClimbs()
    ensures Climbing([])
  {
  }

  lemma ClimbingTail(levels: seq<int>)
    requires levels != [] && Climbing(levels)
    ensures Climbing(levels[1..]) && forall l :: l in levels[1..] ==> levels[0] < l
  {
    var rest := levels[1..];
    assert forall i :: 0 <= i < |rest| ==> rest[i] == levels[i + 1];
  }

  lemma ClimbingCons(first: int, tail: seq<int>)
    requires Climbing(tail) && forall l :: l in tail ==> first < l
    ensures Climbing([first] + tail)
  {
    var out := [first] + tail;
    forall i, j | 0 <= i < j < |out| ensures out[i] < out[j] {
      assert out[j] == tail[j - 1] && tail[j - 1] in tail;
      assert i > 0 ==> out[i] == tail[i - 1];
    }
  }

  lemma LaterLevels(curve: Curve, h: History)
    requires Measured(curve)
    ensures h.firstWorse.Some? ==>
              var later := Later(LEVELS, h.firstWorse.value);
              var m := MinOr(h.chosenBytes, later, Bytes(curve));
              && (forall l :: l in LEVELS && l > h.firstWorse.value ==> m <= curve[l].bytes)
              && (m == h.chosenBytes || exists l :: l in LEVELS && l > h.firstWorse.value && m == curve[l].bytes)
  {
    if h.firstWorse.Some? {
      var later := Later(LEVELS, h.firstWorse.value);
      LaterExact(LEVELS, h.firstWorse.value);
      if later != [] {
        MinOrExact(h.chosenBytes, later, Bytes(curve));
      } else {
        NothingLater(h.chosenBytes, Bytes(curve));
      }
    }
  }

  /** Level 9 is seen to detect a recovery in the economics exactly where the probe policy wins. */
  lemma DetectionIsProbeWin(curve: Curve, u: Unit, encode: Encoder)
    requires CurveOfPack(curve, u, encode)
    ensures OracleOf(curve).l9Detects <==> Recover(u.stored, u.raw, POLICY_LEVELS, false, encode).wins == 1
    ensures OracleOf(curve).l9Detects <==>
              Size(Recover(u.stored, u.raw, POLICY_LEVELS, false, encode).best) < HistoryOf(curve).chosenBytes
  {
    hide Replayed, Climb, Recover, MinOr, Later;
    HistoryIsPolicy(curve, u, encode);
    RecoverExact(u.stored, 0, u.raw, POLICY_LEVELS, encode);
    assert 9 in LEVELS;
  }

  // ----- The loop

  /** A history once `attempted` has been walked already. */
  function Walked(attempted: seq<int>, cpu: real, wall: real, rest: History): History {
    rest.(attempted := attempted + rest.attempted, cpu := cpu + rest.cpu, wall := wall + rest.wall)
  }

  lemma WalkedStep(attempted: seq<int>, cpu: real, wall: real, level: int, bytes: nat, levels: seq<int>, curve: Curve)
    requires levels != [] && levels[0] in curve && forall l :: l in levels ==> l in curve
    ensures var s := curve[levels[0]];
            var walked := attempted + [levels[0]];
            Walked(attempted, cpu, wall, Replayed(level, bytes, levels, curve)) ==
            if s.bytes > bytes then History(level, bytes, Some(levels[0]), walked, cpu + s.cpu, wall + s.wall)
            else Walked(walked, cpu + s.cpu, wall + s.wall,
                        Replayed(if s.bytes < bytes then levels[0] else level, Smaller(bytes, s.bytes), levels[1..],
                                 curve))
  {
    var s := curve[levels[0]];
    if s.bytes > bytes {
      assert attempted + ([levels[0]] + []) == attempted + [levels[0]];
    } else {
      var rest := Replayed(if s.bytes < bytes then levels[0] else level, Smaller(bytes, s.bytes), levels[1..], curve);
      assert attempted + ([levels[0]] + rest.attempted) == attempted + [levels[0]] + rest.attempted;
    }
  }

  /** `_historical` */
  method Historical(curve: Curve) returns (h: History)
    requires Measured(curve)
    ensures h == HistoryOf(curve)
  {
    hide Replayed;
    var level, bytes := 1, curve[1].bytes;
    var attempted: seq<int> := [];
    var cpu, wall := 0.0, 0.0;
    assert POLICY_LEVELS[0..] == POLICY_LEVELS && [] + HistoryOf(curve).attempted == HistoryOf(curve).attempted;
    for k := 0 to |POLICY_LEVELS|
      invariant HistoryOf(curve) == Walked(attempted, cpu, wall, Replayed(level, bytes, POLICY_LEVELS[k..], curve))
    {
      var l := POLICY_LEVELS[k];
      assert POLICY_LEVELS[k..][0] == l && POLICY_LEVELS[k..][1..] == POLICY_LEVELS[k + 1..];
      assert l in POLICY_LEVELS && l in LEVELS;
      WalkedStep(attempted, cpu, wall, level, bytes, POLICY_LEVELS[k..], curve);
      attempted := attempted + [l];
      cpu := cpu + curve[l].cpu;
      wall := wall + curve[l].wall;
      var size := curve[l].bytes;
      if size <= bytes {
        if size < bytes {
          level := l;
          bytes := size;
        }
        continue;
      }
      return History(level, bytes, Some(l), attempted, cpu, wall);
    }
    WalkedAll(attempted, cpu, wall, level, bytes, curve);
    h := History(level, bytes, None, attempted, cpu, wall);
  }

  lemma WalkedAll(attempted: seq<int>, cpu: real, wall: real, level: int, bytes: nat, curve: Curve)
    ensures Walked(attempted, cpu, wall, Replayed(level, bytes, [], curve))
            == History(level, bytes, None, attempted, cpu, wall)
  {
    assert attempted + [] == attempted;
  }
}
