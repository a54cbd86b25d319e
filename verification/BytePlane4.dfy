/** A 4-way byte transpose with a tail, and the codec that tries it in front of a base codec. */
module BytePlane4 {
  import opened Results
  import opened ByteLayout

  const WIDTH := 4

  /** `BP4\x00\x01` */
  const MAGIC: Bytes := [66, 80, 52, 0, 1]

  const LEVEL := 19

  // ----- The transpose

  /** `main[i::WIDTH]` for a main part of `q` groups. */
  function Plane(raw: Bytes, q: nat, i: nat): (r: Bytes)
    requires i < WIDTH && WIDTH * q <= |raw|
    ensures |r| == q
    ensures forall k :: 0 <= k < q ==> r[k] == raw[WIDTH * k + i]
  {
    seq(q, k requires 0 <= k < q => raw[WIDTH * k + i])
  }

  function Shuffle4(raw: Bytes): (r: Bytes)
    ensures |r| == |raw|
  {
    var q := |raw| / WIDTH;
    Plane(raw, q, 0) + Plane(raw, q, 1) + Plane(raw, q, 2) + Plane(raw, q, 3) + raw[WIDTH * q..]
  }

  /** Position `p` of the main part came from plane `p % WIDTH`. */
  function Unshuffle4(s: Bytes): (r: Bytes)
    ensures |r| == |s|
  {
    var q := |s| / WIDTH;
    seq(|s|, p requires 0 <= p < |s| => if p < WIDTH * q then s[Source(p, q)] else s[p])
  }

  /** `(p % WIDTH) * q + p / WIDTH`, one plane after another. */
  function Source(p: nat, q: nat): (r: nat)
    requires p < WIDTH * q
    ensures r < WIDTH * q
  {
    PlaneStart(p % WIDTH, q) + p / WIDTH
  }

  function PlaneStart(i: nat, q: nat): nat
    requires i < WIDTH
  {
    if i == 0 then 0 else if i == 1 then q else if i == 2 then q + q else q + q + q
  }

  lemma ShuffledAt(raw: Bytes, i: nat, k: nat)
    requires i < WIDTH && k < |raw| / WIDTH
    ensures Shuffle4(raw)[PlaneStart(i, |raw| / WIDTH) + k] == raw[WIDTH * k + i]
  {
    var q := |raw| / WIDTH;
    var a, b, c, d := Plane(raw, q, 0), Plane(raw, q, 1), Plane(raw, q, 2), Plane(raw, q, 3);
    assert Shuffle4(raw) == a + b + c + d + raw[WIDTH * q..];
  }

  lemma ShuffledTail(raw: Bytes, p: nat)
    requires WIDTH * (|raw| / WIDTH) <= p < |raw|
    ensures Shuffle4(raw)[p] == raw[p]
  {
  }

  /** The four planes one after another, each every fourth byte of the main part; then the tail. */
  lemma ShuffleExact(raw: Bytes)
    ensures var q, s := |raw| / 4, Shuffle4(raw);
            && |s| == |raw|
            && (forall k | 0 <= k < q ::
                  s[k] == raw[4 * k] && s[q + k] == raw[4 * k + 1]
                  && s[q + q + k] == raw[4 * k + 2] && s[q + q + q + k] == raw[4 * k + 3])
            && s[4 * q..] == raw[4 * q..]
  {
    hide Shuffle4;
    var q, s := |raw| / WIDTH, Shuffle4(raw);
    forall k | 0 <= k < q
      ensures s[k] == raw[4 * k] && s[q + k] == raw[4 * k + 1]
      ensures s[q + q + k] == raw[4 * k + 2] && s[q + q + q + k] == raw[4 * k + 3]
    {
      ShuffledAt(raw, 0, k);
      ShuffledAt(raw, 1, k);
      ShuffledAt(raw, 2, k);
      ShuffledAt(raw, 3, k);
    }
    forall p | WIDTH * q <= p < |raw| ensures s[p] == raw[p] {
      ShuffledTail(raw, p);
    }
  }

  /** The two directions are inverse on byte strings of every length. */
  lemma UnshuffleUndoesShuffle(raw: Bytes)
    ensures Unshuffle4(Shuffle4(raw)) == raw
  {
    hide Shuffle4;
    var q, s := |raw| / WIDTH, Shuffle4(raw);
    forall p | 0 <= p < |raw| ensures Unshuffle4(s)[p] == raw[p] {
      if p < WIDTH * q {
        ShuffledAt(raw, p % WIDTH, p / WIDTH);
      } else {
        ShuffledTail(raw, p);
      }
    }
  }

  lemma ShuffleUndoesUnshuffle(s: Bytes)
    ensures Shuffle4(Unshuffle4(s)) == s
  {
    hide Shuffle4, PlaneStart;
    var q, raw := |s| / WIDTH, Unshuffle4(s);
    forall p | 0 <= p < |s| ensures Shuffle4(raw)[p] == s[p] {
      if p < WIDTH * q {
        var i, k := PlaneOf(p, q);
        ShuffledAt(raw, i, k);
        assert (WIDTH * k + i) % WIDTH == i && (WIDTH * k + i) / WIDTH == k;
        assert Source(WIDTH * k + i, q) == p;
      } else {
        ShuffledTail(raw, p);
      }
    }
  }

  lemma PlaneOf(p: nat, q: nat) returns (i: nat, k: nat)
    requires p < WIDTH * q
    ensures i < WIDTH && k < q && p == PlaneStart(i, q) + k
  {
    if p < q {
      i, k := 0, p;
    } else if p < q + q {
      i, k := 1, p - q;
    } else if p < q + q + q {
      i, k := 2, p - (q + q);
    } else {
      i, k := 3, p - (q + q + q);
    }
  }

  /** `_unshuffle4`: fill one plane after another into a fresh buffer. */
  method Unshuffle(shuffled: Bytes) returns (raw: Bytes)
    ensures raw == Unshuffle4(shuffled)
  {
    var q := |shuffled| / WIDTH;
    var main := WIDTH * q;
    var out := new byte[|shuffled|](p requires 0 <= p < |shuffled| => shuffled[p]);
    for i := 0 to WIDTH
      invariant forall p :: 0 <= p < main && p % WIDTH < i ==> out[p] == shuffled[Source(p, q)]
      invariant forall p :: main <= p < |shuffled| ==> out[p] == shuffled[p]
    {
      FillPlane(out, shuffled, q, i);
    }
    raw := out[..];
    assert forall p :: 0 <= p < |raw| ==> raw[p] == Unshuffle4(shuffled)[p];
  }

  /** `out[i:main_n:WIDTH] = main[i * q : (i + 1) * q]` */
  method FillPlane(out: array<byte>, shuffled: Bytes, q: nat, i: nat)
    requires i < WIDTH && out.Length == |shuffled| && WIDTH * q <= |shuffled|
    modifies out
    ensures forall p :: 0 <= p < WIDTH * q && p % WIDTH == i ==> out[p] == shuffled[Source(p, q)]
    ensures forall p :: 0 <= p < out.Length && (p >= WIDTH * q || p % WIDTH != i) ==> out[p] == old(out[p])
  {
    for k := 0 to q
      invariant forall p :: 0 <= p < WIDTH * k && p % WIDTH == i ==> out[p] == shuffled[Source(p, q)]
      invariant forall p :: 0 <= p < out.Length && (p >= WIDTH * k || p % WIDTH != i) ==> out[p] == old(out[p])
    {
      var p := WIDTH * k + i;
      assert p % WIDTH == i && p / WIDTH == k;
      out[p] := shuffled[PlaneStart(i, q) + k];
    }
  }

  // ----- The codec

  type Compress = (Bytes, int) -> Bytes

  type Decompress = (Bytes, int) -> Result<Bytes>

  /** The base codec gives back what it compressed. */
  ghost predicate RoundTrips(zc: Compress, zd: Decompress) {
    forall raw, level :: zd(zc(raw, level), |raw|) == Ok(raw)
  }

  /** The base codec's output never starts with the tag. */
  ghost predicate Untagged(zc: Compress) {
    forall raw, level :: !(MAGIC <= zc(raw, level))
  }

  function AtMost(level: int, cap: int): int {
    if level < cap then level else cap
  }

  function Direct(raw: Bytes, level: int, zc: Compress): Bytes {
    zc(raw, AtMost(level, LEVEL))
  }

  function Framed(raw: Bytes, level: int, zc: Compress): Bytes {
    MAGIC + zc(Shuffle4(raw), level)
  }

  /** The transform is auditioned at all. */
  predicate Auditioned(raw: Bytes, level: int) {
    level >= LEVEL && |raw| >= WIDTH
  }

  /** The cheap gate: at level 1 the framed transform is strictly shorter. */
  predicate PassesGate(raw: Bytes, zc: Compress) {
    |Framed(raw, 1, zc)| < |zc(raw, 1)|
  }

  predicate Selected(raw: Bytes, level: int, zc: Compress) {
    Auditioned(raw, level) && PassesGate(raw, zc) && |Framed(raw, LEVEL, zc)| < |Direct(raw, level, zc)|
  }

  /** `transfer_zc` as a function. */
  function Encoded(raw: Bytes, level: int, zc: Compress): Bytes {
    if Selected(raw, level, zc) then Framed(raw, LEVEL, zc) else Direct(raw, level, zc)
  }

  /** `transfer_zd` as a function. */
  function Decoded(payload: Bytes, usize: int, zd: Decompress): Result<Bytes> {
    if MAGIC <= payload then
      var shuffled :- zd(payload[|MAGIC|..], usize);
      if |shuffled| != usize then Raised(InverseSizeDrift) else Ok(Unshuffle4(shuffled))
    else zd(payload, usize)
  }

  /** The wrapped codec gives back what it compressed; what the base codec alone compressed it still
      reads; and it is never longer than the base codec alone, strictly shorter exactly when the
      transform was selected. */
  lemma TransferExact(raw: Bytes, level: int, zc: Compress, zd: Decompress)
    requires RoundTrips(zc, zd) && Untagged(zc)
    ensures Decoded(Encoded(raw, level, zc), |raw|, zd) == Ok(raw)
    ensures Decoded(zc(raw, level), |raw|, zd) == Ok(raw)
    ensures |Encoded(raw, level, zc)| <= |Direct(raw, level, zc)|
    ensures |Encoded(raw, level, zc)| < |Direct(raw, level, zc)| <==> MAGIC <= Encoded(raw, level, zc)
  {
    hide Shuffle4, Unshuffle4;
    if Selected(raw, level, zc) {
      var payload := Framed(raw, LEVEL, zc);
      assert MAGIC <= payload && payload[|MAGIC|..] == zc(Shuffle4(raw), LEVEL);
      assert zd(zc(Shuffle4(raw), LEVEL), |Shuffle4(raw)|) == Ok(Shuffle4(raw));
      UnshuffleUndoesShuffle(raw);
    } else {
      assert !(MAGIC <= zc(raw, AtMost(level, LEVEL)));
    }
  }

  /** Behind the tag of five bytes the shuffled content, compressed at `level`, is strictly shorter than what
      `rival` bytes the base codec needs. */
  predicate Gains(raw: Bytes, level: int, rival: nat, zc: Compress) {
    5 + |zc(Shuffle4(raw), level)| < rival
  }

  /** The output is tagged exactly when the level is at least 19, there is a whole group of four bytes, and
      the shuffled content gains at level 1 and against the direct payload; it is then the shuffled content
      at level 19, and otherwise the direct payload. */
  lemma TaggedExact(raw: Bytes, level: int, zc: Compress)
    requires Untagged(zc)
    ensures var direct, payload := zc(raw, if level < 19 then level else 19), Encoded(raw, level, zc);
            var tagged := level >= 19 && |raw| >= 4 && Gains(raw, 1, |zc(raw, 1)|, zc) && Gains(raw, 19, |direct|, zc);
            && (MAGIC <= payload <==> tagged)
            && payload == if tagged then [66, 80, 52, 0, 1] + zc(Shuffle4(raw), 19) else direct
  {
    hide Shuffle4;
    var direct := zc(raw, if level < 19 then level else 19);
    assert !(MAGIC <= direct);
  }

  /** A tagged payload decodes to the string of the announced length whose shuffled form the base codec finds
      behind the tag, if there is one; any other payload is left to the base codec. */
  lemma DecodedExact(payload: Bytes, usize: int, zd: Decompress, raw: Bytes)
    ensures Decoded(payload, usize, zd) == Ok(raw) <==>
            if [66, 80, 52, 0, 1] <= payload then |raw| == usize && zd(payload[5..], usize) == Ok(Shuffle4(raw))
            else zd(payload, usize) == Ok(raw)
  {
    hide Shuffle4, Unshuffle4;
    UnshuffleUndoesShuffle(raw);
    if MAGIC <= payload && zd(payload[5..], usize).Ok? {
      ShuffleUndoesUnshuffle(zd(payload[5..], usize).value);
    }
  }

  /** That the base codec never emits the tag is needed: the identity, which round-trips but can emit it,
      is misread. */
  lemma TaggedBaseIsMisread(raw: Bytes, zc: Compress, zd: Decompress)
    requires raw == MAGIC + [7]
    requires (forall b, l :: zc(b, l) == b) && (forall b, n :: zd(b, n) == Ok(b))
    ensures RoundTrips(zc, zd) && Decoded(Encoded(raw, LEVEL, zc), |raw|, zd) != Ok(raw)
  {
    assert MAGIC <= raw;
    assert |Framed(raw, 1, zc)| == |MAGIC| + |raw|;
    assert Encoded(raw, LEVEL, zc) == raw;
  }

  // ----- The statistics over a run

  datatype Stats = Stats(
    calls: nat, auditions: nat, winners: nat, gateRawBytes: nat, strongAuditions: nat, strongRawBytes: nat,
    selected: nat, directBytes: nat, framedBytes: nat)

  const NO_STATS := Stats(0, 0, 0, 0, 0, 0, 0, 0, 0)

  function Counted(s: Stats, raw: Bytes, level: int, zc: Compress): Stats {
    var gated := Auditioned(raw, level);
    var strong := gated && PassesGate(raw, zc);
    var selected := Selected(raw, level, zc);
    Stats(s.calls + 1,
          s.auditions + if gated then 1 else 0,
          s.winners + if strong then 1 else 0,
          s.gateRawBytes + if gated then |raw| else 0,
          s.strongAuditions + if strong then 1 else 0,
          s.strongRawBytes + if strong then |raw| else 0,
          s.selected + if selected then 1 else 0,
          s.directBytes + if selected then |Direct(raw, level, zc)| else 0,
          s.framedBytes + if selected then |Framed(raw, LEVEL, zc)| else 0)
  }

  datatype Call = Call(raw: Bytes, level: int)

  function StatsOf(calls: seq<Call>, zc: Compress): Stats {
    if calls == [] then NO_STATS
    else
      var c := calls[|calls| - 1];
      Counted(StatsOf(calls[..|calls| - 1], zc), c.raw, c.level, zc)
  }

  /** The total of what each call adds. */
  function SumOver(calls: seq<Call>, adds: Call -> nat): nat {
    if calls == [] then 0 else SumOver(calls[..|calls| - 1], adds) + adds(calls[|calls| - 1])
  }

  predicate Heard(c: Call) {
    c.level >= 19 && |c.raw| >= 4
  }

  predicate Strong(c: Call, zc: Compress) {
    Heard(c) && Gains(c.raw, 1, |zc(c.raw, 1)|, zc)
  }

  predicate Taken(c: Call, zc: Compress) {
    Strong(c, zc) && Gains(c.raw, 19, |zc(c.raw, 19)|, zc)
  }

  /** Every counter over a run, as a sum over its calls. */
  lemma {:induction false} StatsExact(calls: seq<Call>, zc: Compress)
    ensures var s := StatsOf(calls, zc);
            && s.calls == |calls|
            && s.auditions == SumOver(calls, c => if Heard(c) then 1 else 0)
            && s.gateRawBytes == SumOver(calls, c => if Heard(c) then |c.raw| else 0)
            && s.winners == s.strongAuditions == SumOver(calls, c => if Strong(c, zc) then 1 else 0)
            && s.strongRawBytes == SumOver(calls, c => if Strong(c, zc) then |c.raw| else 0)
            && s.selected == SumOver(calls, c => if Taken(c, zc) then 1 else 0)
            && s.directBytes == SumOver(calls, c => if Taken(c, zc) then |zc(c.raw, 19)| else 0)
            && s.framedBytes == SumOver(calls, c => if Taken(c, zc) then 5 + |zc(Shuffle4(c.raw), 19)| else 0)
  {
    hide Shuffle4;
    if calls != [] {
      StatsExact(calls[..|calls| - 1], zc);
    }
  }

  function DirectBytes(calls: seq<Call>, zc: Compress): nat {
    if calls == [] then 0
    else DirectBytes(calls[..|calls| - 1], zc) + |Direct(calls[|calls| - 1].raw, calls[|calls| - 1].level, zc)|
  }

  function EmittedBytes(calls: seq<Call>, zc: Compress): nat {
    if calls == [] then 0
    else EmittedBytes(calls[..|calls| - 1], zc) + |Encoded(calls[|calls| - 1].raw, calls[|calls| - 1].level, zc)|
  }

  /** Over any run of calls the reported net saving is what the base codec alone would have emitted, less
      what was emitted, at least one byte for every selection; and the counters form a funnel. */
  lemma {:induction false} NetSavingConserved(calls: seq<Call>, zc: Compress)
    ensures var s := StatsOf(calls, zc);
            && s.directBytes - s.framedBytes == DirectBytes(calls, zc) - EmittedBytes(calls, zc)
            && s.directBytes - s.framedBytes >= s.selected
            && s.selected <= s.strongAuditions == s.winners <= s.auditions <= s.calls == |calls|
            && s.strongRawBytes <= s.gateRawBytes
            && s.gateRawBytes >= WIDTH * s.auditions
  {
    hide Shuffle4;
    if calls != [] {
      NetSavingConserved(calls[..|calls| - 1], zc);
    }
  }

  /** The pair `transfer_zc`, `transfer_zd` with the dictionary that both close over. */
  class TransferCodec {
    const zc: Compress
    const zd: Decompress
    var stats: Stats

    constructor (zc: Compress, zd: Decompress)
      ensures this.zc == zc && this.zd == zd && stats == NO_STATS
    {
      this.zc, this.zd, stats := zc, zd, NO_STATS;
    }

    /** `transfer_zc` */
    method Zc(raw: Bytes, level: int) returns (payload: Bytes)
      modifies `stats
      ensures payload == Encoded(raw, level, zc)
      ensures stats == Counted(old(stats), raw, level, zc)
    {
      hide Shuffle4;
      stats := stats.(calls := stats.calls + 1);
      var direct19 := zc(raw, AtMost(level, LEVEL));
      if level < LEVEL || |raw| < WIDTH {
        return direct19;
      }
      stats := stats.(auditions := stats.auditions + 1, gateRawBytes := stats.gateRawBytes + |raw|);
      var direct1 := zc(raw, 1);
      var shuffled := Shuffle4(raw);
      var cheapFramed := MAGIC + zc(shuffled, 1);
      if |cheapFramed| >= |direct1| {
        return direct19;
      }
      stats := stats.(winners := stats.winners + 1, strongAuditions := stats.strongAuditions + 1,
                      strongRawBytes := stats.strongRawBytes + |raw|);
      var strongFramed := MAGIC + zc(shuffled, LEVEL);
      if |strongFramed| < |direct19| {
        stats := stats.(selected := stats.selected + 1, directBytes := stats.directBytes + |direct19|,
                        framedBytes := stats.framedBytes + |strongFramed|);
        return strongFramed;
      }
      return direct19;
    }

    /** `transfer_zd` */
    method Zd(payload: Bytes, usize: int) returns (r: Result<Bytes>)
      ensures r == Decoded(payload, usize, zd)
    {
      if MAGIC <= payload {
        var shuffled := zd(payload[|MAGIC|..], usize);
        if shuffled.Raised? {
          return shuffled;
        }
        var raw := Unshuffle(shuffled.value);
        if |raw| != usize {
          return Raised(InverseSizeDrift);
        }
        return Ok(raw);
      }
      r := zd(payload, usize);
    }
  }
}
