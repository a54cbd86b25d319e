/** The bytes that a storage stands for, position by position. */
module StorageMeaning {
  import opened ByteLayout
  import opened Storages

  // ----- Links

  /** A hard link reads as the row that it names, any other row as its own storage. */
  lemma LinkMeans(files: seq<FileRow>, cands: Store, i: nat, deflate: Deflate)
    requires i < |files|
    ensures var ref := files[i].ref;
            if ref.Link? && ref.owner < |files| && !files[ref.owner].ref.Link? then
              Read(files, cands, i, deflate) == Read(files, cands, ref.owner, deflate)
            else !ref.Link? ==> Read(files, cands, i, deflate) == Resolve(files[i], cands, deflate)
  {
  }

  // ----- Chunks

  function LengthOf(parts: seq<Bytes>): nat {
    if parts == [] then 0 else LengthOf(parts[..|parts| - 1]) + |parts[|parts| - 1]|
  }

  lemma {:induction false} LengthCons(parts: seq<Bytes>)
    requires parts != []
    ensures LengthOf(parts) == |parts[0]| + LengthOf(parts[1..])
  {
    var init := parts[..|parts| - 1];
    if |parts| > 1 {
      LengthCons(init);
      assert init[1..] == parts[1..][..|parts| - 2];
    }
  }

  /** These bytes lie at `at`. */
  ghost predicate StreamAt(out: Bytes, at: nat, stream: Bytes) {
    at + |stream| <= |out| && out[at..at + |stream|] == stream
  }

  lemma ShiftedSlice(a: Bytes, b: Bytes, i: nat, j: nat)
    requires i <= j <= |b|
    ensures (a + b)[|a| + i..|a| + j] == b[i..j]
  {
  }

  lemma StreamShifts(head: Bytes, tail: Bytes, at: nat, stream: Bytes)
    requires StreamAt(tail, at, stream)
    ensures StreamAt(head + tail, |head| + at, stream)
  {
    ShiftedSlice(head, tail, at, at + |stream|);
  }

  /** Part `k` lies behind the parts before it. */
  lemma {:induction false} JoinExact(parts: seq<Bytes>, k: nat)
    ensures |Join(parts)| == LengthOf(parts)
    ensures k < |parts| ==> StreamAt(Join(parts), LengthOf(parts[..k]), parts[k])
  {
    hide StreamAt, LengthOf;
    if parts == [] {
      NothingJoined();
    } else {
      LengthCons(parts);
      var head, rest := parts[0], parts[1..];
      JoinExact(rest, if k == 0 then 0 else k - 1);
      if k == 0 {
        FirstStream(head, Join(rest));
        NothingJoined();
        assert parts[..0] == [];
      } else if k < |parts| {
        LengthCons(parts[..k]);
        assert parts[..k][1..] == rest[..k - 1] && parts[k] == rest[k - 1];
        StreamShifts(head, Join(rest), LengthOf(rest[..k - 1]), parts[k]);
      }
    }
  }

  lemma NothingJoined()
    ensures LengthOf([]) == 0 && Join([]) == []
  {
  }

  lemma FirstStream(stream: Bytes, tail: Bytes)
    ensures StreamAt(stream + tail, 0, stream)
  {
  }

  /** A chunked file: its contents one after another. */
  lemma ChunksMean(hs: seq<int>, parts: seq<Bytes>, deflate: Deflate, k: nat)
    requires |parts| == |hs|
    ensures var out := Assemble(Chunks(hs), parts, deflate);
            && out.Some? && |out.value| == LengthOf(parts)
            && (k < |parts| ==> StreamAt(out.value, LengthOf(parts[..k]), parts[k]))
  {
    JoinExact(parts, k);
  }

  // ----- Sparse files

  /** The contents of extent `k` among the contents of all. */
  function PartsOf(extents: seq<Extent>, parts: seq<Bytes>, k: nat): seq<Bytes>
    requires |parts| == |ExtentDigests(extents)| && k < |extents|
  {
    var n := |extents[0].hs|;
    if k == 0 then parts[..n] else PartsOf(extents[1..], parts[n..], k - 1)
  }

  function DataOf(extents: seq<Extent>, parts: seq<Bytes>, k: nat): Bytes
    requires |parts| == |ExtentDigests(extents)| && k < |extents|
  {
    Join(PartsOf(extents, parts, k))
  }

  ghost predicate Covers(extents: seq<Extent>, parts: seq<Bytes>, k: nat, p: nat)
    requires |parts| == |ExtentDigests(extents)| && k < |extents|
  {
    extents[k].off <= p < extents[k].off + |DataOf(extents, parts, k)|
  }

  ghost predicate Within(extents: seq<Extent>, parts: seq<Bytes>, size: nat)
    requires |parts| == |ExtentDigests(extents)|
  {
    forall k :: 0 <= k < |extents| ==> EndsBy(extents, parts, k, size)
  }

  ghost predicate EndsBy(extents: seq<Extent>, parts: seq<Bytes>, k: nat, size: nat)
    requires |parts| == |ExtentDigests(extents)| && k < |extents|
  {
    extents[k].off + |DataOf(extents, parts, k)| <= size
  }

  lemma OverwriteAt(buf: Bytes, q: nat, b: Bytes, p: nat)
    requires q + |b| <= |buf| && p < |buf|
    ensures |Overwrite(buf, q, b)| == |buf|
    ensures Overwrite(buf, q, b)[p] == if q <= p < q + |b| then b[p - q] else buf[p]
  {
  }

  lemma TailParts(extents: seq<Extent>, parts: seq<Bytes>, k: nat)
    requires |parts| == |ExtentDigests(extents)| && 0 < k < |extents|
    ensures var n := |extents[0].hs|;
            && n <= |parts| && |parts[n..]| == |ExtentDigests(extents[1..])|
            && extents[1..][k - 1] == extents[k]
            && DataOf(extents, parts, k) == DataOf(extents[1..], parts[n..], k - 1)
  {
  }

  /** A byte is that of the last extent over it, and otherwise what was there. */
  lemma {:induction false} OverlayExact(buf: Bytes, extents: seq<Extent>, parts: seq<Bytes>, p: nat)
    requires |parts| == |ExtentDigests(extents)| && Within(extents, parts, |buf|) && p < |buf|
    ensures |Overlay(buf, extents, parts)| == |buf|
    ensures (forall k :: 0 <= k < |extents| ==> !Covers(extents, parts, k, p)) ==>
              Overlay(buf, extents, parts)[p] == buf[p]
    ensures forall k :: 0 <= k < |extents| && Covers(extents, parts, k, p)
                        && (forall j :: k < j < |extents| ==> !Covers(extents, parts, j, p)) ==>
              Overlay(buf, extents, parts)[p] == DataOf(extents, parts, k)[p - extents[k].off]
    decreases |extents|
  {
    hide Overwrite, DataOf;
    if extents != [] {
      var rest, n := extents[1..], |extents[0].hs|;
      var tail := parts[n..];
      var data := Join(parts[..n]);
      FirstData(extents, parts);
      assert EndsBy(extents, parts, 0, |buf|);
      var next := Overwrite(buf, extents[0].off, data);
      OverwriteAt(buf, extents[0].off, data, p);
      forall k | 0 <= k < |rest|
        ensures EndsBy(rest, tail, k, |next|) && (Covers(rest, tail, k, p) <==> Covers(extents, parts, k + 1, p))
        ensures DataOf(rest, tail, k) == DataOf(extents, parts, k + 1) && rest[k] == extents[k + 1]
      {
        TailParts(extents, parts, k + 1);
        assert EndsBy(extents, parts, k + 1, |buf|);
      }
      OverlayExact(next, rest, tail, p);
      ghost var first := Covers(extents, parts, 0, p);
      forall k | 0 <= k < |extents| && Covers(extents, parts, k, p)
                 && (forall j :: k < j < |extents| ==> !Covers(extents, parts, j, p))
        ensures Overlay(buf, extents, parts)[p] == DataOf(extents, parts, k)[p - extents[k].off]
      {
        if k > 0 {
          assert Covers(rest, tail, k - 1, p);
          forall j | k - 1 < j < |rest| ensures !Covers(rest, tail, j, p) {
            assert !Covers(extents, parts, j + 1, p);
          }
        } else {
          forall j | 0 <= j < |rest| ensures !Covers(rest, tail, j, p) {
            assert !Covers(extents, parts, j + 1, p);
          }
        }
      }
    }
  }

  lemma FirstData(extents: seq<Extent>, parts: seq<Bytes>)
    requires extents != [] && |parts| == |ExtentDigests(extents)|
    ensures |extents[0].hs| <= |parts| && |parts[|extents[0].hs|..]| == |ExtentDigests(extents[1..])|
    ensures DataOf(extents, parts, 0) == Join(parts[..|extents[0].hs|])
  {
  }

  /** A sparse file: the last extent over a byte, and zero where there is none. */
  lemma SparseMeans(size: nat, extents: seq<Extent>, parts: seq<Bytes>, deflate: Deflate, p: nat)
    requires |parts| == |ExtentDigests(extents)| && Within(extents, parts, size) && p < size
    ensures var out := Assemble(Sparse(size, extents), parts, deflate);
            && out.Some? && |out.value| == size
            && ((forall k :: 0 <= k < |extents| ==> !Covers(extents, parts, k, p)) ==> out.value[p] == 0)
            && forall k :: 0 <= k < |extents| && Covers(extents, parts, k, p)
                           && (forall j :: k < j < |extents| ==> !Covers(extents, parts, j, p)) ==>
                 out.value[p] == DataOf(extents, parts, k)[p - extents[k].off]
  {
    OverlayExact(Zeros(size), extents, parts, p);
  }

  // ----- Recipes

  /** Bytes of the first `k` numbers. */
  function Before(lens: seq<nat>, k: nat): nat
    requires k <= |lens|
  {
    if k == 0 then 0 else Before(lens, k - 1) + lens[k - 1]
  }

  lemma {:induction false} BeforeCons(lens: seq<nat>, k: nat)
    requires 0 < k <= |lens|
    ensures Before(lens, k) == lens[0] + Before(lens[1..], k - 1)
  {
    if k > 1 {
      BeforeCons(lens, k - 1);
      assert lens[1..][k - 2] == lens[k - 1];
    }
  }

  /** Where literal `k` of a woven file begins. */
  function WovenTo(lens: seq<nat>, streams: seq<Bytes>, k: nat): nat
    requires |lens| == |streams| + 1 && k <= |streams|
  {
    Before(lens, k) + LengthOf(streams[..k])
  }

  ghost predicate LiteralAt(out: Bytes, at: nat, skeleton: Bytes, from: nat, n: nat) {
    from + n <= |skeleton| && at + n <= |out| && out[at..at + n] == skeleton[from..from + n]
  }

  /** Literal `k` lies behind the literals and streams before it, and stream `k` right behind it. */
  ghost predicate WovenAt(out: Bytes, skeleton: Bytes, lens: seq<nat>, streams: seq<Bytes>, k: nat)
    requires |lens| == |streams| + 1 && k <= |streams|
  {
    var at := WovenTo(lens, streams, k);
    && LiteralAt(out, at, skeleton, Before(lens, k), lens[k])
    && (k < |streams| ==> StreamAt(out, at + lens[k], streams[k]))
  }

  lemma WovenCons(lens: seq<nat>, streams: seq<Bytes>, k: nat)
    requires |lens| == |streams| + 1 && 0 < k <= |streams|
    ensures WovenTo(lens, streams, k) == lens[0] + |streams[0]| + WovenTo(lens[1..], streams[1..], k - 1)
    ensures Before(lens, k) == lens[0] + Before(lens[1..], k - 1)
  {
    BeforeCons(lens, k);
    LengthCons(streams[..k]);
    assert streams[..k][1..] == streams[1..][..k - 1] && streams[..k][0] == streams[0];
  }

  lemma LiteralShifts(head: Bytes, tail: Bytes, at: nat, skeleton: Bytes, cut: nat, from: nat, n: nat)
    requires cut <= |skeleton| && LiteralAt(tail, at, skeleton[cut..], from, n)
    ensures LiteralAt(head + tail, |head| + at, skeleton, cut + from, n)
  {
    ShiftedSlice(head, tail, at, at + n);
    ShiftedSlice(skeleton[..cut], skeleton[cut..], from, from + n);
    assert skeleton[..cut] + skeleton[cut..] == skeleton;
  }

  /** A file of literals and streams in turn, when the skeleton has as many bytes as the literals need. */
  lemma {:induction false} WeaveExact(skeleton: Bytes, lens: seq<nat>, streams: seq<Bytes>, k: nat)
    requires |lens| == |streams| + 1 && Before(lens, |lens|) == |skeleton| && k <= |streams|
    ensures |Weave(skeleton, lens, streams)| == |skeleton| + LengthOf(streams)
    ensures WovenAt(Weave(skeleton, lens, streams), skeleton, lens, streams, k)
    decreases |streams|
  {
    var n := lens[0];
    BeforeCons(lens, |lens|);
    assert n <= |skeleton|;
    if streams == [] {
      assert lens[1..] == [];
    } else {
      var bytes, more, rest := skeleton[n..], lens[1..], streams[1..];
      LengthCons(streams);
      var j := if k == 0 then 0 else k - 1;
      WeaveExact(bytes, more, rest, j);
      var head, tail := skeleton[..n] + streams[0], Weave(bytes, more, rest);
      assert Weave(skeleton, lens, streams) == head + tail;
      if k > 0 {
        WovenLater(head, tail, skeleton, lens, streams, k);
      } else {
        assert streams[..0] == [];
      }
    }
  }

  lemma WovenLater(head: Bytes, tail: Bytes, skeleton: Bytes, lens: seq<nat>, streams: seq<Bytes>, k: nat)
    requires |lens| == |streams| + 1 && 0 < k <= |streams| && lens[0] <= |skeleton|
    requires |head| == lens[0] + |streams[0]|
    requires WovenAt(tail, skeleton[lens[0]..], lens[1..], streams[1..], k - 1)
    ensures WovenAt(head + tail, skeleton, lens, streams, k)
  {
    hide WovenTo, LiteralAt, StreamAt;
    WovenCons(lens, streams, k);
    var at := WovenTo(lens[1..], streams[1..], k - 1);
    LiteralShifts(head, tail, at, skeleton, lens[0], Before(lens[1..], k - 1), lens[k]);
    if k < |streams| {
      StreamShifts(head, tail, at + lens[k], streams[k]);
    }
  }

  /** A virtual ZIP: the literals of the skeleton, and each member's bytes as they are or deflated. */
  lemma RecipeMeans(skeleton: int, lens: seq<nat>, members: seq<Member>, parts: seq<Bytes>, deflate: Deflate, k: nat)
    requires |parts| == |members| + 1 && |lens| == |parts| && Before(lens, |lens|) == |parts[0]| && k <= |members|
    ensures var out := Assemble(Recipe(skeleton, lens, members), parts, deflate);
            var streams := Streams(members, parts[1..], deflate);
            && out.Some? && |out.value| == |parts[0]| + LengthOf(streams)
            && WovenAt(out.value, parts[0], lens, streams, k)
            && (k < |members| ==>
                  streams[k] == if members[k].stored then parts[k + 1] else deflate(parts[k + 1], members[k].level))
  {
    hide Weave;
    WeaveExact(parts[0], lens, Streams(members, parts[1..], deflate), k);
  }
}
