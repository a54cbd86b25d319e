/** Exactly which layouts the v3 encoder accepts, and the strict chain v3, v4, v2. */
module AcceptanceV3 {
  import opened Sorting
  import opened Grouping
  import opened ControlRows
  import opened Kinds
  import opened Descriptors
  import opened Acceptance
  import opened AcceptanceV4
  import V3 = PackMapV3
  import V4 = PackMapV4

  /** One packed row after another, in file order: it continues the pack of the row before it where
      that row ended, or it opens a pack with a greater id at offset 0. */
  predicate Follows(s: Slot, t: Slot) {
    (t.blob == s.blob && t.off == s.off + s.len) || (t.blob > s.blob && t.off == 0)
  }

  ghost predicate Chained(slots: seq<Slot>) {
    && (slots != [] ==> slots[0].off == 0)
    && forall k :: 0 < k < |slots| ==> Follows(slots[k - 1], slots[k])
  }

  ghost predicate NonNegativeBlobs(slots: seq<Slot>) {
    forall s :: s in slots ==> s.blob >= 0
  }

  // ----- The encoder's loop

  lemma {:induction false} DeltasOk(indices: seq<int>, prev: int)
    ensures V3.Deltas(indices, prev).Ok? <==>
            && (indices != [] ==> prev <= indices[0])
            && forall k :: 0 < k < |indices| ==> indices[k - 1] <= indices[k]
  {
    if indices != [] {
      var rest := indices[1..];
      DeltasOk(rest, indices[0]);
      assert forall k :: 0 <= k < |rest| ==> rest[k] == indices[k + 1];
      if forall k :: 0 < k < |indices| ==> indices[k - 1] <= indices[k] {
        forall k | 0 < k < |rest| ensures rest[k - 1] <= rest[k] {
          assert indices[k] <= indices[k + 1];
        }
      }
      if (rest != [] ==> indices[0] <= rest[0]) && forall k :: 0 < k < |rest| ==> rest[k - 1] <= rest[k] {
        forall k | 0 < k < |indices| ensures indices[k - 1] <= indices[k] {
          if k > 1 {
            assert rest[k - 2] <= rest[k - 1];
          }
        }
      }
    }
  }

  lemma {:induction false} StepsAscend(s: seq<Slot>)
    requires forall k :: 0 < k < |s| ==> s[k - 1].fi < s[k].fi
    ensures FileAscending(s)
  {
    if s != [] {
      var init := s[..|s| - 1];
      StepsAscend(init);
      assert forall i, j | 0 <= i < j < |init| :: s[i].fi < s[j].fi by {
        forall i, j | 0 <= i < j < |init| ensures s[i].fi < s[j].fi {
          assert init[i].fi < init[j].fi;
        }
      }
      if |s| > 1 {
        var m := |s| - 2;
        assert forall i | 0 <= i < m :: s[i].fi < s[m].fi;
        assert s[m].fi < s[m + 1].fi;
      }
    }
  }

  ghost predicate DistinctFis(s: seq<Slot>) {
    forall i, j | 0 <= i < j < |s| :: s[i].fi != s[j].fi
  }

  /** Runs and sparse packs alike: the rows must ascend from the current file end on. */
  lemma EncodeRunOk(g: PackGroup, cursor: Cursor)
    requires g.members != [] && DistinctFis(g.members)
    ensures V3.EncodeRun(RunOf(g), cursor).Ok? <==>
            cursor.blob <= g.key && cursor.fileEnd <= g.members[0].fi && FileAscending(g.members)
  {
    hide Uniform, V3.Deltas;
    var p, fis := g.members, FileIndices(g.members);
    DeltasOk(fis, cursor.fileEnd);
    if V3.EncodeRun(RunOf(g), cursor).Ok? {
      forall k | 0 < k < |p| ensures p[k - 1].fi < p[k].fi {
        assert fis[k - 1] <= fis[k];
      }
      StepsAscend(p);
    }
    if FileAscending(p) {
      assert forall k :: 0 < k < |fis| ==> fis[k - 1] <= fis[k];
    }
  }

  ghost predicate BlobsAscend(groups: seq<PackGroup>, from: int) {
    && (groups != [] ==> from <= groups[0].key)
    && forall j, k | 0 <= j < k < |groups| :: groups[j].key < groups[k].key
  }

  lemma FileAscendingAppend(a: seq<Slot>, b: seq<Slot>)
    requires a != []
    ensures FileAscending(a + b) <==>
            FileAscending(a) && FileAscending(b) && (b != [] ==> a[|a| - 1].fi < b[0].fi)
  {
    var s := a + b;
    if FileAscending(s) {
      forall i, j | 0 <= i < j < |a| ensures a[i].fi < a[j].fi {
        assert s[i].fi < s[j].fi;
      }
      forall i, j | 0 <= i < j < |b| ensures b[i].fi < b[j].fi {
        assert s[|a| + i].fi < s[|a| + j].fi;
      }
      assert b != [] ==> s[|a| - 1].fi < s[|a|].fi;
    }
    if FileAscending(a) && FileAscending(b) && (b != [] ==> a[|a| - 1].fi < b[0].fi) {
      forall i, j | 0 <= i < j < |s| ensures s[i].fi < s[j].fi {
        if i < |a| <= j {
          assert i == |a| - 1 || a[i].fi < a[|a| - 1].fi;
          assert j == |a| || b[0].fi < b[j - |a|].fi;
        }
      }
    }
  }

  lemma {:induction false} EncodeV3Ok(groups: seq<PackGroup>, cursor: Cursor)
    requires forall g :: g in groups ==> g.members != [] && DistinctFis(g.members)
    requires BlobsAscend(groups, cursor.blob)
    ensures V3.Encode(groups, cursor).Ok? <==>
            && (forall g :: g in groups ==> Tiles(g.members, 0) && NonNegativeLengths(g.members))
            && FileAscending(Listed(groups))
            && (groups != [] ==> cursor.fileEnd <= groups[0].members[0].fi)
    decreases |groups|
  {
    hide TileCheck, Tiles, V3.EncodeRun, NonNegativeLengths, DistinctFis;
    if groups != [] {
      var g, rest := groups[0], groups[1..];
      assert groups == [g] + rest;
      var p := g.members;
      var next := V3.Advance(RunOf(g));
      TileCheckExact(p, 0);
      EncodeRunOk(g, cursor);
      assert BlobsAscend(rest, next.blob);
      EncodeV3Ok(rest, next);
      FileAscendingAppend(p, Listed(rest));
      assert next.fileEnd == p[|p| - 1].fi + 1;
      assert rest != [] ==> Listed(rest) != [] && Listed(rest)[0] == rest[0].members[0];
    }
  }

  lemma ArrangedKeys(groups: seq<PackGroup>, slots: seq<Slot>)
    requires Arranged(groups, slots)
    ensures DistinctKeys(groups)
  {
  }

  lemma OrderedBlobs(f: seq<Row>)
    ensures var groups := ByBlob(f); forall j, k | 0 <= j < k < |groups| :: groups[j].key < groups[k].key
  {
    hide Packed, Sort, Arranged, Pack;
    var sorted, groups := Sort(Buckets(Packed(f)), BucketKey), ByBlob(f);
    ByBlobArranges(f);
    ArrangedKeys(groups, Packed(f));
    SortAscends(Buckets(Packed(f)), BucketKey);
    forall j, k | 0 <= j < k < |groups| ensures groups[j].key < groups[k].key {
      assert Le(BucketKey(sorted[j]), BucketKey(sorted[k]));
      assert groups[j].key == sorted[j].key && groups[k].key == sorted[k].key;
    }
  }

  // ----- Packs one after another are a chain, and the reverse

  lemma {:induction false} TilesFollow(p: seq<Slot>, offset: int)
    ensures Tiles(p, offset) <==>
            (p != [] ==> p[0].off == offset) && forall k :: 0 < k < |p| ==> p[k].off == p[k - 1].off + p[k - 1].len
  {
    if p != [] {
      var rest := p[1..];
      TilesFollow(rest, offset + p[0].len);
      assert forall k :: 0 <= k < |rest| ==> rest[k] == p[k + 1];
      if Tiles(p, offset) {
        forall k | 0 < k < |p| ensures p[k].off == p[k - 1].off + p[k - 1].len {
          if k > 1 {
            assert rest[k - 1].off == rest[k - 2].off + rest[k - 2].len;
          }
        }
      }
      if p[0].off == offset && forall k :: 0 < k < |p| ==> p[k].off == p[k - 1].off + p[k - 1].len {
        forall k | 0 < k < |rest| ensures rest[k].off == rest[k - 1].off + rest[k - 1].len {
          assert p[k + 1].off == p[k].off + p[k].len;
        }
      }
    }
  }

  lemma ChainedAppend(a: seq<Slot>, b: seq<Slot>)
    requires a != []
    ensures Chained(a + b) <==>
            && Chained(a)
            && (forall k :: 0 < k < |b| ==> Follows(b[k - 1], b[k]))
            && (b != [] ==> Follows(a[|a| - 1], b[0]))
  {
    var s := a + b;
    if Chained(s) {
      forall k | 0 < k < |a| ensures Follows(a[k - 1], a[k]) {
        assert Follows(s[k - 1], s[k]);
      }
      forall k | 0 < k < |b| ensures Follows(b[k - 1], b[k]) {
        assert Follows(s[|a| + k - 1], s[|a| + k]);
      }
      assert b != [] ==> Follows(s[|a| - 1], s[|a|]);
    }
    if && Chained(a)
       && (forall k :: 0 < k < |b| ==> Follows(b[k - 1], b[k]))
       && (b != [] ==> Follows(a[|a| - 1], b[0]))
    {
      forall k | 0 < k < |s| ensures Follows(s[k - 1], s[k]) {
        if k > |a| {
          assert Follows(b[k - |a| - 1], b[k - |a|]);
        }
      }
    }
  }

  lemma PackChains(p: seq<Slot>, blob: int)
    requires p != [] && forall s :: s in p ==> s.blob == blob
    ensures Tiles(p, 0) <==> Chained(p)
  {
    hide Tiles;
    TilesFollow(p, 0);
    forall k | 0 <= k < |p| ensures p[k].blob == blob {
      assert p[k] in p;
    }
  }

  lemma {:induction false} PacksChain(groups: seq<PackGroup>, from: int)
    requires forall g :: g in groups ==> g.members != [] && forall s :: s in g.members ==> s.blob == g.key
    requires BlobsAscend(groups, from)
    ensures (forall g :: g in groups ==> Tiles(g.members, 0)) <==> Chained(Listed(groups))
  {
    hide Tiles;
    if groups != [] {
      var g, rest := groups[0], groups[1..];
      assert groups == [g] + rest;
      var p, q := g.members, Listed(rest);
      assert BlobsAscend(rest, g.key);
      PacksChain(rest, g.key);
      ChainedAppend(p, q);
      PackChains(p, g.key);
      if rest != [] {
        assert rest[0] in rest && q != [] && q[0] == rest[0].members[0] && q[0] in rest[0].members;
        assert q[0].blob > g.key;
      }
    }
  }

  function FullKey(s: Slot): Key { (s.blob, s.off, s.fi) }

  lemma {:induction false} PacksAscend(groups: seq<PackGroup>, from: int)
    requires forall g :: g in groups ==> Ascending(g.members, SlotKey) && forall s :: s in g.members ==> s.blob == g.key
    requires BlobsAscend(groups, from)
    ensures Ascending(Listed(groups), FullKey)
    ensures forall s :: s in Listed(groups) ==> s.blob >= from
  {
    if groups != [] {
      var g, rest := groups[0], groups[1..];
      assert groups == [g] + rest;
      assert BlobsAscend(rest, g.key + 1);
      PacksAscend(rest, g.key + 1);
      var p, q := g.members, Listed(rest);
      assert g in groups;
      forall i, j | 0 <= i < j < |p + q| ensures Le(FullKey((p + q)[i]), FullKey((p + q)[j])) {
        if j < |p| {
          assert Le(SlotKey(p[i]), SlotKey(p[j])) && p[i] in p && p[j] in p;
        } else if i < |p| {
          assert p[i] in p && q[j - |p|] in q;
        } else {
          assert Le(FullKey(q[i - |p|]), FullKey(q[j - |p|]));
        }
      }
    }
  }

  lemma {:induction false} ChainAscends(slots: seq<Slot>, i: nat, j: nat)
    requires Chained(slots) && NonNegativeLengths(slots) && FileAscending(slots)
    requires i < j < |slots|
    ensures Le(FullKey(slots[i]), FullKey(slots[j]))
    decreases j - i
  {
    assert Follows(slots[j - 1], slots[j]);
    assert slots[j - 1] in slots && slots[j - 1].fi < slots[j].fi;
    if i < j - 1 {
      ChainAscends(slots, i, j - 1);
    }
  }

  ghost predicate InBlobOrder(groups: seq<PackGroup>, f: seq<Row>) {
    && multiset(Listed(groups)) == multiset(Packed(f))
    && SplitByBlob(groups, Packed(f))
    && (forall j, k | 0 <= j < k < |groups| :: groups[j].key < groups[k].key)
    && forall g :: g in groups ==> DistinctFis(g.members) && Ascending(g.members, SlotKey)
  }

  lemma ArrangedMembers(groups: seq<PackGroup>, slots: seq<Slot>)
    requires Arranged(groups, slots) && FileAscending(slots)
    ensures forall g :: g in groups ==> DistinctFis(g.members) && Ascending(g.members, SlotKey)
  {
    hide Pack;
    forall g | g in groups ensures DistinctFis(g.members) && Ascending(g.members, SlotKey) {
      PackDistinct(slots, g.key);
      PackOrder(slots, g.key);
    }
  }

  lemma OrderedInBlobOrder(f: seq<Row>)
    ensures InBlobOrder(ByBlob(f), f)
  {
    hide Packed, ByBlob, Arranged, SplitByBlob, Ascending, DistinctFis;
    var groups := ByBlob(f);
    ByBlobArranges(f);
    PackedSound(f);
    ArrangedSplits(groups, Packed(f));
    ArrangedPermutes(groups, f);
    OrderedBlobs(f);
    ArrangedMembers(groups, Packed(f));
  }

  lemma FirstBlob(groups: seq<PackGroup>, f: seq<Row>)
    requires InBlobOrder(groups, f)
    ensures NonNegativeBlobs(Packed(f)) <==> BlobsAscend(groups, 0)
  {
    if groups != [] && NonNegativeBlobs(Packed(f)) {
      var s := groups[0].members[0];
      assert groups[0] in groups && s in groups[0].members;
      assert s in Packed(f) && s.blob == groups[0].key;
    }
    if BlobsAscend(groups, 0) {
      forall s | s in Packed(f) ensures s.blob >= 0 {
        assert HasKey(groups, s.blob);
        var k := PositionOf(groups, s.blob);
        assert k == 0 || groups[0].key < groups[k].key;
      }
    }
  }

  lemma AcceptedIsChained(groups: seq<PackGroup>, f: seq<Row>)
    requires InBlobOrder(groups, f) && V3.Encode(groups, Cursor(0, 0)).Ok?
    ensures Chained(Packed(f)) && NonNegativeLengths(Packed(f)) && NonNegativeBlobs(Packed(f))
  {
    assert groups != [] ==> 0 <= groups[0].key;
    FirstBlob(groups, f);
    EncodeV3Ok(groups, Cursor(0, 0));
    PacksChain(groups, 0);
    PackedDistinct(f);
    assert Ascending(Listed(groups), FileKey);
    OrderedUnique(Packed(f), Listed(groups), FileKey);
    SplitNonNegative(groups, Packed(f));
  }

  /** A chain lists the packs in ascending id, each in physical order. */
  lemma ChainListsPacks(groups: seq<PackGroup>, f: seq<Row>)
    requires InBlobOrder(groups, f) && BlobsAscend(groups, 0)
    requires Chained(Packed(f)) && NonNegativeLengths(Packed(f))
    ensures Listed(groups) == Packed(f)
  {
    var slots := Packed(f);
    PackedSound(f);
    forall i, j | 0 <= i < j < |slots| ensures Le(FullKey(slots[i]), FullKey(slots[j])) {
      ChainAscends(slots, i, j);
    }
    PacksAscend(groups, 0);
    PackedDistinct(f);
    OrderedUnique(slots, Listed(groups), FullKey);
  }

  lemma ChainedIsAccepted(groups: seq<PackGroup>, f: seq<Row>)
    requires InBlobOrder(groups, f)
    requires Chained(Packed(f)) && NonNegativeLengths(Packed(f)) && NonNegativeBlobs(Packed(f))
    ensures V3.Encode(groups, Cursor(0, 0)).Ok?
  {
    FirstBlob(groups, f);
    ChainListsPacks(groups, f);
    PacksChain(groups, 0);
    SplitNonNegative(groups, Packed(f));
    EncodeV3Ok(groups, Cursor(0, 0));
    PackedSound(f);
    if groups != [] {
      assert groups[0] in groups && groups[0].members[0] in groups[0].members;
      assert groups[0].members[0] in Packed(f);
    }
  }

  /** v3 accepts exactly the chains: the packed rows, read in file order, walk through the packs in
      ascending id, each from offset 0 without a gap; ids and lengths are not negative. */
  lemma AcceptedV3Exact(f: seq<Row>)
    ensures AcceptedV3(f) <==>
            Chained(Packed(f)) && NonNegativeLengths(Packed(f)) && NonNegativeBlobs(Packed(f))
  {
    hide Packed, ByBlob;
    var groups := ByBlob(f);
    OrderedInBlobOrder(f);
    if AcceptedV3(f) {
      AcceptedIsChained(groups, f);
    }
    if Chained(Packed(f)) && NonNegativeLengths(Packed(f)) && NonNegativeBlobs(Packed(f)) {
      ChainedIsAccepted(groups, f);
    }
  }

  // ----- The chain of acceptance

  function BlobAt(slots: seq<Slot>, i: nat): int
    requires i < |slots|
  {
    slots[i].blob
  }

  /** No pack is interrupted by another one in file order. */
  ghost predicate Blocked(slots: seq<Slot>) {
    forall i, j, k | 0 <= i < j < k < |slots| && BlobAt(slots, i) == BlobAt(slots, k) ::
      BlobAt(slots, j) == BlobAt(slots, i)
  }

  /** Positions of a pack's first and last row. */
  lemma Ends(slots: seq<Slot>, b: int) returns (i: nat, k: nat)
    requires FileAscending(slots) && exists s :: s in slots && s.blob == b
    ensures i <= k < |slots| && slots[i].blob == b && slots[k].blob == b
    ensures slots[i].fi == FirstRow(slots, b) && slots[k].fi == LastRow(slots, b)
  {
    RowBounds(slots, b);
    var s :| s in slots && s.blob == b && s.fi == FirstRow(slots, b);
    var t :| t in slots && t.blob == b && t.fi == LastRow(slots, b);
    i :| 0 <= i < |slots| && slots[i] == s;
    k :| 0 <= k < |slots| && slots[k] == t;
  }

  /** Packs that occupy disjoint stretches of the file table never straddle one another. */
  lemma BlockedNoStraddle(slots: seq<Slot>)
    requires FileAscending(slots) && Blocked(slots)
    ensures NoStraddle(slots)
  {
    forall s, t | s in slots && t in slots && FirstRow(slots, t.blob) < FirstRow(slots, s.blob)
      ensures LastRow(slots, t.blob) < FirstRow(slots, s.blob)
    {
      var i, k := Ends(slots, t.blob);
      var j, _ := Ends(slots, s.blob);
      Apart(slots, i, j, k);
    }
  }

  lemma Apart(slots: seq<Slot>, i: nat, j: nat, k: nat)
    requires FileAscending(slots) && Blocked(slots)
    requires i <= k < |slots| && j < |slots|
    requires slots[i].blob == slots[k].blob && slots[i].fi < slots[j].fi
    ensures slots[j].blob != slots[i].blob ==> slots[k].fi < slots[j].fi
  {
    assert i < j;
    assert BlobAt(slots, i) == BlobAt(slots, k);
    if j < k {
      assert BlobAt(slots, j) == BlobAt(slots, i);
    }
  }

  lemma ChainBlocked(slots: seq<Slot>)
    requires Chained(slots) && NonNegativeLengths(slots) && FileAscending(slots)
    ensures Blocked(slots)
  {
    forall i, j, k | 0 <= i < j < k < |slots| && BlobAt(slots, i) == BlobAt(slots, k)
      ensures BlobAt(slots, j) == BlobAt(slots, i)
    {
      ChainAscends(slots, i, j);
      ChainAscends(slots, j, k);
    }
  }

  lemma ChainTiled(f: seq<Row>)
    requires AcceptedV3(f)
    ensures OffsetsAreSums(Packed(f))
  {
    hide Packed, ByBlob;
    var groups := ByBlob(f);
    ByBlobArranges(f);
    var q := V3.Encode(groups, Cursor(0, 0)).value;
    V3.ExpansionUndoesEncode(groups, Cursor(0, 0));
    ArrangedTiled(groups, Packed(f));
    PackedSound(f);
    TiledIsSums(Packed(f));
  }

  /** Every layout v3 accepts is accepted by v4, and every layout v4 accepts is accepted by v2. */
  lemma AcceptanceChain(f: seq<Row>)
    ensures AcceptedV3(f) ==> AcceptedV4(f)
    ensures AcceptedV4(f) ==> AcceptedV2(f)
  {
    PackedSound(f);
    AcceptedV2Exact(f);
    AcceptedV4Exact(f);
    if AcceptedV3(f) {
      AcceptedV3Exact(f);
      ChainTiled(f);
      ChainBlocked(Packed(f));
      BlockedNoStraddle(Packed(f));
    }
  }

  function FileRow(blob: int, off: int, len: int): Row {
    Long(K_FILE, [], Slice(blob, off, len), [])
  }

  // Short lists, one element at a time

  lemma PackedAppend(f: seq<Row>, r: Row)
    requires IsPacked(r)
    ensures Packed(f + [r]) == Packed(f) + [SlotOf(|f|, r)]
  {
    PackedPrefix(f, r, |f|);
  }

  lemma {:induction false} PackedPrefix(f: seq<Row>, r: Row, n: nat)
    requires n <= |f|
    ensures PackedTo(f + [r], n) == PackedTo(f, n)
  {
    if n > 0 {
      PackedPrefix(f, r, n - 1);
    }
  }

  lemma SumAppend(slots: seq<Slot>, t: Slot, s: Slot)
    ensures SumBefore(slots + [t], s) ==
            SumBefore(slots, s) + if t.blob == s.blob && Before(t, s) then t.len else 0
  {
    assert (slots + [t])[..|slots|] == slots;
  }

  /** Blob ids that disagree with the file order: accepted by v4, refused by v3. */
  lemma BlobOrderDefeatsV3() returns (f: seq<Row>)
    ensures AcceptedV4(f) && !AcceptedV3(f)
  {
    var a, b := FileRow(1, 0, 5), FileRow(0, 0, 7);
    f := [] + [a] + [b];
    PackedAppend([], a);
    PackedAppend([] + [a], b);
    var x, y := Slot(0, 1, 0, 5), Slot(1, 0, 0, 7);
    assert Packed(f) == [] + [x] + [y];
    TwoPacks(x, y);
    AcceptedV3Exact(f);
    AcceptedV4Exact(f);
  }

  lemma NothingBefore(s: Slot)
    ensures SumBefore([], s) == 0
  {
  }

  lemma TwoPacks(x: Slot, y: Slot)
    requires x == Slot(0, 1, 0, 5) && y == Slot(1, 0, 0, 7)
    ensures var s := [] + [x] + [y];
            OffsetsAreSums(s) && NonNegativeLengths(s) && NoStraddle(s) && !Chained(s)
  {
    hide NoStraddle, SumBefore;
    var s := [] + [x] + [y];
    assert s[0] == x && s[1] == y && |s| == 2;
    NothingBefore(x);
    NothingBefore(y);
    forall t | t in s ensures t.off == SumBefore(s, t) {
      SumAppend([], x, t);
      SumAppend([] + [x], y, t);
    }
    assert !Follows(s[0], s[1]);
    BlockedNoStraddle(s);
  }

  lemma LoneSlot(s: Slot)
    requires s.off == 0 && s.len >= 0
    ensures OffsetsAreSums([s]) && NonNegativeLengths([s])
  {
    hide SumBefore;
    NothingBefore(s);
    SumAppend([], s, s);
    assert [] + [s] == [s];
  }

  /** One row, packed under the id -1: the v4 encoder accepts it and the v4 decoder refuses the result. */
  lemma NegativeIdRefused(b: BlobColumn, rest: seq<int>) returns (c: Control)
    ensures c == Control([FileRow(-1, 0, 5)], b, rest)
    ensures V4.Compact(c).Ok? && V4.Decompact(V4.Compact(c).value).Raised?
  {
    hide V4.Encode, V4.Ordered, V4.Decompact, NoStraddle, OffsetsAreSums, NonNegativeLengths, Packed;
    var r, s := FileRow(-1, 0, 5), Slot(0, -1, 0, 5);
    c := Control([r], b, rest);
    LoneRow(r, s);
    AcceptedV4Exact(c.f);
    assert s in Packed(c.f) && AcceptedV4(c.f);
    V4.RoundTrip(c);
  }

  lemma LoneRow(r: Row, s: Slot)
    requires r == FileRow(s.blob, 0, s.len) && s.fi == 0 && s.off == 0 && s.len >= 0
    ensures Packed([r]) == [s]
    ensures OffsetsAreSums([s]) && NonNegativeLengths([s]) && NoStraddle([s])
  {
    hide NoStraddle, OffsetsAreSums, NonNegativeLengths;
    PackedAppend([], r);
    assert Packed([]) == [] && [] + [r] == [r];
    LoneSlot(s);
    BlockedNoStraddle([s]);
  }

  /** A run inside the gap of another pack, rows {0, 2} and {1}: accepted by v2, refused by v4. */
  lemma InterleavingDefeatsV4() returns (f: seq<Row>)
    ensures f == [FileRow(0, 0, 1), FileRow(1, 0, 1), FileRow(0, 1, 1)]
    ensures AcceptedV2(f) && !AcceptedV4(f)
  {
    hide Packed, OffsetsAreSums, NoStraddle, AcceptedV2, AcceptedV4;
    var x, y, z := Slot(0, 0, 0, 1), Slot(1, 1, 0, 1), Slot(2, 0, 1, 1);
    f := [FileRow(0, 0, 1), FileRow(1, 0, 1), FileRow(0, 1, 1)];
    InterleavedSlots(x, y, z);
    InterleavedSums(x, y, z);
    InterleavedStraddles(x, y, z);
    AcceptedV2Exact(f);
    AcceptedV4Exact(f);
  }

  lemma InterleavedSlots(x: Slot, y: Slot, z: Slot)
    requires x == Slot(0, 0, 0, 1) && y == Slot(1, 1, 0, 1) && z == Slot(2, 0, 1, 1)
    ensures Packed([FileRow(0, 0, 1), FileRow(1, 0, 1), FileRow(0, 1, 1)]) == [] + [x] + [y] + [z]
  {
    hide Packed;
    var c, d, e := FileRow(0, 0, 1), FileRow(1, 0, 1), FileRow(0, 1, 1);
    var none: seq<Row> := [];
    PackedAppend([], c);
    PackedAppend([c], d);
    PackedAppend([c, d], e);
    NothingPacked();
    assert none + [c] == [c] && [c] + [d] == [c, d] && [c, d] + [e] == [c, d, e];
  }

  lemma NothingPacked()
    ensures Packed([]) == []
  {
  }

  lemma InterleavedSums(x: Slot, y: Slot, z: Slot)
    requires x == Slot(0, 0, 0, 1) && y == Slot(1, 1, 0, 1) && z == Slot(2, 0, 1, 1)
    ensures OffsetsAreSums([] + [x] + [y] + [z])
  {
    forall t | t in [] + [x] + [y] + [z] ensures t.off == SumBefore([] + [x] + [y] + [z], t) {
      SumAppend([], x, t);
      SumAppend([] + [x], y, t);
      SumAppend([] + [x] + [y], z, t);
    }
  }

  lemma InterleavedStraddles(x: Slot, y: Slot, z: Slot)
    requires x == Slot(0, 0, 0, 1) && y == Slot(1, 1, 0, 1) && z == Slot(2, 0, 1, 1)
    ensures !NoStraddle([] + [x] + [y] + [z])
  {
    var gaps := [] + [x] + [y] + [z];
    InterleavedPacks(x, y, z, 0);
    InterleavedPacks(x, y, z, 1);
    SortKeepsOrder([y], SlotKey);
    assert FileIndices([y]) == [1] == Range(1, 1);
    assert gaps[0] == x && gaps[1] == y;
    assert IsRun(gaps, y.blob);
    assert FirstRow(gaps, x.blob) == 0 && LastRow(gaps, x.blob) == 2 && FirstRow(gaps, y.blob) == 1;
  }

  lemma InterleavedPacks(x: Slot, y: Slot, z: Slot, b: int)
    requires x == Slot(0, 0, 0, 1) && y == Slot(1, 1, 0, 1) && z == Slot(2, 0, 1, 1)
    ensures Of([] + [x] + [y] + [z], b) == if b == 0 then [x, z] else if b == 1 then [y] else []
  {
    WithKeyAppend([], x, BlobOf, b);
    WithKeyAppend([] + [x], y, BlobOf, b);
    WithKeyAppend([] + [x] + [y], z, BlobOf, b);
  }

  /** Both inclusions are strict. */
  lemma AcceptanceStrict()
    ensures exists f :: AcceptedV4(f) && !AcceptedV3(f)
    ensures exists f :: AcceptedV2(f) && !AcceptedV4(f)
  {
    var f := BlobOrderDefeatsV3();
    var g := InterleavingDefeatsV4();
  }
}
