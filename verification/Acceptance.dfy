/** Exactly which layouts each encoder accepts, stated over the packed rows in file order, and how
    the three accepted sets are nested. */
module Acceptance {
  import opened Sorting
  import opened Grouping
  import opened ControlRows
  import opened Descriptors
  import V2 = PackMapV2
  import V3 = PackMapV3
  import V4 = PackMapV4

  ghost predicate AcceptedV2(f: seq<Row>) { V2.Encode(ByBlob(f)).Ok? }

  ghost predicate AcceptedV3(f: seq<Row>) { V3.Encode(ByBlob(f), Cursor(0, 0)).Ok? }

  ghost predicate AcceptedV4(f: seq<Row>) { V4.Encode(V4.Ordered(f), 0).Ok? }

  // ----- Offsets that are sums of lengths

  predicate Before(t: Slot, s: Slot) {
    t.off < s.off || (t.off == s.off && t.fi < s.fi)
  }

  /** Total length of the slices that precede `s` in its pack, by offset and then by file row. */
  function SumBefore(slots: seq<Slot>, s: Slot): int {
    if slots == [] then 0
    else
      var t := slots[|slots| - 1];
      SumBefore(slots[..|slots| - 1], s) + if t.blob == s.blob && Before(t, s) then t.len else 0
  }

  ghost predicate OffsetsAreSums(slots: seq<Slot>) {
    forall s :: s in slots ==> s.off == SumBefore(slots, s)
  }

  ghost predicate Tiled(slots: seq<Slot>) {
    forall b :: Tiles(Pack(slots, b), 0)
  }

  lemma {:induction false} SumBeforeAppend(a: seq<Slot>, b: seq<Slot>, s: Slot)
    ensures SumBefore(a + b, s) == SumBefore(a, s) + SumBefore(b, s)
  {
    if b == [] {
      assert a + b == a;
    } else {
      assert (a + b)[..|a + b| - 1] == a + b[..|b| - 1];
      SumBeforeAppend(a, b[..|b| - 1], s);
    }
  }

  lemma SumBeforeRemove(a: seq<Slot>, k: nat, s: Slot)
    requires k < |a|
    ensures SumBefore(a, s) == SumBefore([a[k]], s) + SumBefore(Without(a, k), s)
  {
    var tail := [a[k]] + a[k + 1..];
    assert a == a[..k] + tail;
    SumBeforeAppend(a[..k], tail, s);
    SumBeforeAppend([a[k]], a[k + 1..], s);
    SumBeforeAppend(a[..k], a[k + 1..], s);
  }

  lemma {:induction false} SumBeforePermutes(a: seq<Slot>, b: seq<Slot>, s: Slot)
    requires multiset(a) == multiset(b)
    ensures SumBefore(a, s) == SumBefore(b, s)
    decreases |a|
  {
    hide SumBefore, Without;
    MembersMatch(a, b);
    if a != [] {
      var k := RemoveCommon(a, b);
      SumBeforePermutes(Without(a, 0), Without(b, k), s);
      SumBeforeRemove(a, 0, s);
      SumBeforeRemove(b, k, s);
    }
  }

  lemma {:induction false} SumBeforeOf(slots: seq<Slot>, s: Slot)
    ensures SumBefore(slots, s) == SumBefore(Of(slots, s.blob), s)
  {
    if slots != [] {
      var init, t := slots[..|slots| - 1], slots[|slots| - 1];
      SumBeforeOf(init, s);
      var r := Of(slots, s.blob);
      if t.blob == s.blob {
        assert r == Of(init, s.blob) + [t] && r[..|r| - 1] == Of(init, s.blob);
      } else {
        assert r == Of(init, s.blob);
      }
    }
  }

  function SumLengths(slots: seq<Slot>): int {
    if slots == [] then 0 else SumLengths(slots[..|slots| - 1]) + slots[|slots| - 1].len
  }

  lemma {:induction false} SumBeforeAll(slots: seq<Slot>, s: Slot)
    requires forall t :: t in slots ==> t.blob == s.blob && Before(t, s)
    ensures SumBefore(slots, s) == SumLengths(slots)
  {
    if slots != [] {
      SumBeforeAll(slots[..|slots| - 1], s);
    }
  }

  lemma {:induction false} SumBeforeNone(slots: seq<Slot>, s: Slot)
    requires forall t :: t in slots ==> !Before(t, s)
    ensures SumBefore(slots, s) == 0
  {
    if slots != [] {
      SumBeforeNone(slots[..|slots| - 1], s);
    }
  }

  lemma SortedAround(p: seq<Slot>, k: nat)
    requires k < |p| && Ascending(p, SlotKey)
    requires forall i, j | 0 <= i < j < |p| :: p[i].fi != p[j].fi
    requires forall s :: s in p ==> s.blob == p[k].blob
    ensures forall t :: t in p[..k] ==> t.blob == p[k].blob && Before(t, p[k])
    ensures forall t :: t in p[k..] ==> !Before(t, p[k])
  {
    forall t | t in p[..k] ensures t.blob == p[k].blob && Before(t, p[k]) {
      var i :| 0 <= i < k && p[i] == t;
      assert Le(SlotKey(p[i]), SlotKey(p[k]));
    }
    forall t | t in p[k..] ensures !Before(t, p[k]) {
      var i :| 0 <= i < |p| - k && p[k..][i] == t;
      assert p[k + i] == t;
      assert i == 0 || Le(SlotKey(p[k]), SlotKey(p[k + i]));
    }
  }

  /** In a pack in physical order, the slices before the k-th are the first k. */
  lemma SumBeforeSorted(p: seq<Slot>, k: nat)
    requires k < |p| && Ascending(p, SlotKey)
    requires forall i, j | 0 <= i < j < |p| :: p[i].fi != p[j].fi
    requires forall s :: s in p ==> s.blob == p[k].blob
    ensures SumBefore(p, p[k]) == SumLengths(p[..k])
  {
    hide SumBefore, SumLengths;
    SortedAround(p, k);
    SumBeforeAll(p[..k], p[k]);
    SumBeforeNone(p[k..], p[k]);
    SumBeforeAppend(p[..k], p[k..], p[k]);
    assert p == p[..k] + p[k..];
  }

  lemma {:induction false} SumLengthsStep(p: seq<Slot>, k: nat)
    requires 0 < k <= |p|
    ensures SumLengths(p[..k]) == p[0].len + SumLengths(p[1..][..k - 1])
  {
    if k == 1 {
      assert p[..1][..0] == [] && p[1..][..0] == [];
    } else {
      SumLengthsStep(p, k - 1);
      assert p[..k][..k - 1] == p[..k - 1];
      assert p[1..][..k - 1][..k - 2] == p[1..][..k - 2];
      assert p[1..][..k - 1][k - 2] == p[k - 1];
    }
  }

  lemma {:induction false} TilesAreSums(p: seq<Slot>, offset: int)
    ensures Tiles(p, offset) <==> forall k :: 0 <= k < |p| ==> p[k].off == offset + SumLengths(p[..k])
  {
    if p != [] {
      TilesAreSums(p[1..], offset + p[0].len);
      assert p[..0] == [];
      forall k | 0 < k < |p| ensures SumLengths(p[..k]) == p[0].len + SumLengths(p[1..][..k - 1]) {
        SumLengthsStep(p, k);
      }
      if Tiles(p, offset) {
        forall k | 0 <= k < |p| ensures p[k].off == offset + SumLengths(p[..k]) {
          if k > 0 {
            assert p[1..][k - 1] == p[k];
          }
        }
      }
      if forall k :: 0 <= k < |p| ==> p[k].off == offset + SumLengths(p[..k]) {
        forall k | 0 <= k < |p[1..]| ensures p[1..][k].off == offset + p[0].len + SumLengths(p[1..][..k]) {
          assert p[1..][k] == p[k + 1];
        }
      }
    }
  }

  lemma PackDistinct(slots: seq<Slot>, b: int)
    requires FileAscending(slots)
    ensures var p := Pack(slots, b); forall i, j | 0 <= i < j < |p| :: p[i].fi != p[j].fi
  {
    var p := Pack(slots, b);
    OfAscends(slots, b);
    PackOrder(slots, b);
    NoDuplicatesPermutes(p, Of(slots, b));
    forall i, j | 0 <= i < j < |p| ensures p[i].fi != p[j].fi {
      assert p[i] in slots && p[j] in slots && p[i] != p[j];
    }
  }

  /** The loop over sorted packs checks exactly that each offset is the sum of what precedes it. */
  lemma TiledIsSums(slots: seq<Slot>)
    requires FileAscending(slots)
    ensures Tiled(slots) <==> OffsetsAreSums(slots)
  {
    forall b
      ensures Tiles(Pack(slots, b), 0) <==> forall s :: s in slots && s.blob == b ==> s.off == SumBefore(slots, s)
    {
      var p := Pack(slots, b);
      PackOrder(slots, b);
      PackDistinct(slots, b);
      TilesAreSums(p, 0);
      forall k | 0 <= k < |p| ensures SumBefore(slots, p[k]) == SumLengths(p[..k]) {
        assert p[k] in p;
        SumBeforeOf(slots, p[k]);
        SumBeforePermutes(Of(slots, b), p, p[k]);
        SumBeforeSorted(p, k);
      }
      if forall s :: s in slots && s.blob == b ==> s.off == SumBefore(slots, s) {
        forall k | 0 <= k < |p| ensures p[k].off == SumLengths(p[..k]) {
          assert p[k] in p;
        }
      }
      if Tiles(p, 0) {
        forall s | s in slots && s.blob == b ensures s.off == SumBefore(slots, s) {
          assert s in p;
          var k :| 0 <= k < |p| && p[k] == s;
        }
      }
    }
    if OffsetsAreSums(slots) {
      assert Tiled(slots);
    }
    if Tiled(slots) {
      forall s | s in slots ensures s.off == SumBefore(slots, s) {
        assert Tiles(Pack(slots, s.blob), 0);
      }
    }
  }

  lemma ArrangedTiled(groups: seq<PackGroup>, slots: seq<Slot>)
    requires Arranged(groups, slots)
    ensures Tiled(slots) <==> forall g :: g in groups ==> Tiles(g.members, 0)
  {
    forall b ensures Pack(slots, b) == [] || HasKey(groups, b) {
      PackOrder(slots, b);
      assert Pack(slots, b) == [] || Pack(slots, b)[0] in slots;
    }
  }

  lemma ArrangedNonNegative(groups: seq<PackGroup>, f: seq<Row>)
    requires Arranged(groups, Packed(f))
    ensures NonNegativeLengths(Packed(f)) <==> forall g :: g in groups ==> NonNegativeLengths(g.members)
  {
    ArrangedSplits(groups, Packed(f));
    SplitNonNegative(groups, Packed(f));
  }

  lemma SplitNonNegative(groups: seq<PackGroup>, slots: seq<Slot>)
    requires SplitByBlob(groups, slots)
    ensures NonNegativeLengths(slots) <==> forall g :: g in groups ==> NonNegativeLengths(g.members)
  {
    if forall g :: g in groups ==> NonNegativeLengths(g.members) {
      forall s | s in slots ensures s.len >= 0 {
        var g :| g in groups && g.key == s.blob;
        assert s in g.members;
      }
    }
  }

  // ----- v2

  lemma {:induction false} EncodeV2Ok(groups: seq<PackGroup>)
    requires forall g :: g in groups ==> g.members != []
    ensures V2.Encode(groups).Ok? <==> forall g :: g in groups ==> Tiles(g.members, 0)
  {
    if groups != [] {
      assert groups == [groups[0]] + groups[1..];
      EncodeV2Ok(groups[1..]);
    }
  }

  /** v2 accepts exactly the layouts in which every packed row starts where the rows before it in its
      pack, by offset and then by file row, add up to. */
  lemma AcceptedV2Exact(f: seq<Row>)
    ensures AcceptedV2(f) <==> OffsetsAreSums(Packed(f))
  {
    hide Packed, ByBlob;
    ByBlobArranges(f);
    EncodeV2Ok(ByBlob(f));
    ArrangedTiled(ByBlob(f), Packed(f));
    PackedSound(f);
    TiledIsSums(Packed(f));
  }
}
