/** Exactly which layouts the v4 encoder accepts. */
module AcceptanceV4 {
  import opened Sorting
  import opened Grouping
  import opened ControlRows
  import opened Descriptors
  import opened Acceptance
  import V4 = PackMapV4

  /** First and last file row of a pack: `Of` lists them in file order. */
  function FirstRow(slots: seq<Slot>, b: int): int {
    var r := Of(slots, b);
    if r == [] then 0 else r[0].fi
  }

  function LastRow(slots: seq<Slot>, b: int): int {
    var r := Of(slots, b);
    if r == [] then 0 else r[|r| - 1].fi
  }

  ghost predicate IsRun(slots: seq<Slot>, b: int) {
    Contiguous(FileIndices(Pack(slots, b)))
  }

  /** No pack that opens earlier in the file table reaches past the first row of a pack that is stored
      as a run. Sparse packs are unrestricted. */
  ghost predicate NoStraddle(slots: seq<Slot>) {
    forall s, t :: s in slots && t in slots && IsRun(slots, s.blob)
                   && FirstRow(slots, t.blob) < FirstRow(slots, s.blob)
                   ==> LastRow(slots, t.blob) < FirstRow(slots, s.blob)
  }

  // ----- Rows of a pack, by position and by file order

  lemma {:induction false} MaxOfExact(s: seq<int>)
    requires s != []
    ensures V4.MaxOf(s) in s
    ensures forall x :: x in s ==> x <= V4.MaxOf(s)
  {
    if |s| > 1 {
      MaxOfExact(s[1..]);
      assert s == [s[0]] + s[1..];
    }
  }

  lemma {:induction false} MinFiExact(members: seq<Slot>)
    requires members != []
    ensures exists m :: m in members && m.fi == V4.MinFi(members)
    ensures forall m :: m in members ==> V4.MinFi(members) <= m.fi
  {
    assert members == [members[0]] + members[1..];
    if |members| > 1 {
      MinFiExact(members[1..]);
      var m :| m in members[1..] && m.fi == V4.MinFi(members[1..]);
      assert m in members && members[0] in members;
    } else {
      assert members[0] in members;
    }
  }

  lemma RowBounds(slots: seq<Slot>, b: int)
    requires FileAscending(slots) && Of(slots, b) != []
    ensures forall s :: s in slots && s.blob == b ==> FirstRow(slots, b) <= s.fi <= LastRow(slots, b)
    ensures exists s :: s in slots && s.blob == b && s.fi == FirstRow(slots, b)
    ensures exists s :: s in slots && s.blob == b && s.fi == LastRow(slots, b)
  {
    var r := Of(slots, b);
    OfAscends(slots, b);
    forall s | s in slots && s.blob == b ensures FirstRow(slots, b) <= s.fi <= LastRow(slots, b) {
      assert s in r;
      var k :| 0 <= k < |r| && r[k] == s;
    }
    assert r[0] in r && r[|r| - 1] in r;
  }

  lemma MemberBounds(p: seq<Slot>, lo: Slot, hi: Slot)
    requires lo in p && hi in p && forall s :: s in p ==> lo.fi <= s.fi <= hi.fi
    ensures V4.MinFi(p) == lo.fi
    ensures V4.MaxOf(FileIndices(p)) == hi.fi
    ensures Contiguous(FileIndices(p)) ==> FileIndices(p)[0] == lo.fi
  {
    var fis := FileIndices(p);
    MinFiExact(p);
    MaxOfExact(fis);
    var i :| 0 <= i < |p| && p[i] == lo;
    var j :| 0 <= j < |p| && p[j] == hi;
    assert fis[i] == lo.fi && fis[j] == hi.fi && fis[i] in fis && fis[j] in fis;
    var m :| 0 <= m < |fis| && fis[m] == V4.MaxOf(fis);
    assert p[m] in p && p[0] in p;
  }

  /** What the encoder computes from a pack in physical order is its first and last row. */
  lemma PackBounds(slots: seq<Slot>, b: int)
    requires FileAscending(slots) && Of(slots, b) != []
    ensures var p := Pack(slots, b);
            && p != []
            && V4.MinFi(p) == FirstRow(slots, b)
            && V4.MaxOf(FileIndices(p)) == LastRow(slots, b)
            && (IsRun(slots, b) ==> FileIndices(p)[0] == FirstRow(slots, b))
  {
    PackOrder(slots, b);
    RowBounds(slots, b);
    var lo :| lo in slots && lo.blob == b && lo.fi == FirstRow(slots, b);
    var hi :| hi in slots && hi.blob == b && hi.fi == LastRow(slots, b);
    MemberBounds(Pack(slots, b), lo, hi);
  }

  // ----- The loop over ordered packs

  function Indices(groups: seq<PackGroup>, k: nat): (r: seq<int>)
    requires k < |groups|
  {
    FileIndices(groups[k].members)
  }

  ghost predicate RunsClear(groups: seq<PackGroup>, fileEnd: int)
    requires forall g :: g in groups ==> g.members != []
  {
    forall k :: 0 <= k < |groups| && Contiguous(Indices(groups, k)) ==>
      && fileEnd <= Indices(groups, k)[0]
      && forall j :: 0 <= j < k ==> V4.MaxOf(Indices(groups, j)) < Indices(groups, k)[0]
  }

  lemma RunsClearCons(groups: seq<PackGroup>, fileEnd: int)
    requires groups != [] && forall g :: g in groups ==> g.members != []
    ensures RunsClear(groups, fileEnd) <==>
            && (Contiguous(Indices(groups, 0)) ==> fileEnd <= Indices(groups, 0)[0])
            && RunsClear(groups[1..], V4.FileEnd(fileEnd, Indices(groups, 0)))
  {
    var rest := groups[1..];
    assert forall k :: 0 <= k < |rest| ==> rest[k] == groups[k + 1];
    forall k | 0 <= k < |groups| ensures groups[k].members != [] {
      assert groups[k] in groups;
    }
    if RunsClear(groups, fileEnd) {
      forall k | 0 <= k < |rest| && Contiguous(Indices(rest, k))
        ensures && V4.FileEnd(fileEnd, Indices(groups, 0)) <= Indices(rest, k)[0]
                && forall j :: 0 <= j < k ==> V4.MaxOf(Indices(rest, j)) < Indices(rest, k)[0]
      {
        assert Indices(rest, k) == Indices(groups, k + 1);
        forall j | 0 <= j < k ensures V4.MaxOf(Indices(rest, j)) < Indices(rest, k)[0] {
          assert Indices(rest, j) == Indices(groups, j + 1);
        }
      }
    }
    if && (Contiguous(Indices(groups, 0)) ==> fileEnd <= Indices(groups, 0)[0])
       && RunsClear(rest, V4.FileEnd(fileEnd, Indices(groups, 0)))
    {
      forall k | 0 <= k < |groups| && Contiguous(Indices(groups, k))
        ensures && fileEnd <= Indices(groups, k)[0]
                && forall j :: 0 <= j < k ==> V4.MaxOf(Indices(groups, j)) < Indices(groups, k)[0]
      {
        if k > 0 {
          assert Indices(groups, k) == Indices(rest, k - 1);
          forall j | 0 <= j < k ensures V4.MaxOf(Indices(groups, j)) < Indices(groups, k)[0] {
            if j > 0 {
              assert Indices(groups, j) == Indices(rest, j - 1);
            }
          }
        }
      }
    }
  }

  lemma {:induction false} EncodeV4Ok(groups: seq<PackGroup>, fileEnd: int)
    requires forall g :: g in groups ==> g.members != []
    ensures V4.Encode(groups, fileEnd).Ok? <==>
            && (forall g :: g in groups ==> Tiles(g.members, 0) && NonNegativeLengths(g.members))
            && RunsClear(groups, fileEnd)
    decreases |groups|
  {
    if groups != [] {
      assert groups == [groups[0]] + groups[1..];
      TileCheckExact(groups[0].members, 0);
      RunsClearCons(groups, fileEnd);
      EncodeV4Ok(groups[1..], V4.FileEnd(fileEnd, Indices(groups, 0)));
    }
  }

  ghost predicate OrderedByFirst(groups: seq<PackGroup>, slots: seq<Slot>) {
    forall j, k | 0 <= j < k < |groups| :: FirstRow(slots, groups[j].key) < FirstRow(slots, groups[k].key)
  }

  lemma OrderedIsByFirst(f: seq<Row>)
    ensures OrderedByFirst(V4.Ordered(f), Packed(f))
  {
    hide Packed;
    var slots, groups := Packed(f), V4.Ordered(f);
    V4.OrderedArranges(f);
    PackedSound(f);
    SortAscends(ArrangeAll(Buckets(slots)), V4.FirstKey);
    forall j, k | 0 <= j < k < |groups|
      ensures FirstRow(slots, groups[j].key) < FirstRow(slots, groups[k].key)
    {
      var a, b := groups[j], groups[k];
      assert a in groups && b in groups && a.key != b.key;
      PackOrder(slots, a.key);
      PackOrder(slots, b.key);
      PackBounds(slots, a.key);
      PackBounds(slots, b.key);
      assert Le(V4.FirstKey(a), V4.FirstKey(b));
      RowBounds(slots, a.key);
      RowBounds(slots, b.key);
      DistinctRows(slots, a.key, b.key);
    }
  }

  lemma DistinctRows(slots: seq<Slot>, a: int, b: int)
    requires FileAscending(slots) && a != b && Of(slots, a) != [] && Of(slots, b) != []
    ensures FirstRow(slots, a) != FirstRow(slots, b)
    ensures FirstRow(slots, a) != LastRow(slots, b)
  {
    hide FirstRow, LastRow, Of;
    RowBounds(slots, a);
    RowBounds(slots, b);
    var s :| s in slots && s.blob == a && s.fi == FirstRow(slots, a);
    var t :| t in slots && t.blob == b && t.fi == FirstRow(slots, b);
    var u :| u in slots && u.blob == b && u.fi == LastRow(slots, b);
    DistinctSlots(slots, s, t);
    DistinctSlots(slots, s, u);
  }

  lemma DistinctSlots(slots: seq<Slot>, s: Slot, t: Slot)
    requires FileAscending(slots) && s in slots && t in slots && s != t
    ensures s.fi != t.fi
  {
    var i :| 0 <= i < |slots| && slots[i] == s;
    var j :| 0 <= j < |slots| && slots[j] == t;
  }

  /** With the packs in order of their first rows, the encoder's gap test is `NoStraddle`. */
  lemma RunsClearExact(groups: seq<PackGroup>, slots: seq<Slot>)
    requires Arranged(groups, slots) && FileAscending(slots) && OrderedByFirst(groups, slots)
    requires forall s :: s in slots ==> s.fi >= 0
    ensures RunsClear(groups, 0) <==> NoStraddle(slots)
  {
    ArrangedSplits(groups, slots);
    forall k | 0 <= k < |groups|
      ensures && groups[k] in groups && Of(slots, groups[k].key) != []
              && V4.MaxOf(Indices(groups, k)) == LastRow(slots, groups[k].key)
              && (Contiguous(Indices(groups, k)) <==> IsRun(slots, groups[k].key))
              && (Contiguous(Indices(groups, k)) ==> Indices(groups, k)[0] == FirstRow(slots, groups[k].key))
              && FirstRow(slots, groups[k].key) >= 0
    {
      PackOrder(slots, groups[k].key);
      PackBounds(slots, groups[k].key);
      RowBounds(slots, groups[k].key);
    }
    if RunsClear(groups, 0) {
      forall s, t | s in slots && t in slots && IsRun(slots, s.blob)
                    && FirstRow(slots, t.blob) < FirstRow(slots, s.blob)
        ensures LastRow(slots, t.blob) < FirstRow(slots, s.blob)
      {
        var k := PositionOf(groups, s.blob);
        var j := PositionOf(groups, t.blob);
        assert j < k;
      }
    }
    if NoStraddle(slots) {
      forall k | 0 <= k < |groups| && Contiguous(Indices(groups, k))
        ensures && 0 <= Indices(groups, k)[0]
                && forall j :: 0 <= j < k ==> V4.MaxOf(Indices(groups, j)) < Indices(groups, k)[0]
      {
        forall j | 0 <= j < k ensures V4.MaxOf(Indices(groups, j)) < Indices(groups, k)[0] {
          var s, t := groups[k].members[0], groups[j].members[0];
          assert s in groups[k].members && t in groups[j].members;
        }
      }
    }
  }

  lemma PositionOf(groups: seq<PackGroup>, b: int) returns (k: nat)
    requires HasKey(groups, b)
    ensures k < |groups| && groups[k].key == b
  {
    var g :| g in groups && g.key == b;
    k :| 0 <= k < |groups| && groups[k] == g;
  }

  /** v4 accepts exactly the tiled layouts without negative lengths in which no pack straddles the
      start of a later run. */
  lemma AcceptedV4Exact(f: seq<Row>)
    ensures AcceptedV4(f) <==>
            OffsetsAreSums(Packed(f)) && NonNegativeLengths(Packed(f)) && NoStraddle(Packed(f))
  {
    hide Packed, V4.Ordered;
    var groups, slots := V4.Ordered(f), Packed(f);
    V4.OrderedArranges(f);
    PackedSound(f);
    EncodeV4Ok(groups, 0);
    ArrangedTiled(groups, slots);
    ArrangedNonNegative(groups, f);
    TiledIsSums(slots);
    OrderedIsByFirst(f);
    RunsClearExact(groups, slots);
  }
}
