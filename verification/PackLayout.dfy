/** The slots of one pack: a slice for every row that names a member, and when they lie one after another. */
module PackLayout {
  import opened ControlRows
  import opened Numbers
  import opened LocalityPack
  import opened PackRun
  import opened MicroPackBuilder

  /** The rows that name a content, ascending. */
  function NamedBy(refs: Refs, h: int): seq<int> {
    RowsOf(Lookup(refs, h))
  }

  function RowOf(refs: Refs, h: int): int {
    MinOf(NamedBy(refs, h))
  }

  /** One slice, for each of these rows. */
  function Fan(fis: seq<int>, blob: int, off: int, len: int): (r: seq<Slot>)
    ensures |r| == |fis|
    ensures forall k :: 0 <= k < |r| ==> r[k] == Slot(fis[k], blob, off, len)
  {
    seq(|fis|, k requires 0 <= k < |fis| => Slot(fis[k], blob, off, len))
  }

  /** The slots of a pack, member by member. */
  function PackSlots(rows: seq<Item>, refs: Refs, blob: int): (r: seq<Slot>)
    ensures forall s :: s in r ==> s.blob == blob && s.len >= 0
  {
    if rows == [] then []
    else
      var init, it := rows[..|rows| - 1], rows[|rows| - 1];
      PackSlots(init, refs, blob) + Fan(NamedBy(refs, it.digest), blob, |Concat(init)|, Size(it))
  }

  /** The rows of a pack, member by member. */
  function PackRows(rows: seq<Item>, refs: Refs): seq<int> {
    if rows == [] then []
    else PackRows(rows[..|rows| - 1], refs) + NamedBy(refs, rows[|rows| - 1].digest)
  }

  /** The slot of row `fi` for the member `h`. */
  function SlotAt(fi: int, rows: seq<Item>, blob: int, h: int): Slot {
    var s := SlotIn(rows, h);
    Slot(fi, blob, s.0, s.1)
  }

  lemma {:induction false} RowsOfSlots(rows: seq<Item>, refs: Refs, blob: int)
    ensures FileIndices(PackSlots(rows, refs, blob)) == PackRows(rows, refs)
  {
    hide NamedBy;
    if rows != [] {
      var init, it := rows[..|rows| - 1], rows[|rows| - 1];
      RowsOfSlots(init, refs, blob);
      var a, b := PackSlots(init, refs, blob), Fan(NamedBy(refs, it.digest), blob, |Concat(init)|, Size(it));
      assert FileIndices(a + b) == FileIndices(a) + FileIndices(b);
      assert FileIndices(b) == NamedBy(refs, it.digest);
    }
  }

  lemma LastSlot(rows: seq<Item>)
    requires rows != []
    ensures var init, it := rows[..|rows| - 1], rows[|rows| - 1];
            SlotIn(rows, it.digest) == (|Concat(init)|, Size(it))
            && forall h :: h != it.digest ==> SlotIn(rows, h) == SlotIn(init, h)
  {
  }

  /** The slots are those that the dictionary `slots` gives to the rows of the members. */
  lemma {:induction false} PackSlotsExact(rows: seq<Item>, refs: Refs, blob: int, s: Slot)
    requires DistinctDigests(rows)
    ensures s in PackSlots(rows, refs, blob) <==>
            exists it :: it in rows && s.fi in NamedBy(refs, it.digest) && s == SlotAt(s.fi, rows, blob, it.digest)
  {
    hide NamedBy, SlotIn, Concat;
    if rows != [] {
      var init, last := rows[..|rows| - 1], rows[|rows| - 1];
      assert rows == init + [last];
      PackSlotsExact(init, refs, blob, s);
      LastSlot(rows);
      forall it | it in init ensures it.digest != last.digest {
        var k :| 0 <= k < |init| && init[k] == it;
        assert rows[k] == it;
      }
      var fan := Fan(NamedBy(refs, last.digest), blob, |Concat(init)|, Size(last));
      FanMember(NamedBy(refs, last.digest), blob, |Concat(init)|, Size(last), s);
      assert s in PackSlots(rows, refs, blob) <==> s in PackSlots(init, refs, blob) || s in fan;
    }
  }

  lemma FanMember(fis: seq<int>, blob: int, off: int, len: int, s: Slot)
    ensures s in Fan(fis, blob, off, len) <==> s.fi in fis && s == Slot(s.fi, blob, off, len)
  {
    var fan := Fan(fis, blob, off, len);
    if s.fi in fis && s == Slot(s.fi, blob, off, len) {
      var k :| 0 <= k < |fis| && fis[k] == s.fi;
      assert fan[k] == s;
    }
  }

  /** The slot of the i-th member. */
  lemma {:induction false} SlotInAt(rows: seq<Item>, i: nat)
    requires i < |rows| && DistinctDigests(rows)
    ensures SlotIn(rows, rows[i].digest) == (|Concat(rows[..i])|, Size(rows[i]))
  {
    hide Concat;
    var n := |rows| - 1;
    LastSlot(rows);
    if i < n {
      SlotInAt(rows[..n], i);
      assert rows[..n][..i] == rows[..i];
    }
  }

  // ----- Packs whose slots lie one after another

  ghost predicate AtMostOneEmpty(rows: seq<Item>) {
    forall i, j | 0 <= i < j < |rows| :: rows[i].raw == [] ==> rows[j].raw != []
  }

  /** Every content that is not empty is named by one row, and every row of an empty content comes before
      the row of the member at the same offset. */
  ghost predicate Orderly(rows: seq<Item>, refs: Refs) {
    && (forall it :: it in rows && it.raw != [] ==> |NamedBy(refs, it.digest)| == 1)
    && forall i, fi :: 0 <= i < |rows| - 1 && rows[i].raw == [] && fi in NamedBy(refs, rows[i].digest) ==>
         fi < RowOf(refs, rows[i + 1].digest)
  }

  lemma OrderlyInit(rows: seq<Item>, refs: Refs)
    requires rows != [] && Orderly(rows, refs)
    ensures Orderly(rows[..|rows| - 1], refs)
  {
    hide NamedBy, RowOf;
    var init := rows[..|rows| - 1];
    assert forall it :: it in init ==> it in rows;
    assert forall i :: 0 <= i < |init| ==> init[i] == rows[i];
  }

  lemma {:induction false} TilesAppend(a: seq<Slot>, x: Slot, offset: int)
    requires Tiles(a, offset) && x.off == offset + Total(Lengths(a))
    ensures Tiles(a + [x], offset)
    ensures Total(Lengths(a + [x])) == Total(Lengths(a)) + x.len
  {
    var all := a + [x];
    ColumnsTail(all);
    if a == [] {
      assert all == [x] && Lengths(all) == [x.len];
    } else {
      ColumnsTail(a);
      assert all[1..] == a[1..] + [x];
      TilesAppend(a[1..], x, offset + a[0].len);
    }
  }

  lemma {:induction false} TilesFan(a: seq<Slot>, fis: seq<int>, blob: int, off: int, len: int)
    requires Tiles(a, 0) && Total(Lengths(a)) == off && (len == 0 || |fis| == 1)
    ensures Tiles(a + Fan(fis, blob, off, len), 0)
    ensures Total(Lengths(a + Fan(fis, blob, off, len))) == off + len
    decreases |fis|
  {
    hide Tiles, Total;
    var fan := Fan(fis, blob, off, len);
    if fis == [] {
      assert a + fan == a;
    } else {
      var n := |fis| - 1;
      var before := Fan(fis[..n], blob, off, len);
      assert fan == before + [fan[n]];
      if n > 0 {
        TilesFan(a, fis[..n], blob, off, len);
      }
      assert n == 0 ==> a + before == a;
      TilesAppend(a + before, fan[n], 0);
      assert a + fan == a + before + [fan[n]];
    }
  }

  lemma {:induction false} OrderlyTiles(rows: seq<Item>, refs: Refs, blob: int)
    requires Orderly(rows, refs)
    ensures Tiles(PackSlots(rows, refs, blob), 0)
    ensures Total(Lengths(PackSlots(rows, refs, blob))) == |Concat(rows)|
  {
    hide NamedBy, RowOf;
    if rows != [] {
      var init, it := rows[..|rows| - 1], rows[|rows| - 1];
      OrderlyInit(rows, refs);
      OrderlyTiles(init, refs, blob);
      assert it in rows;
      TilesFan(PackSlots(init, refs, blob), NamedBy(refs, it.digest), blob, |Concat(init)|, Size(it));
    }
  }

  /** A slot ends within the pack; its length is that of a member. */
  lemma {:induction false} SlotsBounded(rows: seq<Item>, refs: Refs, blob: int, s: Slot)
    requires s in PackSlots(rows, refs, blob)
    ensures 0 <= s.off && s.off + s.len <= |Concat(rows)|
    ensures exists i :: 0 <= i < |rows| && s.fi in NamedBy(refs, rows[i].digest) && s.len == Size(rows[i])
  {
    hide NamedBy;
    var init, it := rows[..|rows| - 1], rows[|rows| - 1];
    if s in PackSlots(init, refs, blob) {
      SlotsBounded(init, refs, blob, s);
      var i :| 0 <= i < |init| && s.fi in NamedBy(refs, init[i].digest) && s.len == Size(init[i]);
      assert rows[i] == init[i];
    } else {
      FanMember(NamedBy(refs, it.digest), blob, |Concat(init)|, Size(it), s);
      assert rows[|rows| - 1] == it;
    }
  }

  lemma InnerStarts(rows: seq<Item>, refs: Refs, blob: int, s: Slot)
    requires rows != [] && AtMostOneEmpty(rows) && s in PackSlots(rows[..|rows| - 1], refs, blob)
    ensures s.off < |Concat(rows)|
  {
    hide NamedBy;
    var init, last := rows[..|rows| - 1], rows[|rows| - 1];
    SlotsBounded(init, refs, blob, s);
    var i :| 0 <= i < |init| && s.fi in NamedBy(refs, init[i].digest) && s.len == Size(init[i]);
    assert rows[i] == init[i];
    if last.raw == [] {
      assert rows[i].raw != [];
    }
  }

  /** A slot that starts at the end of the pack is one of an empty last member. */
  lemma SlotAtEnd(rows: seq<Item>, refs: Refs, blob: int, s: Slot)
    requires AtMostOneEmpty(rows) && s in PackSlots(rows, refs, blob) && s.off == |Concat(rows)|
    ensures rows != [] && rows[|rows| - 1].raw == [] && s.fi in NamedBy(refs, rows[|rows| - 1].digest)
  {
    hide NamedBy;
    var init, last := rows[..|rows| - 1], rows[|rows| - 1];
    if s in PackSlots(init, refs, blob) {
      InnerStarts(rows, refs, blob, s);
    }
    FanMember(NamedBy(refs, last.digest), blob, |Concat(init)|, Size(last), s);
  }

  /** By offset, and at one offset by row. */
  ghost predicate StrictlyOrdered(slots: seq<Slot>) {
    forall i, j | 0 <= i < j < |slots| ::
      slots[i].off < slots[j].off || (slots[i].off == slots[j].off && slots[i].fi < slots[j].fi)
  }

  ghost predicate RowsAscending(refs: Refs) {
    forall h :: RowsAscend(Lookup(refs, h))
  }

  lemma NamedAscending(refs: Refs, h: int)
    requires RowsAscending(refs)
    ensures var fis := NamedBy(refs, h); forall i, j | 0 <= i < j < |fis| :: fis[i] < fis[j]
  {
    var ms := Lookup(refs, h);
    assert RowsAscend(ms);
  }

  lemma {:induction false} OrderlyOrdered(rows: seq<Item>, refs: Refs, blob: int)
    requires Orderly(rows, refs) && AtMostOneEmpty(rows) && RowsAscending(refs)
    ensures StrictlyOrdered(PackSlots(rows, refs, blob))
  {
    hide NamedBy, RowOf, RowsAscending, Concat;
    if rows != [] {
      var init, it := rows[..|rows| - 1], rows[|rows| - 1];
      OrderlyInit(rows, refs);
      assert AtMostOneEmpty(init);
      OrderlyOrdered(init, refs, blob);
      var a, fis := PackSlots(init, refs, blob), NamedBy(refs, it.digest);
      var fan := Fan(fis, blob, |Concat(init)|, Size(it));
      NamedAscending(refs, it.digest);
      assert it in rows;
      forall s, t | s in a && t in fan ensures s.off < t.off || (s.off == t.off && s.fi < t.fi) {
        EndBeforeFan(rows, refs, blob, s, t);
      }
      OrderedConcat(a, fan);
    }
  }

  lemma EndBeforeFan(rows: seq<Item>, refs: Refs, blob: int, s: Slot, t: Slot)
    requires rows != [] && Orderly(rows, refs) && AtMostOneEmpty(rows)
    requires var init, it := rows[..|rows| - 1], rows[|rows| - 1];
             s in PackSlots(init, refs, blob) && t in Fan(NamedBy(refs, it.digest), blob, |Concat(init)|, Size(it))
    ensures s.off < t.off || (s.off == t.off && s.fi < t.fi)
  {
    hide NamedBy, Concat;
    var n := |rows| - 1;
    var init, it := rows[..n], rows[n];
    FanMember(NamedBy(refs, it.digest), blob, |Concat(init)|, Size(it), t);
    SlotsBounded(init, refs, blob, s);
    if s.off == |Concat(init)| {
      SlotAtEnd(init, refs, blob, s);
      assert init[n - 1] == rows[n - 1] && rows[n - 1].raw == [] && it.raw != [] && it in rows;
      OnlyRowOf(refs, it.digest, t.fi);
    }
  }

  lemma OnlyRowOf(refs: Refs, h: int, fi: int)
    requires |NamedBy(refs, h)| == 1 && fi in NamedBy(refs, h)
    ensures RowOf(refs, h) == fi
  {
  }

  lemma OrderedConcat(a: seq<Slot>, b: seq<Slot>)
    requires StrictlyOrdered(a) && StrictlyOrdered(b)
    requires forall s, t :: s in a && t in b ==> s.off < t.off || (s.off == t.off && s.fi < t.fi)
    ensures StrictlyOrdered(a + b)
  {
    var all := a + b;
    forall i, j | 0 <= i < j < |all|
      ensures all[i].off < all[j].off || (all[i].off == all[j].off && all[i].fi < all[j].fi)
    {
      if i < |a| <= j {
        assert all[i] == a[i] && all[i] in a && all[j] == b[j - |a|] && all[j] in b;
      }
    }
  }

  /** The slot of row `fi` for the i-th member. */
  function MemberSlot(rows: seq<Item>, refs: Refs, blob: int, i: nat, fi: int): Slot
    requires i < |rows|
  {
    Slot(fi, blob, |Concat(rows[..i])|, Size(rows[i]))
  }

  /** If a pack is not orderly, two of its rows start at one offset, the first of them not empty. */
  lemma Disorder(rows: seq<Item>, refs: Refs, blob: int) returns (s: Slot, t: Slot)
    requires DistinctDigests(rows) && AtMostOneEmpty(rows) && RowsAscending(refs) && !Orderly(rows, refs)
    requires forall it :: it in rows ==> NamedBy(refs, it.digest) != []
    requires forall i, j, fi :: 0 <= i < |rows| && 0 <= j < |rows| && i != j && fi in NamedBy(refs, rows[i].digest)
               ==> fi !in NamedBy(refs, rows[j].digest)
    ensures s in PackSlots(rows, refs, blob) && t in PackSlots(rows, refs, blob)
    ensures s.off == t.off && s.fi < t.fi && s.len > 0
  {
    hide NamedBy, RowOf, RowsAscending, SlotIn, Concat, PackSlots;
    if it :| it in rows && it.raw != [] && |NamedBy(refs, it.digest)| != 1 {
      var fis := NamedBy(refs, it.digest);
      NamedAscending(refs, it.digest);
      var i :| 0 <= i < |rows| && rows[i] == it;
      s, t := MemberSlot(rows, refs, blob, i, fis[0]), MemberSlot(rows, refs, blob, i, fis[1]);
      MemberSlotExists(rows, refs, blob, i, fis[0]);
      MemberSlotExists(rows, refs, blob, i, fis[1]);
    } else {
      s, t := LateEmpty(rows, refs, blob);
    }
  }

  lemma MemberSlotExists(rows: seq<Item>, refs: Refs, blob: int, i: nat, fi: int)
    requires DistinctDigests(rows) && i < |rows| && fi in NamedBy(refs, rows[i].digest)
    ensures MemberSlot(rows, refs, blob, i, fi) in PackSlots(rows, refs, blob)
  {
    hide NamedBy, SlotIn, Concat;
    SlotInAt(rows, i);
    assert rows[i] in rows;
    PackSlotsExact(rows, refs, blob, MemberSlot(rows, refs, blob, i, fi));
  }

  lemma LateEmpty(rows: seq<Item>, refs: Refs, blob: int) returns (s: Slot, t: Slot)
    requires DistinctDigests(rows) && AtMostOneEmpty(rows)
    requires forall it :: it in rows && it.raw != [] ==> |NamedBy(refs, it.digest)| == 1
    requires exists i, fi :: 0 <= i < |rows| - 1 && rows[i].raw == [] && fi in NamedBy(refs, rows[i].digest)
                             && fi >= RowOf(refs, rows[i + 1].digest)
    requires forall i, j, fi :: 0 <= i < |rows| && 0 <= j < |rows| && i != j && fi in NamedBy(refs, rows[i].digest)
               ==> fi !in NamedBy(refs, rows[j].digest)
    ensures s in PackSlots(rows, refs, blob) && t in PackSlots(rows, refs, blob)
    ensures s.off == t.off && s.fi < t.fi && s.len > 0
  {
    hide NamedBy, RowOf, SlotIn, Concat, PackSlots;
    var i, fi :| 0 <= i < |rows| - 1 && rows[i].raw == [] && fi in NamedBy(refs, rows[i].digest)
                 && fi >= RowOf(refs, rows[i + 1].digest);
    assert rows[i + 1] in rows && rows[i + 1].raw != [];
    var y := NamedBy(refs, rows[i + 1].digest)[0];
    OnlyRowOf(refs, rows[i + 1].digest, y);
    SameStart(rows, i);
    s, t := MemberSlot(rows, refs, blob, i + 1, y), MemberSlot(rows, refs, blob, i, fi);
    MemberSlotExists(rows, refs, blob, i + 1, y);
    MemberSlotExists(rows, refs, blob, i, fi);
  }

  lemma SameStart(rows: seq<Item>, i: nat)
    requires i < |rows| && rows[i].raw == []
    ensures |Concat(rows[..i + 1])| == |Concat(rows[..i])|
  {
    assert rows[..i + 1][..i] == rows[..i];
  }

  ghost predicate HasBytes(rows: seq<Item>) {
    exists it :: it in rows && it.raw != []
  }

  lemma {:induction false} NoBytes(rows: seq<Item>)
    requires !HasBytes(rows)
    ensures Concat(rows) == []
  {
    if rows != [] {
      var init, last := rows[..|rows| - 1], rows[|rows| - 1];
      assert rows == init + [last] && last in rows;
      assert !HasBytes(init);
      NoBytes(init);
    }
  }

  lemma {:induction false} SomeBytes(rows: seq<Item>)
    requires HasBytes(rows)
    ensures Concat(rows) != []
  {
    var init, last := rows[..|rows| - 1], rows[|rows| - 1];
    assert rows == init + [last];
    if last.raw == [] {
      assert HasBytes(init);
      SomeBytes(init);
    }
  }

  /** The first member that is not empty. */
  lemma {:induction false} OpeningMember(rows: seq<Item>) returns (i: nat)
    requires HasBytes(rows)
    ensures i < |rows| && rows[i].raw != [] && Concat(rows[..i]) == []
  {
    hide Concat;
    var n := |rows| - 1;
    var init := rows[..n];
    if HasBytes(init) {
      i := OpeningMember(init);
      assert rows[..i] == init[..i] && rows[i] == init[i];
    } else {
      i := n;
      NoBytes(init);
      assert rows == init + [rows[n]];
    }
  }
}
