/** The compact control index that the pack-map codecs rewrite: file rows, the slices that packed
    rows name, and the dictionary `groups` that every encoder builds from them. */
module ControlRows {
  import opened Results
  import opened Sorting
  import opened Grouping
  import opened Kinds
  import opened Numbers

  /** Column 3 of a compact row. `Marker` is the one-element list `[S_PACK]`, `Slice` is
      `[S_PACK, blob, off, len]`, `Foreign` any other value, `Nothing` is `None`. */
  datatype Field = Nothing | Marker | Slice(blob: int, off: int, len: int) | Foreign(id: int)

  /** Directory rows have no column 3; `head` and `tail` are the other columns, never read here. */
  datatype Row =
    | Short(kind: int, head: seq<int>)
    | Long(kind: int, head: seq<int>, field: Field, tail: seq<int>)

  datatype BlobRow = BlobRow(off: int, usize: int, csize: int, codec: int, metaLen: int)

  datatype BlobColumn = NoTable | Table(rows: seq<BlobRow>)

  /** The compact index: file rows, blob table, and everything that is carried along. */
  datatype Control = Control(f: seq<Row>, b: BlobColumn, rest: seq<int>)

  predicate IsPacked(r: Row) {
    r.Long? && r.kind == K_FILE && r.field.Slice?
  }

  /** A file row whose storage says S_PACK but names no slice: indexing it raises. */
  predicate IsTruncated(r: Row) {
    r.Long? && r.kind == K_FILE && r.field.Marker?
  }

  ghost predicate Truncated(f: seq<Row>) {
    exists r :: r in f && IsTruncated(r)
  }

  predicate IsMarked(r: Row) {
    r.Long? && r.field.Marker?
  }

  /** No row carries the bare marker: compacting an index raises on a storage that says S_PACK and names
      no slice, so that no compact table has one. */
  ghost predicate Unmarked(f: seq<Row>) {
    forall r :: r in f ==> !IsMarked(r)
  }

  /** File row `fi` is bytes [off, off+len) of pack `blob`. */
  datatype Slot = Slot(fi: int, blob: int, off: int, len: int)

  function SlotOf(fi: int, r: Row): Slot
    requires IsPacked(r)
  {
    Slot(fi, r.field.blob, r.field.off, r.field.len)
  }

  /** The packed rows among the first `n`, in file order. */
  function PackedTo(f: seq<Row>, n: nat): seq<Slot>
    requires n <= |f|
  {
    if n == 0 then []
    else PackedTo(f, n - 1) + if IsPacked(f[n - 1]) then [SlotOf(n - 1, f[n - 1])] else []
  }

  function Packed(f: seq<Row>): seq<Slot> {
    PackedTo(f, |f|)
  }

  /** The rows with every packed row's column 3 overwritten. */
  function Cleared(f: seq<Row>, with: Field): (r: seq<Row>)
    ensures |r| == |f|
  {
    seq(|f|, i requires 0 <= i < |f| => if IsPacked(f[i]) then f[i].(field := with) else f[i])
  }

  function Fill(r: Row, s: Slot): Row
    requires r.Long?
  {
    r.(field := Slice(s.blob, s.off, s.len))
  }

  // ----- The packed rows as a list of slots

  lemma {:induction false} PackedToExact(f: seq<Row>, n: nat)
    requires n <= |f|
    ensures forall s :: s in PackedTo(f, n) <==> 0 <= s.fi < n && IsPacked(f[s.fi]) && s == SlotOf(s.fi, f[s.fi])
    ensures FileAscending(PackedTo(f, n))
  {
    if n > 0 {
      PackedToExact(f, n - 1);
    }
  }

  lemma PackedSound(f: seq<Row>)
    ensures forall s :: s in Packed(f) ==>
              0 <= s.fi < |f| && IsPacked(f[s.fi]) && f[s.fi].field == Slice(s.blob, s.off, s.len)
    ensures FileAscending(Packed(f))
  {
    PackedToExact(f, |f|);
  }

  lemma PackedComplete(f: seq<Row>, i: nat)
    requires i < |f| && IsPacked(f[i])
    ensures SlotOf(i, f[i]) in Packed(f)
  {
    PackedToExact(f, |f|);
  }

  lemma PackedDistinct(f: seq<Row>)
    ensures NoDuplicates(Packed(f))
    ensures Ascending(Packed(f), FileKey)
    ensures InjectiveOn(Packed(f), FileKey)
  {
    PackedSound(f);
  }

  // ----- Grouping by pack

  type PackGroup = Bucket<Slot>

  function BlobOf(s: Slot): int { s.blob }

  /** `groups.setdefault(blob, []).append((off, fi, ln))` over the packed rows. */
  function Buckets(slots: seq<Slot>): seq<PackGroup> {
    GroupBy(slots, BlobOf)
  }

  /** The slots of one pack, in the order in which they are listed. */
  function Of(slots: seq<Slot>, blob: int): seq<Slot> {
    WithKey(slots, BlobOf, blob)
  }

  function SlotKey(s: Slot): Key { (s.off, s.fi, s.len) }

  function FileKey(s: Slot): Key { (s.fi, 0, 0) }

  /** The slots of one pack in physical order: by offset, then file index. */
  function Pack(slots: seq<Slot>, blob: int): seq<Slot> {
    Sort(Of(slots, blob), SlotKey)
  }

  function Arrange(g: PackGroup): PackGroup {
    g.(members := Sort(g.members, SlotKey))
  }

  function ArrangeAll(groups: seq<PackGroup>): (r: seq<PackGroup>)
    ensures |r| == |groups|
    ensures forall k :: 0 <= k < |r| ==> r[k] == Arrange(groups[k])
  {
    seq(|groups|, k requires 0 <= k < |groups| => Arrange(groups[k]))
  }

  /** As `Grouped`, with every pack in physical order. */
  ghost predicate Arranged(groups: seq<PackGroup>, slots: seq<Slot>) {
    && DistinctKeys(groups)
    && (forall g :: g in groups ==> g.members == Pack(slots, g.key) && g.members != [])
    && (forall s :: s in slots ==> HasKey(groups, s.blob))
  }

  lemma ArrangeArranges(groups: seq<PackGroup>, slots: seq<Slot>)
    requires Grouped(groups, slots, BlobOf)
    ensures Arranged(ArrangeAll(groups), slots)
  {
    var out := ArrangeAll(groups);
    forall s | s in slots ensures HasKey(out, s.blob) {
      var g :| g in groups && g.key == s.blob;
      var k :| 0 <= k < |groups| && groups[k] == g;
      assert out[k] in out;
    }
  }

  lemma SortArranged(groups: seq<PackGroup>, slots: seq<Slot>, key: PackGroup -> Key)
    requires Arranged(groups, slots)
    ensures Arranged(Sort(groups, key), slots)
  {
    MembersMatch(groups, Sort(groups, key));
    DistinctKeysPermute(groups, Sort(groups, key));
  }

  lemma PackOrder(slots: seq<Slot>, blob: int)
    ensures multiset(Pack(slots, blob)) == multiset(Of(slots, blob))
    ensures |Pack(slots, blob)| == |Of(slots, blob)|
    ensures forall s :: s in Pack(slots, blob) <==> s in slots && s.blob == blob
    ensures Ascending(Pack(slots, blob), SlotKey)
  {
    MembersMatch(Pack(slots, blob), Of(slots, blob));
    SortAscends(Of(slots, blob), SlotKey);
  }

  ghost predicate FileAscending(slots: seq<Slot>) {
    forall i, j | 0 <= i < j < |slots| :: slots[i].fi < slots[j].fi
  }

  /** `groups` splits `slots` by blob, whatever the order within a pack. */
  ghost predicate SplitByBlob(groups: seq<PackGroup>, slots: seq<Slot>) {
    && (forall g :: g in groups ==> g.members != [])
    && (forall g, s :: g in groups ==> (s in g.members <==> s in slots && s.blob == g.key))
    && (forall s :: s in slots ==> HasKey(groups, s.blob))
  }

  lemma ArrangedSplits(groups: seq<PackGroup>, slots: seq<Slot>)
    requires Arranged(groups, slots)
    ensures SplitByBlob(groups, slots)
  {
    hide Pack;
    forall g, s | g in groups ensures s in g.members <==> s in slots && s.blob == g.key {
      PackOrder(slots, g.key);
    }
  }

  lemma SplitCovers(groups: seq<PackGroup>, slots: seq<Slot>)
    requires SplitByBlob(groups, slots)
    ensures forall s :: s in Listed(groups) <==> s in slots
  {
    forall s ensures s in Listed(groups) <==> s in slots {
      ListedMember(groups, s);
      if s in slots {
        var g :| g in groups && g.key == s.blob;
        assert s in g.members;
      }
    }
  }

  lemma {:induction false} OfAscends(slots: seq<Slot>, blob: int)
    requires FileAscending(slots)
    ensures FileAscending(Of(slots, blob))
  {
    if slots != [] {
      var last := |slots| - 1;
      var init := slots[..last];
      OfAscends(init, blob);
      var q := Of(init, blob);
      forall k | 0 <= k < |q| ensures q[k].fi < slots[last].fi {
        assert q[k] in init;
      }
      if slots[last].blob == blob {
        assert Of(slots, blob) == q + [slots[last]];
      } else {
        assert Of(slots, blob) == q;
      }
    }
  }

  /** The packs in order of their ids, as the v2 and v3 encoders list them. */
  function ByBlob(f: seq<Row>): seq<PackGroup> {
    ArrangeAll(Sort(Buckets(Packed(f)), BucketKey))
  }

  lemma ByBlobArranges(f: seq<Row>)
    ensures Arranged(ByBlob(f), Packed(f))
  {
    hide Packed, Sort, Arranged, Grouped;
    GroupByGroups(Packed(f), BlobOf);
    SortGrouped(Buckets(Packed(f)), Packed(f), BlobOf, BucketKey);
    ArrangeArranges(Sort(Buckets(Packed(f)), BucketKey), Packed(f));
  }

  /** Whatever the order of the packs, listing all their members lists the packed rows. */
  lemma ArrangedPermutes(groups: seq<PackGroup>, f: seq<Row>)
    requires Arranged(groups, Packed(f))
    ensures multiset(Listed(groups)) == multiset(Packed(f))
    ensures NoDuplicates(Listed(groups))
    ensures forall s :: s in Listed(groups) <==> s in Packed(f)
  {
    var slots := Packed(f);
    PackedSound(f);
    ArrangedSplits(groups, slots);
    forall g | g in groups ensures NoDuplicates(g.members) {
      OfAscends(slots, g.key);
      PackOrder(slots, g.key);
      NoDuplicatesPermutes(g.members, Of(slots, g.key));
    }
    ListedDistinct(groups, BlobOf);
    SplitCovers(groups, slots);
    SameElements(Listed(groups), slots);
  }

  // ----- Writing slots back into rows

  datatype Sheet = Sheet(rows: seq<Row>, seen: set<int>)

  /** The inner loop of the v3 and v4 decoders: assign the slots one by one, refusing an index that
      is out of range or was assigned before. */
  function Place(sheet: Sheet, slots: seq<Slot>): Result<Sheet>
    decreases |slots|
  {
    if slots == [] then Ok(sheet)
    else
      var s := slots[0];
      if s.fi < 0 || s.fi >= |sheet.rows| || s.fi in sheet.seen then Raised(MembershipClash)
      else if sheet.rows[s.fi].Short? then Raised(ShapeError)
      else Place(Assign(sheet, s), slots[1..])
  }

  function Fis(slots: seq<Slot>): set<int> {
    set s | s in slots :: s.fi
  }

  ghost predicate Placeable(sheet: Sheet, slots: seq<Slot>) {
    && (forall s :: s in slots ==> 0 <= s.fi < |sheet.rows| && sheet.rows[s.fi].Long? && s.fi !in sheet.seen)
    && (forall i, j | 0 <= i < j < |slots| :: slots[i].fi != slots[j].fi)
  }

  /** What a successful assignment leaves behind. */
  ghost predicate Placed(sheet: Sheet, slots: seq<Slot>, out: Sheet)
    requires Placeable(sheet, slots)
  {
    && |out.rows| == |sheet.rows|
    && (forall s :: s in slots ==> out.rows[s.fi] == Fill(sheet.rows[s.fi], s))
    && (forall i :: 0 <= i < |sheet.rows| && i !in Fis(slots) ==> out.rows[i] == sheet.rows[i])
    && out.seen == sheet.seen + Fis(slots)
  }

  predicate Assignable(sheet: Sheet, s: Slot) {
    0 <= s.fi < |sheet.rows| && s.fi !in sheet.seen && sheet.rows[s.fi].Long?
  }

  function Assign(sheet: Sheet, s: Slot): Sheet
    requires Assignable(sheet, s)
  {
    Sheet(sheet.rows[s.fi := Fill(sheet.rows[s.fi], s)], sheet.seen + {s.fi})
  }

  lemma PlaceableCons(sheet: Sheet, s: Slot, rest: seq<Slot>)
    ensures Placeable(sheet, [s] + rest) <==> Assignable(sheet, s) && Placeable(Assign(sheet, s), rest)
  {
    var slots := [s] + rest;
    assert forall t :: t in slots <==> t == s || t in rest;
    if Placeable(sheet, slots) {
      forall t | t in rest ensures t.fi != s.fi {
        var k :| 0 <= k < |rest| && rest[k] == t;
        assert slots[0] == s && slots[k + 1] == t;
      }
      forall i, j | 0 <= i < j < |rest| ensures rest[i].fi != rest[j].fi {
        assert rest[i] == slots[i + 1] && rest[j] == slots[j + 1];
      }
    }
    if Assignable(sheet, s) && Placeable(Assign(sheet, s), rest) {
      forall i, j | 0 <= i < j < |slots| ensures slots[i].fi != slots[j].fi {
        assert slots[j] == rest[j - 1] && rest[j - 1] in rest;
      }
    }
  }

  /** Assignment succeeds exactly when every index is a fresh, distinct row with a column 3. */
  lemma {:induction false} PlaceExact(sheet: Sheet, slots: seq<Slot>)
    ensures Place(sheet, slots).Ok? <==> Placeable(sheet, slots)
    ensures Placeable(sheet, slots) ==> Placed(sheet, slots, Place(sheet, slots).value)
    decreases |slots|
  {
    if slots != [] {
      var s, rest := slots[0], slots[1..];
      assert slots == [s] + rest;
      PlaceableCons(sheet, s, rest);
      if Assignable(sheet, s) {
        var next := Assign(sheet, s);
        PlaceExact(next, rest);
        if Placeable(next, rest) {
          assert Fis(slots) == {s.fi} + Fis(rest);
          assert s.fi !in Fis(rest);
        }
      }
    } else {
      assert Fis(slots) == {};
    }
  }

  /** Writing all the packed rows' slots back, in any order, undoes the clearing. */
  lemma PlaceUndoesClearing(f: seq<Row>, with: Field, slots: seq<Slot>)
    requires multiset(slots) == multiset(Packed(f))
    ensures Place(Sheet(Cleared(f, with), {}), slots) == Ok(Sheet(f, Fis(slots)))
  {
    var sheet := Sheet(Cleared(f, with), {});
    PackedSound(f);
    PackedDistinct(f);
    MembersMatch(slots, Packed(f));
    NoDuplicatesPermutes(slots, Packed(f));
    forall i, j | 0 <= i < j < |slots| ensures slots[i].fi != slots[j].fi {
      assert slots[i] in Packed(f) && slots[j] in Packed(f);
    }
    PlaceExact(sheet, slots);
    var out := Place(sheet, slots).value;
    forall i | 0 <= i < |f| ensures out.rows[i] == f[i] {
      if IsPacked(f[i]) {
        PackedComplete(f, i);
      } else {
        assert i !in Fis(slots);
      }
    }
    assert out.rows == f;
    assert out.seen == Fis(slots);
  }

  // ----- Slices derived from lengths

  /** Consecutive slices of one pack: the rows and lengths of one descriptor, offsets by summing. */
  function RunSlots(blob: int, indices: seq<int>, lengths: seq<int>, offset: int): (r: seq<Slot>)
    requires |indices| == |lengths|
    ensures |r| == |indices|
    ensures forall k :: 0 <= k < |r| ==> r[k].fi == indices[k] && r[k].blob == blob && r[k].len == lengths[k]
  {
    if indices == [] then []
    else [Slot(indices[0], blob, offset, lengths[0])]
         + RunSlots(blob, indices[1..], lengths[1..], offset + lengths[0])
  }

  lemma {:induction false} RunOffsets(blob: int, indices: seq<int>, lengths: seq<int>, offset: int, k: nat)
    requires |indices| == |lengths| && k < |indices|
    ensures RunSlots(blob, indices, lengths, offset)[k].off == offset + Total(lengths[..k])
  {
    if k > 0 {
      RunOffsets(blob, indices[1..], lengths[1..], offset + lengths[0], k - 1);
      assert lengths[..k][1..] == lengths[1..][..k - 1];
    }
  }

  function FileIndices(members: seq<Slot>): (r: seq<int>)
    ensures |r| == |members|
  {
    seq(|members|, k requires 0 <= k < |members| => members[k].fi)
  }

  function Lengths(members: seq<Slot>): (r: seq<int>)
    ensures |r| == |members|
  {
    seq(|members|, k requires 0 <= k < |members| => members[k].len)
  }

  /** Each member starts where the one before it ended. */
  predicate Tiles(members: seq<Slot>, offset: int) {
    members == [] || (members[0].off == offset && Tiles(members[1..], offset + members[0].len))
  }

  /** A tiled pack is determined by its rows and lengths: offsets need not be stored. */
  lemma {:induction false} TiledRun(blob: int, members: seq<Slot>, offset: int)
    requires Tiles(members, offset)
    requires forall s :: s in members ==> s.blob == blob
    ensures RunSlots(blob, FileIndices(members), Lengths(members), offset) == members
  {
    if members != [] {
      var m, rest := members[0], members[1..];
      ColumnsTail(members);
      TiledRun(blob, rest, offset + m.len);
      assert m in members && m == Slot(m.fi, blob, offset, m.len);
      assert RunSlots(blob, FileIndices(members), Lengths(members), offset) == [m] + rest;
    }
  }

  lemma ColumnsTail(members: seq<Slot>)
    requires members != []
    ensures FileIndices(members)[1..] == FileIndices(members[1..])
    ensures Lengths(members)[1..] == Lengths(members[1..])
  {
  }

  function Range(first: int, count: nat): (r: seq<int>)
    ensures |r| == count
    ensures forall k :: 0 <= k < count ==> r[k] == first + k
  {
    seq(count, k requires 0 <= k < count => first + k)
  }

  // ----- The loop that all three encoders open with

  /** Copy the rows, overwrite column 3 of each packed row, and group their slices by pack. */
  method Gather(f: seq<Row>, with: Field) returns (rows: array<Row>, r: Result<seq<PackGroup>>)
    ensures fresh(rows)
    ensures Truncated(f) ==> r == Raised(ShapeError)
    ensures !Truncated(f) ==> r == Ok(Buckets(Packed(f))) && rows[..] == Cleared(f, with)
  {
    rows := new Row[|f|](i requires 0 <= i < |f| => f[i]);
    var groups: seq<PackGroup> := [];
    ghost var slots: seq<Slot> := [];
    for fi := 0 to |f|
      invariant forall i :: 0 <= i < fi ==> !IsTruncated(f[i])
      invariant slots == PackedTo(f, fi) && groups == Buckets(slots)
      invariant forall i :: 0 <= i < fi ==> rows[i] == if IsPacked(f[i]) then f[i].(field := with) else f[i]
      invariant forall i :: fi <= i < |f| ==> rows[i] == f[i]
    {
      if IsTruncated(f[fi]) {
        assert f[fi] in f;
        return rows, Raised(ShapeError);
      }
      if IsPacked(f[fi]) {
        var s := SlotOf(fi, f[fi]);
        GroupByStep(slots, s, BlobOf);
        groups := AddTo(groups, s.blob, s);
        slots := slots + [s];
        rows[fi] := f[fi].(field := with);
      }
    }
    ghost var cleared := Cleared(f, with);
    assert |rows[..]| == |cleared| && forall i :: 0 <= i < |f| ==> rows[..][i] == cleared[i];
    r := Ok(groups);
  }
}
