/** What the encoders write, descriptor by descriptor, told by the packed rows alone. */
module Candidates {
  import opened Results
  import opened Sorting
  import opened Grouping
  import opened ByteLayout
  import opened ControlRows
  import opened Descriptors
  import opened Kinds
  import opened Acceptance
  import opened AcceptanceV4
  import opened PackTally
  import V2 = PackMapV2
  import V3 = PackMapV3
  import V4 = PackMapV4
  import V5 = BlobTableV5

  // ----- Packs

  type Slots = seq<Slot>

  /** Row `fi` is a regular file, and holds these bytes of this pack. */
  predicate Holds(f: seq<Row>, s: Slot) {
    && 0 <= s.fi < |f| && f[s.fi].Long? && f[s.fi].kind == K_FILE
    && f[s.fi].field == Slice(s.blob, s.off, s.len)
  }

  /** The rows of one pack in physical order: by offset, and at one offset by row. */
  ghost predicate IsPack(p: Slots, f: seq<Row>) {
    && p != []
    && (forall s :: s in p <==> Holds(f, s) && s.blob == p[0].blob)
    && forall i, j | 0 <= i < j < |p| :: p[i].off < p[j].off || (p[i].off == p[j].off && p[i].fi < p[j].fi)
  }

  /** All packs, each once. */
  ghost predicate ArePacks(ps: seq<Slots>, f: seq<Row>) {
    && (forall k :: 0 <= k < |ps| ==> IsPack(ps[k], f))
    && (forall j, k | 0 <= j < k < |ps| :: ps[j][0].blob != ps[k][0].blob)
    && forall s :: Holds(f, s) ==> exists k :: 0 <= k < |ps| && s in ps[k]
  }

  ghost predicate SameLengths(p: Slots) {
    forall s, t :: s in p && t in p ==> s.len == t.len
  }

  /** Each row is the next one of the file table. */
  ghost predicate Consecutive(p: Slots) {
    forall i :: 0 < i < |p| ==> p[i].fi == p[i - 1].fi + 1
  }

  /** A list that holds these rows, lengths or steps. */
  ghost predicate ListsRows(vs: seq<int>, p: Slots) {
    |vs| == |p| && forall i :: 0 <= i < |p| ==> vs[i] == p[i].fi
  }

  ghost predicate ListsLengths(vs: seq<int>, p: Slots) {
    |vs| == |p| && forall i :: 0 <= i < |p| ==> vs[i] == p[i].len
  }

  /** The first row counted from `start`, every other from the one before it. */
  ghost predicate ListsSteps(vs: seq<int>, p: Slots, start: int) {
    |vs| == |p| && forall i :: 0 <= i < |p| ==> vs[i] == p[i].fi - (if i == 0 then start else p[i - 1].fi)
  }

  /** The length cell of v3 and v4. */
  ghost predicate TellsLengths(cell: Cell, p: Slots)
    requires p != []
  {
    if SameLengths(p) then cell == Num(p[0].len) else cell.List? && ListsLengths(cell.vs, p)
  }

  /** Mode 0 is a run of equal lengths, 1 any other run, 2 other rows of equal lengths, 3 the rest. */
  ghost function ModeOf(p: Slots): int {
    if Consecutive(p) then if SameLengths(p) then 0 else 1
    else if SameLengths(p) then 2 else 3
  }

  lemma PacksOfArranged(groups: seq<PackGroup>, f: seq<Row>) returns (ps: seq<Slots>)
    requires Arranged(groups, Packed(f))
    ensures |ps| == |groups| && forall k :: 0 <= k < |ps| ==> ps[k] == groups[k].members
    ensures ArePacks(ps, f)
    ensures forall k :: 0 <= k < |ps| ==> ps[k][0].blob == groups[k].key
  {
    hide Packed, Pack;
    var slots := Packed(f);
    ps := seq(|groups|, k requires 0 <= k < |groups| => groups[k].members);
    PackedHolds(f);
    forall k | 0 <= k < |ps| ensures IsPack(ps[k], f) && ps[k][0].blob == groups[k].key {
      assert groups[k] in groups;
      PackOrder(slots, groups[k].key);
      assert ps[k][0] in ps[k];
      PhysicallyOrdered(f, groups[k].key);
    }
    forall s | Holds(f, s) ensures exists k :: 0 <= k < |ps| && s in ps[k] {
      var g :| g in groups && g.key == s.blob;
      var k :| 0 <= k < |groups| && groups[k] == g;
      PackOrder(slots, g.key);
      assert s in ps[k];
    }
  }

  lemma PackedHolds(f: seq<Row>)
    ensures forall s :: s in Packed(f) <==> Holds(f, s)
  {
    hide Packed;
    PackedSound(f);
    forall s | Holds(f, s) ensures s in Packed(f) {
      PackedComplete(f, s.fi);
    }
  }

  lemma PhysicallyOrdered(f: seq<Row>, blob: int)
    ensures var p := Pack(Packed(f), blob);
            forall i, j | 0 <= i < j < |p| :: p[i].off < p[j].off || (p[i].off == p[j].off && p[i].fi < p[j].fi)
  {
    hide Packed, Pack;
    var p := Pack(Packed(f), blob);
    PackedSound(f);
    PackOrder(Packed(f), blob);
    PackDistinct(Packed(f), blob);
    forall i, j | 0 <= i < j < |p| ensures p[i].off < p[j].off || (p[i].off == p[j].off && p[i].fi < p[j].fi) {
      assert Le(SlotKey(p[i]), SlotKey(p[j]));
    }
  }

  // ----- Columns

  lemma UniformIsSame(p: Slots)
    requires p != []
    ensures Uniform(Lengths(p)) <==> SameLengths(p)
  {
    var ls := Lengths(p);
    if Uniform(ls) {
      forall s, t | s in p && t in p ensures s.len == t.len {
        var i :| 0 <= i < |p| && p[i] == s;
        var j :| 0 <= j < |p| && p[j] == t;
        assert ls[i] in ls && ls[j] in ls;
      }
    }
    if SameLengths(p) {
      forall n | n in ls ensures n == ls[0] {
        var i :| 0 <= i < |ls| && ls[i] == n;
        assert p[i] in p && p[0] in p;
      }
    }
  }

  lemma ContiguousIsConsecutive(p: Slots)
    requires p != []
    ensures Contiguous(FileIndices(p)) <==> Consecutive(p)
  {
    var fis := FileIndices(p);
    var range := Range(fis[0], |fis|);
    if Contiguous(fis) {
      forall i | 0 < i < |p| ensures p[i].fi == p[i - 1].fi + 1 {
        assert fis[i] == range[i] && fis[i - 1] == range[i - 1];
      }
    }
    if Consecutive(p) {
      RunFrom(p);
      assert fis == range;
    }
  }

  lemma {:induction false} RunFrom(p: Slots)
    requires p != [] && Consecutive(p)
    ensures forall i :: 0 <= i < |p| ==> p[i].fi == p[0].fi + i
  {
    if |p| > 1 {
      var init := p[..|p| - 1];
      assert Consecutive(init) && forall i :: 0 <= i < |init| ==> init[i] == p[i];
      RunFrom(init);
      var n := |p| - 1;
      assert p[n].fi == p[n - 1].fi + 1 && p[n - 1] == init[n - 1];
    }
  }

  lemma Columns(p: Slots)
    ensures ListsRows(FileIndices(p), p) && ListsLengths(Lengths(p), p)
  {
  }

  // ----- v4

  /** One more than the last row of the first `k` packs; 0 if there are none. */
  ghost predicate IsEnd(end: int, ps: seq<Slots>, k: nat)
    requires k <= |ps|
  {
    && (forall j, s :: 0 <= j < k && s in ps[j] ==> s.fi < end)
    && (if k == 0 then end == 0 else exists j, s :: 0 <= j < k && s in ps[j] && s.fi + 1 == end)
  }

  ghost predicate Describes4(d: Descriptor, p: Slots, end: int)
    requires p != []
  {
    && |d| == 4 && d[0] == Num(p[0].blob) && d[1] == Num(ModeOf(p)) && TellsLengths(d[3], p)
    && (if !Consecutive(p) then d[2].List? && ListsRows(d[2].vs, p)
        else if SameLengths(p) then d[2] == List([p[0].fi - end, |p|])
        else d[2] == Num(p[0].fi - end))
  }

  lemma DescribesRun4(g: PackGroup, end: int)
    requires g.members != [] && (forall s :: s in g.members ==> s.blob == g.key) && V4.EncodeRun(RunOf(g), end).Ok?
    ensures Describes4(V4.EncodeRun(RunOf(g), end).value, g.members, end)
  {
    hide Uniform, Contiguous, SameLengths, Consecutive;
    var p := g.members;
    assert p[0] in p;
    UniformIsSame(p);
    ContiguousIsConsecutive(p);
    Columns(p);
  }

  ghost function EndsOf(groups: seq<PackGroup>, end: int): (r: seq<int>)
    requires forall g :: g in groups ==> g.members != []
    ensures |r| == |groups| + 1
  {
    if groups == [] then [end]
    else [end] + EndsOf(groups[1..], V4.FileEnd(end, FileIndices(groups[0].members)))
  }

  lemma {:induction false} EncodedRuns4(groups: seq<PackGroup>, end: int)
    requires (forall g :: g in groups ==> g.members != []) && V4.Encode(groups, end).Ok?
    ensures var q, ends := V4.Encode(groups, end).value, EndsOf(groups, end);
            && |q| == |groups|
            && forall k :: 0 <= k < |q| ==> V4.EncodeRun(RunOf(groups[k]), ends[k]) == Ok(q[k])
    decreases |groups|
  {
    hide V4.EncodeRun, V4.FileEnd, TileCheck;
    if groups != [] {
      assert groups == [groups[0]] + groups[1..] && groups[0] in groups;
      EncodedRuns4(groups[1..], V4.FileEnd(end, FileIndices(groups[0].members)));
    }
  }

  /** The running file end, over any packs: the greatest row so far, plus one. */
  lemma {:induction false} EndsExact(groups: seq<PackGroup>, end: int, k: nat)
    requires (forall g :: g in groups ==> g.members != []) && k <= |groups|
    ensures var e := EndsOf(groups, end)[k];
            && e >= end
            && (forall j, s :: 0 <= j < k && s in groups[j].members ==> s.fi < e)
            && (e == end || exists j, s :: 0 <= j < k && s in groups[j].members && s.fi + 1 == e)
    decreases |groups|
  {
    if k > 0 {
      var g, rest := groups[0], groups[1..];
      assert groups == [g] + rest && g in groups;
      var next := V4.FileEnd(end, FileIndices(g.members));
      NextEnd(g.members, end);
      EndsExact(rest, next, k - 1);
      var e := EndsOf(groups, end)[k];
      assert e == EndsOf(rest, next)[k - 1];
      forall j, s | 0 <= j < k && s in groups[j].members ensures s.fi < e {
        assert j > 0 ==> groups[j] == rest[j - 1];
      }
      if e != next {
        var j, s :| 0 <= j < k - 1 && s in rest[j].members && s.fi + 1 == e;
        assert groups[j + 1] == rest[j];
      } else if next != end {
        var s :| s in g.members && s.fi + 1 == next;
        assert s in groups[0].members;
      }
    }
  }

  lemma NextEnd(p: Slots, end: int)
    requires p != []
    ensures var next := V4.FileEnd(end, FileIndices(p));
            && next >= end && (forall s :: s in p ==> s.fi < next)
            && (next == end || exists s :: s in p && s.fi + 1 == next)
  {
    var fis := FileIndices(p);
    MaxOfExact(fis);
    forall s | s in p ensures s.fi in fis {
      var i :| 0 <= i < |p| && p[i] == s;
      assert fis[i] == s.fi;
    }
    var i :| 0 <= i < |fis| && fis[i] == V4.MaxOf(fis);
    assert p[i] in p;
  }

  /** Some row of `p` comes before every row of `q`. */
  ghost predicate OpensBefore(p: Slots, q: Slots) {
    exists s :: s in p && forall t :: t in q ==> s.fi < t.fi
  }

  lemma FirstsOpenBefore(f: seq<Row>, p: Slots, q: Slots)
    requires IsPack(p, f) && IsPack(q, f) && p[0].blob != q[0].blob
    requires FirstRow(Packed(f), p[0].blob) < FirstRow(Packed(f), q[0].blob)
    ensures OpensBefore(p, q)
  {
    hide Packed, FirstRow, LastRow, Of;
    var slots := Packed(f);
    PackedSound(f);
    PackedHolds(f);
    assert p[0] in p && q[0] in q;
    OfHas(slots, p[0]);
    OfHas(slots, q[0]);
    RowBounds(slots, p[0].blob);
    RowBounds(slots, q[0].blob);
    var s :| s in slots && s.blob == p[0].blob && s.fi == FirstRow(slots, p[0].blob);
    assert s in p;
    forall t | t in q ensures s.fi < t.fi {
      assert t in slots && t.blob == q[0].blob;
    }
  }

  lemma OfHas(slots: Slots, s: Slot)
    requires s in slots
    ensures Of(slots, s.blob) != []
  {
    assert s in Of(slots, s.blob);
  }

  /** The control with column 3 of exactly the packed rows overwritten. */
  ghost predicate Blanked(after: Control, before: Control, with: Field) {
    && after.b == before.b && after.rest == before.rest && |after.f| == |before.f|
    && forall i :: 0 <= i < |before.f| ==>
         after.f[i] == if exists s :: Holds(before.f, s) && s.fi == i then before.f[i].(field := with) else before.f[i]
  }

  lemma ClearedIsBlanked(c: Control, with: Field)
    ensures Blanked(c.(f := Cleared(c.f, with)), c, with)
  {
    forall i | 0 <= i < |c.f| ensures IsPacked(c.f[i]) <==> exists s :: Holds(c.f, s) && s.fi == i {
      if IsPacked(c.f[i]) {
        assert Holds(c.f, SlotOf(i, c.f[i]));
      }
    }
  }

  /** The v4 candidate of any accepted index: one descriptor per pack, in order of the packs' first rows;
      each says exactly its pack's id, mode, rows and lengths; nothing else of the control changes but the
      packed rows' column. */
  lemma CandidateV4Exact(c: Control) returns (ps: seq<Slots>, ends: seq<int>)
    requires V4.Compact(c).Ok?
    ensures var out := V4.Compact(c).value;
            && ArePacks(ps, c.f) && |out.q| == |ps| <= |ends|
            && (forall j, k | 0 <= j < k < |ps| :: OpensBefore(ps[j], ps[k]))
            && (forall k :: 0 <= k < |ps| ==> IsEnd(ends[k], ps, k) && Describes4(out.q[k], ps[k], ends[k]))
            && Blanked(out.control, c, Nothing)
  {
    hide Packed, V4.Ordered, V4.Encode, V4.EncodeRun, Describes4, IsPack, Arranged, FirstRow, EndsOf;
    var groups := V4.Ordered(c.f);
    V4.OrderedArranges(c.f);
    ArrangedMembers(groups, c.f);
    ps := PacksOfArranged(groups, c.f);
    ends := EndsOf(groups, 0);
    EncodedRuns4(groups, 0);
    OrderedIsByFirst(c.f);
    forall j, k | 0 <= j < k < |ps| ensures OpensBefore(ps[j], ps[k]) {
      FirstsOpenBefore(c.f, ps[j], ps[k]);
    }
    forall k | 0 <= k < |ps| ensures IsEnd(ends[k], ps, k) && Describes4(V4.Compact(c).value.q[k], ps[k], ends[k]) {
      assert groups[k] in groups;
      DescribesRun4(groups[k], ends[k]);
      EndIs(groups, ps, c.f, k);
    }
    ClearedIsBlanked(c, Nothing);
  }

  lemma ArrangedMembers(groups: seq<PackGroup>, f: seq<Row>)
    requires Arranged(groups, Packed(f))
    ensures forall g :: g in groups ==> g.members != [] && forall s :: s in g.members ==> s.blob == g.key
  {
    hide Packed, Pack;
    forall g | g in groups ensures g.members != [] && forall s :: s in g.members ==> s.blob == g.key {
      PackOrder(Packed(f), g.key);
    }
  }

  lemma EndIs(groups: seq<PackGroup>, ps: seq<Slots>, f: seq<Row>, k: nat)
    requires (forall g :: g in groups ==> g.members != []) && ArePacks(ps, f) && k < |groups|
    requires |ps| == |groups| && forall j :: 0 <= j < |ps| ==> ps[j] == groups[j].members
    ensures IsEnd(EndsOf(groups, 0)[k], ps, k)
  {
    hide IsPack, EndsOf;
    EndsExact(groups, 0, k);
    var e := EndsOf(groups, 0)[k];
    if k > 0 {
      FirstHolds(ps[0], f);
      assert ps[0][0] in groups[0].members && ps[0][0].fi < e;
      var j, s :| 0 <= j < k && s in groups[j].members && s.fi + 1 == e;
      assert s in ps[j];
    }
  }

  lemma FirstHolds(p: Slots, f: seq<Row>)
    requires IsPack(p, f)
    ensures p != [] && p[0] in p && p[0].fi >= 0
  {
    assert p[0] in p;
  }

  // ----- v3

  ghost predicate Describes3(d: Descriptor, p: Slots, previous: int, end: int)
    requires p != []
  {
    && |d| == 3 && d[0] == Num((p[0].blob - previous) * 4 + ModeOf(p)) && TellsLengths(d[2], p)
    && (if !Consecutive(p) then d[1].List? && ListsSteps(d[1].vs, p, end)
        else if SameLengths(p) then d[1] == List([p[0].fi - end, |p|])
        else d[1] == Num(p[0].fi - end))
  }

  lemma {:induction false} DeltasAreSteps(p: Slots, start: int)
    requires V3.Deltas(FileIndices(p), start).Ok?
    ensures ListsSteps(V3.Deltas(FileIndices(p), start).value, p, start)
  {
    if p != [] {
      ColumnsTail(p);
      DeltasAreSteps(p[1..], p[0].fi);
      var all, rest := V3.Deltas(FileIndices(p), start).value, V3.Deltas(FileIndices(p[1..]), p[0].fi).value;
      assert all == [p[0].fi - start] + rest;
      forall i | 0 <= i < |p| ensures all[i] == p[i].fi - (if i == 0 then start else p[i - 1].fi) {
        assert i > 0 ==> p[1..][i - 1] == p[i] && (i > 1 ==> p[1..][i - 2] == p[i - 1]);
      }
    }
  }

  lemma DescribesRun3(g: PackGroup, cursor: Cursor)
    requires g.members != [] && (forall s :: s in g.members ==> s.blob == g.key) && V3.EncodeRun(RunOf(g), cursor).Ok?
    ensures Describes3(V3.EncodeRun(RunOf(g), cursor).value, g.members, cursor.blob, cursor.fileEnd)
  {
    hide Uniform, Contiguous, SameLengths, Consecutive, V3.Deltas, ListsSteps;
    var p := g.members;
    assert p[0] in p;
    UniformIsSame(p);
    ContiguousIsConsecutive(p);
    Columns(p);
    if !Consecutive(p) {
      DeltasAreSteps(p, cursor.fileEnd);
    }
  }

  /** Where v3 stands before the k-th pack: the id of the pack before it, and one more than that pack's
      last row in physical order. */
  ghost function Before3(ps: seq<Slots>, k: nat): Cursor
    requires k <= |ps| && forall j :: 0 <= j < |ps| ==> ps[j] != []
  {
    if k == 0 then Cursor(0, 0) else Cursor(ps[k - 1][0].blob, ps[k - 1][|ps[k - 1]| - 1].fi + 1)
  }

  ghost function CursorAt(groups: seq<PackGroup>, cursor: Cursor, k: nat): Cursor
    requires k <= |groups| && forall g :: g in groups ==> g.members != []
  {
    if k == 0 then cursor
    else
      assert groups[k - 1] in groups;
      V3.Advance(RunOf(groups[k - 1]))
  }

  lemma {:induction false} EncodedRuns3(groups: seq<PackGroup>, cursor: Cursor)
    requires (forall g :: g in groups ==> g.members != []) && V3.Encode(groups, cursor).Ok?
    ensures var q := V3.Encode(groups, cursor).value;
            && |q| == |groups|
            && forall k :: 0 <= k < |q| ==> V3.EncodeRun(RunOf(groups[k]), CursorAt(groups, cursor, k)) == Ok(q[k])
    decreases |groups|
  {
    hide V3.EncodeRun, V3.Advance, TileCheck;
    if groups != [] {
      assert groups == [groups[0]] + groups[1..] && groups[0] in groups;
      EncodedRuns3(groups[1..], V3.Advance(RunOf(groups[0])));
    }
  }

  lemma CursorIs(groups: seq<PackGroup>, ps: seq<Slots>, k: nat)
    requires |ps| == |groups| && k <= |ps| && forall g :: g in groups ==> g.members != []
    requires forall j :: 0 <= j < |ps| ==> ps[j] == groups[j].members && ps[j] != [] && ps[j][0].blob == groups[j].key
    ensures CursorAt(groups, Cursor(0, 0), k) == Before3(ps, k)
  {
  }

  /** The v3 candidate of any accepted index: the packs in order of their ids, ids and rows counted on from
      the pack before. */
  lemma CandidateV3Exact(c: Control) returns (ps: seq<Slots>)
    requires V3.Compact(c).Ok?
    ensures var out := V3.Compact(c).value;
            && ArePacks(ps, c.f) && |out.q| == |ps|
            && (forall j, k | 0 <= j < k < |ps| :: ps[j][0].blob < ps[k][0].blob)
            && (forall k :: 0 <= k < |ps| ==>
                  Describes3(out.q[k], ps[k], Before3(ps, k).blob, Before3(ps, k).fileEnd))
            && Blanked(out.control, c, Nothing)
  {
    hide Packed, ByBlob, V3.Encode, V3.EncodeRun, V3.Advance, Describes3, IsPack, Arranged, Before3, CursorAt;
    var groups := ByBlob(c.f);
    ByBlobArranges(c.f);
    ArrangedMembers(groups, c.f);
    ps := PacksOfArranged(groups, c.f);
    EncodedRuns3(groups, Cursor(0, 0));
    IdsAscend(c.f);
    forall k | 0 <= k < |ps|
      ensures Describes3(V3.Compact(c).value.q[k], ps[k], Before3(ps, k).blob, Before3(ps, k).fileEnd)
    {
      assert groups[k] in groups;
      CursorIs(groups, ps, k);
      DescribesRun3(groups[k], CursorAt(groups, Cursor(0, 0), k));
    }
    ClearedIsBlanked(c, Nothing);
  }

  lemma IdsAscend(f: seq<Row>)
    ensures var groups := ByBlob(f); forall j, k | 0 <= j < k < |groups| :: groups[j].key < groups[k].key
  {
    hide Packed;
    ByBlobArranges(f);
    var sorted := Sort(Buckets(Packed(f)), BucketKey);
    SortAscends(Buckets(Packed(f)), BucketKey);
    forall j, k | 0 <= j < k < |ByBlob(f)| ensures ByBlob(f)[j].key < ByBlob(f)[k].key {
      assert Le(BucketKey(sorted[j]), BucketKey(sorted[k]));
      assert ByBlob(f)[j].key == sorted[j].key && ByBlob(f)[k].key == sorted[k].key;
    }
  }

  // ----- v2

  ghost predicate Describes2(d: Descriptor, p: Slots)
    requires p != []
  {
    && |d| == 4 && d[0] == Num(p[0].blob) && d[3].List? && ListsLengths(d[3].vs, p)
    && (if Consecutive(p) then d[1] == Num(0) && d[2] == Num(p[0].fi)
        else d[1] == Num(1) && d[2].List? && ListsSteps(d[2].vs, p, 0))
  }

  lemma {:induction false} DifferencesAreSteps(p: Slots, start: int)
    ensures ListsSteps(V2.Differences(FileIndices(p), start), p, start)
  {
    if p != [] {
      ColumnsTail(p);
      DifferencesAreSteps(p[1..], p[0].fi);
      var all, rest := V2.Differences(FileIndices(p), start), V2.Differences(FileIndices(p[1..]), p[0].fi);
      assert all == [p[0].fi - start] + rest;
      forall i | 0 <= i < |p| ensures all[i] == p[i].fi - (if i == 0 then start else p[i - 1].fi) {
        assert i > 0 ==> p[1..][i - 1] == p[i] && (i > 1 ==> p[1..][i - 2] == p[i - 1]);
      }
    }
  }

  lemma DescribesRun2(g: PackGroup)
    requires g.members != [] && forall s :: s in g.members ==> s.blob == g.key
    ensures Describes2(V2.EncodeRun(RunOf(g)), g.members)
  {
    hide Contiguous, Consecutive, ListsSteps, V2.Differences;
    var p := g.members;
    assert p[0] in p;
    ContiguousIsConsecutive(p);
    Columns(p);
    DifferencesAreSteps(p, 0);
  }

  lemma {:induction false} EncodedRuns2(groups: seq<PackGroup>)
    requires (forall g :: g in groups ==> g.members != []) && V2.Encode(groups).Ok?
    ensures var q := V2.Encode(groups).value;
            |q| == |groups| && forall k :: 0 <= k < |q| ==> q[k] == V2.EncodeRun(RunOf(groups[k]))
  {
    hide V2.EncodeRun, Tiles;
    if groups != [] {
      assert groups == [groups[0]] + groups[1..];
      EncodedRuns2(groups[1..]);
    }
  }

  ghost predicate InMode(d: Descriptor, mode: int) {
    |d| > 1 && d[1] == Num(mode)
  }

  /** The v2 candidate: the packs in order of their ids, and the numbers of descriptors of each mode. */
  lemma CandidateV2Exact(c: Control) returns (ps: seq<Slots>)
    requires V2.Compact(c).Ok?
    ensures var out := V2.Compact(c).value;
            && ArePacks(ps, c.f) && |out.q| == |ps|
            && (forall j, k | 0 <= j < k < |ps| :: ps[j][0].blob < ps[k][0].blob)
            && (forall k :: 0 <= k < |ps| ==> Describes2(out.q[k], ps[k]))
            && out.u.0 == |set k | 0 <= k < |out.q| && InMode(out.q[k], 0)|
            && out.u.1 == |set k | 0 <= k < |out.q| && InMode(out.q[k], 1)|
            && Blanked(out.control, c, Marker)
  {
    hide Packed, ByBlob, V2.Encode, V2.EncodeRun, IsPack, Arranged, V2.ContiguousPacks;
    var groups := ByBlob(c.f);
    var q := V2.Compact(c).value.q;
    ByBlobArranges(c.f);
    ArrangedMembers(groups, c.f);
    ps := PacksOfArranged(groups, c.f);
    EncodedRuns2(groups);
    IdsAscend(c.f);
    forall k | 0 <= k < |ps| ensures Describes2(q[k], ps[k]) {
      assert groups[k] in groups;
      DescribesRun2(groups[k]);
    }
    forall k | 0 <= k < |q|
      ensures InMode(q[k], 0) <==> Contiguous(FileIndices(groups[k].members))
      ensures InMode(q[k], 1) <==> !InMode(q[k], 0)
    {
      ContiguousIsConsecutive(ps[k]);
    }
    CountsModes(groups, q);
    ClearedIsBlanked(c, Marker);
  }

  /** A count that follows a list, as the size of a set of positions. */
  lemma CountOne(n: nat, before: set<int>, after: set<int>, there: bool)
    requires (forall k :: k in before ==> 0 <= k < n)
    requires forall k :: k in after <==> k in before || (k == n && there)
    ensures |after| == |before| + if there then 1 else 0
  {
    assert n !in before;
    var expected := if there then before + {n} else before;
    forall k ensures k in after <==> k in expected {
    }
    assert after == expected;
  }

  lemma {:induction false} CountsModes(groups: seq<PackGroup>, q: seq<Descriptor>)
    requires |q| == |groups|
    requires forall k :: 0 <= k < |q| ==> (InMode(q[k], 0) <==> Contiguous(FileIndices(groups[k].members)))
    requires forall k :: 0 <= k < |q| ==> (InMode(q[k], 1) <==> !InMode(q[k], 0))
    ensures V2.ContiguousPacks(groups) == |set k | 0 <= k < |q| && InMode(q[k], 0)|
    ensures |groups| - V2.ContiguousPacks(groups) == |set k | 0 <= k < |q| && InMode(q[k], 1)|
  {
    hide InMode, Contiguous;
    var zeros, ones := (set k | 0 <= k < |q| && InMode(q[k], 0)), (set k | 0 <= k < |q| && InMode(q[k], 1));
    if groups != [] {
      var n := |groups| - 1;
      CountsModes(groups[..n], q[..n]);
      ContiguousLast(groups);
      CountOne(n, (set k | 0 <= k < |q[..n]| && InMode(q[..n][k], 0)), zeros, InMode(q[n], 0));
      CountOne(n, (set k | 0 <= k < |q[..n]| && InMode(q[..n][k], 1)), ones, InMode(q[n], 1));
    } else {
      assert zeros == {} && ones == {};
    }
  }

  lemma {:induction false} ContiguousLast(groups: seq<PackGroup>)
    requires groups != []
    ensures var n := |groups| - 1;
            V2.ContiguousPacks(groups)
            == V2.ContiguousPacks(groups[..n]) + if Contiguous(FileIndices(groups[n].members)) then 1 else 0
  {
    hide Contiguous;
    var n := |groups| - 1;
    if n > 0 {
      ContiguousLast(groups[1..]);
      assert groups[1..][..n - 1] == groups[..n][1..];
    }
  }

  // ----- The statistics of v3 and v4

  /** One group per pack, every packed row once, and packs of equal lengths and of consecutive rows. */
  ghost predicate Tallies(t: Tally, ps: seq<Slots>, f: seq<Row>) {
    && t.packs == |ps|
    && t.rows == |set i | 0 <= i < |f| && IsPacked(f[i])|
    && t.uniform == |set k | 0 <= k < |ps| && SameLengths(ps[k])|
    && t.contiguous == |set k | 0 <= k < |ps| && Consecutive(ps[k])|
  }

  lemma {:induction false} TallyCounts(groups: seq<PackGroup>, ps: seq<Slots>)
    requires |ps| == |groups| && forall k :: 0 <= k < |ps| ==> ps[k] == groups[k].members != []
    ensures TallyOf(groups).uniform == |set k | 0 <= k < |ps| && SameLengths(ps[k])|
    ensures TallyOf(groups).contiguous == |set k | 0 <= k < |ps| && Consecutive(ps[k])|
  {
    hide SameLengths, Consecutive, Uniform, Contiguous;
    var same, runs := (set k | 0 <= k < |ps| && SameLengths(ps[k])), (set k | 0 <= k < |ps| && Consecutive(ps[k]));
    if groups != [] {
      var n := |groups| - 1;
      TallyCounts(groups[..n], ps[..n]);
      UniformIsSame(ps[n]);
      ContiguousIsConsecutive(ps[n]);
      CountOne(n, (set k | 0 <= k < |ps[..n]| && SameLengths(ps[..n][k])), same, SameLengths(ps[n]));
      CountOne(n, (set k | 0 <= k < |ps[..n]| && Consecutive(ps[..n][k])), runs, Consecutive(ps[n]));
    } else {
      assert same == {} && runs == {};
    }
  }

  lemma {:induction false} PackedCount(f: seq<Row>, n: nat)
    requires n <= |f|
    ensures |PackedTo(f, n)| == |set i | 0 <= i < n && IsPacked(f[i])|
  {
    var packed := set i | 0 <= i < n && IsPacked(f[i]);
    if n > 0 {
      PackedCount(f, n - 1);
      CountOne(n - 1, (set i | 0 <= i < n - 1 && IsPacked(f[i])), packed, IsPacked(f[n - 1]));
    } else {
      assert packed == {};
    }
  }

  /** The statistics that v4 reports, and those of v3. */
  lemma TallyV4Exact(c: Control) returns (ps: seq<Slots>)
    requires V4.Compact(c).Ok?
    ensures ArePacks(ps, c.f) && Tallies(TallyOf(V4.Ordered(c.f)), ps, c.f)
  {
    V4.OrderedArranges(c.f);
    ps := TallyExact(V4.Ordered(c.f), c.f);
  }

  lemma TallyV3Exact(c: Control) returns (ps: seq<Slots>)
    requires V3.Compact(c).Ok?
    ensures ArePacks(ps, c.f) && Tallies(TallyOf(ByBlob(c.f)), ps, c.f)
  {
    ByBlobArranges(c.f);
    ps := TallyExact(ByBlob(c.f), c.f);
  }

  lemma TallyExact(groups: seq<PackGroup>, f: seq<Row>) returns (ps: seq<Slots>)
    requires Arranged(groups, Packed(f))
    ensures ArePacks(ps, f) && Tallies(TallyOf(groups), ps, f)
  {
    hide IsPack, PackedTo, TallyOf;
    ArrangedMembers(groups, f);
    ps := PacksOfArranged(groups, f);
    forall k | 0 <= k < |ps| ensures ps[k] == groups[k].members != [] {
      assert groups[k] in groups;
    }
    TallyIsComplete(groups, f);
    TallyCounts(groups, ps);
    PackedCount(f, |f|);
  }

  // ----- v5

  /** The v5 candidate is that of v4 without the blob table. */
  lemma CandidateV5Exact(c: Control, table: seq<BlobRow>, data: Bytes)
    requires V5.Compact(c, table, data).Ok?
    ensures V4.Compact(c).Ok?
    ensures var out, v4 := V5.Compact(c, table, data).value, V4.Compact(c).value;
            && out.q == v4.q && out.control.f == v4.control.f && out.control.rest == v4.control.rest
            && out.control.b == NoTable && v4.control.b == Table(table)
  {
    hide V4.Encode;
  }
}
