/** From any packer to the codecs: exactly when the v2 and v4 encoders accept the file table that a
    build leaves behind. */
module PolicyThenCodec {
  import opened Sorting
  import opened Grouping
  import opened ControlRows
  import opened Descriptors
  import opened Acceptance
  import opened AcceptanceV4
  import opened MicroPackBuilder
  import opened PackLayout
  import opened PackThenCodec
  import PackRun
  import Storages
  import V4 = PackMapV4

  // ----- What holds of every build

  ghost predicate Mentioned(groups: seq<seq<Item>>, refs: Refs) {
    forall g, it :: g in groups && it in g ==> NamedBy(refs, it.digest) != []
  }

  /** A run of packs as builds make them: each member is named by a row, and only one content is empty. */
  ghost predicate Site(
    st: PackRun.State, groups: seq<seq<Item>>, sha: Storages.Digest, blobOf: int -> int, f: seq<Row>)
  {
    && Scene(st, groups, sha, blobOf, f)
    && Mentioned(groups, RefsOf(st.files))
    && forall g :: g in groups ==> AtMostOneEmpty(g)
  }

  lemma OneEmptyContent(rows: seq<Item>, cands: Storages.Store, sha: Storages.Digest)
    requires Storages.Digested(cands, sha) && Sound(rows, cands)
    ensures AtMostOneEmpty(rows)
  {
    forall i, j | 0 <= i < j < |rows| ensures rows[i].raw == [] ==> rows[j].raw != [] {
      assert rows[i] in rows && rows[j] in rows;
      assert sha(rows[i].raw) == rows[i].digest && sha(rows[j].raw) == rows[j].digest;
    }
  }

  lemma BuildSite(
    st: PackRun.State, target: int, maxFile: int, policy: Policy, sha: Storages.Digest, blobOf: int -> int,
    f: seq<Row>)
    requires Storages.Digested(st.cands, sha)
    requires Renders(f, Built(st, target, maxFile, policy, sha).files, blobOf)
    ensures Site(st, Packs(st, target, maxFile, policy), sha, blobOf, f)
  {
    hide RefsOf, Packs, PackRun.Run, Renders, EligibleItems, NamedBy, AtMostOneEmpty;
    var groups, items := Packs(st, target, maxFile, policy), EligibleItems(RefsOf(st.files), st.cands, maxFile);
    PacksAreSound(st, target, maxFile, policy);
    EligibleExact(st, maxFile);
    MembersMatch(Flatten(groups), items);
    forall g, it | g in groups && it in g ensures NamedBy(RefsOf(st.files), it.digest) != [] {
      FlattenMember(groups, it);
      assert PackRun.Has(items, it.digest);
      EligibleIsNamed(st.files, it.digest);
    }
    forall g | g in groups ensures AtMostOneEmpty(g) {
      OneEmptyContent(g, st.cands, sha);
    }
  }

  lemma EligibleIsNamed(files: seq<Storages.FileRow>, h: int)
    requires exists row :: row in files && IsMention(row) && row.ref.h == h
    ensures NamedBy(RefsOf(files), h) != []
  {
    hide NamedBy;
    var row :| row in files && IsMention(row) && row.ref.h == h;
    var i :| 0 <= i < |files| && files[i] == row;
    NamedExact(files, h);
    assert i in NamedBy(RefsOf(files), h);
  }

  // ----- Layouts that no encoder accepts

  /** Two slices of one pack that start together, the first of them not empty: the second comes too late. */
  lemma {:induction false} SumBeforeTwin(slots: seq<Slot>, s: Slot, t: Slot)
    requires s.blob == t.blob && s.off == t.off && s.fi < t.fi && NonNegativeLengths(slots)
    ensures SumBefore(slots, t) >= SumBefore(slots, s) + if s in slots then s.len else 0
  {
    if slots != [] {
      var init, last := slots[..|slots| - 1], slots[|slots| - 1];
      assert slots == init + [last];
      SumBeforeTwin(init, s, t);
    }
  }

  lemma TwinStarts(slots: seq<Slot>, s: Slot, t: Slot)
    requires s in slots && t in slots && s.blob == t.blob && s.off == t.off && s.fi != t.fi && NonNegativeLengths(slots)
    requires (s.fi < t.fi ==> s.len > 0) && (t.fi < s.fi ==> t.len > 0)
    ensures !OffsetsAreSums(slots)
  {
    if s.fi < t.fi {
      SumBeforeTwin(slots, s, t);
    } else {
      SumBeforeTwin(slots, t, s);
    }
  }

  /** Whatever the packs: a content that is not empty and is named by two rows gives no encoder a chance. */
  lemma TwinRefused(
    st: PackRun.State, groups: seq<seq<Item>>, sha: Storages.Digest, blobOf: int -> int, f: seq<Row>,
    k: nat, it: Item, i: nat, j: nat)
    requires Scene(st, groups, sha, blobOf, f)
    requires k < |groups| && it in groups[k] && it.raw != [] && i < j < |st.files|
    requires IsMention(st.files[i]) && IsMention(st.files[j]) && st.files[i].ref.h == st.files[j].ref.h == it.digest
    ensures !OffsetsAreSums(Packed(f))
  {
    hide PackRun.SlotIn, Packed, PackRun.Run, PackRun.Concat, Renders, OffsetsAreSums;
    var g, blob := groups[k], BlobsOf(groups, sha, blobOf)[k];
    SceneLengths(st, groups, sha, blobOf, f);
    MemberIsPacked(st, groups, sha, blobOf, f, k, i);
    MemberIsPacked(st, groups, sha, blobOf, f, k, j);
    assert g in groups;
    var n :| 0 <= n < |g| && g[n] == it;
    SlotInAt(g, n);
    TwinStarts(Packed(f), SlotAt(i, g, blob, it.digest), SlotAt(j, g, blob, it.digest));
  }

  /** The slot with which a pack opens. */
  lemma OpeningSlot(
    st: PackRun.State, groups: seq<seq<Item>>, sha: Storages.Digest, blobOf: int -> int, f: seq<Row>, k: nat)
    returns (s: Slot)
    requires Scene(st, groups, sha, blobOf, f) && Mentioned(groups, RefsOf(st.files))
    requires k < |groups| && HasBytes(groups[k])
    ensures s in Packed(f) && s.off == 0 && s.len > 0 && s.blob == BlobsOf(groups, sha, blobOf)[k]
    ensures 0 <= s.fi < |st.files| && PackRun.Refers(st.files[s.fi], groups[k])
  {
    hide PackRun.Run, PackRun.SlotIn, PackRun.Concat, NamedBy, RefsOf, Renders, Packed;
    var g := groups[k];
    assert g in groups;
    var i := OpeningMember(g);
    SlotInAt(g, i);
    assert g[i] in g;
    NamedExact(st.files, g[i].digest);
    var fi := NamedBy(RefsOf(st.files), g[i].digest)[0];
    assert fi in NamedBy(RefsOf(st.files), g[i].digest);
    MemberIsPacked(st, groups, sha, blobOf, f, k, fi);
    s := SlotAt(fi, g, BlobsOf(groups, sha, blobOf)[k], g[i].digest);
  }

  /** Whatever the order of the packs: if two of them share a blob id and neither is empty, no encoder
      accepts the table. */
  lemma SharedIdRefused(
    st: PackRun.State, groups: seq<seq<Item>>, sha: Storages.Digest, blobOf: int -> int, f: seq<Row>,
    j: nat, k: nat)
    requires Scene(st, groups, sha, blobOf, f) && Mentioned(groups, RefsOf(st.files))
    requires j < k < |groups| && BlobsOf(groups, sha, blobOf)[j] == BlobsOf(groups, sha, blobOf)[k]
    requires HasBytes(groups[j]) && HasBytes(groups[k])
    ensures !OffsetsAreSums(Packed(f))
  {
    hide OffsetsAreSums, PackRun.Run, RefsOf, HasBytes, Renders, Packed, Mentioned;
    var s := OpeningSlot(st, groups, sha, blobOf, f, j);
    var t := OpeningSlot(st, groups, sha, blobOf, f, k);
    assert !PackRun.Has(groups[k], st.files[s.fi].ref.h);
    SceneLengths(st, groups, sha, blobOf, f);
    TwinStarts(Packed(f), s, t);
  }

  /** The same for a pack that shares its id with rows that were packed before and open with some bytes. */
  lemma EarlierIdRefused(
    st: PackRun.State, groups: seq<seq<Item>>, sha: Storages.Digest, blobOf: int -> int, f: seq<Row>,
    e: Slot, k: nat)
    requires Scene(st, groups, sha, blobOf, f) && Mentioned(groups, RefsOf(st.files))
    requires k < |groups| && HasBytes(groups[k])
    requires e in Earlier(st.files, blobOf) && e.off == 0 && e.len > 0 && e.blob == BlobsOf(groups, sha, blobOf)[k]
    ensures !OffsetsAreSums(Packed(f))
  {
    hide OffsetsAreSums, PackRun.Run, RefsOf, HasBytes, Renders, Packed, Mentioned;
    var t := OpeningSlot(st, groups, sha, blobOf, f, k);
    EarlierIsPacked(st, groups, sha, blobOf, f, e);
    EarlierExact(st.files, blobOf);
    SceneLengths(st, groups, sha, blobOf, f);
    TwinStarts(Packed(f), e, t);
  }

  // ----- One pack per id

  /** The packs have ids of their own, none of which a row that was packed before names. */
  ghost predicate DistinctIds(
    files: seq<Storages.FileRow>, groups: seq<seq<Item>>, sha: Storages.Digest, blobOf: int -> int)
  {
    var blobs := BlobsOf(groups, sha, blobOf);
    && (forall j, k | 0 <= j < k < |groups| :: blobs[j] != blobs[k])
    && forall k, row :: 0 <= k < |groups| && row in files && row.ref.PackRef? ==> blobOf(row.ref.h) != blobs[k]
  }

  lemma NewPackRows(
    st: PackRun.State, groups: seq<seq<Item>>, sha: Storages.Digest, blobOf: int -> int, f: seq<Row>, k: nat, s: Slot)
    requires Scene(st, groups, sha, blobOf, f) && DistinctIds(st.files, groups, sha, blobOf) && k < |groups|
    ensures var blob := BlobsOf(groups, sha, blobOf)[k];
            s in Packed(f) && s.blob == blob <==> s in PackSlots(groups[k], RefsOf(st.files), blob)
  {
    hide RefsOf, PackRun.SlotIn, PackRun.Run, PackSlots, Packed, Earlier, Renders;
    var blobs := BlobsOf(groups, sha, blobOf);
    var packs := Labelled(groups, RefsOf(st.files), blobs);
    SameSlots(st, groups, sha, blobOf, f, s);
    EarlierExact(st.files, blobOf);
    if s in Earlier(st.files, blobOf) {
      assert st.files[s.fi] in st.files;
    } else if s in Packed(f) && s.blob == blobs[k] {
      var g :| g in packs && s in g.members;
      var j :| 0 <= j < |packs| && packs[j] == g;
      SlotsUnder(groups[j], RefsOf(st.files), blobs[j]);
      assert j == k;
    }
    if s in PackSlots(groups[k], RefsOf(st.files), blobs[k]) {
      SlotsUnder(groups[k], RefsOf(st.files), blobs[k]);
      assert packs[k] in packs && s in packs[k].members;
    }
  }

  lemma SlotsUnder(rows: seq<Item>, refs: Refs, blob: int)
    ensures forall s :: s in PackSlots(rows, refs, blob) ==> s.blob == blob
  {
  }

  lemma OldPackRows(
    st: PackRun.State, groups: seq<seq<Item>>, sha: Storages.Digest, blobOf: int -> int, f: seq<Row>, s: Slot)
    requires Scene(st, groups, sha, blobOf, f) && s.blob !in BlobsOf(groups, sha, blobOf)
    ensures s in Packed(f) <==> s in Earlier(st.files, blobOf)
  {
    hide RefsOf, PackRun.SlotIn, PackRun.Run, PackSlots, Packed, Earlier, Renders;
    var blobs := BlobsOf(groups, sha, blobOf);
    var packs := Labelled(groups, RefsOf(st.files), blobs);
    SameSlots(st, groups, sha, blobOf, f, s);
    forall g | g in packs ensures s !in g.members {
      var j :| 0 <= j < |packs| && packs[j] == g;
      assert blobs[j] in blobs;
      SlotsUnder(groups[j], RefsOf(st.files), blobs[j]);
    }
  }

  /** A pack's slots, in physical order, found in the table. */
  lemma PhysicalOrder(slots: seq<Slot>, members: seq<Slot>, b: int)
    requires FileAscending(slots) && forall s :: s in members <==> s in slots && s.blob == b
    requires StrictlyOrdered(members)
    ensures Pack(slots, b) == members
  {
    hide Pack;
    PackOrder(slots, b);
    OfAscends(slots, b);
    NoDuplicatesPermutes(Pack(slots, b), Of(slots, b));
    SameElements(Pack(slots, b), members);
    assert Ascending(members, SlotKey) && InjectiveOn(members, SlotKey);
    OrderedUnique(members, Pack(slots, b), SlotKey);
  }

  lemma SamePack(a: seq<Slot>, c: seq<Slot>, b: int)
    requires FileAscending(a) && FileAscending(c)
    requires forall s: Slot :: s.blob == b ==> (s in a <==> s in c)
    ensures Pack(a, b) == Pack(c, b) && Of(a, b) == Of(c, b)
  {
    hide Sort;
    OfAscends(a, b);
    OfAscends(c, b);
    var x, y := Of(a, b), Of(c, b);
    forall s ensures s in x <==> s in y {
      assert s in x <==> s in a && s.blob == b;
      assert s in y <==> s in c && s.blob == b;
    }
    SameElements(x, y);
    OrderedUnique(x, y, FileKey);
  }

  /** The new pack `k`, when it is orderly. */
  lemma NewPack(
    st: PackRun.State, groups: seq<seq<Item>>, sha: Storages.Digest, blobOf: int -> int, f: seq<Row>, k: nat)
    requires Site(st, groups, sha, blobOf, f) && DistinctIds(st.files, groups, sha, blobOf) && k < |groups|
    requires Orderly(groups[k], RefsOf(st.files))
    ensures var blob := BlobsOf(groups, sha, blobOf)[k];
            Pack(Packed(f), blob) == PackSlots(groups[k], RefsOf(st.files), blob)
  {
    hide RefsOf, PackRun.Run, PackSlots, Packed, Renders, Orderly, StrictlyOrdered, AtMostOneEmpty, DistinctIds,
         Mentioned, PackRun.FromStore, Pack, RowsAscending;
    var blob := BlobsOf(groups, sha, blobOf)[k];
    var members := PackSlots(groups[k], RefsOf(st.files), blob);
    assert groups[k] in groups;
    PackedSound(f);
    RefsAscend(st.files);
    OrderlyOrdered(groups[k], RefsOf(st.files), blob);
    forall s ensures s in members <==> s in Packed(f) && s.blob == blob {
      NewPackRows(st, groups, sha, blobOf, f, k, s);
    }
    PhysicalOrder(Packed(f), members, blob);
  }

  /** Any id that no new pack has. */
  lemma OldPack(
    st: PackRun.State, groups: seq<seq<Item>>, sha: Storages.Digest, blobOf: int -> int, f: seq<Row>, b: int)
    requires Scene(st, groups, sha, blobOf, f) && b !in BlobsOf(groups, sha, blobOf)
    ensures Pack(Packed(f), b) == Pack(Earlier(st.files, blobOf), b)
    ensures Of(Packed(f), b) == Of(Earlier(st.files, blobOf), b)
  {
    hide Scene, Packed, Earlier, Pack, Of, BlobsOf;
    PackedSound(f);
    EarlierExact(st.files, blobOf);
    forall s: Slot | s.blob == b ensures s in Packed(f) <==> s in Earlier(st.files, blobOf) {
      OldPackRows(st, groups, sha, blobOf, f, s);
    }
    SamePack(Packed(f), Earlier(st.files, blobOf), b);
  }

  /** No earlier row is under a new pack's id. */
  lemma NoneEarlier(
    st: PackRun.State, groups: seq<seq<Item>>, sha: Storages.Digest, blobOf: int -> int, k: nat)
    requires DistinctIds(st.files, groups, sha, blobOf) && k < |groups|
    ensures Of(Earlier(st.files, blobOf), BlobsOf(groups, sha, blobOf)[k]) == []
    ensures Pack(Earlier(st.files, blobOf), BlobsOf(groups, sha, blobOf)[k]) == []
  {
    hide Earlier;
    EarlierExact(st.files, blobOf);
    forall s | s in Earlier(st.files, blobOf) ensures s.blob != BlobsOf(groups, sha, blobOf)[k] {
      assert st.files[s.fi] in st.files;
    }
    WithKeyNone(Earlier(st.files, blobOf), BlobOf, BlobsOf(groups, sha, blobOf)[k]);
  }

  ghost predicate AllOrderly(groups: seq<seq<Item>>, refs: Refs) {
    forall g :: g in groups ==> Orderly(g, refs)
  }

  /** A pack that is not orderly is refused. */
  lemma DisorderRefused(
    st: PackRun.State, groups: seq<seq<Item>>, sha: Storages.Digest, blobOf: int -> int, f: seq<Row>, k: nat)
    requires Site(st, groups, sha, blobOf, f) && k < |groups| && !Orderly(groups[k], RefsOf(st.files))
    ensures !OffsetsAreSums(Packed(f))
  {
    hide RefsOf, PackRun.Run, PackSlots, Packed, Renders, Orderly, AtMostOneEmpty, OffsetsAreSums, NamedBy,
         PackRun.FromStore, RowsAscending, Earlier;
    var g, refs, blobs := groups[k], RefsOf(st.files), BlobsOf(groups, sha, blobOf);
    assert g in groups;
    RefsAscend(st.files);
    forall i, j, fi | 0 <= i < |g| && 0 <= j < |g| && i != j && fi in NamedBy(refs, g[i].digest)
      ensures fi !in NamedBy(refs, g[j].digest)
    {
      NamedExact(st.files, g[i].digest);
      NamedExact(st.files, g[j].digest);
      assert g[i].digest != g[j].digest;
    }
    var s, t := Disorder(g, refs, blobs[k]);
    var packs := Labelled(groups, refs, blobs);
    assert packs[k] in packs && s in packs[k].members && t in packs[k].members;
    SameSlots(st, groups, sha, blobOf, f, s);
    SameSlots(st, groups, sha, blobOf, f, t);
    SlotsUnder(g, refs, blobs[k]);
    SceneLengths(st, groups, sha, blobOf, f);
    TwinStarts(Packed(f), s, t);
  }

  /** With ids of their own, the packs' offsets add up exactly when each pack is orderly and what was
      packed before adds up as well. */
  lemma SumsExact(
    st: PackRun.State, groups: seq<seq<Item>>, sha: Storages.Digest, blobOf: int -> int, f: seq<Row>)
    requires Site(st, groups, sha, blobOf, f) && DistinctIds(st.files, groups, sha, blobOf)
    ensures OffsetsAreSums(Packed(f)) <==>
            OffsetsAreSums(Earlier(st.files, blobOf)) && AllOrderly(groups, RefsOf(st.files))
  {
    hide RefsOf, PackRun.Run, PackSlots, Packed, Scene, Orderly, AtMostOneEmpty, OffsetsAreSums, Mentioned,
         RowsAscending, Earlier, Tiles, Pack, DistinctIds;
    var refs, blobs := RefsOf(st.files), BlobsOf(groups, sha, blobOf);
    PackedSound(f);
    EarlierExact(st.files, blobOf);
    TiledIsSums(Packed(f));
    TiledIsSums(Earlier(st.files, blobOf));
    if g :| g in groups && !Orderly(g, refs) {
      var k :| 0 <= k < |groups| && groups[k] == g;
      DisorderRefused(st, groups, sha, blobOf, f, k);
    } else {
      forall b ensures Tiles(Pack(Packed(f), b), 0) <==> Tiles(Pack(Earlier(st.files, blobOf), b), 0) {
        if b in blobs {
          var k :| 0 <= k < |groups| && blobs[k] == b;
          assert groups[k] in groups;
          NewPack(st, groups, sha, blobOf, f, k);
          OrderlyTiles(groups[k], refs, b);
          NoneEarlier(st, groups, sha, blobOf, k);
          NothingTiles();
        } else {
          OldPack(st, groups, sha, blobOf, f, b);
        }
      }
    }
  }

  lemma NothingTiles()
    ensures Tiles([], 0)
  {
  }

  // ----- Packs that straddle

  function LastOf(rows: seq<int>): int {
    if rows == [] then 0 else V4.MaxOf(rows)
  }

  /** No list of rows that opens earlier reaches past the first row of one that is a run. */
  ghost predicate Apart(lists: seq<seq<int>>) {
    forall l, m :: l in lists && m in lists && Contiguous(l) && MinOf(m) < MinOf(l) ==> LastOf(m) < MinOf(l)
  }

  /** The rows of each pack that was there before, in physical order. */
  function EarlierRows(files: seq<Storages.FileRow>, blobOf: int -> int): (r: seq<seq<int>>) {
    var packs := ArrangeAll(Buckets(Earlier(files, blobOf)));
    seq(|packs|, k requires 0 <= k < |packs| => FileIndices(packs[k].members))
  }

  /** The rows of each new pack, member by member. */
  function NewRows(groups: seq<seq<Item>>, refs: Refs): (r: seq<seq<int>>)
    ensures |r| == |groups|
  {
    seq(|groups|, k requires 0 <= k < |groups| => PackRows(groups[k], refs))
  }

  ghost predicate ListsPacks(lists: seq<seq<int>>, slots: seq<Slot>) {
    && (forall s :: s in slots ==> FileIndices(Pack(slots, s.blob)) in lists)
    && forall l :: l in lists ==> exists s :: s in slots && l == FileIndices(Pack(slots, s.blob))
  }

  lemma {:induction false} MinOfExact(s: seq<int>)
    requires s != []
    ensures MinOf(s) in s && forall x :: x in s ==> MinOf(s) <= x
  {
    var init, last := s[..|s| - 1], s[|s| - 1];
    assert s == init + [last];
    if |s| > 1 {
      MinOfExact(init);
    }
  }

  lemma PackEnds(slots: seq<Slot>, s: Slot)
    requires FileAscending(slots) && s in slots
    ensures var l := FileIndices(Pack(slots, s.blob));
            && MinOf(l) == FirstRow(slots, s.blob) && LastOf(l) == LastRow(slots, s.blob)
            && (Contiguous(l) <==> IsRun(slots, s.blob))
  {
    hide Pack, MinOf, FirstRow, LastRow;
    assert s in Of(slots, s.blob);
    PackBounds(slots, s.blob);
    LeastIsMin(Pack(slots, s.blob));
  }

  lemma LeastIsMin(p: seq<Slot>)
    requires p != []
    ensures MinOf(FileIndices(p)) == V4.MinFi(p)
  {
    hide MinOf;
    var fis := FileIndices(p);
    MinOfExact(fis);
    MinFiExact(p);
    var m :| m in p && m.fi == V4.MinFi(p);
    var k :| 0 <= k < |p| && p[k] == m;
    assert fis[k] == m.fi && fis[k] in fis;
    var j :| 0 <= j < |p| && fis[j] == MinOf(fis);
    assert p[j] in p;
  }

  lemma StraddleIsApart(slots: seq<Slot>, lists: seq<seq<int>>)
    requires FileAscending(slots) && ListsPacks(lists, slots)
    ensures NoStraddle(slots) <==> Apart(lists)
  {
    hide Pack, FirstRow, LastRow, IsRun, MinOf, LastOf, Contiguous, FileIndices;
    if NoStraddle(slots) {
      forall l, m | l in lists && m in lists && Contiguous(l) && MinOf(m) < MinOf(l) ensures LastOf(m) < MinOf(l) {
        var s :| s in slots && l == FileIndices(Pack(slots, s.blob));
        var t :| t in slots && m == FileIndices(Pack(slots, t.blob));
        PackEnds(slots, s);
        PackEnds(slots, t);
      }
    }
    if Apart(lists) {
      forall s, t | s in slots && t in slots && IsRun(slots, s.blob)
                    && FirstRow(slots, t.blob) < FirstRow(slots, s.blob)
        ensures LastRow(slots, t.blob) < FirstRow(slots, s.blob)
      {
        PackEnds(slots, s);
        PackEnds(slots, t);
        var l, m := FileIndices(Pack(slots, s.blob)), FileIndices(Pack(slots, t.blob));
        assert l in lists && m in lists;
      }
    }
  }

  /** The lists of an orderly build are those of the table. */
  lemma BuildLists(
    st: PackRun.State, groups: seq<seq<Item>>, sha: Storages.Digest, blobOf: int -> int, f: seq<Row>)
    requires Site(st, groups, sha, blobOf, f) && DistinctIds(st.files, groups, sha, blobOf)
    requires AllOrderly(groups, RefsOf(st.files))
    ensures ListsPacks(EarlierRows(st.files, blobOf) + NewRows(groups, RefsOf(st.files)), Packed(f))
  {
    hide RefsOf, Packed, Scene, Earlier, Pack, DistinctIds, EarlierRows, NewRows, Mentioned, AtMostOneEmpty, Orderly;
    var refs, blobs, slots := RefsOf(st.files), BlobsOf(groups, sha, blobOf), Packed(f);
    var before, made := EarlierRows(st.files, blobOf), NewRows(groups, refs);
    forall s | s in slots ensures FileIndices(Pack(slots, s.blob)) in before + made {
      if s.blob in blobs {
        var k :| 0 <= k < |groups| && blobs[k] == s.blob;
        var t := NewList(st, groups, sha, blobOf, f, k);
        assert made[k] in made;
      } else {
        OldPack(st, groups, sha, blobOf, f, s.blob);
        OldPackRows(st, groups, sha, blobOf, f, s);
        EarlierLists(st.files, blobOf);
      }
    }
    forall l | l in before + made ensures exists s :: s in slots && l == FileIndices(Pack(slots, s.blob)) {
      if l in made {
        var k :| 0 <= k < |made| && made[k] == l;
        var s := NewList(st, groups, sha, blobOf, f, k);
      } else {
        EarlierLists(st.files, blobOf);
        var e :| e in Earlier(st.files, blobOf) && l == FileIndices(Pack(Earlier(st.files, blobOf), e.blob));
        EarlierUnder(st, groups, sha, blobOf, e);
        OldPack(st, groups, sha, blobOf, f, e.blob);
        OldPackRows(st, groups, sha, blobOf, f, e);
      }
    }
  }

  lemma EarlierUnder(st: PackRun.State, groups: seq<seq<Item>>, sha: Storages.Digest, blobOf: int -> int, e: Slot)
    requires DistinctIds(st.files, groups, sha, blobOf) && e in Earlier(st.files, blobOf)
    ensures e.blob !in BlobsOf(groups, sha, blobOf)
  {
    EarlierExact(st.files, blobOf);
    assert st.files[e.fi] in st.files;
  }

  lemma EarlierLists(files: seq<Storages.FileRow>, blobOf: int -> int)
    ensures ListsPacks(EarlierRows(files, blobOf), Earlier(files, blobOf))
  {
    hide Earlier;
    var slots := Earlier(files, blobOf);
    GroupByGroups(slots, BlobOf);
    ArrangeArranges(Buckets(slots), slots);
    ArrangedLists(ArrangeAll(Buckets(slots)), slots, EarlierRows(files, blobOf));
  }

  lemma ArrangedLists(packs: seq<PackGroup>, slots: seq<Slot>, lists: seq<seq<int>>)
    requires Arranged(packs, slots)
    requires |lists| == |packs| && forall k :: 0 <= k < |lists| ==> lists[k] == FileIndices(packs[k].members)
    ensures ListsPacks(lists, slots)
  {
    hide Pack, FileIndices;
    forall s | s in slots ensures FileIndices(Pack(slots, s.blob)) in lists {
      var g :| g in packs && g.key == s.blob;
      var k :| 0 <= k < |packs| && packs[k] == g;
      assert lists[k] == FileIndices(Pack(slots, s.blob));
    }
    forall l | l in lists ensures exists s :: s in slots && l == FileIndices(Pack(slots, s.blob)) {
      var k :| 0 <= k < |lists| && lists[k] == l;
      var g := packs[k];
      assert g in packs;
      PackOrder(slots, g.key);
      assert g.members[0] in g.members;
    }
  }

  lemma NewList(
    st: PackRun.State, groups: seq<seq<Item>>, sha: Storages.Digest, blobOf: int -> int, f: seq<Row>, k: nat)
    returns (s: Slot)
    requires Site(st, groups, sha, blobOf, f) && DistinctIds(st.files, groups, sha, blobOf) && k < |groups|
    requires Orderly(groups[k], RefsOf(st.files))
    ensures s in Packed(f) && s.blob == BlobsOf(groups, sha, blobOf)[k]
    ensures NewRows(groups, RefsOf(st.files))[k] == FileIndices(Pack(Packed(f), BlobsOf(groups, sha, blobOf)[k]))
  {
    hide RefsOf, Packed, Renders, Pack, DistinctIds, AtMostOneEmpty, Orderly, PackRows, PackSlots, PackRun.Run, NamedBy;
    var g, refs, blob := groups[k], RefsOf(st.files), BlobsOf(groups, sha, blobOf)[k];
    assert g in groups && g[0] in g;
    NewPack(st, groups, sha, blobOf, f, k);
    RowsOfSlots(g, refs, blob);
    NamedExact(st.files, g[0].digest);
    var fi := NamedBy(refs, g[0].digest)[0];
    assert fi in NamedBy(refs, g[0].digest);
    MemberIsPacked(st, groups, sha, blobOf, f, k, fi);
    s := SlotAt(fi, g, blob, g[0].digest);
  }

  // ----- Any build

  /** Any packer, any number of extension buckets, with packs that have ids of their own. The v2 encoder
      accepts the table that a build leaves behind exactly when every packed content that is not empty is
      named by one row, every row of the empty content comes before the row of the next member of its pack,
      and what was packed before adds up; v4 when, besides, no pack reaches over the first row of a later
      pack that is a run. */
  lemma BuiltAcceptedExact(
    st: PackRun.State, target: int, maxFile: int, policy: Policy, sha: Storages.Digest, blobOf: int -> int,
    f: seq<Row>)
    requires Storages.Digested(st.cands, sha)
    requires Renders(f, Built(st, target, maxFile, policy, sha).files, blobOf)
    requires DistinctIds(st.files, Packs(st, target, maxFile, policy), sha, blobOf)
    ensures var groups, refs := Packs(st, target, maxFile, policy), RefsOf(st.files);
            var sound := OffsetsAreSums(Earlier(st.files, blobOf)) && AllOrderly(groups, refs);
            && (AcceptedV2(f) <==> sound)
            && (AcceptedV4(f) <==> sound && Apart(EarlierRows(st.files, blobOf) + NewRows(groups, refs)))
  {
    hide RefsOf, Packs, Built, Site, Renders, DistinctIds, OffsetsAreSums, NoStraddle, Packed, AcceptedV2, AcceptedV4,
         AllOrderly, Earlier, EarlierRows, NewRows, Apart;
    var groups := Packs(st, target, maxFile, policy);
    BuildSite(st, target, maxFile, policy, sha, blobOf, f);
    AcceptedExact(st, groups, sha, blobOf, f);
  }

  lemma AcceptedExact(
    st: PackRun.State, groups: seq<seq<Item>>, sha: Storages.Digest, blobOf: int -> int, f: seq<Row>)
    requires Site(st, groups, sha, blobOf, f) && DistinctIds(st.files, groups, sha, blobOf)
    ensures var refs := RefsOf(st.files);
            var sound := OffsetsAreSums(Earlier(st.files, blobOf)) && AllOrderly(groups, refs);
            && (AcceptedV2(f) <==> sound)
            && (AcceptedV4(f) <==> sound && Apart(EarlierRows(st.files, blobOf) + NewRows(groups, refs)))
  {
    hide RefsOf, Scene, Mentioned, AtMostOneEmpty, DistinctIds, OffsetsAreSums, NoStraddle, Packed, AcceptedV2,
         AcceptedV4, AllOrderly, Earlier, EarlierRows, NewRows, Apart, ListsPacks;
    SceneLengths(st, groups, sha, blobOf, f);
    SumsExact(st, groups, sha, blobOf, f);
    AcceptedV2Exact(f);
    AcceptedV4Exact(f);
    PackedSound(f);
    if AllOrderly(groups, RefsOf(st.files)) {
      BuildLists(st, groups, sha, blobOf, f);
      StraddleIsApart(Packed(f), EarlierRows(st.files, blobOf) + NewRows(groups, RefsOf(st.files)));
    }
  }

  // ----- Builds whose ids follow from the bytes

  ghost predicate InjectiveIds(blobOf: int -> int) {
    forall g, h :: blobOf(g) == blobOf(h) ==> g == h
  }

  ghost predicate PacksDiffer(groups: seq<seq<Item>>) {
    forall j, k | 0 <= j < k < |groups| :: PackRun.Concat(groups[j]) != PackRun.Concat(groups[k])
  }

  /** No pack has the bytes of one that was there before. */
  ghost predicate Fresh(files: seq<Storages.FileRow>, groups: seq<seq<Item>>, sha: Storages.Digest) {
    forall k, row :: 0 <= k < |groups| && row in files && row.ref.PackRef? ==>
      row.ref.h != PackRun.PackDigest(groups, k, sha)
  }

  lemma FreshIds(files: seq<Storages.FileRow>, groups: seq<seq<Item>>, sha: Storages.Digest, blobOf: int -> int)
    requires Storages.CollisionFree(sha) && InjectiveIds(blobOf) && PacksDiffer(groups) && Fresh(files, groups, sha)
    ensures DistinctIds(files, groups, sha, blobOf)
  {
    hide PackRun.Concat;
    var blobs := BlobsOf(groups, sha, blobOf);
    forall j, k | 0 <= j < k < |groups| ensures blobs[j] != blobs[k] {
      assert PackRun.PackDigest(groups, j, sha) != PackRun.PackDigest(groups, k, sha);
    }
  }

  /** Two packs of the same bytes both have some: only one can have the empty content. */
  lemma SameBytes(groups: seq<seq<Item>>, cands: Storages.Store, sha: Storages.Digest, j: nat, k: nat)
    requires PackRun.FromStore(groups, cands) && Storages.Digested(cands, sha)
    requires j < k < |groups| && PackRun.Concat(groups[j]) == PackRun.Concat(groups[k])
    ensures HasBytes(groups[j]) && HasBytes(groups[k])
  {
    hide PackRun.Concat;
    var g, h := groups[j], groups[k];
    assert g in groups && h in groups && g[0] in g && h[0] in h;
    assert sha(g[0].raw) == g[0].digest && sha(h[0].raw) == h[0].digest;
    assert PackRun.Has(g, g[0].digest) && PackRun.Has(h, h[0].digest);
    assert g[0].raw != [] || h[0].raw != [];
    assert HasBytes(g) || HasBytes(h);
    if HasBytes(g) {
      SomeBytes(g);
    } else {
      NoBytes(g);
    }
    if HasBytes(h) {
      SomeBytes(h);
    } else {
      NoBytes(h);
    }
  }

  /** The builder numbers blobs by digest. If no pack has the bytes of one that was there before, v2 accepts
      the table exactly when the packs differ in their bytes, besides being orderly, and what was packed
      before adds up. */
  lemma BuiltAcceptedByBytes(
    st: PackRun.State, target: int, maxFile: int, policy: Policy, sha: Storages.Digest, blobOf: int -> int,
    f: seq<Row>)
    requires Storages.CollisionFree(sha) && Storages.Digested(st.cands, sha) && InjectiveIds(blobOf)
    requires Renders(f, Built(st, target, maxFile, policy, sha).files, blobOf)
    requires Fresh(st.files, Packs(st, target, maxFile, policy), sha)
    ensures var groups, refs := Packs(st, target, maxFile, policy), RefsOf(st.files);
            var sound := PacksDiffer(groups) && OffsetsAreSums(Earlier(st.files, blobOf)) && AllOrderly(groups, refs);
            && (AcceptedV2(f) <==> sound)
            && (AcceptedV4(f) <==> sound && Apart(EarlierRows(st.files, blobOf) + NewRows(groups, refs)))
  {
    hide RefsOf, Packs, Built, Renders, DistinctIds, OffsetsAreSums, NoStraddle, Packed, AcceptedV2, AcceptedV4,
         AllOrderly, Earlier, EarlierRows, NewRows, Apart, Fresh, PackRun.Concat, PackRun.FromStore;
    var groups := Packs(st, target, maxFile, policy);
    if PacksDiffer(groups) {
      FreshIds(st.files, groups, sha, blobOf);
      BuiltAcceptedExact(st, target, maxFile, policy, sha, blobOf, f);
    } else {
      BuildSite(st, target, maxFile, policy, sha, blobOf, f);
      var j, k :| 0 <= j < k < |groups| && PackRun.Concat(groups[j]) == PackRun.Concat(groups[k]);
      SameBytes(groups, st.cands, sha, j, k);
      SharedIdRefused(st, groups, sha, blobOf, f, j, k);
      AcceptedV2Exact(f);
      AcceptedV4Exact(f);
    }
  }

  /** A pack with the bytes of one that was there before, whose rows add up and are not all empty, is
      refused. */
  lemma StaleBytesRefused(
    st: PackRun.State, target: int, maxFile: int, policy: Policy, sha: Storages.Digest, blobOf: int -> int,
    f: seq<Row>, k: nat, i: nat)
    requires Storages.Digested(st.cands, sha)
    requires Renders(f, Built(st, target, maxFile, policy, sha).files, blobOf)
    requires k < |Packs(st, target, maxFile, policy)| && HasBytes(Packs(st, target, maxFile, policy)[k])
    requires i < |st.files| && st.files[i].ref.PackRef? && st.files[i].ref.len > 0
    requires st.files[i].ref.h == PackRun.PackDigest(Packs(st, target, maxFile, policy), k, sha)
    requires OffsetsAreSums(Earlier(st.files, blobOf))
    ensures !AcceptedV2(f) && !AcceptedV4(f)
  {
    hide RefsOf, Packs, Built, Renders, OffsetsAreSums, NoStraddle, Packed, AcceptedV2, AcceptedV4, Earlier,
         HasBytes, PackRun.PackDigest;
    var groups, before := Packs(st, target, maxFile, policy), Earlier(st.files, blobOf);
    BuildSite(st, target, maxFile, policy, sha, blobOf, f);
    EarlierExact(st.files, blobOf);
    var s := Slot(i, blobOf(st.files[i].ref.h), st.files[i].ref.off, st.files[i].ref.len);
    assert s in before;
    var e := FirstBytes(before, s);
    EarlierIdRefused(st, groups, sha, blobOf, f, e, k);
    AcceptedV2Exact(f);
    AcceptedV4Exact(f);
  }

  /** Slices that add up open with some bytes. */
  lemma FirstBytes(slots: seq<Slot>, s: Slot) returns (e: Slot)
    requires FileAscending(slots) && OffsetsAreSums(slots) && s in slots && s.len > 0
    requires forall t :: t in slots ==> t.len >= 0
    ensures e in slots && e.blob == s.blob && e.off == 0 && e.len > 0
  {
    hide Pack, OffsetsAreSums, Tiles;
    TiledIsSums(slots);
    assert Tiles(Pack(slots, s.blob), 0);
    PackOrder(slots, s.blob);
    e := FirstTile(Pack(slots, s.blob), s);
  }

  lemma {:induction false} FirstTile(p: seq<Slot>, s: Slot) returns (e: Slot)
    requires Tiles(p, 0) && s in p && s.len > 0 && forall t :: t in p ==> t.len >= 0
    ensures e in p && e.off == 0 && e.len > 0
  {
    if p[0].len > 0 {
      e := p[0];
    } else {
      assert p == [p[0]] + p[1..] && p[0] in p;
      e := FirstTile(p[1..], s);
    }
  }
}
