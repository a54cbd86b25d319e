/** Builds whose file table an encoder refuses, whatever ids the packs get. */
module RefusedTables {
  import opened Sorting
  import opened Grouping
  import opened ByteLayout
  import opened ControlRows
  import opened Descriptors
  import opened Kinds
  import opened LocalityPack
  import opened Numbers
  import opened Acceptance
  import opened MicroPackBuilder
  import opened PackLayout
  import opened PackRun
  import opened PackStrategies
  import opened PackThenCodec
  import opened PolicyThenCodec
  import opened SmallBuilds
  import opened StableThenCodec
  import opened Storages
  import AcceptanceV3
  import AcceptanceV4

  function Stored(raw: Bytes, sha: Digest): FileRow {
    FileRow(K_FILE, BlobRef(sha(raw)))
  }

  function Text(raw: Bytes, ext: nat): Candidate {
    Candidate(raw, {ext}, map[])
  }

  lemma TextIsWanted(cands: Store, raw: Bytes, ext: nat, maxFile: int, sha: Digest)
    requires sha(raw) in cands && cands[sha(raw)] == Text(raw, ext) && |raw| <= maxFile
    ensures Wanted(cands, sha(raw), maxFile) && ExtOf(cands)(Item(sha(raw), raw)) == ext
  {
    TextHints({ext}, ext);
  }

  // ----- Two extensions

  /** Three contents of one byte. */
  ghost predicate Three(a: Bytes, b: Bytes, c: Bytes, target: int, maxFile: int, sha: Digest) {
    CollisionFree(sha) && |a| == |b| == |c| == 1 && a != b && a != c && b != c && target >= 2 && maxFile >= 1
  }

  /** The second file has another extension than the first and the third. */
  function Mixed(a: Bytes, b: Bytes, c: Bytes, sha: Digest): State {
    State([Stored(a, sha), Stored(b, sha), Stored(c, sha)],
          map[sha(a) := Text(a, 0), sha(b) := Text(b, 1), sha(c) := Text(c, 0)])
  }

  lemma MixedRows(a: Bytes, b: Bytes, c: Bytes, target: int, maxFile: int, sha: Digest)
    requires Three(a, b, c, target, maxFile, sha)
    ensures sha(a) != sha(b) && sha(a) != sha(c) && sha(b) != sha(c)
    ensures var refs := RefsOf(Mixed(a, b, c, sha).files);
            NamedBy(refs, sha(a)) == [0] && NamedBy(refs, sha(b)) == [1] && NamedBy(refs, sha(c)) == [2]
  {
    hide RefsOf, NamedBy;
    var files := Mixed(a, b, c, sha).files;
    OnlyNamed(files, 0);
    OnlyNamed(files, 1);
    OnlyNamed(files, 2);
  }

  lemma MixedPacks(a: Bytes, b: Bytes, c: Bytes, target: int, maxFile: int, sha: Digest)
    requires Three(a, b, c, target, maxFile, sha)
    ensures |BucketsOf(Mixed(a, b, c, sha), maxFile)| == 2
    ensures Packs(Mixed(a, b, c, sha), target, maxFile, Stable)
            == [[Item(sha(a), a), Item(sha(c), c)], [Item(sha(b), b)]]
  {
    hide RefsOf, EligibleItems, BucketsOf, Packs, Wanted, ExtOf, Plan, Law, StableKey, NamedBy;
    var st := Mixed(a, b, c, sha);
    var x, y, z := Item(sha(a), a), Item(sha(b), b), Item(sha(c), c);
    var refs := RefsOf(st.files);
    MixedRows(a, b, c, target, maxFile, sha);
    MixedEligible(a, b, c, target, maxFile, sha);
    TwoBuckets(st, maxFile, [x, z], [y]);
    TwoBucketsPacks(st, target, maxFile, Stable);
    StableKeyIsRow(refs, x);
    StableKeyIsRow(refs, z);
    OneRowIs(refs, x.digest);
    OneRowIs(refs, z.digest);
    PairLaw(x, z, target);
    LoneLaw(y, target);
    PairIsOnePack(BucketsOf(st, maxFile)[0].members, x, z, refs, target, Stable);
    LoneIsOnePack(BucketsOf(st, maxFile)[1].members, y, refs, target, Stable);
  }

  lemma MixedEligible(a: Bytes, b: Bytes, c: Bytes, target: int, maxFile: int, sha: Digest)
    requires Three(a, b, c, target, maxFile, sha)
    ensures var st := Mixed(a, b, c, sha);
            var x, y, z := Item(sha(a), a), Item(sha(b), b), Item(sha(c), c);
            && multiset(EligibleItems(RefsOf(st.files), st.cands, maxFile)) == multiset([x, z] + [y])
            && NoDuplicates([x, z] + [y])
            && ExtOf(st.cands)(x) == 0 && ExtOf(st.cands)(z) == 0 && ExtOf(st.cands)(y) == 1
  {
    hide RefsOf, EligibleItems, Wanted, ExtOf;
    var st := Mixed(a, b, c, sha);
    var x, y, z := Item(sha(a), a), Item(sha(b), b), Item(sha(c), c);
    assert sha(a) != sha(b) && sha(a) != sha(c) && sha(b) != sha(c);
    TextIsWanted(st.cands, a, 0, maxFile, sha);
    TextIsWanted(st.cands, b, 1, maxFile, sha);
    TextIsWanted(st.cands, c, 0, maxFile, sha);
    EligibleAre(st, maxFile, [x, y, z]);
    assert multiset([x, y, z]) == multiset{x, y, z} == multiset([x, z] + [y]);
  }

  lemma NoneEmptyOrderly(rows: seq<Item>, refs: Refs)
    requires forall it :: it in rows ==> it.raw != [] && |NamedBy(refs, it.digest)| == 1
    ensures Orderly(rows, refs)
  {
    hide NamedBy;
    assert forall i :: 0 <= i < |rows| ==> rows[i] in rows;
  }

  lemma RowsOfPair(x: Item, y: Item, refs: Refs)
    ensures PackRows([x], refs) == NamedBy(refs, x.digest)
    ensures PackRows([x, y], refs) == NamedBy(refs, x.digest) + NamedBy(refs, y.digest)
  {
    hide NamedBy;
    assert [x, y][..1] == [x] && [x][..0] == [];
    assert PackRows([x], refs) == [] + NamedBy(refs, x.digest);
  }

  lemma StraddlingLists(lists: seq<seq<int>>)
    requires lists == [[0, 2], [1]]
    ensures !Apart(lists)
  {
    var l, m: seq<int> := [1], [0, 2];
    assert l in lists && m in lists;
    assert l == Range(1, 1) && Contiguous(l);
    assert m[..1] == [0] && MinOf(m) == 0 && MinOf(l) == 1;
    assert m[1..] == [2] && LastOf(m) == 2;
  }

  lemma MixedLists(x: Item, y: Item, z: Item, refs: Refs)
    requires x.raw != [] && y.raw != [] && z.raw != []
    requires NamedBy(refs, x.digest) == [0] && NamedBy(refs, y.digest) == [1] && NamedBy(refs, z.digest) == [2]
    ensures NewRows([[x, z], [y]], refs) == [[0, 2], [1]] && AllOrderly([[x, z], [y]], refs)
  {
    hide NamedBy, Orderly, PackRows;
    NoneEmptyOrderly([x, z], refs);
    NoneEmptyOrderly([y], refs);
    RowsOfPair(x, z, refs);
    RowsOfPair(y, z, refs);
    var one: seq<int> := [0];
    assert one + [2] == [0, 2];
    var lists := NewRows([[x, z], [y]], refs);
    assert lists[0] == [0, 2] && lists[1] == [1];
  }

  /** The stable packer's table of these files, whatever the target and however the builder numbers the two
      packs: each content is named by one row, v2 accepts the table, and v4 refuses it. */
  lemma TwoBucketsRefused(
    a: Bytes, b: Bytes, c: Bytes, target: int, maxFile: int, sha: Digest, blobOf: int -> int, f: seq<Row>)
    requires Three(a, b, c, target, maxFile, sha) && blobOf(sha(a + c)) != blobOf(sha(b))
    requires Renders(f, Built(Mixed(a, b, c, sha), target, maxFile, Stable, sha).files, blobOf)
    ensures |BucketsOf(Mixed(a, b, c, sha), maxFile)| == 2
    ensures AcceptedV2(f) && !AcceptedV4(f)
  {
    hide RefsOf, Packs, BucketsOf, Built, AcceptedV2, AcceptedV4, OffsetsAreSums, Apart, NamedBy, AllOrderly, NewRows,
         Concat, Renders, DistinctIds, EarlierRows, Earlier;
    var st := Mixed(a, b, c, sha);
    var x, y, z := Item(sha(a), a), Item(sha(b), b), Item(sha(c), c);
    var refs, groups := RefsOf(st.files), [[x, z], [y]];
    MixedRows(a, b, c, target, maxFile, sha);
    MixedPacks(a, b, c, target, maxFile, sha);
    ConcatPair(x, z);
    ConcatLone(y);
    NothingEarlier(st.files, blobOf);
    TwoIds(st.files, groups, sha, blobOf);
    MixedLists(x, y, z, refs);
    StraddlingLists(NewRows(groups, refs));
    assert [] + NewRows(groups, refs) == NewRows(groups, refs);
    BuiltAcceptedExact(st, target, maxFile, Stable, sha, blobOf, f);
  }

  lemma ConcatLone(x: Item)
    ensures Concat([x]) == x.raw
  {
    assert [x][..0] == [];
    assert Concat([x]) == [] + x.raw;
  }

  lemma TwoIds(files: seq<FileRow>, groups: seq<seq<Item>>, sha: Digest, blobOf: int -> int)
    requires |groups| == 2 && blobOf(sha(Concat(groups[0]))) != blobOf(sha(Concat(groups[1])))
    requires forall row :: row in files ==> !row.ref.PackRef?
    ensures DistinctIds(files, groups, sha, blobOf)
  {
    hide Concat;
    var blobs := BlobsOf(groups, sha, blobOf);
    assert blobs[0] == blobOf(PackDigest(groups, 0, sha)) && blobs[1] == blobOf(PackDigest(groups, 1, sha));
  }

  // ----- Two packs of the same bytes

  /** Contents p and qr of one extension, pq and r of another: both packs are pqr. */
  function Twins(p: Bytes, q: Bytes, r: Bytes, sha: Digest): State {
    State([Stored(p, sha), Stored(q + r, sha), Stored(p + q, sha), Stored(r, sha)],
          map[sha(p) := Text(p, 0), sha(q + r) := Text(q + r, 0), sha(p + q) := Text(p + q, 1), sha(r) := Text(r, 1)])
  }

  ghost predicate Splits(p: Bytes, q: Bytes, r: Bytes, target: int, maxFile: int, sha: Digest) {
    && CollisionFree(sha)
    && p != [] && q != [] && |p| + |q| < |r| && |q| + |r| <= 7 * |p|
    && |q| + |r| <= maxFile && |p| + |q| + |r| <= target
  }

  lemma TwinDigests(p: Bytes, q: Bytes, r: Bytes, target: int, maxFile: int, sha: Digest)
    requires Splits(p, q, r, target, maxFile, sha)
    ensures sha(p) != sha(q + r) && sha(p) != sha(p + q) && sha(p) != sha(r)
    ensures sha(q + r) != sha(p + q) && sha(q + r) != sha(r) && sha(p + q) != sha(r)
  {
    assert |q + r| == |q| + |r| && |p + q| == |p| + |q|;
    assert p != q + r && p != p + q && p != r && q + r != p + q && q + r != r && p + q != r;
  }

  lemma TwinEligible(p: Bytes, q: Bytes, r: Bytes, target: int, maxFile: int, sha: Digest)
    requires Splits(p, q, r, target, maxFile, sha)
    ensures var st := Twins(p, q, r, sha);
            var x, y, z, w := Item(sha(p), p), Item(sha(q + r), q + r), Item(sha(p + q), p + q), Item(sha(r), r);
            && multiset(EligibleItems(RefsOf(st.files), st.cands, maxFile)) == multiset([x, y] + [z, w])
            && NoDuplicates([x, y] + [z, w])
            && ExtOf(st.cands)(x) == 0 && ExtOf(st.cands)(y) == 0
            && ExtOf(st.cands)(z) == 1 && ExtOf(st.cands)(w) == 1
  {
    hide RefsOf, EligibleItems, Wanted, ExtOf, CollisionFree;
    var st := Twins(p, q, r, sha);
    var x, y, z, w := Item(sha(p), p), Item(sha(q + r), q + r), Item(sha(p + q), p + q), Item(sha(r), r);
    TwinDigests(p, q, r, target, maxFile, sha);
    TextIsWanted(st.cands, p, 0, maxFile, sha);
    TextIsWanted(st.cands, q + r, 0, maxFile, sha);
    TextIsWanted(st.cands, p + q, 1, maxFile, sha);
    TextIsWanted(st.cands, r, 1, maxFile, sha);
    assert [x, y] + [z, w] == [x, y, z, w];
    EligibleAre(st, maxFile, [x, y, z, w]);
  }

  lemma TwinPacks(p: Bytes, q: Bytes, r: Bytes, target: int, maxFile: int, sha: Digest)
    requires Splits(p, q, r, target, maxFile, sha)
    ensures var x, y, z, w := Item(sha(p), p), Item(sha(q + r), q + r), Item(sha(p + q), p + q), Item(sha(r), r);
            Packs(Twins(p, q, r, sha), target, maxFile, By(AscendingGreedy)) == [[x, y], [z, w]]
  {
    hide RefsOf, EligibleItems, BucketsOf, Packs, ExtOf, Plan, Law, CollisionFree;
    var st := Twins(p, q, r, sha);
    var x, y, z, w := Item(sha(p), p), Item(sha(q + r), q + r), Item(sha(p + q), p + q), Item(sha(r), r);
    var refs, policy := RefsOf(st.files), By(AscendingGreedy);
    TwinEligible(p, q, r, target, maxFile, sha);
    TwoBuckets(st, maxFile, [x, y], [z, w]);
    TwoBucketsPacks(st, target, maxFile, policy);
    PairLaw(x, y, target);
    PairLaw(z, w, target);
    PairIsOnePack(BucketsOf(st, maxFile)[0].members, x, y, refs, target, policy);
    PairIsOnePack(BucketsOf(st, maxFile)[1].members, z, w, refs, target, policy);
  }

  /** Whatever the ids: both packs get the same one, and no codec accepts the table. */
  lemma TwinPacksRefused(
    p: Bytes, q: Bytes, r: Bytes, target: int, maxFile: int, sha: Digest, blobOf: int -> int, f: seq<Row>)
    requires Splits(p, q, r, target, maxFile, sha)
    requires Renders(f, Built(Twins(p, q, r, sha), target, maxFile, By(AscendingGreedy), sha).files, blobOf)
    ensures !AcceptedV2(f) && !AcceptedV3(f) && !AcceptedV4(f)
  {
    hide RefsOf, Packs, Built, AcceptedV2, AcceptedV3, AcceptedV4, OffsetsAreSums, Concat, Renders, Site, Mentioned,
         CollisionFree;
    var st := Twins(p, q, r, sha);
    var x, y, z, w := Item(sha(p), p), Item(sha(q + r), q + r), Item(sha(p + q), p + q), Item(sha(r), r);
    var groups := [[x, y], [z, w]];
    TwinPacks(p, q, r, target, maxFile, sha);
    BuildSite(st, target, maxFile, By(AscendingGreedy), sha, blobOf, f);
    SiteParts(st, groups, sha, blobOf, f);
    ConcatPair(x, y);
    ConcatPair(z, w);
    assert p + (q + r) == (p + q) + r;
    assert x in groups[0] && w in groups[1];
    assert PackDigest(groups, 0, sha) == PackDigest(groups, 1, sha);
    SharedIdRefused(st, groups, sha, blobOf, f, 0, 1);
    AcceptedV2Exact(f);
    AcceptanceV3.AcceptanceChain(f);
  }

  lemma SiteParts(st: State, groups: seq<seq<Item>>, sha: Digest, blobOf: int -> int, f: seq<Row>)
    requires Site(st, groups, sha, blobOf, f)
    ensures Scene(st, groups, sha, blobOf, f) && Mentioned(groups, RefsOf(st.files))
  {
  }

  // ----- Two copies of a file

  /** Any build, under any policy and any ids, in which two regular files have the same eligible content. */
  lemma CopiesRefused(
    st: State, target: int, maxFile: int, policy: Policy, sha: Digest, blobOf: int -> int, f: seq<Row>, i: nat, j: nat)
    requires Digested(st.cands, sha)
    requires Renders(f, Built(st, target, maxFile, policy, sha).files, blobOf)
    requires i < j < |st.files| && IsMention(st.files[i]) && IsMention(st.files[j])
    requires st.files[i].ref.h == st.files[j].ref.h && Wanted(st.cands, st.files[i].ref.h, maxFile)
    requires st.cands[st.files[i].ref.h].raw != []
    ensures !AcceptedV2(f) && !AcceptedV3(f) && !AcceptedV4(f)
  {
    hide RefsOf, EligibleItems, Packs, Built, AcceptedV2, AcceptedV3, AcceptedV4, OffsetsAreSums, Renders, Site, Wanted;
    var groups, items := Packs(st, target, maxFile, policy), EligibleItems(RefsOf(st.files), st.cands, maxFile);
    var h := st.files[i].ref.h;
    BuildSite(st, target, maxFile, policy, sha, blobOf, f);
    SiteParts(st, groups, sha, blobOf, f);
    PacksAreSound(st, target, maxFile, policy);
    EligibleExact(st, maxFile);
    assert st.files[i] in st.files;
    assert Has(items, h);
    var it :| it in items && it.digest == h;
    MembersMatch(items, Flatten(groups));
    FlattenMember(groups, it);
    var g :| g in groups && it in g;
    var k :| 0 <= k < |groups| && groups[k] == g;
    TwinRefused(st, groups, sha, blobOf, f, k, it, i, j);
    AcceptedV2Exact(f);
    AcceptanceV3.AcceptanceChain(f);
  }

  // ----- An empty file

  /** A short text file, and behind it an empty one of the same extension. */
  function WithEmpty(a: Bytes, sha: Digest): State {
    State([Stored(a, sha), Stored([], sha)], map[sha(a) := Text(a, 0), sha([]) := Text([], 0)])
  }

  lemma EmptyLaw(x: Item, y: Item, target: int)
    requires Size(x) == 0 && 0 < Size(y) <= 8 && Size(y) <= target
    ensures Law(target)([x, y])
  {
    TotalPair(Size(x), Size(y));
    LeastExact([Size(x), Size(y)]);
    assert Sizes([x, y]) == [Size(x), Size(y)];
    assert Size(x) in [Size(x), Size(y)];
  }

  lemma EmptyPack(a: Bytes, target: int, maxFile: int, sha: Digest)
    requires CollisionFree(sha) && 0 < |a| <= 8 && |a| <= maxFile && |a| <= target
    ensures sha(a) != sha([])
    ensures var st := WithEmpty(a, sha);
            && Packs(st, target, maxFile, By(AscendingGreedy)) == [[Item(sha([]), []), Item(sha(a), a)]]
            && NamedBy(RefsOf(st.files), sha([])) == [1] && NamedBy(RefsOf(st.files), sha(a)) == [0]
  {
    hide RefsOf, EligibleItems, BucketsOf, Packs, Wanted, ExtOf, Plan, Law, NamedBy;
    var st := WithEmpty(a, sha);
    var x, y := Item(sha([]), []), Item(sha(a), a);
    EmptyEligible(a, maxFile, sha);
    OneBucket(st, maxFile, 0);
    OneBucketPacks(st, target, maxFile, By(AscendingGreedy));
    EmptyLaw(x, y, target);
    PairIsOnePack(BucketsOf(st, maxFile)[0].members, x, y, RefsOf(st.files), target, By(AscendingGreedy));
    OnlyNamed(st.files, 0);
    OnlyNamed(st.files, 1);
  }

  lemma EmptyEligible(a: Bytes, maxFile: int, sha: Digest)
    requires CollisionFree(sha) && 0 < |a| <= maxFile
    ensures sha(a) != sha([])
    ensures var st := WithEmpty(a, sha);
            var items := EligibleItems(RefsOf(st.files), st.cands, maxFile);
            && multiset(items) == multiset([Item(sha([]), []), Item(sha(a), a)])
            && forall it :: it in items ==> ExtOf(st.cands)(it) == 0
  {
    hide RefsOf, EligibleItems, Wanted, ExtOf;
    var st := WithEmpty(a, sha);
    var x, y := Item(sha([]), []), Item(sha(a), a);
    assert a != [];
    TextIsWanted(st.cands, a, 0, maxFile, sha);
    TextIsWanted(st.cands, [], 0, maxFile, sha);
    EligibleAre(st, maxFile, [y, x]);
    assert multiset([y, x]) == multiset{x, y} == multiset([x, y]);
    MembersMatch(EligibleItems(RefsOf(st.files), st.cands, maxFile), [y, x]);
  }

  /** The ascending packer puts the empty content first, at the offset of the other; its row comes second,
      and no codec accepts the table. */
  lemma EmptyFileRefused(a: Bytes, target: int, maxFile: int, sha: Digest, blobOf: int -> int, f: seq<Row>)
    requires CollisionFree(sha) && 0 < |a| <= 8 && |a| <= maxFile && |a| <= target
    requires Renders(f, Built(WithEmpty(a, sha), target, maxFile, By(AscendingGreedy), sha).files, blobOf)
    ensures !AcceptedV2(f) && !AcceptedV3(f) && !AcceptedV4(f)
  {
    hide RefsOf, Packs, Built, AcceptedV2, AcceptedV3, AcceptedV4, OffsetsAreSums, NamedBy, Renders, Site;
    var st := WithEmpty(a, sha);
    var x, y := Item(sha([]), []), Item(sha(a), a);
    var groups := [[x, y]];
    EmptyPack(a, target, maxFile, sha);
    BuildSite(st, target, maxFile, By(AscendingGreedy), sha, blobOf, f);
    OneRowIs(RefsOf(st.files), sha(a));
    assert groups[0][0] == x && groups[0][1] == y && 1 in NamedBy(RefsOf(st.files), x.digest);
    assert !Orderly(groups[0], RefsOf(st.files));
    DisorderRefused(st, groups, sha, blobOf, f, 0);
    AcceptedV2Exact(f);
    AcceptanceV3.AcceptanceChain(f);
  }

  // ----- Packed before

  /** Any build in which a pack's rows are a run between two rows of one pack that was there before. */
  lemma ArchivesStraddle(
    st: State, target: int, maxFile: int, policy: Policy, sha: Digest, blobOf: int -> int, f: seq<Row>,
    i: nat, j: nat, k: nat)
    requires Digested(st.cands, sha)
    requires Renders(f, Built(st, target, maxFile, policy, sha).files, blobOf)
    requires DistinctIds(st.files, Packs(st, target, maxFile, policy), sha, blobOf)
    requires i < |st.files| && j < |st.files| && k < |Packs(st, target, maxFile, policy)|
    requires st.files[i].ref.PackRef? && st.files[j].ref.PackRef? && st.files[i].ref.h == st.files[j].ref.h
    requires var rows := PackRows(Packs(st, target, maxFile, policy)[k], RefsOf(st.files));
             Contiguous(rows) && i < MinOf(rows) < j
    ensures !AcceptedV4(f)
  {
    hide RefsOf, Packs, Built, Renders, DistinctIds, OffsetsAreSums, AcceptedV2, AcceptedV4, AllOrderly, Earlier,
         EarlierRows, Contiguous, PackRows, MinOf, LastOf, Pack, FileIndices;
    var groups, before := Packs(st, target, maxFile, policy), Earlier(st.files, blobOf);
    var rows := PackRows(groups[k], RefsOf(st.files));
    var lists := EarlierRows(st.files, blobOf) + NewRows(groups, RefsOf(st.files));
    BuiltAcceptedExact(st, target, maxFile, policy, sha, blobOf, f);
    EarlierExact(st.files, blobOf);
    EarlierLists(st.files, blobOf);
    var s, t := EarlierSlot(st.files, blobOf, i), EarlierSlot(st.files, blobOf, j);
    var m := FileIndices(Pack(before, s.blob));
    assert NewRows(groups, RefsOf(st.files))[k] == rows;
    assert rows in lists && m in lists;
    ListedEnds(before, s, t);
    assert MinOf(m) < MinOf(rows) && !(LastOf(m) < MinOf(rows));
  }

  function EarlierSlot(files: seq<FileRow>, blobOf: int -> int, i: nat): Slot
    requires i < |files| && files[i].ref.PackRef?
  {
    Slot(i, blobOf(files[i].ref.h), files[i].ref.off, files[i].ref.len)
  }

  lemma ListedEnds(slots: seq<Slot>, s: Slot, t: Slot)
    requires FileAscending(slots) && s in slots && t in slots && s.blob == t.blob
    ensures var m := FileIndices(Pack(slots, s.blob)); MinOf(m) <= s.fi && t.fi <= LastOf(m)
  {
    hide Pack, MinOf;
    var p := Pack(slots, s.blob);
    PackOrder(slots, s.blob);
    var a :| 0 <= a < |p| && p[a] == s;
    var b :| 0 <= b < |p| && p[b] == t;
    assert FileIndices(p)[a] == s.fi && FileIndices(p)[b] == t.fi;
    assert s.fi in FileIndices(p) && t.fi in FileIndices(p);
    MinOfExact(FileIndices(p));
    AcceptanceV4.MaxOfExact(FileIndices(p));
  }

  /** Eight nested archives, packed together by the scan, four before and four after a text file. */
  function Archives(h: int, text: Bytes, sha: Digest): seq<FileRow> {
    seq(9, i requires 0 <= i < 9 =>
      if i < 4 then FileRow(K_FILE, PackRef(h, 22 * i, 22))
      else if i == 4 then Stored(text, sha)
      else FileRow(K_FILE, PackRef(h, 22 * (i - 1), 22)))
  }

  function Surrounded(container: Bytes, text: Bytes, sha: Digest): State {
    State(Archives(sha(container), text, sha),
          map[sha(container) := Candidate(container, {CONTAINER_HINT}, map[]), sha(text) := Text(text, 0)])
  }

  lemma SurroundedPack(container: Bytes, text: Bytes, target: int, maxFile: int, policy: Policy, sha: Digest)
    requires CollisionFree(sha) && Greedy(policy)
    requires container != text && |text| <= maxFile && |text| <= target
    ensures Packs(Surrounded(container, text, sha), target, maxFile, policy) == [[Item(sha(text), text)]]
    ensures NamedBy(RefsOf(Archives(sha(container), text, sha)), sha(text)) == [4]
  {
    hide RefsOf, EligibleItems, BucketsOf, Packs, Wanted, ExtOf, Plan, Law, NamedBy;
    var st := Surrounded(container, text, sha);
    var x := Item(sha(text), text);
    var items := EligibleItems(RefsOf(st.files), st.cands, maxFile);
    assert sha(container) != sha(text);
    TextIsWanted(st.cands, text, 0, maxFile, sha);
    EligibleExact(st, maxFile);
    OnlyNamed(st.files, 4);
    assert st.files[4] in st.files;
    assert Has(items, x.digest);
    forall it ensures it in items <==> it in [x] {
      if it in items {
        assert Has(items, it.digest);
      }
    }
    SameElements(items, [x]);
    MembersMatch(items, [x]);
    OneBucket(st, maxFile, 0);
    OneBucketPacks(st, target, maxFile, policy);
    LoneLaw(x, target);
    LoneIsOnePack(BucketsOf(st, maxFile)[0].members, x, RefsOf(st.files), target, policy);
  }

  /** Slices of 22 bytes each, one after another. */
  lemma {:induction false} EvenTiles(slots: seq<Slot>, first: nat)
    requires forall k :: 0 <= k < |slots| ==> slots[k].off == 22 * (first + k) && slots[k].len == 22
    ensures Tiles(slots, 22 * first)
  {
    if slots != [] {
      EvenTiles(slots[1..], first + 1);
    }
  }

  function ArchiveSlots(blob: int): seq<Slot> {
    seq(8, k requires 0 <= k < 8 => Slot(if k < 4 then k else k + 1, blob, 22 * k, 22))
  }

  lemma ArchivesAddUp(h: int, text: Bytes, sha: Digest, blobOf: int -> int)
    ensures OffsetsAreSums(Earlier(Archives(h, text, sha), blobOf))
  {
    hide Earlier, Tiles, Pack, OffsetsAreSums;
    var files, blob := Archives(h, text, sha), blobOf(h);
    var before, slots := Earlier(files, blobOf), ArchiveSlots(blob);
    EarlierExact(files, blobOf);
    forall s ensures s in before <==> s in slots {
      if s in before {
        assert slots[if s.fi < 4 then s.fi else s.fi - 1] == s;
      }
    }
    EvenTiles(slots, 0);
    forall b ensures Tiles(Pack(before, b), 0) {
      if b == blob {
        PhysicalOrder(before, slots, b);
      } else {
        OnlyBlob(before, blob, b);
      }
    }
    TiledIsSums(before);
  }

  lemma OnlyBlob(slots: seq<Slot>, blob: int, b: int)
    requires b != blob && forall s :: s in slots ==> s.blob == blob
    ensures Tiles(Pack(slots, b), 0)
  {
    WithKeyNone(slots, BlobOf, b);
  }

  /** Eight archives around one text file, under any greedy policy, stable order included: v2 accepts the
      table and v4 refuses it. */
  lemma EightArchivesRefused(
    container: Bytes, text: Bytes, target: int, maxFile: int, policy: Policy, sha: Digest, blobOf: int -> int,
    f: seq<Row>)
    requires CollisionFree(sha) && Greedy(policy) && |container| == 8 * 22
    requires text != [] && container != text && |text| <= maxFile && |text| <= target
    requires blobOf(sha(container)) != blobOf(sha(text))
    requires Renders(f, Built(Surrounded(container, text, sha), target, maxFile, policy, sha).files, blobOf)
    ensures AcceptedV2(f) && !AcceptedV4(f)
  {
    hide RefsOf, Packs, Built, AcceptedV2, AcceptedV4, OffsetsAreSums, Apart, NamedBy, Orderly, PackRows, Concat,
         Renders, Earlier, EarlierRows, MinOf;
    var st := Surrounded(container, text, sha);
    var x := Item(sha(text), text);
    var groups := [[x]];
    SurroundedPack(container, text, target, maxFile, policy, sha);
    ArchivesAddUp(sha(container), text, sha, blobOf);
    ConcatLone(x);
    NoneEmptyOrderly([x], RefsOf(st.files));
    RowsOfPair(x, x, RefsOf(st.files));
    assert PackDigest(groups, 0, sha) == sha(text) && BlobsOf(groups, sha, blobOf)[0] == blobOf(sha(text));
    LoneRun(4);
    BuiltAcceptedExact(st, target, maxFile, policy, sha, blobOf, f);
    ArchivesStraddle(st, target, maxFile, policy, sha, blobOf, f, 3, 5, 0);
  }

  lemma LoneRun(i: int)
    ensures Contiguous([i]) && MinOf([i]) == i
  {
    assert [i] == Range(i, 1);
  }
}
