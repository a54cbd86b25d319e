/** Which contents a build packs and how, told by the file table and the store alone. */
module BuildMeaning {
  import opened Sorting
  import opened Grouping
  import opened ByteLayout
  import opened LocalityPack
  import opened MicroPackBuilder
  import opened PackRun
  import opened PackStrategies
  import opened Storages
  import opened StrategyMeaning
  import PolicyThenCodec

  // ----- Eligible contents

  /** A regular file that is stored as the content `h`. */
  ghost predicate Holds(row: FileRow, h: int) {
    row.kind == 0 && row.ref.BlobRef? && row.ref.h == h
  }

  /** Stored, never met as a Deflate stream, within the bound, with a text extension, and named by a regular file. */
  ghost predicate Packable(st: State, maxFile: int, h: int) {
    && h in st.cands && st.cands[h].deflates.Keys == {} && |st.cands[h].raw| <= maxFile
    && (exists x :: x in st.cands[h].hints && x >= 0)
    && exists row :: row in st.files && Holds(row, h)
  }

  /** The first of the content's text extensions. */
  ghost predicate ExtensionIs(cands: Store, h: int, e: int) {
    h in cands && e in cands[h].hints && e >= 0 && forall x :: x in cands[h].hints && x >= 0 ==> e <= x
  }

  lemma NoKeys(m: map<int, (Bytes, nat)>)
    ensures m.Keys == {} <==> m == map[]
  {
    assert m.Keys == {} ==> forall k :: k !in m;
  }

  lemma PackableExact(st: State, maxFile: int)
    ensures var items := EligibleItems(RefsOf(st.files), st.cands, maxFile);
            && Sound(items, st.cands)
            && forall h :: Has(items, h) <==> Packable(st, maxFile, h)
  {
    hide RefsOf, EligibleItems, Sound, Has;
    EligibleExact(st, maxFile);
    var items := EligibleItems(RefsOf(st.files), st.cands, maxFile);
    forall h ensures Has(items, h) <==> Packable(st, maxFile, h) {
      if h in st.cands {
        NoKeys(st.cands[h].deflates);
      }
      assert forall row :: row in st.files ==> (Holds(row, h) <==> IsMention(row) && row.ref.h == h);
    }
  }

  // ----- By extension

  /** The packable contents of one extension, each once. */
  ghost predicate IsBucket(items: seq<Item>, e: int, st: State, maxFile: int) {
    && items != [] && Sound(items, st.cands)
    && forall h :: Has(items, h) <==> Packable(st, maxFile, h) && ExtensionIs(st.cands, h, e)
  }

  lemma {:induction false} WithKeyDistinct(xs: seq<Item>, keyOf: Item -> int, key: int)
    requires DistinctDigests(xs)
    ensures DistinctDigests(WithKey(xs, keyOf, key))
  {
    if xs != [] {
      var init, last := xs[..|xs| - 1], xs[|xs| - 1];
      WithKeyDistinct(init, keyOf, key);
      var before := WithKey(init, keyOf, key);
      forall i | 0 <= i < |before| ensures before[i].digest != last.digest {
        assert before[i] in init;
      }
    }
  }

  lemma ExtensionExact(it: Item, cands: Store, e: int)
    requires it.digest in cands && HasText(cands[it.digest].hints)
    ensures ExtOf(cands)(it) == e <==> ExtensionIs(cands, it.digest, e)
  {
  }

  lemma BucketIs(st: State, maxFile: int, g: Bucket<Item>)
    requires g in BucketsOf(st, maxFile)
    ensures IsBucket(g.members, g.key, st, maxFile)
  {
    hide RefsOf, EligibleItems, Sort, GroupBy, Packable, ExtensionIs, ExtOf;
    var items := EligibleItems(RefsOf(st.files), st.cands, maxFile);
    var ext := ExtOf(st.cands);
    PackableExact(st, maxFile);
    GroupByGroups(items, ext);
    SortGrouped(GroupBy(items, ext), items, ext, BucketKey);
    WithKeyDistinct(items, ext, g.key);
    forall h ensures Has(g.members, h) <==> Packable(st, maxFile, h) && ExtensionIs(st.cands, h, g.key) {
      if it :| it in items && it.digest == h {
        TextOfPackable(st, maxFile, h);
        ExtensionExact(it, st.cands, g.key);
        SameItem(items, it);
        assert it in g.members <==> ext(it) == g.key;
      }
    }
  }

  lemma TextOfPackable(st: State, maxFile: int, h: int)
    ensures Packable(st, maxFile, h) ==> h in st.cands && HasText(st.cands[h].hints)
  {
  }

  lemma SameItem(items: seq<Item>, it: Item)
    requires DistinctDigests(items) && it in items
    ensures forall x :: x in items && x.digest == it.digest ==> x == it
  {
  }

  /** The guard of a pack: it has at most eight times as many bytes as each of its members, an empty one
      counting as one byte. */
  lemma LocalityMeans(rows: seq<Item>)
    ensures LocalityHolds(rows) <==>
            forall it :: it in rows ==> |Concat(rows)| <= 8 * (if |it.raw| == 0 then 1 else |it.raw|)
  {
    ConcatLength(rows);
  }

  // ----- Order

  /** Wherever a regular file holds `y`, one holds `x` there or before. */
  ghost predicate AppearsBy(files: seq<FileRow>, x: int, y: int) {
    forall r :: 0 <= r < |files| && Holds(files[r], y) ==> HeldBy(files, x, r)
  }

  ghost predicate HeldBy(files: seq<FileRow>, x: int, r: int) {
    exists q :: 0 <= q <= r && q < |files| && Holds(files[q], x)
  }

  /** In order of the first row, cut only where the next content could not join. */
  ghost predicate StablyPacked(groups: seq<seq<Item>>, items: seq<Item>, files: seq<FileRow>, target: int) {
    var flat := Flatten(groups);
    && multiset(flat) == multiset(items) && Greedily(groups, target)
    && forall i, j | 0 <= i < j < |flat| :: AppearsBy(files, flat[i].digest, flat[j].digest)
  }

  ghost predicate AllHeld(items: seq<Item>, files: seq<FileRow>) {
    forall it :: it in items ==> HeldBy(files, it.digest, |files| - 1)
  }

  /** The key of the stable order is the first row that holds the content. */
  lemma FirstRowExact(files: seq<FileRow>, it: Item) returns (r: nat)
    requires HeldBy(files, it.digest, |files| - 1)
    ensures StableKey(RefsOf(files))(it) == (r, it.digest, 0)
    ensures r < |files| && Holds(files[r], it.digest)
    ensures forall q :: 0 <= q < |files| && Holds(files[q], it.digest) ==> r <= q
  {
    hide RefsOf, Lookup, MinOf;
    var h := it.digest;
    var ms := Lookup(RefsOf(files), h);
    LookupExact(files, h);
    var rows := RowsOf(ms);
    forall q | 0 <= q < |files| && Holds(files[q], h) ensures q in rows {
      assert Mention(q, h) in ms;
      var k :| 0 <= k < |ms| && ms[k] == Mention(q, h);
      assert rows[k] == q;
    }
    PolicyThenCodec.MinOfExact(rows);
    var k :| 0 <= k < |rows| && rows[k] == MinOf(rows);
    assert ms[k] in ms;
    r := MinOf(rows);
  }

  lemma StableMeans(items: seq<Item>, files: seq<FileRow>, target: int)
    requires AllHeld(items, files)
    ensures StablyPacked(StableGroups(items, RefsOf(files), target), items, files, target)
  {
    hide RefsOf, StableKey, Greedily, Holds, Sort;
    var key := StableKey(RefsOf(files));
    var flat := Sort(items, key);
    SortAscends(items, key);
    CutGreedily(flat, target);
    MembersMatch(flat, items);
    forall i, j | 0 <= i < j < |flat| ensures AppearsBy(files, flat[i].digest, flat[j].digest) {
      assert flat[i] in items && flat[j] in items;
      var a := FirstRowExact(files, flat[i]);
      var b := FirstRowExact(files, flat[j]);
      assert Le(key(flat[i]), key(flat[j]));
    }
  }

  // ----- All packs

  /** The packs of one extension. */
  ghost predicate IsPacked(groups: seq<seq<Item>>, items: seq<Item>, files: seq<FileRow>, target: int, policy: Policy) {
    match policy
    case By(strategy) => groups == GroupsBy(items, target, strategy)
    case Stable => StablyPacked(groups, items, files, target)
  }

  lemma {:induction false} PlanAllIsFlat(buckets: seq<Bucket<Item>>, refs: Refs, target: int, policy: Policy)
    ensures PlanAll(buckets, refs, target, policy) == Flatten(PlansOf(buckets, refs, target, policy))
  {
    hide Plan;
    if buckets != [] {
      var init, last := buckets[..|buckets| - 1], buckets[|buckets| - 1];
      PlanAllIsFlat(init, refs, target, policy);
      var plan := Plan(last.members, refs, target, policy);
      assert PlansOf(buckets, refs, target, policy) == PlansOf(init, refs, target, policy) + [plan];
      FlattenAppend(PlansOf(init, refs, target, policy), [plan]);
      assert [plan][1..] == [] && plan + [] == plan;
    }
  }

  ghost function PlansOf(buckets: seq<Bucket<Item>>, refs: Refs, target: int, policy: Policy): (r: seq<seq<seq<Item>>>)
    ensures |r| == |buckets|
  {
    seq(|buckets|, k requires 0 <= k < |buckets| => Plan(buckets[k].members, refs, target, policy))
  }

  lemma HeldByFile(files: seq<FileRow>, h: int)
    requires exists row :: row in files && Holds(row, h)
    ensures HeldBy(files, h, |files| - 1)
  {
    var row :| row in files && Holds(row, h);
    var q :| 0 <= q < |files| && files[q] == row;
  }

  lemma BucketHeld(items: seq<Item>, e: int, st: State, maxFile: int)
    requires IsBucket(items, e, st, maxFile)
    ensures AllHeld(items, st.files)
  {
    forall it | it in items ensures HeldBy(st.files, it.digest, |st.files| - 1) {
      assert Has(items, it.digest);
      HeldByFile(st.files, it.digest);
    }
  }

  /** The packs are those of every extension, in order of the extensions. A strategy groups the packable
      contents of each; the stable packer takes them as the file table names them. */
  lemma PacksByExtension(st: State, target: int, maxFile: int, policy: Policy)
    returns (exts: seq<int>, members: seq<seq<Item>>, parts: seq<seq<seq<Item>>>)
    ensures |exts| == |members| == |parts| && Packs(st, target, maxFile, policy) == Flatten(parts)
    ensures forall i, j | 0 <= i < j < |exts| :: exts[i] < exts[j]
    ensures forall k :: 0 <= k < |exts| ==>
              IsBucket(members[k], exts[k], st, maxFile) && IsPacked(parts[k], members[k], st.files, target, policy)
    ensures forall h :: Packable(st, maxFile, h) ==> exists k :: 0 <= k < |exts| && ExtensionIs(st.cands, h, exts[k])
  {
    hide RefsOf, BucketsOf, Plan, Packable, ExtensionIs, IsBucket, StablyPacked;
    var buckets := BucketsOf(st, maxFile);
    exts := seq(|buckets|, k requires 0 <= k < |buckets| => buckets[k].key);
    members := seq(|buckets|, k requires 0 <= k < |buckets| => buckets[k].members);
    parts := PlansOf(buckets, RefsOf(st.files), target, policy);
    PlanAllIsFlat(buckets, RefsOf(st.files), target, policy);
    ExtensionsAscend(st, maxFile);
    forall k | 0 <= k < |exts|
      ensures IsBucket(members[k], exts[k], st, maxFile) && IsPacked(parts[k], members[k], st.files, target, policy)
    {
      assert buckets[k] in buckets;
      BucketIs(st, maxFile, buckets[k]);
      PlanIs(members[k], exts[k], st, target, maxFile, policy);
    }
    forall h | Packable(st, maxFile, h) ensures exists k :: 0 <= k < |exts| && ExtensionIs(st.cands, h, exts[k]) {
      var k := BucketOf(st, maxFile, h);
      assert exts[k] == buckets[k].key;
    }
  }

  lemma PlanIs(items: seq<Item>, e: int, st: State, target: int, maxFile: int, policy: Policy)
    requires IsBucket(items, e, st, maxFile)
    ensures IsPacked(Plan(items, RefsOf(st.files), target, policy), items, st.files, target, policy)
  {
    hide IsBucket, StablyPacked, GroupsBy, RefsOf;
    BucketHeld(items, e, st, maxFile);
    StableMeans(items, st.files, target);
  }

  lemma ExtensionsAscend(st: State, maxFile: int)
    ensures var buckets := BucketsOf(st, maxFile);
            forall i, j | 0 <= i < j < |buckets| :: buckets[i].key < buckets[j].key
  {
    hide RefsOf, EligibleItems, GroupBy, Sort, ExtOf;
    var items, ext := EligibleItems(RefsOf(st.files), st.cands, maxFile), ExtOf(st.cands);
    var buckets := BucketsOf(st, maxFile);
    GroupByGroups(items, ext);
    SortGrouped(GroupBy(items, ext), items, ext, BucketKey);
    SortAscends(GroupBy(items, ext), BucketKey);
    forall i, j | 0 <= i < j < |buckets| ensures buckets[i].key < buckets[j].key {
      assert Le(BucketKey(buckets[i]), BucketKey(buckets[j]));
    }
  }

  lemma BucketOf(st: State, maxFile: int, h: int) returns (k: nat)
    requires Packable(st, maxFile, h)
    ensures k < |BucketsOf(st, maxFile)| && ExtensionIs(st.cands, h, BucketsOf(st, maxFile)[k].key)
  {
    hide RefsOf, EligibleItems, GroupBy, Sort, ExtOf, Packable, ExtensionIs;
    var items, ext := EligibleItems(RefsOf(st.files), st.cands, maxFile), ExtOf(st.cands);
    var buckets := BucketsOf(st, maxFile);
    PackableExact(st, maxFile);
    GroupByGroups(items, ext);
    SortGrouped(GroupBy(items, ext), items, ext, BucketKey);
    assert Has(items, h);
    var it :| it in items && it.digest == h;
    TextOfPackable(st, maxFile, h);
    assert HasKey(buckets, ext(it));
    var g :| g in buckets && g.key == ext(it);
    k :| 0 <= k < |buckets| && buckets[k] == g;
    ExtensionExact(it, st.cands, g.key);
  }

  // ----- Hints

  /** Every pack that is in the store has the hint of packs. */
  ghost predicate Marked(groups: seq<seq<Item>>, cands: Store, sha: Digest) {
    forall k :: 0 <= k < |groups| && PackDigest(groups, k, sha) in cands ==>
      PACK_HINT in cands[PackDigest(groups, k, sha)].hints
  }

  lemma {:induction false} PacksAreMarked(st: State, groups: seq<seq<Item>>, sha: Digest)
    ensures Marked(groups, Run(st, groups, sha).cands, sha)
  {
    if groups != [] {
      var n := |groups| - 1;
      PacksAreMarked(st, groups[..n], sha);
      var before, out := Run(st, groups[..n], sha).cands, Run(st, groups, sha).cands;
      StoredMarks(before, groups[n], Concat(groups[n]), sha(Concat(groups[n])));
      forall k | 0 <= k < |groups| && PackDigest(groups, k, sha) in out
        ensures PACK_HINT in out[PackDigest(groups, k, sha)].hints
      {
        assert k < n ==> PackDigest(groups[..n], k, sha) == PackDigest(groups, k, sha);
      }
    }
  }

  lemma StoredMarks(cands: Store, rows: seq<Item>, buf: Bytes, ph: int)
    ensures var out := Stored(cands, rows, buf, ph);
            && (ph in out ==> PACK_HINT in out[ph].hints)
            && forall h :: h in out && h != ph ==> h in cands && out[h] == cands[h]
  {
  }
}
