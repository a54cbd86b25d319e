/** Builds that lose a content: inputs on which packing drops bytes that another row still needs. */
module LostContents {
  import opened Results
  import opened Sorting
  import opened Finishing
  import opened Grouping
  import opened ByteLayout
  import opened GreedyCut
  import opened Kinds
  import opened LocalityPack
  import opened MicroPackBuilder
  import opened Numbers
  import opened PackRun
  import opened PackStrategies
  import opened SmallBuilds
  import opened Storages

  // ----- A content that something else names as well

  /** Two text contents of one extension that fit in one pack, each the storage of a regular row, the first
      perhaps with more hints than its extension; a third row of any other kind that names the first of
      them; and contents that are no text. */
  function Shared(a: Bytes, b: Bytes, hints: set<int>, other: FileRow, extra: Store, sha: Digest): State {
    State([FileRow(K_FILE, BlobRef(sha(a))), FileRow(K_FILE, BlobRef(sha(b))), other],
          extra[sha(a) := Candidate(a, hints, map[])][sha(b) := Candidate(b, {0}, map[])])
  }

  ghost predicate Sharing(
    a: Bytes, b: Bytes, hints: set<int>, other: FileRow, extra: Store, target: int, maxFile: int, policy: Policy,
    sha: Digest)
  {
    && CollisionFree(sha) && Digested(extra, sha) && StreamsDigested(extra, sha)
    && (forall h :: h in extra ==> !HasText(extra[h].hints) && sha(a) !in extra[h].deflates)
    && 0 in hints
    && a != b && a != [] && b != [] && |a| <= maxFile && |b| <= maxFile
    && WithinBounds([|a|, |b|], target) && Greedy(policy)
    && !IsMention(other) && sha(a) in Names(other.ref)
    && forall h :: h in Names(other.ref) ==> h in extra || h == sha(a) || h == sha(b)
  }

  /** The build packs the two contents together. */
  lemma SharedPack(
    a: Bytes, b: Bytes, hints: set<int>, other: FileRow, extra: Store, target: int, maxFile: int, policy: Policy,
    sha: Digest)
    returns (g: seq<Item>)
    requires Sharing(a, b, hints, other, extra, target, maxFile, policy, sha)
    ensures Packs(Shared(a, b, hints, other, extra, sha), target, maxFile, policy) == [g]
    ensures multiset(g) == multiset([Item(sha(a), a), Item(sha(b), b)])
  {
    hide Names, RefsOf, EligibleItems, Plan, Packs, BucketsOf, HasText;
    var st := Shared(a, b, hints, other, extra, sha);
    var x, y := Item(sha(a), a), Item(sha(b), b);
    var items := EligibleItems(RefsOf(st.files), st.cands, maxFile);
    EligiblePair(a, b, hints, other, extra, target, maxFile, policy, sha);
    MembersMatch(items, [x, y]);
    OneText();
    TextHints(hints, 0);
    OneBucket(st, maxFile, 0);
    OneBucketPacks(st, target, maxFile, policy);
    assert Sizes([x, y]) == [|a|, |b|];
    g := FittingIsOnePack(BucketsOf(st, maxFile)[0].members, [x, y], RefsOf(st.files), target, policy);
  }

  lemma EligiblePair(
    a: Bytes, b: Bytes, hints: set<int>, other: FileRow, extra: Store, target: int, maxFile: int, policy: Policy,
    sha: Digest)
    requires Sharing(a, b, hints, other, extra, target, maxFile, policy, sha)
    ensures var st := Shared(a, b, hints, other, extra, sha);
            multiset(EligibleItems(RefsOf(st.files), st.cands, maxFile))
            == multiset([Item(sha(a), a), Item(sha(b), b)])
  {
    hide Names, RefsOf, EligibleItems;
    var st := Shared(a, b, hints, other, extra, sha);
    var x, y := Item(sha(a), a), Item(sha(b), b);
    var items := EligibleItems(RefsOf(st.files), st.cands, maxFile);
    EligibleExact(st, maxFile);
    OneText();
    TextHints(hints, 0);
    assert st.files[0] in st.files && st.files[1] in st.files;
    assert Has(items, sha(a)) && Has(items, sha(b));
    forall it ensures it in items <==> it in [x, y] {
      if it in items {
        assert Has(items, it.digest);
      }
    }
    SameElements(items, [x, y]);
  }

  lemma RunOne(st: State, g: seq<Item>, sha: Digest)
    ensures Run(st, [g], sha) == PackOne(st, st.files, g, sha)
  {
    assert [g][..0] == [];
    assert Run(st, [], sha) == st;
  }

  /** The store after the one pack: no text, and no streams but those that were there. */
  lemma SharedStore(
    a: Bytes, b: Bytes, hints: set<int>, other: FileRow, extra: Store, target: int, maxFile: int, policy: Policy,
    sha: Digest, g: seq<Item>)
    requires Sharing(a, b, hints, other, extra, target, maxFile, policy, sha)
    requires multiset(g) == multiset([Item(sha(a), a), Item(sha(b), b)])
    ensures var cands := Run(Shared(a, b, hints, other, extra, sha), [g], sha).cands;
            && sha(a) !in cands
            && forall h :: h in cands ==> !HasText(cands[h].hints) && sha(a) !in cands[h].deflates
  {
    hide Names, Concat, HasText, Repointed;
    var st := Shared(a, b, hints, other, extra, sha);
    var x, y := Item(sha(a), a), Item(sha(b), b);
    var cands := Run(st, [g], sha).cands;
    RunOne(st, g, sha);
    PackLength(g, x, y);
    var ph := sha(Concat(g));
    assert ph != sha(a) && ph != sha(b);
    MembersMatch(g, [x, y]);
    assert x in [x, y] && y in [x, y];
    HasDigest(g, sha(a));
    HasDigest(g, sha(b));
    forall h | h in cands ensures !HasText(cands[h].hints) && sha(a) !in cands[h].deflates {
      PackHint(if h in extra then extra[h].hints else {});
      assert h == ph || (h in extra && cands[h] == extra[h]);
    }
  }

  lemma PackHint(hints: set<int>)
    ensures HasText(hints + {PACK_HINT}) <==> HasText(hints)
    ensures !HasText({})
  {
    if x :| x in hints && x >= 0 {
      assert x in hints + {PACK_HINT};
    }
  }

  /** The build loses the first content, and nothing puts it back before the digests are mapped: the third
      row, whatever its kind and storage, can no longer be read, and the archive cannot be written. */
  lemma SecondNameLosesContent(
    a: Bytes, b: Bytes, hints: set<int>, other: FileRow, extra: Store, target: int, maxFile: int, policy: Policy,
    sha: Digest, chosen: int -> int, min: int, train: Trainer, deflate: Deflate)
    requires Sharing(a, b, hints, other, extra, target, maxFile, policy, sha)
    ensures var st := Shared(a, b, hints, other, extra, sha);
            var out := Built(st, target, maxFile, policy, sha);
            var store := Finished(out.cands, chosen, min, train, sha);
            && Mapped(st.files, st.cands) && !Mapped(out.files, store)
            && out.files[2] == other
            && sha(a) !in store
            && Read(out.files, store, 2, deflate) == None
  {
    hide Packs, Run, Mapped, Finished, HasText, FromStore, Names, Assemble;
    var st := Shared(a, b, hints, other, extra, sha);
    var g := SharedPack(a, b, hints, other, extra, target, maxFile, policy, sha);
    var groups := [g];
    var out := Run(st, groups, sha);
    SharedIsMapped(a, b, hints, other, extra, target, maxFile, policy, sha);
    SharedStore(a, b, hints, other, extra, target, maxFile, policy, sha, g);
    PacksAreSound(st, target, maxFile, policy);
    StoreAfter(st, groups, sha);
    StreamsAfter(st, groups, sha);
    OnlyStreams(out.cands, chosen, min, train, sha, sha(a));
    assert !InGroups(other, groups);
    FilesAfter(st, groups, sha, 2);
    MissingIsUnread(out.files, Finished(out.cands, chosen, min, train, sha), 2, sha(a), deflate);
  }

  /** A row that names a digest which the store does not have. */
  lemma MissingIsUnread(files: seq<FileRow>, store: Store, i: nat, h: int, deflate: Deflate)
    requires i < |files| && h in Names(files[i].ref) && h !in store
    ensures !Mapped(files, store) && Read(files, store, i, deflate) == None
  {
    hide Assemble;
    assert files[i] in files;
    assert !files[i].ref.Link?;
  }

  lemma SharedIsMapped(
    a: Bytes, b: Bytes, hints: set<int>, other: FileRow, extra: Store, target: int, maxFile: int, policy: Policy,
    sha: Digest)
    requires Sharing(a, b, hints, other, extra, target, maxFile, policy, sha)
    ensures var st := Shared(a, b, hints, other, extra, sha);
            Digested(st.cands, sha) && StreamsDigested(st.cands, sha) && Mapped(st.files, st.cands)
  {
    hide HasText;
  }

  /** A symbolic link whose target text is the content of a small text file. */
  lemma SymlinkLosesContent(
    a: Bytes, b: Bytes, target: int, maxFile: int, policy: Policy, sha: Digest, chosen: int -> int, min: int,
    train: Trainer, deflate: Deflate)
    returns (st: State)
    requires CollisionFree(sha) && Greedy(policy)
    requires a != b && a != [] && b != [] && |a| <= maxFile && |b| <= maxFile && WithinBounds([|a|, |b|], target)
    ensures st == State([FileRow(K_FILE, BlobRef(sha(a))), FileRow(K_FILE, BlobRef(sha(b))),
                         FileRow(K_SYMLINK, BlobRef(sha(a)))],
                        map[sha(a) := Candidate(a, {0, SYMLINK_HINT}, map[]), sha(b) := Candidate(b, {0}, map[])])
    ensures var out := Built(st, target, maxFile, policy, sha);
            var store := Finished(out.cands, chosen, min, train, sha);
            && Read(st.files, st.cands, 2, deflate) == Some(a)
            && Read(out.files, store, 2, deflate) == None
            && !Mapped(out.files, store)
  {
    hide Built, Finished, WithinBounds, Mapped;
    var other := FileRow(K_SYMLINK, BlobRef(sha(a)));
    st := Shared(a, b, {0, SYMLINK_HINT}, other, map[], sha);
    assert sha(a) in [sha(a)];
    SecondNameLosesContent(a, b, {0, SYMLINK_HINT}, other, map[], target, maxFile, policy, sha, chosen, min, train,
                           deflate);
    assert sha(a) != sha(b);
  }

  /** A nested ZIP, of any skeleton, whose stored member is the content of a small text file. */
  lemma StoredMemberLosesContent(
    a: Bytes, b: Bytes, hints: set<int>, skeleton: Bytes, before: nat, after: nat, target: int, maxFile: int,
    policy: Policy, sha: Digest, chosen: int -> int, min: int, train: Trainer, deflate: Deflate)
    returns (st: State)
    requires CollisionFree(sha) && Greedy(policy) && 0 in hints
    requires a != b && a != [] && b != [] && |a| <= maxFile && |b| <= maxFile && WithinBounds([|a|, |b|], target)
    requires skeleton != a && skeleton != b && |skeleton| == before + after
    ensures st == State([FileRow(K_FILE, BlobRef(sha(a))), FileRow(K_FILE, BlobRef(sha(b))),
                         FileRow(K_FILE, Recipe(sha(skeleton), [before, after], [Member(sha(a), true, -1)]))],
                        map[sha(skeleton) := Candidate(skeleton, {SKELETON_HINT}, map[]),
                            sha(a) := Candidate(a, hints, map[]), sha(b) := Candidate(b, {0}, map[])])
    ensures var out := Built(st, target, maxFile, policy, sha);
            var store := Finished(out.cands, chosen, min, train, sha);
            && Read(st.files, st.cands, 2, deflate) == Some(skeleton[..before] + a + skeleton[before..])
            && Read(out.files, store, 2, deflate) == None
            && !Mapped(out.files, store)
  {
    hide Built, Finished, WithinBounds, Mapped;
    var member := Member(sha(a), true, -1);
    var other := FileRow(K_FILE, Recipe(sha(skeleton), [before, after], [member]));
    var extra: Store := map[sha(skeleton) := Candidate(skeleton, {SKELETON_HINT}, map[])];
    st := Shared(a, b, hints, other, extra, sha);
    assert MemberDigests([member]) == [sha(a)];
    assert Names(other.ref) == [sha(skeleton), sha(a)];
    assert sha(a) in Names(other.ref);
    assert sha(skeleton) != sha(a) && sha(skeleton) != sha(b) && sha(a) != sha(b);
    SecondNameLosesContent(a, b, hints, other, extra, target, maxFile, policy, sha, chosen, min, train, deflate);
    StoredMemberReads(sha(skeleton), member, before, after, st.cands, deflate);
  }

  lemma StoredMemberReads(skeleton: int, member: Member, before: nat, after: nat, cands: Store, deflate: Deflate)
    requires skeleton in cands && |cands[skeleton].raw| == before + after
    requires member.stored && member.h in cands
    ensures Resolve(FileRow(K_FILE, Recipe(skeleton, [before, after], [member])), cands, deflate)
            == Some(cands[skeleton].raw[..before] + cands[member.h].raw + cands[skeleton].raw[before..])
  {
    var ref := Recipe(skeleton, [before, after], [member]);
    var sk, raw := cands[skeleton].raw, cands[member.h].raw;
    assert Names(ref) == [skeleton, member.h];
    var parts := Contents(Names(ref), cands).value;
    assert parts == [sk, raw];
    var streams := Streams([member], parts[1..], deflate);
    assert streams == [raw];
    var rest := sk[before..];
    var tail := Weave(rest, [after], []);
    assert tail == rest[..after] == rest;
    assert streams[1..] == [] && [before, after][1..] == [after];
    assert Weave(sk, [before, after], streams) == sk[..before] + raw + tail;
    assert Assemble(ref, parts, deflate) == Some(Weave(parts[0], [before, after], streams));
  }

  // ----- A pack that spells a later member

  /** Four text contents of one extension, each the storage of a regular row; the third is the first two
      joined, and the fourth is as long. */
  function Spelling(x: Bytes, y: Bytes, w: Bytes, sha: Digest): State {
    State([FileRow(K_FILE, BlobRef(sha(x))), FileRow(K_FILE, BlobRef(sha(y))),
           FileRow(K_FILE, BlobRef(sha(x + y))), FileRow(K_FILE, BlobRef(sha(w)))],
          map[sha(x) := Candidate(x, {0}, map[]), sha(y) := Candidate(y, {0}, map[]),
              sha(x + y) := Candidate(x + y, {0}, map[]), sha(w) := Candidate(w, {0}, map[])])
  }

  ghost predicate Spelled(x: Bytes, y: Bytes, w: Bytes, target: int, maxFile: int, sha: Digest) {
    && CollisionFree(sha)
    && 3 * |x| < |y| <= 7 * |x| && |w| == |x| + |y| && w != x + y
    && |w| <= maxFile && 2 * |w| <= target
  }

  function FourItems(x: Bytes, y: Bytes, w: Bytes, sha: Digest): (r: seq<Item>)
    ensures |r| == 4
  {
    [Item(sha(x), x), Item(sha(y), y), Item(sha(x + y), x + y), Item(sha(w), w)]
  }

  lemma FourDigests(x: Bytes, y: Bytes, w: Bytes, target: int, maxFile: int, sha: Digest)
    requires Spelled(x, y, w, target, maxFile, sha)
    ensures sha(x) != sha(y) && sha(x) != sha(x + y) && sha(x) != sha(w)
    ensures sha(y) != sha(x + y) && sha(y) != sha(w) && sha(x + y) != sha(w)
  {
    assert |x + y| == |x| + |y|;
    assert x != y && x != x + y && x != w && y != x + y && y != w;
  }

  lemma SpellingHolds(x: Bytes, y: Bytes, w: Bytes, target: int, maxFile: int, sha: Digest)
    requires Spelled(x, y, w, target, maxFile, sha)
    ensures var st, four := Spelling(x, y, w, sha), FourItems(x, y, w, sha);
            && DistinctDigests(four) && |st.files| == |four|
            && forall k :: 0 <= k < |four| ==>
                 && st.files[k] == FileRow(K_FILE, BlobRef(four[k].digest)) && Size(four[k]) <= maxFile
                 && four[k].digest in st.cands && st.cands[four[k].digest] == Candidate(four[k].raw, {0}, map[])
  {
    hide CollisionFree;
    FourDigests(x, y, w, target, maxFile, sha);
  }

  lemma EligibleFour(x: Bytes, y: Bytes, w: Bytes, target: int, maxFile: int, sha: Digest)
    requires Spelled(x, y, w, target, maxFile, sha)
    ensures var st, four := Spelling(x, y, w, sha), FourItems(x, y, w, sha);
            var items := EligibleItems(RefsOf(st.files), st.cands, maxFile);
            && multiset(items) == multiset(four)
            && forall it :: it in items ==> ExtOf(st.cands)(it) == 0
  {
    hide RefsOf, EligibleItems, Spelled, Spelling, FourItems, HasText;
    var st, four := Spelling(x, y, w, sha), FourItems(x, y, w, sha);
    SpellingHolds(x, y, w, target, maxFile, sha);
    OneText();
    EligibleAre(st, maxFile, four);
    MembersMatch(EligibleItems(RefsOf(st.files), st.cands, maxFile), four);
  }

  /** The bounds admit x with y, nothing more, and the other two together. */
  lemma SpellingBounds(m: nat, n: nat, target: int)
    requires 3 * m < n <= 7 * m && 2 * (m + n) <= target
    ensures WithinBounds([m, n], target) && !WithinBounds([m, n, m + n], target)
    ensures WithinBounds([m + n, m + n], target)
  {
    TotalPair(m, n);
    TotalPair(m + n, m + n);
    var three: seq<int> := [m, n, m + n];
    assert three[1..] == [n, m + n];
    TotalPair(n, m + n);
    assert Total(three) == m + n + (m + n);
    var sizes: seq<nat> := [m, n, m + n];
    LeastExact([m, n]);
    LeastExact(sizes);
    assert sizes[0] in sizes;
    LeastExact([m + n, m + n]);
  }

  lemma CutTwoPacks(a: Item, b: Item, p: Item, q: Item, law: seq<Item> -> bool)
    requires law([a, b]) && !law([a, b, p]) && law([p, q])
    ensures Cut([a, b, p, q], law) == [[a, b], [p, q]]
  {
    hide CutFrom;
    var none: seq<Item> := [];
    assert [a] + [b] == [a, b] && [a, b] + [p] == [a, b, p] && [p] + [q] == [p, q];
    assert [a, b, p, q] == [a] + [b, p, q] && [b, p, q] == [b] + [p, q] && [q] == [q] + none;
    CutOpens(a, [b, p, q], law);
    CutTakes([a], b, [p, q], law);
    CutCloses([a, b], p, [q], law);
    CutTakes([p], q, [], law);
    CutEndsWith([p, q], law);
  }

  /** The ascending packer puts the first two contents in one pack and the others in the next. */
  lemma SpellingPacks(x: Bytes, y: Bytes, w: Bytes, target: int, maxFile: int, sha: Digest)
    returns (later: seq<Item>)
    requires Spelled(x, y, w, target, maxFile, sha)
    ensures Packs(Spelling(x, y, w, sha), target, maxFile, By(AscendingGreedy)) ==
            [[Item(sha(x), x), Item(sha(y), y)], later]
    ensures multiset(later) == multiset([Item(sha(x + y), x + y), Item(sha(w), w)])
  {
    hide RefsOf, EligibleItems, Packs, BucketsOf, HasText, WithinBounds, CollisionFree, AscendingGroups, Le, Sort;
    var st, four := Spelling(x, y, w, sha), FourItems(x, y, w, sha);
    var items := EligibleItems(RefsOf(st.files), st.cands, maxFile);
    EligibleFour(x, y, w, target, maxFile, sha);
    MembersMatch(items, four);
    OneBucket(st, maxFile, 0);
    OneBucketPacks(st, target, maxFile, By(AscendingGreedy));
    assert four == [four[0]] + ([four[1]] + [four[2], four[3]]);
    later := SpellingCut(BucketsOf(st, maxFile)[0].members, four[0], four[1], four[2], four[3], target);
  }

  lemma SpellingCut(members: seq<Item>, a: Item, b: Item, c: Item, d: Item, target: int)
    returns (later: seq<Item>)
    requires multiset(members) == multiset([a] + ([b] + [c, d]))
    requires 3 * Size(a) < Size(b) <= 7 * Size(a) && 2 * (Size(a) + Size(b)) <= target
    requires Size(c) == Size(d) == Size(a) + Size(b)
    ensures AscendingGroups(members, target) == [[a, b], later]
    ensures multiset(later) == multiset([c, d])
  {
    hide Cut, Sort, AscendingKey, Le, Law, Size, Ascending;
    LargerIsLater(b, [c, d]);
    LargerIsLater(a, [b] + [c, d]);
    SortAscends(members, AscendingKey);
    later := LeastTwo(Sort(members, AscendingKey), a, b, [c, d], AscendingKey);
    PairInEitherOrder(later, c, d);
    CutBySize(a, b, later, target);
  }

  /** An order that starts with its two least elements. */
  lemma LeastTwo<T>(s: seq<T>, a: T, b: T, rest: seq<T>, key: T -> Key) returns (later: seq<T>)
    requires multiset(s) == multiset([a] + ([b] + rest)) && Ascending(s, key)
    requires forall x :: x in [b] + rest ==> !Le(key(x), key(a))
    requires forall x :: x in rest ==> !Le(key(x), key(b))
    ensures s == [a, b] + later && multiset(later) == multiset(rest)
  {
    hide Le, Ascending;
    StartsWithLeast(s, a, [b] + rest, key);
    StartsWithLeast(s[1..], b, rest, key);
    later := s[1..][1..];
    assert s == [s[0]] + ([s[1..][0]] + later);
  }

  lemma LargerIsLater(a: Item, rest: seq<Item>)
    requires forall it :: it in rest ==> Size(a) < Size(it)
    ensures forall it :: it in rest ==> !Le(AscendingKey(it), AscendingKey(a))
  {
  }

  lemma CutBySize(a: Item, b: Item, later: seq<Item>, target: int)
    requires 3 * Size(a) < Size(b) <= 7 * Size(a) && 2 * (Size(a) + Size(b)) <= target
    requires |later| == 2 && Size(later[0]) == Size(later[1]) == Size(a) + Size(b)
    ensures Cut([a, b] + later, Law(target)) == [[a, b], later]
  {
    hide Cut, WithinBounds;
    var m, n, p := Size(a), Size(b), later[0];
    SpellingBounds(m, n, target);
    assert Sizes([a, b]) == [m, n] && Sizes([a, b, p]) == [m, n, m + n] && Sizes(later) == [m + n, m + n];
    assert later == [p, later[1]] && [a, b] + later == [a, b, p, later[1]];
    CutTwoPacks(a, b, p, later[1], Law(target));
  }

  /** The store after both packs has nothing but the second. */
  lemma SpellingStore(
    x: Bytes, y: Bytes, w: Bytes, target: int, maxFile: int, sha: Digest, later: seq<Item>)
    requires Spelled(x, y, w, target, maxFile, sha)
    requires multiset(later) == multiset([Item(sha(x + y), x + y), Item(sha(w), w)])
    ensures var cands := Run(Spelling(x, y, w, sha), [[Item(sha(x), x), Item(sha(y), y)], later], sha).cands;
            forall h :: h in cands ==>
              h == sha(Concat(later)) && cands[h] == Candidate(Concat(later), {PACK_HINT}, map[])
  {
    hide Concat, Repointed, CollisionFree;
    var st := Spelling(x, y, w, sha);
    var first := [Item(sha(x), x), Item(sha(y), y)];
    var z, v := Item(sha(x + y), x + y), Item(sha(w), w);
    FourDigests(x, y, w, target, maxFile, sha);
    ConcatPair(first[0], first[1]);
    PackLength(later, z, v);
    LaterDigest(x, y, w, target, maxFile, sha, Concat(later));
    MembersMatch(later, [z, v]);
    PairDigests(first, sha(x), sha(y));
    HasDigest(later, sha(x + y));
    HasDigest(later, sha(w));
    assert z in [z, v] && v in [z, v];
    RunOne(st, first, sha);
    assert [first, later][..1] == [first];
    var one := Run(st, [first], sha).cands;
    assert Run(st, [first, later], sha).cands == Stored(one, later, Concat(later), sha(Concat(later)));
    assert forall h :: h in one ==> h == sha(x + y) || h == sha(w);
  }

  lemma PairDigests(rows: seq<Item>, a: int, b: int)
    requires |rows| == 2 && rows[0].digest == a && rows[1].digest == b
    ensures Digests(rows) == {a, b}
  {
    assert rows[0] in rows && rows[1] in rows;
  }

  lemma LaterDigest(x: Bytes, y: Bytes, w: Bytes, target: int, maxFile: int, sha: Digest, pack: Bytes)
    requires Spelled(x, y, w, target, maxFile, sha) && |pack| == 2 * |w|
    ensures sha(pack) != sha(x) && sha(pack) != sha(y) && sha(pack) != sha(x + y) && sha(pack) != sha(w)
  {
    assert |x + y| == |w|;
    assert pack != x && pack != y && pack != x + y && pack != w;
  }

  /** The build loses the first two contents: their pack is the third content, which the next pack drops,
      and nothing puts it back. */
  lemma SpelledMemberLosesPack(
    x: Bytes, y: Bytes, w: Bytes, target: int, maxFile: int, sha: Digest, chosen: int -> int, min: int, train: Trainer,
    deflate: Deflate, i: nat)
    requires Spelled(x, y, w, target, maxFile, sha) && i < 2
    ensures var st := Spelling(x, y, w, sha);
            var out := Built(st, target, maxFile, By(AscendingGreedy), sha);
            var store := Finished(out.cands, chosen, min, train, sha);
            && Read(st.files, st.cands, i, deflate) == Some([x, y][i])
            && Read(out.files, store, i, deflate) == None
            && Mapped(st.files, st.cands) && !Mapped(out.files, store)
  {
    hide Packs, Run, Dropped, CollisionFree, Finished, Concat, HasText, Names, FromStore;
    var st := Spelling(x, y, w, sha);
    var first := [Item(sha(x), x), Item(sha(y), y)];
    var later := SpellingPacks(x, y, w, target, maxFile, sha);
    var groups := [first, later];
    var cands := Run(st, groups, sha).cands;
    SpellingReads(x, y, w, target, maxFile, sha, deflate, i);
    SpellingDropped(x, y, w, target, maxFile, sha, later);
    SpellingStore(x, y, w, target, maxFile, sha, later);
    PacksAreSound(st, target, maxFile, By(AscendingGreedy));
    StoreAfter(st, groups, sha);
    StreamsAfter(st, groups, sha);
    PackHint({});
    assert {} + {PACK_HINT} == {PACK_HINT};
    OnlyStreams(cands, chosen, min, train, sha, sha(x + y));
    assert first[i] in first;
    assert Refers(st.files[i], groups[0]);
    FilesAfter(st, groups, sha, i);
    var out := Built(st, target, maxFile, By(AscendingGreedy), sha);
    PackIsNamed(out.files[i], sha(x + y));
    MissingIsUnread(out.files, Finished(cands, chosen, min, train, sha), i, sha(x + y), deflate);
  }

  lemma PackIsNamed(row: FileRow, h: int)
    requires row.ref.PackRef? && row.ref.h == h
    ensures h in Names(row.ref)
  {
  }

  lemma SpellingReads(
    x: Bytes, y: Bytes, w: Bytes, target: int, maxFile: int, sha: Digest, deflate: Deflate, i: nat)
    requires Spelled(x, y, w, target, maxFile, sha) && i < 2
    ensures var st := Spelling(x, y, w, sha);
            && Digested(st.cands, sha) && StreamsDigested(st.cands, sha) && Mapped(st.files, st.cands)
            && Holder(st.files, i) == i
            && Read(st.files, st.cands, i, deflate) == Some([x, y][i])
  {
    hide CollisionFree;
    FourDigests(x, y, w, target, maxFile, sha);
  }

  lemma SpellingDropped(
    x: Bytes, y: Bytes, w: Bytes, target: int, maxFile: int, sha: Digest, later: seq<Item>)
    requires Spelled(x, y, w, target, maxFile, sha)
    requires multiset(later) == multiset([Item(sha(x + y), x + y), Item(sha(w), w)])
    ensures var groups := [[Item(sha(x), x), Item(sha(y), y)], later];
            && PackDigest(groups, 0, sha) == sha(x + y)
            && Dropped(groups, sha(x + y), sha)
  {
    hide Concat, Has;
    var first := [Item(sha(x), x), Item(sha(y), y)];
    var groups := [first, later];
    ConcatPair(first[0], first[1]);
    PackLength(later, Item(sha(x + y), x + y), Item(sha(w), w));
    assert |Concat(later)| > |x + y|;
    assert Has(groups[1], sha(x + y)) && PackDigest(groups, 1, sha) != sha(x + y);
  }
}
