/** The packs of small builds, worked out: contents of one or two extensions that fit in one pack each. */
module SmallBuilds {
  import opened Sorting
  import opened Grouping
  import opened GreedyCut
  import opened LocalityPack
  import opened MicroPackBuilder
  import opened Numbers
  import opened PackLayout
  import opened PackRun
  import opened PackStrategies
  import opened PackThenCodec
  import opened Storages

  // ----- Eligible contents

  /** One row and one wanted content per item. */
  lemma EligibleAre(st: State, maxFile: int, all: seq<Item>)
    requires Sound(all, st.cands) && |st.files| == |all|
    requires forall k :: 0 <= k < |all| ==> IsMention(st.files[k]) && st.files[k].ref.h == all[k].digest
    requires forall it :: it in all ==> Wanted(st.cands, it.digest, maxFile)
    ensures multiset(EligibleItems(RefsOf(st.files), st.cands, maxFile)) == multiset(all)
  {
    hide RefsOf, EligibleItems, Wanted;
    var items := EligibleItems(RefsOf(st.files), st.cands, maxFile);
    EligibleExact(st, maxFile);
    forall it ensures it in items <==> it in all {
      if it in items {
        assert Has(items, it.digest);
        var row :| row in st.files && IsMention(row) && row.ref.h == it.digest;
      }
      if it in all {
        var k :| 0 <= k < |all| && all[k] == it;
        assert st.files[k] in st.files;
        assert Has(items, it.digest);
      }
    }
    SameElements(items, all);
  }

  lemma TextHints(hints: set<int>, n: int)
    requires n in hints && n >= 0 && forall x :: x in hints && x >= 0 ==> n <= x
    ensures HasText(hints) && FirstText(hints) == n
  {
  }

  lemma OneText()
    ensures HasText({0}) && FirstText({0}) == 0
  {
    TextHints({0}, 0);
  }

  /** The rows that name a content, when there is one. */
  lemma OnlyNamed(files: seq<FileRow>, i: nat)
    requires i < |files| && IsMention(files[i])
    requires forall k :: 0 <= k < |files| && IsMention(files[k]) && files[k].ref.h == files[i].ref.h ==> k == i
    ensures NamedBy(RefsOf(files), files[i].ref.h) == [i]
  {
    hide NamedBy, RowsAscending;
    var fis := NamedBy(RefsOf(files), files[i].ref.h);
    NamedExact(files, files[i].ref.h);
    RefsAscend(files);
    NamedAscending(RefsOf(files), files[i].ref.h);
    assert i in fis;
    OneElement(fis, i);
  }

  lemma OneElement(fis: seq<int>, i: int)
    requires i in fis && (forall x :: x in fis ==> x == i) && forall a, b | 0 <= a < b < |fis| :: fis[a] < fis[b]
    ensures fis == [i]
  {
    var n := |fis| - 1;
    assert fis[0] in fis && fis[n] in fis;
    assert fis[0] == fis[n];
    assert n == 0;
  }

  // ----- Buckets

  lemma OneBucket(st: State, maxFile: int, ext: int)
    requires EligibleItems(RefsOf(st.files), st.cands, maxFile) != []
    requires forall it :: it in EligibleItems(RefsOf(st.files), st.cands, maxFile) ==> ExtOf(st.cands)(it) == ext
    ensures |BucketsOf(st, maxFile)| == 1
    ensures multiset(BucketsOf(st, maxFile)[0].members) == multiset(EligibleItems(RefsOf(st.files), st.cands, maxFile))
  {
    hide RefsOf, EligibleItems, ExtOf, GroupBy, Sort;
    var items, keyOf := EligibleItems(RefsOf(st.files), st.cands, maxFile), ExtOf(st.cands);
    var groups, buckets := GroupBy(items, keyOf), BucketsOf(st, maxFile);
    GroupByGroups(items, keyOf);
    SortGrouped(groups, items, keyOf, BucketKey);
    forall g | g in buckets ensures g.key == ext {
      assert g.members[0] in g.members;
    }
    assert items[0] in items;
    assert HasKey(buckets, ext);
    assert forall k :: 0 <= k < |buckets| ==> buckets[k] in buckets;
    ListedPermutes(items, keyOf);
    ListedSort(groups, buckets);
    assert buckets[1..] == [] && buckets[0].members + [] == buckets[0].members;
  }

  lemma OneBucketPacks(st: State, target: int, maxFile: int, policy: Policy)
    requires |BucketsOf(st, maxFile)| == 1
    ensures Packs(st, target, maxFile, policy)
            == Plan(BucketsOf(st, maxFile)[0].members, RefsOf(st.files), target, policy)
  {
    hide Plan, RefsOf;
    var buckets, refs := BucketsOf(st, maxFile), RefsOf(st.files);
    assert buckets[..0] == [];
    assert PlanAll([], refs, target, policy) == [];
    assert PlanAll(buckets, refs, target, policy) == [] + Plan(buckets[0].members, refs, target, policy);
  }

  /** The policies that cut an order greedily. */
  predicate Greedy(policy: Policy) {
    policy.Stable? || policy.strategy.AscendingGreedy? || policy.strategy.DescendingGreedy?
  }

  function OrderOf(policy: Policy, refs: Refs): Item -> Key
    requires Greedy(policy)
  {
    match policy
    case Stable => StableKey(refs)
    case By(strategy) => if strategy.AscendingGreedy? then AscendingKey else DescendingKey
  }

  lemma GreedyIsCut(items: seq<Item>, refs: Refs, target: int, policy: Policy)
    requires Greedy(policy)
    ensures Plan(items, refs, target, policy) == Cut(Sort(items, OrderOf(policy, refs)), Law(target))
  {
  }

  /** Items that fit in one pack are made one pack. */
  lemma FittingIsOnePack(items: seq<Item>, all: seq<Item>, refs: Refs, target: int, policy: Policy)
    returns (g: seq<Item>)
    requires Greedy(policy) && items != [] && multiset(items) == multiset(all) && Law(target)(all)
    ensures Plan(items, refs, target, policy) == [g] && multiset(g) == multiset(all)
  {
    hide Plan, OrderOf, WithinBounds, Sizes;
    g := Sort(items, OrderOf(policy, refs));
    GreedyIsCut(items, refs, target, policy);
    SizesPermute(g, all);
    BoundsPermute(Sizes(g), Sizes(all), target);
    LawClosed(target);
    CutIsWhole(g, Law(target));
  }

  lemma {:induction false} WithKeyDistinct<T>(xs: seq<T>, keyOf: T -> int, key: int)
    requires NoDuplicates(xs)
    ensures NoDuplicates(WithKey(xs, keyOf, key))
  {
    if xs != [] {
      var init, last := xs[..|xs| - 1], xs[|xs| - 1];
      assert xs == init + [last];
      WithKeyDistinct(init, keyOf, key);
      WithKeyAppend(init, last, keyOf, key);
      assert last !in init;
    }
  }

  /** Contents of two extensions. */
  lemma TwoBuckets(st: State, maxFile: int, xs: seq<Item>, ys: seq<Item>)
    requires xs != [] && ys != [] && NoDuplicates(xs + ys)
    requires multiset(EligibleItems(RefsOf(st.files), st.cands, maxFile)) == multiset(xs + ys)
    requires forall it :: it in xs ==> ExtOf(st.cands)(it) == 0
    requires forall it :: it in ys ==> ExtOf(st.cands)(it) == 1
    ensures var buckets := BucketsOf(st, maxFile);
            && |buckets| == 2
            && multiset(buckets[0].members) == multiset(xs) && multiset(buckets[1].members) == multiset(ys)
  {
    hide RefsOf, EligibleItems, ExtOf, GroupBy, Sort, WithKey;
    var items, keyOf := EligibleItems(RefsOf(st.files), st.cands, maxFile), ExtOf(st.cands);
    var groups, buckets := GroupBy(items, keyOf), BucketsOf(st, maxFile);
    MembersMatch(items, xs + ys);
    NoDuplicatesPermutes(items, xs + ys);
    GroupByGroups(items, keyOf);
    SortGrouped(groups, items, keyOf, BucketKey);
    SortAscends(groups, BucketKey);
    TwoKeys(buckets, items, keyOf, xs, ys);
    WithKeyDistinct(items, keyOf, 0);
    WithKeyDistinct(items, keyOf, 1);
    DistinctParts(xs, ys);
    SameElements(buckets[0].members, xs);
    SameElements(buckets[1].members, ys);
  }

  lemma DistinctParts<T>(xs: seq<T>, ys: seq<T>)
    requires NoDuplicates(xs + ys)
    ensures NoDuplicates(xs) && NoDuplicates(ys)
  {
    assert forall i :: 0 <= i < |xs| ==> (xs + ys)[i] == xs[i];
    assert forall i :: 0 <= i < |ys| ==> (xs + ys)[|xs| + i] == ys[i];
  }

  lemma TwoKeys(buckets: seq<Bucket<Item>>, items: seq<Item>, keyOf: Item -> int, xs: seq<Item>, ys: seq<Item>)
    requires Grouped(buckets, items, keyOf) && Ascending(buckets, BucketKey) && xs != [] && ys != []
    requires forall it :: it in items <==> it in xs + ys
    requires forall it :: it in xs ==> keyOf(it) == 0
    requires forall it :: it in ys ==> keyOf(it) == 1
    ensures |buckets| == 2
    ensures buckets[0].members == WithKey(items, keyOf, 0) && buckets[1].members == WithKey(items, keyOf, 1)
    ensures forall it :: it in buckets[0].members <==> it in xs
    ensures forall it :: it in buckets[1].members <==> it in ys
  {
    hide WithKey;
    forall g | g in buckets ensures g.key == 0 || g.key == 1 {
      assert g.members[0] in g.members;
    }
    assert xs[0] in xs + ys && ys[0] in xs + ys && xs[0] in xs && ys[0] in ys;
    assert HasKey(buckets, 0) && HasKey(buckets, 1);
    var p :| p in buckets && p.key == 0;
    var q :| q in buckets && q.key == 1;
    var j :| 0 <= j < |buckets| && buckets[j] == p;
    var k :| 0 <= k < |buckets| && buckets[k] == q;
    assert forall i :: 0 <= i < |buckets| ==> buckets[i] in buckets;
    forall i | 0 <= i < |buckets| ensures Either(i, j, k) {
      assert buckets[i].key == 0 || buckets[i].key == 1;
    }
    TwoOnly(|buckets|, j, k);
    assert Le(BucketKey(buckets[0]), BucketKey(buckets[1]));
  }

  predicate Either(i: int, j: int, k: int) {
    i == j || i == k
  }

  lemma TwoOnly(n: nat, j: int, k: int)
    requires j != k && 0 <= j < n && 0 <= k < n && forall i :: 0 <= i < n ==> Either(i, j, k)
    ensures n == 2
  {
    assert 0 < n ==> Either(0, j, k);
    assert 1 < n ==> Either(1, j, k);
    assert 2 < n ==> Either(2, j, k);
  }

  lemma TwoBucketsPacks(st: State, target: int, maxFile: int, policy: Policy)
    requires |BucketsOf(st, maxFile)| == 2
    ensures Packs(st, target, maxFile, policy) ==
            Plan(BucketsOf(st, maxFile)[0].members, RefsOf(st.files), target, policy)
            + Plan(BucketsOf(st, maxFile)[1].members, RefsOf(st.files), target, policy)
  {
    hide Plan, RefsOf, BucketsOf;
    var buckets, refs := BucketsOf(st, maxFile), RefsOf(st.files);
    assert buckets[..1][..0] == [] && buckets[..1] == [buckets[0]];
    assert PlanAll([], refs, target, policy) == [];
    assert PlanAll(buckets[..1], refs, target, policy) == [] + Plan(buckets[0].members, refs, target, policy);
  }

  // ----- Orders

  lemma StartsWithLeast<T>(s: seq<T>, a: T, rest: seq<T>, key: T -> Key)
    requires multiset(s) == multiset([a] + rest) && Ascending(s, key)
    requires forall x :: x in rest ==> !Le(key(x), key(a))
    ensures s != [] && s[0] == a && multiset(s[1..]) == multiset(rest) && Ascending(s[1..], key)
  {
    hide Le;
    MembersMatch(s, [a] + rest);
    assert a in [a] + rest;
    LeastFirst(s, a, key);
    assert s[0] in s;
    MultisetTail(s);
    MultisetTail([a] + rest);
    AscendingDrop(s, 1, key);
  }

  lemma PairInEitherOrder<T>(s: seq<T>, c: T, d: T)
    requires multiset(s) == multiset([c, d])
    ensures |s| == 2 && (s[0] == c || s[0] == d) && (s[1] == c || s[1] == d)
  {
    MembersMatch(s, [c, d]);
    assert s[0] in s && s[1] in s;
  }

  /** Two contents that the order tells apart and that fit in one pack. */
  lemma PairIsOnePack(items: seq<Item>, x: Item, y: Item, refs: Refs, target: int, policy: Policy)
    requires Greedy(policy) && multiset(items) == multiset([x, y])
    requires !Le(OrderOf(policy, refs)(y), OrderOf(policy, refs)(x)) && Law(target)([x, y])
    ensures Plan(items, refs, target, policy) == [[x, y]]
  {
    hide Plan, OrderOf, Law, Le;
    GreedyIsCut(items, refs, target, policy);
    LawClosed(target);
    PairSorts(items, x, y, OrderOf(policy, refs));
    CutIsWhole([x, y], Law(target));
  }

  lemma PairSorts<T>(items: seq<T>, x: T, y: T, key: T -> Key)
    requires multiset(items) == multiset([x, y]) && !Le(key(y), key(x))
    ensures Sort(items, key) == [x, y]
  {
    hide Sort, Le;
    SortAscends(items, key);
    var s := Sort(items, key);
    assert [x] + [y] == [x, y];
    StartsWithLeast(s, x, [y], key);
    MembersMatch(s[1..], [y]);
    assert s[1..][0] in s[1..];
    assert s == [s[0]] + s[1..];
  }

  lemma LoneIsOnePack(items: seq<Item>, x: Item, refs: Refs, target: int, policy: Policy)
    requires Greedy(policy) && multiset(items) == multiset([x]) && Law(target)([x])
    ensures Plan(items, refs, target, policy) == [[x]]
  {
    hide Plan, Law;
    var g := FittingIsOnePack(items, [x], refs, target, policy);
    MembersMatch(g, [x]);
    assert g[0] in g;
    assert g == [x];
  }

  // ----- Sizes and bytes

  lemma TotalPair(m: nat, n: nat)
    ensures Total([m, n]) == m + n
  {
    var s: seq<int> := [m, n];
    assert s[1..] == [n] && s[1..][1..] == [];
    assert Total(s[1..]) == n;
    assert Total(s) == m + n;
  }

  lemma PairLaw(x: Item, y: Item, target: int)
    requires Size(x) <= Size(y) <= 7 * Size(x) && Size(x) + Size(y) <= target
    ensures Law(target)([x, y])
  {
    TotalPair(Size(x), Size(y));
    LeastExact([Size(x), Size(y)]);
    assert Sizes([x, y]) == [Size(x), Size(y)];
    assert Size(x) in [Size(x), Size(y)];
  }

  lemma LoneLaw(x: Item, target: int)
    requires Size(x) <= target
    ensures Law(target)([x])
  {
    assert Sizes([x]) == [Size(x)];
    var one: seq<int> := [Size(x)];
    assert one[1..] == [] && Total(one) == Size(x);
  }

  lemma PackLength(g: seq<Item>, x: Item, y: Item)
    requires multiset(g) == multiset([x, y])
    ensures |Concat(g)| == Size(x) + Size(y) && Has(g, x.digest) && Has(g, y.digest)
  {
    hide Concat;
    ConcatLength(g);
    MembersMatch(g, [x, y]);
    SizesPermute(g, [x, y]);
    TotalPermutes(Sizes(g), Sizes([x, y]));
    TotalPair(Size(x), Size(y));
    assert Sizes([x, y]) == [Size(x), Size(y)];
    assert x in [x, y] && y in [x, y];
  }

  // ----- The greedy cut, one element at a time

  lemma CutOpens<T>(x: T, rest: seq<T>, law: seq<T> -> bool)
    ensures CutFrom([], [x] + rest, law) == CutFrom([x], rest, law)
  {
    assert ([x] + rest)[1..] == rest;
    var none: seq<T> := [];
    assert none + [x] == [x];
  }

  lemma CutTakes<T>(current: seq<T>, x: T, rest: seq<T>, law: seq<T> -> bool)
    requires law(current + [x])
    ensures CutFrom(current, [x] + rest, law) == CutFrom(current + [x], rest, law)
  {
    assert ([x] + rest)[1..] == rest;
  }

  lemma CutCloses<T>(current: seq<T>, x: T, rest: seq<T>, law: seq<T> -> bool)
    requires current != [] && !law(current + [x])
    ensures CutFrom(current, [x] + rest, law) == [current] + CutFrom([x], rest, law)
  {
    assert ([x] + rest)[1..] == rest;
  }

  lemma CutEndsWith<T>(current: seq<T>, law: seq<T> -> bool)
    requires current != []
    ensures CutFrom(current, [], law) == [current]
  {
  }

  lemma ConcatPair(a: Item, b: Item)
    ensures Concat([a, b]) == a.raw + b.raw
  {
    assert [a, b][..1] == [a] && [a][..0] == [];
    assert Concat([a]) == [] + a.raw == a.raw;
  }
}
