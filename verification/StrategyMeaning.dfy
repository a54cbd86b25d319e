/** The four grouping strategies, each told by its result. */
module StrategyMeaning {
  import opened Sorting
  import opened Grouping
  import opened GreedyCut
  import opened LocalityPack
  import opened Numbers
  import opened PackStrategies

  /** These contents may share a pack: within the target, and within eight times each of them, taking an
      empty one for one byte. */
  ghost predicate Together(g: seq<Item>, target: int) {
    var total := Total(Sizes(g));
    && total <= target
    && forall it :: it in g ==> total <= 8 * (if |it.raw| == 0 then 1 else |it.raw|)
  }

  lemma LawMeans(g: seq<Item>, target: int)
    requires g != []
    ensures Law(target)(g) <==> Together(g, target)
  {
    var sizes := Sizes(g);
    LeastExact(sizes);
    if Law(target)(g) {
      forall it | it in g ensures Total(sizes) <= 8 * (if |it.raw| == 0 then 1 else |it.raw|) {
        var k :| 0 <= k < |g| && g[k] == it;
        assert sizes[k] in sizes;
      }
    }
    var k :| 0 <= k < |sizes| && sizes[k] == Least(sizes);
    assert g[k] in g;
  }

  /** By size, then by digest. */
  predicate SmallerFirst(x: Item, y: Item) {
    |x.raw| < |y.raw| || (|x.raw| == |y.raw| && x.digest <= y.digest)
  }

  predicate LargerFirst(x: Item, y: Item) {
    |x.raw| > |y.raw| || (|x.raw| == |y.raw| && x.digest <= y.digest)
  }

  ghost predicate InOrder(s: seq<Item>, before: (Item, Item) -> bool) {
    forall i, j | 0 <= i < j < |s| :: before(s[i], s[j])
  }

  /** Pack `g` could not have taken the content that opens `h`. */
  ghost predicate Closed(g: seq<Item>, h: seq<Item>, target: int) {
    h != [] && !Together(g + [h[0]], target)
  }

  ghost predicate AllTogether(groups: seq<seq<Item>>, target: int) {
    forall g :: g in groups ==> g != [] && (|g| == 1 || Together(g, target))
  }

  /** All packs may be, and none could have taken the content that opens the next one. */
  ghost predicate Greedily(groups: seq<seq<Item>>, target: int) {
    AllTogether(groups, target) && forall k :: 0 < k < |groups| ==> Closed(groups[k - 1], groups[k], target)
  }

  lemma CutGreedily(ordered: seq<Item>, target: int)
    ensures Flatten(Cut(ordered, Law(target))) == ordered
    ensures Greedily(Cut(ordered, Law(target)), target)
  {
    hide Together, Law;
    var groups := Cut(ordered, Law(target));
    CutPartitions([], ordered, Law(target));
    CutIsGreedy([], ordered, Law(target));
    assert [] + ordered == ordered;
    forall g | g in groups ensures g != [] && (|g| == 1 || Together(g, target)) {
      assert Admissible(g, Law(target));
      LawMeans(g, target);
    }
    forall k | 0 < k < |groups| ensures Closed(groups[k - 1], groups[k], target) {
      assert Barred(groups[k - 1], groups[k], Law(target));
      LawMeans(groups[k - 1] + [groups[k][0]], target);
    }
  }

  // ----- Greedy

  lemma AscendingMeans(items: seq<Item>, target: int)
    ensures var groups := GroupsBy(items, target, AscendingGreedy);
            && multiset(Flatten(groups)) == multiset(items) && InOrder(Flatten(groups), SmallerFirst)
            && Greedily(groups, target)
  {
    hide Greedily;
    SortAscends(items, AscendingKey);
    CutGreedily(Sort(items, AscendingKey), target);
    KeyIsOrder(Sort(items, AscendingKey));
  }

  lemma KeyIsOrder(s: seq<Item>)
    ensures Ascending(s, AscendingKey) <==> InOrder(s, SmallerFirst)
    ensures Ascending(s, DescendingKey) <==> InOrder(s, LargerFirst)
  {
    forall i, j | 0 <= i < j < |s|
      ensures Le(AscendingKey(s[i]), AscendingKey(s[j])) <==> SmallerFirst(s[i], s[j])
      ensures Le(DescendingKey(s[i]), DescendingKey(s[j])) <==> LargerFirst(s[i], s[j])
    {
    }
  }

  lemma DescendingMeans(items: seq<Item>, target: int)
    ensures var groups := GroupsBy(items, target, DescendingGreedy);
            && multiset(Flatten(groups)) == multiset(items) && InOrder(Flatten(groups), LargerFirst)
            && Greedily(groups, target)
  {
    hide Greedily;
    SortAscends(items, DescendingKey);
    CutGreedily(Sort(items, DescendingKey), target);
    KeyIsOrder(Sort(items, DescendingKey));
  }

  // ----- Best fit

  function Room(bin: seq<Item>, target: int): int {
    target - Total(Sizes(bin))
  }

  ghost predicate Takes(bin: seq<Item>, it: Item, target: int) {
    Together(bin + [it], target)
  }

  /** One content put into the bin that takes it with the least room, and of several the earliest; into a
      bin of its own if none takes it. */
  ghost predicate PutBest(before: seq<seq<Item>>, after: seq<seq<Item>>, it: Item, target: int) {
    if exists b :: 0 <= b < |before| && Takes(before[b], it, target) then
      exists b :: 0 <= b < |before| && Takes(before[b], it, target) && after == before[b := before[b] + [it]]
        && forall j :: 0 <= j < |before| && Takes(before[j], it, target) ==>
             Room(before[b], target) < Room(before[j], target)
             || (Room(before[b], target) == Room(before[j], target) && b <= j)
    else after == before + [[it]]
  }

  /** The bins after each content, from none on. */
  ghost predicate FillsBest(trace: seq<seq<seq<Item>>>, ordered: seq<Item>, target: int) {
    && |trace| == |ordered| + 1 && trace[0] == []
    && forall k :: 0 <= k < |ordered| ==> PutBest(trace[k], trace[k + 1], ordered[k], target)
  }

  lemma TakesIsFits(bin: seq<Item>, it: Item, target: int)
    ensures Fits(bin, target, it) <==> Takes(bin, it, target)
  {
    FitsIsLaw(bin, target, it);
    LawMeans(bin + [it], target);
  }

  lemma PlaceIsBest(bins: seq<seq<Item>>, target: int, it: Item)
    ensures PutBest(bins, Place(bins, target, it), it, target)
  {
    hide Fits, Takes, Choose;
    var k := Choose(bins, target, it, |bins|);
    ChooseExact(bins, target, it, |bins|);
    forall b | 0 <= b < |bins| ensures Fits(bins[b], target, it) <==> Takes(bins[b], it, target) {
      TakesIsFits(bins[b], it, target);
    }
  }

  lemma {:induction false} FillTrace(bins: seq<seq<Item>>, items: seq<Item>, target: int)
    returns (trace: seq<seq<seq<Item>>>)
    ensures |trace| == |items| + 1 && trace[0] == bins && trace[|items|] == FillBins(bins, items, target)
    ensures forall k :: 0 <= k < |items| ==> PutBest(trace[k], trace[k + 1], items[k], target)
    decreases |items|
  {
    hide Place, PutBest;
    if items == [] {
      trace := [bins];
    } else {
      var rest := FillTrace(Place(bins, target, items[0]), items[1..], target);
      PlaceIsBest(bins, target, items[0]);
      trace := [bins] + rest;
      forall k | 0 <= k < |items| ensures PutBest(trace[k], trace[k + 1], items[k], target) {
        if k > 0 {
          assert trace[k] == rest[k - 1] && trace[k + 1] == rest[k] && items[k] == items[1..][k - 1];
        }
      }
    }
  }

  ghost predicate OpensFirst(g: seq<Item>, h: seq<Item>) {
    g != [] && h != [] && SmallerFirst(g[0], h[0])
  }

  /** The two could not be one pack. */
  ghost predicate Separate(g: seq<Item>, h: seq<Item>, target: int) {
    !Together(g + h, target)
  }

  /** Largest first, each into the best bin; the bins come in order of the contents that opened them, and no
      two of them could have been one. */
  lemma BestFitMeans(items: seq<Item>, target: int) returns (ordered: seq<Item>, trace: seq<seq<seq<Item>>>)
    ensures multiset(ordered) == multiset(items) && InOrder(ordered, LargerFirst)
    ensures FillsBest(trace, ordered, target)
    ensures var groups := GroupsBy(items, target, BestFitDesc);
            && multiset(groups) == multiset(trace[|ordered|])
            && (forall i, j | 0 <= i < j < |groups| :: OpensFirst(groups[i], groups[j]))
            && var bins := trace[|ordered|]; forall i, j | 0 <= i < j < |bins| :: Separate(bins[i], bins[j], target)
  {
    hide Together, PutBest, FillBins, Law;
    ordered := Sort(items, DescendingKey);
    SortAscends(items, DescendingKey);
    KeyIsOrder(ordered);
    trace := FillTrace([], ordered, target);
    BestFitPacks(items, target);
    BinsInOrder(items, target);
    var bins := BestFitBins(items, target);
    forall i, j | 0 <= i < j < |bins| ensures Separate(bins[i], bins[j], target) {
      assert bins[j] in bins;
      LawMeans(bins[i] + bins[j], target);
    }
  }

  lemma BinsInOrder(items: seq<Item>, target: int)
    ensures var groups := BestFitGroups(items, target);
            forall i, j | 0 <= i < j < |groups| :: OpensFirst(groups[i], groups[j])
  {
    hide BestFitBins, Law;
    var groups := BestFitGroups(items, target);
    BestFitPacks(items, target);
    SortAscends(BestFitBins(items, target), BinKey);
    forall i, j | 0 <= i < j < |groups| ensures OpensFirst(groups[i], groups[j]) {
      assert groups[i] in groups && groups[j] in groups;
      assert Admissible(groups[i], Law(target)) && Admissible(groups[j], Law(target));
      assert Le(BinKey(groups[i]), BinKey(groups[j]));
    }
  }

  // ----- Size classes

  /** The binary order of magnitude of a size, an empty content being one byte. */
  ghost predicate OfClass(it: Item, c: nat) {
    Pow2(c) <= (if |it.raw| == 0 then 1 else |it.raw|) < Pow2(c + 1)
  }

  ghost predicate AllOfClass(g: seq<Item>, c: nat) {
    forall it :: it in g ==> OfClass(it, c)
  }

  ghost predicate OneClass(g: seq<Item>) {
    exists c: nat :: AllOfClass(g, c)
  }

  /** The next pack opens with a larger class, or could not have given up what opens it. */
  ghost predicate Parted(g: seq<Item>, h: seq<Item>, target: int) {
    h != [] && (Closed(g, h, target) || !OneClass(g + [h[0]]))
  }

  ghost predicate AllParted(groups: seq<seq<Item>>, target: int) {
    forall k :: 0 < k < |groups| ==> Parted(groups[k - 1], groups[k], target)
  }

  lemma {:induction false} Pow2Grows(m: nat, n: nat)
    requires m <= n
    ensures Pow2(m) <= Pow2(n)
    decreases n
  {
    if m < n {
      Pow2Grows(m, n - 1);
    }
  }

  lemma ClassIs(it: Item, c: nat)
    ensures OfClass(it, c) <==> ClassOf(it) == c
  {
    var n := BitLength(AtLeastOne(Size(it)));
    if OfClass(it, c) {
      if c + 1 < n {
        Pow2Grows(c + 1, n - 1);
      } else if n < c + 1 {
        Pow2Grows(n, c);
      }
    }
  }

  lemma SmallerClass(x: Item, y: Item)
    requires ClassOf(x) < ClassOf(y)
    ensures |x.raw| < |y.raw|
  {
    ClassIs(x, ClassOf(x));
    ClassIs(y, ClassOf(y));
    Pow2Grows(ClassOf(x) + 1, ClassOf(y));
    assert Pow2(1) == 2 by { assert Pow2(0) == 1; }
    Pow2Grows(1, ClassOf(y));
  }

  ghost predicate OfKey(g: seq<Item>, key: int) {
    forall it :: it in g ==> ClassOf(it) == key
  }

  /** Classes in ascending order, each with its contents. */
  ghost predicate Ranked(classes: seq<Bucket<Item>>) {
    && (forall i, j | 0 <= i < j < |classes| :: classes[i].key < classes[j].key)
    && forall c :: c in classes ==> c.members != [] && OfKey(c.members, c.key)
  }

  lemma KeyIsClass(g: seq<Item>, key: int)
    requires g != [] && OfKey(g, key)
    ensures OneClass(g)
  {
    hide ClassOf, OfClass;
    assert g[0] in g;
    var c := ClassNatural(g[0]);
    forall it | it in g ensures OfClass(it, c) {
      ClassIs(it, c);
    }
    assert AllOfClass(g, c);
  }

  lemma ClassNatural(it: Item) returns (c: nat)
    ensures ClassOf(it) == c
  {
    c := ClassOf(it);
  }

  ghost predicate CutOfKey(cut: seq<seq<Item>>, key: int) {
    forall g :: g in cut ==> g != [] && OfKey(g, key)
  }

  lemma ClassCut(members: seq<Item>, key: int, target: int)
    requires members != [] && OfKey(members, key)
    ensures var cut := Cut(Sort(members, AscendingKey), Law(target));
            && cut != [] && Greedily(cut, target) && CutOfKey(cut, key)
            && InOrder(Flatten(cut), SmallerFirst) && OfKey(Flatten(cut), key)
  {
    hide Together, Law, ClassOf, Sort, Closed, SmallerFirst;
    var sorted := Sort(members, AscendingKey);
    var cut := Cut(sorted, Law(target));
    SortAscends(members, AscendingKey);
    KeyIsOrder(sorted);
    MembersMatch(sorted, members);
    CutGreedily(sorted, target);
    assert cut == [] ==> |Flatten(cut)| == 0;
    assert |sorted| == |multiset(sorted)| && |members| == |multiset(members)|;
    forall g, x | g in cut && x in g ensures ClassOf(x) == key {
      FlattenMember(cut, x);
    }
  }

  lemma OrderAppend(a: seq<Item>, b: seq<Item>)
    requires InOrder(a, SmallerFirst) && InOrder(b, SmallerFirst)
    requires forall x, y :: x in a && y in b ==> SmallerFirst(x, y)
    ensures InOrder(a + b, SmallerFirst)
  {
    var all := a + b;
    forall i, j | 0 <= i < j < |all| ensures SmallerFirst(all[i], all[j]) {
      if i < |a| <= j {
        assert all[i] in a && all[j] in b;
      }
    }
  }

  lemma PartedAppend(a: seq<seq<Item>>, b: seq<seq<Item>>, target: int)
    requires Greedily(a, target) && AllParted(b, target)
    requires a != [] && b != [] ==> Parted(a[|a| - 1], b[0], target)
    ensures AllParted(a + b, target)
  {
    hide AllTogether, OneClass, Closed;
    var all := a + b;
    forall k | 0 < k < |all| ensures Parted(all[k - 1], all[k], target) {
      if k > |a| {
        assert all[k] == b[k - |a|] && all[k - 1] == b[k - |a| - 1];
      } else if k == |a| {
        assert all[k - 1] == a[|a| - 1] && all[k] == b[0];
      } else {
        OpenedAfter(a[k - 1], a[k], target);
      }
    }
  }

  lemma OpenedAfter(g: seq<Item>, h: seq<Item>, target: int)
    requires Closed(g, h, target)
    ensures h != []
  {
  }

  ghost predicate OpensAbove(groups: seq<seq<Item>>, key: int) {
    groups != [] ==> groups[0] != [] && ClassOf(groups[0][0]) > key
  }

  ghost predicate AllAbove(items: seq<Item>, key: int) {
    forall it :: it in items ==> ClassOf(it) > key
  }

  /** What a class adds in front of the larger ones. */
  lemma ClassInFront(cut: seq<seq<Item>>, tail: seq<seq<Item>>, key: int, target: int)
    requires cut != [] && Greedily(cut, target) && CutOfKey(cut, key)
    requires InOrder(Flatten(cut), SmallerFirst) && OfKey(Flatten(cut), key)
    requires AllTogether(tail, target) && AllParted(tail, target) && InOrder(Flatten(tail), SmallerFirst)
    requires AllAbove(Flatten(tail), key) && OpensAbove(tail, key)
    ensures AllTogether(cut + tail, target) && AllParted(cut + tail, target)
    ensures InOrder(Flatten(cut + tail), SmallerFirst)
  {
    hide Together, ClassOf, Parted, Flatten, InOrder, Closed, SmallerFirst;
    FlattenAppend(cut, tail);
    forall x, y | x in Flatten(cut) && y in Flatten(tail) ensures SmallerFirst(x, y) {
      SmallerClassFirst(x, y);
    }
    OrderAppend(Flatten(cut), Flatten(tail));
    if tail != [] {
      var g := cut[|cut| - 1];
      assert g in cut;
      assert g[0] in g;
      ClassesPart(g, tail[0], target);
    }
    PartedAppend(cut, tail, target);
  }

  lemma SmallerClassFirst(x: Item, y: Item)
    requires ClassOf(x) < ClassOf(y)
    ensures SmallerFirst(x, y)
  {
    SmallerClass(x, y);
  }

  lemma ClassesPart(g: seq<Item>, h: seq<Item>, target: int)
    requires g != [] && h != [] && ClassOf(g[0]) != ClassOf(h[0])
    ensures Parted(g, h, target)
  {
    hide ClassOf, OfClass, Closed;
    var both := g + [h[0]];
    assert both[0] in both && h[0] in both;
    if OneClass(both) {
      var c: nat :| AllOfClass(both, c);
      ClassIs(g[0], c);
      ClassIs(h[0], c);
    }
  }

  lemma {:induction false} ClassesMean(classes: seq<Bucket<Item>>, key: int, target: int)
    requires Ranked(classes) && (classes != [] ==> key < classes[0].key)
    ensures var groups := CutClasses(classes, target);
            && AllTogether(groups, target) && AllParted(groups, target) && InOrder(Flatten(groups), SmallerFirst)
            && OpensAbove(groups, key) && AllAbove(Flatten(groups), key)
            && forall g :: g in groups ==> OneClass(g)
    decreases |classes|
  {
    hide Cut, Sort, AllTogether, ClassOf, OneClass, AllParted, InOrder, SmallerFirst, Greedily;
    if classes != [] {
      var c, rest := classes[0], classes[1..];
      assert classes == [c] + rest && c in classes;
      assert rest != [] ==> rest[0] == classes[1];
      ClassesMean(rest, c.key, target);
      ClassCut(c.members, c.key, target);
      var cut, tail := Cut(Sort(c.members, AscendingKey), Law(target)), CutClasses(rest, target);
      FlattenAppend(cut, tail);
      ClassInFront(cut, tail, c.key, target);
      forall g | g in cut ensures OneClass(g) {
        KeyIsClass(g, c.key);
      }
      assert cut[0] in cut;
      assert cut[0][0] in cut[0];
      forall x | x in Flatten(tail) ensures ClassOf(x) > key {
        assert rest != [] || tail == [];
      }
    } else {
      NothingMeans(target);
    }
  }

  lemma NothingMeans(target: int)
    ensures AllTogether([], target) && AllParted([], target) && InOrder([], SmallerFirst)
  {
  }

  lemma RankedClasses(items: seq<Item>)
    ensures Ranked(Sort(GroupBy(items, ClassOf), BucketKey))
  {
    hide Sort, GroupBy, ClassOf;
    var groups := GroupBy(items, ClassOf);
    var classes := Sort(groups, BucketKey);
    GroupByGroups(items, ClassOf);
    SortGrouped(groups, items, ClassOf, BucketKey);
    SortAscends(groups, BucketKey);
    forall i, j | 0 <= i < j < |classes| ensures classes[i].key < classes[j].key {
      assert Le(BucketKey(classes[i]), BucketKey(classes[j]));
    }
  }

  /** Smallest first, packs of one class each; where the class goes on, no pack could have taken the content
      that opens the next one. */
  lemma SizeClassMeans(items: seq<Item>, target: int)
    ensures var groups := GroupsBy(items, target, SizeClass);
            && multiset(Flatten(groups)) == multiset(items) && InOrder(Flatten(groups), SmallerFirst)
            && AllTogether(groups, target) && AllParted(groups, target)
            && forall g :: g in groups ==> OneClass(g)
  {
    hide CutClasses, Parted, OneClass, ClassOf, Sort, GroupBy, AllTogether, AllParted, InOrder, OpensAbove, AllAbove;
    SizeClassPacks(items, target);
    RankedClasses(items);
    var classes := Sort(GroupBy(items, ClassOf), BucketKey);
    ClassesMean(classes, if classes == [] then 0 else classes[0].key - 1, target);
  }
}
