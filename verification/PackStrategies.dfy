/** The four packing strategies, the incremental packer, and how they relate. */
module PackStrategies {
  import opened Sorting
  import opened Grouping
  import opened GreedyCut
  import opened Numbers
  import opened LocalityPack

  // ----- Ascending and descending order need the same number of packs

  lemma {:induction false} CutBySizes(current: seq<Item>, items: seq<Item>, target: int)
    ensures |CutFrom(current, items, Law(target))| == |CutFrom(Sizes(current), Sizes(items), SizeLaw(target))|
    decreases |items|
  {
    if items != [] {
      var x, rest := items[0], items[1..];
      assert Sizes(items)[0] == Size(x) && Sizes(items)[1..] == Sizes(rest);
      assert Sizes(current + [x]) == Sizes(current) + [Size(x)];
      assert Sizes([x]) == [Size(x)];
      CutBySizes([x], rest, target);
      CutBySizes(current + [x], rest, target);
    }
  }

  function Reverse<T>(s: seq<T>): (r: seq<T>)
    ensures |r| == |s|
    ensures forall k :: 0 <= k < |s| ==> r[k] == s[|s| - 1 - k]
  {
    seq(|s|, k requires 0 <= k < |s| => s[|s| - 1 - k])
  }

  lemma ReverseTwice<T>(s: seq<T>)
    ensures Reverse(Reverse(s)) == s
  {
  }

  lemma ReverseAppend<T>(a: seq<T>, b: seq<T>)
    ensures Reverse(a + b) == Reverse(b) + Reverse(a)
  {
  }

  lemma {:induction false} ReverseElements<T>(s: seq<T>)
    ensures multiset(Reverse(s)) == multiset(s)
  {
    if s != [] {
      assert s == [s[0]] + s[1..];
      ReverseAppend([s[0]], s[1..]);
      assert Reverse([s[0]]) == [s[0]];
      ReverseElements(s[1..]);
    }
  }

  lemma TotalRemove(s: seq<nat>, k: nat)
    requires k < |s|
    ensures Total(s) == s[k] + Total(Without(s, k))
  {
    hide Total;
    TotalMiddle(s[..k], s[k], s[k + 1..]);
    assert s == s[..k] + ([s[k]] + s[k + 1..]);
  }

  lemma TotalMiddle(a: seq<nat>, x: nat, b: seq<nat>)
    ensures Total(a + ([x] + b)) == x + Total(a + b)
  {
    TotalAppend(a, b);
    TotalAppend(a, [x] + b);
    TotalAppend([x], b);
    assert [x][1..] == [];
  }

  lemma {:induction false} TotalPermutes(a: seq<nat>, b: seq<nat>)
    requires multiset(a) == multiset(b)
    ensures Total(a) == Total(b)
    decreases |a|
  {
    hide Total, Without;
    MembersMatch(a, b);
    if a != [] {
      var k := RemoveCommon(a, b);
      TotalPermutes(Without(a, 0), Without(b, k));
      TotalRemove(a, 0);
      TotalRemove(b, k);
    }
  }

  /** The bounds do not depend on the order of the members. */
  lemma BoundsPermute(a: seq<nat>, b: seq<nat>, target: int)
    requires multiset(a) == multiset(b)
    ensures WithinBounds(a, target) == WithinBounds(b, target)
  {
    TotalPermutes(a, b);
    MembersMatch(a, b);
    if a != [] {
      LeastExact(a);
      LeastExact(b);
    }
  }

  /** A cut read backwards. */
  function Mirror<T>(groups: seq<seq<T>>): seq<seq<T>> {
    if groups == [] then [] else Mirror(groups[1..]) + [Reverse(groups[0])]
  }

  lemma {:induction false} MirrorCut(groups: seq<seq<nat>>, target: int)
    requires AllAdmissible(groups, SizeLaw(target))
    ensures |Mirror(groups)| == |groups|
    ensures Flatten(Mirror(groups)) == Reverse(Flatten(groups))
    ensures AllAdmissible(Mirror(groups), SizeLaw(target))
  {
    if groups != [] {
      var g, rest := groups[0], groups[1..];
      assert groups == [g] + rest;
      MirrorCut(rest, target);
      FlattenAppend(Mirror(rest), [Reverse(g)]);
      assert [Reverse(g)][1..] == [];
      ReverseAppend(g, Flatten(rest));
      ReverseElements(g);
      BoundsPermute(Reverse(g), g, target);
      assert Admissible(g, SizeLaw(target));
    }
  }

  lemma MirrorIsNoBetter(sizes: seq<nat>, target: int)
    ensures |Cut(Reverse(sizes), SizeLaw(target))| <= |Cut(sizes, SizeLaw(target))|
  {
    var groups := Cut(sizes, SizeLaw(target));
    CutPartitions([], sizes, SizeLaw(target));
    assert [] + sizes == sizes;
    MirrorCut(groups, target);
    SizeLawClosed(target);
    CutIsLeast(Reverse(sizes), SizeLaw(target), Mirror(groups));
  }

  function NatKey(n: nat): Key { (n, 0, 0) }

  lemma SizesRemove(s: seq<Item>, k: nat)
    requires k < |s|
    ensures multiset(Sizes(s)) == multiset{Size(s[k])} + multiset(Sizes(Without(s, k)))
  {
    assert Sizes(s) == Sizes(s[..k]) + ([Size(s[k])] + Sizes(s[k + 1..]));
    assert Sizes(s[..k] + s[k + 1..]) == Sizes(s[..k]) + Sizes(s[k + 1..]);
  }

  lemma {:induction false} SizesPermute(a: seq<Item>, b: seq<Item>)
    requires multiset(a) == multiset(b)
    ensures multiset(Sizes(a)) == multiset(Sizes(b))
    decreases |a|
  {
    hide Sizes, Size, Without;
    MembersMatch(a, b);
    if a == [] {
      assert b == a;
    } else {
      var k := RemoveCommon(a, b);
      SizesRemove(a, 0);
      SizesRemove(b, k);
      SizesPermute(Without(a, 0), Without(b, k));
    }
  }

  lemma SortedSizesMirror(items: seq<Item>)
    ensures Sizes(Sort(items, AscendingKey)) == Reverse(Sizes(Sort(items, DescendingKey)))
  {
    var up, down := Sort(items, AscendingKey), Sort(items, DescendingKey);
    SortAscends(items, AscendingKey);
    SortAscends(items, DescendingKey);
    var a, b := Sizes(up), Reverse(Sizes(down));
    SizesPermute(up, down);
    ReverseElements(Sizes(down));
    forall i, j | 0 <= i < j < |a| ensures Le(NatKey(a[i]), NatKey(a[j])) {
      assert Le(AscendingKey(up[i]), AscendingKey(up[j]));
    }
    forall i, j | 0 <= i < j < |b| ensures Le(NatKey(b[i]), NatKey(b[j])) {
      var n := |down| - 1;
      assert Le(DescendingKey(down[n - j]), DescendingKey(down[n - i]));
    }
    OrderedUnique(a, b, NatKey);
  }

  /** `ascending_greedy` and `descending_greedy` make the same number of packs on every input. */
  lemma AscendingEqualsDescending(items: seq<Item>, target: int)
    ensures |AscendingGroups(items, target)| == |DescendingGroups(items, target)|
  {
    var up, down := Sort(items, AscendingKey), Sort(items, DescendingKey);
    CutBySizes([], up, target);
    CutBySizes([], down, target);
    assert Sizes([]) == [];
    SortedSizesMirror(items);
    ReverseTwice(Sizes(down));
    MirrorIsNoBetter(Sizes(down), target);
    MirrorIsNoBetter(Sizes(up), target);
  }

  /** A larger target never makes more packs. */
  lemma LargerTargetFewerPacks(items: seq<Item>, small: int, large: int)
    requires small <= large
    ensures |AscendingGroups(items, large)| <= |AscendingGroups(items, small)|
  {
    LawClosed(large);
    WeakerLawFewerGroups(Sort(items, AscendingKey), Law(small), Law(large));
  }

  // ----- Best fit, decreasing

  function Used(rows: seq<Item>): int { Total(Sizes(rows)) }

  /** The tightest bin among the first `n` that takes `it`, the lowest index on a tie; -1 if none. */
  function Choose(bins: seq<seq<Item>>, target: int, it: Item, n: nat): (best: int)
    requires n <= |bins|
    ensures -1 <= best < n
    ensures best >= 0 ==> Fits(bins[best], target, it)
  {
    if n == 0 then -1
    else
      var best := Choose(bins, target, it, n - 1);
      if !Fits(bins[n - 1], target, it) then best
      else if best == -1 || Used(bins[n - 1]) > Used(bins[best]) then n - 1
      else best
  }

  /** It is the minimum of (slack, index) over the bins that take the item, and -1 only if none does. */
  lemma {:induction false} ChooseExact(bins: seq<seq<Item>>, target: int, it: Item, n: nat)
    requires n <= |bins|
    ensures var best := Choose(bins, target, it, n);
            forall j :: 0 <= j < n && Fits(bins[j], target, it) ==>
              && best >= 0
              && (var slack, rival := target - Used(bins[best]), target - Used(bins[j]);
                  slack < rival || (slack == rival && best <= j))
  {
    if n > 0 {
      ChooseExact(bins, target, it, n - 1);
    }
  }

  function Place(bins: seq<seq<Item>>, target: int, it: Item): seq<seq<Item>> {
    var k := Choose(bins, target, it, |bins|);
    if k >= 0 then bins[k := bins[k] + [it]] else bins + [[it]]
  }

  function FillBins(bins: seq<seq<Item>>, items: seq<Item>, target: int): seq<seq<Item>>
    decreases |items|
  {
    if items == [] then bins else FillBins(Place(bins, target, items[0]), items[1..], target)
  }

  /** The bins in the order in which they were opened. */
  function BestFitBins(items: seq<Item>, target: int): seq<seq<Item>> {
    FillBins([], Sort(items, DescendingKey), target)
  }

  function BinKey(bin: seq<Item>): Key {
    if bin == [] then (0, 0, 0) else AscendingKey(bin[0])
  }

  function BestFitGroups(items: seq<Item>, target: int): seq<seq<Item>> {
    Sort(BestFitBins(items, target), BinKey)
  }

  /** No bin can take the item that opened a later bin. */
  ghost predicate Unmergeable(bins: seq<seq<Item>>, target: int) {
    && (forall b :: b in bins ==> b != [])
    && forall i, j | 0 <= i < j < |bins| :: bins[j] != [] && !Fits(bins[i], target, bins[j][0])
  }

  /** A bin that has grown takes no more than before: its total rose and its minimum fell. */
  lemma GrownFitsLess(rows: seq<Item>, x: Item, target: int, it: Item)
    requires rows != [] && Fits(rows + [x], target, it)
    ensures Fits(rows, target, it)
  {
    var a := Sizes(rows);
    assert Sizes(rows + [x]) == a + [Size(x)];
    TotalAppend(a + [Size(x)], [Size(it)]);
    TotalAppend(a, [Size(x)]);
    TotalAppend(a, [Size(it)]);
    LeastExact(a + [Size(it)]);
    LeastExact(a + [Size(x)] + [Size(it)]);
    var least := Least(a + [Size(it)]);
    assert least in a + [Size(x)] + [Size(it)];
  }

  lemma PlaceUnmergeable(bins: seq<seq<Item>>, target: int, it: Item)
    requires Unmergeable(bins, target)
    ensures Unmergeable(Place(bins, target, it), target)
  {
    hide Fits, Choose;
    var k, out := Choose(bins, target, it, |bins|), Place(bins, target, it);
    ChooseExact(bins, target, it, |bins|);
    forall j | 0 <= j < |out| ensures out[j] != [] && (j < |bins| ==> bins[j] != [] && out[j][0] == bins[j][0]) {
      assert j < |bins| ==> bins[j] in bins;
    }
    forall i, j | 0 <= i < j < |out| ensures !Fits(out[i], target, out[j][0]) {
      if i == k && Fits(out[i], target, out[j][0]) {
        GrownFitsLess(bins[k], it, target, out[j][0]);
      }
    }
  }

  lemma PlaceAdmissible(bins: seq<seq<Item>>, target: int, it: Item)
    requires AllAdmissible(bins, Law(target))
    ensures AllAdmissible(Place(bins, target, it), Law(target))
  {
    hide Choose, WithinBounds;
    var k, out := Choose(bins, target, it, |bins|), Place(bins, target, it);
    forall g | g in out ensures Admissible(g, Law(target)) {
      var i :| 0 <= i < |out| && out[i] == g;
      if i == k {
        FitsIsLaw(bins[k], target, it);
      } else if i < |bins| {
        assert bins[i] in bins;
      }
    }
  }

  lemma PlaceAdds(bins: seq<seq<Item>>, target: int, it: Item)
    ensures multiset(Flatten(Place(bins, target, it))) == multiset(Flatten(bins)) + multiset{it}
  {
    hide Choose;
    var k, out := Choose(bins, target, it, |bins|), Place(bins, target, it);
    if k >= 0 {
      FlattenRemoveOne(bins, k);
      FlattenRemoveOne(out, k);
      assert Without(out, k) == Without(bins, k);
    } else {
      FlattenAppend(bins, [[it]]);
      assert Flatten([[it]]) == [it] by { assert [[it]][1..] == []; }
    }
  }

  lemma {:induction false} FillKeeps(bins: seq<seq<Item>>, items: seq<Item>, target: int)
    requires Unmergeable(bins, target) && AllAdmissible(bins, Law(target))
    ensures Unmergeable(FillBins(bins, items, target), target)
    ensures AllAdmissible(FillBins(bins, items, target), Law(target))
    ensures multiset(Flatten(FillBins(bins, items, target))) == multiset(Flatten(bins)) + multiset(items)
    decreases |items|
  {
    hide Place, Unmergeable, AllAdmissible, Flatten;
    if items != [] {
      PlaceUnmergeable(bins, target, items[0]);
      PlaceAdmissible(bins, target, items[0]);
      PlaceAdds(bins, target, items[0]);
      FillKeeps(Place(bins, target, items[0]), items[1..], target);
      MultisetTail(items);
    }
  }

  /** `best_fit_desc` packs all items, and no two of its packs could have been one. */
  lemma BestFitPacks(items: seq<Item>, target: int)
    ensures Packing(BestFitGroups(items, target), items, target)
    ensures var bins := BestFitBins(items, target);
            && multiset(BestFitGroups(items, target)) == multiset(bins)
            && Unmergeable(bins, target)
            && forall i, j | 0 <= i < j < |bins| :: !Law(target)(bins[i] + bins[j])
  {
    var bins := BestFitBins(items, target);
    FillKeeps([], Sort(items, DescendingKey), target);
    MembersMatch(BestFitGroups(items, target), bins);
    FlattenPermutes(BestFitGroups(items, target), bins);
    LawClosed(target);
    forall i, j | 0 <= i < j < |bins| ensures !Law(target)(bins[i] + bins[j]) {
      MergedBinsTakeOpener(bins[i], bins[j], target);
    }
  }

  lemma MergedBinsTakeOpener(a: seq<Item>, b: seq<Item>, target: int)
    requires SliceClosed(Law(target)) && b != []
    ensures Law(target)(a + b) ==> Fits(a, target, b[0])
  {
    FitsIsLaw(a, target, b[0]);
    assert a + b == [] + (a + [b[0]]) + b[1..];
  }

  // ----- Size classes

  function Pow2(n: nat): (p: nat)
    ensures p > 0
  {
    if n == 0 then 1 else 2 * Pow2(n - 1)
  }

  function BitLength(v: nat): (n: nat)
    ensures v >= 1 ==> n >= 1 && Pow2(n - 1) <= v < Pow2(n)
  {
    if v == 0 then 0
    else if v == 1 then
      assert Pow2(1) == 2 by { assert Pow2(0) == 1; }
      1
    else
      var n := BitLength(v / 2);
      assert Pow2(n + 1) == 2 * Pow2(n) && Pow2(n) == 2 * Pow2(n - 1);
      1 + n
  }

  function ClassOf(it: Item): int { BitLength(AtLeastOne(Size(it))) - 1 }

  function CutClasses(classes: seq<Bucket<Item>>, target: int): seq<seq<Item>> {
    if classes == [] then []
    else Cut(Sort(classes[0].members, AscendingKey), Law(target)) + CutClasses(classes[1..], target)
  }

  function SizeClassGroups(items: seq<Item>, target: int): seq<seq<Item>> {
    CutClasses(Sort(GroupBy(items, ClassOf), BucketKey), target)
  }

  /** Members of one pack differ by less than a factor of two. */
  ghost predicate Even(g: seq<Item>) {
    forall x, y :: x in g && y in g ==> AtLeastOne(Size(x)) < 2 * AtLeastOne(Size(y))
  }

  lemma SameClassEven(x: Item, y: Item)
    requires ClassOf(x) == ClassOf(y)
    ensures AtLeastOne(Size(x)) < 2 * AtLeastOne(Size(y))
  {
    var n := BitLength(AtLeastOne(Size(x)));
    assert Pow2(n) == 2 * Pow2(n - 1);
  }

  lemma {:induction false} ClassesPack(classes: seq<Bucket<Item>>, target: int)
    requires forall c, x :: c in classes && x in c.members ==> ClassOf(x) == c.key
    ensures multiset(Flatten(CutClasses(classes, target))) == multiset(Listed(classes))
    ensures AllAdmissible(CutClasses(classes, target), Law(target))
    ensures forall g :: g in CutClasses(classes, target) ==> Even(g)
  {
    if classes != [] {
      var c, rest := classes[0], classes[1..];
      assert classes == [c] + rest;
      ClassesPack(rest, target);
      var sorted := Sort(c.members, AscendingKey);
      var cut := Cut(sorted, Law(target));
      CutIsPacking(sorted, c.members, target);
      FlattenAppend(cut, CutClasses(rest, target));
      MembersMatch(Flatten(cut), c.members);
      forall g | g in cut ensures Even(g) {
        forall x, y | x in g && y in g ensures AtLeastOne(Size(x)) < 2 * AtLeastOne(Size(y)) {
          FlattenMember(cut, x);
          FlattenMember(cut, y);
          SameClassEven(x, y);
        }
      }
    }
  }

  /** `size_class` packs all items, in packs of members of similar size. */
  lemma SizeClassPacks(items: seq<Item>, target: int)
    ensures Packing(SizeClassGroups(items, target), items, target)
    ensures forall g :: g in SizeClassGroups(items, target) ==> Even(g)
  {
    var groups := GroupBy(items, ClassOf);
    var classes := Sort(groups, BucketKey);
    GroupByGroups(items, ClassOf);
    ListedPermutes(items, ClassOf);
    ListedSort(groups, classes);
    MembersMatch(groups, classes);
    forall c, x | c in classes && x in c.members ensures ClassOf(x) == c.key {
      assert c in groups;
    }
    ClassesPack(classes, target);
  }

  // ----- The procedures

  method BestFit(items: seq<Item>, target: int) returns (out: seq<seq<Item>>)
    ensures out == BestFitGroups(items, target)
  {
    hide FillBins, Choose, Fits, Used, Sort;
    var ordered := Sort(items, DescendingKey);
    var bins: seq<seq<Item>> := [];
    assert ordered[0..] == ordered;
    for k := 0 to |ordered|
      invariant FillBins(bins, ordered[k..], target) == BestFitBins(items, target)
    {
      FillStep(bins, ordered, k, target);
      var best := -1;
      ChooseNothing(bins, target, ordered[k]);
      for index := 0 to |bins|
        invariant best == Choose(bins, target, ordered[k], index)
      {
        ChooseStep(bins, target, ordered[k], index);
        if Fits(bins[index], target, ordered[k]) {
          if best == -1 || target - Used(bins[index]) < target - Used(bins[best]) {
            best := index;
          }
        }
      }
      if best >= 0 {
        bins := bins[best := bins[best] + [ordered[k]]];
      } else {
        bins := bins + [[ordered[k]]];
      }
    }
    FillStep(bins, ordered, |ordered|, target);
    out := Sort(bins, BinKey);
  }

  lemma FillStep(bins: seq<seq<Item>>, ordered: seq<Item>, k: nat, target: int)
    requires k <= |ordered|
    ensures FillBins(bins, ordered[k..], target) ==
            if k == |ordered| then bins else FillBins(Place(bins, target, ordered[k]), ordered[k + 1..], target)
  {
    hide Place;
    if k < |ordered| {
      assert ordered[k..][0] == ordered[k] && ordered[k..][1..] == ordered[k + 1..];
    }
  }

  lemma ChooseNothing(bins: seq<seq<Item>>, target: int, it: Item)
    ensures Choose(bins, target, it, 0) == -1
  {
  }

  lemma ChooseStep(bins: seq<seq<Item>>, target: int, it: Item, n: nat)
    requires n < |bins|
    ensures Choose(bins, target, it, n + 1) ==
            var best := Choose(bins, target, it, n);
            if !Fits(bins[n], target, it) then best
            else if best == -1 || Used(bins[n]) > Used(bins[best]) then n
            else best
  {
    hide Fits, Used;
  }

  method Classify(items: seq<Item>) returns (groups: seq<Bucket<Item>>)
    ensures groups == GroupBy(items, ClassOf)
  {
    hide AddTo, GroupBy;
    groups := GroupBy([], ClassOf);
    for k := 0 to |items|
      invariant groups == GroupBy(items[..k], ClassOf)
    {
      GroupByStep(items[..k], items[k], ClassOf);
      assert items[..k] + [items[k]] == items[..k + 1];
      groups := AddTo(groups, ClassOf(items[k]), items[k]);
    }
    assert items[..|items|] == items;
  }

  method SizeClasses(items: seq<Item>, target: int) returns (out: seq<seq<Item>>)
    ensures out == SizeClassGroups(items, target)
  {
    hide Cut, Sort, GroupBy;
    var groups := Classify(items);
    var classes := Sort(groups, BucketKey);
    out := [];
    assert classes[0..] == classes;
    for c := 0 to |classes|
      invariant out + CutClasses(classes[c..], target) == CutClasses(classes, target)
    {
      assert classes[c..][0] == classes[c] && classes[c..][1..] == classes[c + 1..];
      var cut := Segment(Sort(classes[c].members, AscendingKey), target);
      assert out + (cut + CutClasses(classes[c + 1..], target)) == (out + cut) + CutClasses(classes[c + 1..], target);
      out := out + cut;
    }
  }

  datatype Strategy = AscendingGreedy | DescendingGreedy | BestFitDesc | SizeClass

  function GroupsBy(items: seq<Item>, target: int, strategy: Strategy): seq<seq<Item>> {
    match strategy
    case AscendingGreedy => AscendingGroups(items, target)
    case DescendingGreedy => DescendingGroups(items, target)
    case BestFitDesc => BestFitGroups(items, target)
    case SizeClass => SizeClassGroups(items, target)
  }

  method Groups(items: seq<Item>, target: int, strategy: Strategy) returns (out: seq<seq<Item>>)
    ensures out == GroupsBy(items, target, strategy)
  {
    match strategy {
      case AscendingGreedy => out := Segment(Sort(items, AscendingKey), target);
      case DescendingGreedy => out := Segment(Sort(items, DescendingKey), target);
      case BestFitDesc => out := BestFit(items, target);
      case SizeClass => out := SizeClasses(items, target);
    }
  }

  /** Whatever the strategy: every item is packed once, every pack is a singleton or within the target,
      and the builder's locality guard never fires. */
  lemma EveryStrategyPacks(items: seq<Item>, target: int, strategy: Strategy)
    ensures Packing(GroupsBy(items, target, strategy), items, target)
    ensures forall g :: g in GroupsBy(items, target, strategy) ==>
              g != [] && LocalityHolds(g) && (|g| == 1 || Total(Sizes(g)) <= target)
  {
    GreedyPacks(items, target);
    BestFitPacks(items, target);
    SizeClassPacks(items, target);
    var groups := GroupsBy(items, target, strategy);
    assert Packing(groups, items, target);
    forall g | g in groups ensures g != [] && LocalityHolds(g) && (|g| == 1 || Total(Sizes(g)) <= target) {
      AdmissibleIsLocal(g, target);
    }
  }

  // ----- The incremental packer

  ghost predicate SizesAscend(items: seq<Item>) {
    forall i, j | 0 <= i < j < |items| :: Size(items[i]) <= Size(items[j])
  }

  /** In an ascending group the first member is the smallest, and the sum can be kept up to date. */
  lemma TrackedFits(group: seq<Item>, target: int, it: Item)
    requires group != [] && SizesAscend(group + [it])
    ensures var used := Used(group) + Size(it);
            Fits(group, target, it) <==> used <= target && used <= LOCALITY * AtLeastOne(Size(group[0]))
  {
    var sizes := Sizes(group) + [Size(it)];
    TotalAppend(Sizes(group), [Size(it)]);
    LeastExact(sizes);
    var whole := group + [it];
    assert sizes == Sizes(whole);
    var k :| 0 <= k < |sizes| && sizes[k] == Least(sizes);
    assert sizes[0] in sizes && sizes[0] == Size(group[0]);
    assert k == 0 || Size(whole[0]) <= Size(whole[k]);
  }

  /** The packer that keeps only the running total and the first member's size makes exactly the
      groups of `ascending_greedy`, which recomputes both at every step. */
  method LocalitySafeGroups(items: seq<Item>, target: int) returns (out: seq<seq<Item>>)
    ensures out == AscendingGroups(items, target)
  {
    var ordered := Sort(items, AscendingKey);
    SortAscends(items, AscendingKey);
    assert SizesAscend(ordered) by {
      forall i, j | 0 <= i < j < |ordered| ensures Size(ordered[i]) <= Size(ordered[j]) {
        assert Le(AscendingKey(ordered[i]), AscendingKey(ordered[j]));
      }
    }
    out := IncrementalCut(ordered, target);
  }

  lemma UsedAppend(group: seq<Item>, it: Item)
    ensures Used(group + [it]) == Used(group) + Size(it)
    ensures Used([]) == 0
  {
    TotalAppend(Sizes(group), [Size(it)]);
    assert Sizes(group + [it]) == Sizes(group) + [Size(it)];
    assert Sizes([]) == [];
  }

  lemma CutEnds(target: int)
    ensures Used([]) == 0
    ensures forall group :: CutFrom(group, [], Law(target)) == if group == [] then [] else [group]
  {
  }

  lemma Reassociate(out: seq<seq<Item>>, group: seq<Item>, rest: seq<seq<Item>>)
    ensures out + ([group] + rest) == (out + [group]) + rest
  {
  }

  lemma SliceAscends(ordered: seq<Item>, start: nat, k: nat)
    requires SizesAscend(ordered) && start <= k < |ordered|
    ensures ordered[start..k] + [ordered[k]] == ordered[start..k + 1]
    ensures SizesAscend(ordered[start..k] + [ordered[k]])
  {
  }

  /** The test on the tracked values is the test that recomputes them. */
  lemma FlushDecision(group: seq<Item>, target: int, it: Item, smallest: int)
    requires SizesAscend(group + [it])
    requires smallest == if group == [] then -1 else Size(group[0]) as int
    ensures var used := Used(group) + Size(it);
            var least := AtLeastOne(if smallest >= 0 then smallest else Size(it));
            group != [] ==> (!Fits(group, target, it) <==> used > target || used > LOCALITY * least)
  {
    if group != [] {
      TrackedFits(group, target, it);
    }
  }

  method IncrementalCut(ordered: seq<Item>, target: int) returns (out: seq<seq<Item>>)
    requires SizesAscend(ordered)
    ensures out == Cut(ordered, Law(target))
  {
    hide CutFrom, Fits, Used, Size, AtLeastOne, SizesAscend;
    out := [];
    var group: seq<Item> := [];
    var used, smallest: int := 0, -1;
    CutEnds(target);
    ghost var start := 0;
    ghost var whole := Cut(ordered, Law(target));
    assert ordered[0..] == ordered;
    for k := 0 to |ordered|
      invariant 0 <= start <= k && group == ordered[start..k]
      invariant used == Used(group)
      invariant smallest == if group == [] then -1 else Size(group[0]) as int
      invariant whole == out + CutFrom(group, ordered[k..], Law(target))
    {
      var it := ordered[k];
      var size := Size(it);
      var candidateSmallest := AtLeastOne(if smallest >= 0 then smallest else size);
      var candidateUsed := used + size;
      CutStep(group, ordered, k, target);
      SliceAscends(ordered, start, k);
      FlushDecision(group, target, it, smallest);
      if group != [] && (candidateUsed > target || candidateUsed > LOCALITY * candidateSmallest) {
        Reassociate(out, group, CutFrom([] + [it], ordered[k + 1..], Law(target)));
        out := out + [group];
        group := [];
        used := 0;
        smallest := -1;
        start := k;
      }
      if group == [] {
        smallest := size;
      }
      UsedAppend(group, it);
      group := group + [it];
      used := used + size;
    }
    assert ordered[|ordered|..] == [] && out + [] == out;
    assert whole == out + CutFrom(group, [], Law(target));
    if group != [] {
      out := out + [group];
    }
  }
}
