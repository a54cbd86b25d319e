/** The locality-bounded micro-packers: which contents share a pack. */
module LocalityPack {
  import opened Sorting
  import opened GreedyCut
  import opened ByteLayout
  import opened Numbers

  const LOCALITY := 8

  /** A content candidate: its digest, as a number, and its bytes. */
  datatype Item = Item(digest: int, raw: Bytes)

  function Size(it: Item): nat { |it.raw| }

  function Sizes(g: seq<Item>): (r: seq<nat>)
    ensures |r| == |g|
    ensures forall k :: 0 <= k < |g| ==> r[k] == Size(g[k])
  {
    seq(|g|, k requires 0 <= k < |g| => Size(g[k]))
  }

  /** Within the target, and within eight times the smallest member. */
  predicate WithinBounds(sizes: seq<nat>, target: int) {
    Total(sizes) <= target && Total(sizes) <= LOCALITY * AtLeastOne(Least(sizes))
  }

  function SizeLaw(target: int): seq<nat> -> bool {
    (sizes: seq<nat>) => WithinBounds(sizes, target)
  }

  function Law(target: int): seq<Item> -> bool {
    (g: seq<Item>) => WithinBounds(Sizes(g), target)
  }

  /** `_fits` */
  predicate Fits(rows: seq<Item>, target: int, it: Item) {
    var sizes := Sizes(rows) + [Size(it)];
    Total(sizes) <= target && Total(sizes) <= LOCALITY * AtLeastOne(Least(sizes))
  }

  lemma FitsIsLaw(rows: seq<Item>, target: int, it: Item)
    ensures Fits(rows, target, it) == Law(target)(rows + [it])
  {
    assert Sizes(rows + [it]) == Sizes(rows) + [Size(it)];
  }

  // ----- Slices

  lemma LeastOfPart(a: seq<nat>, b: seq<nat>, c: seq<nat>)
    requires b != []
    ensures Least(a + b + c) <= Least(b)
  {
    LeastExact(b);
    LeastExact(a + b + c);
    assert Least(b) in a + b + c;
  }

  /** Every non-empty slice of sizes within the bounds is within the bounds. */
  lemma SizeLawClosed(target: int)
    ensures SliceClosed(SizeLaw(target))
  {
    forall a: seq<nat>, b: seq<nat>, c: seq<nat> | b != [] && SizeLaw(target)(a + b + c)
      ensures SizeLaw(target)(b)
    {
      TotalAppend(a + b, c);
      TotalAppend(a, b);
      TotalNonNegative(a);
      TotalNonNegative(c);
      LeastOfPart(a, b, c);
    }
  }

  lemma LawClosed(target: int)
    ensures SliceClosed(Law(target))
  {
    SizeLawClosed(target);
    forall a: seq<Item>, b: seq<Item>, c: seq<Item> | b != [] && Law(target)(a + b + c)
      ensures Law(target)(b)
    {
      assert Sizes(a + b + c) == Sizes(a) + Sizes(b) + Sizes(c);
      assert SizeLaw(target)(Sizes(a) + Sizes(b) + Sizes(c));
    }
  }

  // ----- Orders

  function AscendingKey(it: Item): Key { (Size(it), it.digest, 0) }

  function DescendingKey(it: Item): Key { (0 - Size(it) as int, it.digest, 0) }

  // ----- The greedy loop, shared by ascending, descending, size classes and the stable packer

  method Segment(ordered: seq<Item>, target: int) returns (out: seq<seq<Item>>)
    ensures out == Cut(ordered, Law(target))
  {
    out := [];
    var cur: seq<Item> := [];
    ghost var whole := Cut(ordered, Law(target));
    assert ordered[0..] == ordered;
    for k := 0 to |ordered|
      invariant whole == out + CutFrom(cur, ordered[k..], Law(target))
    {
      CutStep(cur, ordered, k, target);
      if cur != [] && !Fits(cur, target, ordered[k]) {
        ghost var rest := CutFrom([ordered[k]], ordered[k + 1..], Law(target));
        assert out + ([cur] + rest) == (out + [cur]) + rest;
        out := out + [cur];
        cur := [];
      }
      cur := cur + [ordered[k]];
    }
    if cur != [] {
      out := out + [cur];
    }
  }

  lemma CutStep(cur: seq<Item>, ordered: seq<Item>, k: nat, target: int)
    requires k < |ordered|
    ensures CutFrom(cur, ordered[k..], Law(target)) ==
            if cur != [] && !Fits(cur, target, ordered[k])
            then [cur] + CutFrom([] + [ordered[k]], ordered[k + 1..], Law(target))
            else CutFrom(cur + [ordered[k]], ordered[k + 1..], Law(target))
  {
    FitsIsLaw(cur, target, ordered[k]);
    assert ordered[k..][0] == ordered[k] && ordered[k..][1..] == ordered[k + 1..];
    assert [] + [ordered[k]] == [ordered[k]];
  }

  // ----- What the builder demands of a group

  /** The builder's guard: the pack is no longer than eight times its smallest member. */
  ghost predicate LocalityHolds(g: seq<Item>) {
    forall it :: it in g ==> Total(Sizes(g)) <= LOCALITY * AtLeastOne(Size(it))
  }

  /** The guard that raises on a locality violation is unreachable for an admissible group. */
  lemma AdmissibleIsLocal(g: seq<Item>, target: int)
    requires Admissible(g, Law(target))
    ensures LocalityHolds(g)
    ensures |g| > 1 ==> Total(Sizes(g)) <= target
  {
    var sizes := Sizes(g);
    LeastExact(sizes);
    forall it | it in g ensures Total(sizes) <= LOCALITY * AtLeastOne(Size(it)) {
      var k :| 0 <= k < |g| && g[k] == it;
      assert sizes[k] in sizes;
      if |g| == 1 {
        assert sizes == [sizes[0]] && sizes[1..] == [];
      }
    }
  }

  /** A packing of some items: all of them, in groups that the law admits. */
  ghost predicate Packing(groups: seq<seq<Item>>, items: seq<Item>, target: int) {
    && multiset(Flatten(groups)) == multiset(items)
    && AllAdmissible(groups, Law(target))
  }

  function AscendingGroups(items: seq<Item>, target: int): seq<seq<Item>> {
    Cut(Sort(items, AscendingKey), Law(target))
  }

  function DescendingGroups(items: seq<Item>, target: int): seq<seq<Item>> {
    Cut(Sort(items, DescendingKey), Law(target))
  }

  lemma CutIsPacking(ordered: seq<Item>, items: seq<Item>, target: int)
    requires multiset(ordered) == multiset(items)
    ensures Packing(Cut(ordered, Law(target)), items, target)
  {
    CutPartitions([], ordered, Law(target));
    assert [] + ordered == ordered;
  }

  /** `ascending_greedy` and `descending_greedy` pack all items, and each has the fewest groups of all
      cuts of its own order into admissible groups. */
  lemma GreedyPacks(items: seq<Item>, target: int)
    ensures Packing(AscendingGroups(items, target), items, target)
    ensures Packing(DescendingGroups(items, target), items, target)
    ensures forall rival :: AllAdmissible(rival, Law(target)) && Flatten(rival) == Sort(items, AscendingKey)
              ==> |AscendingGroups(items, target)| <= |rival|
    ensures forall rival :: AllAdmissible(rival, Law(target)) && Flatten(rival) == Sort(items, DescendingKey)
              ==> |DescendingGroups(items, target)| <= |rival|
  {
    LawClosed(target);
    CutIsPacking(Sort(items, AscendingKey), items, target);
    CutIsPacking(Sort(items, DescendingKey), items, target);
    forall rival | AllAdmissible(rival, Law(target)) && Flatten(rival) == Sort(items, AscendingKey)
      ensures |AscendingGroups(items, target)| <= |rival|
    {
      CutIsLeast(Sort(items, AscendingKey), Law(target), rival);
    }
    forall rival | AllAdmissible(rival, Law(target)) && Flatten(rival) == Sort(items, DescendingKey)
      ensures |DescendingGroups(items, target)| <= |rival|
    {
      CutIsLeast(Sort(items, DescendingKey), Law(target), rival);
    }
  }
}
