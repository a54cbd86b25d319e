/** Cutting an ordered list greedily into consecutive groups, for any admissibility law that every
    slice of an admissible group obeys as well. */
module GreedyCut {
  import opened Sorting

  /** A group is a single element, or obeys the law. */
  predicate Admissible<T>(g: seq<T>, law: seq<T> -> bool) {
    |g| == 1 || (g != [] && law(g))
  }

  ghost predicate AllAdmissible<T>(groups: seq<seq<T>>, law: seq<T> -> bool) {
    forall g :: g in groups ==> Admissible(g, law)
  }

  ghost predicate SliceClosed<T(!new)>(law: seq<T> -> bool) {
    forall a: seq<T>, b: seq<T>, c: seq<T> :: b != [] && law(a + b + c) ==> law(b)
  }

  /** The loop: `current` is the open group; an element that it cannot take opens the next one. */
  function CutFrom<T>(current: seq<T>, items: seq<T>, law: seq<T> -> bool): seq<seq<T>>
    decreases |items|
  {
    if items == [] then if current == [] then [] else [current]
    else if current != [] && !law(current + [items[0]]) then
      [current] + CutFrom([items[0]], items[1..], law)
    else CutFrom(current + [items[0]], items[1..], law)
  }

  function Cut<T>(items: seq<T>, law: seq<T> -> bool): seq<seq<T>> {
    CutFrom([], items, law)
  }

  /** The groups are the list, in order, cut into admissible pieces. */
  lemma {:induction false} CutPartitions<T>(current: seq<T>, items: seq<T>, law: seq<T> -> bool)
    requires current == [] || Admissible(current, law)
    ensures Flatten(CutFrom(current, items, law)) == current + items
    ensures AllAdmissible(CutFrom(current, items, law), law)
    decreases |items|
  {
    if items != [] {
      var x, rest := items[0], items[1..];
      assert items == [x] + rest;
      if current != [] && !law(current + [x]) {
        CutPartitions([x], rest, law);
        var out := CutFrom([x], rest, law);
        assert ([current] + out)[1..] == out;
      } else {
        CutPartitions(current + [x], rest, law);
        assert current + [x] + rest == current + items;
      }
    } else if current != [] {
      assert [current][1..] == [];
      assert current + [] == current;
    }
  }

  /** The first group starts with the open one. */
  lemma {:induction false} CutKeepsOpen<T>(current: seq<T>, items: seq<T>, law: seq<T> -> bool)
    requires current != []
    ensures CutFrom(current, items, law) != [] && current <= CutFrom(current, items, law)[0]
    decreases |items|
  {
    if items != [] && law(current + [items[0]]) {
      CutKeepsOpen(current + [items[0]], items[1..], law);
    }
  }

  /** `g` cannot take the element that opens `h`. */
  ghost predicate Barred<T>(g: seq<T>, h: seq<T>, law: seq<T> -> bool) {
    h != [] && !law(g + [h[0]])
  }

  ghost predicate AllBarred<T>(groups: seq<seq<T>>, law: seq<T> -> bool) {
    forall k :: 0 < k < |groups| ==> Barred(groups[k - 1], groups[k], law)
  }

  /** No group could have taken the element that opens the next one: with `CutPartitions` this leaves only
      one possible cut. */
  lemma {:induction false} CutIsGreedy<T>(current: seq<T>, items: seq<T>, law: seq<T> -> bool)
    ensures AllBarred(CutFrom(current, items, law), law)
    decreases |items|
  {
    if items != [] {
      var x, rest := items[0], items[1..];
      if current != [] && !law(current + [x]) {
        CutIsGreedy([x], rest, law);
        CutKeepsOpen([x], rest, law);
        var groups, tail := CutFrom(current, items, law), CutFrom([x], rest, law);
        assert groups == [current] + tail && tail[0][0] == x;
        forall k | 0 < k < |groups| ensures Barred(groups[k - 1], groups[k], law) {
          assert groups[k] == tail[k - 1] && (k > 1 ==> groups[k - 1] == tail[k - 2]);
        }
        assert AllBarred(groups, law);
      } else {
        CutIsGreedy(current + [x], rest, law);
      }
    }
  }

  /** Whatever the competing cut of any list that ends in `current + items`, it has no fewer groups:
      the greedy cut is never behind. */
  lemma {:induction false} CutLeast<T(!new)>(
    current: seq<T>, items: seq<T>, law: seq<T> -> bool, lead: seq<T>, rival: seq<seq<T>>)
    requires SliceClosed(law)
    requires AllAdmissible(rival, law)
    requires Flatten(rival) == lead + current + items
    ensures |CutFrom(current, items, law)| <= |rival|
    decreases |items|
  {
    assert rival == [] ==> |Flatten(rival)| == 0;
    if items != [] {
      var x, rest := items[0], items[1..];
      assert items == [x] + rest;
      if current != [] && !law(current + [x]) {
        var lead' := RivalBehind(current, x, rest, law, lead, rival);
        CutLeast([x], rest, law, lead', rival[1..]);
      } else {
        assert lead + current + items == lead + (current + [x]) + rest;
        CutLeast(current + [x], rest, law, lead, rival);
      }
    }
  }

  /** A group that covers `current + [x]` and obeys the law makes `current + [x]` obey it. */
  lemma ReachesTooFar<T(!new)>(g: seq<T>, lead: seq<T>, current: seq<T>, x: T, rest: seq<T>, law: seq<T> -> bool)
    requires SliceClosed(law) && law(g) && |g| > |lead| + |current|
    requires g <= lead + current + ([x] + rest)
    ensures law(current + [x])
  {
    var c := g[|lead| + |current| + 1..];
    assert g == lead + (current + [x]) + c;
  }

  /** The rival's first group cannot reach `x`: it would contain `current + [x]`, which breaks the law. */
  lemma RivalBehind<T(!new)>(
    current: seq<T>, x: T, rest: seq<T>, law: seq<T> -> bool, lead: seq<T>, rival: seq<seq<T>>)
    returns (lead': seq<T>)
    requires SliceClosed(law) && AllAdmissible(rival, law) && rival != []
    requires Flatten(rival) == lead + current + ([x] + rest)
    requires current != [] && !law(current + [x])
    ensures Flatten(rival[1..]) == lead' + [x] + rest
  {
    var g, tail := rival[0], Flatten(rival[1..]);
    var whole := lead + current + ([x] + rest);
    assert g + tail == whole;
    assert Admissible(g, law) && g == whole[..|g|];
    if |g| > |lead| + |current| {
      ReachesTooFar(g, lead, current, x, rest, law);
    }
    lead' := whole[|g|..|lead| + |current|];
    assert tail == whole[|g|..];
    assert tail == lead' + ([x] + rest);
    assert lead' + ([x] + rest) == lead' + [x] + rest;
  }

  /** The greedy cut has the fewest groups of all cuts into admissible consecutive groups. */
  lemma CutIsLeast<T(!new)>(items: seq<T>, law: seq<T> -> bool, rival: seq<seq<T>>)
    requires SliceClosed(law)
    requires AllAdmissible(rival, law) && Flatten(rival) == items
    ensures |Cut(items, law)| <= |rival|
  {
    assert [] + [] + items == items;
    CutLeast([], items, law, [], rival);
  }

  /** A list that obeys the law is not cut at all. */
  lemma CutIsWhole<T(!new)>(items: seq<T>, law: seq<T> -> bool)
    requires SliceClosed(law) && law(items) && items != []
    ensures Cut(items, law) == [items]
  {
    hide CutFrom;
    var groups := Cut(items, law);
    assert [items][1..] == [] && items + [] == items;
    CutIsLeast(items, law, [items]);
    CutPartitions([], items, law);
    assert [] + items == items;
    assert groups == [] ==> |Flatten(groups)| == 0;
    assert groups[1..] == [] && groups[0] + [] == groups[0];
  }

  /** A weaker law never needs more groups. */
  lemma WeakerLawFewerGroups<T(!new)>(items: seq<T>, law: seq<T> -> bool, weaker: seq<T> -> bool)
    requires SliceClosed(weaker)
    requires forall g :: law(g) ==> weaker(g)
    ensures |Cut(items, weaker)| <= |Cut(items, law)|
  {
    CutPartitions([], items, law);
    assert [] + items == items;
    CutIsLeast(items, weaker, Cut(items, law));
  }
}
