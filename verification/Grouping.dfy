/** Dictionaries of lists built with `groups.setdefault(key, []).append(x)`, in insertion order. */
module Grouping {
  import opened Sorting

  datatype Bucket<T> = Bucket(key: int, members: seq<T>)

  function AddTo<T>(groups: seq<Bucket<T>>, key: int, x: T): seq<Bucket<T>> {
    if groups == [] then [Bucket(key, [x])]
    else if groups[0].key == key then [groups[0].(members := groups[0].members + [x])] + groups[1..]
    else [groups[0]] + AddTo(groups[1..], key, x)
  }

  function GroupBy<T>(xs: seq<T>, keyOf: T -> int): seq<Bucket<T>> {
    if xs == [] then []
    else AddTo(GroupBy(xs[..|xs| - 1], keyOf), keyOf(xs[|xs| - 1]), xs[|xs| - 1])
  }

  /** The elements with one key, in the order in which they are listed. */
  function WithKey<T>(xs: seq<T>, keyOf: T -> int, key: int): (r: seq<T>)
    ensures forall x :: x in r ==> x in xs && keyOf(x) == key
    ensures forall x :: x in xs && keyOf(x) == key ==> x in r
  {
    if xs == [] then []
    else
      var last := |xs| - 1;
      assert xs == xs[..last] + [xs[last]];
      WithKey(xs[..last], keyOf, key) + if keyOf(xs[last]) == key then [xs[last]] else []
  }

  function BucketKey<T>(g: Bucket<T>): Key { (g.key, 0, 0) }

  ghost predicate DistinctKeys<T>(groups: seq<Bucket<T>>) {
    forall i, j | 0 <= i < j < |groups| :: groups[i].key != groups[j].key
  }

  ghost predicate HasKey<T>(groups: seq<Bucket<T>>, key: int) {
    exists g :: g in groups && g.key == key
  }

  /** `groups` holds each key of `xs` exactly once, with its elements in their own order. */
  ghost predicate Grouped<T>(groups: seq<Bucket<T>>, xs: seq<T>, keyOf: T -> int) {
    && DistinctKeys(groups)
    && (forall g :: g in groups ==> g.members == WithKey(xs, keyOf, g.key) && g.members != [])
    && (forall x :: x in xs ==> HasKey(groups, keyOf(x)))
  }

  /** `AddTo` extends the one bucket of that key, or opens a new one at the end. */
  lemma {:induction false} AddToShape<T>(groups: seq<Bucket<T>>, key: int, x: T) returns (k: nat)
    ensures k <= |groups|
    ensures k < |groups| ==>
              && groups[k].key == key
              && AddTo(groups, key, x) == groups[k := groups[k].(members := groups[k].members + [x])]
    ensures k == |groups| ==> AddTo(groups, key, x) == groups + [Bucket(key, [x])]
    ensures forall i :: 0 <= i < k ==> groups[i].key != key
  {
    if groups == [] || groups[0].key == key {
      k := 0;
    } else {
      var rest := groups[1..];
      var j := AddToShape(rest, key, x);
      k := j + 1;
      assert groups == [groups[0]] + rest;
      forall i | 0 <= i < k ensures groups[i].key != key {
        assert i == 0 || groups[i] == rest[i - 1];
      }
    }
  }

  lemma WithKeyNone<T>(xs: seq<T>, keyOf: T -> int, key: int)
    requires forall x :: x in xs ==> keyOf(x) != key
    ensures WithKey(xs, keyOf, key) == []
  {
  }

  lemma WithKeyAppend<T>(xs: seq<T>, x: T, keyOf: T -> int, key: int)
    ensures WithKey(xs + [x], keyOf, key) == WithKey(xs, keyOf, key) + if key == keyOf(x) then [x] else []
  {
    assert (xs + [x])[..|xs|] == xs;
  }

  lemma AddToKeepsKeys<T>(groups: seq<Bucket<T>>, key: int, x: T, k: int)
    requires HasKey(groups, k) || k == key
    ensures HasKey(AddTo(groups, key, x), k)
  {
    var at := AddToShape(groups, key, x);
    var out := AddTo(groups, key, x);
    if k == key {
      assert out[at] in out;
    } else {
      var g :| g in groups && g.key == k;
      var i :| 0 <= i < |groups| && groups[i] == g;
      assert out[i] in out;
    }
  }

  lemma AddToGrouped<T>(groups: seq<Bucket<T>>, xs: seq<T>, x: T, keyOf: T -> int)
    requires Grouped(groups, xs, keyOf)
    ensures Grouped(AddTo(groups, keyOf(x), x), xs + [x], keyOf)
  {
    var key := keyOf(x);
    var k := AddToShape(groups, key, x);
    var out := AddTo(groups, key, x);
    if k == |groups| {
      forall y | y in xs ensures keyOf(y) != key {
        assert HasKey(groups, keyOf(y));
      }
      WithKeyNone(xs, keyOf, key);
    }
    forall g | g in out ensures g.members == WithKey(xs + [x], keyOf, g.key) && g.members != [] {
      WithKeyAppend(xs, x, keyOf, g.key);
      var i :| 0 <= i < |out| && out[i] == g;
      assert i < |groups| ==> groups[i] in groups;
    }
    forall y | y in xs + [x] ensures HasKey(out, keyOf(y)) {
      AddToKeepsKeys(groups, key, x, keyOf(y));
    }
  }

  lemma {:induction false} GroupByGroups<T>(xs: seq<T>, keyOf: T -> int)
    ensures Grouped(GroupBy(xs, keyOf), xs, keyOf)
  {
    if xs != [] {
      var init, x := xs[..|xs| - 1], xs[|xs| - 1];
      assert xs == init + [x] && GroupBy(xs, keyOf) == AddTo(GroupBy(init, keyOf), keyOf(x), x);
      GroupByGroups(init, keyOf);
      AddToGrouped(GroupBy(init, keyOf), init, x, keyOf);
    }
  }

  lemma GroupByStep<T>(xs: seq<T>, x: T, keyOf: T -> int)
    ensures GroupBy(xs + [x], keyOf) == AddTo(GroupBy(xs, keyOf), keyOf(x), x)
  {
    assert (xs + [x])[..|xs|] == xs;
  }

  lemma DistinctKeysPermute<T>(a: seq<Bucket<T>>, b: seq<Bucket<T>>)
    requires multiset(a) == multiset(b) && DistinctKeys(a)
    ensures DistinctKeys(b)
    ensures forall k :: HasKey(a, k) <==> HasKey(b, k)
  {
    MembersMatch(a, b);
    NoDuplicatesPermutes(b, a);
    forall i, j | 0 <= i < j < |b| ensures b[i].key != b[j].key {
      assert b[i] in a && b[j] in a && b[i] != b[j];
    }
  }

  lemma GroupedPermutes<T>(a: seq<Bucket<T>>, b: seq<Bucket<T>>, xs: seq<T>, keyOf: T -> int)
    requires multiset(a) == multiset(b) && Grouped(a, xs, keyOf)
    ensures Grouped(b, xs, keyOf)
  {
    hide WithKey;
    MembersMatch(a, b);
    DistinctKeysPermute(a, b);
    forall g | g in b ensures g.members == WithKey(xs, keyOf, g.key) && g.members != [] {
      assert g in a;
    }
    forall x | x in xs ensures HasKey(b, keyOf(x)) {
      assert HasKey(a, keyOf(x));
    }
  }

  lemma SortGrouped<T>(groups: seq<Bucket<T>>, xs: seq<T>, keyOf: T -> int, key: Bucket<T> -> Key)
    requires Grouped(groups, xs, keyOf)
    ensures Grouped(Sort(groups, key), xs, keyOf)
  {
    var sorted := Sort(groups, key);
    GroupedPermutes(groups, sorted, xs, keyOf);
  }

  // ----- The groups listed one after another

  function Listed<T>(groups: seq<Bucket<T>>): seq<T> {
    if groups == [] then [] else groups[0].members + Listed(groups[1..])
  }

  lemma {:induction false} ListedMember<T>(groups: seq<Bucket<T>>, x: T)
    ensures x in Listed(groups) <==> exists g :: g in groups && x in g.members
  {
    if groups != [] {
      ListedMember(groups[1..], x);
      assert groups == [groups[0]] + groups[1..];
    }
  }

  lemma {:induction false} ListedDistinct<T>(groups: seq<Bucket<T>>, keyOf: T -> int)
    requires DistinctKeys(groups)
    requires forall g :: g in groups ==> NoDuplicates(g.members)
    requires forall g, x :: g in groups && x in g.members ==> keyOf(x) == g.key
    ensures NoDuplicates(Listed(groups))
  {
    if groups != [] {
      var rest := groups[1..];
      assert groups == [groups[0]] + rest;
      ListedDistinct(rest, keyOf);
      var a, b := groups[0].members, Listed(rest);
      forall x | x in a ensures x !in b {
        ListedMember(rest, x);
        assert keyOf(x) == groups[0].key;
        assert forall k | 0 <= k < |rest| :: rest[k] == groups[k + 1];
      }
      assert NoDuplicates(a) by { assert groups[0] in groups; }
      forall i, j | 0 <= i < j < |a + b| ensures (a + b)[i] != (a + b)[j] {
        if i < |a| <= j {
          assert a[i] in a && b[j - |a|] in b;
        }
      }
    }
  }

  lemma SameElements<T>(a: seq<T>, b: seq<T>)
    requires NoDuplicates(a) && NoDuplicates(b)
    requires forall x :: x in a <==> x in b
    ensures multiset(a) == multiset(b)
  {
    NoDuplicatesCount(a);
    NoDuplicatesCount(b);
    forall x ensures multiset(a)[x] == multiset(b)[x] {
      assert x in a <==> x in multiset(a);
      assert x in b <==> x in multiset(b);
    }
  }

  /** Grouping only reorders: all groups together hold the elements they were built from. */
  lemma {:induction false} ListedPermutes<T>(xs: seq<T>, keyOf: T -> int)
    ensures multiset(Listed(GroupBy(xs, keyOf))) == multiset(xs)
  {
    hide Listed, AddTo;
    if xs != [] {
      var init, x := xs[..|xs| - 1], xs[|xs| - 1];
      ListedPermutes(init, keyOf);
      ListedAddTo(GroupBy(init, keyOf), keyOf(x), x);
      assert xs == init + [x];
    } else {
      ListedNothing<T>();
    }
  }

  lemma ListedNothing<T>()
    ensures Listed<T>([]) == []
  {
  }

  lemma {:induction false} ListedAddTo<T>(groups: seq<Bucket<T>>, key: int, x: T)
    ensures multiset(Listed(AddTo(groups, key, x))) == multiset(Listed(groups)) + multiset{x}
  {
    if groups != [] && groups[0].key != key {
      ListedAddTo(groups[1..], key, x);
      assert AddTo(groups, key, x)[1..] == AddTo(groups[1..], key, x);
    } else if groups != [] {
      var out := AddTo(groups, key, x);
      assert out[0].members == groups[0].members + [x] && out[1..] == groups[1..];
    }
  }

  lemma {:induction false} ListedSort<T>(a: seq<Bucket<T>>, b: seq<Bucket<T>>)
    requires multiset(a) == multiset(b)
    ensures multiset(Listed(a)) == multiset(Listed(b))
    decreases |a|
  {
    hide Listed, Without;
    MembersMatch(a, b);
    if a != [] {
      var k := RemoveCommon(a, b);
      ListedSort(Without(a, 0), Without(b, k));
      ListedRemoveOne(a, 0);
      ListedRemoveOne(b, k);
    }
  }

  lemma {:induction false} ListedAppend<T>(a: seq<Bucket<T>>, b: seq<Bucket<T>>)
    ensures Listed(a + b) == Listed(a) + Listed(b)
  {
    if a == [] {
      assert a + b == b;
    } else {
      assert (a + b)[1..] == a[1..] + b;
      ListedAppend(a[1..], b);
    }
  }

  lemma ListedCons<T>(g: Bucket<T>, rest: seq<Bucket<T>>)
    ensures Listed([g] + rest) == g.members + Listed(rest)
  {
    assert ([g] + rest)[1..] == rest;
  }

  lemma ListedMiddle<T>(a: seq<Bucket<T>>, g: Bucket<T>, b: seq<Bucket<T>>)
    ensures multiset(Listed(a + ([g] + b))) == multiset(g.members) + multiset(Listed(a + b))
  {
    hide Listed;
    ListedCons(g, b);
    ListedAppend(a, [g] + b);
    ListedAppend(a, b);
  }

  lemma ListedRemoveOne<T>(groups: seq<Bucket<T>>, k: nat)
    requires k < |groups|
    ensures multiset(Listed(groups)) == multiset(groups[k].members) + multiset(Listed(Without(groups, k)))
  {
    hide Listed, Without;
    SplitAt(groups, k);
    ListedMiddle(groups[..k], groups[k], groups[k + 1..]);
  }
}
