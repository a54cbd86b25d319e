/** Python's `sorted` / `list.sort` on integer tuple keys, and what the models need to know of it. */
module Sorting {

  type Key = (int, int, int)

  predicate Le(a: Key, b: Key) {
    a.0 < b.0 || (a.0 == b.0 && (a.1 < b.1 || (a.1 == b.1 && a.2 <= b.2)))
  }

  ghost predicate Ascending<T>(s: seq<T>, key: T -> Key) {
    forall i, j | 0 <= i < j < |s| :: Le(key(s[i]), key(s[j]))
  }

  ghost predicate InjectiveOn<T>(s: seq<T>, key: T -> Key) {
    forall x, y | x in s && y in s && key(x) == key(y) :: x == y
  }

  /** Inserts `x` behind every element whose key is not greater: sorting with it is stable. */
  function Insert<T>(x: T, s: seq<T>, key: T -> Key): (r: seq<T>)
    ensures |r| == |s| + 1
    ensures multiset(r) == multiset(s) + multiset{x}
  {
    if s == [] then [x]
    else
      var last := |s| - 1;
      assert s == s[..last] + [s[last]];
      if Le(key(s[last]), key(x)) then s + [x] else Insert(x, s[..last], key) + [s[last]]
  }

  function Sort<T>(s: seq<T>, key: T -> Key): (r: seq<T>)
    ensures |r| == |s|
    ensures multiset(r) == multiset(s)
  {
    if s == [] then []
    else
      var last := |s| - 1;
      assert s == s[..last] + [s[last]];
      Insert(s[last], Sort(s[..last], key), key)
  }

  lemma {:induction false} InsertAscends<T>(x: T, s: seq<T>, key: T -> Key)
    requires Ascending(s, key)
    ensures Ascending(Insert(x, s, key), key)
  {
    if s != [] {
      var last := |s| - 1;
      if !Le(key(s[last]), key(x)) {
        InsertAscends(x, s[..last], key);
        var r := Insert(x, s[..last], key);
        forall i | 0 <= i < |r| ensures Le(key(r[i]), key(s[last])) {
          assert r[i] in multiset(r);
          assert r[i] in s[..last] || r[i] == x;
        }
      }
    }
  }

  /** The result of a sort is in order, and by the postcondition of `Sort` a permutation. */
  lemma {:induction false} SortAscends<T>(s: seq<T>, key: T -> Key)
    ensures Ascending(Sort(s, key), key)
  {
    if s != [] {
      SortAscends(s[..|s| - 1], key);
      InsertAscends(s[|s| - 1], Sort(s[..|s| - 1], key), key);
    }
  }

  lemma AscendingTake<T>(s: seq<T>, n: nat, key: T -> Key)
    requires Ascending(s, key) && n <= |s|
    ensures Ascending(s[..n], key)
  {
  }

  lemma AscendingDrop<T>(s: seq<T>, n: nat, key: T -> Key)
    requires Ascending(s, key) && n <= |s|
    ensures Ascending(s[n..], key)
  {
  }

  lemma InsertBehind<T>(x: T, s: seq<T>, key: T -> Key)
    requires s == [] || Le(key(s[|s| - 1]), key(x))
    ensures Insert(x, s, key) == s + [x]
  {
  }

  /** A list that is in order already is left as it is. */
  lemma {:induction false} SortKeepsOrder<T>(s: seq<T>, key: T -> Key)
    requires Ascending(s, key)
    ensures Sort(s, key) == s
  {
    hide Ascending, Insert;
    if s != [] {
      var init, x := s[..|s| - 1], s[|s| - 1];
      AscendingTake(s, |s| - 1, key);
      SortKeepsOrder(init, key);
      InsertLast(s, key);
    }
  }

  lemma InsertLast<T>(s: seq<T>, key: T -> Key)
    requires s != [] && Ascending(s, key)
    ensures Insert(s[|s| - 1], s[..|s| - 1], key) == s
  {
    hide Le;
    var init, x := s[..|s| - 1], s[|s| - 1];
    if init != [] {
      assert init[|init| - 1] == s[|s| - 2];
    }
    InsertBehind(x, init, key);
    assert s == init + [x];
  }

  lemma MembersMatch<T>(a: seq<T>, b: seq<T>)
    requires multiset(a) == multiset(b)
    ensures |a| == |b|
    ensures forall x :: x in a <==> x in b
  {
    assert |multiset(a)| == |multiset(b)|;
    forall x ensures x in a <==> x in b {
      assert x in multiset(a) <==> x in multiset(b);
    }
  }

  /** Two ordered permutations of the same elements are equal when the key tells elements apart. */
  lemma {:induction false} OrderedUnique<T>(a: seq<T>, b: seq<T>, key: T -> Key)
    requires multiset(a) == multiset(b)
    requires Ascending(a, key) && Ascending(b, key)
    requires InjectiveOn(a, key)
    ensures a == b
  {
    hide Ascending, InjectiveOn;
    MembersMatch(a, b);
    if a != [] {
      SameHead(a, b, key);
      MultisetTail(a);
      MultisetTail(b);
      AscendingDrop(a, 1, key);
      AscendingDrop(b, 1, key);
      InjectiveTail(a, key);
      OrderedUnique(a[1..], b[1..], key);
      assert a == [a[0]] + a[1..] && b == [b[0]] + b[1..];
    }
  }

  lemma InjectiveTail<T>(s: seq<T>, key: T -> Key)
    requires s != [] && InjectiveOn(s, key)
    ensures InjectiveOn(s[1..], key)
  {
    assert forall x :: x in s[1..] ==> x in s;
  }

  lemma MultisetTail<T>(s: seq<T>)
    requires s != []
    ensures multiset(s[1..]) == multiset(s) - multiset{s[0]}
  {
    assert s == [s[0]] + s[1..];
  }

  lemma SameHead<T>(a: seq<T>, b: seq<T>, key: T -> Key)
    requires multiset(a) == multiset(b) && a != []
    requires Ascending(a, key) && Ascending(b, key) && InjectiveOn(a, key)
    ensures b != [] && a[0] == b[0]
  {
    MembersMatch(a, b);
    assert a[0] in b && b[0] in a;
    LeastFirst(a, b[0], key);
    LeastFirst(b, a[0], key);
  }

  lemma LeastFirst<T>(s: seq<T>, x: T, key: T -> Key)
    requires Ascending(s, key) && x in s
    ensures Le(key(s[0]), key(x))
  {
    var k :| 0 <= k < |s| && s[k] == x;
  }

  ghost predicate NoDuplicates<T>(s: seq<T>) {
    forall i, j | 0 <= i < j < |s| :: s[i] != s[j]
  }

  lemma {:induction false} NoDuplicatesCount<T>(s: seq<T>)
    ensures NoDuplicates(s) <==> forall x | x in s :: multiset(s)[x] == 1
  {
    if s != [] {
      NoDuplicatesCount(s[1..]);
      assert s == [s[0]] + s[1..];
      if NoDuplicates(s) {
        assert s[0] !in s[1..];
      } else if s[0] !in s[1..] {
        var i, j :| 0 <= i < j < |s| && s[i] == s[j];
        assert s[1..][j - 1] == s[j];
        assert i != 0;
        assert s[1..][i - 1] == s[1..][j - 1];
        var x :| x in s[1..] && multiset(s[1..])[x] != 1;
        assert x in s && multiset(s)[x] != 1;
      } else {
        assert multiset(s)[s[0]] > 1;
      }
    }
  }

  lemma NoDuplicatesPermutes<T>(a: seq<T>, b: seq<T>)
    requires multiset(a) == multiset(b) && NoDuplicates(b)
    ensures NoDuplicates(a)
  {
    MembersMatch(a, b);
    NoDuplicatesCount(a);
    NoDuplicatesCount(b);
  }

  function Flatten<T>(groups: seq<seq<T>>): seq<T> {
    if groups == [] then [] else groups[0] + Flatten(groups[1..])
  }

  lemma {:induction false} FlattenAppend<T>(a: seq<seq<T>>, b: seq<seq<T>>)
    ensures Flatten(a + b) == Flatten(a) + Flatten(b)
  {
    if a == [] {
      assert a + b == b;
    } else {
      assert (a + b)[1..] == a[1..] + b;
      FlattenAppend(a[1..], b);
    }
  }

  lemma {:induction false} FlattenMember<T>(groups: seq<seq<T>>, x: T)
    ensures x in Flatten(groups) <==> exists g :: g in groups && x in g
  {
    if groups != [] {
      FlattenMember(groups[1..], x);
      assert groups == [groups[0]] + groups[1..];
    }
  }

  /** The list without its k-th element. */
  function Without<T>(s: seq<T>, k: nat): (r: seq<T>)
    requires k < |s|
    ensures |r| == |s| - 1
  {
    s[..k] + s[k + 1..]
  }

  lemma RemoveOne<T>(s: seq<T>, k: nat)
    requires k < |s|
    ensures multiset(Without(s, k)) == multiset(s) - multiset{s[k]}
  {
    assert s == s[..k] + ([s[k]] + s[k + 1..]);
  }

  /** Permutations without a common element are permutations. */
  lemma RemoveCommon<T>(a: seq<T>, b: seq<T>) returns (k: nat)
    requires multiset(a) == multiset(b) && a != []
    ensures |a| == |b| && k < |b| && b[k] == a[0]
    ensures multiset(Without(a, 0)) == multiset(Without(b, k))
  {
    MembersMatch(a, b);
    assert a[0] in b;
    k :| 0 <= k < |b| && b[k] == a[0];
    RemoveOne(a, 0);
    RemoveOne(b, k);
  }

  lemma SplitAt<T>(s: seq<T>, k: nat)
    requires k < |s|
    ensures s == s[..k] + ([s[k]] + s[k + 1..]) && Without(s, k) == s[..k] + s[k + 1..]
  {
  }

  lemma FlattenCons<T>(g: seq<T>, rest: seq<seq<T>>)
    ensures Flatten([g] + rest) == g + Flatten(rest)
  {
    assert ([g] + rest)[1..] == rest;
  }

  lemma FlattenMiddle<T>(a: seq<seq<T>>, g: seq<T>, b: seq<seq<T>>)
    ensures multiset(Flatten(a + ([g] + b))) == multiset(g) + multiset(Flatten(a + b))
  {
    hide Flatten;
    FlattenCons(g, b);
    FlattenAppend(a, [g] + b);
    FlattenAppend(a, b);
  }

  lemma FlattenRemoveOne<T>(groups: seq<seq<T>>, k: nat)
    requires k < |groups|
    ensures multiset(Flatten(groups)) == multiset(groups[k]) + multiset(Flatten(Without(groups, k)))
  {
    hide Flatten, Without;
    SplitAt(groups, k);
    FlattenMiddle(groups[..k], groups[k], groups[k + 1..]);
  }

  /** Reordering whole groups only reorders the elements. */
  lemma {:induction false} FlattenPermutes<T>(a: seq<seq<T>>, b: seq<seq<T>>)
    requires multiset(a) == multiset(b)
    ensures multiset(Flatten(a)) == multiset(Flatten(b))
    decreases |a|
  {
    hide Flatten, Without;
    MembersMatch(a, b);
    if a != [] {
      var k := RemoveCommon(a, b);
      FlattenPermutes(Without(a, 0), Without(b, k));
      FlattenRemoveOne(a, 0);
      FlattenRemoveOne(b, k);
    }
  }

  // ----- Filtered lists

  /** `part` holds the elements of `s` at these positions, in their order. */
  ghost predicate IsPart<T>(part: seq<T>, s: seq<T>, at: seq<nat>) {
    && |at| == |part| && (forall k :: 0 <= k < |at| ==> at[k] < |s| && part[k] == s[at[k]])
    && forall i, j | 0 <= i < j < |at| :: at[i] < at[j]
  }

  lemma NoPart<T>()
    ensures IsPart<T>([], [], [])
  {
  }

  lemma PartGrows<T>(part: seq<T>, s: seq<T>, at: seq<nat>, x: T)
    requires IsPart(part, s, at)
    ensures IsPart(part, s + [x], at) && IsPart(part + [x], s + [x], at + [|s|])
    ensures |s| !in at && forall i :: i in at + [|s|] <==> i in at || i == |s|
  {
  }
}
