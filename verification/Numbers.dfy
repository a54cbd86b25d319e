/** Python's `max`, `min` and `sum` on integers. */
module Numbers {

  /** `max(1, n)` */
  function AtLeastOne(n: nat): nat {
    if n < 1 then 1 else n
  }

  /** `max(0, n)` */
  function NonNegative(n: int): nat {
    if n < 0 then 0 else n
  }

  /** Where a Python slice that may run past the end stops. */
  function Clip(end: nat, size: nat): nat {
    if end < size then end else size
  }

  function Smaller(a: nat, b: nat): nat {
    if b < a then b else a
  }

  /** Each is one of its two numbers, and on the right side of both. */
  lemma ExtremesExact(a: nat, b: nat, n: int)
    ensures Smaller(a, b) <= a && Smaller(a, b) <= b && (Smaller(a, b) == a || Smaller(a, b) == b)
    ensures Clip(a, b) <= a && Clip(a, b) <= b && (Clip(a, b) == a || Clip(a, b) == b)
    ensures AtLeastOne(a) >= a && AtLeastOne(a) >= 1 && (AtLeastOne(a) == a || AtLeastOne(a) == 1)
    ensures NonNegative(n) >= n && (NonNegative(n) == n || NonNegative(n) == 0)
  {
  }

  /** `min(s)`; the empty list has least element 0 where that is the default. */
  function Least(sizes: seq<nat>): nat {
    if sizes == [] then 0
    else if |sizes| == 1 then sizes[0]
    else
      var rest := Least(sizes[1..]);
      if sizes[0] <= rest then sizes[0] else rest
  }

  function Total(s: seq<int>): int {
    if s == [] then 0 else s[0] + Total(s[1..])
  }

  lemma {:induction false} TotalAppend(a: seq<int>, b: seq<int>)
    ensures Total(a + b) == Total(a) + Total(b)
  {
    if a == [] {
      assert a + b == b;
    } else {
      assert (a + b)[1..] == a[1..] + b;
      TotalAppend(a[1..], b);
    }
  }

  lemma {:induction false} TotalNonNegative(s: seq<nat>)
    ensures Total(s) >= 0
  {
    if s != [] {
      TotalNonNegative(s[1..]);
    }
  }

  lemma {:induction false} LeastExact(s: seq<nat>)
    requires s != []
    ensures Least(s) in s
    ensures forall x :: x in s ==> Least(s) <= x
  {
    if |s| > 1 {
      LeastExact(s[1..]);
      assert s == [s[0]] + s[1..];
    }
  }
}
