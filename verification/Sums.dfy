/** Sums over traces: what the accumulating signatures compute, independent of the order of calls. */
module Sums {
  import opened PyModel

  function Sum<T>(f: T -> int, s: seq<T>): int {
    if s == [] then 0 else Sum(f, Front(s)) + f(Last(s))
  }

  lemma SumSnoc<T>(f: T -> int, s: seq<T>, x: T)
    ensures Sum(f, s + [x]) == Sum(f, s) + f(x)
  {
    assert Front(s + [x]) == s;
  }

  lemma {:induction false} SumConcat<T>(f: T -> int, s: seq<T>, u: seq<T>)
    ensures Sum(f, s + u) == Sum(f, s) + Sum(f, u)
  {
    if u == [] {
      assert s + u == s;
    } else {
      SumConcat(f, s, Front(u));
      assert Front(s + u) == s + Front(u);
    }
  }

  lemma SumWithout<T>(f: T -> int, s: seq<T>, i: nat)
    requires i < |s|
    ensures Sum(f, s) == Sum(f, s[..i] + s[i + 1..]) + f(s[i])
  {
    SumConcat(f, s[..i + 1], s[i + 1..]);
    assert s == s[..i + 1] + s[i + 1..];
    SumSnoc(f, s[..i], s[i]);
    assert s[..i + 1] == s[..i] + [s[i]];
    SumConcat(f, s[..i], s[i + 1..]);
  }

  /** The order of the summands does not matter. */
  lemma {:induction false} SumPermutation<T>(f: T -> int, s: seq<T>, u: seq<T>)
    requires multiset(s) == multiset(u)
    ensures Sum(f, s) == Sum(f, u)
    decreases |s|
  {
    if s == [] {
      assert multiset(u) == multiset{};
    } else {
      var x := Last(s);
      assert s == Front(s) + [x];
      assert x in multiset(u);
      var i :| 0 <= i < |u| && u[i] == x;
      var rest := u[..i] + u[i + 1..];
      assert u == u[..i] + [x] + u[i + 1..];
      assert multiset(rest) == multiset(u) - multiset{x};
      SumPermutation(f, Front(s), rest);
      SumWithout(f, u, i);
    }
  }

  lemma {:induction false} SumSame<T>(f: T -> int, g: T -> int, s: seq<T>)
    requires forall x :: x in s ==> f(x) == g(x)
    ensures Sum(f, s) == Sum(g, s)
  {
    if s != [] { SumSame(f, g, Front(s)); }
  }

  lemma {:induction false} SumSplit<T>(f: T -> int, g: T -> int, h: T -> int, s: seq<T>)
    requires forall x :: x in s ==> f(x) == g(x) + h(x)
    ensures Sum(f, s) == Sum(g, s) + Sum(h, s)
  {
    if s != [] { SumSplit(f, g, h, Front(s)); }
  }

  lemma {:induction false} SumScale<T>(f: T -> int, k: int, g: T -> int, s: seq<T>)
    requires forall x :: x in s ==> f(x) == k * g(x)
    ensures Sum(f, s) == k * Sum(g, s)
  {
    if s != [] { SumScale(f, k, g, Front(s)); }
  }

  lemma {:induction false} SumMonotone<T>(f: T -> int, g: T -> int, s: seq<T>)
    requires forall x :: x in s ==> f(x) <= g(x)
    ensures Sum(f, s) <= Sum(g, s)
  {
    if s != [] { SumMonotone(f, g, Front(s)); }
  }

  lemma {:induction false} SumZero<T>(f: T -> int, s: seq<T>)
    requires forall x :: x in s ==> f(x) == 0
    ensures Sum(f, s) == 0
  {
    if s != [] { SumZero(f, Front(s)); }
  }

  lemma {:induction false} SumPositive<T>(f: T -> int, s: seq<T>)
    requires forall x :: x in s ==> f(x) >= 0
    ensures Sum(f, s) >= 0
    ensures Sum(f, s) > 0 <==> exists x :: x in s && f(x) > 0
  {
    if s != [] {
      SumPositive(f, Front(s));
      assert s == Front(s) + [Last(s)];
    }
  }
}
