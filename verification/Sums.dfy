/** Sums over sequences, and what sorting does to them. */
module Sums {

  function Sum<T>(s: seq<T>, f: T -> real): real {
    if s == [] then 0.0 else Sum(s[..|s| - 1], f) + f(s[|s| - 1])
  }

  lemma SumNext<T>(s: seq<T>, i: nat, f: T -> real)
    requires i < |s|
    ensures Sum(s[..i + 1], f) == Sum(s[..i], f) + f(s[i])
  {
    assert s[..i + 1][..i] == s[..i];
  }

  lemma {:induction false} SumAppend<T>(a: seq<T>, b: seq<T>, f: T -> real)
    ensures Sum(a + b, f) == Sum(a, f) + Sum(b, f)
    decreases |b|
  {
    if b == [] {
      assert a + b == a;
    } else {
      assert (a + b)[..|a + b| - 1] == a + b[..|b| - 1];
      SumAppend(a, b[..|b| - 1], f);
    }
  }

  lemma SumWithout<T>(s: seq<T>, j: nat, f: T -> real)
    requires j < |s|
    ensures Sum(s, f) == Sum(s[..j] + s[j + 1..], f) + f(s[j])
  {
    assert s == s[..j + 1] + s[j + 1..];
    SumAppend(s[..j + 1], s[j + 1..], f);
    SumAppend(s[..j], s[j + 1..], f);
    SumNext(s, j, f);
  }

  lemma MultisetWithout<T>(s: seq<T>, j: nat)
    requires j < |s|
    ensures multiset(s[..j] + s[j + 1..]) == multiset(s) - multiset{s[j]}
  {
    assert s == s[..j] + ([s[j]] + s[j + 1..]);
    assert multiset(s) == multiset(s[..j] + s[j + 1..]) + multiset{s[j]};
  }

  /** The order does not matter. */
  lemma {:induction false} SumPermuted<T>(a: seq<T>, b: seq<T>, f: T -> real)
    requires multiset(a) == multiset(b)
    ensures Sum(a, f) == Sum(b, f)
    decreases |a|
  {
    hide Sum;
    if a == [] {
      assert |multiset(b)| == 0;
    } else {
      assert a[0] in multiset(b);
      var j :| 0 <= j < |b| && b[j] == a[0];
      MultisetWithout(a, 0);
      MultisetWithout(b, j);
      SumWithout(a, 0, f);
      SumWithout(b, j, f);
      SumPermuted(a[..0] + a[1..], b[..j] + b[j + 1..], f);
    }
  }

  lemma {:induction false} SumOrdered<T>(s: seq<T>, f: T -> real, g: T -> real)
    requires forall i :: 0 <= i < |s| ==> f(s[i]) <= g(s[i])
    ensures Sum(s, f) <= Sum(s, g)
  {
    if s != [] {
      SumOrdered(s[..|s| - 1], f, g);
    }
  }

  lemma {:induction false} SumZero<T>(s: seq<T>, f: T -> real)
    requires forall i :: 0 <= i < |s| ==> f(s[i]) == 0.0
    ensures Sum(s, f) == 0.0
  {
    if s != [] {
      SumZero(s[..|s| - 1], f);
    }
  }

  /** What `f` adds up to when it vanishes from index `k` on. */
  lemma HeadBound<T>(s: seq<T>, k: nat, f: T -> real, g: T -> real)
    requires k <= |s|
    requires forall i :: 0 <= i < k ==> f(s[i]) <= g(s[i])
    requires forall i :: k <= i < |s| ==> f(s[i]) == 0.0
    ensures Sum(s, f) <= Sum(s[..k], g)
  {
    assert s == s[..k] + s[k..];
    SumAppend(s[..k], s[k..], f);
    SumOrdered(s[..k], f, g);
    SumZero(s[k..], f);
  }

  /** What `f` adds up to when it vanishes before index `k`. */
  lemma TailBound<T>(s: seq<T>, k: nat, f: T -> real, g: T -> real)
    requires k <= |s|
    requires forall i :: 0 <= i < k ==> f(s[i]) == 0.0
    requires forall i :: k <= i < |s| ==> f(s[i]) <= g(s[i])
    ensures Sum(s, f) <= Sum(s, g) - Sum(s[..k], g)
  {
    assert s == s[..k] + s[k..];
    SumAppend(s[..k], s[k..], f);
    SumAppend(s[..k], s[k..], g);
    SumZero(s[..k], f);
    SumOrdered(s[k..], f, g);
  }
}
