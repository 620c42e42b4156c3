/** What the modelled code relies on from Go's `sort` package: an ordered permutation, not a stable one. */
module Sorting {

  ghost predicate TotalPreorder<T(!new)>(le: (T, T) -> bool) {
    && (forall x, y :: le(x, y) || le(y, x))
    && (forall x, y, z :: le(x, y) && le(y, z) ==> le(x, z))
  }

  ghost predicate SortedBy<T(!new)>(s: seq<T>, le: (T, T) -> bool) {
    forall i, j :: 0 <= i < j < |s| ==> le(s[i], s[j])
  }

  /** Any ordered permutation of `s` may be returned. */
  method Sort<T(!new)>(s: seq<T>, le: (T, T) -> bool) returns (r: seq<T>)
    requires TotalPreorder(le)
    ensures multiset(r) == multiset(s)
    ensures SortedBy(r, le)
  {
    r := [];
    for i := 0 to |s|
      invariant multiset(r) == multiset(s[..i])
      invariant SortedBy(r, le)
    {
      var k := 0;
      while k < |r| && le(r[k], s[i])
        invariant 0 <= k <= |r|
        invariant forall j :: 0 <= j < k ==> le(r[j], s[i])
      {
        k := k + 1;
      }
      assert s[..i + 1] == s[..i] + [s[i]];
      assert r == r[..k] + r[k..];
      InsertKeepsOrder(r, k, s[i], le);
      r := r[..k] + [s[i]] + r[k..];
    }
    assert s[..|s|] == s;
  }

  lemma InsertKeepsOrder<T(!new)>(r: seq<T>, k: nat, x: T, le: (T, T) -> bool)
    requires TotalPreorder(le) && SortedBy(r, le) && k <= |r|
    requires forall j :: 0 <= j < k ==> le(r[j], x)
    requires k < |r| ==> !le(r[k], x)
    ensures SortedBy(r[..k] + [x] + r[k..], le)
  {
    var t := r[..k] + [x] + r[k..];
    forall i, j | 0 <= i < j < |t| ensures le(t[i], t[j]) {
      if i == k {
        assert le(x, r[k]);
        assert t[j] == r[j - 1];
      } else if j != k {
        var i', j' := if i < k then i else i - 1, if j < k then j else j - 1;
        assert t[i] == r[i'] && t[j] == r[j'];
      }
    }
  }

  /** Equal multisets have the same members. */
  lemma SameMembers<T>(a: seq<T>, b: seq<T>)
    requires multiset(a) == multiset(b)
    ensures |a| == |b|
    ensures forall x :: x in a <==> x in b
  {
    assert |multiset(a)| == |multiset(b)|;
    forall x ensures x in a <==> x in b {
      assert x in multiset(a) <==> x in multiset(b);
    }
  }
}
