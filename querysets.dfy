/**
  The part of a Django QuerySet the views rely on: `filter` keeps the rows
  that satisfy a condition, in the order the query already has, and slicing
  keeps a prefix.
 */
module QuerySets {

  /** `a` is `b` with some elements dropped and the rest in the same order. */
  predicate IsSubseq<T(==)>(a: seq<T>, b: seq<T>)
    decreases |b|
  {
    if a == [] then true
    else if b == [] then false
    else (a[0] == b[0] && IsSubseq(a[1..], b[1..])) || IsSubseq(a, b[1..])
  }

  /** `qs.filter(p)`. */
  function Filter<T(==,!new)>(s: seq<T>, p: T -> bool): (r: seq<T>)
    ensures |r| <= |s|
    ensures forall x :: x in r <==> x in s && p(x)
    ensures IsSubseq(r, s)
    ensures forall x {:trigger multiset(r)[x]} :: multiset(r)[x] == if p(x) then multiset(s)[x] else 0
  {
    if s == [] then []
    else
      assert s == [s[0]] + s[1..];
      if p(s[0]) then [s[0]] + Filter(s[1..], p)
      else Filter(s[1..], p)
  }

  /** `qs[:n]`. */
  function Take<T>(s: seq<T>, n: nat): (r: seq<T>)
  {
    if |s| <= n then s else s[..n]
  }

  /** No value occurs twice. */
  ghost predicate Distinct<T>(s: seq<T>)
  {
    forall i, j :: 0 <= i < j < |s| ==> s[i] != s[j]
  }

  /** `qs.filter(p)[:n]` of distinct rows takes the earliest matches: a
      matching row before one that made the cut made it too. */
  lemma {:induction false} TakeFilterEarliest<T(!new)>(s: seq<T>, p: T -> bool, n: nat)
    ensures Distinct(s) ==>
      forall i, j :: 0 <= i < j < |s| && s[j] in Take(Filter(s, p), n) && p(s[i]) ==>
        s[i] in Take(Filter(s, p), n)
  {
    if Distinct(s) && s != [] && n > 0 {
      var t := s[1..];
      assert Distinct(t) by {
        forall i, j | 0 <= i < j < |t| ensures t[i] != t[j] {
          assert t[i] == s[i + 1] && t[j] == s[j + 1];
        }
      }
      var m := if p(s[0]) then n - 1 else n;
      TakeFilterEarliest(t, p, m);
      var r := Take(Filter(s, p), n);
      var rt := Take(Filter(t, p), m);
      if p(s[0]) {
        assert Filter(s, p) == [s[0]] + Filter(t, p);
        assert r == [s[0]] + rt;
      } else {
        assert r == rt;
      }
      forall i, j | 0 <= i < j < |s| && s[j] in r && p(s[i]) ensures s[i] in r {
        if i > 0 {
          assert s[j] != s[0];
          assert s[j] == t[j - 1] && s[i] == t[i - 1];
          assert t[j - 1] in rt;
        }
      }
    }
  }

  /** Rows drawn from a query number at most the query's length. */
  lemma {:induction false} DrawnFromBound<T>(s: seq<T>, r: set<T>)
    requires forall x :: x in r ==> x in s
    ensures |r| <= |s|
    decreases |s|
  {
    if s != [] {
      var rest := r - {s[0]};
      forall x | x in rest ensures x in s[1..] {
        var i :| 0 <= i < |s| && s[i] == x;
        assert i > 0 && s[1..][i - 1] == x;
      }
      DrawnFromBound(s[1..], rest);
    }
  }

  /** A relation that holds between every earlier and later element. */
  ghost predicate Pairwise<T>(s: seq<T>, rel: (T, T) -> bool)
  {
    forall i, j :: 0 <= i < j < |s| ==> rel(s[i], s[j])
  }

  lemma {:induction false} SubseqMembers<T>(a: seq<T>, b: seq<T>)
    requires IsSubseq(a, b)
    ensures forall x :: x in a ==> x in b
    decreases |b|
  {
    if a != [] {
      if a[0] == b[0] && IsSubseq(a[1..], b[1..]) {
        SubseqMembers(a[1..], b[1..]);
        forall x | x in a ensures x in b {
          if x != a[0] { assert x in a[1..]; }
        }
      } else {
        SubseqMembers(a, b[1..]);
      }
    }
  }

  /** Dropping elements keeps every pairwise order the sequence had. */
  lemma {:induction false} SubseqPairwise<T>(a: seq<T>, b: seq<T>, rel: (T, T) -> bool)
    requires IsSubseq(a, b) && Pairwise(b, rel)
    ensures Pairwise(a, rel)
    decreases |b|
  {
    if a != [] {
      assert Pairwise(b[1..], rel) by {
        forall i, j | 0 <= i < j < |b[1..]| ensures rel(b[1..][i], b[1..][j]) {
          assert rel(b[i + 1], b[j + 1]);
        }
      }
      if a[0] == b[0] && IsSubseq(a[1..], b[1..]) {
        SubseqPairwise(a[1..], b[1..], rel);
        SubseqMembers(a[1..], b[1..]);
        forall i, j | 0 <= i < j < |a| ensures rel(a[i], a[j]) {
          if i == 0 {
            assert a[j] in a[1..];
            var k :| 0 <= k < |b[1..]| && b[1..][k] == a[j];
            assert rel(b[0], b[k + 1]);
          } else {
            assert rel(a[1..][i - 1], a[1..][j - 1]);
          }
        }
      } else {
        SubseqPairwise(a, b[1..], rel);
      }
    }
  }

  /** A prefix of a subsequence is a subsequence. */
  lemma {:induction false} SubseqPrefix<T>(a: seq<T>, b: seq<T>, k: nat)
    requires IsSubseq(a, b) && k <= |a|
    ensures IsSubseq(a[..k], b)
    decreases |b|
  {
    if k > 0 {
      if a[0] == b[0] && IsSubseq(a[1..], b[1..]) {
        SubseqPrefix(a[1..], b[1..], k - 1);
        assert a[..k][1..] == a[1..][..k - 1];
      } else {
        SubseqPrefix(a, b[1..], k);
      }
    }
  }

  /** Chained filters are one filter on the conjunction. */
  lemma {:induction false} FilterFilter<T(!new)>(s: seq<T>, p: T -> bool, q: T -> bool, both: T -> bool)
    requires forall x :: both(x) == (p(x) && q(x))
    ensures Filter(Filter(s, p), q) == Filter(s, both)
  {
    if s != [] {
      FilterFilter(s[1..], p, q, both);
    }
  }

  /** Filters with the same verdict on every element give the same rows. */
  lemma {:induction false} FilterExtensional<T(!new)>(s: seq<T>, p: T -> bool, q: T -> bool)
    requires forall x :: x in s ==> p(x) == q(x)
    ensures Filter(s, p) == Filter(s, q)
  {
    if s != [] {
      FilterExtensional(s[1..], p, q);
    }
  }

  /** A filter that every element passes returns the sequence itself. */
  lemma {:induction false} FilterAll<T(!new)>(s: seq<T>, p: T -> bool)
    requires forall x :: x in s ==> p(x)
    ensures Filter(s, p) == s
  {
    if s != [] {
      FilterAll(s[1..], p);
    }
  }
}
