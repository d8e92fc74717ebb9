/** Order-preserving filtering of sequences, the `Array.prototype.filter`
    that both components use, together with the facts that pin a filter's
    result down: it is a subsequence of its input, it keeps exactly the
    elements that pass, and it is the only such subsequence. */
module Seqs {

  /** `a` can be obtained from `b` by deleting elements (order kept). */
  predicate IsSubsequence<T(==)>(a: seq<T>, b: seq<T>)
    decreases |b|
  {
    || |a| == 0
    || (&& |b| > 0
        && ((a[0] == b[0] && IsSubsequence(a[1..], b[1..])) || IsSubsequence(a, b[1..])))
  }

  /** Number of elements of `s` that satisfy `p`. */
  function Count<T>(p: T -> bool, s: seq<T>): (n: nat)
    ensures n <= |s|
    decreases |s|
  {
    if |s| == 0 then 0 else (if p(s[0]) then 1 else 0) + Count(p, s[1..])
  }

  /** Counting from position `k` on: the element at `k`, then the rest. */
  lemma CountAt<T>(p: T -> bool, s: seq<T>, k: nat)
    requires k < |s|
    ensures Count(p, s[k..]) == (if p(s[k]) then 1 else 0) + Count(p, s[k + 1..])
  {
    assert s[k..][1..] == s[k + 1..];
  }

  /** No two positions of `s` share a key. */
  predicate DistinctBy<T, K(==)>(key: T -> K, s: seq<T>)
  {
    forall i, j :: 0 <= i < j < |s| ==> key(s[i]) != key(s[j])
  }

  /** The elements of `s` that satisfy `p`, in their original order. */
  function Filter<T(==)>(p: T -> bool, s: seq<T>): (r: seq<T>)
    ensures |r| <= |s|
    ensures forall x :: x in r ==> x in s && p(x)
    ensures forall x :: x in s && p(x) ==> x in r
    decreases |s|
  {
    if |s| == 0 then []
    else (if p(s[0]) then [s[0]] else []) + Filter(p, s[1..])
  }

  /** Filtering a sequence with a known first element. */
  lemma FilterCons<T>(p: T -> bool, x: T, s: seq<T>)
    ensures Filter(p, [x] + s) == (if p(x) then [x] else []) + Filter(p, s)
  {
    assert ([x] + s)[1..] == s;
  }

  /** A filter result is a subsequence of its input. */
  lemma {:induction false} FilterIsSubsequence<T>(p: T -> bool, s: seq<T>)
    ensures IsSubsequence(Filter(p, s), s)
    decreases |s|
  {
    if |s| > 0 {
      var tail := Filter(p, s[1..]);
      FilterIsSubsequence(p, s[1..]);
      if p(s[0]) {
        var r := Filter(p, s);
        assert r == [s[0]] + tail;
        assert r[1..] == tail;
      } else {
        assert Filter(p, s) == tail;
      }
    }
  }

  /** A filter keeps exactly as many elements as pass the test. */
  lemma {:induction false} FilterLength<T>(p: T -> bool, s: seq<T>)
    ensures |Filter(p, s)| == Count(p, s)
    decreases |s|
  {
    if |s| > 0 {
      FilterLength(p, s[1..]);
    }
  }

  /** A subsequence all of whose elements pass `p` is no longer than the
      number of passing elements of the whole sequence. */
  lemma {:induction false} SubsequenceCountBound<T>(p: T -> bool, r: seq<T>, s: seq<T>)
    requires IsSubsequence(r, s)
    requires forall x :: x in r ==> p(x)
    ensures |r| <= Count(p, s)
    decreases |s|
  {
    if |r| > 0 {
      if r[0] == s[0] && IsSubsequence(r[1..], s[1..]) {
        assert r[0] in r;
        assert forall x :: x in r[1..] ==> x in r;
        SubsequenceCountBound(p, r[1..], s[1..]);
      } else {
        SubsequenceCountBound(p, r, s[1..]);
      }
    }
  }

  /** Uniqueness: any subsequence of `s` whose elements all pass `p` and
      which has as many elements as pass `p` in `s` is the filter itself.
      This is what "exactly the passing elements, in order" means. */
  lemma {:induction false} FilterUnique<T>(p: T -> bool, s: seq<T>, r: seq<T>)
    requires IsSubsequence(r, s)
    requires forall x :: x in r ==> p(x)
    requires |r| == Count(p, s)
    ensures r == Filter(p, s)
    decreases |s|
  {
    if |s| == 0 {
    } else if |r| == 0 {
      FilterLength(p, s);
    } else if r[0] == s[0] && IsSubsequence(r[1..], s[1..]) {
      assert r[0] in r;
      assert forall x :: x in r[1..] ==> x in r;
      FilterUnique(p, s[1..], r[1..]);
      assert r == [r[0]] + r[1..];
    } else {
      SubsequenceCountBound(p, r, s[1..]);
      FilterUnique(p, s[1..], r);
    }
  }

  /** Filtering by a weaker test keeps everything a stronger test keeps,
      in the same order. */
  lemma {:induction false} FilterMonotone<T>(p: T -> bool, q: T -> bool, s: seq<T>)
    requires forall x :: x in s && p(x) ==> q(x)
    ensures IsSubsequence(Filter(p, s), Filter(q, s))
    decreases |s|
  {
    if |s| > 0 {
      var a := Filter(p, s[1..]);
      var b := Filter(q, s[1..]);
      assert forall x :: x in s[1..] ==> x in s;
      FilterMonotone(p, q, s[1..]);
      if p(s[0]) {
        var fa := Filter(p, s);
        var fb := Filter(q, s);
        assert fa == [s[0]] + a && fa[1..] == a;
        assert fb == [s[0]] + b && fb[1..] == b;
      } else if q(s[0]) {
        var fb := Filter(q, s);
        assert Filter(p, s) == a;
        assert fb == [s[0]] + b && fb[1..] == b;
      } else {
        assert Filter(p, s) == a && Filter(q, s) == b;
      }
    }
  }

  /** A test every element passes keeps the whole sequence. */
  lemma {:induction false} FilterAll<T>(p: T -> bool, s: seq<T>)
    requires forall x :: x in s ==> p(x)
    ensures Filter(p, s) == s
    decreases |s|
  {
    if |s| > 0 {
      assert s[0] in s;
      assert forall x :: x in s[1..] ==> x in s;
      FilterAll(p, s[1..]);
      assert s == [s[0]] + s[1..];
    }
  }

  /** A test no element passes keeps nothing. */
  lemma FilterNone<T>(p: T -> bool, s: seq<T>)
    requires forall x :: x in s ==> !p(x)
    ensures Filter(p, s) == []
  {
  }

  /** Filtering never introduces a repeated key. */
  lemma {:induction false} FilterDistinctBy<T, K>(p: T -> bool, key: T -> K, s: seq<T>)
    requires DistinctBy(key, s)
    ensures DistinctBy(key, Filter(p, s))
    decreases |s|
  {
    if |s| > 0 {
      var tail := Filter(p, s[1..]);
      FilterDistinctBy(p, key, s[1..]);
      if p(s[0]) {
        forall j | 0 <= j < |tail|
          ensures key(s[0]) != key(tail[j])
        {
          assert tail[j] in tail;
          var k :| 0 <= k < |s[1..]| && s[1..][k] == tail[j];
          assert s[k + 1] == tail[j];
        }
        var r := Filter(p, s);
        assert r == [s[0]] + tail;
        forall i, j | 0 <= i < j < |r|
          ensures key(r[i]) != key(r[j])
        {
          if i == 0 {
            assert r[j] == tail[j - 1];
          } else {
            assert r[i] == tail[i - 1] && r[j] == tail[j - 1];
          }
        }
      }
    }
  }
}
