/** Order-preserving operations on sequences, and the facts about them that
    the user-list model relies on: `Array.prototype.filter` and
    `Array.prototype.slice` as the browser defines them. */
module Seqs {

  /** `s.filter(keep)`: the elements of `s` that satisfy `keep`, in order. */
  function Filter<T>(s: seq<T>, keep: T -> bool): (r: seq<T>)
    ensures |r| <= |s|
    ensures forall i :: 0 <= i < |r| ==> keep(r[i])
  {
    if |s| == 0 then []
    else if keep(s[0]) then [s[0]] + Filter(s[1..], keep)
    else Filter(s[1..], keep)
  }

  /** `a` is obtained from `b` by deleting zero or more elements. */
  predicate IsSubsequence<T(==)>(a: seq<T>, b: seq<T>)
    decreases |b|
  {
    if |a| == 0 then true
    else if |b| == 0 then false
    else if a[0] == b[0] then IsSubsequence(a[1..], b[1..])
    else IsSubsequence(a, b[1..])
  }

  /** Filtering never reorders: the result is a subsequence of the input. */
  lemma {:induction false} FilterIsSubsequence<T>(s: seq<T>, keep: T -> bool)
    ensures IsSubsequence(Filter(s, keep), s)
  {
    if |s| > 0 {
      FilterIsSubsequence(s[1..], keep);
      if keep(s[0]) {
        assert Filter(s, keep)[1..] == Filter(s[1..], keep);
      } else {
        FilterSubsequenceSkip(Filter(s[1..], keep), s);
      }
    }
  }

  /** A subsequence of the tail of `b` is a subsequence of `b`. */
  lemma FilterSubsequenceSkip<T>(a: seq<T>, b: seq<T>)
    requires |b| > 0
    requires IsSubsequence(a, b[1..])
    ensures IsSubsequence(a, b)
  {
    if |a| > 0 && a[0] == b[0] {
      SubsequenceTail(a, b[1..]);
    }
  }

  /** Dropping the first element of a subsequence keeps it a subsequence. */
  lemma {:induction false} SubsequenceTail<T>(a: seq<T>, b: seq<T>)
    requires |a| > 0
    requires IsSubsequence(a, b)
    ensures IsSubsequence(a[1..], b)
    decreases |b|
  {
    if |a| > 1 {
      if a[0] != b[0] {
        SubsequenceTail(a, b[1..]);
      }
      if a[1] == b[0] {
        SubsequenceTail(a[1..], b[1..]);
      }
    }
  }

  /** Membership in a filtered sequence, both directions. */
  lemma {:induction false} FilterMembership<T>(s: seq<T>, keep: T -> bool, x: T)
    ensures x in Filter(s, keep) <==> x in s && keep(x)
  {
    if |s| > 0 {
      FilterMembership(s[1..], keep, x);
      assert s == [s[0]] + s[1..];
    }
  }

  /** Every kept element keeps its multiplicity; every dropped one vanishes. */
  lemma {:induction false} FilterCount<T>(s: seq<T>, keep: T -> bool, x: T)
    ensures multiset(Filter(s, keep))[x] == if keep(x) then multiset(s)[x] else 0
  {
    if |s| > 0 {
      FilterCount(s[1..], keep, x);
      assert s == [s[0]] + s[1..];
    }
  }

  /** Filtering distributes over concatenation. */
  lemma {:induction false} FilterAppend<T>(a: seq<T>, b: seq<T>, keep: T -> bool)
    ensures Filter(a + b, keep) == Filter(a, keep) + Filter(b, keep)
  {
    if |a| > 0 {
      FilterAppend(a[1..], b, keep);
      assert (a + b)[1..] == a[1..] + b;
    } else {
      assert a + b == b;
    }
  }

  /** A filter that keeps everything returns its input unchanged. */
  lemma {:induction false} FilterKeepsAll<T>(s: seq<T>, keep: T -> bool)
    requires forall i :: 0 <= i < |s| ==> keep(s[i])
    ensures Filter(s, keep) == s
  {
    if |s| > 0 {
      FilterKeepsAll(s[1..], keep);
    }
  }

  /** Clamps `v` into `[0, len]` after resolving a negative offset from the
      end, as `Array.prototype.slice` does with each of its bounds. */
  function SliceBound(v: int, len: nat): (r: nat)
    ensures r <= len
    ensures 0 <= v <= len ==> r == v
  {
    if v < 0 then (if len + v < 0 then 0 else len + v)
    else if v > len then len
    else v
  }

  /** `s.slice(start, end)` with JavaScript's negative-index and clamping rules. */
  function JsSlice<T>(s: seq<T>, start: int, end: int): (r: seq<T>)
    ensures |r| <= |s|
    ensures start >= 0 && end >= start ==>
              |r| == (if end <= |s| then end else |s|) - (if start <= |s| then start else |s|)
    ensures start >= 0 && start >= |s| ==> r == []
    ensures forall k :: 0 <= k < |r| ==>
              SliceBound(start, |s|) + k < |s| && r[k] == s[SliceBound(start, |s|) + k]
  {
    var lo := SliceBound(start, |s|);
    var hi := SliceBound(end, |s|);
    if hi <= lo then [] else s[lo..hi]
  }
}
