/** `Array.prototype.filter` and the relations used to describe its result. */
module Seqs {

  /** `a` can be obtained from `b` by deleting elements, keeping the order of
      the rest. */
  ghost predicate IsSubsequence<T>(a: seq<T>, b: seq<T>)
    decreases |b|
  {
    if a == [] then true
    else if b == [] then false
    else (a[0] == b[0] && IsSubsequence(a[1..], b[1..])) || IsSubsequence(a, b[1..])
  }

  /** Number of elements of `s` that satisfy `keep`. */
  function Count<T>(s: seq<T>, keep: T -> bool): nat {
    if s == [] then 0 else (if keep(s[0]) then 1 else 0) + Count(s[1..], keep)
  }

  /** `s.filter(keep)`: the elements satisfying `keep`, in their original
      order, as often as they occur. */
  function Filter<T>(s: seq<T>, keep: T -> bool): (r: seq<T>)
    ensures |r| == Count(s, keep) <= |s|
    ensures forall i :: 0 <= i < |r| ==> keep(r[i])
    ensures IsSubsequence(r, s)
  {
    if s == [] then []
    else if keep(s[0]) then [s[0]] + Filter(s[1..], keep)
    else Filter(s[1..], keep)
  }

  /** An element is in the filtered sequence exactly when it is in the
      original one and satisfies the predicate. */
  lemma {:induction false} FilterMembers<T>(s: seq<T>, keep: T -> bool)
    ensures forall i :: 0 <= i < |Filter(s, keep)| ==> Filter(s, keep)[i] in s
    ensures forall i :: 0 <= i < |s| && keep(s[i]) ==> s[i] in Filter(s, keep)
    decreases |s|
  {
    if s != [] {
      FilterMembers(s[1..], keep);
    }
  }

  /** The element at index `i` that passes the filter lands at the index
      given by the number of passing elements before it: filtering neither
      reorders, drops a passing element, nor merges duplicates. */
  lemma {:induction false} FilterPosition<T>(s: seq<T>, keep: T -> bool, i: nat)
    requires i < |s| && keep(s[i])
    ensures Count(s[..i], keep) < |Filter(s, keep)|
    ensures Filter(s, keep)[Count(s[..i], keep)] == s[i]
    decreases i
  {
    if i > 0 {
      assert s[..i][0] == s[0];
      assert s[..i][1..] == s[1..][..i - 1];
      FilterPosition(s[1..], keep, i - 1);
    }
  }

  /** Filtering distributes over concatenation: no element moves across
      another. */
  lemma {:induction false} FilterAppend<T>(a: seq<T>, b: seq<T>, keep: T -> bool)
    ensures Filter(a + b, keep) == Filter(a, keep) + Filter(b, keep)
    decreases |a|
  {
    if a == [] {
      assert a + b == b;
    } else {
      var ab := a + b;
      assert ab[0] == a[0];
      assert ab[1..] == a[1..] + b;
      FilterAppend(a[1..], b, keep);
      var head := if keep(a[0]) then [a[0]] else [];
      assert Filter(a, keep) == head + Filter(a[1..], keep);
      calc {
        Filter(ab, keep);
        head + Filter(ab[1..], keep);
        head + (Filter(a[1..], keep) + Filter(b, keep));
        (head + Filter(a[1..], keep)) + Filter(b, keep);
      }
    }
  }

  /** Filtering keeps everything exactly when every element satisfies the
      predicate. */
  lemma {:induction false} FilterKeepsAll<T>(s: seq<T>, keep: T -> bool)
    ensures Filter(s, keep) == s <==> forall i :: 0 <= i < |s| ==> keep(s[i])
    decreases |s|
  {
    if s != [] {
      FilterKeepsAll(s[1..], keep);
      if !keep(s[0]) {
        assert |Filter(s, keep)| < |s|;
      }
    }
  }

  /** Filtering passes over a prefix none of whose elements is kept. */
  lemma {:induction false} FilterSkips<T>(s: seq<T>, keep: T -> bool, k: nat)
    requires k <= |s|
    requires forall i :: 0 <= i < k ==> !keep(s[i])
    ensures Filter(s, keep) == Filter(s[k..], keep)
    decreases k
  {
    if k > 0 {
      assert s[1..][k - 1..] == s[k..];
      FilterSkips(s[1..], keep, k - 1);
    }
  }

  /** Filtering with a stricter predicate after a looser one is filtering
      with the stricter one alone. */
  lemma {:induction false} FilterNested<T>(s: seq<T>, outer: T -> bool, inner: T -> bool)
    requires forall x :: inner(x) ==> outer(x)
    ensures Filter(Filter(s, outer), inner) == Filter(s, inner)
    decreases |s|
  {
    if s != [] {
      FilterNested(s[1..], outer, inner);
      if outer(s[0]) {
        var t := [s[0]] + Filter(s[1..], outer);
        assert t[0] == s[0] && t[1..] == Filter(s[1..], outer);
      }
    }
  }

  /** A prefix of a sequence is a subsequence of it. */
  lemma {:induction false} PrefixIsSubsequence<T>(a: seq<T>, n: nat)
    requires n <= |a|
    ensures IsSubsequence(a[..n], a)
    decreases n
  {
    if n > 0 {
      assert a[..n][1..] == a[1..][..n - 1];
      PrefixIsSubsequence(a[1..], n - 1);
    }
  }

  /** Subsequence is transitive. */
  lemma {:induction false} SubsequenceTransitive<T>(a: seq<T>, b: seq<T>, c: seq<T>)
    requires IsSubsequence(a, b) && IsSubsequence(b, c)
    ensures IsSubsequence(a, c)
    decreases |c|
  {
    if a != [] {
      if b[0] == c[0] && IsSubsequence(b[1..], c[1..]) {
        if a[0] == b[0] && IsSubsequence(a[1..], b[1..]) {
          SubsequenceTransitive(a[1..], b[1..], c[1..]);
        } else {
          SubsequenceTransitive(a, b[1..], c[1..]);
        }
      } else {
        SubsequenceTransitive(a, b, c[1..]);
      }
    }
  }
}
