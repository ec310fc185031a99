/** Generic sequence vocabulary: distinctness, first occurrence, de-duplication, filtering. */
module Seqs {

  /** No element occurs twice. */
  ghost predicate Distinct<T>(s: seq<T>) {
    forall i, j :: 0 <= i < j < |s| ==> s[i] != s[j]
  }

  /** Position of the first occurrence of `x` in `s`. */
  function IndexOf<T(==)>(s: seq<T>, x: T): (i: nat)
    requires x in s
    ensures i < |s| && s[i] == x
    ensures forall j :: 0 <= j < i ==> s[j] != x
  {
    if s[0] == x then 0 else 1 + IndexOf(s[1..], x)
  }

  /** Extending a sequence does not move the first occurrence of an element it already holds. */
  lemma IndexOfPrefix<T>(a: seq<T>, b: seq<T>, x: T)
    requires x in a
    ensures x in a + b && IndexOf(a + b, x) == IndexOf(a, x)
  {
    var i := IndexOf(a, x);
    var k := IndexOf(a + b, x);
    assert (a + b)[i] == x;
    assert k <= i;
    assert a[k] == (a + b)[k];
  }

  /**
   * The distinct elements of `s` in first-occurrence order: the behaviour of
   * JavaScript's `[...new Set(s)]`.
   */
  function Dedup<T(==,!new)>(s: seq<T>): (r: seq<T>)
    ensures Distinct(r)
    ensures forall x :: x in r <==> x in s
    ensures forall i, j :: 0 <= i < j < |r| ==> IndexOf(s, r[i]) < IndexOf(s, r[j])
    decreases |s|
  {
    if s == [] then []
    else
      var init := s[..|s| - 1];
      var last := s[|s| - 1];
      assert s == init + [last];
      var d := Dedup(init);
      DedupIndexStable(init, last, d);
      if last in d then d else d + [last]
  }

  /** Helper for `Dedup`: first occurrences within `init` are unchanged by appending `last`. */
  lemma DedupIndexStable<T(!new)>(init: seq<T>, last: T, d: seq<T>)
    requires forall x :: x in d <==> x in init
    ensures forall x :: x in d ==> x in init + [last] && IndexOf(init + [last], x) == IndexOf(init, x)
    ensures last !in init ==> IndexOf(init + [last], last) == |init|
  {
    forall x | x in d
      ensures x in init + [last] && IndexOf(init + [last], x) == IndexOf(init, x)
    {
      IndexOfPrefix(init, [last], x);
    }
  }

  /** `a` can be obtained from `b` by deleting elements (order is kept). */
  ghost predicate IsSubsequence<T>(a: seq<T>, b: seq<T>)
    decreases |b|
  {
    && |a| <= |b|
    && (|a| == 0 || (a[0] == b[0] && IsSubsequence(a[1..], b[1..])) || IsSubsequence(a, b[1..]))
  }

  /**
   * The elements of `s` that satisfy `f`, in their original order
   * (JavaScript's `Array.prototype.filter`).
   */
  function Filter<T(==,!new)>(s: seq<T>, f: T -> bool): (r: seq<T>)
    ensures |r| <= |s|
    ensures IsSubsequence(r, s)
    ensures forall x :: x in r ==> f(x)
    ensures forall x :: multiset(r)[x] == if f(x) then multiset(s)[x] else 0
    decreases |s|
  {
    if s == [] then []
    else
      assert s == [s[0]] + s[1..];
      var rest := Filter(s[1..], f);
      if f(s[0]) then [s[0]] + rest else rest
  }

  /** Filtering by two predicates that agree everywhere gives the same sequence. */
  lemma {:induction false} FilterExtensional<T(!new)>(s: seq<T>, f: T -> bool, g: T -> bool)
    requires forall x :: f(x) == g(x)
    ensures Filter(s, f) == Filter(s, g)
    decreases |s|
  {
    if s != [] {
      FilterExtensional(s[1..], f, g);
    }
  }

  /** A predicate that holds of every element keeps the whole sequence. */
  lemma {:induction false} FilterAll<T(!new)>(s: seq<T>, f: T -> bool)
    requires forall x :: x in s ==> f(x)
    ensures Filter(s, f) == s
    decreases |s|
  {
    if s != [] {
      FilterAll(s[1..], f);
    }
  }
}
