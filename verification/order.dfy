/**
 * The order JavaScript's default `Array.prototype.sort` puts strings in:
 * lexicographic by character, a proper prefix first.
 */
module Order {
  import opened Seqs

  /** `a` sorts strictly before `b`. */
  predicate Less(a: string, b: string)
    decreases |a|
  {
    if |a| == 0 then |b| > 0
    else if |b| == 0 then false
    else if a[0] == b[0] then Less(a[1..], b[1..])
    else a[0] < b[0]
  }

  lemma {:induction false} LessIrreflexive(a: string)
    ensures !Less(a, a)
    decreases |a|
  {
    if |a| > 0 {
      LessIrreflexive(a[1..]);
    }
  }

  lemma {:induction false} LessTransitive(a: string, b: string, c: string)
    requires Less(a, b) && Less(b, c)
    ensures Less(a, c)
    decreases |a|
  {
    if |a| > 0 && a[0] == b[0] && b[0] == c[0] {
      LessTransitive(a[1..], b[1..], c[1..]);
    }
  }

  /** Two different strings are ordered one way or the other. */
  lemma {:induction false} LessTotal(a: string, b: string)
    requires a != b
    ensures Less(a, b) || Less(b, a)
    decreases |a|
  {
    if |a| > 0 && |b| > 0 && a[0] == b[0] {
      assert a == [a[0]] + a[1..] && b == [b[0]] + b[1..];
      LessTotal(a[1..], b[1..]);
    }
  }

  /** Adjacent elements are in non-decreasing order. */
  ghost predicate Sorted(s: seq<string>) {
    forall i :: 0 < i < |s| ==> !Less(s[i], s[i - 1])
  }

  /** Adjacent elements are in increasing order. */
  ghost predicate StrictlySorted(s: seq<string>) {
    forall i :: 0 < i < |s| ==> Less(s[i - 1], s[i])
  }

  /** In a strictly sorted sequence every earlier element is less than every later one. */
  lemma {:induction false} StrictlySortedPairwise(s: seq<string>, i: nat, j: nat)
    requires StrictlySorted(s)
    requires i < j < |s|
    ensures Less(s[i], s[j])
    decreases j - i
  {
    if i + 1 < j {
      StrictlySortedPairwise(s, i, j - 1);
      LessTransitive(s[i], s[j - 1], s[j]);
    }
  }

  /** Inserts `x` into a sorted sequence before the first element it sorts strictly before. */
  function Insert(x: string, s: seq<string>): (r: seq<string>)
    ensures multiset(r) == multiset(s) + multiset{x}
    ensures |r| > 0 && (r[0] == x || (|s| > 0 && r[0] == s[0]))
    decreases |s|
  {
    if |s| == 0 then [x]
    else if Less(x, s[0]) then [x] + s
    else
      assert s == [s[0]] + s[1..];
      [s[0]] + Insert(x, s[1..])
  }

  /** Insertion keeps a sorted sequence sorted. */
  lemma {:induction false} InsertSorted(x: string, s: seq<string>)
    requires Sorted(s)
    ensures Sorted(Insert(x, s))
    decreases |s|
  {
    if |s| > 0 && !Less(x, s[0]) {
      InsertSorted(x, s[1..]);
      var rest := Insert(x, s[1..]);
      if x != s[0] {
        LessTotal(x, s[0]);
      }
      if rest[0] != x {
        assert rest[0] == s[1];
      }
      assert !Less(rest[0], s[0]);
      var r := Insert(x, s);
      assert r == [s[0]] + rest;
      forall i | 0 < i < |r|
        ensures !Less(r[i], r[i - 1])
      {
        if i > 1 {
          assert r[i] == rest[i - 1] && r[i - 1] == rest[i - 2];
        }
      }
    } else if |s| > 0 {
      assert !Less(s[0], x) by {
        if Less(s[0], x) {
          LessTransitive(x, s[0], x);
          LessIrreflexive(x);
        }
      }
      var r := Insert(x, s);
      assert r == [x] + s;
      forall i | 0 < i < |r|
        ensures !Less(r[i], r[i - 1])
      {
        if i > 1 {
          assert r[i] == s[i - 1] && r[i - 1] == s[i - 2];
        }
      }
    }
  }

  /** Inserting a new element keeps a strictly sorted sequence strictly sorted. */
  lemma {:induction false} InsertStrictlySorted(x: string, s: seq<string>)
    requires StrictlySorted(s)
    requires x !in s
    ensures StrictlySorted(Insert(x, s))
    decreases |s|
  {
    if |s| > 0 {
      if Less(x, s[0]) {
        var r := Insert(x, s);
        assert r == [x] + s;
        forall i | 0 < i < |r|
          ensures Less(r[i - 1], r[i])
        {
          if i > 1 {
            assert r[i] == s[i - 1] && r[i - 1] == s[i - 2];
          }
        }
      } else {
        assert x !in s[1..];
        InsertStrictlySorted(x, s[1..]);
        var rest := Insert(x, s[1..]);
        LessTotal(x, s[0]);
        if rest[0] != x {
          assert rest[0] == s[1];
        }
        var r := Insert(x, s);
        assert r == [s[0]] + rest;
        forall i | 0 < i < |r|
          ensures Less(r[i - 1], r[i])
        {
          if i > 1 {
            assert r[i] == rest[i - 1] && r[i - 1] == rest[i - 2];
          }
        }
      }
    }
  }

  /** Sorts strings into ascending order; the model of `xs.sort()` on strings. */
  function Sort(xs: seq<string>): (r: seq<string>)
    ensures multiset(r) == multiset(xs)
    ensures Sorted(r)
    ensures Distinct(xs) ==> StrictlySorted(r)
    decreases |xs|
  {
    if |xs| == 0 then []
    else
      var rest := Sort(xs[1..]);
      SortStep(xs, rest);
      Insert(xs[0], rest)
  }

  /** Inserting the head into the sorted tail sorts the whole sequence. */
  lemma SortStep(xs: seq<string>, rest: seq<string>)
    requires |xs| > 0
    requires multiset(rest) == multiset(xs[1..])
    requires Sorted(rest)
    requires Distinct(xs[1..]) ==> StrictlySorted(rest)
    ensures multiset(Insert(xs[0], rest)) == multiset(xs)
    ensures Sorted(Insert(xs[0], rest))
    ensures Distinct(xs) ==> StrictlySorted(Insert(xs[0], rest))
  {
    assert xs == [xs[0]] + xs[1..];
    InsertSorted(xs[0], rest);
    if Distinct(xs) {
      HeadNotInRest(xs, rest);
      InsertStrictlySorted(xs[0], rest);
    }
  }

  /** The head of a sequence without repeats is not among the rest. */
  lemma HeadNotInRest(xs: seq<string>, rest: seq<string>)
    requires |xs| > 0 && Distinct(xs)
    requires multiset(rest) == multiset(xs[1..])
    ensures Distinct(xs[1..])
    ensures xs[0] !in rest
  {
    forall k | 0 <= k < |xs[1..]|
      ensures xs[1..][k] != xs[0]
    {
      assert xs[1..][k] == xs[k + 1];
    }
    assert xs[0] !in multiset(xs[1..]);
  }
}
