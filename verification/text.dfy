/**
 * String vocabulary of the server: regular-expression word characters, ASCII
 * lower-casing, substring search, JavaScript's literal `replaceAll`, and the
 * `", "`-joined name lists the replies print.
 */
module Text {
  import opened Wrappers

  /** A character of the regular-expression class `\w`: `[A-Za-z0-9_]`. */
  predicate IsWordChar(c: char) {
    ('a' <= c <= 'z') || ('A' <= c <= 'Z') || ('0' <= c <= '9') || c == '_'
  }

  /** A non-empty run of word characters, the text `\w+` matches. */
  predicate IsWord(s: string) {
    |s| > 0 && forall i :: 0 <= i < |s| ==> IsWordChar(s[i])
  }

  predicate IsUpper(c: char) {
    'A' <= c <= 'Z'
  }

  /** ASCII lower-casing of one character. */
  function LowerChar(c: char): char {
    if IsUpper(c) then (c as int + 32) as char else c
  }

  /** `toLowerCase`, restricted to the ASCII letters. */
  function Lower(s: string): (r: string)
    ensures |r| == |s|
    ensures forall i :: 0 <= i < |s| ==> !IsUpper(r[i])
    ensures forall i :: 0 <= i < |s| && IsUpper(s[i]) ==> r[i] as int == s[i] as int + 32
    ensures forall i :: 0 <= i < |s| && !IsUpper(s[i]) ==> r[i] == s[i]
  {
    seq(|s|, i requires 0 <= i < |s| => LowerChar(s[i]))
  }

  /** `pat` occurs in `s` starting at position `i`. */
  predicate OccursAt(s: string, i: nat, pat: string) {
    i + |pat| <= |s| && s[i..i + |pat|] == pat
  }

  /** JavaScript's `s.includes(pat)`. */
  predicate Contains(s: string, pat: string) {
    exists i: nat | i <= |s| :: OccursAt(s, i, pat)
  }

  /** An occurrence in a suffix is an occurrence in the whole string. */
  lemma OccursInSuffix(s: string, k: nat, i: nat, pat: string)
    requires k <= |s|
    ensures OccursAt(s[k..], i, pat) <==> OccursAt(s, k + i, pat)
  {
    if i + |pat| <= |s| - k {
      assert s[k..][i..i + |pat|] == s[k + i..k + i + |pat|];
    }
  }

  /** The end of the maximal run of word characters that starts at `i`. */
  function RunEnd(s: string, i: nat): (j: nat)
    requires i <= |s|
    ensures i <= j <= |s|
    ensures forall k :: i <= k < j ==> IsWordChar(s[k])
    ensures j < |s| ==> !IsWordChar(s[j])
    decreases |s| - i
  {
    if i < |s| && IsWordChar(s[i]) then RunEnd(s, i + 1) else i
  }

  /**
   * JavaScript's `s.replaceAll(pat, v)` for a string pattern: every occurrence
   * of `pat`, found left to right without overlap, is replaced by `v`. The
   * replacement text is taken literally.
   */
  function ReplaceAll(s: string, pat: string, v: string): (r: string)
    requires |pat| > 0
    ensures v == pat ==> r == s
    decreases |s|
  {
    if |s| < |pat| then s
    else if s[..|pat|] == pat then
      assert s == s[..|pat|] + s[|pat|..];
      v + ReplaceAll(s[|pat|..], pat, v)
    else
      assert s == [s[0]] + s[1..];
      [s[0]] + ReplaceAll(s[1..], pat, v)
  }

  /** Replacing a pattern that does not occur changes nothing. */
  lemma {:induction false} ReplaceAllAbsent(s: string, pat: string, v: string)
    requires |pat| > 0
    ensures !Contains(s, pat) ==> ReplaceAll(s, pat, v) == s
    decreases |s|
  {
    if !Contains(s, pat) && |s| >= |pat| {
      assert !OccursAt(s, 0, pat);
      assert !Contains(s[1..], pat) by {
        forall i: nat | i <= |s[1..]|
          ensures !OccursAt(s[1..], i, pat)
        {
          OccursInSuffix(s, 1, i, pat);
        }
      }
      ReplaceAllAbsent(s[1..], pat, v);
    }
  }

  /**
   * The leftmost occurrence is replaced and the scan resumes right after it:
   * when `pat` does not occur before the end of `a`, `a + pat + b` becomes `a`,
   * then `v`, then the replacement of every occurrence in `b`. Together with
   * `ReplaceAllAbsent` this determines `ReplaceAll` on every input.
   */
  lemma {:induction false} ReplaceAllLeftmost(a: string, pat: string, b: string, v: string)
    requires |pat| > 0
    requires forall i: nat :: i < |a| ==> !OccursAt(a + pat + b, i, pat)
    ensures ReplaceAll(a + pat + b, pat, v) == a + v + ReplaceAll(b, pat, v)
    decreases |a|
  {
    if |a| == 0 {
      ReplaceAllAtPattern(pat, b, v);
      assert a + pat + b == pat + b;
    } else {
      var s := a + pat + b;
      var t := a[1..] + pat + b;
      assert !OccursAt(s, 0, pat);
      NoOccurrenceInTail(a, pat, b);
      ReplaceAllLeftmost(a[1..], pat, b, v);
      ReplaceAllSkip(s, pat, v);
      assert s[1..] == t;
      assert a == [a[0]] + a[1..];
    }
  }

  /** An occurrence at the start is replaced, and the scan resumes after it. */
  lemma ReplaceAllAtPattern(pat: string, b: string, v: string)
    requires |pat| > 0
    ensures ReplaceAll(pat + b, pat, v) == v + ReplaceAll(b, pat, v)
  {
    var s := pat + b;
    assert s[..|pat|] == pat && s[|pat|..] == b;
  }

  /** A text that does not start with the pattern keeps its first character. */
  lemma ReplaceAllSkip(s: string, pat: string, v: string)
    requires |pat| > 0 && |s| > 0
    requires !OccursAt(s, 0, pat)
    ensures ReplaceAll(s, pat, v) == [s[0]] + ReplaceAll(s[1..], pat, v)
  {
    if |s| >= |pat| {
      assert s[..|pat|] == s[0..|pat|];
    } else {
      ReplaceAllAbsent(s, pat, v);
      ReplaceAllAbsent(s[1..], pat, v);
      assert s == [s[0]] + s[1..];
    }
  }

  lemma NoOccurrenceInTail(a: string, pat: string, b: string)
    requires |a| > 0
    requires forall i: nat :: i < |a| ==> !OccursAt(a + pat + b, i, pat)
    ensures forall i: nat :: i < |a[1..]| ==> !OccursAt(a[1..] + pat + b, i, pat)
  {
    var s := a + pat + b;
    assert s[1..] == a[1..] + pat + b;
    forall i: nat | i < |a[1..]|
      ensures !OccursAt(a[1..] + pat + b, i, pat)
    {
      OccursInSuffix(s, 1, i, pat);
      assert !OccursAt(s, 1 + i, pat);
    }
  }

  /** A replacement no longer than the pattern never lengthens the text, and vice versa. */
  lemma {:induction false} ReplaceAllLength(s: string, pat: string, v: string)
    requires |pat| > 0
    ensures |v| <= |pat| ==> |ReplaceAll(s, pat, v)| <= |s|
    ensures |v| >= |pat| ==> |ReplaceAll(s, pat, v)| >= |s|
    decreases |s|
  {
    if |s| >= |pat| {
      if s[..|pat|] == pat {
        ReplaceAllLength(s[|pat|..], pat, v);
      } else {
        ReplaceAllLength(s[1..], pat, v);
      }
    }
  }

  /**
   * `replaceAll` leaves the text unchanged exactly when the pattern does not
   * occur or is replaced by itself.
   */
  lemma {:induction false} ReplaceAllUnchanged(s: string, pat: string, v: string)
    requires |pat| > 0
    ensures ReplaceAll(s, pat, v) == s <==> (!Contains(s, pat) || v == pat)
    decreases |s|
  {
    ReplaceAllAbsent(s, pat, v);
    if |s| >= |pat| {
      if s[..|pat|] == pat {
        assert OccursAt(s, 0, pat);
        var rest := s[|pat|..];
        assert s == pat + rest;
        ReplaceAllUnchanged(rest, pat, v);
        ReplaceAllLength(rest, pat, v);
        if v != pat {
          var r := ReplaceAll(s, pat, v);
          if |v| == |pat| {
            assert r[..|pat|] == v;
            assert s[..|pat|] == pat;
          } else {
            assert |r| != |s|;
          }
        }
      } else {
        ReplaceAllUnchanged(s[1..], pat, v);
        if Contains(s, pat) {
          var i: nat :| i <= |s| && OccursAt(s, i, pat);
          assert i > 0;
          OccursInSuffix(s, 1, i - 1, pat);
          assert Contains(s[1..], pat);
        } else {
          assert !Contains(s[1..], pat) by {
            forall i: nat | i <= |s[1..]|
              ensures !OccursAt(s[1..], i, pat)
            {
              OccursInSuffix(s, 1, i, pat);
            }
          }
        }
        assert s == [s[0]] + s[1..];
      }
    }
  }

  /** JavaScript's `xs.join(sep)`. */
  function Join(xs: seq<string>, sep: string): string
    decreases |xs|
  {
    if |xs| == 0 then ""
    else if |xs| == 1 then xs[0]
    else xs[0] + sep + Join(xs[1..], sep)
  }

  /**
   * Reads back a non-empty list of words printed as `w1, w2, ..., wn`.
   * Defined for exactly the strings `Join(ws, ", ")` produces from words.
   */
  function ParseWordList(s: string): (r: Option<seq<string>>)
    ensures r.Some? ==> |r.value| > 0 && Join(r.value, ", ") == s
    ensures r.Some? ==> forall k :: 0 <= k < |r.value| ==> IsWord(r.value[k])
    decreases |s|
  {
    var j := RunEnd(s, 0);
    if j == 0 then None
    else if j == |s| then
      assert s[..j] == s;
      Some([s])
    else if j + 2 <= |s| && s[j] == ',' && s[j + 1] == ' ' then
      match ParseWordList(s[j + 2..])
      case Some(rest) =>
        assert s == s[..j] + ", " + s[j + 2..];
        Some([s[..j]] + rest)
      case None => None
    else None
  }

  /** The word run at the front of `w + t` is exactly `w` when `t` does not continue it. */
  lemma RunEndOfWord(w: string, t: string)
    requires IsWord(w)
    requires |t| > 0 ==> !IsWordChar(t[0])
    ensures RunEnd(w + t, 0) == |w|
  {
    var s := w + t;
    assert forall k :: 0 <= k < |w| ==> s[k] == w[k];
    assert |t| > 0 ==> s[|w|] == t[0];
  }

  /** A printed list of words reads back as the same list. */
  lemma {:induction false} ParseJoinRoundTrip(ws: seq<string>)
    requires |ws| > 0
    requires forall k :: 0 <= k < |ws| ==> IsWord(ws[k])
    ensures ParseWordList(Join(ws, ", ")) == Some(ws)
    decreases |ws|
  {
    var w := ws[0];
    if |ws| == 1 {
      ParseSingle(w);
      assert ws == [w];
    } else {
      var tail := Join(ws[1..], ", ");
      assert Join(ws, ", ") == w + ", " + tail;
      ParseJoinRoundTrip(ws[1..]);
      ParseCons(w, tail, ws[1..]);
      assert [w] + ws[1..] == ws;
    }
  }

  /** A single word reads back as itself. */
  lemma ParseSingle(w: string)
    requires IsWord(w)
    ensures ParseWordList(w) == Some([w])
  {
    RunEndOfWord(w, "");
    assert w + "" == w;
    assert w[..|w|] == w;
  }

  /** A word, a separator and a readable rest read back as the word followed by the rest. */
  lemma ParseCons(w: string, tail: string, rest: seq<string>)
    requires IsWord(w)
    requires ParseWordList(tail) == Some(rest)
    ensures ParseWordList(w + ", " + tail) == Some([w] + rest)
  {
    var s := w + ", " + tail;
    assert s == w + (", " + tail);
    RunEndOfWord(w, ", " + tail);
    assert s[..|w|] == w;
    assert s[|w|] == ',' && s[|w| + 1] == ' ';
    assert s[|w| + 2..] == tail;
  }
}
