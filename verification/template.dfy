/**
 * The template engine of the server: `extractVariables`, which lists the
 * `{{name}}` placeholders of a prompt, and `fillVariables`, which substitutes
 * caller-supplied values for them.
 */
module Template {
  import opened Wrappers
  import opened Seqs
  import opened Text

  /** The literal placeholder text for a variable: `{{key}}`. */
  function Pattern(key: string): (p: string)
    ensures |p| == |key| + 4
  {
    "{{" + key + "}}"
  }

  /**
   * Reference meaning of a placeholder: the text `{{name}}`, with `name` a
   * non-empty run of word characters, starts at position `k` of `s`.
   */
  predicate PlaceholderAt(s: string, k: nat, name: string) {
    && IsWord(name)
    && k + |name| + 4 <= |s|
    && s[k] == '{' && s[k + 1] == '{'
    && s[k + 2..k + 2 + |name|] == name
    && s[k + 2 + |name|] == '}' && s[k + 3 + |name|] == '}'
  }

  /** A placeholder is an occurrence of the literal text `Pattern(name)` for a word `name`. */
  lemma PlaceholderIsPattern(s: string, k: nat, name: string)
    ensures PlaceholderAt(s, k, name) <==> IsWord(name) && OccursAt(s, k, Pattern(name))
  {
    if k + |name| + 4 <= |s| {
      var p := Pattern(name);
      var t := s[k..k + |name| + 4];
      assert forall m :: 0 <= m < |name| ==> p[2 + m] == name[m];
      assert forall m :: 0 <= m < |name| + 4 ==> t[m] == s[k + m];
      if PlaceholderAt(s, k, name) {
        assert forall m :: 0 <= m < |name| ==> s[k + 2 + m] == name[m];
        assert forall m :: 0 <= m < |name| + 4 ==> t[m] == p[m];
      }
      if t == p {
        assert forall m :: 0 <= m < |name| ==> s[k + 2 + m] == name[m];
      }
    }
  }

  /** `{{name}}` occurs somewhere in `s`. */
  predicate Occurs(s: string, name: string) {
    exists k: nat | k <= |s| :: PlaceholderAt(s, k, name)
  }

  /**
   * One attempt of the regular expression `\{\{(\w+)\}\}` at position `i`:
   * two opening braces, the maximal run of word characters (at least one),
   * two closing braces. Returns the end of the name.
   */
  function MatchAt(s: string, i: nat): (r: Option<nat>)
    requires i <= |s|
    ensures r.Some? ==> i + 2 < r.value && r.value + 2 <= |s| && PlaceholderAt(s, i, s[i + 2..r.value])
  {
    if i + 2 <= |s| && s[i] == '{' && s[i + 1] == '{' then
      var j := RunEnd(s, i + 2);
      if j > i + 2 && j + 2 <= |s| && s[j] == '}' && s[j + 1] == '}' then Some(j) else None
    else
      None
  }

  /** Every placeholder is found by the attempt at its own position, with its own name. */
  lemma MatchAtComplete(s: string, i: nat, name: string)
    requires i <= |s|
    requires PlaceholderAt(s, i, name)
    ensures MatchAt(s, i) == Some(i + 2 + |name|)
    ensures s[i + 2..i + 2 + |name|] == name
  {
    var e := i + 2 + |name|;
    assert forall k :: i + 2 <= k < e ==> s[k] == name[k - i - 2];
    assert !IsWordChar(s[e]);
  }

  /** One match of the global regular expression: where it starts and the name it captures. */
  datatype Match = Match(pos: nat, name: string)

  /**
   * The matches `text.match(/\{\{(\w+)\}\}/g)` finds from position `i` on:
   * try at `i`; on success record the name and resume after the match,
   * otherwise resume at `i + 1`.
   */
  function Scan(s: string, i: nat): (ms: seq<Match>)
    requires i <= |s|
    ensures forall k :: 0 <= k < |ms| ==> i <= ms[k].pos && PlaceholderAt(s, ms[k].pos, ms[k].name)
    ensures forall k, l :: 0 <= k < l < |ms| ==> ms[k].pos < ms[l].pos
    decreases |s| - i
  {
    if i == |s| then []
    else
      match MatchAt(s, i)
      case Some(j) => [Match(i, s[i + 2..j])] + Scan(s, j + 2)
      case None => Scan(s, i + 1)
  }

  /**
   * No placeholder can start strictly inside a match, so resuming after a
   * match skips no placeholder.
   */
  lemma NoPlaceholderInsideMatch(s: string, i: nat, k: nat, name: string)
    requires i <= |s|
    requires MatchAt(s, i).Some?
    requires i < k && PlaceholderAt(s, k, name)
    ensures MatchAt(s, i).value + 2 <= k
  {
  }

  /** Every placeholder at or after `i` is among the matches the scan finds. */
  lemma {:induction false} ScanComplete(s: string, i: nat, k: nat, name: string)
    requires i <= k <= |s|
    requires PlaceholderAt(s, k, name)
    ensures Match(k, name) in Scan(s, i)
    decreases |s| - i
  {
    if i == k {
      ScanHere(s, i, name);
    } else if MatchAt(s, i).Some? {
      var j := MatchAt(s, i).value;
      NoPlaceholderInsideMatch(s, i, k, name);
      ScanComplete(s, j + 2, k, name);
      ScanStepMatch(s, i);
    } else {
      ScanComplete(s, i + 1, k, name);
      ScanStepSkip(s, i);
    }
  }

  /** A placeholder where the scan stands is its next match. */
  lemma ScanHere(s: string, i: nat, name: string)
    requires i <= |s|
    requires PlaceholderAt(s, i, name)
    ensures Scan(s, i) == [Match(i, name)] + Scan(s, i + 4 + |name|)
  {
    MatchAtComplete(s, i, name);
  }

  lemma ScanStepMatch(s: string, i: nat)
    requires i < |s| && MatchAt(s, i).Some?
    ensures Scan(s, i) == [Match(i, s[i + 2..MatchAt(s, i).value])] + Scan(s, MatchAt(s, i).value + 2)
  {
  }

  lemma ScanStepSkip(s: string, i: nat)
    requires i < |s| && MatchAt(s, i).None?
    ensures Scan(s, i) == Scan(s, i + 1)
  {
  }


  /** The captured names of a list of matches, in order. */
  function Names(ms: seq<Match>): (ns: seq<string>)
    ensures |ns| == |ms|
    ensures forall k :: 0 <= k < |ms| ==> ns[k] == ms[k].name
  {
    seq(|ms|, k requires 0 <= k < |ms| => ms[k].name)
  }

  /** The position of the first `{{name}}` at or after `from`. */
  function FirstPlaceholder(s: string, name: string, from: nat): (p: nat)
    requires from <= |s|
    requires exists k: nat | from <= k <= |s| :: PlaceholderAt(s, k, name)
    ensures from <= p <= |s| && PlaceholderAt(s, p, name)
    ensures forall q :: from <= q < p ==> !PlaceholderAt(s, q, name)
    decreases |s| - from
  {
    if PlaceholderAt(s, from, name) then from
    else FirstPlaceholder(s, name, from + 1)
  }

  /** Where `{{name}}` first occurs in `s`. */
  function FirstPosition(s: string, name: string): (p: nat)
    requires Occurs(s, name)
    ensures p <= |s| && PlaceholderAt(s, p, name)
    ensures forall q: nat :: q < p ==> !PlaceholderAt(s, q, name)
  {
    FirstPlaceholder(s, name, 0)
  }

  /**
   * `extractVariables`: the distinct names of the placeholders in `text`,
   * in order of first occurrence (the `Set` of the regular-expression matches).
   */
  function ExtractVariables(text: string): (vars: seq<string>)
    ensures Distinct(vars)
    ensures forall name :: name in vars <==> Occurs(text, name)
    ensures forall i, j :: 0 <= i < j < |vars| ==> FirstPosition(text, vars[i]) < FirstPosition(text, vars[j])
  {
    var ms := Scan(text, 0);
    var ns := Names(ms);
    var vars := Dedup(ns);
    ExtractCharacterised(text, ms, ns);
    vars
  }

  /** Helper for `ExtractVariables`: relates the match list to the placeholders of the text. */
  lemma ExtractCharacterised(text: string, ms: seq<Match>, ns: seq<string>)
    requires ms == Scan(text, 0) && ns == Names(ms)
    ensures forall name :: name in ns <==> Occurs(text, name)
    ensures forall name :: name in ns ==> Occurs(text, name) && ms[IndexOf(ns, name)].pos == FirstPosition(text, name)
  {
    forall name | Occurs(text, name)
      ensures name in ns
    {
      var k: nat :| k <= |text| && PlaceholderAt(text, k, name);
      ScanComplete(text, 0, k, name);
      var m :| 0 <= m < |ms| && ms[m] == Match(k, name);
      assert ns[m] == name;
    }
    forall name | name in ns
      ensures Occurs(text, name) && ms[IndexOf(ns, name)].pos == FirstPosition(text, name)
    {
      var a := IndexOf(ns, name);
      assert PlaceholderAt(text, ms[a].pos, name);
      assert ms[a].pos <= |text|;
      var f := FirstPosition(text, name);
      if f < ms[a].pos {
        ScanComplete(text, 0, f, name);
      }
    }
  }

  /**
   * `fillVariables` as a left fold: each entry, in order, replaces every
   * `{{key}}` of the text built so far by its value.
   */
  function Fill(content: string, entries: seq<(string, string)>): (r: string)
    ensures (forall e :: e in entries ==> !Contains(content, Pattern(e.0))) ==> r == content
    decreases |entries|
  {
    if |entries| == 0 then content
    else
      ReplaceAllAbsent(content, Pattern(entries[0].0), entries[0].1);
      Fill(ReplaceAll(content, Pattern(entries[0].0), entries[0].1), entries[1..])
  }

  /** Filling with `a` and then with `b` is filling with `a + b`. */
  lemma {:induction false} FillAppend(content: string, a: seq<(string, string)>, b: seq<(string, string)>)
    ensures Fill(content, a + b) == Fill(Fill(content, a), b)
    decreases |a|
  {
    if |a| > 0 {
      assert (a + b)[1..] == a[1..] + b;
      FillAppend(ReplaceAll(content, Pattern(a[0].0), a[0].1), a[1..], b);
    } else {
      assert a + b == b;
    }
  }

  /** The fold equation: one more entry is one more `replaceAll` on the result so far. */
  lemma {:induction false} FillSnoc(content: string, m: seq<(string, string)>, key: string, value: string)
    ensures Fill(content, m + [(key, value)]) == ReplaceAll(Fill(content, m), Pattern(key), value)
  {
    FillAppend(content, m, [(key, value)]);
  }

  /**
   * A single entry replaces every occurrence of its placeholder: the first one
   * and, after it, each one in the rest of the text.
   */
  lemma FillOneEntry(a: string, key: string, b: string, value: string)
    requires forall i: nat :: i < |a| ==> !OccursAt(a + Pattern(key) + b, i, Pattern(key))
    ensures Fill(a + Pattern(key) + b, [(key, value)]) == a + value + Fill(b, [(key, value)])
  {
    ReplaceAllLeftmost(a, Pattern(key), b, value);
  }

  /** `fillVariables` as written: a loop over the entries, in iteration order. */
  method FillVariables(content: string, entries: seq<(string, string)>) returns (result: string)
    ensures result == Fill(content, entries)
  {
    result := content;
    var i := 0;
    while i < |entries|
      invariant 0 <= i <= |entries|
      invariant result == Fill(content, entries[..i])
    {
      var (key, value) := entries[i];
      FillSnoc(content, entries[..i], key, value);
      assert entries[..i + 1] == entries[..i] + [(key, value)];
      result := ReplaceAll(result, Pattern(key), value);
      i := i + 1;
    }
    assert entries[..i] == entries;
  }

  /** The extraction is empty exactly when the text holds no placeholder at all. */
  lemma ExtractEmptyIff(text: string)
    ensures ExtractVariables(text) == [] <==> forall k: nat, name :: k <= |text| ==> !PlaceholderAt(text, k, name)
  {
    var vars := ExtractVariables(text);
    if vars != [] {
      assert vars[0] in vars;
      assert Occurs(text, vars[0]);
    } else {
      forall k: nat, name | k <= |text|
        ensures !PlaceholderAt(text, k, name)
      {
        if PlaceholderAt(text, k, name) {
          assert Occurs(text, name);
        }
      }
    }
  }

  /** A prefix that cannot start the pattern passes through `replaceAll` untouched. */
  lemma {:induction false} ReplaceAllPlainPrefix(a: string, rest: string, pat: string, v: string)
    requires |pat| > 0
    requires forall i :: 0 <= i < |a| ==> a[i] != pat[0]
    ensures ReplaceAll(a + rest, pat, v) == a + ReplaceAll(rest, pat, v)
    decreases |a|
  {
    if |a| > 0 {
      var s := a + rest;
      assert s[0] == a[0];
      if |s| >= |pat| {
        assert s[..|pat|] != pat by {
          assert s[..|pat|][0] == a[0] != pat[0];
        }
      }
      assert s[1..] == a[1..] + rest;
      assert ReplaceAll(s, pat, v) == [a[0]] + ReplaceAll(a[1..] + rest, pat, v);
      ReplaceAllPlainPrefix(a[1..], rest, pat, v);
      assert [a[0]] + (a[1..] + ReplaceAll(rest, pat, v)) == a + ReplaceAll(rest, pat, v);
    } else {
      assert a + rest == rest;
    }
  }

  /** Text without an opening brace holds no placeholder. */
  lemma NoBraceNoVariables(t: string)
    requires forall m :: 0 <= m < |t| ==> t[m] != '{'
    ensures ExtractVariables(t) == []
  {
    ExtractEmptyIff(t);
  }

  /** A stretch without an opening brace adds no match. */
  lemma {:induction false} ScanSkipsPlain(s: string, i: nat, j: nat)
    requires i <= j <= |s|
    requires forall m :: i <= m < j ==> s[m] != '{'
    ensures Scan(s, i) == Scan(s, j)
    decreases j - i
  {
    if i < j {
      assert MatchAt(s, i) == None;
      ScanSkipsPlain(s, i + 1, j);
    }
  }

  /** The greeting prompt declares the single variable `name`. */
  lemma GreetingVariables()
    ensures ExtractVariables("Hello {{name}}!") == ["name"]
  {
    GreetingScan();
    assert Names([Match(6, "name")]) == ["name"];
    assert Dedup(["name"]) == ["name"];
  }

  lemma GreetingScan()
    ensures Scan("Hello {{name}}!", 0) == [Match(6, "name")]
  {
    var s := "Hello {{name}}!";
    GreetingScanFrom6();
    forall m | 0 <= m < 6
      ensures s[m] != '{'
    {
    }
    ScanSkipsPlain(s, 0, 6);
  }

  lemma GreetingScanFrom6()
    ensures Scan("Hello {{name}}!", 6) == [Match(6, "name")]
  {
    var s := "Hello {{name}}!";
    assert Scan(s, 14) == [];
    assert RunEnd(s, 8) == 12;
    assert MatchAt(s, 6) == Some(12);
    assert s[6 + 2..12] == "name";
  }


  /** Filling the greeting prompt with `name = Ada` leaves no placeholder. */
  lemma GreetingFilled()
    ensures Fill("Hello {{name}}!", [("name", "Ada")]) == "Hello Ada!"
    ensures ExtractVariables("Hello Ada!") == []
  {
    GreetingFill();
    FilledGreetingPlain();
  }

  lemma GreetingFill()
    ensures Fill("Hello {{name}}!", [("name", "Ada")]) == "Hello Ada!"
  {
    GreetingReplaced();
    assert [("name", "Ada")][1..] == [];
  }

  lemma FilledGreetingPlain()
    ensures ExtractVariables("Hello Ada!") == []
  {
    var t := "Hello Ada!";
    forall m | 0 <= m < |t|
      ensures t[m] != '{'
    {
    }
    NoBraceNoVariables(t);
  }

  lemma GreetingReplaced()
    ensures ReplaceAll("Hello {{name}}!", Pattern("name"), "Ada") == "Hello Ada!"
  {
    var pat := Pattern("name");
    assert "Hello {{name}}!" == "Hello " + (pat + "!");
    ReplaceAllPlainPrefix("Hello ", pat + "!", pat, "Ada");
    PatternFirst(pat, "!", "Ada");
  }

  lemma PatternFirst(pat: string, rest: string, v: string)
    requires |rest| < |pat|
    requires |pat| > 0
    ensures ReplaceAll(pat + rest, pat, v) == v + rest
  {
    var s := pat + rest;
    assert s[..|pat|] == pat && s[|pat|..] == rest;
  }


  /** `{{{{a}}}}` declares the single variable `a`: the scan matches the inner `{{a}}`. */
  lemma NestedBracesVariables()
    ensures ExtractVariables("{{{{a}}}}") == ["a"]
  {
    var s := "{{{{a}}}}";
    assert Scan(s, 7) == [];
    assert MatchAt(s, 2) == Some(5);
    assert s[2 + 2..5] == "a";
    assert Scan(s, 2) == [Match(2, "a")];
    assert Scan(s, 0) == Scan(s, 2);
    assert Names([Match(2, "a")]) == ["a"];
    assert Dedup(["a"]) == ["a"];
  }

  /**
   * A map that names every variable of the content can still leave a
   * placeholder behind: filling `a` in `{{{{a}}}}` with `x` produces the new
   * placeholder `{{x}}`.
   */
  lemma FullMapMayLeavePlaceholder()
    ensures Fill("{{{{a}}}}", [("a", "x")]) == "{{x}}"
    ensures ExtractVariables("{{x}}") == ["x"]
  {
    var s := "{{{{a}}}}";
    var pat := Pattern("a");
    assert s[..|pat|][2] != pat[2];
    assert s[1..][..|pat|][2] != pat[2];
    assert s[1..][1..] == pat + "}}";
    assert (pat + "}}")[..|pat|] == pat && (pat + "}}")[|pat|..] == "}}";
    assert ReplaceAll(pat + "}}", pat, "x") == "x}}";
    assert ReplaceAll(s[1..], pat, "x") == "{x}}";
    assert ReplaceAll(s, pat, "x") == "{{x}}";
    PlaceholderOnlyVariable();
  }

  /** `{{x}}` declares the single variable `x`. */
  lemma PlaceholderOnlyVariable()
    ensures ExtractVariables("{{x}}") == ["x"]
  {
    var t := "{{x}}";
    assert Scan(t, 5) == [];
    assert MatchAt(t, 0) == Some(3);
    assert t[0 + 2..3] == "x";
    assert Scan(t, 0) == [Match(0, "x")];
    assert Names([Match(0, "x")]) == ["x"];
    assert Dedup(["x"]) == ["x"];
  }

  /**
   * Substitution is sequential: a later entry rewrites placeholders that an
   * earlier value introduced, so the result depends on the entry order.
   */
  lemma FillOrderMatters()
    ensures Fill("{{a}}", [("a", "{{b}}"), ("b", "B")]) == "B"
    ensures Fill("{{a}}", [("b", "B"), ("a", "{{b}}")]) == "{{b}}"
  {
    var pa := Pattern("a");
    var pb := Pattern("b");
    assert ReplaceAll(pa, pa, pb) == pb;
    assert ReplaceAll(pb, pb, "B") == "B";
    assert pa[..|pb|] == pa && pa[2] != pb[2];
    assert ReplaceAll(pa[1..], pb, "B") == pa[1..];
    assert [pa[0]] + pa[1..] == pa;
    assert ReplaceAll(pa, pb, "B") == pa;
    var later := [("b", "B"), ("a", "{{b}}")];
    assert later[1..] == [("a", "{{b}}")];
    assert Fill(pa, [("a", "{{b}}")]) == pb;
    assert pa == "{{a}}" && Pattern(later[0].0) == pb;
    assert Fill(pa, later) == Fill(ReplaceAll(pa, pb, "B"), later[1..]);
  }
}
