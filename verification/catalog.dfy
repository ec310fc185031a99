/**
 * The prompt list and the pure list logic the four tools share: lookup by slug
 * or name, the case-insensitive category filter, grouping by category in
 * first-seen order, and per-category counts.
 */
module Catalog {
  import opened Wrappers
  import opened Seqs
  import opened Text
  import opened Order

  /** A prompt record as the remote library returns it. */
  datatype Prompt = Prompt(
    id: string,
    slug: string,
    name: string,
    category: string,
    description: string,
    content: string)

  // ---------------------------------------------------------------------------
  // Lookup (shared by get_prompt and use_prompt)
  // ---------------------------------------------------------------------------

  /**
   * The lookup condition: the slug equals the lower-cased query, or the
   * lower-cased name does. The slug itself is not lower-cased.
   */
  predicate MatchesQuery(p: Prompt, query: string) {
    p.slug == Lower(query) || Lower(p.name) == Lower(query)
  }

  /** `prompts.find(...)`: the index of the first prompt in list order that matches. */
  function FindPrompt(ps: seq<Prompt>, query: string): (r: Option<nat>)
    ensures r.Some? ==> r.value < |ps| && MatchesQuery(ps[r.value], query)
    ensures r.Some? ==> forall j :: 0 <= j < r.value ==> !MatchesQuery(ps[j], query)
    ensures r.None? <==> forall j :: 0 <= j < |ps| ==> !MatchesQuery(ps[j], query)
    decreases |ps|
  {
    if |ps| == 0 then None
    else if MatchesQuery(ps[0], query) then Some(0)
    else
      match FindPrompt(ps[1..], query)
      case Some(i) => Some(i + 1)
      case None =>
        assert forall j :: 1 <= j < |ps| ==> ps[j] == ps[1..][j - 1];
        None
  }

  /** The lookup depends on the query only through its lower-cased form. */
  lemma {:induction false} FindPromptCaseInsensitive(ps: seq<Prompt>, q1: string, q2: string)
    requires Lower(q1) == Lower(q2)
    ensures FindPrompt(ps, q1) == FindPrompt(ps, q2)
    decreases |ps|
  {
    if |ps| > 0 {
      FindPromptCaseInsensitive(ps[1..], q1, q2);
    }
  }

  /** A slug holding an upper-case letter can only ever match through the name. */
  lemma UpperCaseSlugMatchesOnlyByName(p: Prompt, query: string)
    requires exists i :: 0 <= i < |p.slug| && IsUpper(p.slug[i])
    ensures MatchesQuery(p, query) <==> Lower(p.name) == Lower(query)
  {
  }

  /**
   * A slug match is not preferred: a prompt whose name matches wins over a
   * later prompt whose slug matches.
   */
  lemma NameMatchBeforeSlugMatchWins()
    ensures FindPrompt([
        Prompt("1", "ship-it", "Deploy", "Ops", "", ""),
        Prompt("2", "deploy", "Release", "Ops", "", "")], "deploy") == Some(0)
  {
    var p := Prompt("1", "ship-it", "Deploy", "Ops", "", "");
    assert Lower(p.name) == Lower("deploy");
  }

  // ---------------------------------------------------------------------------
  // Category filter (list_prompts)
  // ---------------------------------------------------------------------------

  /**
   * Whether the `category` argument of `list_prompts` keeps `p`: an absent or
   * empty argument keeps everything, otherwise categories are compared
   * lower-cased.
   */
  predicate Selects(category: Option<string>, p: Prompt) {
    category.None? || category.value == "" || Lower(p.category) == Lower(category.value)
  }

  /** The prompts `list_prompts` shows for its `category` argument. */
  function FilterByCategory(ps: seq<Prompt>, category: Option<string>): (r: seq<Prompt>)
    ensures IsSubsequence(r, ps)
    ensures forall p :: multiset(r)[p] == if Selects(category, p) then multiset(ps)[p] else 0
  {
    match category
    case None => FilterAll(ps, (p: Prompt) => Selects(category, p)); ps
    case Some(c) =>
      if c == "" then FilterAll(ps, (p: Prompt) => Selects(category, p)); ps
      else
        FilterExtensional(ps, (p: Prompt) => Lower(p.category) == Lower(c), (p: Prompt) => Selects(category, p));
        Filter(ps, (p: Prompt) => Lower(p.category) == Lower(c))
  }

  /** Two category arguments that agree after lower-casing select the same prompts. */
  lemma FilterByCategoryCaseInsensitive(ps: seq<Prompt>, a: string, b: string)
    requires Lower(a) == Lower(b)
    ensures FilterByCategory(ps, Some(a)) == FilterByCategory(ps, Some(b))
  {
    if a != "" {
      assert b != "";
      FilterExtensional(ps, (p: Prompt) => Lower(p.category) == Lower(a), (p: Prompt) => Lower(p.category) == Lower(b));
    } else {
      assert b == "";
    }
  }

  // ---------------------------------------------------------------------------
  // Grouping and counting by exact category
  // ---------------------------------------------------------------------------

  /** The category of every prompt, in list order. */
  function CategoriesOf(ps: seq<Prompt>): (cs: seq<string>)
    ensures |cs| == |ps|
    ensures forall i :: 0 <= i < |ps| ==> cs[i] == ps[i].category
  {
    seq(|ps|, i requires 0 <= i < |ps| => ps[i].category)
  }

  /** The prompts whose category is exactly `c`, in list order. */
  function WithCategory(ps: seq<Prompt>, c: string): (r: seq<Prompt>)
    ensures IsSubsequence(r, ps)
    ensures forall p :: multiset(r)[p] == if p.category == c then multiset(ps)[p] else 0
  {
    Filter(ps, (p: Prompt) => p.category == c)
  }

  /** The number of prompts whose category is exactly `c`. */
  function CountCategory(ps: seq<Prompt>, c: string): nat
    decreases |ps|
  {
    if |ps| == 0 then 0 else (if ps[0].category == c then 1 else 0) + CountCategory(ps[1..], c)
  }

  /** Counting over a list split into its first prompt and the rest. */
  lemma CountCategoryCons(p: Prompt, ps: seq<Prompt>, c: string)
    ensures CountCategory([p] + ps, c) == (if p.category == c then 1 else 0) + CountCategory(ps, c)
  {
    assert ([p] + ps)[1..] == ps;
  }

  /** The prompts of a category are as many as its count. */
  lemma {:induction false} WithCategoryLength(ps: seq<Prompt>, c: string)
    ensures |WithCategory(ps, c)| == CountCategory(ps, c)
    decreases |ps|
  {
    if |ps| > 0 {
      WithCategoryLength(ps[1..], c);
    }
  }

  /** Some prompt of the list has category `c` exactly when the count is positive. */
  lemma {:induction false} CountCategoryPositive(ps: seq<Prompt>, c: string)
    ensures CountCategory(ps, c) > 0 <==> c in CategoriesOf(ps)
    decreases |ps|
  {
    if |ps| > 0 {
      CountCategoryPositive(ps[1..], c);
      assert CategoriesOf(ps) == [ps[0].category] + CategoriesOf(ps[1..]);
    }
  }

  /** The sum of the counts of the categories `cs`. */
  function SumCounts(cs: seq<string>, ps: seq<Prompt>): nat
    decreases |cs|
  {
    if |cs| == 0 then 0 else CountCategory(ps, cs[0]) + SumCounts(cs[1..], ps)
  }

  /** How many times `c` occurs in `cs`. */
  function Occurrences(cs: seq<string>, c: string): nat
    decreases |cs|
  {
    if |cs| == 0 then 0 else (if cs[0] == c then 1 else 0) + Occurrences(cs[1..], c)
  }

  lemma {:induction false} SumCountsCons(cs: seq<string>, p: Prompt, ps: seq<Prompt>)
    ensures SumCounts(cs, [p] + ps) == Occurrences(cs, p.category) + SumCounts(cs, ps)
    decreases |cs|
  {
    if |cs| > 0 {
      CountCategoryCons(p, ps, cs[0]);
      SumCountsCons(cs[1..], p, ps);
    }
  }

  lemma {:induction false} OccurrencesDistinct(cs: seq<string>, c: string)
    requires Distinct(cs)
    ensures Occurrences(cs, c) == if c in cs then 1 else 0
    decreases |cs|
  {
    if |cs| > 0 {
      assert Distinct(cs[1..]);
      OccurrencesDistinct(cs[1..], c);
      if cs[0] == c {
        assert c !in cs[1..];
      }
      assert c in cs <==> cs[0] == c || c in cs[1..];
    }
  }

  /**
   * Counting each of a list of distinct categories that covers every prompt
   * counts every prompt exactly once.
   */
  lemma {:induction false} SumCountsCovers(cs: seq<string>, ps: seq<Prompt>)
    requires Distinct(cs)
    requires forall i :: 0 <= i < |ps| ==> ps[i].category in cs
    ensures SumCounts(cs, ps) == |ps|
    decreases |ps|
  {
    if |ps| == 0 {
      SumCountsEmpty(cs, ps);
    } else {
      assert ps == [ps[0]] + ps[1..];
      SumCountsCons(cs, ps[0], ps[1..]);
      OccurrencesDistinct(cs, ps[0].category);
      SumCountsCovers(cs, ps[1..]);
    }
  }

  lemma {:induction false} SumCountsEmpty(cs: seq<string>, ps: seq<Prompt>)
    requires |ps| == 0
    ensures SumCounts(cs, ps) == 0
    decreases |cs|
  {
    if |cs| > 0 {
      SumCountsEmpty(cs[1..], ps);
    }
  }

  /** One heading of `list_prompts`: a category and its prompts. */
  datatype Group = Group(category: string, members: seq<Prompt>)

  /** The groups for the categories `cs`, in the order of `cs`. */
  function GroupsFor(cs: seq<string>, ps: seq<Prompt>): (gs: seq<Group>)
    ensures |gs| == |cs|
    ensures forall i :: 0 <= i < |cs| ==> gs[i] == Group(cs[i], WithCategory(ps, cs[i]))
    decreases |cs|
  {
    if |cs| == 0 then [] else [Group(cs[0], WithCategory(ps, cs[0]))] + GroupsFor(cs[1..], ps)
  }

  /** The number of prompts listed over all groups. */
  function TotalMembers(gs: seq<Group>): nat
    decreases |gs|
  {
    if |gs| == 0 then 0 else |gs[0].members| + TotalMembers(gs[1..])
  }

  lemma {:induction false} TotalMembersOfGroups(cs: seq<string>, ps: seq<Prompt>)
    ensures TotalMembers(GroupsFor(cs, ps)) == SumCounts(cs, ps)
    decreases |cs|
  {
    if |cs| > 0 {
      assert GroupsFor(cs, ps)[1..] == GroupsFor(cs[1..], ps);
      TotalMembersOfGroups(cs[1..], ps);
      WithCategoryLength(ps, cs[0]);
    }
  }

  /** The headings of a list of groups, in order. */
  function Headings(gs: seq<Group>): (hs: seq<string>)
    ensures |hs| == |gs|
    ensures forall i :: 0 <= i < |gs| ==> hs[i] == gs[i].category
  {
    seq(|gs|, i requires 0 <= i < |gs| => gs[i].category)
  }

  /**
   * `list_prompts`' grouping: one group per distinct category, in first-seen
   * order, each holding that category's prompts in list order.
   */
  function GroupByCategory(ps: seq<Prompt>): (gs: seq<Group>)
    ensures Headings(gs) == Dedup(CategoriesOf(ps))
    ensures forall i :: 0 <= i < |gs| ==> |gs[i].members| > 0
    ensures forall i :: 0 <= i < |gs| ==> gs[i].members == WithCategory(ps, gs[i].category)
    ensures forall i :: 0 <= i < |ps| ==> ps[i] in gs[IndexOf(Headings(gs), ps[i].category)].members
    ensures TotalMembers(gs) == |ps|
  {
    var cs := Dedup(CategoriesOf(ps));
    var gs := GroupsFor(cs, ps);
    GroupsFacts(ps, cs, gs);
    gs
  }

  /** A prompt sits in no group but the one headed by its own category. */
  lemma GroupUnique(ps: seq<Prompt>, p: Prompt, k: nat)
    requires p in ps
    requires k < |GroupByCategory(ps)| && p in GroupByCategory(ps)[k].members
    ensures k == IndexOf(Headings(GroupByCategory(ps)), p.category)
  {
    var gs := GroupByCategory(ps);
    var hs := Headings(gs);
    var m := gs[k].members;
    assert multiset(m)[p] > 0;
    assert gs[k].category == p.category;
    assert hs[k] == p.category;
    var first := IndexOf(hs, p.category);
    assert Distinct(hs);
  }

  lemma GroupsFacts(ps: seq<Prompt>, cs: seq<string>, gs: seq<Group>)
    requires cs == Dedup(CategoriesOf(ps)) && gs == GroupsFor(cs, ps)
    ensures Headings(gs) == Dedup(CategoriesOf(ps))
    ensures forall i :: 0 <= i < |gs| ==> |gs[i].members| > 0
    ensures forall i :: 0 <= i < |gs| ==> gs[i].members == WithCategory(ps, gs[i].category)
    ensures forall i :: 0 <= i < |ps| ==> ps[i] in gs[IndexOf(Headings(gs), ps[i].category)].members
    ensures TotalMembers(gs) == |ps|
  {
    GroupsShape(cs, ps);
    GroupsCount(cs, ps);
  }

  /** Headings, non-emptiness and membership of the groups of the distinct categories. */
  lemma GroupsShape(cs: seq<string>, ps: seq<Prompt>)
    requires cs == Dedup(CategoriesOf(ps))
    ensures Headings(GroupsFor(cs, ps)) == cs
    ensures forall i :: 0 <= i < |cs| ==> |GroupsFor(cs, ps)[i].members| > 0
    ensures forall i :: 0 <= i < |ps| ==> ps[i] in GroupsFor(cs, ps)[IndexOf(cs, ps[i].category)].members
  {
    assert Headings(GroupsFor(cs, ps)) == cs;
    GroupsNonEmpty(cs, ps);
    GroupsCoverEveryPrompt(cs, ps);
  }

  /** The groups of the distinct categories hold as many prompts as the list. */
  lemma GroupsCount(cs: seq<string>, ps: seq<Prompt>)
    requires cs == Dedup(CategoriesOf(ps))
    ensures TotalMembers(GroupsFor(cs, ps)) == |ps|
  {
    TotalMembersOfGroups(cs, ps);
    SumCountsCovers(cs, ps);
  }

  /** Every group for a category some prompt has is non-empty. */
  lemma GroupsNonEmpty(cs: seq<string>, ps: seq<Prompt>)
    requires forall c :: c in cs ==> c in CategoriesOf(ps)
    ensures forall i :: 0 <= i < |cs| ==> |GroupsFor(cs, ps)[i].members| > 0
  {
    forall i | 0 <= i < |cs|
      ensures |GroupsFor(cs, ps)[i].members| > 0
    {
      CountCategoryPositive(ps, cs[i]);
      WithCategoryLength(ps, cs[i]);
    }
  }

  /** A prompt is among the prompts of its own category. */
  lemma InOwnCategory(ps: seq<Prompt>, i: nat)
    requires i < |ps|
    ensures ps[i] in WithCategory(ps, ps[i].category)
  {
    var w := WithCategory(ps, ps[i].category);
    assert ps[i] in multiset(ps);
    assert multiset(w)[ps[i]] == multiset(ps)[ps[i]];
  }

  /** Every prompt lies in the group of its own category. */
  lemma GroupsCoverEveryPrompt(cs: seq<string>, ps: seq<Prompt>)
    requires forall i :: 0 <= i < |ps| ==> ps[i].category in cs
    ensures forall i :: 0 <= i < |ps| ==> ps[i] in GroupsFor(cs, ps)[IndexOf(cs, ps[i].category)].members
  {
    forall i | 0 <= i < |ps|
      ensures ps[i] in GroupsFor(cs, ps)[IndexOf(cs, ps[i].category)].members
    {
      InOwnCategory(ps, i);
    }
  }

  // ---------------------------------------------------------------------------
  // Per-category counts (list_categories)
  // ---------------------------------------------------------------------------

  /** One line of `list_categories`: a category and how many prompts it has. */
  datatype CategoryCount = CategoryCount(category: string, count: nat)

  /** The distinct categories of the list, sorted: `[...new Set(categories)].sort()`. */
  function SortedCategories(ps: seq<Prompt>): (cs: seq<string>)
    ensures StrictlySorted(cs)
    ensures Distinct(cs)
    ensures forall c :: c in cs <==> c in CategoriesOf(ps)
  {
    var d := Dedup(CategoriesOf(ps));
    var cs := Sort(d);
    assert forall c :: c in cs <==> c in d by {
      forall c
        ensures c in cs <==> c in d
      {
        assert c in cs <==> c in multiset(cs);
        assert c in d <==> c in multiset(d);
      }
    }
    StrictlySortedIsDistinct(cs);
    cs
  }

  /** Strictly ascending sequences hold no element twice. */
  lemma StrictlySortedIsDistinct(cs: seq<string>)
    requires StrictlySorted(cs)
    ensures Distinct(cs)
  {
    forall i, j | 0 <= i < j < |cs|
      ensures cs[i] != cs[j]
    {
      StrictlySortedPairwise(cs, i, j);
      LessIrreflexive(cs[i]);
    }
  }

  /** The count line for each category of `cs`, in the order of `cs`. */
  function CountsFor(cs: seq<string>, ps: seq<Prompt>): (rows: seq<CategoryCount>)
    ensures |rows| == |cs|
    ensures forall i :: 0 <= i < |cs| ==> rows[i] == CategoryCount(cs[i], CountCategory(ps, cs[i]))
    decreases |cs|
  {
    if |cs| == 0 then [] else [CategoryCount(cs[0], CountCategory(ps, cs[0]))] + CountsFor(cs[1..], ps)
  }

  /** The sum of the counts of a list of count lines. */
  function TotalCount(rows: seq<CategoryCount>): nat
    decreases |rows|
  {
    if |rows| == 0 then 0 else rows[0].count + TotalCount(rows[1..])
  }

  lemma {:induction false} TotalCountOfCounts(cs: seq<string>, ps: seq<Prompt>)
    ensures TotalCount(CountsFor(cs, ps)) == SumCounts(cs, ps)
    decreases |cs|
  {
    if |cs| > 0 {
      assert CountsFor(cs, ps)[1..] == CountsFor(cs[1..], ps);
      TotalCountOfCounts(cs[1..], ps);
    }
  }

  /** The categories of a list of count lines, in order. */
  function RowCategories(rows: seq<CategoryCount>): (cs: seq<string>)
    ensures |cs| == |rows|
    ensures forall i :: 0 <= i < |rows| ==> cs[i] == rows[i].category
  {
    seq(|rows|, i requires 0 <= i < |rows| => rows[i].category)
  }

  /**
   * The body of `list_categories`: each distinct category once, in ascending
   * order, with the number of prompts in it.
   */
  function CategoryCounts(ps: seq<Prompt>): (rows: seq<CategoryCount>)
    ensures forall i, j :: 0 <= i < j < |rows| ==> Less(rows[i].category, rows[j].category)
    ensures forall c :: c in RowCategories(rows) <==> c in CategoriesOf(ps)
    ensures forall i :: 0 <= i < |rows| ==> rows[i].count == CountCategory(ps, rows[i].category) >= 1
    ensures TotalCount(rows) == |ps|
    ensures |rows| == 0 <==> |ps| == 0
  {
    var cs := SortedCategories(ps);
    var rows := CountsFor(cs, ps);
    CountsOrdered(ps, cs, rows);
    CountsCategories(ps, cs, rows);
    CountsEmpty(ps, cs, rows);
    CountsPositive(ps, cs, rows);
    CountsSum(ps, cs, rows);
    rows
  }

  lemma CountsOrdered(ps: seq<Prompt>, cs: seq<string>, rows: seq<CategoryCount>)
    requires cs == SortedCategories(ps) && rows == CountsFor(cs, ps)
    ensures forall i, j :: 0 <= i < j < |rows| ==> Less(rows[i].category, rows[j].category)
  {
    forall i, j | 0 <= i < j < |cs|
      ensures Less(rows[i].category, rows[j].category)
    {
      StrictlySortedPairwise(cs, i, j);
    }
  }

  /** Count lines of categories that occur in the list are positive. */
  lemma CountsForPositive(cs: seq<string>, ps: seq<Prompt>)
    requires forall c :: c in cs ==> c in CategoriesOf(ps)
    ensures forall i :: 0 <= i < |cs| ==> CountsFor(cs, ps)[i].count >= 1
  {
    forall i | 0 <= i < |cs|
      ensures CountsFor(cs, ps)[i].count >= 1
    {
      CountCategoryPositive(ps, cs[i]);
    }
  }

  /** The sorted categories cover every prompt of the list. */
  lemma SortedCategoriesCover(ps: seq<Prompt>)
    ensures forall i :: 0 <= i < |ps| ==> ps[i].category in SortedCategories(ps)
  {
    forall i | 0 <= i < |ps|
      ensures ps[i].category in SortedCategories(ps)
    {
      assert CategoriesOf(ps)[i] == ps[i].category;
    }
  }

  /** There are sorted categories exactly when there are prompts. */
  lemma SortedCategoriesEmpty(ps: seq<Prompt>)
    ensures |SortedCategories(ps)| == 0 <==> |ps| == 0
  {
    var cs := SortedCategories(ps);
    if |ps| > 0 {
      SortedCategoriesCover(ps);
      assert ps[0].category in cs;
    }
    if |cs| > 0 {
      assert cs[0] in CategoriesOf(ps);
    }
  }

  lemma CountsCategories(ps: seq<Prompt>, cs: seq<string>, rows: seq<CategoryCount>)
    requires cs == SortedCategories(ps) && rows == CountsFor(cs, ps)
    ensures forall c :: c in RowCategories(rows) <==> c in CategoriesOf(ps)
  {
    assert RowCategories(rows) == cs;
  }

  lemma CountsEmpty(ps: seq<Prompt>, cs: seq<string>, rows: seq<CategoryCount>)
    requires cs == SortedCategories(ps) && rows == CountsFor(cs, ps)
    ensures |rows| == 0 <==> |ps| == 0
  {
    SortedCategoriesEmpty(ps);
  }

  lemma CountsPositive(ps: seq<Prompt>, cs: seq<string>, rows: seq<CategoryCount>)
    requires cs == SortedCategories(ps) && rows == CountsFor(cs, ps)
    ensures forall i :: 0 <= i < |rows| ==> rows[i].count == CountCategory(ps, rows[i].category) >= 1
  {
    CountsForPositive(cs, ps);
  }

  lemma CountsSum(ps: seq<Prompt>, cs: seq<string>, rows: seq<CategoryCount>)
    requires cs == SortedCategories(ps) && rows == CountsFor(cs, ps)
    ensures TotalCount(rows) == |ps|
  {
    SortedCategoriesCover(ps);
    TotalCountOfCounts(cs, ps);
    SumCountsCovers(cs, ps);
  }
}
