/**
 * The four tools of the server (`list_prompts`, `get_prompt`, `use_prompt`,
 * `list_categories`) as functions from the outside world they read (the
 * environment variable, the config files, the endpoint's answer) and their
 * arguments to the reply they give.
 */
module Tools {
  import opened Wrappers
  import opened Seqs
  import opened Text
  import opened Order
  import opened Template
  import opened Catalog
  import opened Config

  /**
   * What the endpoint answers to the single GET: the status and the `prompts`
   * field of the body. As with `fetch`'s `Response.ok`, the answer is a success
   * exactly when the status is in the range 200-299.
   */
  datatype HttpResponse = HttpResponse(status: int, prompts: Option<seq<Prompt>>) {
    const ok: bool := 200 <= status <= 299
  }

  /** Everything a tool reads outside its arguments. */
  datatype World = World(envUrl: Option<string>, configFiles: seq<ConfigFile>, response: HttpResponse)

  /** One prompt line of `list_prompts`. */
  datatype Item = Item(name: string, slug: string, vars: seq<string>, description: Option<string>)

  /** One category heading of `list_prompts` with its prompt lines. */
  datatype Section = Section(category: string, items: seq<Item>)

  /** One line of `list_categories`. */
  datatype CategoryLine = CategoryLine(category: string, count: nat, noun: string)

  /** The reply of a tool, by kind. */
  datatype Reply =
    | NotConfigured
    | ApiError(status: int)
    | NoPrompts(filter: Option<string>)
    | Listing(total: nat, sections: seq<Section>)
    | NotFound(query: string)
    | Details(name: string, category: string, description: Option<string>, vars: seq<string>, content: string)
    | PromptText(text: string)
    | NoCategories
    | Categories(lines: seq<CategoryLine>)

  /** `fetchPrompts`: a non-success status is an error; a missing `prompts` field is an empty list. */
  function FetchPrompts(response: HttpResponse): (r: Result<seq<Prompt>, int>)
    ensures r.Failure? <==> !response.ok
    ensures r.Failure? ==> r.error == response.status
    ensures r.Success? && response.prompts.Some? ==> r.value == response.prompts.value
    ensures r.Success? && response.prompts.None? ==> r.value == []
  {
    if !response.ok then Failure(response.status) else Success(response.prompts.GetOr([]))
  }

  /** The URL the tools use, if any. */
  function Url(w: World): Option<string> {
    LoadConfig(w.envUrl, w.configFiles)
  }

  /** The prompt list the tools see once configured and fetched successfully. */
  function Fetched(w: World): seq<Prompt> {
    w.response.prompts.GetOr([])
  }

  /** The tools reach their own logic: configured, and the endpoint answered with success. */
  predicate Reachable(w: World) {
    Url(w).Some? && w.response.ok
  }

  /** The optional text of a prompt: JavaScript treats the empty string as absent. */
  function Optional(s: string): Option<string> {
    if s == "" then None else Some(s)
  }

  // ---------------------------------------------------------------------------
  // list_prompts
  // ---------------------------------------------------------------------------

  function ItemOf(p: Prompt): Item {
    Item(p.name, p.slug, ExtractVariables(p.content), Optional(p.description))
  }

  function ItemsOf(ps: seq<Prompt>): (items: seq<Item>)
    ensures |items| == |ps|
    ensures forall i :: 0 <= i < |ps| ==> items[i] == ItemOf(ps[i])
  {
    seq(|ps|, i requires 0 <= i < |ps| => ItemOf(ps[i]))
  }

  function SectionsOf(gs: seq<Group>): (ss: seq<Section>)
    ensures |ss| == |gs|
    ensures forall i :: 0 <= i < |gs| ==> ss[i] == Section(gs[i].category, ItemsOf(gs[i].members))
  {
    seq(|gs|, i requires 0 <= i < |gs| => Section(gs[i].category, ItemsOf(gs[i].members)))
  }

  /** The headings of a listing, in order. */
  function SectionHeadings(ss: seq<Section>): (hs: seq<string>)
    ensures |hs| == |ss|
    ensures forall i :: 0 <= i < |ss| ==> hs[i] == ss[i].category
  {
    seq(|ss|, i requires 0 <= i < |ss| => ss[i].category)
  }

  /** The number of prompt lines over all sections. */
  function ItemCount(ss: seq<Section>): nat
    decreases |ss|
  {
    if |ss| == 0 then 0 else |ss[0].items| + ItemCount(ss[1..])
  }

  lemma {:induction false} ItemCountOfSections(gs: seq<Group>)
    ensures ItemCount(SectionsOf(gs)) == TotalMembers(gs)
    decreases |gs|
  {
    if |gs| > 0 {
      assert SectionsOf(gs)[1..] == SectionsOf(gs[1..]);
      ItemCountOfSections(gs[1..]);
    }
  }

  /** `list_prompts(category)`. */
  function ListPrompts(w: World, category: Option<string>): (r: Reply)
    ensures r == NotConfigured <==> Url(w).None?
    ensures r.ApiError? <==> Url(w).Some? && !w.response.ok
    ensures r.ApiError? ==> r.status == w.response.status
    ensures Reachable(w) ==> (r.NoPrompts? <==> |FilterByCategory(Fetched(w), category)| == 0)
    ensures Reachable(w) ==> (r.Listing? <==> |FilterByCategory(Fetched(w), category)| > 0)
    ensures r.NoPrompts? ==> r.filter == (if category.Some? && category.value != "" then category else None)
    ensures Reachable(w) && r.Listing? ==>
      var filtered := FilterByCategory(Fetched(w), category);
      && r.total == |filtered| == ItemCount(r.sections)
      && SectionHeadings(r.sections) == Dedup(CategoriesOf(filtered))
      && (forall i :: 0 <= i < |filtered| ==>
            ItemOf(filtered[i]) in r.sections[IndexOf(SectionHeadings(r.sections), filtered[i].category)].items)
      && (forall k :: 0 <= k < |r.sections| ==>
            r.sections[k].items == ItemsOf(WithCategory(filtered, r.sections[k].category)))
  {
    if Url(w).None? then NotConfigured
    else
      match FetchPrompts(w.response)
      case Failure(status) => ApiError(status)
      case Success(ps) =>
        var filtered := FilterByCategory(ps, category);
        if |filtered| == 0 then
          NoPrompts(if category.Some? && category.value != "" then category else None)
        else
          var gs := GroupByCategory(filtered);
          var ss := SectionsOf(gs);
          ListingFacts(filtered, gs, ss);
          Listing(|filtered|, ss)
  }

  /** Helper for `ListPrompts`: the sections inherit the grouping's guarantees. */
  lemma ListingFacts(filtered: seq<Prompt>, gs: seq<Group>, ss: seq<Section>)
    requires gs == GroupByCategory(filtered) && ss == SectionsOf(gs)
    ensures ItemCount(ss) == |filtered|
    ensures SectionHeadings(ss) == Dedup(CategoriesOf(filtered))
    ensures forall i :: 0 <= i < |filtered| ==>
      ItemOf(filtered[i]) in ss[IndexOf(SectionHeadings(ss), filtered[i].category)].items
    ensures forall k :: 0 <= k < |ss| ==> ss[k].items == ItemsOf(WithCategory(filtered, ss[k].category))
  {
    SectionItems(filtered, gs, ss);
    ItemCountOfSections(gs);
    SectionHeadingsOf(gs);
    forall i | 0 <= i < |filtered|
      ensures ItemOf(filtered[i]) in ss[IndexOf(SectionHeadings(ss), filtered[i].category)].items
    {
      var k := IndexOf(Headings(gs), filtered[i].category);
      ItemInItems(filtered[i], gs[k].members);
    }
  }

  lemma SectionItems(filtered: seq<Prompt>, gs: seq<Group>, ss: seq<Section>)
    requires gs == GroupByCategory(filtered) && ss == SectionsOf(gs)
    ensures forall k :: 0 <= k < |ss| ==> ss[k].items == ItemsOf(WithCategory(filtered, ss[k].category))
  {
    forall k | 0 <= k < |ss|
      ensures ss[k].items == ItemsOf(WithCategory(filtered, ss[k].category))
    {
      assert ss[k] == Section(gs[k].category, ItemsOf(gs[k].members));
    }
  }

  lemma SectionHeadingsOf(gs: seq<Group>)
    ensures SectionHeadings(SectionsOf(gs)) == Headings(gs)
  {
  }

  lemma ItemInItems(p: Prompt, ps: seq<Prompt>)
    requires p in ps
    ensures ItemOf(p) in ItemsOf(ps)
  {
    var m :| 0 <= m < |ps| && ps[m] == p;
    assert ItemsOf(ps)[m] == ItemOf(p);
  }

  // ---------------------------------------------------------------------------
  // get_prompt and use_prompt
  // ---------------------------------------------------------------------------

  /** `get_prompt(slug)`: the first matching prompt's name, category, description, variables and content. */
  function GetPrompt(w: World, slug: string): (r: Reply)
    ensures r == NotConfigured <==> Url(w).None?
    ensures r.ApiError? <==> Url(w).Some? && !w.response.ok
    ensures r.ApiError? ==> r.status == w.response.status
    ensures Reachable(w) ==> (r == NotFound(slug) <==> FindPrompt(Fetched(w), slug).None?)
    ensures Reachable(w) ==> (r.Details? <==> FindPrompt(Fetched(w), slug).Some?)
    ensures Reachable(w) && r.Details? ==>
      var ps := Fetched(w);
      exists i :: 0 <= i < |ps| && FindPrompt(ps, slug) == Some(i) &&
        r == Details(ps[i].name, ps[i].category, Optional(ps[i].description), ExtractVariables(ps[i].content), ps[i].content)
  {
    if Url(w).None? then NotConfigured
    else
      match FetchPrompts(w.response)
      case Failure(status) => ApiError(status)
      case Success(ps) =>
        match FindPrompt(ps, slug)
        case None => NotFound(slug)
        case Some(i) =>
          var p := ps[i];
          Details(p.name, p.category, Optional(p.description), ExtractVariables(p.content), p.content)
  }

  /** The text `use_prompt` appends when placeholders remain. */
  const UnfilledPrefix: string := "\n\n---\n_Unfilled variables: "

  function UnfilledNote(names: seq<string>): string {
    UnfilledPrefix + Join(names, ", ") + "_"
  }

  /** Reads the variable names back out of an unfilled-variables note. */
  function ParseUnfilledNote(note: string): (r: Option<seq<string>>)
    ensures r.Some? ==> note == UnfilledNote(r.value)
  {
    var n := |UnfilledPrefix|;
    if |note| >= n + 1 && note[..n] == UnfilledPrefix && note[|note| - 1] == '_' then
      match ParseWordList(note[n..|note| - 1])
      case Some(ws) =>
        assert note == note[..n] + note[n..|note| - 1] + [note[|note| - 1]];
        Some(ws)
      case None => None
    else None
  }

  /** The note lists exactly the names it was built from. */
  lemma UnfilledNoteRoundTrip(names: seq<string>)
    requires |names| > 0
    requires forall k :: 0 <= k < |names| ==> IsWord(names[k])
    ensures ParseUnfilledNote(UnfilledNote(names)) == Some(names)
  {
    var note := UnfilledNote(names);
    var n := |UnfilledPrefix|;
    assert note[..n] == UnfilledPrefix;
    assert note[n..|note| - 1] == Join(names, ", ");
    ParseJoinRoundTrip(names);
  }

  /** The content `use_prompt` starts from: filled when `variables` was given, raw otherwise. */
  function UsedContent(p: Prompt, variables: Option<seq<(string, string)>>): string {
    match variables
    case Some(entries) => Fill(p.content, entries)
    case None => p.content
  }

  /** `use_prompt(slug, variables)`. */
  function UsePrompt(w: World, slug: string, variables: Option<seq<(string, string)>>): (r: Reply)
    ensures r == NotConfigured <==> Url(w).None?
    ensures r.ApiError? <==> Url(w).Some? && !w.response.ok
    ensures r.ApiError? ==> r.status == w.response.status
    ensures Reachable(w) ==> (r == NotFound(slug) <==> FindPrompt(Fetched(w), slug).None?)
    ensures Reachable(w) ==> (r.PromptText? <==> FindPrompt(Fetched(w), slug).Some?)
    ensures Reachable(w) && r.PromptText? ==>
      var ps := Fetched(w);
      exists i :: 0 <= i < |ps| && FindPrompt(ps, slug) == Some(i) &&
        var content := UsedContent(ps[i], variables);
        && content <= r.text
        && (r.text == content <==> ExtractVariables(content) == [])
        && (r.text != content ==> ParseUnfilledNote(r.text[|content|..]) == Some(ExtractVariables(content)))
  {
    if Url(w).None? then NotConfigured
    else
      match FetchPrompts(w.response)
      case Failure(status) => ApiError(status)
      case Success(ps) =>
        match FindPrompt(ps, slug)
        case None => NotFound(slug)
        case Some(i) =>
          var content := UsedContent(ps[i], variables);
          var remaining := ExtractVariables(content);
          if |remaining| > 0 then
            NoteLists(remaining, content);
            PromptText(content + UnfilledNote(remaining))
          else
            PromptText(content)
  }

  /** Helper for `UsePrompt`: the appended note reads back as the remaining variables. */
  lemma NoteLists(remaining: seq<string>, content: string)
    requires remaining == ExtractVariables(content) && |remaining| > 0
    ensures (content + UnfilledNote(remaining))[|content|..] == UnfilledNote(remaining)
    ensures ParseUnfilledNote(UnfilledNote(remaining)) == Some(remaining)
    ensures content + UnfilledNote(remaining) != content
  {
    forall k | 0 <= k < |remaining|
      ensures IsWord(remaining[k])
    {
      assert Occurs(content, remaining[k]);
    }
    UnfilledNoteRoundTrip(remaining);
  }

  /** `get_prompt` and `use_prompt` find the same prompt, or both report it missing; `use_prompt`'s text starts with the content `get_prompt` shows, filled when variables were given. */
  lemma SameLookup(w: World, slug: string, variables: Option<seq<(string, string)>>)
    requires Reachable(w)
    ensures GetPrompt(w, slug).NotFound? <==> UsePrompt(w, slug, variables).NotFound?
    ensures GetPrompt(w, slug).Details? <==> UsePrompt(w, slug, variables).PromptText?
    ensures GetPrompt(w, slug).Details? && variables.None? ==>
      GetPrompt(w, slug).content <= UsePrompt(w, slug, variables).text
    ensures GetPrompt(w, slug).Details? && variables.Some? ==>
      Fill(GetPrompt(w, slug).content, variables.value) <= UsePrompt(w, slug, variables).text
  {
  }

  // ---------------------------------------------------------------------------
  // list_categories
  // ---------------------------------------------------------------------------

  /** `prompt` for one, `prompts` otherwise. */
  function Label(count: nat): string {
    if count != 1 then "prompts" else "prompt"
  }

  function LinesOf(rows: seq<CategoryCount>): (lines: seq<CategoryLine>)
    ensures |lines| == |rows|
    ensures forall i :: 0 <= i < |rows| ==> lines[i] == CategoryLine(rows[i].category, rows[i].count, Label(rows[i].count))
  {
    seq(|rows|, i requires 0 <= i < |rows| => CategoryLine(rows[i].category, rows[i].count, Label(rows[i].count)))
  }

  /** The sum of the counts of the lines. */
  function LineTotal(lines: seq<CategoryLine>): nat
    decreases |lines|
  {
    if |lines| == 0 then 0 else lines[0].count + LineTotal(lines[1..])
  }

  lemma {:induction false} LineTotalOfRows(rows: seq<CategoryCount>)
    ensures LineTotal(LinesOf(rows)) == TotalCount(rows)
    decreases |rows|
  {
    if |rows| > 0 {
      assert LinesOf(rows)[1..] == LinesOf(rows[1..]);
      LineTotalOfRows(rows[1..]);
    }
  }

  /** The categories of the lines, in order. */
  function LineCategories(ls: seq<CategoryLine>): (cs: seq<string>)
    ensures |cs| == |ls|
    ensures forall i :: 0 <= i < |ls| ==> cs[i] == ls[i].category
  {
    seq(|ls|, i requires 0 <= i < |ls| => ls[i].category)
  }

  /** What `list_categories` promises about its lines for the prompts `ps`. */
  ghost predicate DescribesCategories(ls: seq<CategoryLine>, ps: seq<Prompt>) {
    && (forall i, j :: 0 <= i < j < |ls| ==> Less(ls[i].category, ls[j].category))
    && (forall c :: c in LineCategories(ls) <==> c in CategoriesOf(ps))
    && (forall i :: 0 <= i < |ls| ==> ls[i].count == CountCategory(ps, ls[i].category) >= 1)
    && (forall i :: 0 <= i < |ls| ==> ls[i].noun == (if ls[i].count == 1 then "prompt" else "prompts"))
    && LineTotal(ls) == |ps|
  }

  /** `list_categories()`. */
  function ListCategories(w: World): (r: Reply)
    ensures r == NotConfigured <==> Url(w).None?
    ensures r.ApiError? <==> Url(w).Some? && !w.response.ok
    ensures r.ApiError? ==> r.status == w.response.status
    ensures Reachable(w) ==> (r == NoCategories <==> |Fetched(w)| == 0)
    ensures Reachable(w) ==> (r.Categories? <==> |Fetched(w)| > 0)
    ensures Reachable(w) && r.Categories? ==> DescribesCategories(r.lines, Fetched(w))
  {
    if Url(w).None? then NotConfigured
    else
      match FetchPrompts(w.response)
      case Failure(status) => ApiError(status)
      case Success(ps) =>
        var rows := CategoryCounts(ps);
        if |rows| == 0 then NoCategories
        else
          CategoryLinesFacts(ps, rows);
          Categories(LinesOf(rows))
  }

  /** Helper for `ListCategories`: the lines inherit the counting's guarantees. */
  lemma CategoryLinesFacts(ps: seq<Prompt>, rows: seq<CategoryCount>)
    requires rows == CategoryCounts(ps)
    ensures DescribesCategories(LinesOf(rows), ps)
  {
    LineTotalOfRows(rows);
    LinesCategories(rows);
    LinesNoun(rows);
  }

  lemma LinesCategories(rows: seq<CategoryCount>)
    ensures LineCategories(LinesOf(rows)) == RowCategories(rows)
  {
  }

  lemma LinesNoun(rows: seq<CategoryCount>)
    ensures forall i :: 0 <= i < |rows| ==>
      LinesOf(rows)[i].noun == (if LinesOf(rows)[i].count == 1 then "prompt" else "prompts")
  {
  }

  // ---------------------------------------------------------------------------
  // Examples
  // ---------------------------------------------------------------------------

  /** A world with no URL anywhere: every tool answers that it is not configured. */
  lemma UnconfiguredWorld(resp: HttpResponse, q: string)
    ensures var w := World(None, [Missing, Present(Some("")), Present(None)], resp);
      && ListPrompts(w, None) == NotConfigured
      && GetPrompt(w, q) == NotConfigured
      && UsePrompt(w, q, None) == NotConfigured
      && ListCategories(w) == NotConfigured
  {
    var w := World(None, [Missing, Present(Some("")), Present(None)], resp);
    assert FirstUsable(w.configFiles[2..]).None?;
    assert FirstUsable(w.configFiles[1..]).None?;
  }

  /** The greeting prompt used by the examples below. */
  const Greet: Prompt := Prompt("7", "greet", "Greeting", "Social", "", "Hello {{name}}!")

  function GreetWorld(): World {
    World(Some("https://example.org/api/prompts"), [], HttpResponse(200, Some([Greet])))
  }

  /** Without variables the content comes back with the unfilled note naming `name`. */
  lemma UseGreetWithoutVariables()
    ensures UsePrompt(GreetWorld(), "GREET", None) == PromptText("Hello {{name}}!" + UnfilledNote(["name"]))
    ensures GetPrompt(GreetWorld(), "GREET") == Details("Greeting", "Social", None, ["name"], "Hello {{name}}!")
  {
    assert Lower("GREET") == "greet";
    assert FindPrompt([Greet], "GREET") == Some(0);
    GreetingVariables();
  }

  /** With `name` given the filled text comes back with no note. */
  lemma UseGreetWithVariables()
    ensures UsePrompt(GreetWorld(), "greet", Some([("name", "Ada")])) == PromptText("Hello Ada!")
  {
    assert Lower("greet") == "greet";
    assert FindPrompt([Greet], "greet") == Some(0);
    GreetingFilled();
  }

  /** A failing endpoint is reported with its status by every tool that reaches it. */
  lemma ServerErrorReported(q: string)
    ensures var w := World(Some("u"), [], HttpResponse(503, None));
      && ListPrompts(w, Some("x")) == ApiError(503)
      && GetPrompt(w, q) == ApiError(503)
      && UsePrompt(w, q, None) == ApiError(503)
      && ListCategories(w) == ApiError(503)
  {
  }

  /** Three prompts in two categories, listed out of alphabetical order. */
  function Mixed(): seq<Prompt> {
    [Prompt("1", "a", "A", "Writing", "", ""),
     Prompt("2", "b", "B", "Code", "", ""),
     Prompt("3", "c", "C", "Writing", "", "")]
  }

  lemma MixedDedup()
    ensures Dedup(CategoriesOf(Mixed())) == ["Writing", "Code"]
  {
    var cats := CategoriesOf(Mixed());
    assert cats == ["Writing", "Code", "Writing"];
    DedupExample("Writing", "Code");
  }

  lemma DedupExample(a: string, b: string)
    requires a != b
    ensures Dedup([a, b, a]) == [a, b]
  {
    assert [a, b, a][..2] == [a, b];
    assert [a, b][..1] == [a];
    assert Dedup([a]) == [a];
    assert Dedup([a, b]) == [a, b];
  }

  lemma SortExample()
    ensures Sort(["Writing", "Code"]) == ["Code", "Writing"]
  {
    assert Less("Code", "Writing");
    assert Sort(["Code"]) == ["Code"];
    assert Insert("Writing", ["Code"]) == ["Code", "Writing"];
  }

  lemma MixedCategories()
    ensures SortedCategories(Mixed()) == ["Code", "Writing"]
  {
    MixedDedup();
    SortExample();
  }

  lemma MixedCounts()
    ensures CountCategory(Mixed(), "Writing") == 2
    ensures CountCategory(Mixed(), "Code") == 1
  {
    var ps := Mixed();
    assert CountCategory(ps[2..], "Writing") == 1;
    assert CountCategory(ps[2..], "Code") == 0;
  }

  lemma MixedRows()
    ensures CategoryCounts(Mixed()) == [CategoryCount("Code", 1), CategoryCount("Writing", 2)]
  {
    MixedCategories();
    MixedCounts();
    var cs := ["Code", "Writing"];
    assert CountsFor(cs[1..], Mixed()) == [CategoryCount("Writing", 2)];
  }

  lemma MixedLines()
    ensures LinesOf([CategoryCount("Code", 1), CategoryCount("Writing", 2)])
      == [CategoryLine("Code", 1, "prompt"), CategoryLine("Writing", 2, "prompts")]
  {
  }

  /** Categories come out alphabetically with their counts, whatever the prompts' order. */
  lemma CategoriesAlphabetical()
    ensures ListCategories(World(Some("u"), [], HttpResponse(200, Some(Mixed()))))
      == Categories([CategoryLine("Code", 1, "prompt"), CategoryLine("Writing", 2, "prompts")])
  {
    var w := World(Some("u"), [], HttpResponse(200, Some(Mixed())));
    assert Url(w) == Some("u");
    assert Fetched(w) == Mixed();
    MixedRows();
    MixedLines();
    ReachableCategories(w);
  }

  /** Once reachable with some prompts, `list_categories` shows the counting's lines. */
  lemma ReachableCategories(w: World)
    requires Reachable(w) && |Fetched(w)| > 0
    ensures ListCategories(w) == Categories(LinesOf(CategoryCounts(Fetched(w))))
  {
  }
}
