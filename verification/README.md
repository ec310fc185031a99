# prmpt MCP server — a Dafny model

prmpt is a prompt-template library. Its MCP server exposes four tools to an agent:
`list_prompts`, `get_prompt`, `use_prompt` and `list_categories`. Each tool fetches the
prompt list from a remote endpoint and answers with a block of text.

This project models the pure logic of those tools in Dafny:
- where the endpoint URL comes from (`loadConfig`);
- how `{{name}}` placeholders are found (`extractVariables`) and filled (`fillVariables`);
- the lookup by slug or name shared by `get_prompt` and `use_prompt`;
- the case-insensitive category filter and the first-seen grouping of `list_prompts`;
- the sorted per-category counts of `list_categories`;
- the "Unfilled variables" note of `use_prompt`.

The model proves properties of this logic.

Modules, one file each:

- `Wrappers` (`wrappers.dfy`): `Option` and `Result`.
- `Seqs` (`seqs.dfy`): distinctness, first index, `Dedup` (the `[...new Set(xs)]` idiom, which keeps first-occurrence order), and an order-preserving `Filter`.
- `Text` (`text.dfy`):
  - the `\w` character class;
  - ASCII lower-casing;
  - substring search;
  - the literal `replaceAll`;
  - `join(', ')` and its inverse on word lists.
- `Order` (`order.dfy`): JavaScript's default string order and a sort for it.
- `Template` (`template.dfy`):
  - the regular-expression scan behind `extractVariables`;
  - `fillVariables` as a left fold, plus the loop exactly as written (`FillVariables`).
- `Catalog` (`catalog.dfy`): the `Prompt` record, lookup, category filter, grouping and counting.
- `Config` (`config.dfy`): the selection rule of `loadConfig`, over values already read.
- `Tools` (`tools.dfy`): the four handlers.
  - Each is a function of a `World`: the environment value, the config files, and the endpoint's response.
  - Each returns a structured `Reply` rather than Markdown text.

Three behaviours of the code are easy to get wrong. The model follows the code in each case:

- **Lookup order.** The lookup returns the first prompt, in list order, whose slug equals the lower-cased query or whose lower-cased name equals it. A slug match is not preferred over an earlier name match. The slug itself is not lower-cased, so a slug with an upper-case letter can only match through the name.
- **Sequential filling.** Filling is sequential, not a set of independent substitutions. A later key rewrites `{{…}}` text that an earlier value introduced, so the entry order matters. A map naming every variable can still leave a placeholder behind: filling `{{{{a}}}}` with `a = x` gives `{{x}}`.
- **JavaScript truthiness.** These checks follow it:
  - an empty `category` argument filters nothing;
  - an empty description is not shown;
  - an empty `PRMPT_API_URL` or config `url` is ignored;
  - a `variables` object that is present but empty still selects the "fill" branch, and that branch returns the content unchanged.

## Model

| member | source | states |
|---|---|---|
| Config.FirstUsable | mcp/src/index.ts:33-42 | the URL of the first config file that is present and has a non-empty `url` without `TOKEN_HERE`; none exactly when no candidate qualifies |
| Config.LoadConfig | mcp/src/index.ts:21-45 | a non-empty environment value wins; otherwise the first usable file's URL; otherwise not configured; a chosen URL is never empty, and one containing `TOKEN_HERE` can only come from the environment |
| Config.PlaceholderFileSkipped | mcp/src/index.ts:37-40 | a placeholder file is passed over for a later real one; an empty environment value and files without a URL give "not configured" |
| Seqs.Dedup | mcp/src/index.ts:57 | `[...new Set(xs)]`: no repeats, the same elements as the input, in order of first occurrence |
| Seqs.Filter | mcp/src/index.ts:95 | `filter`: an order-preserving subsequence holding every element that passes the test as often as the input does, and nothing else |
| Text.Lower | mcp/src/index.ts:150-152 | `toLowerCase` keeps the length, leaves no upper-case letter, shifts each upper-case letter to its lower-case form and keeps every other character |
| Text.ReplaceAll | mcp/src/index.ts:63 | `replaceAll` of a pattern by itself returns the text unchanged |
| Text.ReplaceAllLeftmost | mcp/src/index.ts:63 | `replaceAll` replaces the leftmost occurrence, resumes right after it and replaces every later occurrence the same way, so occurrences never overlap; with `ReplaceAllAbsent` this fixes the result on every input |
| Text.ReplaceAllAbsent | mcp/src/index.ts:63 | `replaceAll` of a pattern that does not occur returns the text unchanged |
| Text.ReplaceAllUnchanged | mcp/src/index.ts:63 | `replaceAll` leaves the text unchanged exactly when the pattern does not occur or is replaced by itself |
| Text.ReplaceAllLength | mcp/src/index.ts:63 | replacing by a shorter value never lengthens the text, by a longer one never shortens it |
| Text.ParseJoinRoundTrip | mcp/src/index.ts:225 | a non-empty list of variable names joined with `, ` reads back as the same list |
| Template.PlaceholderIsPattern | mcp/src/index.ts:55 | a regular-expression match `{{\w+}}` at a position is exactly an occurrence of the literal `{{name}}` with a word `name`, the string `replaceAll` looks for |
| Template.MatchAt | mcp/src/index.ts:55 | one step of the regular expression `{{\w+}}`: a match found at a position is a placeholder there, and its end lies inside the text |
| Template.Scan | mcp/src/index.ts:55 | the global match: every match found lies at or after the scan position and is a placeholder there, and the matches come in strictly increasing position order |
| Template.MatchAtComplete | mcp/src/index.ts:55 | where a placeholder starts, the scan step matches it and reads exactly its name |
| Template.ScanComplete | mcp/src/index.ts:55 | the global match finds every placeholder that starts at or after the scan position, with its name; none is swallowed by an earlier match |
| Template.ExtractVariables | mcp/src/index.ts:54-58 | the names are distinct, a name is listed exactly when `{{name}}` occurs with a word name, and names are listed in the order of their first occurrence |
| Template.ExtractEmptyIff | mcp/src/index.ts:54-58 | the result is empty exactly when the text holds no placeholder |
| Template.NoBraceNoVariables | mcp/src/index.ts:55-56 | text without `{` declares no variables |
| Template.ScanSkipsPlain | mcp/src/index.ts:55 | a stretch of text without `{` adds no match |
| Template.NestedBracesVariables | mcp/src/index.ts:55-57 | `{{{{a}}}}` declares the single variable `a` |
| Template.GreetingVariables | mcp/src/index.ts:54-58 | `Hello {{name}}!` declares the single variable `name` |
| Template.FillAppend | mcp/src/index.ts:62-64 | filling with one list of entries and then another is filling with their concatenation |
| Template.FillSnoc | mcp/src/index.ts:62-64 | one more entry is one more `replaceAll` of `{{key}}` on the text built so far |
| Template.Fill | mcp/src/index.ts:60-66 | entries whose `{{key}}` does not occur in the content leave it unchanged; in particular an empty map does |
| Template.FillOneEntry | mcp/src/index.ts:62-64 | one entry replaces the first `{{key}}` of the content by its value and every later `{{key}}` too |
| Template.FillVariables | mcp/src/index.ts:60-66 | the loop over the entries computes the left fold of literal `replaceAll`s |
| Template.GreetingFilled | mcp/src/index.ts:60-66 | filling `Hello {{name}}!` with `name = Ada` gives `Hello Ada!`, which declares no variables |
| Template.FullMapMayLeavePlaceholder | mcp/src/index.ts:60-66 | filling `{{{{a}}}}` with `a = x` gives `{{x}}`, which still declares `x` |
| Template.FillOrderMatters | mcp/src/index.ts:62-64 | `{{a}}` with `a = {{b}}` then `b = B` gives `B`; with the entries the other way round it gives `{{b}}` |
| Catalog.FindPrompt | mcp/src/index.ts:150-153 | `find`: the first prompt in list order whose slug equals the lower-cased query or whose lower-cased name does; none exactly when no prompt matches |
| Catalog.FindPromptCaseInsensitive | mcp/src/index.ts:150 | two queries equal after lower-casing find the same prompt |
| Catalog.UpperCaseSlugMatchesOnlyByName | mcp/src/index.ts:152 | a slug holding an upper-case letter never matches; only the name can |
| Catalog.NameMatchBeforeSlugMatchWins | mcp/src/index.ts:151-153 | a name match earlier in the list beats a later exact slug match |
| Catalog.FilterByCategory | mcp/src/index.ts:94-96 | an order-preserving subsequence holding exactly the prompts whose category equals the argument after lower-casing; an absent or empty argument keeps every prompt |
| Catalog.FilterByCategoryCaseInsensitive | mcp/src/index.ts:95 | two arguments equal after lower-casing select the same prompts |
| Catalog.CountCategoryPositive | mcp/src/index.ts:259-260 | a category's count is positive exactly when some prompt has that category |
| Catalog.SumCountsCovers | mcp/src/index.ts:259-260 | counting each of a list of distinct categories that covers every prompt counts every prompt exactly once |
| Catalog.GroupByCategory | mcp/src/index.ts:111-123 | one non-empty group per distinct category in first-seen order; each group holds exactly its category's prompts in list order; every prompt is in its category's group; the group sizes add up to the number of prompts |
| Catalog.GroupUnique | mcp/src/index.ts:114-116 | a prompt is in no group except the one headed by its own category |
| Catalog.SortedCategories | mcp/src/index.ts:251 | `[...new Set(categories)].sort()`: strictly ascending, without repeats, holding exactly the prompts' categories |
| Catalog.CategoryCounts | mcp/src/index.ts:251-262 | the lines are in strictly ascending category order; their categories are exactly the prompts' categories; each count is that category's number of prompts and at least 1; the counts add up to the number of prompts; no lines exactly when no prompts |
| Order.LessTransitive | mcp/src/index.ts:251 | the default string order is transitive |
| Order.LessTotal | mcp/src/index.ts:251 | two different strings are ordered one way or the other |
| Order.Sort | mcp/src/index.ts:251 | `sort()`: a permutation of the input in ascending order, strictly ascending when the input has no repeats |
| Tools.FetchPrompts | mcp/src/index.ts:47-52 | an error exactly when the status is outside 200-299, carrying its status; otherwise the `prompts` field, or the empty list when it is absent |
| Tools.ListPrompts | mcp/src/index.ts:80-126 | "not configured" exactly when there is no URL; an API error exactly when the endpoint fails, with its status; once both pass, "no prompts" exactly when the filter keeps nothing (naming the category only when a non-empty one was given) and a listing exactly when it keeps something; in a listing the total is the number of kept prompts and the number of prompt lines, the headings are the distinct categories in first-seen order, each kept prompt's line (name, slug, variables, description if non-empty) is under its category's heading, and each section holds exactly the lines of the kept prompts of its category, in list order |
| Tools.GetPrompt | mcp/src/index.ts:136-174 | "not configured" exactly when there is no URL; an API error exactly when the endpoint fails, with its status; once both pass, not found exactly when the lookup finds nothing and details exactly when it finds a prompt; the details are the found prompt's name, category, non-empty description, extracted variables and content |
| Tools.UsePrompt | mcp/src/index.ts:188-229 | "not configured" exactly when there is no URL; an API error exactly when the endpoint fails, with its status; once both pass, not found exactly when the lookup finds nothing and a text exactly when it finds a prompt; the text starts with the content, filled when variables were given and raw otherwise; the text is that content alone exactly when it has no placeholder left, and otherwise the rest of the text is the note listing exactly the remaining names |
| Tools.UnfilledNoteRoundTrip | mcp/src/index.ts:224-226 | the unfilled-variables note reads back as the names it lists |
| Tools.SameLookup | mcp/src/index.ts:201-205 | `get_prompt` and `use_prompt` find the same prompt or both report it missing; `use_prompt`'s text starts with the (filled) content `get_prompt` shows |
| Tools.ListCategories | mcp/src/index.ts:237-272 | "not configured" exactly when there is no URL; an API error exactly when the endpoint fails, with its status; once both pass, "no categories" exactly when there are no prompts and a list of lines exactly when there are some; the lines are in strictly ascending order, cover exactly the prompts' categories, carry each category's count (at least 1, adding up to the number of prompts) and say `prompt` when the count is 1 and `prompts` otherwise |
| Tools.UnconfiguredWorld | mcp/src/index.ts:81-91 | with no usable URL anywhere, every tool answers "not configured" |
| Tools.ServerErrorReported | mcp/src/index.ts:47-52 | a failing endpoint's status is what all four tools report |
| Tools.UseGreetWithoutVariables | mcp/src/index.ts:218-226 | `use_prompt("GREET")` without variables returns `Hello {{name}}!` and the note naming `name`; `get_prompt("GREET")` lists the variable `name` |
| Tools.UseGreetWithVariables | mcp/src/index.ts:218-226 | `use_prompt("greet", {name: "Ada"})` returns `Hello Ada!` with no note |
| Tools.CategoriesAlphabetical | mcp/src/index.ts:250-262 | categories listed as Writing, Code, Writing come out as Code (1 prompt) then Writing (2 prompts) |

## Left out

- The MCP server object, the stdio transport, `main` and the zod argument schemas (`mcp/src/index.ts:3-5`, `68-80`, `276-284`) are framework wiring. The tools are modelled as plain functions of their arguments.
- The HTTP request and `res.json()` in `fetchPrompts` are network I/O.
  - The endpoint's answer is a parameter: a status, which is a success exactly in the range 200-299 as for `Response.ok`, and the `prompts` field if present.
  - A body that is not JSON, or whose `prompts` is not a list of prompt records, is not modelled.
- Filesystem and environment access in `loadConfig` (`existsSync`, `readFileSync`, `JSON.parse`, `process.env`) is I/O.
  - The environment value and the candidate files, already read, are parameters.
  - A `url` that is not a string, and a file that is not valid JSON, are not modelled.
- Text.Lower: only lower-cases ASCII letters, because Unicode case mapping (`toLowerCase`) is not modelled.
- Text.ReplaceAll: takes the replacement value literally, because JavaScript's expansion of `$$`, `$&`, `` $` `` and `$'` in the replacement string is not modelled.
- Template.Fill: takes the entries as a sequence in iteration order, because the ordering of `Object.entries` (integer-like keys first) is not modelled. The model also does not rule out duplicate keys, which a JavaScript object cannot hold.
- Order.Less: compares whole characters, because the default `sort()` compares UTF-16 code units. The two orders differ only for characters outside the Basic Multilingual Plane.
- Tools.ListPrompts, Tools.GetPrompt and Tools.ListCategories: return a structured reply (sections, lines, fields) instead of the exact Markdown text. Number formatting and the message wording are not modelled.
- The `id` field is carried in the `Prompt` record but no tool reads it.
