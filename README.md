# Member-directory ingestion, modelled in Dafny

This project models the member-directory ingestion pipeline of the club website, from
`src/lib/csvParser.ts`. It has four parts:

- **Tokenizer.** The quote-aware line tokenizer `parseCSVLine` is the method
  `Tokenizer.ParseLine`. It is proved equal to the specification function `Tokenizer.Tokenize`,
  and the properties of the tokenizer are proved about that function.
- **Row extraction.** The text-processing body of `parseCSV` is the method `CsvParser.ParseCsv`.
  It turns the text of the export into a sequence of members and is proved equal to
  `CsvParser.ParsedMembers`. That function is specified line by line through `CsvParser.Records`:
  a line yields a member exactly when it is kept (not blank, with a non-blank name cell), and the
  members come out one per kept line, in line order.
- **Classifier.** The name-override table `MANUAL_TEAM_MAP` is `Classifier.ManualTeam`.
  `categorizeRole` is modelled twice. `Classifier.CategorizeRoleAsWritten` is the plain-object
  lookup of the source, which also finds properties inherited from `Object.prototype`.
  `Classifier.CategorizeRole` consults only the table's own keys. It is the one `ParseCsv` uses,
  so for a name that cleans to `constructor` or `__proto__` the model classifies the member by
  its role where the source does not (see the findings below). The keyword rules are also given
  as an ordered rule list with a first-match reading.
- **Grouper.** `categorizeMembersData` is the method `Grouper.CategorizeMembers`. It is proved
  equal, list by list, to the filter `Grouper.Bucket`, which is shown to be a stable partition.
  `Grouper.ListAsWritten` gives the list the source indexes when the category comes from the
  lookup as written.

The JavaScript string built-ins the parser relies on are modelled in module `Text`: `trim`,
`toLowerCase`, `replace(/\s+/g, ' ')`, `split`, `includes` and `startsWith`. The words of a text
(`Text.Words`, its maximal runs of non-white-space characters) are the reference the
normalisations are proved against. Field validation (`isValidUrl`, `isValidImageUrl`) is in
`Validators`. The `Member` record and the six categories are in `Model`. The JavaScript value
`undefined` for an optional field is `Wrappers.Option.None`.

Modules:

| file | module | models |
|---|---|---|
| wrappers.dfy | Wrappers | optional values (`undefined`) |
| text.dfy | Text | the string built-ins used by the parser |
| model.dfy | Model | `Member`, `MemberCategory` |
| tokenizer.dfy | Tokenizer | `parseCSVLine` |
| validators.dfy | Validators | `isValidUrl`, `isValidImageUrl` |
| classifier.dfy | Classifier | `MANUAL_TEAM_MAP`, `categorizeRole` |
| csv_parser.dfy | CsvParser | the body of `parseCSV` |
| grouper.dfy | Grouper | `categorizeMembersData` |

Three behaviours of the code that a reader might expect to be otherwise:

- **`Convenor`.** A role of `Convenor`, for a name outside the table, falls through to the Events
  Team. The Core Team rule tests only `convener` and `executive`
  (src/lib/csvParser.ts:206); `Classifier.ConvenorExample` proves this.
- **Header keywords.** Columns are found only by the five literals `name`, `image`, `linkedin`,
  `email` and `role` (src/lib/csvParser.ts:68-72). There are no `photograph`, `gmail` or `post`
  alternatives.
- **LinkedIn.** The LinkedIn link is kept when it starts with `http` (src/lib/csvParser.ts:97).
  No URL parsing is done.

## Model

| member | source | states |
|---|---|---|
| Model.LabelInjective | src/lib/csvParser.ts:10-16 | the six category labels are pairwise distinct, so grouping by category is grouping by label |
| Text.ToLower | src/lib/csvParser.ts:66 | lower-casing keeps the length, turns each ASCII upper-case letter into its lower-case letter, keeps every other character, and so leaves no upper-case letter |
| Text.ToLowerNoop | src/lib/csvParser.ts:66 | text without upper-case letters is its own lower-case form |
| Text.ToLowerIdempotent | src/lib/csvParser.ts:66 | lower-casing twice is lower-casing once |
| Text.Trim | src/lib/csvParser.ts:77 | `trim()` returns a contiguous slice of its input with no white space at either end |
| Text.TrimDropsOnlyWs | src/lib/csvParser.ts:77 | everything `trim()` removes, before and after the result, is white space |
| Text.TrimBlank | src/lib/csvParser.ts:77-78 | the trimmed line is empty exactly when the line is all white space (the `if (!line) continue` test) |
| Text.TrimNoop | src/lib/csvParser.ts:77 | trimming text that has no white space at either end leaves it unchanged |
| Text.Words | src/lib/csvParser.ts:83-84 | the words of a text are non-empty and free of white space, and the first starts with the first character when that is not white space |
| Text.WordsTrim | src/lib/csvParser.ts:83-84 | trimming keeps the words of a text |
| Text.CollapseWs | src/lib/csvParser.ts:83 | `replace(/\s+/g, ' ')` keeps the words of the text, leaves only single spaces as white space and never two in a row, keeps every other character in order, and is empty exactly when the input is |
| Text.CollapseWsLast | src/lib/csvParser.ts:83 | a trailing white-space run is kept as one space: the result ends in white space exactly when the input does |
| Text.TrimCollapseWs | src/lib/csvParser.ts:83-84 | collapsing white-space runs and then trimming gives collapsed text: single inner spaces and clean ends |
| Text.Squish | src/lib/csvParser.ts:83-84 | the normalised name is the words of the input joined by single spaces, and is empty exactly when the input is blank |
| Text.CollapsedIsJoin | src/lib/csvParser.ts:83-84 | collapsed text is the join of its own words by single spaces |
| Text.CollapsedFixpoint | src/lib/csvParser.ts:83-84 | normalising already-normalised text changes nothing (idempotence) |
| Text.ReplaceChar | src/lib/csvParser.ts:89 | `replace(/\n/g, ' ')` keeps the length, turns every line break into a space and leaves every other character in place |
| Text.WordsReplaceWs | src/lib/csvParser.ts:89-90 | replacing one white-space character by another keeps the words, so a line break in a role only separates words |
| Text.RemoveChar | src/lib/csvParser.ts:64 | removing the BOM leaves none and never lengthens the text |
| Text.RemoveCharAbsent | src/lib/csvParser.ts:64 | a header without a BOM is left unchanged |
| Text.RemoveCharCounts | src/lib/csvParser.ts:64 | every character other than the BOM occurs as often after the removal as before |
| Text.RemoveCharAppend | src/lib/csvParser.ts:64 | removal works piece by piece, so the remaining characters keep their order |
| Text.ContainsAt | src/lib/csvParser.ts:68 | `includes` holds exactly when the keyword occurs at some offset |
| Text.ContainsPrefixOf | src/lib/csvParser.ts:214-215 | text containing `p + q` contains `p` |
| Text.SplitOn | src/lib/csvParser.ts:59 | `split('\n')` gives one more part than there are separators, and no part contains the separator |
| Text.JoinSplitOn | src/lib/csvParser.ts:59 | joining the parts of `split` with the separator gives back the text |
| Text.SplitOnJoin | src/lib/csvParser.ts:59 | splitting a join of separator-free parts gives back the parts |
| Tokenizer.Scan | src/lib/csvParser.ts:141-161 | scanning never loses a completed field: the fields before a scan are a prefix of the fields after it |
| Tokenizer.Tokenize | src/lib/csvParser.ts:136-162 | there is always at least one field, and one more per comma read outside quotes |
| Tokenizer.ParseLine | src/lib/csvParser.ts:136-162 | the loop returns `Tokenize(line)`; the field count is the number of commas read outside quotes plus one |
| Tokenizer.QuoteFreeLine | src/lib/csvParser.ts:145-157 | with no `"` in the line, the fields are its comma-separated parts, and joining them with `,` gives back the line |
| Tokenizer.QuotesOnlyFromPairs | src/lib/csvParser.ts:145-151 | a line with no doubled quote yields fields with no `"`: a lone quote only toggles the quote flag |
| Tokenizer.QuoteCount | src/lib/csvParser.ts:145-151 | the fields hold exactly one `"` for each `""` read inside quotes, and no other `"` |
| Tokenizer.EscapedPairsBound | src/lib/csvParser.ts:145-151 | each `""` pair read inside quotes uses up two `"` of the line |
| Tokenizer.QuoteCountHalved | src/lib/csvParser.ts:145-151 | every `"` in the output costs two in the input (the `""` escape), so output quotes are at most half the input quotes |
| Tokenizer.QuotedCommaExample | src/lib/csvParser.ts:145-157 | a comma inside quotes does not split: `a,"b,c",d` gives `a`, `b,c`, `d` |
| Tokenizer.EscapedQuoteExample | src/lib/csvParser.ts:146-148 | `""` inside quotes gives one `"` and skips the second: `"a""b",c` gives `a"b`, `c` |
| Validators.IsValidImageUrl | src/lib/csvParser.ts:173-178 | an accepted image URL is a valid URL that neither starts with `data:image` nor contains `drive.google.com` |
| Validators.ImageUrlRules | src/lib/csvParser.ts:173-178 | an image URL is refused when it is empty, starts with `data:image` or contains `drive.google.com`; otherwise it is accepted exactly when `isValidUrl` holds |
| Validators.DriveLinkRefused | src/lib/csvParser.ts:176 | a Google Drive link is refused even though it is a valid web URL |
| Validators.WebImageKept | src/lib/csvParser.ts:164-178 | an ordinary `https` image link is accepted |
| Validators.InlineImageRefused | src/lib/csvParser.ts:175 | an inline `data:image` URL is refused |
| Classifier.CleanName | src/lib/csvParser.ts:185 | the lookup key is trimmed and has no upper-case letter |
| Classifier.NormalizeRole | src/lib/csvParser.ts:192 | the normalised role is the words of the lower-cased role joined by single spaces |
| Classifier.Heuristic | src/lib/csvParser.ts:194-220 | the keyword rules never give the Website Team or the Executive Team |
| Classifier.CategorizeRole | src/lib/csvParser.ts:184-221 | a name whose key is in the table gets the table's category, and the Website Team and the Executive Team come only from the table (own keys only, see the introduction) |
| Classifier.CategorizeRoleIsDecisionTable | src/lib/csvParser.ts:192-220 | off the table, the category is the first match of the ordered rules Faculty, Core Team, Technical Team, with fallback Events Team |
| Classifier.FirstMatch | src/lib/csvParser.ts:194-220 | a first-match rule list answers either its fallback or the category of one of its rules |
| Classifier.HeuristicIsFirstMatch | src/lib/csvParser.ts:194-220 | the if-chain equals the first match over the ordered rules Faculty, Core Team, Technical Team, with fallback Events Team |
| Classifier.ManualOverrideWins | src/lib/csvParser.ts:185-190 | when the lower-cased, trimmed name is a table key, the table's category is returned whatever the role |
| Classifier.HeuristicOrder | src/lib/csvParser.ts:192-220 | without an override, each category is returned exactly when its keywords match and no earlier rule's do (both directions) |
| Classifier.OnlyTableGivesWebsiteOrExecutive | src/lib/csvParser.ts:26-48 | the Website Team and the Executive Team come only from the name table |
| Classifier.TechnicalKeywordsReduce | src/lib/csvParser.ts:211-216 | the `website` keyword is subsumed by `web` |
| Classifier.FacultyAdvisorExample | src/lib/csvParser.ts:195-203 | role `Faculty Advisor` for a name outside the table is Faculty |
| Classifier.ConvenorExample | src/lib/csvParser.ts:206-220 | role `Convenor` for a name outside the table falls through to the Events Team |
| Classifier.TableNameExample | src/lib/csvParser.ts:28 | `Nishant Patil` is Core Team whatever the role text |
| Classifier.NishantPatilInTable | src/lib/csvParser.ts:28 | the table maps `nishant patil` to Core Team |
| Classifier.ReachablePrototypeKeys | src/lib/csvParser.ts:185-189 | a lower-cased key can name only the inherited properties `constructor` and `__proto__` |
| Classifier.CategorizeRoleAsWritten | src/lib/csvParser.ts:184-221 | as written, the lookup never ends in `undefined`; a table key gives its category, and an inherited property is found only for a key that is `constructor` or `__proto__` |
| Classifier.AsWrittenAgreesOffPrototype | src/lib/csvParser.ts:188-189 | the lookup as written agrees with the own-key lookup for every name that is not an `Object.prototype` property |
| Classifier.ConstructorNameLeaks | src/lib/csvParser.ts:188-189 | as written, the name `Constructor` makes the lookup return the inherited `constructor` property, not a category |
| Classifier.ConstructorNameClassified | src/lib/csvParser.ts:184-221 | with own-key lookup, `Constructor` is classified by its role into one of the four heuristic categories |
| CsvParser.HeaderCells | src/lib/csvParser.ts:63-66 | there is one header cell per comma of the BOM-free header line, plus one; each cell is trimmed and has no upper-case letter and no comma |
| CsvParser.HeaderCellsOfTwo | src/lib/csvParser.ts:63-66 | a two-cell header without commas or BOM reads as its two cells, each trimmed and lower-cased |
| CsvParser.HeaderCellsJoin | src/lib/csvParser.ts:63-66 | cells that are already trimmed, lower-case and free of commas and BOM, joined by commas, read back as exactly those cells |
| CsvParser.CapitalisedHeader | src/lib/csvParser.ts:63-72 | the header `Name,Role` finds the name in column 0 and the role in column 1, as `name,role` does: the column match ignores letter case |
| CsvParser.FindIndex | src/lib/csvParser.ts:68-72 | `findIndex` returns the first cell containing the keyword, or -1 when no cell does |
| CsvParser.LocateColumns | src/lib/csvParser.ts:68-72 | each column index is the first header cell containing its keyword, or -1 when no cell does |
| CsvParser.RoleField | src/lib/csvParser.ts:88-93 | the role is `Member` when the cell is missing or blank, and otherwise the words of the cell joined by single spaces |
| CsvParser.LinkedInField | src/lib/csvParser.ts:95-99 | the LinkedIn link is kept exactly when the trimmed cell starts with `http`, and is then the trimmed cell |
| CsvParser.PhotoField | src/lib/csvParser.ts:101-105 | the photo link is kept exactly when the trimmed cell passes `isValidImageUrl`, and is then the trimmed cell |
| CsvParser.EmailField | src/lib/csvParser.ts:107-111 | the e-mail is kept exactly when the trimmed cell contains `@`, and is then the trimmed cell |
| CsvParser.RecordFromValues | src/lib/csvParser.ts:82-122 | a row yields a member exactly when its name cell is present and not blank; the name is the words of that cell, every other field is given by its field function, and the record is well formed |
| CsvParser.ExtractRow | src/lib/csvParser.ts:77-80 | a data line yields a member exactly when it is not blank and its name cell is present and not blank |
| CsvParser.RowsCount | src/lib/csvParser.ts:76-123 | data lines yield exactly one member per kept line |
| CsvParser.KeptLineContributes | src/lib/csvParser.ts:76-123 | a kept line contributes its member after those of the lines before it and before those of the lines after it |
| CsvParser.ParsedMembersCount | src/lib/csvParser.ts:59-123 | the members of an export are one per kept line after the header |
| CsvParser.ParseCsv | src/lib/csvParser.ts:59-125 | the loop returns `ParsedMembers(text)`; every member is well formed; there are no more members than line breaks |
| CsvParser.ParsedMembersWellFormed | src/lib/csvParser.ts:82-122 | every member has a non-empty collapsed name and role, valid optional fields, and `category == categorizeRole(role, name)` |
| CsvParser.ParsedMembersBound | src/lib/csvParser.ts:76-123 | at most one member per line after the header |
| CsvParser.RowsAppend | src/lib/csvParser.ts:76-123 | the members of two runs of lines are those of the first run followed by those of the second (line order) |
| CsvParser.SingleLineGivesNothing | src/lib/csvParser.ts:59-60 | text with fewer than two lines gives no members |
| CsvParser.NoNameColumnRows | src/lib/csvParser.ts:82-86 | without a name column, every row is skipped |
| CsvParser.NoNameHeaderGivesNothing | src/lib/csvParser.ts:68 | if no header cell contains `name`, the result is empty |
| CsvParser.BlankRowSkipped | src/lib/csvParser.ts:77-78 | a line that is blank after trimming is skipped |
| CsvParser.BlankLinesGiveNothing | src/lib/csvParser.ts:76-78 | lines that are all blank after trimming yield no members |
| CsvParser.BlankBodyGivesNothing | src/lib/csvParser.ts:59-78 | a header followed only by blank lines (a header with a final line break, for instance) gives no members |
| CsvParser.OneMemberExport | src/lib/csvParser.ts:59-123 | a `name,role` header and one line of a normalised name and role give exactly that member, with no optional field and the category of `categorizeRole` |
| CsvParser.ExampleExport | src/lib/csvParser.ts:59-123 | `name,role` then `Jane Doe,Faculty Advisor` gives one Faculty member with no optional field |
| Grouper.EffectiveCategory | src/lib/csvParser.ts:240 | the list a member goes to is always one of the six, and it is the Events Team when the member has no category |
| Grouper.Bucket | src/lib/csvParser.ts:239-241 | a list never has more members than the input, and each of them has that list's effective category |
| Grouper.CategorizeMembers | src/lib/csvParser.ts:227-244 | the result has exactly the six category keys, and each list is the input filtered to that category in input order, so `[]` gives six empty lists |
| Grouper.BucketMembership | src/lib/csvParser.ts:239-241 | a member is in list `c` exactly when it is in the input and its category, or Events Team when it has none, is `c` |
| Grouper.BucketAppend | src/lib/csvParser.ts:239-241 | grouping is stable: each list of a concatenation is the first list followed by the second |
| Grouper.BucketsPartition | src/lib/csvParser.ts:239-241 | the six lists together are a permutation of the input (same multiset) |
| Grouper.BucketSizes | src/lib/csvParser.ts:230-243 | the list sizes sum to the input length |
| Grouper.UncategorisedGoesToEvents | src/lib/csvParser.ts:240 | a member without a category is in the Events Team list and in no other |
| Grouper.ListAsWritten | src/lib/csvParser.ts:240 | as written, a category that is an inherited `Object.prototype` property names no list; any other names one of the six |
| Grouper.AsWrittenGroupsOffPrototype | src/lib/csvParser.ts:188-189 | off the inherited names, the grouping as written pushes onto the list of the own-key category |
| Grouper.GroupingFailsOnlyOnPrototypeNames | src/lib/csvParser.ts:240 | as written, a member can lack a list only when its cleaned name is `constructor` or `__proto__` |
| Grouper.ConstructorNameBreaksGrouping | src/lib/csvParser.ts:240 | as written, a member named `Constructor` has no list, so the `push` throws |

## Left out

- The `fetch('/2.csv')` and `response.text()` calls and the catch-all that returns `[]` (src/lib/csvParser.ts:56-57, 126-129) are network I/O and exception handling. The text of the export is the input of `CsvParser.ParseCsv`.
- Validators.IsValidUrl: the WHATWG URL parser behind `new URL` is not modelled. A URL counts as valid when it starts with `http://` or `https://`, in any letter case, followed by at least one more character. Host validation, percent-encoding and the parser's own white-space stripping are not captured.
- Text.LowerChar: `toLowerCase` is modelled for ASCII letters only. Other characters are left unchanged.
- Text.IsWs is the ECMAScript white-space and line-terminator set used by `\s` and `trim`, written out character by character.
- Quoted line breaks inside a field are not supported, because the source splits records on `\n` before tokenizing. The model does the same and does not add support.
- The header row is split on every comma, with no quote handling, exactly as the source does.
- Classifier.CategorizeRole takes the name as a string, not as an optional value. Its only caller always passes the row's non-empty name.
- The exception that the `push` at src/lib/csvParser.ts:240 raises is not modelled as control flow: `Grouper.ListAsWritten` returns no list where the source throws.
- The React pages and components, the backend routes and models, the seed scripts and the contact route are outside this model. They are UI state, timers, randomness, a document store and e-mail I/O.

## Findings

| source | as written | input that shows it | evidently intended | confidence | as-written member | corrected member |
|---|---|---|---|---|---|---|
| src/lib/csvParser.ts:188-189 | `MANUAL_TEAM_MAP[cleanName]` is a plain object lookup, so it also finds properties inherited from `Object.prototype`. The key is lower-cased first, so only `constructor` and `__proto__` can hit | a member whose name is `Constructor` (or `__proto__`): the lookup returns the `Object` function (or `Object.prototype`), which is truthy and is returned as the category | only the table's own keys override the role heuristics | not executed | Classifier.ConstructorNameLeaks | Classifier.ConstructorNameClassified |
| src/lib/csvParser.ts:240 | the six lists are indexed with whatever the category is. For the inherited value of the row above the list is `undefined` and `.push` on it throws, so the catch of the members page (src/app/members/page.tsx:29-35) leaves the whole directory empty | the same member named `Constructor` anywhere in the export | every member is pushed onto one of the six lists | not executed | Grouper.ConstructorNameBreaksGrouping | Grouper.CategorizeMembers |
