# process.org.ai — a verified model of the query library and the curation scripts

process.org.ai publishes the APQC Process Classification Framework as a
collection of JSON-LD `Process` records. This project models four parts of
that repository in Dafny:

- **the query library** (`index.ts`), in module `ProcessIndex`. It fetches the
  collection once and answers five read-only queries: `get`, `search`,
  `getByHierarchyId`, `getChildren` and `getByCategory`. Each query is a
  `find` or a `filter` over the collection. The collection is a parameter,
  and a failed fetch is the empty sequence.
- **the record type** (`types.ts`), in module `ProcessTypes`: the base `Schema`
  record, the five `ProcessLevel`s and the `Process` record.
- **the helpers of the delivery-products curation script**
  (`04-DeliverProducts/_curation/curate-batch.ts`), in module `CurateBatch`:
  - reading the front-matter block and its `key: value` lines;
  - the three identifier builders: `toCamelCase`, `toPackageName` and
    `toFunctionName`.
- **the text rewriting of the curation script** (`_curate-batch.ts`), in
  module `Curation`:
  - the `CuratedData` record;
  - the table-row renderers;
  - the rewrites that `curateFile` applies to a process page: thirteen,
    or fourteen when an overview is given.

  Each rewrite follows JavaScript's `String.prototype.replace`. A string
  pattern replaces its first occurrence. The description regex uses the `m`
  flag, so it matches at the start of any line. The lazy regexes with the
  `s` flag (hierarchy and usage) take the leftmost start and then the
  shortest match.

Modules `Seqs` and `Text` hold the generic pieces that the four parts share:

- `filter` and `find` over sequences;
- ASCII case mapping and substring search;
- `split` and `join`;
- whitespace runs.

## Model

| member | source | states |
|---|---|---|
| ProcessIndex.Get | index.ts:33-36 | absent exactly when no record has the code or the `@id` formed from it; otherwise the first record that has one of them |
| ProcessIndex.GetUniqueByCode | index.ts:35 | when codes are unique and every `@id` is canonical, `get(code)` returns a record exactly when that record is in the collection with that code |
| ProcessIndex.Search | index.ts:41-45 | keeps the original order; holds exactly the records whose lower-cased name or description contains the lower-cased query, each as often as in the collection |
| ProcessIndex.SearchCaseInsensitive | index.ts:43 | two queries with the same lower-case form give the same result |
| ProcessIndex.SearchUpperEqualsLower | index.ts:43-44 | searching for "SALES" and for "sales" gives the same records |
| ProcessIndex.SearchEmptyQuery | index.ts:44 | the empty query returns the whole collection, because every name contains the empty string |
| ProcessIndex.SearchWithinEmptyQuery | index.ts:41-45 | every search result is a subsequence of the whole collection |
| ProcessIndex.GetByHierarchyId | index.ts:50-53 | absent exactly when no record has that hierarchy id; otherwise the first record that has it |
| ProcessIndex.ChildIdIffNoFurtherDot | index.ts:60-62 | the segment-count test of `getChildren` holds exactly when the id starts with `h.` and has no further dot |
| ProcessIndex.GetChildren | index.ts:58-63 | keeps the original order; holds exactly the records one level below `h`, each as often as in the collection |
| ProcessIndex.GrandchildExcluded | index.ts:62 | "3.4.2.5" is not a child of "3.4" |
| ProcessIndex.ChildPrefixBoundary | index.ts:60-62 | the dot after the prefix keeps "10.1" out of the children of "1" |
| ProcessIndex.GetByCategory | index.ts:68-71 | keeps the original order; holds exactly the records whose hierarchy id starts with `c.`, because the `== c + '.0'` test adds nothing |
| ProcessIndex.CategoryPrefixBoundary | index.ts:70 | a record with id "10.1" is never in category "1" |
| ProcessIndex.ChildrenWithinCategory | index.ts:58-71 | the children of `c` are a subsequence of category `c` |
| ProcessIndex.EmptyCollection | index.ts:26-28 | after a failed fetch the collection is empty, and every query finds nothing |
| ProcessIndex.ScenarioChildren | index.ts:58-63 | in the collection 3, 3.1, 3.1.1, the children of "3" are exactly [3.1] |
| ProcessIndex.ScenarioGrandchildren | index.ts:58-63 | in the same collection, the children of "3.1" are exactly [3.1.1] |
| ProcessIndex.CategoryOfThree | index.ts:68-71 | of three records, when the first is outside category `c` and the other two are inside it, the category is exactly the other two |
| ProcessIndex.ScenarioCategory | index.ts:68-71 | in the same collection, category "3" is [3.1, 3.1.1] and leaves out the record "3" itself |
| ProcessIndex.ScenarioGet | index.ts:33-36 | in the same collection, `get` finds code "A" and finds nothing for "Z" |
| ProcessTypes.ParseLevel | types.ts:22 | a string read as a level is the name of that level |
| ProcessTypes.ParseLevelName | types.ts:22 | every level's name reads back as that level, so the five names are distinct |
| ProcessTypes.AsSchema | types.ts:13-17 | a process seen as a base record has all three reserved keys, and its `@id` is the process's |
| ProcessTypes.WellFormedIffNarrowed | types.ts:27-30 | a process has the two literal types exactly when its base record holds the fixed `@context` and `@type` |
| CurateBatch.FrontmatterBlock | 04-DeliverProducts/_curation/curate-batch.ts:31-32 | a block exists exactly when the text starts with `---` and a newline and a later `\n---` follows; the block runs up to the first such closing line |
| CurateBatch.JoinOpenLines | 04-DeliverProducts/_curation/curate-batch.ts:31 | lines that do not start with '-' join into a block in which no line break is followed by '-' and which does not start with '-'; with `DashFreeHasNoClose`, such a block holds no closing `\n---` |
| CurateBatch.DashFreeHasNoClose | 04-DeliverProducts/_curation/curate-batch.ts:31 | a block in which no line starts with '-' holds no closing `\n---` |
| CurateBatch.NoCloseInside | 04-DeliverProducts/_curation/curate-batch.ts:31 | a closing `\n---` wholly inside the block would be one of the block's own |
| CurateBatch.NoCloseAcrossBreak | 04-DeliverProducts/_curation/curate-batch.ts:31 | a closing `\n---` cannot start before a line break and cover it |
| CurateBatch.NoCloseInBlock | 04-DeliverProducts/_curation/curate-batch.ts:31 | a block that holds no `\n---` puts no closing line inside itself, so the first closing line is the one after it |
| CurateBatch.FrontmatterOfBlock | 04-DeliverProducts/_curation/curate-batch.ts:31-32 | a block written between the two fences is read back unchanged, whatever follows it, exactly when the block itself holds no `\n---` |
| CurateBatch.ReadsAfter | 04-DeliverProducts/_curation/curate-batch.ts:35 | after the blanks and an optional quote, the rest with its closing quote dropped is a reading of the value that is non-empty and holds no line terminator |
| CurateBatch.LineValue | 04-DeliverProducts/_curation/curate-batch.ts:35 | returns a value only when the pattern reads it, and that value is non-empty with no line terminator; returns nothing only when no reading exists |
| CurateBatch.NoValueInBlank | 04-DeliverProducts/_curation/curate-batch.ts:35 | an all-blank rest that is empty or ends in a line terminator admits no value |
| CurateBatch.LineValueOfBlanks | 04-DeliverProducts/_curation/curate-batch.ts:35 | an all-blank rest that does not end in a line terminator gives its last character as the value, because `\s*` gives that character back to `(.+?)` |
| CurateBatch.AdmitsClean | 04-DeliverProducts/_curation/curate-batch.ts:35 | whatever the pattern reads after the leading blanks holds no line terminator |
| CurateBatch.AdmitsCleanAfterSpace | 04-DeliverProducts/_curation/curate-batch.ts:35 | whenever the pattern reads a value, nothing after the longest run of leading blanks is a line terminator |
| CurateBatch.NoValueAcrossTerminator | 04-DeliverProducts/_curation/curate-batch.ts:35 | when a line terminator follows the leading blanks, no value is read |
| CurateBatch.KeyLength | 04-DeliverProducts/_curation/curate-batch.ts:35 | the key is the longest prefix of word characters |
| CurateBatch.MatchLine | 04-DeliverProducts/_curation/curate-batch.ts:35 | a match has a non-empty word key followed by ':', and a non-empty one-line value that the pattern reads from the rest |
| CurateBatch.MatchLineComplete | 04-DeliverProducts/_curation/curate-batch.ts:35 | every line that the pattern admits is matched, with its own key |
| CurateBatch.KeyLengthOf | 04-DeliverProducts/_curation/curate-batch.ts:35 | the key ends at the first character that is not a word character |
| CurateBatch.MatchLineOf | 04-DeliverProducts/_curation/curate-batch.ts:35 | `key:rest` matches as the key together with the value read from `rest` |
| CurateBatch.LineValueAfterQuote | 04-DeliverProducts/_curation/curate-batch.ts:35 | when the first character after the leading blanks is a quote, the value is the rest of the line with one closing quote dropped |
| CurateBatch.LineValueQuoted | 04-DeliverProducts/_curation/curate-batch.ts:35 | after any run of blanks, the quotes around a non-empty one-line value are dropped and exactly that value is read |
| CurateBatch.LineValuePlain | 04-DeliverProducts/_curation/curate-batch.ts:35 | after any run of blanks, a non-empty one-line value that neither starts with a blank or a quote nor ends with a quote is read exactly as written |
| CurateBatch.QuotedValueRoundTrip | 04-DeliverProducts/_curation/curate-batch.ts:35 | `key:` followed by any run of blanks and `'v'` parses back to (key, v) |
| CurateBatch.PlainValueRoundTrip | 04-DeliverProducts/_curation/curate-batch.ts:35 | `key:` followed by any run of blanks and a plain value v parses back to (key, v) |
| CurateBatch.EntriesSnoc | 04-DeliverProducts/_curation/curate-batch.ts:34-37 | the entries of lines plus one more line are the entries of the lines with that line stored |
| CurateBatch.EntriesLastWins | 04-DeliverProducts/_curation/curate-batch.ts:33-37 | a key is present exactly when some line defines it and it is not `__proto__`; its value is the one from the last line that defines it, and that value is non-empty |
| CurateBatch.ParseFrontmatter | 04-DeliverProducts/_curation/curate-batch.ts:30-39 | fails with "No frontmatter found" when there is no block; otherwise returns the entries of the block's lines |
| CurateBatch.ExampleBlock | 04-DeliverProducts/_curation/curate-batch.ts:31-34 | a three-line example block is found and splits back into its lines |
| CurateBatch.ExampleName | 04-DeliverProducts/_curation/curate-batch.ts:35 | `name: 'Ops'` matches as ("name", "Ops") |
| CurateBatch.ExampleFlag | 04-DeliverProducts/_curation/curate-batch.ts:35 | `metricsAvailable: true` matches with the string "true" |
| CurateBatch.ExampleNote | 04-DeliverProducts/_curation/curate-batch.ts:35-36 | a line without a colon is skipped |
| CurateBatch.ThreeLineEntries | 04-DeliverProducts/_curation/curate-batch.ts:33-37 | two lines defining ordinary keys and a third line that defines nothing give exactly those two entries |
| CurateBatch.ExampleEntries | 04-DeliverProducts/_curation/curate-batch.ts:33-37 | the example lines give exactly the entries name and metricsAvailable |
| CurateBatch.ParseFrontmatterExample | 04-DeliverProducts/_curation/curate-batch.ts:30-39 | parsing the example page gives those two entries, both as strings |
| CurateBatch.Capitalize | 04-DeliverProducts/_curation/curate-batch.ts:45 | the word keeps its letters up to case and its length; its only upper-case letter can be the first one, which is upper case whenever it is a letter |
| CurateBatch.CamelWords | 04-DeliverProducts/_curation/curate-batch.ts:45 | each word keeps its letters up to case; an upper-case letter appears only as the first letter of a word after the first, and such a letter is always upper case |
| CurateBatch.LowerJoinCaseless | 04-DeliverProducts/_curation/curate-batch.ts:45-46 | words that agree up to case join into strings that agree up to case |
| CurateBatch.CaseKeepsSpace | 04-DeliverProducts/_curation/curate-batch.ts:45 | changing case neither adds nor removes white space |
| CurateBatch.JoinNoSpace | 04-DeliverProducts/_curation/curate-batch.ts:46 | joining words that have no white space gives a string that has none |
| CurateBatch.CamelJoin | 04-DeliverProducts/_curation/curate-batch.ts:44-46 | the result has no white space; up to case, it is the input with its white space removed, and it has the same length |
| CurateBatch.CamelJoinOfWords | 04-DeliverProducts/_curation/curate-batch.ts:44-46 | words without white space joined by single spaces come out as exactly those words, the first lower-cased and each later one capitalized, joined with nothing between |
| CurateBatch.RemoveSpacesOfCamelChars | 04-DeliverProducts/_curation/curate-batch.ts:43-44 | dropping the characters that are not letters, digits or white space, then the white space, leaves exactly the letters and digits |
| CurateBatch.JoinWordsCamelChars | 04-DeliverProducts/_curation/curate-batch.ts:43 | words of letters and digits joined by single spaces lose nothing to the character filter |
| CurateBatch.ToCamelCase | 04-DeliverProducts/_curation/curate-batch.ts:41-47 | the result holds only letters and digits; up to case, it is exactly the letters and digits of the input, in order |
| CurateBatch.ToCamelCaseOfWords | 04-DeliverProducts/_curation/curate-batch.ts:41-47 | for words of letters and digits joined by single spaces, `toCamelCase` is the first word lower-cased followed by each later word capitalized |
| CurateBatch.KeepPackageThenAlnum | 04-DeliverProducts/_curation/curate-batch.ts:50 | keeping `[a-z0-9-]` and then the letters and digits keeps exactly the lower-case letters and digits |
| CurateBatch.RunsKeepLowerAlnum | 04-DeliverProducts/_curation/curate-batch.ts:50 | replacing white-space runs by '-' adds and removes no lower-case letter or digit |
| CurateBatch.KeepLowerAlnumOfLower | 04-DeliverProducts/_curation/curate-batch.ts:50 | the lower-case letters and digits of a lower-cased string are its letters and digits, lower-cased |
| CurateBatch.PackageLetters | 04-DeliverProducts/_curation/curate-batch.ts:50 | after lower-casing, replacing white-space runs and dropping other characters, the letters and digits left are exactly the input's, lower-cased, in order |
| CurateBatch.DashAddsNoAlnum | 04-DeliverProducts/_curation/curate-batch.ts:50 | the '-' between verb and object adds no letter or digit |
| CurateBatch.Slug | 04-DeliverProducts/_curation/curate-batch.ts:50 | one side of a package name holds only `a-z`, `0-9` and '-'; apart from the dashes it is exactly the side's letters and digits, lower-cased, in order |
| CurateBatch.SlugAtBlankRun | 04-DeliverProducts/_curation/curate-batch.ts:50 | each run of white space becomes exactly one '-': words around a blank run give their slugs joined by one dash |
| CurateBatch.ToPackageName | 04-DeliverProducts/_curation/curate-batch.ts:49-51 | the result holds only lower-case letters, digits and '-'; apart from the dashes it is exactly the letters and digits of verb and object, lower-cased, in order |
| CurateBatch.SlugOfWord | 04-DeliverProducts/_curation/curate-batch.ts:50 | a side without white space keeps every '-' it has: its slug is the side lower-cased with only `a-z`, `0-9` and '-' kept |
| CurateBatch.PackageNameSplitsAtDash | 04-DeliverProducts/_curation/curate-batch.ts:50 | the name is the slug of the verb, then '-', then the slug of the object, so it always holds a '-' |
| CurateBatch.ToFunctionName | 04-DeliverProducts/_curation/curate-batch.ts:53-58 | the result has no white space and is at most as long as the input; up to case, it is "verb object" with its white space removed |
| CurateBatch.ToFunctionNameOfWords | 04-DeliverProducts/_curation/curate-batch.ts:53-58 | for a verb without white space and an object of non-empty words joined by single spaces, the function name is the verb lower-cased followed by each object word capitalized |
| CurateBatch.CamelWordsThree | 04-DeliverProducts/_curation/curate-batch.ts:56 | of three words, the first is lower-cased and the other two are capitalized |
| CurateBatch.FunctionNameOfThree | 04-DeliverProducts/_curation/curate-batch.ts:53-58 | a one-word verb and a two-word object give the verb lower-cased followed by both object words capitalized |
| CurateBatch.LeadingLetterCase | 04-DeliverProducts/_curation/curate-batch.ts:56 | for a letter followed by lower-case letters, lower-casing and capitalizing change only the first character |
| CurateBatch.FunctionNameOfLetters | 04-DeliverProducts/_curation/curate-batch.ts:53-58 | for three words that are each a letter followed by lower-case letters, only the three leading letters change case |
| CurateBatch.ExampleFunctionName | 04-DeliverProducts/_curation/curate-batch.ts:53-58 | `toFunctionName('Manage', 'sales order')` is `manageSalesOrder` |
| CurateBatch.RemoveSpacesShorter | 04-DeliverProducts/_curation/curate-batch.ts:54 | removing white space never makes a string longer |
| CurateBatch.KeepAll | 04-DeliverProducts/_curation/curate-batch.ts:43 | a filter that keeps every character leaves the string unchanged |
| CurateBatch.FunctionNameIsCamelCase | 04-DeliverProducts/_curation/curate-batch.ts:41-58 | when verb and object hold only letters, digits and white space, `toFunctionName` equals `toCamelCase` of "verb object" |
| Text.ReplaceFirst | _curate-batch.ts:1439-1441 | with no occurrence, nothing changes; otherwise only the leftmost occurrence is replaced, and the replacement is in the result |
| Text.ReplaceFirstKeepsLater | _curate-batch.ts:1456-1460 | a second occurrence that does not overlap the first is still there after a string replace |
| Text.SpaceLengthOfBlanks | 04-DeliverProducts/_curation/curate-batch.ts:35 | the leading blanks end where a run of blanks meets a character that is not a blank |
| Text.ReplaceSpaceRunOnce | 04-DeliverProducts/_curation/curate-batch.ts:50 | `replace(/\s+/g, r)` turns a maximal run of white space between two parts into exactly one `r` between their replacements |
| Text.ReplaceSpaceRunsOfWord | 04-DeliverProducts/_curation/curate-batch.ts:50 | `replace(/\s+/g, r)` leaves text without white space unchanged |
| Text.WordLengthOfWord | 04-DeliverProducts/_curation/curate-batch.ts:44 | a word followed by white space is the longest prefix without white space |
| Text.SplitOnSpacesWord | 04-DeliverProducts/_curation/curate-batch.ts:44 | `split(/\s+/)` of text without white space is that text alone |
| Text.SplitOnSpacesAt | 04-DeliverProducts/_curation/curate-batch.ts:44 | `split(/\s+/)` of a word, a run of white space and a rest that does not start with white space is the word followed by the split of the rest |
| Text.SplitJoinSpaces | 04-DeliverProducts/_curation/curate-batch.ts:44 | words without white space, all but the first non-empty, joined by single spaces split back into exactly those words |
| Text.JoinHoldsEach | _curate-batch.ts:1456 | a joined list holds each of its items; it is empty exactly when the list is, if no item is empty |
| Curation.RowCons | _curate-batch.ts:1456 | a cell written as ` c |` after a row prefix is the first of the cells that follow it |
| Curation.PairRow | _curate-batch.ts:1456 | a two-column row is `| a | b |`, the generic row of its two cells |
| Curation.RaciRow | _curate-batch.ts:1483 | a RACI row is the five cells between bars, in order |
| Curation.KpiRow | _curate-batch.ts:1511 | a KPI row is the three cells between bars, in order |
| Curation.PairTable | _curate-batch.ts:1456 | a two-column table is empty exactly when it has no pairs, and holds the row of every pair |
| Curation.RaciTable | _curate-batch.ts:1483 | the RACI table is empty exactly when it has no entries, and holds the row of every entry |
| Curation.KpiTable | _curate-batch.ts:1511 | the KPI table is empty exactly when it has no entries, and holds the row of every entry |
| Curation.RowCells | _curate-batch.ts:1456 | a rendered row splits back into its cells when no cell holds a bar character |
| Curation.RowPieces | _curate-batch.ts:1456 | splitting a row at the bar character gives an empty piece, the padded cells, and another empty piece |
| Curation.CellTextAsJoin | _curate-batch.ts:1456 | the row's text is the padded cells joined by bar characters, with a final bar |
| Curation.PairRowCells | _curate-batch.ts:1456 | a two-column row has exactly its two cells |
| Curation.RaciRowCells | _curate-batch.ts:1483 | a RACI row has exactly its five cells, in order |
| Curation.KpiRowCells | _curate-batch.ts:1511 | a KPI row has exactly its three cells, in order |
| Curation.RowShape | _curate-batch.ts:1456 | every row starts and ends with a bar character, and it holds no newline when its cells hold none |
| Curation.JoinEndsWithLast | _curate-batch.ts:1456 | a joined table ends with its last row |
| Curation.TableLines | _curate-batch.ts:1456 | a table is empty exactly when it has no rows; otherwise it ends with a bar character and splits at newlines back into its rows |
| Curation.PairTableLines | _curate-batch.ts:1456-1508 | a two-column table is empty exactly when it has no pairs; when no cell holds a newline, its lines are the rendered pairs, in order, and it ends with a bar |
| Curation.RaciTableLines | _curate-batch.ts:1483 | the RACI table is empty exactly when it has no entries; when no cell holds a newline, its lines are the rendered rows, in order |
| Curation.KpiTableLines | _curate-batch.ts:1511 | the KPI table is empty exactly when it has no entries; when no cell holds a newline, its lines are the rendered rows, in order |
| Curation.LineEnd | _curate-batch.ts:1434 | `.+$` with the `m` flag runs to the next line terminator or to the end of the text |
| Curation.FindDescriptionLine | _curate-batch.ts:1434 | finds the first position at or after `from` where a line starts with the marker and a non-empty rest of the line follows |
| Curation.ReplaceDescriptionLine | _curate-batch.ts:1433-1436 | with no such line, nothing changes; otherwise the first such line, up to its end, becomes `> ` plus the description, and the line terminator and the rest are kept |
| Curation.ReplaceLazy | _curate-batch.ts:1444-1447 | with no match, nothing changes; otherwise the leftmost start, closed by the nearest end that leaves at least one character between, is replaced |
| Curation.Apply | _curate-batch.ts:1433-1521 | a rewrite whose pattern is absent leaves the text unchanged |
| Curation.ApplyAllSnoc | _curate-batch.ts:1433-1521 | applying the rewrites in turn is one rewrite after another |
| Curation.ApplyAllAbsent | _curate-batch.ts:1433-1521 | a page that holds none of the patterns is not changed by the whole recipe |
| Curation.TableRewriteKeepsHeading | _curate-batch.ts:1456-1460 | after a table rewrite the text holds the section heading exactly when it did before; when the placeholder was there, the table stands right before the heading |
| Curation.RecipeHead | _curate-batch.ts:1433-1474 | the rewrites up to the searches table: seven with an overview and six without; the first rewrites the description line, the second the overview placeholder when an overview is given and the hierarchy block otherwise, the last the searches table |
| Curation.RecipeTail | _curate-batch.ts:1476-1521 | the seven rewrites from the process-flow diagram to the usage block, whatever the overview |
| Curation.Recipe | _curate-batch.ts:1433-1521 | fourteen rewrites with an overview and thirteen without, from the description line to the usage block |
| Curation.OverviewOnlyWhenPresent | _curate-batch.ts:1438-1441 | the recipe has fourteen rewrites when `overview` is present and not empty and thirteen otherwise; the second rewrite replaces the overview placeholder exactly in the first case, and then with the overview text |
| Curation.Step | _curate-batch.ts:1433-1521 | one rewrite, whose result extends the trace of the rewrites applied so far |
| Curation.ApplyAllAppend | _curate-batch.ts:1433-1521 | applying two lists of rewrites one after the other is applying their concatenation |
| Curation.CurateHead | _curate-batch.ts:1433-1474 | the page after the rewrites from the description line to the searches table is those rewrites applied in the script's order |
| Curation.CurateTail | _curate-batch.ts:1476-1521 | the page after the rewrites from the process flow to the usage block is those rewrites applied in the script's order |
| Curation.CurateContent | _curate-batch.ts:1423-1521 | the page after `curateFile` is the recipe's rewrites (thirteen, or fourteen with an overview) applied in the script's order; a page that holds none of the patterns is written back unchanged |

## Left out

- The fetch in `index.ts` (lines 26-28) and its JSON parse are not modelled. The collection is a parameter, and a failed fetch is the empty sequence.
- The `domain` constant in `index.ts` is left out. It is metadata that no query reads.
- File and process I/O is left out: `readFile`, `writeFile`, `existsSync`, `execSync` and `console`. So are the `SKIP` branch of `curateFile`, the `main` loops and the logging loop of the delivery-products script. `CurateContent` takes the page's text and returns the text that would be written.
- The `files` table of curated data is left out. It is a large data literal; any `CuratedData` value can be passed instead.
- The `indexFixes` table and the `ROOT` path constant of `_curate-batch.ts` (lines 23 and 1417-1421) are left out. No function reads `indexFixes`, and `ROOT` only builds the file path for the I/O that is left out.
- `toLowerCase` and `toUpperCase` are modelled on ASCII letters only. Other characters are kept unchanged, with no Unicode case mapping.
- Replacement strings are inserted literally. The `$&`, `$1` and `$$` patterns that `String.prototype.replace` expands are assumed absent from the curated data.
- CurateBatch.ParseFrontmatter: the result stays a map from strings to strings. The `as unknown as Frontmatter` cast converts nothing, so for example `metricsAvailable` stays the string "true".
- CurateBatch.ParseFrontmatter: the line split is at '\n' only, as in the source. A carriage return stays in the line, where `.` does not match it.
- Curation.RowCells and the other row lemmas require that no cell holds '|'. A cell that does breaks the table in the page, and the model states nothing about that case.
- Curation.PairTableLines, Curation.RaciTableLines and Curation.KpiTableLines require that no cell holds '\n'. A cell that does splits a row over two lines of the page, and these lemmas state nothing about that case; `PairTable`, `RaciTable` and `KpiTable` still hold every row.
- CurateBatch.LineValue: its own contract says only that a returned value is one reading the pattern allows, and that nothing is returned only when no reading exists. Which reading is returned is stated by `LineValueAfterQuote` for every rest whose value opens with a quote, and by `LineValueQuoted` and `LineValuePlain` after any run of blanks; `LineValueOfBlanks` gives the value of a rest of white space alone; an unquoted value that ends in a quote is covered only by the general contract.
- ProcessIndex.Search models a missing description as never matching. A missing name cannot occur, because `name` is required by the record type.
- ProcessIndex.GetByCategory: the second test of the source, `hierarchyId === c + '.0'`, is modelled as written. A lemma shows that it adds nothing to the `startsWith(c + '.')` test.
- The `Process` interface is the datatype `ProcessTypes.ProcessRecord`, so that it does not clash with the `Process` level. `object` is the field `obj`, and `@context`, `@type` and `@id` are `atContext`, `atType` and `atId`.
