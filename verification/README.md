# Log analysis core in Dafny

This project models the core of a log-analysis dashboard. Its centre is the
sync-history parser (`LogParser` in `src/services/logParser.ts`). The
parser takes an unordered list of log records from an integration-test run
and does the following:

- sorts the records by time;
- reads the test run's entity context from the first
  `Started testcase --->>` line;
- follows every data synchronisation through its `[EI:<digits>]`
  correlation key, from `Start synchronizing` to `Finished synchronizing`;
- collects the source and transformed XML printed between the marker lines,
  and cuts each document out with `sanitizeXML`;
- emits one record per sync that finishes or is still open at the end of
  the stream;
- derives the entity details and the dashboard counters.

The model also covers the other pure parts of the core:

- the log search of `src/services/logService.ts`: `filterLogs` and
  `getLogsWithContext`;
- the text formatters of `src/utils/formatters.ts`, among them
  `cleanLogMessage`, which strips the Log4j2 layout prefix;
- the filter-option lists of `src/mockData/logs.ts`;
- the dashboard statistics of `src/mockData/testcases.ts`.

## How the model is built

- **Records and strings.** Records are immutable datatypes, strings are
  `seq<char>`, and every operation is a pure function.
- **Mutation.** The parser's mutable object state becomes a `State` value
  that a fold over the sorted records threads through `Step`.
- **`Map`.** A JavaScript `Map` is an insertion-ordered table (module
  `OrderedMap`). It is related to a Dafny `map` by lemmas that cover:
  - `get`, `set` and `delete`;
  - set-in-place on a present key and append on a new key;
  - iteration order.
- **Regular expressions.** Each regular expression the core uses is written
  as a matcher at one index, and `FirstIndex` gives the leftmost-match
  search. The backtracking of each pattern was worked out by hand; the
  comment on each matcher gives the reason why the longest run is the run
  the engine keeps.
- **Time.** `new Date(t).getTime()` is the parameter `timeOf`.
- **Fuzzy search.** The Fuse.js fuzzy search is a parameter.
- **One-decimal rendering.** The `toFixed(1)` rendering is a parameter.

### Modules

| module | file | what it holds |
|---|---|---|
| `Optional` | `optional.dfy` | `Option` and JavaScript's `x \|\| d` on strings |
| `Text` | `text.dfy` | `includes`/`indexOf`/`lastIndexOf`, `trim`, ASCII `toLowerCase`, decimal rendering, `split`/`join`, character string order |
| `Seqs` | `seqs.dfy` | `filter`, counting, first match, subsequences |
| `Sorting` | `sorting.dfy` | the stable numeric-key sort and the default string sort |
| `OrderedMap` | `ordered_map.dfy` | the insertion-ordered `Map` |
| `LogTypes` | `log_types.dfy` | `LogEntry`, `LogLevel`, the `timeOf` parameter |
| `Patterns` | `patterns.dfy` | the regular expressions of the parser |
| `Context` | `context.dfy` | `extractEntityContext`, `parseEntityContext` |
| `Sanitizer` | `sanitizer.dfy` | `sanitizeXML` |
| `Correlator` | `correlator.dfy` | `processLog` and its handlers, `finalizeIncompleteSyncs` |
| `Parser` | `parser.dfy` | `parse`/`parseLogs`, `buildEntityDetails`, `calculateWidgetMetrics` |
| `LogService` | `log_service.dfy` | `filterLogs`, `getLogsWithContext` |
| `Formatters` | `formatters.dfy` | `formatDuration`, `truncateText`, `formatLogClass`, `formatXML` |
| `CleanMessage` | `clean_message.dfy` | `cleanLogMessage` |
| `MockLogs` | `mock_logs.dfy` | `extractUniqueJenkinsServers`, `extractUniqueLogClasses` |
| `DashboardStats` | `dashboard_stats.dfy` | `getDashboardStats` |

### Where the code decides

In these cases the code's behaviour may be unexpected; the model follows
the code.

- **Correlation key.** The key is the digit run of `[EI:<digits>]`, the
  first such tag in the message. A key is never read from a free-text
  `EI <key>` token.
- **Missing or unreadable revision.** The revision is 0, from `|| 0`.
- **Order of the input.** One might expect the output not to depend on the
  order of the input records; that holds only when no two records share a
  timestamp (`Parser.OrderInvariant`). For records with equal times
  the stable sort keeps their input order (`Sorting.TiesKeepInputOrder`), so
  shuffling the input can change the output.
- **Document cut-out.** `sanitizeXML` uses `substring`, which swaps its
  arguments when the first is the larger. So a buffer in which the
  declaration follows the last closing tag does not yield the empty string
  (`Sanitizer.SanitizeSwapsBounds`).
- **Dashboard duration.** The dashboard's execution duration is the last
  record's time minus the first record's time in list order, not in time
  order, so it can be negative (`DashboardStats.DurationFollowsListOrder`).
- **Test-case status.** The "passed with warnings" branch assigns `PASSED`
  again, so there are only two outcomes, `PASSED` and `FAILED`
  (`DashboardStats.StatusByErrors`).
- **`truncateText` with a small `maxLength`.** For a `maxLength` below 3,
  `slice` counts a negative end back from the end of the text, and the
  result is longer than `maxLength` (`Formatters.TruncateLength`).
- **Start without a key.** A start line without a key opens nothing
  (`Correlator.StepLeavesStateAlone`).
- **Start with a key already in use.** A second start with a key already in
  use replaces that sync in place (`Correlator.StartReplacesInPlace`).
- **Undefined buffer.** The source's `sync.sourceEventXML += ...` on an
  `undefined` buffer would write the text `undefined` into the document. The
  model keeps that behaviour (`JsAppend`). The invariant
  `Correlator.WellFormed`, which every step keeps, shows that it is never
  reached.

## Model

| member | source | states |
|---|---|---|
| Optional.OrDefault | src/services/logParser.ts:327 | `x \|\| d` on an optional string: a present non-empty value is kept, an absent or empty one gives the default |
| Text.ToLower | src/services/logService.ts:91-94 | lower-casing keeps the length and maps each character by itself (ASCII letters to lower case, all else unchanged) |
| Text.RunFrom | src/utils/formatters.ts:88 | the greedy run of a character class from an index: every character in it belongs to the class, and the run stops at the end or at a non-member |
| Text.RunFromExact | src/utils/formatters.ts:88 | a run of members followed by a non-member or the end is exactly the greedy run, so a run can be computed from a written line |
| Text.IndexOfFrom | src/services/logParser.ts:260 | `indexOf(p, i)` is the least occurrence at or after `i`, and -1 only when no occurrence follows `i` |
| Text.IndexOf | src/services/logParser.ts:260 | `indexOf(p)` is an occurrence of `p` with none before it, or -1 exactly when `p` does not occur |
| Text.ContainsIff | src/services/logParser.ts:137 | `includes` holds exactly when an occurrence exists at some index |
| Text.ContainsAt | src/services/logParser.ts:137 | an occurrence at any index makes `includes` true |
| Text.LastIndexOfFrom | src/services/logParser.ts:261 | the greatest occurrence at or before a bound, with no occurrence between it and the bound |
| Text.LastIndexOf | src/services/logParser.ts:261 | `lastIndexOf(p)` is an occurrence with none after it, or -1 when `p` does not occur |
| Text.TrimStart | src/utils/formatters.ts:68 | the result does not open with white space and is no longer than the input |
| Text.TrimEnd | src/utils/formatters.ts:68 | the result does not end with white space and is no longer than the input |
| Text.TrimSpec | src/utils/formatters.ts:68 | `trim` gives a string with no white space at either end, and what it cuts off on each side is white space only |
| Text.TrimCut | src/utils/formatters.ts:68 | the cut `trim` makes, as the two positions bounding the result |
| Text.TrimStartCut | src/utils/formatters.ts:68 | trimming the front removes a white-space prefix and nothing else |
| Text.TrimEndCut | src/utils/formatters.ts:68 | trimming the back removes a white-space suffix and nothing else |
| Text.CutCompose | src/utils/formatters.ts:68 | cutting white space off the front and then off the back is one cut of the original |
| Text.TrimTrimmed | src/utils/formatters.ts:68 | the result of `trim` has no white space at either end |
| Text.TrimmedPrefix | src/utils/formatters.ts:68 | a prefix with no leading white space that ends in a non-space character has no white space at either end |
| Text.TrimOfTrimmed | src/utils/formatters.ts:92 | a string with no white space at either end is left unchanged by `trim` |
| Text.TrimIdempotent | src/utils/formatters.ts:68 | trimming twice is trimming once |
| Text.TrimAllSpace | src/services/logService.ts:79 | a keyword of white space only trims to the empty, falsy string |
| Text.DigitChar | src/utils/formatters.ts:23 | a digit value below ten renders as a decimal digit character |
| Text.NatToString | src/utils/formatters.ts:23 | `String(n)` of a natural number is a non-empty string of digits with no leading zero |
| Text.DecimalRoundTrip | src/utils/formatters.ts:23 | reading the rendered digits back as a decimal number gives the number |
| Text.NatToStringInjective | src/utils/formatters.ts:25-26 | distinct numbers render differently |
| Text.Split | src/utils/formatters.ts:59 | `split` on one character gives at least one piece, and no piece contains the separator |
| Text.SplitJoin | src/utils/formatters.ts:59 | joining the pieces of a split with the separator restores the string |
| Text.SplitSingle | src/utils/formatters.ts:59 | a split yields exactly one piece if and only if the separator does not occur |
| Text.SplitLast | src/utils/formatters.ts:60 | the last piece is the text after some occurrence of the separator, or the whole string when there is none |
| Text.SplitEndsWithSeparator | src/utils/formatters.ts:60 | a string that ends in the separator has an empty last piece |
| Text.LexLessIrreflexive | src/mockData/logs.ts:25 | the default string order never puts a string before itself |
| Text.LexLessAsymmetric | src/mockData/logs.ts:25 | the default string order never puts two strings before each other |
| Text.LexLessTransitive | src/mockData/logs.ts:25 | the default string order is transitive |
| Text.LexLessTotal | src/mockData/logs.ts:25 | any two distinct strings are ordered one way or the other |
| Seqs.Filter | src/services/logService.ts:54 | `filter` keeps only elements of the input that pass, keeps every element that passes, and never grows the list |
| Seqs.FilterConcat | src/services/logService.ts:53-76 | filtering a concatenation is concatenating the filtered parts |
| Seqs.FilterFilter | src/services/logService.ts:53-76 | two filters in a row keep exactly what the conjunction of their tests keeps |
| Seqs.FilterAll | src/services/logService.ts:50 | a filter every element passes returns the list unchanged |
| Seqs.CountPermutation | src/mockData/testcases.ts:17-20 | `filter(p).length` is the same for any reordering of the list |
| Seqs.FirstWith | src/services/logParser.ts:110-115 | the loop-and-break search gives the first element that passes, and nothing exactly when none passes |
| Seqs.FilterIsSubsequence | src/services/logService.ts:92-95 | the filtered list is the input with some elements left out and the rest in their order |
| Sorting.InsertBy | src/services/logParser.ts:73-77 | inserting into a sorted list keeps it sorted and adds exactly the one element |
| Sorting.ConsSorted | src/services/logParser.ts:73-77 | a sorted list stays sorted under a head whose key is not larger than the list's first key |
| Sorting.SortBy | src/services/logParser.ts:73-77 | the comparator sort by a numeric key yields a sorted permutation of its input |
| Sorting.SortByMembers | src/services/logParser.ts:73-77 | the sorted list holds exactly the elements of the input |
| Sorting.KeyFilter | src/services/logParser.ts:73-77 | the elements with one given key, taken from the list and all of them |
| Sorting.KeyFilterInsert | src/services/logParser.ts:73-77 | inserting an element puts it in front of the others with its key, so stability is kept one insertion at a time |
| Sorting.SortByStable | src/services/logParser.ts:73-77 | the sort is stable: among elements with equal keys the input order is kept |
| Sorting.SortedHeadLeast | src/services/logParser.ts:73-77 | the head of a sorted list has a key no larger than that of any member |
| Sorting.KeyFilterTail | src/services/logParser.ts:73-77 | dropping the head removes it from the key group it belongs to and from no other group |
| Sorting.SortedHeads | src/services/logParser.ts:73-77 | two sorted lists that agree on the order within every key start with the same element |
| Sorting.KeyFilterHas | src/services/logParser.ts:73-77 | the head's own key group is not empty |
| Sorting.SortedUnique | src/services/logParser.ts:73-77 | two sorted lists that agree on the order within every key are equal |
| Sorting.SortByCharacterized | src/services/logParser.ts:73-77 | any sorted list that keeps the input order within every key is the sort's result, so the sort is the one stable sort |
| Sorting.KeyFilterAtMostOne | src/services/logParser.ts:73-77 | when no two elements share a key, each key group has at most one element |
| Sorting.KeyFilterNone | src/services/logParser.ts:73-77 | a key that no element carries has an empty group |
| Sorting.NonEmptyKeyFilterOfPermutation | src/services/logParser.ts:73-77 | a key group that is not empty stays non-empty under reordering |
| Sorting.SameKeyFilterOfPermutation | src/services/logParser.ts:73-77 | when keys are distinct, reordering leaves every key group unchanged |
| Sorting.SortByPermutation | src/services/logParser.ts:73-77 | when no two elements share a key, the sorted result does not depend on the input order |
| Sorting.SortByEnds | src/services/logParser.ts:395-399 | the first and last elements after sorting carry the least and the greatest key of the input |
| Sorting.PositionOf | src/services/logParser.ts:73-77 | an element of a list is found at some position of any permutation of that list |
| Sorting.TiesKeepInputOrder | src/services/logParser.ts:73-77 | two records with equal keys come out in the order they went in, so for ties the input order shows through |
| Sorting.FirstWithInsert | src/services/logParser.ts:109-116 | after an insertion, the first element that passes is the inserted one exactly when it passes and does not come after the previous first |
| Sorting.EarliestHead | src/services/logParser.ts:109-116 | a passing head with no passing element of smaller key is the earliest |
| Sorting.EarliestShift | src/services/logParser.ts:109-116 | the earliest passing element of the tail stays earliest when the head does not beat it |
| Sorting.FirstAfterSortStep | src/services/logParser.ts:109-116 | the step case of the search after sorting, stated without the sort |
| Sorting.FirstAfterSort | src/services/logParser.ts:109-116 | the first passing element after the stable sort is the earliest passing element of the input, and there is one exactly when the input has one |
| Sorting.EarliestUnique | src/services/logParser.ts:109-116 | there is only one earliest passing position |
| Sorting.InsertByMembers | src/services/logParser.ts:73-77 | each element after an insertion is the new one or an old one |
| Sorting.InsertByDistinct | src/services/logService.ts:140-142 | inserting an element with a new id into a list of distinct ids keeps the ids distinct |
| Sorting.SortByDistinct | src/services/logService.ts:140-142 | sorting keeps distinct ids distinct |
| Sorting.InsertString | src/mockData/logs.ts:25 | inserting a string adds exactly that string |
| Sorting.SortStrings | src/mockData/logs.ts:25 | the default `sort()` on strings yields a permutation of its input |
| Sorting.NotLessTrans | src/mockData/logs.ts:25 | the "not before" relation of the string order is transitive |
| Sorting.InsertStringSorted | src/mockData/logs.ts:25 | inserting into an ordered list of strings keeps it ordered |
| Sorting.SortStringsSorted | src/mockData/logs.ts:25 | the default sort orders strings by character order |
| Sorting.InsertStringDistinct | src/mockData/logs.ts:25 | inserting a new string into a duplicate-free list keeps it free of duplicates |
| Sorting.ConsDistinct | src/mockData/logs.ts:25 | a duplicate-free list stays so under a head that is not in it |
| Sorting.SortStringsDistinct | src/mockData/logs.ts:25 | sorting keeps a list free of duplicates |
| Sorting.SortStringsStrict | src/mockData/logs.ts:25 | sorting distinct strings gives a strictly increasing list |
| OrderedMap.Keys | src/services/logParser.ts:339 | the keys of the table in iteration order, one per entry |
| OrderedMap.Get | src/services/logParser.ts:358 | `get` finds a value exactly when the key is present, and that value is stored under the key |
| OrderedMap.Set | src/services/logParser.ts:195 | `set` keeps the key order when the key is present and appends the key when it is new |
| OrderedMap.Delete | src/services/logParser.ts:335 | `delete` removes the key and shrinks the table when the key was present |
| OrderedMap.GetIsLookup | src/services/logParser.ts:358 | reading the table is lookup in the map the table stands for |
| OrderedMap.SetIsUpdate | src/services/logParser.ts:195 | `set` updates the map at its key and nowhere else |
| OrderedMap.DeleteIsRemove | src/services/logParser.ts:335 | `delete` removes its key from the map and nothing else |
| OrderedMap.ToMapDomain | src/services/logParser.ts:69 | the map's keys are exactly the table's keys |
| OrderedMap.SetInPlace | src/services/logParser.ts:195 | `set` on a present key changes only that entry's value and keeps every position |
| OrderedMap.SetAppends | src/services/logParser.ts:195 | `set` on a new key appends the entry |
| OrderedMap.DeleteKeepsOthers | src/services/logParser.ts:335 | `delete` keeps the other entries in their order |
| OrderedMap.SetKeepsUnique | src/services/logParser.ts:195 | `set` never duplicates a key |
| OrderedMap.DeleteKeepsUnique | src/services/logParser.ts:335 | `delete` never duplicates a key |
| OrderedMap.DeleteSubset | src/services/logParser.ts:335 | what remains after `delete` are old entries under other keys |
| OrderedMap.GetSet | src/services/logParser.ts:195 | after `set`, reading gives the new value at its key and the old value at any other key |
| OrderedMap.GetDelete | src/services/logParser.ts:335 | after `delete`, reading gives nothing at its key and the old value at any other key |
| OrderedMap.SetEntries | src/services/logParser.ts:195 | every entry after `set` is the new one or an old one |
| OrderedMap.DeleteAfterSet | src/services/logParser.ts:335 | `set` then `delete` of one key is `delete` alone |
| Patterns.FirstIndex | src/services/logParser.ts:184 | the regular-expression search: the first index where the pattern matches, and none exactly when it matches nowhere |
| Patterns.FirstIndexAt | src/services/logParser.ts:184 | the search stops at the first index that matches |
| Patterns.KeyAt | src/services/logParser.ts:184 | a match of `\[EI:(\d+)\]` at an index captures a non-empty digit run, and the full tag stands there |
| Patterns.CorrelationKey | src/services/logParser.ts:356-359 | a message has a key exactly when the tag matches somewhere; the key is digits and the message contains the tag |
| Patterns.KeyOfTaggedMessage | src/services/logParser.ts:184 | a message carrying `[EI:k]` with no `[` before it has key `k` |
| Patterns.KeyAtTagged | src/services/logParser.ts:184 | the tag written at an index is matched there with its digits |
| Patterns.CommaFrom | src/services/logParser.ts:120 | the end of the `[^,]+` group: a comma or the end of the message, with no comma before it |
| Patterns.IndexOfComma | src/services/logParser.ts:120 | the comma search agrees with `indexOf(',')` |
| Patterns.TrimNoComma | src/services/logParser.ts:120 | trimming comma-free text gives trimmed, comma-free text |
| Patterns.ValueAt | src/services/logParser.ts:120 | `\s*([^,]+)` matches exactly when a non-comma character follows, and its trimmed group is trimmed and comma-free |
| Patterns.ValueAtWritten | src/services/logParser.ts:120 | text written up to a comma or the end is read back trimmed |
| Patterns.FieldAt | src/services/logParser.ts:188 | a field matched at an index starts with the field's name and yields a trimmed, comma-free value |
| Patterns.Field | src/services/logParser.ts:312-314 | a field is found exactly when it matches at some index, and never when its name is absent |
| Patterns.FieldOr | src/services/logParser.ts:187-189 | `field \|\| d`: the default, or the non-empty value of the field; the default whenever the name is absent |
| Patterns.TrimAfterSpace | src/services/logParser.ts:120 | trimming drops the one space written before a value |
| Patterns.ValueAfterName | src/services/logParser.ts:120 | a space, a value and a comma or the end read back as the value |
| Patterns.FieldAtDirect | src/services/logParser.ts:120 | a name directly followed by a value matches that value |
| Patterns.FieldAtColon | src/services/logParser.ts:188 | a name followed by ` :` and a value matches that value |
| Patterns.FieldAtWritten | src/services/logParser.ts:188 | a field written at an index matches there with its value |
| Patterns.FieldRoundTrip | src/services/logParser.ts:187-189 | a field written at the name's first occurrence, as a trimmed non-empty comma-free value, is read back as that value |
| Patterns.RevisionAt | src/services/logParser.ts:191-193 | a revision match captures a non-empty digit run after the name |
| Patterns.Revision | src/services/logParser.ts:191-193 | the revision is 0 when the pattern matches nowhere, in particular when the name is absent |
| Patterns.RevisionAtRuns | src/services/logParser.ts:191-193 | the revision match computed from the white-space and digit runs after the name |
| Patterns.RevisionText | src/services/logParser.ts:191-193 | the runs of a written `: <digits>` after the name |
| Patterns.RevisionRuns | src/services/logParser.ts:191-193 | the digit run of a written revision is exactly its digits |
| Patterns.RevisionAtWritten | src/services/logParser.ts:191-193 | a revision number written after the name is matched as its decimal digits |
| Patterns.RevisionRoundTrip | src/services/logParser.ts:191-193 | a revision number written at the name's first occurrence is read back as that number |
| Context.ContextField | src/services/logParser.ts:119-120 | a context field is either its default or the field's matched value; a missing or blank field gives the default |
| Context.DefaultsAreGood | src/services/logParser.ts:119-127 | `UNKNOWN` and `DEFAULT` are values a field can hold |
| Context.ContextDefaults | src/services/logParser.ts:118-130 | a parsed context holds only good values; a missing or blank system or entity is `UNKNOWN`, and a missing or blank project is `DEFAULT` |
| Context.WrittenField | src/services/logParser.ts:119-120 | a field written at its first occurrence reads back as its value |
| Context.ContextRoundTrip | src/services/logParser.ts:118-130 | a context line that writes all six fields parses back to exactly those fields |
| Context.ExtractEntityContext | src/services/logParser.ts:109-116 | there is no context exactly when no record carries the marker; otherwise it is the context of the first record that does |
| Context.FirstContextLine | src/services/logParser.ts:109-116 | the first matching record found by the search is the first marker record |
| Context.FirstContextIndex | src/services/logParser.ts:109-116 | the position of that first marker record |
| Sanitizer.ClassAttr | src/services/logParser.ts:274 | a `class="..."` match runs from the literal to the next quote |
| Sanitizer.TextLogClass | src/services/logParser.ts:275 | a `"text-log-\w+">` match is the literal, word characters and `">` |
| Sanitizer.TagGap | src/services/logParser.ts:276 | a `>\s+<` match is a `>`, white space and a `<` |
| Sanitizer.Clamp | src/services/logParser.ts:267-270 | `substring` clamps each argument into the string's bounds |
| Sanitizer.ReplaceAllPrefix | src/services/logParser.ts:273-276 | a global `replace` copies a prefix on which its pattern cannot start a match |
| Sanitizer.ReplaceAllUnmatched | src/services/logParser.ts:273-276 | where no match starts, `replace` copies the character and moves on |
| Sanitizer.ReplaceAllNoMatch | src/services/logParser.ts:273-276 | a string in which no match starts is left as it is |
| Sanitizer.NoMatchInTail | src/services/logParser.ts:273-276 | no match starts in the tail of a string in which no match starts |
| Sanitizer.ReplaceAllTagTail | src/services/logParser.ts:273-276 | a match that takes the first character of the closing tag puts it back |
| Sanitizer.EndsWithLastThen | src/services/logParser.ts:273-276 | a replacement ending in the tag's first character, followed by the rest of the tag, ends with the tag |
| Sanitizer.EndsWithPrepend | src/services/logParser.ts:273-276 | text before a string ending in the tag does not change its ending |
| Sanitizer.EndsWithDrop | src/services/logParser.ts:273-276 | dropping a prefix that does not reach the tag keeps the ending |
| Sanitizer.ReplaceAllSuffix | src/services/logParser.ts:273-276 | a closing tag at the end survives a global `replace` whose pattern cannot start inside it and spares it |
| Sanitizer.LiteralTagsWellFormed | src/services/logParser.ts:225-246 | `</SourceXML>` and `</rootelement>` are tags of the shape the lemmas above need |
| Sanitizer.ClassAttrSparesTag | src/services/logParser.ts:274 | the `class="..."` rewrite cannot touch a closing tag |
| Sanitizer.TextLogClassSparesTag | src/services/logParser.ts:275 | the `text-log-` rewrite cannot touch a closing tag |
| Sanitizer.TagGapSparesTag | src/services/logParser.ts:276 | the gap rewrite can take only the tag's `<` and puts it back |
| Sanitizer.MatchersSkipDeclaration | src/services/logParser.ts:274-276 | none of the three patterns can start a match on a character of `<?xml` |
| Sanitizer.StageKeepsEnds | src/services/logParser.ts:274-276 | one rewrite keeps the leading declaration and the trailing closing tag |
| Sanitizer.TrimKeepsEnds | src/services/logParser.ts:277 | the final `trim` leaves unchanged a text that opens with the declaration and ends with the tag |
| Sanitizer.CleanKeepsEnds | src/services/logParser.ts:273-277 | the whole clean-up keeps the declaration at the front and the closing tag at the end |
| Sanitizer.SanitizeMissing | src/services/logParser.ts:258-265 | empty input, no declaration or no closing tag gives the empty string |
| Sanitizer.DeclarationBeforeTag | src/services/logParser.ts:260-261 | a declaration before a closing tag cannot overlap it |
| Sanitizer.SliceShape | src/services/logParser.ts:267-270 | the cut runs from the declaration through the end of the tag |
| Sanitizer.SanitizeExtracts | src/services/logParser.ts:257-278 | when the declaration precedes the last closing tag, the result opens with `<?xml` and ends with that closing tag |
| Sanitizer.SwappedSampleIndices | src/services/logParser.ts:260-261 | in a buffer where the tag precedes the declaration, the tag is found at 0 and the declaration at 15 |
| Sanitizer.CleanPlainText | src/services/logParser.ts:273-277 | the clean-up of plain text amounts to a trim |
| Sanitizer.SanitizeSwapsBounds | src/services/logParser.ts:267-270 | because `substring` swaps its arguments, a declaration after the last closing tag yields the text between them, not the empty string |
| Correlator.FirstMarker | src/services/logParser.ts:134-178 | the `if` chain picks the first marker in dispatch order that the test accepts, and none exactly when it accepts no marker |
| Correlator.Classify | src/services/logParser.ts:134-178 | a message goes to the handler of the first marker it contains, and to XML collection exactly when it contains none |
| Correlator.ActiveFor | src/services/logParser.ts:356-359 | `getActiveSync` finds a sync exactly when the message has a key and a sync is stored under it |
| Correlator.Leftovers | src/services/logParser.ts:339-349 | one record per active sync, in table order, each finished at its finish time or else its start time |
| Correlator.GetGood | src/services/logParser.ts:195 | every stored sync is a good entry of the invariant |
| Correlator.PutGood | src/services/logParser.ts:195 | writing back a good entry keeps the invariant |
| Correlator.UpdateGood | src/services/logParser.ts:211-315 | a mutation that keeps the `ei`, stays unfinished and has the buffer it collects into keeps the invariant |
| Correlator.StartGood | src/services/logParser.ts:183-202 | a start line keeps the invariant |
| Correlator.XmlBoundaryGood | src/services/logParser.ts:211-250 | the four XML boundary handlers keep the invariant |
| Correlator.CollectGood | src/services/logParser.ts:281-302 | collecting a body line keeps the invariant |
| Correlator.CreatedGood | src/services/logParser.ts:307-315 | recording the created ids keeps the invariant |
| Correlator.FinishGood | src/services/logParser.ts:319-336 | a finish line keeps the invariant |
| Correlator.DispatchWellFormed | src/services/logParser.ts:134-178 | every handler keeps the invariant |
| Correlator.StepWellFormed | src/services/logParser.ts:134-178 | every line keeps each sync under its own `ei`, unfinished and with the buffer it collects into |
| Correlator.RunWellFormed | src/services/logParser.ts:87-89 | the loop over the records keeps the invariant |
| Correlator.InitialWellFormed | src/services/logParser.ts:69-70 | the empty state satisfies the invariant |
| Correlator.DispatchUnkeyed | src/services/logParser.ts:356-359 | no handler changes anything for a line without a key |
| Correlator.DispatchInactive | src/services/logParser.ts:356-359 | no handler but start changes anything for a key with no active sync |
| Correlator.StepLeavesStateAlone | src/services/logParser.ts:134-178 | a line without a key, a line whose key names no sync (unless it opens one), and an `About to tranform` line change nothing |
| Correlator.StartStep | src/services/logParser.ts:183-202 | a keyed start line sets a new sync under its key |
| Correlator.StartOpens | src/services/logParser.ts:183-202 | a keyed start line opens a fresh sync under its key, replacing any old one, and touches no other key and no emitted record |
| Correlator.StartKeyOrder | src/services/logParser.ts:195 | the key of a start line keeps its place in the table, or goes last when new |
| Correlator.StartReplacesInPlace | src/services/logParser.ts:195-201 | a restart under a key in use replaces that sync where it stands and leaves every other entry in place |
| Correlator.NewSyncFields | src/services/logParser.ts:183-202 | a new sync has the line's key and timestamp, entity `UNKNOWN` when the name is absent, revision 0 when absent, no XML and no finish time |
| Correlator.ActiveForOf | src/services/logParser.ts:356-359 | a keyed line finds the sync stored under its key |
| Correlator.CollectXmlAppends | src/services/logParser.ts:281-302 | a body line appends the message and a newline to the buffer being collected, and does nothing when idle |
| Correlator.GetPut | src/services/logParser.ts:195 | writing a sync back changes that key only |
| Correlator.StepMarkerHandlers | src/services/logParser.ts:134-178 | an XML marker line or a created line is handled by the handler its marker names |
| Correlator.XmlStartOpensBuffer | src/services/logParser.ts:211-238 | an opening marker puts its sync into source or transformed collection with an empty buffer, changes nothing else of that sync, and leaves the other syncs and the emitted records alone |
| Correlator.SanitizedIsDocument | src/services/logParser.ts:257-278 | the cut-out document opens with `<?xml` and ends with the closing tag when the declaration comes before the last tag, and is empty when either is missing |
| Correlator.XmlEndStoresDocument | src/services/logParser.ts:219-278 | a closing marker ends collection and stores exactly what `sanitizeXML` makes of the collected buffer: opening with `<?xml` and ending with the tag when the declaration precedes the last tag, empty when either is missing, and the swapped `substring` range when the declaration follows the last tag (see `Sanitizer.SanitizeSwapsBounds`); it changes nothing else of that sync and leaves the other syncs and the emitted records alone |
| Correlator.CreatedRecordsIds | src/services/logParser.ts:307-315 | a created line stores the line's `internal id:` and `display id:` values on its sync, and the display id, or `UNKNOWN` without one, is the target the sync is reported with |
| Correlator.CollectAppends | src/services/logParser.ts:281-302 | a line without markers appends exactly the message and a newline to the buffer its sync collects, and changes nothing else |
| Correlator.FinishEffect | src/services/logParser.ts:319-336 | finishing deletes the sync and emits its record |
| Correlator.FinishEmits | src/services/logParser.ts:319-336 | a finish line emits its sync, finished at the line's time and aimed at `displayId` or `UNKNOWN`, removes it and keeps the other syncs |
| Correlator.FinishStep | src/services/logParser.ts:319-336 | a finish line for an active sync is the finish handler's delete-and-emit |
| Correlator.StepDispatches | src/services/logParser.ts:134-178 | a line is handled by the handler that its classification names |
| Correlator.GetDeleteAll | src/services/logParser.ts:335 | after deletion the key is gone and the others read as before |
| Correlator.StartOther | src/services/logParser.ts:183-202 | a start line leaves the syncs of other keys alone |
| Correlator.XmlBoundaryOther | src/services/logParser.ts:211-250 | the XML boundary handlers leave the syncs of other keys alone |
| Correlator.CollectOther | src/services/logParser.ts:281-302 | collection leaves the syncs of other keys alone |
| Correlator.CreatedOther | src/services/logParser.ts:307-315 | recording created ids leaves the syncs of other keys alone |
| Correlator.FinishOther | src/services/logParser.ts:319-336 | finishing leaves the syncs of other keys alone |
| Correlator.DispatchOtherKeys | src/services/logParser.ts:134-178 | no handler touches the sync of another key |
| Correlator.OtherKeysUntouched | src/services/logParser.ts:134-178 | a line changes only the sync its own key names |
| Correlator.PutPresent | src/services/logParser.ts:195 | writing back a present sync keeps the count of syncs |
| Correlator.GetPresent | src/services/logParser.ts:358 | a sync that is found is under a present key |
| Correlator.XmlBoundarySize | src/services/logParser.ts:211-250 | the boundary handlers neither add nor emit syncs |
| Correlator.CollectSize | src/services/logParser.ts:281-302 | collection neither adds nor emits syncs |
| Correlator.CreatedSize | src/services/logParser.ts:307-315 | recording ids neither adds nor emits syncs |
| Correlator.StartSize | src/services/logParser.ts:183-202 | a start line adds at most one sync, and only when it carries a key |
| Correlator.FinishSize | src/services/logParser.ts:319-336 | finishing adds no sync and only extends the emitted records |
| Correlator.DispatchSize | src/services/logParser.ts:134-178 | each line adds at most one sync, only as a keyed start, and never changes emitted records |
| Correlator.RunSize | src/services/logParser.ts:87-89 | over a run the syncs grow by at most one per keyed start line, and emitted records are never changed or dropped |
| Correlator.FinalizeEmitsLeftovers | src/services/logParser.ts:338-352 | at the end every active sync is emitted in table order, as finished when it started and with whatever XML it holds, and the table is emptied |
| Parser.FirstContextOfSorted | src/services/logParser.ts:109-116 | the context is read from the first marker record of the sorted list, and is missing exactly when there is none |
| Parser.ParseNullIff | src/services/logParser.ts:82-85 | the parser returns `null` exactly when no record carries the context marker |
| Parser.ContextFromEarliest | src/services/logParser.ts:73-116 | the context comes from the earliest marker record; among records with the same time, from the one first in the input |
| Parser.SyncCount | src/services/logParser.ts:87-97 | the emitted syncs are ordered by start time and no more numerous than keyed start lines |
| Parser.SyncListShape | src/services/logParser.ts:93-104 | the result's sync list is sorted by start time, has at most one entry per keyed start line, and is the list in the entity details |
| Parser.CountBound | src/services/logParser.ts:390-393 | a filtered count never exceeds the list's length |
| Parser.MetricsShape | src/services/logParser.ts:383-408 | successes and failures split the total, successes are the syncs whose finish differs from their start, the error count counts `ERROR` messages, and the execution time is never negative and is 0 for at most one record |
| Parser.ResultParts | src/services/logParser.ts:82-105 | the result's parts are the sync list, the metrics and the details of the sorted records |
| Parser.ExecutionTimeIsSpan | src/services/logParser.ts:395-399 | with more than one record, the execution time is the latest timestamp of the input minus the earliest |
| Parser.SpanOfSorted | src/services/logParser.ts:395-399 | the metrics' execution time spans the input's earliest and latest times |
| Parser.Span | src/services/logParser.ts:395-399 | the execution time over the sorted records is the difference between the input's extreme times |
| Parser.EntityDetailsShape | src/services/logParser.ts:363-379 | the details copy the six context fields and take ids and creation time from the earliest sync, falling back to `UNKNOWN` and `''` |
| Parser.DetailsOf | src/services/logParser.ts:363-379 | the details of a start-ordered sync list, with the earliest creation time |
| Parser.OrderInvariant | src/services/logParser.ts:73-105 | when no two records share a timestamp, the result does not depend on the order of the input |
| LogService.NarrowIsFilter | src/services/logService.ts:53-76 | a stage, given or not, filters by "parameter absent or test passes" |
| LogService.FilterSame | src/services/logService.ts:53-76 | filters with equal tests give equal results |
| LogService.NarrowAfter | src/services/logService.ts:53-76 | a stage after a filter is one filter by the conjunction |
| LogService.StructuredIsOneFilter | src/services/logService.ts:53-76 | the level, time, class and server stages keep exactly the records that pass all of them |
| LogService.ExactIsOneFilter | src/services/logService.ts:49-99 | in exact mode, or with no keyword, `filterLogs` keeps exactly the records that pass every given filter, in input order |
| LogService.FilterLogsSound | src/services/logService.ts:49-99 | exact mode keeps an order-preserving selection of the input in which every record passes every given filter, and keeps every record that passes them all |
| LogService.BlankKeywordIgnored | src/services/logService.ts:79 | a missing or blank keyword filters nothing beyond the structured filters, whatever the fuzzy flag says |
| LogService.FindIndex | src/services/logService.ts:118 | `findIndex` returns -1 or a position within the list |
| LogService.FindIndexSpec | src/services/logService.ts:118 | `findIndex` finds the first position holding the id, and gives -1 exactly when no position does |
| LogService.EntryIdsAppend | src/services/logService.ts:129-134 | appending a row adds its id to the listed ids |
| LogService.AddRangeGrows | src/services/logService.ts:126-136 | the inner loop only appends, and each row it appends shows a record from its index range |
| LogService.AddRangeTidy | src/services/logService.ts:126-136 | the inner loop keeps every id once with the right flags, and emits every id of its range |
| LogService.FromWindowGrow | src/services/logService.ts:117-137 | a row from the windows of some matched records is from the windows of more of them |
| LogService.AddWindowSound | src/services/logService.ts:117-137 | the rows added for a matched record come from its window |
| LogService.SoundExtend | src/services/logService.ts:117-137 | appending rows from the windows keeps every row from the windows |
| LogService.SoundGrow | src/services/logService.ts:117-137 | rows from earlier windows stay from the windows |
| LogService.WindowRow | src/services/logService.ts:122-126 | a row of a matched record's clipped range lies in its window |
| LogService.AddWindowComplete | src/services/logService.ts:117-137 | after a matched record is processed its whole window is emitted |
| LogService.CompleteExtend | src/services/logService.ts:117-137 | covering a new window extends the coverage to the new matched record |
| LogService.AddOneSpec | src/services/logService.ts:117-137 | one matched record keeps the bookkeeping and the coverage |
| LogService.AddMatchesSpec | src/services/logService.ts:117-137 | the loop over the matched records keeps the bookkeeping and covers every window it has processed |
| LogService.AllMatchesSpec | src/services/logService.ts:113-137 | the whole loop covers the windows of all matched records |
| LogService.ContextRows | src/services/logService.ts:106-145 | rows list each id once in timestamp order, are matched exactly when their id was matched, lie in a matched record's window, and every id in such a window is listed |
| LogService.MatchesListed | src/services/logService.ts:117-134 | with non-negative widths every matched record found in the list appears as a matched row |
| Formatters.DurationMillis | src/utils/formatters.ts:23 | below a second the text is the number of milliseconds, read back as written, followed by `ms` |
| Formatters.DurationMinutes | src/utils/formatters.ts:25 | from a minute to an hour the text is the whole minutes and the remaining whole seconds, below 60 |
| Formatters.DurationHours | src/utils/formatters.ts:26 | from an hour on the text is the whole hours and the remaining whole minutes, below 60 |
| Formatters.DivModUnique | src/utils/formatters.ts:25-26 | floor division and remainder are the unique quotient and remainder |
| Formatters.SliceTo | src/utils/formatters.ts:52 | `slice(0, end)` takes a prefix of length `end` clipped to the string, counting a negative end back from the end |
| Formatters.TruncateText | src/utils/formatters.ts:50-53 | text within the limit is unchanged; longer text becomes a prefix of itself followed by `...`, exactly `maxLength` long when the limit is at least 3 |
| Formatters.TruncateLength | src/utils/formatters.ts:50-53 | with a limit of at least 3 the result fits; below 3 a long text comes back longer than the limit |
| Formatters.LogClassLastSegment | src/utils/formatters.ts:58-61 | a name without `.` or ending in `.` is kept; otherwise the result is the non-empty text after the last `.` |
| Formatters.LogClassIdempotent | src/utils/formatters.ts:58-61 | formatting a formatted class name changes nothing |
| Formatters.FormatXmlSpec | src/utils/formatters.ts:66-69 | the result has no white space at either end, is the input with only white space cut from each end, and is idempotent |
| CleanMessage.MatchPiece | src/utils/formatters.ts:88 | one piece of the prefix pattern consumes a front part of the text |
| CleanMessage.MatchPieces | src/utils/formatters.ts:88 | a sequence of pieces consumes a front part of the text |
| CleanMessage.SkipMetadata | src/utils/formatters.ts:88 | the repeated metadata items consume a front part of the text |
| CleanMessage.MatchPieceSuffix | src/utils/formatters.ts:88 | what a piece leaves is a tail of its input |
| CleanMessage.MatchPiecesSuffix | src/utils/formatters.ts:88 | what the pieces leave is a tail of their input |
| CleanMessage.SkipMetadataSuffix | src/utils/formatters.ts:88 | what the metadata items leave is a tail of their input |
| CleanMessage.CleanSpec | src/utils/formatters.ts:76-93 | the empty message comes back unchanged; otherwise the result is a trimmed tail of the message, and the whole message trimmed when the prefix is absent |
| CleanMessage.NoDateOnlyTrimmed | src/utils/formatters.ts:87-92 | a message that does not open with a date is only trimmed |
| CleanMessage.MatchFit | src/utils/formatters.ts:88 | a piece takes exactly the text written for it from the front |
| CleanMessage.MatchStep | src/utils/formatters.ts:88 | matching one piece of a sequence leaves the rest for the pieces after it |
| CleanMessage.BodyStart | src/utils/formatters.ts:88 | rendered metadata opens with `[`, and is just the text when there is none |
| CleanMessage.MetaItemMatches | src/utils/formatters.ts:88 | one rendered metadata item is one match of the repeated item |
| CleanMessage.NoMetadata | src/utils/formatters.ts:88 | text that does not open with `[` holds no metadata item |
| CleanMessage.SkipOneItem | src/utils/formatters.ts:88 | a rendered item is skipped as a whole |
| CleanMessage.MetadataSkipped | src/utils/formatters.ts:88 | all rendered metadata items are skipped, leaving exactly the text |
| CleanMessage.MatchConcat | src/utils/formatters.ts:88 | matching a concatenation of pieces is matching the first part, then the second on what is left |
| CleanMessage.StampMatches | src/utils/formatters.ts:88 | a written date and time with zone offset are matched by the time-stamp pieces |
| CleanMessage.LevelMatches | src/utils/formatters.ts:88 | a written level is matched by the level pieces |
| CleanMessage.ThreadMatches | src/utils/formatters.ts:88 | a written `[thread]` is matched by the thread pieces |
| CleanMessage.LoggerMatches | src/utils/formatters.ts:88 | a written logger name is matched by the logger pieces |
| CleanMessage.DashMatches | src/utils/formatters.ts:88 | a written ` - ` is matched by the dash pieces |
| CleanMessage.UpToLevel | src/utils/formatters.ts:88 | a well-formed line is matched through its level |
| CleanMessage.UpToThread | src/utils/formatters.ts:88 | a well-formed line is matched through its thread |
| CleanMessage.UpToLogger | src/utils/formatters.ts:88 | a well-formed line is matched through its logger |
| CleanMessage.HeaderMatches | src/utils/formatters.ts:88 | the prefix pattern of a well-formed line is matched up to its metadata |
| CleanMessage.MatchThen | src/utils/formatters.ts:88 | once a first part has matched, the concatenation matches as the second part does on the rest |
| CleanMessage.CleanRoundTrip | src/utils/formatters.ts:76-93 | cleaning a line written in the Log4j2 layout gives back exactly its text |
| MockLogs.CollectSpec | src/mockData/logs.ts:19-24 | the `Set` collects each accepted value once, and exactly those not already seen |
| MockLogs.SortedCollect | src/mockData/logs.ts:18-26 | the sorted collection is strictly increasing and holds exactly the accepted values of the logs |
| MockLogs.JenkinsServersSpec | src/mockData/logs.ts:18-26 | the server list is strictly increasing and holds exactly the servers, other than empty and `UNKNOWN`, that some log names |
| MockLogs.LogClassesSpec | src/mockData/logs.ts:31-39 | the class list is strictly increasing and holds exactly the non-empty classes that some log names |
| MockLogs.StrictlySortedUnique | src/mockData/logs.ts:25 | two strictly increasing lists with the same members are equal |
| MockLogs.JenkinsServersCharacterized | src/mockData/logs.ts:18-26 | any strictly increasing list of exactly the known servers is the server list |
| MockLogs.LogClassesCharacterized | src/mockData/logs.ts:31-39 | any strictly increasing list of exactly the named classes is the class list |
| MockLogs.OptionListsOrderFree | src/mockData/logs.ts:18-39 | reordering or repeating logs leaves both option lists unchanged |
| DashboardStats.Levels | src/mockData/testcases.ts:17-20 | the levels of the logs, one per log in list order |
| DashboardStats.StatusOf | src/mockData/testcases.ts:23-25 | the status is `FAILED` exactly above five errors and `PASSED` otherwise |
| DashboardStats.GetDashboardStats | src/mockData/testcases.ts:14-42 | the total is the number of logs, the four counts fit within it, the status fails exactly above five errors, and no logs give all zeros and `PASSED` |
| DashboardStats.LevelCountIsMultiplicity | src/mockData/testcases.ts:17-20 | each level count is how often that level occurs |
| DashboardStats.LevelCountsPartition | src/mockData/testcases.ts:17-20 | the five level counts add up to the number of logs |
| DashboardStats.StatsCounts | src/mockData/testcases.ts:17-34 | the counts are the multiplicities of ERROR, WARN, INFO and DEBUG, and with TRACE they make up the total |
| DashboardStats.StatusByErrors | src/mockData/testcases.ts:23-25 | a test case fails exactly when more than five of its logs are errors and passes otherwise |
| DashboardStats.StatsOrderFree | src/mockData/testcases.ts:17-25 | counts, total and status do not depend on the order of the logs |
| DashboardStats.DurationOfOrderedLogs | src/mockData/testcases.ts:27-31 | on logs in time order the duration spans every log's time and is never negative |
| DashboardStats.DurationFollowsListOrder | src/mockData/testcases.ts:27-31 | the duration follows list order: two logs listed latest first give a negative duration |

## Left out

- Rendering and network code is not modelled:
  - the React pages, charts, chat UI and navigation;
  - `fetchLogs`, the ELK/OpenSearch fetch behind `getLogsForTestcase`, `getFilterOptions`, `initializeUniqueLists` and the module-level lists it fills.
  These are I/O and presentation, so the log list is a parameter of every operation here.
- The other service modules are not modelled: `elkLogService`, `dashboardService`, `aiService`, and `aiResponses` with its `Math.random` and `setTimeout`. They are I/O, timers or randomness.
- The `highlightXML` presentation code of the XML modal is not modelled, because it is display code.
- No general regular-expression engine is modelled. Each pattern the core uses is a hand-written matcher (module `Patterns`, `Sanitizer` and `CleanMessage`), and only those patterns are covered.
- Asynchrony is dropped: `async`/`await` and promises do not change the results modelled here.
- The Fuse.js fuzzy keyword branch of `filterLogs` is the parameter `fuzzy`. It is a third-party library, and no property is stated about its results.
- `new Date(t).getTime()` is the parameter `timeOf`, so the model does not cover parsing ISO timestamps or the `NaN` an unparsable timestamp yields. `timeOf` gives integers.
- The `toFixed(1)` seconds branch of `formatDuration` is the parameter `oneDecimal`, because it is a floating-point rendering.
- Fractional and non-finite `ms`, and the exponent notation JavaScript uses above 10^21, are not modelled.
- `formatTimestamp`, `formatRelativeTime` and `formatNumber` are not modelled, because they depend on date-fns and locale formatting.
- `markAboutToTransform` and the `AWAIT_SOURCE_START` state are not modelled. They are unreachable, because `processLog` never calls the handler. The `About to tranform New Values` branch is modelled as the no-op it is.
- `Text.ToLower`: folds ASCII letters only, because full Unicode case mapping is a table outside the model.
- `Formatters.TruncateText`: its length test and result length count characters (Unicode scalar values), not the UTF-16 code units of JavaScript's `text.length`. The two agree only on text inside the Basic Multilingual Plane; a character outside it counts once here and twice in JavaScript, so two such characters with a `maxLength` of 3 are kept whole here while JavaScript returns `...`.
- `Formatters.SliceTo`: cut positions count characters, not the UTF-16 code units `slice` counts, so it agrees with JavaScript only on text inside the Basic Multilingual Plane.
- `Formatters.TruncateLength`: its length bounds are in characters, not UTF-16 code units, for the same reason.
- `Text.LexLess`: compares characters as Dafny `char` values, not UTF-16 code units. The two orders agree on the Basic Multilingual Plane.
- `Patterns.Revision`: is an unbounded natural number. `Number` of a digit run longer than 15 digits loses precision in JavaScript.
- `LogService.ContextRows`: states the result for integral context widths. Fractional `contextBefore` and `contextAfter` are not modelled.
- `Parser.SyncListShape`: bounds the number of syncs by the keyed start lines rather than giving the exact count, because a restart under a key in use replaces an open sync without emitting it.
- `Parser.OrderInvariant`: requires distinct timestamps, because for equal timestamps the input order shows through the stable sort.
- The optional `threadName` and `lineNumber` fields of `LogEntry` are left out, because no modelled operation reads them.
- The mock fixture arrays of `src/mockData` (for example `src/mockData/testLogs.ts`) are not modelled. Their messages do not use the `[EI:<digits>]` and `Entity Id :` forms the parser expects, so the parser emits no syncs for them. For the same reason the assertions of the console test file `src/services/logParser.test.ts` are not a description of the code.
