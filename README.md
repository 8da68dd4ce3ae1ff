# Register dump comparison, modelled in Dafny

This project models the logic of a small register-dump comparison application. The application has four parts:

- **Dump entry page.** Text is pasted or loaded as a *dump*. `parseDump` reads it line by line:
  - it cuts each line at the first `#` or `;`;
  - it trims the line and skips it if blank;
  - it splits the rest on runs of white space, `=`, `,` and `:`;
  - a line with two or more tokens stores `token[0] -> token[1]` and adds one to the count.

  `handleSave` then runs three guards in order (name, content, count). If all pass, it appends the dump to the store and clears the form.
- **Comparison page.** `toggleDump` maintains the list of selected dump ids. `comparisonData` builds the table:
  - one row per lower-cased address, drawn from the definitions and from the keys of the selected dumps, in ascending string order;
  - one value per selected dump, in store order, looked up with JavaScript `||` fallbacks;
  - a mismatch flag;
  - an optional diff-only filter.
- **Application store.** Two lists, `registerDefinitions` and `dumps`, and seven actions that replace them.
- **Register definition page.** This covers:
  - the hexadecimal address recogniser;
  - `handleAdd`, which prefixes `0x` and appends the definition;
  - the edit-mode actions `handleUpdate`, `startEdit` and `cancelEdit`.

The JavaScript built-ins these parts rely on are modelled explicitly:

- `String.prototype.trim`, with the ECMAScript white-space set;
- `split` on one character, and `split(/[\s=,:]+/)`, where a leading or trailing separator gives an empty token;
- `toLowerCase`, over ASCII letters only;
- `startsWith`;
- `Array.prototype.filter` and `Array.prototype.sort`;
- the truthiness of strings.

Modules and files:

| file | module | what |
|---|---|---|
| `wrappers.dfy` | `Wrappers` | `Option` |
| `js_string.dfy` | `JsString` | `trim`, `\s`, `toLowerCase`, `startsWith`, `split(char)` with its inverse `Join` |
| `js_array.dfy` | `JsArray` | `filter`, the entries a `forEach` collects line after line, removal by index, sets of list elements |
| `js_sort.dfy` | `JsSort` | the default string sort order, an insertion sort, the ascending listing of a set |
| `app_store.dfy` | `AppStore` | the data model and the `Store` class with its seven actions |
| `dump_entry.dfy` | `DumpEntry` | the parser as a function and as a loop (`ParseDump`), the save guards, the `DumpEntryPage` class |
| `comparison.dfy` | `Comparison` | selection, value lookup, mismatch, the address universe, the table as a function (`Compare`) and as loops (`ComparisonData`), the `ComparisonView` class |
| `register_definitions.dfy` | `RegisterDefinitions` | address recogniser, `0x` prefixing, the `RegisterDefinitionPage` class |

The imperative parts are methods proved against specification functions:

- `ParseDump` is the `forEach` loop that writes into `data` and counts.
- `CollectAddresses` and `AddLowerKeys` are the loops, and `AddToSet` the `Set.add` step, that fill the `allAddresses` set.
- `ComparisonData` is the memoised computation.
- The store and the page states are classes whose methods reassign their fields.

Each method's `ensures` ties its result or its new state to a specification function. The lemmas then prove the properties about those functions.

Some behaviours of the code are easy to misread; the model follows the code:

- **Value column order.** The value columns follow the order of the store's dump list, not the order in which the dumps were selected.
- **Selection type.** The selection is a list, not a set: an id is appended at the end when toggled on.
- **Lookup key.** A dump's value is looked up only under the lower-cased address, never under the key as the dump stored it. A dump keyed `0X10` therefore shows `-` in the `0x10` row unless the definition's name is also a key of that dump (`Comparison.UppercaseKeyNotFound`). That row is still a single row, and it is not a mismatch.
- **Empty values.** An empty-string value counts as absent, because the lookup uses `||`.
- **Replacing definitions.** The definitions list changes one entry at a time (`addDefinition`, `updateDefinition`, `deleteDefinition`) or wholesale through `setRegisterDefinitions`.

## Model

| member | source | states |
|---|---|---|
| JsString.Trim | src/pages/DumpEntryPage.jsx:32 | the trimmed line is the infix of the input starting after its leading white space, has no white space at either end, is followed in the input by white space only, and is empty exactly when the input is all white space |
| JsString.Split | src/pages/DumpEntryPage.jsx:27 | splitting on one character always gives at least one piece (an empty text gives one empty line) |
| JsString.TrimIdempotent | src/pages/DumpEntryPage.jsx:32 | trimming a trimmed line changes nothing |
| JsString.TrimPadded | src/pages/DumpEntryPage.jsx:32 | text with non-blank ends followed by white space trims to that text |
| JsString.ToLowerAscii | src/pages/ComparisonPage.jsx:24-26 | same length, each character mapped by ASCII lower-casing, no upper-case letter left |
| JsString.ToLowerIdempotent | src/pages/ComparisonPage.jsx:24-30 | lower-casing an already lower-cased address changes nothing, so lower-cased addresses are canonical |
| JsString.JoinSplit | src/pages/DumpEntryPage.jsx:27 | splitting the content on `\n` loses nothing: joining the lines with `\n` gives the content back |
| JsString.SplitJoin | src/pages/DumpEntryPage.jsx:27 | lines without `\n`, joined with `\n`, split back into the same lines |
| JsString.SplitPiecesLackSeparator | src/pages/DumpEntryPage.jsx:27 | no line holds the separator |
| JsString.SplitNoSeparator | src/pages/DumpEntryPage.jsx:27 | text without `\n` is one line |
| JsString.SplitAround | src/pages/DumpEntryPage.jsx:27 | the lines of `a + "\n" + b` are the lines of `a` followed by those of `b` |
| JsString.SplitPiecesFromInput | src/pages/DumpEntryPage.jsx:27 | every character of every line comes from the content |
| DumpEntry.CleanLine | src/pages/DumpEntryPage.jsx:32 | the cleaned line holds no `#` or `;`, has no white space at either end, and is empty exactly when the text before the first marker is all white space |
| DumpEntry.StripComment | src/pages/DumpEntryPage.jsx:32 | the kept text is a prefix of the line with no `#` or `;` in it, and it stops exactly at a marker or at the end |
| DumpEntry.CommentTailIgnored | src/pages/DumpEntryPage.jsx:32 | whatever follows a comment marker has no effect on the kept text |
| DumpEntry.StripCommentNoMarker | src/pages/DumpEntryPage.jsx:32 | a line without markers is kept whole |
| DumpEntry.SkipSeparators | src/pages/DumpEntryPage.jsx:34 | drops exactly the leading run of separators: a suffix of the input, all dropped characters are separators, and the rest does not start with one |
| DumpEntry.Tokens | src/pages/DumpEntryPage.jsx:34 | at least one token; no token holds a separator; two or more tokens exactly when the text holds a separator; the first token is the prefix up to the first separator |
| DumpEntry.TokensAfterFirst | src/pages/DumpEntryPage.jsx:34 | the tokens after the first are those of the text after the first token and the separator run behind it |
| DumpEntry.TokensOfOneWord | src/pages/DumpEntryPage.jsx:34 | text without a separator is one token |
| DumpEntry.SkipRun | src/pages/DumpEntryPage.jsx:34 | a run of separators in front of a word is skipped whole |
| DumpEntry.TokensOfPair | src/pages/DumpEntryPage.jsx:34 | `key<separators>value` splits into exactly `[key, value]` |
| DumpEntry.TokensLoseOnlySeparators | src/pages/DumpEntryPage.jsx:34 | the tokens, concatenated, are the text with its separators deleted |
| DumpEntry.RecognizeLine | src/pages/DumpEntryPage.jsx:32-38 | a line yields an entry exactly when its cleaned text holds a separator (a blank line or one with fewer than two tokens yields none); key and value hold no separator |
| DumpEntry.RecognizedKeyAndValue | src/pages/DumpEntryPage.jsx:35-38 | the key is the cleaned text up to its first separator; the value is the separator-free stretch after the first run of separators; later tokens play no part |
| DumpEntry.OneWordLineIgnored | src/pages/DumpEntryPage.jsx:33-35 | a line without a separator yields nothing |
| DumpEntry.KeyValueLine | src/pages/DumpEntryPage.jsx:32-38 | `key<separators>value`, optionally followed by white space and a comment, yields the entry `key -> value` |
| DumpEntry.EntryMap | src/pages/DumpEntryPage.jsx:38 | every entry's key is stored, and every stored key comes from an entry |
| DumpEntry.EntryMapAppend | src/pages/DumpEntryPage.jsx:38 | a further entry overwrites its key and leaves the other keys alone |
| DumpEntry.EntryMapLastWins | src/pages/DumpEntryPage.jsx:38 | the last entry with a key decides its value |
| DumpEntry.EntryMapSize | src/pages/DumpEntryPage.jsx:38-39 | there are no more keys than entries |
| DumpEntry.ParseDump | src/pages/DumpEntryPage.jsx:26-43 | the loop returns the dictionary and count of `Parse`: the entries of the recognised lines in order, later keys overwriting, counted one per recognised line |
| DumpEntry.Parse | src/pages/DumpEntryPage.jsx:26-43 | the count is at least the number of distinct keys stored, and a positive count means at least one key was stored |
| DumpEntry.EntriesStep | src/pages/DumpEntryPage.jsx:35-40 | an unrecognised line leaves data and count alone; a recognised one sets its key and adds one |
| DumpEntry.ParseAppendLine | src/pages/DumpEntryPage.jsx:31-41 | appending one line to the content changes the result exactly as that line alone says |
| DumpEntry.ParseLastLineWins | src/pages/DumpEntryPage.jsx:37-39 | a parsed key holds the value of the last recognised line that set it |
| DumpEntry.NothingRecognized | src/pages/DumpEntryPage.jsx:31-41 | lines none of which is recognised contribute no entry |
| DumpEntry.BlankContentHasNoEntries | src/pages/DumpEntryPage.jsx:33 | all-white-space content parses to count 0 |
| DumpEntry.ParseOneLine | src/pages/DumpEntryPage.jsx:26-43 | a one-line dump holds that line's entry, if any, with count 0 or 1 |
| DumpEntry.ParseKeyValueLine | src/pages/DumpEntryPage.jsx:26-43 | a one-line dump such as `0x10=0xFF # comment` parses to exactly `{key: value}` with count 1 |
| DumpEntry.ParseDropsOneWordLine | src/pages/DumpEntryPage.jsx:33-35 | a leading one-word line such as `onlyonetoken` is dropped and not counted: the dump parses as the rest does |
| DumpEntry.IgnoredLineFirst | src/pages/DumpEntryPage.jsx:31-41 | a leading line that yields nothing leaves the entries of the other lines unchanged |
| DumpEntry.SaveCheck | src/pages/DumpEntryPage.jsx:45-61 | the guards reject in order with `Name required.`, `Content required.`, `No valid registers found.`; a dump is accepted exactly when the name is not blank and the content has a recognised line; the accepted data is the parse result and is never empty |
| DumpEntry.CheckForm | src/pages/DumpEntryPage.jsx:46-61 | the guard sequence, parse included, returns the outcome `SaveCheck` defines |
| DumpEntry.DumpEntryPage.HandleSave | src/pages/DumpEntryPage.jsx:45-74 | on rejection: sets the message and leaves the form and the store's dumps as they were; on acceptance: appends exactly one dump with the raw content and the parsed data, clears the error and the form; definitions never change |
| DumpEntry.DumpEntryPage.Commit | src/pages/DumpEntryPage.jsx:63-73 | the state change after the guards: either the message is shown or one dump is appended and the form emptied |
| AppStore.ApplyPatch | src/store/useAppStore.js:41 | each of the five properties is the patch's when the patch carries it and the dump's otherwise |
| AppStore.PatchOverrides | src/store/useAppStore.js:41 | an empty patch changes nothing; a patch leaves the dump unchanged exactly when every property it carries already has that value; applying it twice is applying it once |
| AppStore.ReplacedAt | src/store/useAppStore.js:22-26 | an in-range index replaces only that element (length and others unchanged); one past the end appends; a negative index changes no element |
| JsArray.RemovedAt | src/store/useAppStore.js:29 | an in-range index removes exactly that element, the others keep their order; an out-of-range index changes nothing |
| AppStore.WithoutId | src/store/useAppStore.js:37 | no dump with the id remains, and every other dump does |
| AppStore.WithoutIdKeepsOrder | src/store/useAppStore.js:37 | removal by id keeps the relative order of the rest |
| AppStore.WithoutAbsentId | src/store/useAppStore.js:37 | removing an absent id is a no-op |
| AppStore.PatchedWhere | src/store/useAppStore.js:41 | same length; dumps with another id unchanged; dumps with the id patched |
| AppStore.PatchAbsentId | src/store/useAppStore.js:41 | patching an absent id is a no-op |
| AppStore.Store.AddDefinition | src/store/useAppStore.js:14-16 | appends one definition at the end; dumps unchanged |
| AppStore.Store.SetRegisterDefinitions | src/store/useAppStore.js:18-20 | replaces the definitions wholesale; dumps unchanged |
| AppStore.Store.UpdateDefinition | src/store/useAppStore.js:22-26 | the definitions become `ReplacedAt(old, index, definition)`; dumps unchanged |
| AppStore.Store.DeleteDefinition | src/store/useAppStore.js:28-30 | the definitions become `RemovedAt(old, index)`; dumps unchanged |
| AppStore.Store.AddDump | src/store/useAppStore.js:32-34 | appends one dump at the end; definitions unchanged |
| AppStore.Store.RemoveDump | src/store/useAppStore.js:36-38 | the dumps become `WithoutId(old, id)`; definitions unchanged |
| AppStore.Store.UpdateDump | src/store/useAppStore.js:40-42 | the dumps become `PatchedWhere(old, id, patch)`; definitions unchanged |
| JsArray.Filter | src/pages/ComparisonPage.jsx:22 | the kept elements are exactly the elements that pass the test, no more than the input |
| JsArray.FilterConcat | src/pages/ComparisonPage.jsx:22 | filtering distributes over concatenation, so relative order is kept |
| JsArray.FilterDropsOne | src/pages/ComparisonPage.jsx:14 | filtering out one rejected element that sits between two accepted runs gives the two runs joined, in order |
| JsArray.FilterKeepsAll | src/store/useAppStore.js:37 | a filter every element passes keeps the list |
| JsArray.FilterCongruent | src/pages/ComparisonPage.jsx:22 | two tests that agree on the list keep the same elements |
| JsArray.FilterPairwise | src/pages/ComparisonPage.jsx:47-49 | an order every pair of the list respects is respected by the kept elements |
| JsArray.FlatMapConcat | src/pages/DumpEntryPage.jsx:31 | each line contributes on its own |
| JsArray.AppendFresh | src/pages/ComparisonPage.jsx:23-27 | adding a new element keeps the listing free of repetitions and adds it to the set |
| JsArray.FilterNoDup | src/pages/ComparisonPage.jsx:14 | filtering keeps a list free of repetitions |
| JsSort.LessEqReflexive | src/pages/ComparisonPage.jsx:29 | the sort order is reflexive |
| JsSort.LessEqAntisymmetric | src/pages/ComparisonPage.jsx:29 | the sort order is antisymmetric |
| JsSort.LessEqTransitive | src/pages/ComparisonPage.jsx:29 | the sort order is transitive |
| JsSort.LessEqTotal | src/pages/ComparisonPage.jsx:29 | the sort order is total |
| JsSort.Insert | src/pages/ComparisonPage.jsx:29 | inserting into a sorted list gives a sorted list with one more occurrence of the element |
| JsSort.SortStrings | src/pages/ComparisonPage.jsx:29 | `sort()` returns an ascending permutation of its input |
| JsSort.MinimumExists | src/pages/ComparisonPage.jsx:29 | a non-empty set of addresses has a least element |
| JsSort.SortedElements | src/pages/ComparisonPage.jsx:29 | the ascending listing of a set is strictly ascending and lists exactly the set |
| JsSort.AscendingUnique | src/pages/ComparisonPage.jsx:29 | only one strictly ascending list enumerates a set |
| JsSort.SortDistinct | src/pages/ComparisonPage.jsx:29 | sorting a repetition-free listing of a set gives the ascending listing, whatever the insertion order |
| Comparison.Toggled | src/pages/ComparisonPage.jsx:12-18 | an id is selected afterwards exactly when it was before and is not the toggled one, or is the toggled one and was not selected; an unselected id is appended |
| Comparison.ToggleOffKeepsOrder | src/pages/ComparisonPage.jsx:14 | toggling off a selected id (held once) removes it and keeps the other ids in their selection order |
| Comparison.ToggleTwiceRestores | src/pages/ComparisonPage.jsx:12-18 | toggling an unselected id twice restores the selection exactly |
| Comparison.ToggleTwiceMembership | src/pages/ComparisonPage.jsx:12-18 | toggling any id twice restores which ids are selected |
| Comparison.ToggledNoDup | src/pages/ComparisonPage.jsx:12-18 | a repetition-free selection stays so |
| Comparison.ComparisonView.ToggleDump | src/pages/ComparisonPage.jsx:12-18 | the selection becomes `Toggled(old, id)`; the diff-only flag is unchanged |
| Comparison.ActiveDumps | src/pages/ComparisonPage.jsx:22 | the active dumps are exactly the store's dumps whose id is selected |
| Comparison.ActiveDumpsIgnoreSelectionOrder | src/pages/ComparisonPage.jsx:22 | the active dumps depend only on which ids are selected |
| Comparison.ActiveDumpsInStoreOrder | src/pages/ComparisonPage.jsx:22 | the active dumps keep the store's order |
| Comparison.FindDefinitionIndex | src/pages/ComparisonPage.jsx:30 | the index of the first definition whose lower-cased address is the row address, or none when no definition has it |
| Comparison.FindDefinition | src/pages/ComparisonPage.jsx:30 | the found definition has the address; none is found only when no definition has it |
| Comparison.ResolveValue | src/pages/ComparisonPage.jsx:32 | never empty; a non-empty value under the address wins; otherwise a non-empty value under the definition's name; otherwise `-` |
| Comparison.UppercaseKeyNotFound | src/pages/ComparisonPage.jsx:32 | a key stored as `0X10` is not found in the row `0x10` |
| Comparison.PresentValues | src/pages/ComparisonPage.jsx:35 | exactly the values other than `-` |
| Comparison.IsMismatch | src/pages/ComparisonPage.jsx:35-36 | a mismatch needs at least two present values |
| Comparison.MismatchIffDisagreement | src/pages/ComparisonPage.jsx:35-36 | a row is a mismatch exactly when two of its present values differ |
| Comparison.FewValuesNoMismatch | src/pages/ComparisonPage.jsx:35-36 | a row with at most one value is never a mismatch |
| Comparison.MismatchExamples | src/pages/ComparisonPage.jsx:35-36 | `["1","2"]` is a mismatch, `["1","-"]` is not |
| Comparison.BuildRow | src/pages/ComparisonPage.jsx:29-45 | the row carries its address and one value per active dump |
| Comparison.BuildRows | src/pages/ComparisonPage.jsx:29-45 | one row per sorted address, in the same order |
| Comparison.MismatchesOnly | src/pages/ComparisonPage.jsx:47-49 | exactly the mismatching rows are kept |
| Comparison.DefAddressesMembers | src/pages/ComparisonPage.jsx:24 | an address is collected from the definitions exactly when some definition lower-cases to it |
| Comparison.DumpAddressesMembers | src/pages/ComparisonPage.jsx:25-27 | an address is collected from the dumps exactly when some key of an active dump lower-cases to it |
| Comparison.AddressUniverseMembers | src/pages/ComparisonPage.jsx:23-27 | the address universe is exactly the union of both |
| Comparison.AddToSet | src/pages/ComparisonPage.jsx:24 | `Set.add` on a repetition-free listing: still repetition-free, element added |
| Comparison.AddLowerKeys | src/pages/ComparisonPage.jsx:26 | after the loop the listing holds the old elements plus every lower-cased key, without repetitions |
| Comparison.CollectAddresses | src/pages/ComparisonPage.jsx:23-27 | after both loops the listing holds exactly the address universe, without repetitions |
| Comparison.ComparisonData | src/pages/ComparisonPage.jsx:20-51 | the memoised computation returns exactly the table `Compare` defines |
| Comparison.CompareListsUniverse | src/pages/ComparisonPage.jsx:23-29 | the row addresses are the address universe, each once, in ascending order |
| Comparison.CompareDiffOnly | src/pages/ComparisonPage.jsx:47-49 | diff-only gives exactly the mismatching rows of the full table, in the same ascending order |
| Comparison.Compare | src/pages/ComparisonPage.jsx:20-51 | an empty selection gives no rows; every row has one value per active dump; with the diff-only filter every row is a mismatch |
| Comparison.CompareRowContents | src/pages/ComparisonPage.jsx:30-44 | every row has one value per active dump in store order, each resolved by `ResolveValue`, the mismatch flag of its values, and the first matching definition's name and description or `Unknown` and empty |
| Comparison.CompareIgnoresSelectionOrder | src/pages/ComparisonPage.jsx:20-51 | the table depends only on which ids are selected |
| Comparison.OneDumpNoMismatch | src/pages/ComparisonPage.jsx:31-36 | with at most one active dump no row is a mismatch |
| Comparison.UnmatchedDefinitionRow | src/pages/ComparisonPage.jsx:31-36 | a row no active dump has a value for shows `-` throughout and is not a mismatch |
| Comparison.DumpName | src/pages/ComparisonPage.jsx:98 | the name of the first dump with the id (no earlier dump has it), or none when no dump has it |
| Comparison.HeaderLabels | src/pages/ComparisonPage.jsx:97-99 | one heading per selected id, in selection order |
| Comparison.HeaderMisaligned | src/pages/ComparisonPage.jsx:97-99 | selecting `2` before `1` puts `B` over the column holding dump `A`'s values |
| Comparison.ColumnLabels | src/pages/ComparisonPage.jsx:97-99 | one heading per active dump, its name, in store order |
| Comparison.ColumnLabelsAligned | src/pages/ComparisonPage.jsx:97-99 | with `ColumnLabels`, heading `i` names the dump whose value column `i` shows in every row |
| Comparison.ComparisonView.Headings | src/pages/ComparisonPage.jsx:97-99 | the headings are `HeaderLabels` of the selection as written: one per selected id, in selection order, each the first matching dump's name or none |
| Comparison.ComparisonView.Rows | src/pages/ComparisonPage.jsx:20-51 | the rows for the current store and selection are `Compare` of them |
| Comparison.ComparisonView.ToggleDiffsOnly | src/pages/ComparisonPage.jsx:63 | flips the diff-only flag and keeps the selection |
| RegisterDefinitions.ValidateAddress | src/pages/RegisterDefinitionPage.jsx:16-19 | valid exactly when the text is `0`, `x`, then one or more hex digits; every character but the `x` is a hex digit |
| RegisterDefinitions.WithHexPrefix | src/pages/RegisterDefinitionPage.jsx:23-26 | the stored address starts with `0x` and ends with what was typed, at most two characters longer, and equals what was typed exactly when that already starts with `0x` |
| RegisterDefinitions.PrefixKeepsValidAddress | src/pages/RegisterDefinitionPage.jsx:16-26 | a valid address is stored as typed |
| RegisterDefinitions.PrefixCompletesHexDigits | src/pages/RegisterDefinitionPage.jsx:16-26 | bare hex digits become a valid address |
| RegisterDefinitions.PrefixIdempotent | src/pages/RegisterDefinitionPage.jsx:23-26 | prefixing twice is prefixing once |
| RegisterDefinitions.UppercasePrefixDoubled | src/pages/RegisterDefinitionPage.jsx:16-26 | the prefix test is case-sensitive: `0X10` is stored as `0x0X10`, which the recogniser rejects |
| RegisterDefinitions.LowerKeepsValidAddress | src/pages/RegisterDefinitionPage.jsx:16-19 | lower-casing keeps a valid address valid |
| RegisterDefinitions.RegisterDefinitionPage.HandleAdd | src/pages/RegisterDefinitionPage.jsx:21-30 | with an empty address or name nothing changes; otherwise exactly one definition, with the prefixed address, is appended and the form emptied; dumps and the edit index unchanged |
| RegisterDefinitions.RegisterDefinitionPage.HandleUpdate | src/pages/RegisterDefinitionPage.jsx:32-36 | the definitions become `ReplacedAt(old, index, form)`; edit mode ends with an empty form; dumps unchanged |
| RegisterDefinitions.RegisterDefinitionPage.StartEdit | src/pages/RegisterDefinitionPage.jsx:38-41 | the edit index and the form take the given values |
| RegisterDefinitions.RegisterDefinitionPage.CancelEdit | src/pages/RegisterDefinitionPage.jsx:43-46 | edit mode ends with an empty form; the store is not touched |
| RegisterDefinitions.RegisterDefinitionPage.HandleDelete | src/pages/RegisterDefinitionPage.jsx:142 | the store drops the definition at the index (`RemovedAt`); dumps unchanged; the edit index and form are not touched |
| RegisterDefinitions.StaleEditIndexOverwritesNeighbour | src/pages/RegisterDefinitionPage.jsx:105 | after deleting an earlier row, the update at the stale edit index overwrites the next definition, which updating first and deleting afterwards would keep |
| RegisterDefinitions.StaleEditIndexAppends | src/pages/RegisterDefinitionPage.jsx:105 | after deleting an earlier row while editing the last one, the update appends a copy instead of replacing the edited definition |
| RegisterDefinitions.EditIndexAfterDelete | src/pages/RegisterDefinitionPage.jsx:142 | the edit index after a delete: none when the edited row was deleted, one less when an earlier row was, unchanged otherwise |
| RegisterDefinitions.AdjustedEditIndexFollowsDefinition | src/pages/RegisterDefinitionPage.jsx:105 | with the adjusted index, the edited definition is still at that index after the delete, and updating after deleting equals deleting after updating |


## Left out

- Rendering, styling, routing and navigation (`App.jsx`, `Navigation.jsx`, the JSX of every page) are UI only.
- `handleFileUpload` is file I/O through `FileReader`. The content is a string supplied by the caller.
- `handleInputChange` is a form binding. The form fields are set directly (`StartEdit`, or the fields themselves).
- Persistence of the store to local storage through the state library is left out. The store is a plain object with two list fields.
- The id and the timestamp are parameters of `HandleSave`. The code reads `Date.now()` for each, twice, so the two can differ.
- DumpEntry.DumpEntryPage.HandleSave: does not model the transient `setError('')` before the guards, since React batches the state updates and only the final error is observable.
- Case mapping covers ASCII letters only. Unicode case mapping is not modelled.
- The sort order is plain character-sequence order. JavaScript compares UTF-16 code units, which differs for characters beyond the Basic Multilingual Plane.
- Quirks of JavaScript objects used as dictionaries are not modelled. Examples are the keys `__proto__` and `constructor`, and inherited properties found by `parsedData[address]`.
- Insertion order of `Object.keys` and of `Set` is not modelled: the keys are visited in an arbitrary order, and the sort that follows makes the order irrelevant (`SortDistinct`).
- AppStore.ReplacedAt: requires `index <= length`. The code, given a larger index, writes past the end and leaves holes in the array; holes are not represented, and the comparison page would fail on them in `find`. On this page an index past the end comes from a stale edit index, described under Findings.
- AppStore.Store.UpdateDefinition: requires `index <= length`. The code, given a larger index, creates a sparse array with holes, which this model does not represent.
- RegisterDefinitions.RegisterDefinitionPage.HandleUpdate: requires `index <= length`, for the same reason.
- The `Compare` specification is a ghost function, because it enumerates a set in sorted order. `ComparisonData` computes the same table with loops and a sort.
- The concrete parsing examples (`0x10=0xFF # comment`, `onlyonetoken\n0x1 2`) are stated as general lemmas: `ParseKeyValueLine` for any key/separators/value/padding/comment line, and `ParseDropsOneWordLine` for any one-word line in front of any content. They are not checked on the literal strings.

## Findings

| source | as written | input that shows it | evidently intended | confidence | as-written member | corrected member |
|---|---|---|---|---|---|---|
| src/pages/ComparisonPage.jsx:97-99 | the value-column headings are drawn in selection order, while each row's values follow the store's dump order (line 22) | dumps `1` named `A` and `2` named `B`, selected `2` then `1`: the first heading reads `B` over the column holding `A`'s values | heading `i` names the dump whose values column `i` shows | not executed | Comparison.HeaderMisaligned | Comparison.ColumnLabelsAligned |
| src/pages/RegisterDefinitionPage.jsx:105 | the delete button (line 142) removes a definition while the edit index still points at its old position, so the update writes the form at that stale position | definitions `A`, `B`, `C`; edit `B` (index 1), delete `A`, update: the list becomes `B`, form, and `C` is lost | the update replaces the definition being edited: the edit index follows the delete, or editing ends when the edited row is deleted | not executed | RegisterDefinitions.StaleEditIndexOverwritesNeighbour | RegisterDefinitions.AdjustedEditIndexFollowsDefinition |
