# Amazon delivery auto-assignment tool — a Dafny model

`asainn.py` is a single-page Streamlit tool that hands out the tracking IDs of a
delivery workbook to drivers. Its pipeline has five steps:

- **Driver roster.** A CSV of (driver name, transporter ID) rows becomes a
  name → transporter ID map and the list of selectable drivers.
- **Slot loop.** Twenty input slots each hold a course number and a driver. A
  driver is offered from a sorted list that leaves out drivers already chosen
  in earlier slots. Every slot whose course number and driver are both
  non-blank becomes an assignment `(prefix + course number, driver,
  transporter ID)`.
- **Sheet reading.** Each sheet of the uploaded workbook yields a course code,
  the text after the last `_` of the sheet name. It also yields its tracking
  IDs, the non-empty cells of column B from the fourth row down.
- **Execute action.** Every sheet is matched against every assignment by
  course. Each match stores a per-course result, and a later match for the
  same course replaces an earlier one. Each match also hands every tracking ID
  of the sheet to the assignment's driver as an execution pair. The results
  are stored in the session only when at least one pair was produced.
- **Copy texts.** The tracking IDs, and the distinct transporter IDs, are
  joined with line breaks. Each line break is then written as a backslash
  followed by `n`.

The model follows the script module by module:

| file | module | what it models | form |
|---|---|---|---|
| `wrappers.dfy` | `Wrappers` | `Option` | datatype |
| `text.dfy` | `Text` | `str.strip`, `str.split`, `str.join`, `replace("\n", "\\n")` | functions and lemmas |
| `ordering.dfy` | `Ordering` | Python's string order and `sorted` | functions and lemmas |
| `unique.dfy` | `Unique` | `Series.unique()`: first-seen de-duplication | functions and lemmas |
| `sheets.dfy` | `Sheets` | `get_course_from_sheet_name`, `extract_tracking_ids` | functions and lemmas |
| `roster.dfy` | `Roster` | the driver-master block | functions and lemmas |
| `slots.dfy` | `Slots` | the 20-slot loop | a method with a loop, proved against spec functions |
| `resolver.dfy` | `Resolver` | the nested sheet / assignment / tracking-ID loops | methods with loops, proved against spec functions |
| `session.dfy` | `Session` | the execute button and `st.session_state["results_by_course"]` | a class whose method replaces the stored map |

The UI widgets are inputs to the model:
- a text input is a string;
- the uploaded files are `Option` values;
- a selectbox is the function `Slots.Pick`.

The model assumes that a selectbox shows the value stored under its key while
that value is still among its options, and otherwise its first option. `Pick`
states this assumption; see `Slots.Pick` under "## Left out".

The script runs top to bottom on every interaction, so one run of the page is:
1. `Roster.LoadRoster`;
2. `Slots.CollectAssignments`;
3. `Session.Session.Execute`, when the button was pressed.

The per-slot copy buttons (`Session.Session.CoursePayload`) are drawn during
the slot loop, which comes before the button handler. They therefore show the
results stored by the previous successful run.

In a few places the code does less, or something other, than the page
suggests it does. The model follows the code in each case:

- **No column B.** A sheet that has no column B at all makes `iloc[3:, 1]`
  raise, and that aborts the whole execute action. The model returns the
  outcome `ExtractionFailed`, and nothing is stored. Only a sheet that has a
  column B but fewer than four rows silently yields no IDs
  (`Sheets.ExtractionSpec`).
- **Escaped line breaks.** The copy strings the script builds carry a
  backslash and `n` between IDs, not a line break (`Session.CopyTextSpec`). The
  end-to-end example therefore yields the tracking copy text `TBA111` + `\n` +
  `TBA222` with those two characters in the middle. The JavaScript string
  literal they are placed in reads them back as a line break; that step is
  outside the model.
- **Mutual exclusion is partial.** The driver lists suggest that a driver is
  meant to be held by one slot only. A slot's options leave out only the drivers
  chosen by earlier slots (`Slots.EarlierChoiceExcluded`). A slot's own stored
  choice is never removed (`Slots.StoredChoiceKept`). So two slots can hold the
  same driver (`Slots.SameDriverInTwoSlots`).
- **No-match warning.** The warning is shown whenever no pair is produced.
  That happens when no course matches, but also when every matched sheet has no
  tracking IDs (`Session.NoMatchExactly`).

## Model

| member | source | states |
|---|---|---|
| Text.StripSpec | asainn.py:69 | `strip()` removes a whitespace prefix and suffix, the result starts and ends with non-whitespace, and it is empty exactly when the text is all whitespace |
| Text.Strip | asainn.py:69-74 | `str.strip()`; its properties are stated by `Text.StripSpec` and `Text.StripTrimmed` |
| Text.StripTrimmed | asainn.py:69-73 | a text with no whitespace at either end is unchanged by `strip()` |
| Text.SplitSpec | asainn.py:13 | no piece of `split(sep)` holds the separator; there is more than one piece exactly when the text holds it |
| Text.JoinSplit | asainn.py:13 | joining the pieces of a split with the separator gives back the text |
| Text.SplitJoin | asainn.py:13 | splitting a join of separator-free pieces gives back the pieces |
| Text.Split | asainn.py:13 | `str.split(sep)` for a one-character separator: at least one piece; the rest is stated by `Text.SplitSpec`, `Text.JoinSplit`, `Text.SplitJoin` and `Text.SplitLast` |
| Text.Join | asainn.py:130-132 | `sep.join(pieces)`; stated by `Text.JoinSplit`, `Text.SplitJoin` and `Text.EscapedJoin` |
| Text.EscapeNewlines | asainn.py:130-132 | `replace("\n", "\\n")`; stated by `Text.EscapeNewlinesSpec`, `Text.EscapeNewlinesConcat` and `Text.EscapeNewlinesIdentity` |
| Text.SplitLast | asainn.py:13 | the last piece is the suffix after the last separator, or the whole text when there is none |
| Text.EscapeNewlinesSpec | asainn.py:83 | the escaped text holds no line break and is one character longer per line break |
| Text.EscapeNewlinesConcat | asainn.py:83 | escaping distributes over concatenation |
| Text.EscapedJoin | asainn.py:130 | escaping a newline-joined text equals escaping each ID and joining with backslash-`n` |
| Text.EscapeNewlinesIdentity | asainn.py:130 | a text without line breaks is left unchanged |
| Ordering.StrLeTotal | asainn.py:61-64 | Python's string order is total |
| Ordering.StrLeAntisymmetric | asainn.py:61-64 | the order is antisymmetric |
| Ordering.StrLeTransitive | asainn.py:61-64 | the order is transitive |
| Ordering.InsertPermutes | asainn.py:61-64 | insertion keeps the elements: the multiset gains exactly the inserted string |
| Ordering.InsertSorted | asainn.py:61-64 | inserting into a sorted list keeps it sorted |
| Ordering.SortStringsCorrect | asainn.py:61-64 | `sorted()` returns a sorted permutation of its input |
| Ordering.StrLe | asainn.py:61-64 | Python's `<=` on `str`, lexicographic by code point; a total order by `Ordering.StrLeTotal`, `Ordering.StrLeAntisymmetric` and `Ordering.StrLeTransitive` |
| Ordering.SortStrings | asainn.py:61-64 | `sorted()` on strings; stated by `Ordering.SortStringsCorrect` and `Ordering.SortedPermutationUnique` |
| Ordering.SortedPermutationUnique | asainn.py:61-64 | two sorted permutations of the same strings are equal, so the result does not depend on the sorting algorithm |
| Unique.FirstIndex | asainn.py:29 | the index of the first occurrence: the element is there and not before it |
| Unique.Distinct | asainn.py:29 | `unique()` keeps each value once and no other values, with no duplicates |
| Unique.DistinctFirstSeenOrder | asainn.py:29 | unique values come out in the order in which each first appears |
| Sheets.CourseFromSheetName | asainn.py:12-13 | without `_` the code is the name; otherwise it has no `_`, is shorter, is the name's suffix, and is preceded by `_` |
| Sheets.CourseAfterLastUnderscore | asainn.py:12-13 | the code is exactly the text after the last underscore |
| Sheets.ColumnFrom | asainn.py:10 | `iloc[3:, 1]` has one cell per row from index 3, namely that row's cell B (missing when the row is short) |
| Sheets.Present | asainn.py:10 | `dropna()` keeps exactly the values of the present cells |
| Sheets.PresentPositions | asainn.py:10 | the present cells' positions are valid, increasing and complete |
| Sheets.PresentInOrder | asainn.py:10 | `dropna()` keeps row order: the k-th value is the k-th present cell |
| Sheets.HasColumn | asainn.py:10 | the frame read from the sheet has a column B: some row has a cell other than `Empty` (filled or read as NaN) there or further right; this decides `Sheets.ExtractTrackingIds`'s failure case |
| Sheets.ExtractTrackingIds | asainn.py:9-10 | extraction fails (pandas raises) exactly when the sheet has no column B |
| Sheets.NaNColumnKept | asainn.py:10 | a column B holding only a cell read as NaN still exists: extraction succeeds with no IDs |
| Sheets.ExtractionSpec | asainn.py:9-10 | the IDs are exactly the present cells of column B from row index 3 on; at most three rows yields none |
| Sheets.ExtractionInRowOrder | asainn.py:9-10 | the IDs come in row order, each from its own row |
| Roster.CompleteNames | asainn.py:27 | the names kept are exactly those of rows with both fields present |
| Roster.CompleteRows | asainn.py:27 | the positions of the rows with both fields present: valid, increasing and complete |
| Roster.CompleteNamesInOrder | asainn.py:27-29 | the names come in row order: the k-th name is the driver of the k-th complete row |
| Roster.LoadRoster | asainn.py:30-32 | with no roster file both the map and the driver list are empty |
| Roster.TransportMap | asainn.py:28 | `dict(zip(...))` over the complete rows; stated by `Roster.LastRowWins` |
| Roster.LastRowWins | asainn.py:27-28 | the map has a key exactly for the complete rows' names, and each value is the transporter ID of the last such row |
| Roster.RosterConsistent | asainn.py:20-32 | the selectable drivers are exactly the map's keys, pairwise distinct, in first-seen order |
| Roster.AvailableAreKeys | asainn.py:28-29 | a driver is selectable exactly when it is a key of the map |
| Roster.TransportMapSkips | asainn.py:27-28 | a row missing either field, anywhere among the rows, leaves the map unchanged |
| Roster.CompleteNamesSkips | asainn.py:27-29 | a row missing either field, anywhere among the rows, leaves the names unchanged |
| Roster.IncompleteRowIgnored | asainn.py:27-29 | a row missing either field, wherever it stands among the rows, changes neither output |
| Slots.OthersSelected | asainn.py:59 | the non-empty choices of the other slots recorded so far; used by `Slots.EarlierChoiceExcluded` and `Slots.SameDriverInTwoSlots` |
| Slots.Offerable | asainn.py:62-64 | the comprehension over the roster; stated by `Slots.OfferableSpec` |
| Slots.OfferableSpec | asainn.py:61-64 | a roster driver is offered exactly when it is the slot's stored choice or held by no other slot, and no more often than listed |
| Slots.SlotOptions | asainn.py:61 | the options start with the empty choice |
| Slots.SlotOptionsShape | asainn.py:61-64 | after the empty choice the options are sorted and are exactly the offerable drivers |
| Slots.Pick | asainn.py:65 | the selectbox value is one of its options |
| Slots.Selections | asainn.py:59-67 | `driver_selections` after n slots has keys exactly 1..n |
| Slots.OptionsAt | asainn.py:59-64 | every slot offers at least one option |
| Slots.SelectionsStable | asainn.py:67 | later slots never change an earlier slot's recorded choice |
| Slots.ChoiceOffered | asainn.py:65 | a slot's driver is one of its options: empty or a roster driver |
| Slots.EarlierChoiceExcluded | asainn.py:59-64 | a driver chosen by an earlier slot is not offered to a later one unless it is that slot's stored choice |
| Slots.StoredChoiceKept | asainn.py:60-65 | a stored choice that is on the roster (or empty) is always kept |
| Slots.SameDriverInTwoSlots | asainn.py:59-65 | two slots storing the same roster driver both keep it, so exclusion is not mutual |
| Slots.Choice | asainn.py:65-67 | the driver slot i ends up with; stated by `Slots.ChoiceOffered`, `Slots.StoredChoiceKept` and `Slots.SelectionsStable` |
| Slots.Active | asainn.py:69 | both stripped fields are non-empty; `Text.StripSpec` shows this is "neither is all whitespace" |
| Slots.SlotActive | asainn.py:69 | slot k's course number and driver are both non-blank; stated by `Slots.ActiveFlagsSpec` and `Slots.ActiveSlotsSpec` |
| Slots.Lookup | asainn.py:74 | `transport_map.get(name, "")`; used by `Slots.AssignmentsFromActiveSlots` and `Session.ExampleSlotAssignment` |
| Slots.SlotAssignment | asainn.py:70-75 | the assignment an active slot makes; stated by `Slots.AssignmentsFromActiveSlots` |
| Slots.Assignments | asainn.py:49-75 | the assignments of slots 1 to n; stated by `Slots.AssignmentsFromActiveSlots`, `Slots.CollectAssignments` and `Slots.BlankSlotsAssignNothing` |
| Slots.InactiveSlotAssignsNothing | asainn.py:69 | a slot with a blank course number is inactive and adds no assignment |
| Slots.BlankSlotsAssignNothing | asainn.py:49-75 | when every slot after the first has a blank course number, all the slots make only the first slot's assignments, whatever drivers the others hold |
| Slots.ActiveFlags | asainn.py:69 | one active flag per slot drawn |
| Slots.ActiveFlagsSpec | asainn.py:69 | flag k is slot k's activity |
| Slots.SetPositions | asainn.py:69 | there are at most as many positions as flags |
| Slots.SetPositionsSpec | asainn.py:69 | the positions are increasing, point at set flags, and include every set flag |
| Slots.ActiveSlots | asainn.py:69 | at most n of the first n slots are active |
| Slots.ActiveSlotsSpec | asainn.py:69 | the active slots are listed in increasing order, and a slot is listed exactly when it is active |
| Slots.AssignmentsFromActiveSlots | asainn.py:69-75 | the t-th assignment is the one made by the t-th active slot, one per active slot |
| Slots.CollectAssignments | asainn.py:46-75 | the loop's final `driver_selections` and `assignments` are those of all twenty slots; at most twenty assignments |
| Slots.DrawSlot | asainn.py:55-75 | one pass records slot i's driver and adds its assignment exactly when it is active |
| Resolver.ExtractAll | asainn.py:103-106 | one extraction per sheet |
| Resolver.ExtractNext | asainn.py:103-106 | reading one more sheet appends its course code and IDs |
| Resolver.ExtractAllSpec | asainn.py:103-106 | extraction i is sheet i's course code and tracking IDs |
| Resolver.Readable | asainn.py:103-106 | every sheet has a column B, so no extraction raises; stated by `Resolver.Resolve` |
| Resolver.Resolution | asainn.py:99-122 | the results and pairs of the nested loops; `Resolver.Resolve` computes it |
| Resolver.Resolve | asainn.py:99-122 | the loop returns None exactly when some sheet has no column B, and otherwise the results and pairs of all matches |
| Resolver.MatchSheet | asainn.py:108-122 | one sheet's assignment loop updates the results and appends that sheet's pairs |
| Resolver.AppendPairs | asainn.py:117-122 | the inner loop appends one pair per tracking ID, in order |
| Resolver.Tagged | asainn.py:117-122 | one match's pairs; stated by `Resolver.TaggedSpec` |
| Resolver.SheetPairs | asainn.py:108-122 | one sheet's pairs; stated by `Resolver.SheetPairsExact` and `Resolver.SheetPairCount` |
| Resolver.AllPairs | asainn.py:103-122 | `execution_pairs`; stated by `Resolver.PairsExact`, `Resolver.PairCount` and `Resolver.PairsEmptyExactly` |
| Resolver.TaggedSpec | asainn.py:117-122 | a match contributes exactly its sheet's IDs, in order, each with the assignment's driver and transporter ID |
| Resolver.MatchCount | asainn.py:108-109 | at most one match per assignment |
| Resolver.SheetPairCount | asainn.py:108-122 | one sheet produces (number of matching assignments) × (number of IDs) pairs |
| Resolver.PairCount | asainn.py:103-122 | the number of pairs is the sum over matches of the sheet's ID count |
| Resolver.SheetPairsExact | asainn.py:108-122 | a pair comes from a sheet exactly when it is one of its IDs with a matching assignment's driver and transporter ID |
| Resolver.PairsExact | asainn.py:103-122 | a pair is produced exactly when it is an ID of a matched sheet with the driver and transporter ID of a matching assignment |
| Resolver.PairStep | asainn.py:103-122 | adding a sheet keeps pair membership exactly characterised |
| Resolver.ProducedPairFrom | asainn.py:103-122 | every produced pair comes from a match |
| Resolver.PairFromProduced | asainn.py:103-122 | every ID of every match is produced |
| Resolver.PairsEmptyExactly | asainn.py:103-125 | no pair is produced exactly when every matched sheet has no IDs |
| Resolver.LastMatching | asainn.py:108-116 | the index of the last assignment naming a course, or -1 when there is none |
| Resolver.SheetResults | asainn.py:108-116 | one sheet's updates to `results_by_course`; stated by `Resolver.SheetResultsSpec` |
| Resolver.AllResults | asainn.py:103-116 | `results_by_course`; stated by `Resolver.ResultKeys` and `Resolver.ResultsFromLastMatch` |
| Resolver.SheetResultsSpec | asainn.py:108-116 | one sheet leaves the map alone without a match, and otherwise sets its course to the last matching assignment's record |
| Resolver.ResultKeys | asainn.py:103-116 | `results_by_course` has an entry exactly for the sheet codes that some assignment names |
| Resolver.ResultsFromLastMatch | asainn.py:103-116 | each entry is the record of the last match for its course, in iteration order |
| Session.TrackingIdsOf | asainn.py:130 | the tracking IDs of the pairs, one per pair, in order |
| Session.TransportIdsOf | asainn.py:131 | the transporter IDs of the pairs, one per pair, in order |
| Session.CopyText | asainn.py:130-132 | the copy text of a list of IDs (also asainn.py:83); stated by `Session.CopyTextSpec` |
| Session.CopyTextSpec | asainn.py:83 | the copy text has no line break, equals the IDs each escaped and joined with backslash-`n`, and equals the plain join when no ID has a line break |
| Session.CopyTextOfTwo | asainn.py:130 | two break-free IDs are copied as the first, backslash-`n`, the second |
| Session.CopyTextOfOne | asainn.py:132 | one break-free ID is copied unchanged |
| Session.UniqueTransportIds | asainn.py:131 | `list({...})` of the pairs' transporter IDs; stated by `Session.UniqueTransportIdsSpec` |
| Session.UniqueTransportIdsSpec | asainn.py:131-132 | the transporter list holds every transporter ID of the pairs, and only those, once each |
| Session.SameTransporterOnce | asainn.py:131 | pairs sharing a transporter ID list it once |
| Session.IdsOfTwo | asainn.py:130-131 | the IDs of two pairs, in order |
| Session.Session.constructor | asainn.py:37-38 | a new session has no stored results |
| Session.Session.Execute | asainn.py:93-145 | the outcome is `Run`'s, and the stored map is replaced by the new results only on `Ready` and kept otherwise |
| Session.Session.CoursePayload | asainn.py:77-83 | a slot's copy payload exists exactly when its course has a stored result; it is that result's escaped ID text and transporter ID |
| Session.RunPairs | asainn.py:124 | with a readable workbook and assignments, the warning is given exactly when no pair was produced |
| Session.Run | asainn.py:93-145 | the outcome of the execute action: no workbook, no assignments, an unreadable sheet, no pairs, or ready; stated by `Session.NoMatchExactly`, `Session.ReadyOutcome` and `Session.Session.Execute` |
| Session.NoMatchExactly | asainn.py:93-125 | the no-match warning is given exactly when the workbook is readable, there are assignments, and every matched sheet has no IDs |
| Session.ReadyOutcome | asainn.py:103-145 | a successful run stores one record per matched course, namely the last match's; hands out every ID of every match and nothing else; has the expected pair count; the tracking copy text is that of the pairs' IDs; the transporter copy text is that of the transporter list, which holds exactly the pairs' transporter IDs, each once |
| Session.ExampleRosterLoaded | asainn.py:20-29 | the example roster gives Alice → TR1, Bob → TR2 and the drivers [Alice, Bob] |
| Session.ExampleExtraction | asainn.py:9-10 | the example sheet yields [TBA111, TBA222] |
| Session.ExampleFirstChoice | asainn.py:60-65 | a first slot storing Alice keeps Alice |
| Session.FirstSlotAssigns | asainn.py:69-75 | an active first slot makes the first assignment |
| Session.ExampleStrips | asainn.py:69 | "100" and "Alice" strip to themselves and are not blank |
| Session.ExampleSlotAssignment | asainn.py:70-75 | course number 100 with driver Alice and prefix CX makes (CX100, Alice, TR1) |
| Session.ExampleAssignment | asainn.py:42-75 | with the example roster, prefix CX and slot 1 = (100, Alice), the first slot yields [(CX100, Alice, TR1)] |
| Session.ExampleSheetExtracted | asainn.py:103-106 | a one-sheet workbook named ROUTE_ plus a code is readable and yields that code with the two IDs |
| Session.ExampleMatch | asainn.py:108-122 | sheet CX100 matched by (CX100, Alice, TR1) gives two pairs and one stored record |
| Session.ExampleTrackingCopyText | asainn.py:130 | the example pairs give the tracking copy text TBA111, backslash-`n`, TBA222 |
| Session.ExampleTransporterCopyText | asainn.py:131-132 | the example pairs give the transporter copy text TR1 |
| Session.ExampleRun | asainn.py:93-145 | the end-to-end example: a Ready outcome with the CX100 record, two pairs and both copy texts |
| Session.ExampleEndToEnd | asainn.py:20-145 | the end-to-end example from the roster on: slot 1 = (100, Alice) and blank course numbers elsewhere collect [(CX100, Alice, TR1)] from all twenty slots, and executing against sheet ROUTE_CX100 gives the Ready outcome of `Session.ExampleRun` |
| Session.PairsOfOne | asainn.py:103-122 | a one-sheet workbook's pairs are that sheet's pairs |
| Session.ExampleNoMatch | asainn.py:124-125 | the same assignment against a sheet named ROUTE_CX999 only warns |

## Left out

- Page layout, titles, columns, success, warning and error messages, and the
  HTML and JavaScript clipboard buttons (asainn.py:5-6, 41, 45, 50-53, 84-89,
  92, 127-128, 134-143) are not modelled. Their text is only the copy strings,
  which are modelled. The copy strings are placed in a JavaScript string
  literal without quote escaping; that embedding is not modelled.
- File I/O is not modelled. The uploaded workbook arrives as a list of named
  sheets of cells, and the roster CSV as a list of rows with two optional
  fields.
- `Roster.LoadRoster`: CSV parsing and header normalisation (asainn.py:21-26)
  are not modelled. The rows come already mapped to the `driver_name` and
  `transporter_id` fields. A roster without those columns, which makes pandas
  raise `KeyError`, is not modelled. Non-string cell values are not modelled
  either.
- Workbook cells arrive classified as the reader treats them (`Sheets.Cell`).
  `Empty` is a cell with no value or an empty string; the reader drops it at
  the end of a row. `ReadAsNaN` is a cell the reader keeps but pandas reads as
  NaN: a text such as `NA`, `N/A`, `null`, `NaN` or `None`, or an error value
  such as `#N/A`. `Filled` is any other cell. A column exists when some row has
  a cell other than `Empty` there or further right, so a column B of only
  `ReadAsNaN` cells exists and yields no IDs (`Sheets.NaNColumnKept`). The
  classification itself is not modelled.
- Roster fields arrive the same way as `Option` values: `None` for a field
  pandas reads as NaN. The CSV reader's NaN conversion is not modelled.
- `Sheets.ExtractTrackingIds`: `.astype(str)` is not modelled. Cells are
  already text, so number-to-text formatting (for example `123.0`) is outside
  the model. The reader's trimming of empty trailing cells is modelled as
  "column B exists when some row has a non-`Empty` cell in column B or further
  right".
- `Session.UniqueTransportIds`: Python set order is unspecified, so the model
  lists the distinct IDs in first-seen order. The lemmas state only membership
  and distinctness, which hold for any order.
- `Slots.Pick`: the selectbox behaviour is an assumed widget behaviour that
  the script cannot show. The model assumes the widget keeps the value stored
  under its key when that value is among the new options, and otherwise shows
  the first option. Widget identity across changes of the option list is not
  modelled; some Streamlit versions reset a keyed selectbox whose options
  changed, and under such a version `Slots.StoredChoiceKept`,
  `Slots.SameDriverInTwoSlots` and `Session.ExampleFirstChoice` need not hold.
- `selected_drivers` (asainn.py:35-36) is initialised but never read or
  written again, so it has no effect and is not modelled.
- The selectbox and text-input widget state (`st.session_state` under the
  `course_i` and `driver_i` keys) is an input to each run. Each slot's typed
  course number and stored driver choice are given as `SlotInput` values. How
  Streamlit keeps them between runs is not modelled.
- The prefix selector (asainn.py:42) is the datatype `Slots.Prefix` with its
  three labels. Its default index is a UI matter.
- Reruns and concurrency between browser sessions are not modelled.

