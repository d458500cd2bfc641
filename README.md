# Personal ledger app: verified model of its core logic

The app is a small React Native ledger. Users record income and expense entries and view them in one of three ways: grouped by date, as a flat list, or as a grid. This project models three parts of its logic in Dafny and proves properties about them:

- **Date-section grouping** (`transformEntriesToDateSections`). The model is a method with the source's nested loops, proved equal to a functional specification `DateSections`. The lemmas about `DateSections` show that the grouping:
  - partitions the input completely;
  - has distinct section titles, ordered by where each label first occurs;
  - keeps input order inside each section;
  - never produces an empty section;
  - regroups incrementally when one entry is pushed.
- **In-memory list updates after persistence.** This covers loading, creating and deleting entries.
  - The state's entry list is a JavaScript array that the service changes in place. It is modelled as the class `JsArrays.JsArray`, with `push`, `findIndex` and `splice` written to ECMAScript's rules.
  - `splice` with a negative start counts back from the end of the array. So when no entry has the id, `splice(-1, 1)` removes the last entry. The model keeps this behaviour and proves it.
  - When a repository call throws, the `catch` only logs, so the state is left unchanged.
- **The top-level component's state machine.** This covers the entry state (`transactionEntries`, `onAddEntry`) and the settings (`onSettings`, `displayOption`). It also covers the handlers that replace them, the view dispatch with its default branch, and what each render shows.

Modules:

- `Wrappers`: `Option` for TypeScript's optional fields, and `Outcome` for an awaited call that either returns or throws.
- `JsArrays`: the JavaScript array operations.
- `TransactionEntryInterface`: the entry, state, section, display-option and settings types.
- `TransactionEntryService`: the grouping and the list updates.
- `App`: the handlers, the view dispatch and runs of handler calls.

Values that come from outside the app are parameters:

- **The date label.** The source formats `(txnYear, txnMonth, txnDay)` with JavaScript's `Date` and the `en-GB` locale. The model takes any function `labelOf: TransactionEntry -> string`. Every grouping property holds for every such function. The model never assumes that different dates get different labels. `DateLabelOf` builds a label from any formatting of the date triple alone, and for such labels `SameDateSameSection` shows that entries with the same date share a section.
- **Repository results.** `save`, `find` and `delete` appear as `Outcome` values.
- **The stored display preference.** It appears as `Outcome<Option<int>>`: the read fails, finds no value, or finds an already-parsed number.

## Model

| member | source | states |
|---|---|---|
| `TransactionEntryInterface.DisplayOptionOf` | src/interfaces/transaction-entry.interface.ts:27-31 | exactly the numbers 1, 2 and 3 name an enum member, and the member named by `n` has number `n` |
| `TransactionEntryInterface.DisplayOptions.Value` | src/interfaces/transaction-entry.interface.ts:27-31 | each enum member's number: `SECTION_LIST_BY_DATE` is 1, `FLAT_LIST` 2 and `SPREADSHEET` 3, so every number lies in 1..3 |
| `TransactionEntryInterface.DisplayOptionValues` | src/interfaces/transaction-entry.interface.ts:27-31 | the three options have pairwise distinct numbers, and each option's number maps back to that option |
| `JsArrays.FirstIndex` | src/services/transaction-entry.service.ts:59 | the result of `findIndex` is the first position whose element satisfies the predicate; it is -1 exactly when no element does |
| `JsArrays.JsArray.FindIndex` | src/services/transaction-entry.service.ts:59 | the front-to-back scan returns exactly `FirstIndex` of the array's contents |
| `JsArrays.JsArray.Push` | src/services/transaction-entry.service.ts:45 | the array becomes its old contents with the element appended; the result is the new length |
| `JsArrays.SpliceStart` | src/services/transaction-entry.service.ts:60 | the actual start of `splice` lies in `0..len`; an in-range start is kept; a start past the end becomes `len`; a negative start `-k` with `k <= len` becomes `len - k`, and one with `k > len` becomes 0 |
| `JsArrays.SpliceCount` | src/services/transaction-entry.service.ts:60 | the delete count is clamped so that the removed run lies inside the array: an in-range count is kept, a negative count becomes 0 and a count past the end becomes the number of elements after the start |
| `JsArrays.Spliced` | src/services/transaction-entry.service.ts:60 | what is left after `splice`: as long as the array minus the clamped count, the same up to the actual start, and after it the elements that followed the removed run |
| `JsArrays.SpliceRemoved` | src/services/transaction-entry.service.ts:60 | what `splice` returns: the clamped number of elements, read from the array starting at the actual start |
| `JsArrays.JsArray.Splice` | src/services/transaction-entry.service.ts:60 | the array loses exactly the run that ECMAScript's start and count rules select, and that run is returned |
| `JsArrays.SpliceReassembles` | src/services/transaction-entry.service.ts:60 | putting the removed run back at the actual start rebuilds the original array, so the remaining and removed elements together are a permutation of it |
| `JsArrays.SpliceOneAt` | src/services/transaction-entry.service.ts:60 | `splice(k, 1)` at a valid index removes exactly the element at `k` and returns it |
| `JsArrays.SpliceMinusOneRemovesLast` | src/services/transaction-entry.service.ts:59-60 | on a non-empty array, `splice(-1, 1)` removes and returns the last element |
| `JsArrays.SpliceEmpty` | src/services/transaction-entry.service.ts:60 | splicing an empty array leaves it empty and removes nothing |
| `TransactionEntryService.FirstPosition` | src/services/transaction-entry.service.ts:77-80 | `findIndex` with an equality predicate, as `Set` insertion uses it: the first position of the element, which holds it while no earlier position does |
| `TransactionEntryService.Labels` | src/services/transaction-entry.service.ts:77-80 | `entries.map(...)`: one label per entry, the i-th being the label of the i-th entry |
| `TransactionEntryService.DateLabelOf` | src/services/transaction-entry.service.ts:78 | the label of an entry is a formatting of its `(txnYear, txnMonth, txnDay)` alone, so entries with equal date fields get equal labels |
| `TransactionEntryService.Distinct` | src/services/transaction-entry.service.ts:77-80 | `[...new Set(s)]`: only elements of `s` occur in it (its other properties are the lemmas below) |
| `TransactionEntryService.DistinctNoLonger` | src/services/transaction-entry.service.ts:77-80 | `[...new Set(s)]` is never longer than `s` |
| `TransactionEntryService.Filter` | src/services/transaction-entry.service.ts:85-91 | the entries one inner scan collects for a label; never more than the input holds (their exact contents and order are the lemmas below) |
| `TransactionEntryService.SectionsFor` | src/services/transaction-entry.service.ts:83-94 | the outer `map` over the titles: exactly one section per title (`SectionsForAt` says which title and entries each one holds) |
| `TransactionEntryService.DateSections` | src/services/transaction-entry.service.ts:75-96 | what `transformEntriesToDateSections` returns; never more sections than entries (its partition, titles, membership and order are the lemmas below) |
| `TransactionEntryService.TransformEntriesToDateSections` | src/services/transaction-entry.service.ts:75-96 | the nested scan over the distinct labels and the entries returns exactly `DateSections` of the array's contents; it has no `modifies` clause, so it cannot change the input |
| `TransactionEntryService.DistinctMembers` | src/services/transaction-entry.service.ts:77-80 | `[...new Set(labels)]` holds exactly the labels that occur, with no repeats |
| `TransactionEntryService.DistinctFirstOccurrenceOrder` | src/services/transaction-entry.service.ts:77-80 | the distinct labels are ordered by where each one first occurs in the input |
| `TransactionEntryService.FilterMembers` | src/services/transaction-entry.service.ts:85-91 | an entry is collected for a label exactly when it is an input entry with that label |
| `TransactionEntryService.FilterNone` | src/services/transaction-entry.service.ts:85-91 | when no input entry has the label, nothing is collected |
| `TransactionEntryService.FilterKeepsInputOrder` | src/services/transaction-entry.service.ts:85-91 | the i-th collected entry is the input entry at a strictly increasing position, and these positions are exactly those whose entry has the label |
| `TransactionEntryService.SectionsForAt` | src/services/transaction-entry.service.ts:83-94 | there is one section per distinct label: section i has the i-th label as title and that label's entries as data |
| `TransactionEntryService.FilterSnoc` | src/services/transaction-entry.service.ts:85-91 | one more input entry is collected, at the end, for its own label and for no other |
| `TransactionEntryService.FlattenSectionsForSnoc` | src/services/transaction-entry.service.ts:83-94 | one more title adds that title's collected entries after the others |
| `TransactionEntryService.SectionsForIgnoresOtherLabel` | src/services/transaction-entry.service.ts:83-94 | an entry whose label is none of the titles changes no section |
| `TransactionEntryService.AddEntryAtLastTitle` | src/services/transaction-entry.service.ts:83-94 | an entry labelled with the last title and no earlier one is appended to the combined contents |
| `TransactionEntryService.AddEntryBeforeLastTitle` | src/services/transaction-entry.service.ts:83-94 | an entry not labelled with the last title leaves that title's section as it was |
| `TransactionEntryService.FlattenAddEntryWithTitle` | src/services/transaction-entry.service.ts:83-94 | with distinct titles, an entry whose label is a title is added to the combined contents exactly once |
| `TransactionEntryService.FlattenAddEntry` | src/services/transaction-entry.service.ts:83-94 | with distinct titles, one more input entry adds that entry once to the sections' combined contents if its label is a title, and not at all otherwise |
| `TransactionEntryService.FlattenNoEntries` | src/services/transaction-entry.service.ts:83-94 | with no input entries, every section is empty |
| `TransactionEntryService.FlattenIsPermutation` | src/services/transaction-entry.service.ts:83-94 | with distinct titles that cover every entry's label, the sections' combined contents are a permutation of the input |
| `TransactionEntryService.TotalSizeIsFlattenLength` | src/services/transaction-entry.service.ts:83-94 | the sum of the section sizes is the length of their combined contents |
| `TransactionEntryService.DateSectionsPartition` | src/services/transaction-entry.service.ts:77-95 | the grouping partitions the input completely: the combined contents of the sections are a permutation of the input, and the sizes of all `data` lists add up to the input length |
| `TransactionEntryService.DateSectionsTitles` | src/services/transaction-entry.service.ts:77-95 | the titles are exactly the labels that occur, with no title repeated; they are ordered by first occurrence; every section has non-empty data |
| `TransactionEntryService.DateSectionsNonEmpty` | src/services/transaction-entry.service.ts:77-95 | every section of the grouping holds at least one entry |
| `TransactionEntryService.DateSectionsMembership` | src/services/transaction-entry.service.ts:83-94 | a section holds exactly the input entries whose label is its title; every input entry is in the section titled with its label and in no other section |
| `TransactionEntryService.SameDateSameSection` | src/services/transaction-entry.service.ts:83-94 | with the label built from the date fields, two input entries with the same year, month and day share a section |
| `TransactionEntryService.DateSectionsKeepInputOrder` | src/services/transaction-entry.service.ts:85-91 | each section's data is the input restricted to the strictly increasing positions of the entries that have its title |
| `TransactionEntryService.DateSectionsAfterPush` | src/services/transaction-entry.service.ts:75-96 | pushing one entry regroups incrementally: if its label already has a section, the entry is appended there and nothing else changes; otherwise a new one-entry section is added at the end |
| `TransactionEntryService.DateSectionsAfterPushKnownLabel` | src/services/transaction-entry.service.ts:75-96 | pushing an entry whose label already occurs keeps the number of sections and appends the entry to that label's section only |
| `TransactionEntryService.DateSectionsAfterPushNewLabel` | src/services/transaction-entry.service.ts:75-96 | pushing an entry with a new label adds a one-entry section at the end and keeps the others |
| `TransactionEntryService.GroupingExamplePrefix` | src/services/transaction-entry.service.ts:75-96 | two entries on different dates give one section each, in input order |
| `TransactionEntryService.GroupingExample` | src/services/transaction-entry.service.ts:75-96 | in the input [coffee, salary, tea], coffee and tea share a label and salary has another; the result is two sections, [coffee, tea] then [salary] |
| `TransactionEntryService.DateSectionsOfEmpty` | src/services/transaction-entry.service.ts:75-96 | empty input gives no sections |
| `TransactionEntryService.MatchesId` | src/services/transaction-entry.service.ts:59 | the `findIndex` predicate holds exactly for an entry whose id is present and equal to the given id |
| `TransactionEntryService.AfterDelete` | src/services/transaction-entry.service.ts:59-60 | the list after `splice(findIndex(...), 1)` as written: one entry shorter unless empty, and holding only entries of the old list |
| `TransactionEntryService.AfterDeleteCorrected` | src/services/transaction-entry.service.ts:59-60 | the intended update: unchanged when no entry has the id; otherwise one entry shorter; holding only entries of the old list |
| `TransactionEntryService.AfterDeleteFound` | src/services/transaction-entry.service.ts:57-62 | when some entry has the id, exactly the first such entry is removed and the others keep their order |
| `TransactionEntryService.AfterDeleteMissing` | src/services/transaction-entry.service.ts:59-60 | when no entry has the id, a non-empty list loses its last entry and an empty list stays empty |
| `TransactionEntryService.AfterDeleteCorrectedMissing` | src/services/transaction-entry.service.ts:59-60 | with the fix, a delete for an id that is not present leaves the list unchanged |
| `TransactionEntryService.AfterDeleteCorrectedFound` | src/services/transaction-entry.service.ts:59-60 | when the id is present, the fixed update and the original one both remove exactly the first entry with that id |
| `TransactionEntryService.DeleteMissingIdRemovesUnrelatedEntry` | src/services/transaction-entry.service.ts:59-60 | deleting id 2 from a list that holds only the entry with id 1 empties the list as written; with the fix the list is unchanged |
| `TransactionEntryService.GetTransactionEntries` | src/services/transaction-entry.service.ts:28-36 | after a successful `find`, the state holds a new array with the found entries and keeps `onAddEntry`; if `find` throws, the state is unchanged |
| `TransactionEntryService.CreateTransactionEntry` | src/services/transaction-entry.service.ts:38-50 | after a successful `save`, the saved entry is appended to the state's own array, earlier entries stay in order, the array reference is kept and `onAddEntry` becomes false; if `save` throws, neither the state nor the array changes |
| `TransactionEntryService.DeleteTransactionEntry` | src/services/transaction-entry.service.ts:52-66 | after a successful repository delete, the state's own array becomes `AfterDelete` of its old contents (splice at `findIndex`); if the delete throws, the array is unchanged; the state record is the same either way |
| `TransactionEntryService.DeleteTransactionEntryCorrected` | src/services/transaction-entry.service.ts:52-66 | the same as the delete above, except that the array becomes `AfterDeleteCorrected` of its old contents, so a missing id is a no-op |
| `App.InitialState` | App.tsx:25-28 | the component starts with a new empty entry array and `onAddEntry` false |
| `App.InitialSettings` | App.tsx:34-37 | the component starts with the date-grouped display and the settings panel closed |
| `App.PressAddEntry` | App.tsx:147 | the Add Entry button sets `onAddEntry` and keeps the entry array |
| `App.CancelCreateEntry` | App.tsx:55-57 | cancelling clears `onAddEntry` and keeps the entry array |
| `App.PressSettings` | App.tsx:161 | the Settings button opens the settings and keeps the display option |
| `App.HandleSetDisplayOption` | App.tsx:67-69 | selecting an option stores that option's number and closes the settings |
| `App.HandleCancelSetSetting` | App.tsx:71-73 | cancelling the settings closes them and keeps the display option |
| `App.GetDisplayOption` | App.tsx:75-88 | a stored number becomes the display option; no stored value gives the date-grouped display; a failed read changes nothing; `onSettings` is never touched |
| `App.CreateEntry` | App.tsx:48-50 | creating an entry changes the entry state as the service does and never changes the settings |
| `App.AddEntryCancelRoundTrip` | App.tsx:55-57 | Add Entry followed by cancel restores the state, and so does cancel followed by Add Entry from an open panel |
| `App.SettingsRoundTrip` | App.tsx:67-73 | opening the settings and cancelling restores them; opening them and then selecting an option leaves them closed with that option |
| `App.DisplayEntries` | App.tsx:121-128 | `FLAT_LIST` shows the flat list and `SPREADSHEET` the grid, both of the raw entries; every other number, including `SECTION_LIST_BY_DATE` and numbers outside the enum, shows `DateSections` of the current entries |
| `App.Render` | App.tsx:136-170 | each menu button is shown exactly when its panel is not, each panel is shown exactly when its flag is set, and the entry view is the dispatch's choice |
| `App.SelectedOptionIsShown` | App.tsx:121-127 | right after an option is selected, the dispatch shows the view for that option: grouped sections, flat list or grid of the current entries |
| `App.UnknownPreferenceShowsSections` | App.tsx:121-127 | after loading a stored preference that is missing or outside the enum, the grouped sections are shown |
| `App.Step` | App.tsx:55-161 | for the six pure handler events (cancel create at 55-57, the settings handlers at 67-88, the two buttons at 147 and 161): settings events never change the entry state, the others never change the settings, and none of the six puts a different array in the state; create and delete keep the array by the contracts of `CreateEntry` and `DeleteTransactionEntry` |
| `App.RunKeepsEntries` | App.tsx:55-161 | no sequence of the six pure handler events (lines 55-57, 67-88, 147 and 161) puts a different entry array in the state |
| `App.RunSettingsEventsKeepState` | App.tsx:67-88 | a sequence of settings handler calls leaves the entry state unchanged |
| `App.RunEntryEventsKeepSettings` | App.tsx:55-147 | a sequence of Add Entry (line 147) and cancel (lines 55-57) calls leaves the settings unchanged |
| `App.RunLastSelectionWins` | App.tsx:67-69 | when the last call selects an option, that option is stored and the settings are closed, whatever came before |

## Left out

- `getDbConnection` (src/services/transaction-entry.service.ts:5-26) is left out. It opens the database through TypeORM and expo-sqlite, which is foreign I/O. When it succeeds it calls `getTransactionEntries`, which is modelled.
- The repository calls `find`, `create`, `save` and `delete` are foreign database I/O. Their results are `Outcome` parameters: the call returns some value or throws. The entry that `save` returns is a parameter, so the model does not say that it carries a fresh id. Nothing in the code keeps ids unique within the list, and the model does not assume they are.
- The date label (`new Date(y, m, d).toLocaleDateString('en-GB')`) is left out because it depends on the JS `Date` library, the locale and the time zone. The label is the parameter `labelOf`. The model does not capture:
  - that `txnMonth` is zero-based;
  - that out-of-range components roll over;
  - that missing components give "Invalid Date";
  - whether distinct dates get distinct labels.
- `AsyncStorage.getItem` (App.tsx:77) is I/O. The model takes its parsed result as a parameter. It does not model `parseInt` over arbitrary strings, including a result of `NaN`.
- Writing the display preference back to storage is not modelled, because `App.tsx` never does it: `handleSetDisplayOption` only updates the settings in memory. The model follows the code.
- `deleteEntry` (App.tsx:63-65) only hands over to the service's delete. That delete is modelled as written by `DeleteTransactionEntry`, and in corrected form by `DeleteTransactionEntryCorrected`. There is no separate App-level member for it.
- React hooks are not modelled: `useMemo`, `useCallback`, the mount-time sequence in `useEffect`, and handlers that close over a stale `state` captured at render. Each handler is one atomic step on the current records. The grouped view is `DateSections` of the current entries, which is what the memoised value equals whenever `state` has just been replaced.
- async/await interleaving and `console.log` are not modelled. Each handler runs to completion as one step, and a `catch` that only logs leaves the state unchanged.
- `amount` is a floating-point number that the core only carries. It is a `real` field, and no arithmetic is done on it. Entry ids and date components are modelled as unbounded integers.
- JSX layout and styling are not modelled. `Render` records only which buttons, panels and entry view are shown. `EntrySectionListItem.tsx` is purely presentational and is not part of this model.

## Findings

| source | as written | input that shows it | evidently intended | confidence | as-written member | corrected member |
|---|---|---|---|---|---|---|
| src/services/transaction-entry.service.ts:59-60 | The splice at the `findIndex` result also runs when no entry has the id. `findIndex` then gives -1, and `splice(-1, 1)` removes the last entry | deleting id 2 when the list holds only the entry with id 1 leaves an empty list (`DeleteMissingIdRemovesUnrelatedEntry`) | a delete for an id that is not in the list leaves the list unchanged (the comment on line 60 says the call removes the entry that was found) | not executed; medium: the UI deletes only entries it is showing, so the missing-id case needs a list that is out of step with the store | `TransactionEntryService.DeleteTransactionEntry` | `TransactionEntryService.DeleteTransactionEntryCorrected` |
