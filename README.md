# Journal entry store and view-model in Dafny

This project models the local journal-entry store of the journal app and
the view-model hook that keeps a copy of one user's entries in memory.

- The store is `src/lib/localStore.ts`. It keeps each user's entries in one JSON
  file, `<documentDirectory>journal/<userId>.json`. Add, update and delete each
  load the whole file, change the sequence and write it all back. Listing
  loads and sorts the entries newest first and writes nothing.
- The hook is `src/hooks/useJournalEntries.ts`. It holds `entries` and
  `loading`. A load effect re-runs when `userId` changes and carries a
  `cancelled` flag. Add, update and delete call the store and then patch the
  in-memory mirror; they do not reload it. `stripHtml` is a helper in the same
  file.

Modules:

- `Types` holds the entry shapes, `Option` and `Result`.
- `EntryList` holds the pure sequence transforms: `filter`, the replace-by-id
  `map` and `find` by id. It also states the partition invariants: ids are
  unique, and `createdAt <= updatedAt`.
- `EntryOrder` holds the stable newest-first sort. `SortDesc` is the sort as a
  function. `SortInPlace` is an in-place insertion sort on an array, proved to
  compute `SortDesc`.
- `LocalStore` holds the file-system model and the `Store` class.
- `StripHtml` holds the tag-removing replace and JavaScript `trim`.
- `JournalEntriesHook` holds the hook as a class. React is modelled as steps:
  - the constructor is the first render plus the mount effect;
  - `Rerender` is a later render;
  - `CompleteLoad` is what the effect does after its `await`.

Environment as parameters:

- The file system is a map from path to content. A path that is not in the map
  is a file that does not exist.
- Each operation takes these as parameters:
  - `ioOk`, whether its file-system calls succeed;
  - `now`, the clock reading;
  - `id`, the random id (where there is one).
- Dates are `Millis`, the number `getTime()` returns.

In several places the code does not do what a store and view-model of this
kind are expected to do. The model follows the code in each of them, except
for the one named in the last bullet:

- An update is expected to keep the stored `createdAt`. `updateEntryLocal`
  takes every field from the input instead and overwrites only `updatedAt`.
- An update of an unknown id is expected to fail with "not found". The code
  does not fail: it writes back what it read and returns `undefined` (see
  Findings).
- Every write is expected to keep what the file held. A missing or unparsable
  file reads as no entries, however, and add, update and delete each write
  back what they read. So a missing file is created, and an unparsable file is
  overwritten and its contents are lost. Add writes the one new entry; update
  and delete write `[]`.
- A failed write is expected to reach the caller. The hook's mutations catch
  store failures, log them and leave the mirror as it was.
- A failed load is expected to end the loading state. Nothing handles the
  rejection of the effect's read, so `loading` stays true.
- When `userId` changes to another present user, the old user's `entries`
  stay visible until the new load completes. Only a change to no user clears
  them.
- The exception: after an update of an unknown id, the hook's state updater
  throws on a non-empty mirror. `JournalEntries.UpdateEntry` uses the
  corrected updater from Findings, which leaves the mirror as it was.

A read that finds an unparsable file yields an empty collection instead of an
error; this lossy recovery is intended, and the model has it too.

## Model

| member | source | states |
|---|---|---|
| LocalStore.BaseDir | src/lib/localStore.ts:4 | the base directory is the document directory followed by `journal`, and nothing else |
| LocalStore.FileFor | src/lib/localStore.ts:8 | a user's path is the base directory, `/`, the user id and `.json`, so the user id can be read back from the path |
| LocalStore.FileForInjective | src/lib/localStore.ts:4-8 | two users whose files have the same path are the same user, so partitions never share a file |
| LocalStore.OtherPartitionsUnchanged | src/lib/localStore.ts:8 | writing one user's file does not change what any other user's file reads as |
| LocalStore.Load | src/lib/localStore.ts:10-26 | whatever is read is either nothing or the whole parsed content of the file at the path |
| LocalStore.Store.LoadEntries | src/lib/localStore.ts:10-26 | a user's entries are either nothing or the whole parsed content of that user's file |
| LocalStore.LoadMissingOrUnparsable | src/lib/localStore.ts:10-26 | a missing file and a file that does not parse both read as no entries |
| LocalStore.LoadAfterWrite | src/lib/localStore.ts:10-31 | what `persist` writes, `loadEntries` reads back |
| LocalStore.Store.Persist | src/lib/localStore.ts:28-31 | the user's file is replaced by the whole sequence; every other user's entries are unchanged |
| LocalStore.NewEntry | src/lib/localStore.ts:36-43 | a new entry has the given id, the payload's title, content and colour, and `now` as both timestamps |
| LocalStore.Store.AddEntryLocal | src/lib/localStore.ts:33-47 | on failure, nothing changes; on success the new entry is returned and is prepended to the user's entries; other users are unaffected; the partition invariant holds afterwards when the id is fresh |
| LocalStore.CreatedEntryIsListed | src/lib/localStore.ts:44-45 | after a create, the created entry shows up in the sorted listing |
| LocalStore.Touched | src/lib/localStore.ts:52 | the updated entry is the input with `updatedAt` set to `now`; every other field, `createdAt` included, comes from the input |
| LocalStore.Store.UpdateEntryLocal | src/lib/localStore.ts:49-56 | on failure, nothing changes; on success every stored entry with the id is replaced by the touched input; the result is that entry if the id was stored, and nothing otherwise; an unknown id leaves the entries as they were; other users are unaffected; the invariant holds while the input's `createdAt` is not after `now` |
| LocalStore.Store.DeleteEntryLocal | src/lib/localStore.ts:58-62 | on failure, nothing changes; on success the file holds the filtered sequence and no entry with the id is left; other users are unaffected; the invariant is preserved |
| LocalStore.DeletedIdIsNotListed | src/lib/localStore.ts:58-67 | after a delete, the listing holds no entry with that id |
| LocalStore.Store.ListEntriesLocal | src/lib/localStore.ts:64-67 | on failure the result is an error; on success it is the stable newest-first sort of the stored entries, a permutation of them that is sorted |
| LocalStore.MorningEveningScenario | src/lib/localStore.ts:33-67 | two entries created in order in an empty partition are listed with the later one first |
| LocalStore.TwoUsersScenario | src/lib/localStore.ts:8-67 | two users who each create an entry each list exactly their own entry |
| EntryList.Filter | src/lib/localStore.ts:60 | `filter` keeps only elements that pass and never grows the sequence |
| EntryList.FilterMultiset | src/lib/localStore.ts:60 | `filter` keeps each passing element exactly as often as it occurs and drops every other one |
| EntryList.FilterConcat | src/lib/localStore.ts:60 | `filter` distributes over concatenation, so it keeps the order |
| EntryList.FilterIdempotent | src/lib/localStore.ts:60 | filtering twice by the same test is filtering once |
| EntryList.FilterAllKept | src/lib/localStore.ts:60 | when every element passes, `filter` returns the sequence unchanged |
| EntryList.FilterNoneKept | src/lib/localStore.ts:60 | when no element passes, `filter` returns the empty sequence |
| EntryList.RemoveById | src/lib/localStore.ts:60 | the filter never grows the sequence and leaves no entry with the id |
| EntryList.RemoveByIdContents | src/lib/localStore.ts:60 | after removing by id no entry has the id, and every entry with another id keeps its count |
| EntryList.RemoveByIdIdempotent | src/lib/localStore.ts:58-62 | deleting the same id twice is deleting it once |
| EntryList.RemoveAbsentId | src/lib/localStore.ts:58-62 | deleting an id that is not stored changes nothing |
| EntryList.RemoveByIdConcat | src/lib/localStore.ts:60 | removing by id distributes over concatenation |
| EntryList.ReplaceById | src/lib/localStore.ts:52 | the `map` keeps the length; position by position, entries with the id become the replacement and the rest are unchanged |
| EntryList.ReplaceAbsentId | src/lib/localStore.ts:52 | replacing an id that does not occur changes nothing |
| EntryList.ReplaceKeepsIds | src/lib/localStore.ts:52 | a replacement that carries the id keeps every position's id |
| EntryList.FindById | src/lib/localStore.ts:54 | `find` yields nothing exactly when no entry has the id; otherwise it yields an entry with the id and no earlier entry has the id |
| EntryList.FindAfterReplace | src/lib/localStore.ts:52-54 | after the replace, `find` yields the replacement when the id was stored, and nothing otherwise |
| EntryList.PrependKeepsInvariant | src/lib/localStore.ts:44 | prepending an entry with a fresh id and consistent timestamps keeps ids unique and timestamps ordered |
| EntryList.ReplaceKeepsInvariant | src/lib/localStore.ts:52 | replacing by id keeps the invariant when the replacement's timestamps are consistent |
| EntryList.RemoveKeepsInvariant | src/lib/localStore.ts:60 | removing by id keeps the invariant |
| EntryOrder.InsertDesc | src/lib/localStore.ts:66 | one insertion step of the stable sort: `x` goes before the first entry older than it; its properties are in the InsertDesc lemmas below |
| EntryOrder.SortDesc | src/lib/localStore.ts:66 | the stable sort newest first, by insertion; SortDescPermutation, SortDescSorted and SortDescStable state what it computes |
| EntryOrder.InsertDescMultiset | src/lib/localStore.ts:66 | one insertion step adds exactly the inserted entry |
| EntryOrder.InsertDescSorted | src/lib/localStore.ts:66 | one insertion step keeps a newest-first sequence newest first |
| EntryOrder.SortDescPermutation | src/lib/localStore.ts:66 | the sort is a permutation of its input |
| EntryOrder.SortDescSorted | src/lib/localStore.ts:66 | the sort's result is ordered by `updatedAt`, descending |
| EntryOrder.InsertDescStable | src/lib/localStore.ts:66 | one insertion step puts the entry after every entry with the same timestamp |
| EntryOrder.SortDescStable | src/lib/localStore.ts:66 | the sort is stable: entries with equal `updatedAt` keep their stored order |
| EntryOrder.SortDescOfSorted | src/lib/localStore.ts:66 | sorting a sequence that is already newest first changes nothing |
| EntryOrder.SortDescPrependNewest | src/lib/localStore.ts:44-66 | an entry at least as new as all others, put in front, stays in front after sorting |
| EntryOrder.RemoveFromInsert | src/lib/localStore.ts:60-66 | removing an id after one insertion step is the insertion step after removing the id |
| EntryOrder.RemoveCommutesWithSort | src/lib/localStore.ts:60-66 | removing an id from the sorted list is sorting after removing it |
| EntryOrder.ListTwoEntries | src/lib/localStore.ts:66 | two entries with distinct timestamps are listed newest first, whatever their stored order |
| EntryOrder.InsertLast | src/lib/localStore.ts:66 | moving `a[i]` into the sorted prefix leaves the prefix equal to the insertion step and the rest of the array untouched |
| EntryOrder.SortInPlace | src/lib/localStore.ts:66 | sorting the array in place leaves it holding `SortDesc` of its old contents |
| StripHtml.FirstClose | src/hooks/useJournalEntries.ts:6 | the position of the first `>`: it holds a `>` and no earlier position does |
| StripHtml.AfterClose | src/hooks/useJournalEntries.ts:6 | the text after the first `>`, where a match of the pattern ends |
| StripHtml.StripTags | src/hooks/useJournalEntries.ts:6 | the global replace never grows the text and keeps only characters of its input |
| StripHtml.StripTagsMatch | src/hooks/useJournalEntries.ts:6 | at a match (text without `<`, then `<`, text without `>`, `>`) the text before it is kept, the match is removed, and the replace goes on after it; with StripTagsOfNoTag this fixes the result on every input |
| StripHtml.StripTagsLeavesNoTag | src/hooks/useJournalEntries.ts:6 | after the replace, no `<` is followed, anywhere later, by a `>` |
| StripHtml.StripTagsOfNoTag | src/hooks/useJournalEntries.ts:6 | text with nothing the pattern matches passes through unchanged |
| StripHtml.TrimStart | src/hooks/useJournalEntries.ts:6 | what is left is a suffix that starts with a non-space; everything removed was white space |
| StripHtml.TrimEnd | src/hooks/useJournalEntries.ts:6 | what is left is a prefix that ends with a non-space; everything removed was white space |
| StripHtml.Trim | src/hooks/useJournalEntries.ts:6 | the result neither starts nor ends with JavaScript white space |
| StripHtml.TrimIsSlice | src/hooks/useJournalEntries.ts:6 | trimming adds no character and keeps text free of tags |
| StripHtml.StripHtml | src/hooks/useJournalEntries.ts:5-7 | the result is trimmed, holds no tag the pattern could match, and holds only characters of the input |
| StripHtml.StripHtmlIdempotent | src/hooks/useJournalEntries.ts:5-7 | stripping twice is stripping once |
| StripHtml.StripTagsLoneTag | src/hooks/useJournalEntries.ts:6 | the replace turns `<i>` into nothing |
| StripHtml.StripTagsUnclosed | src/hooks/useJournalEntries.ts:6 | the replace keeps `a<b` as it is, since the `<` has no `>` after it |
| StripHtml.StripTagsAroundTag | src/hooks/useJournalEntries.ts:6 | the replace turns `a<b>c` into `ac` |
| StripHtml.StripHtmlLoneTag | src/hooks/useJournalEntries.ts:5-7 | `<i>` strips to nothing |
| StripHtml.StripHtmlUnclosed | src/hooks/useJournalEntries.ts:5-7 | `a<b` strips to itself |
| StripHtml.StripHtmlAroundTag | src/hooks/useJournalEntries.ts:5-7 | `a<b>c` strips to `ac` |
| JournalEntriesHook.Present | src/hooks/useJournalEntries.ts:16 | `if (userId)`: there is a user exactly when the id is given and not empty |
| JournalEntriesHook.MirrorUpdate | src/hooks/useJournalEntries.ts:46 | the corrected updater (see Findings): it keeps the mirror's length and ids, replaces the entries with the returned id, and changes nothing when the store returned nothing |
| JournalEntriesHook.MirrorUpdateAsWritten | src/hooks/useJournalEntries.ts:46 | the updater as written throws exactly when the store returned nothing and the mirror is non-empty; otherwise it replaces the entries with the returned id |
| JournalEntriesHook.MirrorUpdateAsWrittenThrows | src/hooks/useJournalEntries.ts:46 | as written, the updater throws when the store returned nothing and the mirror is non-empty |
| JournalEntriesHook.MirrorUpdateAgrees | src/hooks/useJournalEntries.ts:46 | wherever the code does not throw, it agrees with `MirrorUpdate` |
| JournalEntriesHook.UpdateLeavesMirrorUnsorted | src/hooks/useJournalEntries.ts:42-51 | after an update, the mirror can differ from a fresh listing, because it is not re-sorted |
| JournalEntriesHook.AddKeepsMirrorSorted | src/hooks/useJournalEntries.ts:35 | prepending an entry at least as new as every stored one to the sorted list gives the sorted list of the new partition |
| JournalEntriesHook.LoadEffect.constructor | src/hooks/useJournalEntries.ts:14 | each effect run starts with its own `cancelled` flag, false |
| JournalEntriesHook.JournalEntries.constructor | src/hooks/useJournalEntries.ts:10-29 | the first render starts with no entries; `loading` is true exactly when there is a user; one effect run is live and not cancelled |
| JournalEntriesHook.JournalEntries.RunEffect | src/hooks/useJournalEntries.ts:13-27 | with a user, `loading` is set and `entries` is unchanged; without one, `entries` is empty and `loading` is false |
| JournalEntriesHook.JournalEntries.Rerender | src/hooks/useJournalEntries.ts:13-29 | an unchanged `userId` changes nothing; a changed one cancels the previous run and starts a fresh one |
| JournalEntriesHook.JournalEntries.Unmount | src/hooks/useJournalEntries.ts:28 | the cleanup cancels the latest run |
| JournalEntriesHook.JournalEntries.CompleteLoad | src/hooks/useJournalEntries.ts:16-22 | a cancelled run or a failed read writes nothing; otherwise `entries` becomes the sorted listing and `loading` false, and the mirror is in sync when the run belongs to the current user |
| JournalEntriesHook.JournalEntries.AddEntry | src/hooks/useJournalEntries.ts:31-40 | without a user, nothing changes; on success the new entry is prepended to the mirror, and the user's file is rewritten to hold it before what it read; on failure neither the mirror nor any file changes; no other user's file ever changes; a mirror in sync stays in sync when the new entry is the newest |
| JournalEntriesHook.JournalEntries.UpdateEntry | src/hooks/useJournalEntries.ts:42-51 | without a user, nothing changes; on success the user's file is rewritten to what it read with the entries with the id replaced, and the mirror's entries with the id are replaced; no other user's file ever changes; with an id that was not stored, the corrected updater leaves the mirror alone where the code throws (see Findings); on failure nothing changes |
| JournalEntriesHook.JournalEntries.DeleteEntry | src/hooks/useJournalEntries.ts:53-62 | without a user, nothing changes; on success the user's file is rewritten to what it read without the id, and the id is removed from the mirror; on failure neither the mirror nor any file changes; no other user's file ever changes; a mirror in sync stays in sync |

## Left out

- JSON encoding, and the round trip through ISO date strings in `loadEntries`, are not modelled. A file is modelled as either parsable to entries or not.
- `ensureDir` and directory creation are left out, because their errors are swallowed.
- The model does not look inside paths. They are concatenated strings, so a user id containing `/` or `..` is not treated as reaching another file.
- `Math.random().toString(36)` is left out. The id is a parameter, and the model does not guarantee it is fresh. `AddEntryLocal` keeps the invariant only when the id is not already stored.
- `new Date()` is left out. `now` is a parameter, and nothing makes it increase between calls.
- LocalStore.Store.UpdateEntryLocal: does not guarantee `updatedAt` grows, and keeps `createdAt <= updatedAt` only when the input's `createdAt` is not after `now`, because the code takes both the clock and `createdAt` as given.
- JournalEntriesHook.JournalEntries.UpdateEntry: uses the corrected updater `MirrorUpdate` from Findings. So for an id the file does not hold and a non-empty mirror, it leaves the mirror as it was. The code at `src/hooks/useJournalEntries.ts:46` throws a TypeError there, inside the React state updater and outside the `try`. The model does not capture that throw or what React does after it.
- A failure is modelled as happening before any write, so a failed call changes nothing. A write that fails part-way is not modelled.
- Concurrency is not modelled: calls are applied one at a time. Two store calls by one user that interleave can lose an update in the source; the model does not show that.
- React scheduling is not modelled. State updates apply at once, and batching and re-render order are left out.
- `console.error` is left out, and so is the unhandled rejection of a failed load.
- The screens, authentication, the UI-side title checks and the colour palette are left out, because they are not part of this store and hook.

## Findings

| source | as written | input that shows it | evidently intended | confidence | as-written member | corrected member |
|---|---|---|---|---|---|---|
| src/lib/localStore.ts:54 and src/hooks/useJournalEntries.ts:46 | `find(...)!` gives `undefined` for an id that is not stored, and the hook's updater then reads `updated.id` | `updateEntry` with an id that is not in the user's file while the mirror holds at least one entry | the mirror stays as it was, or the update fails with a "not found" error | medium, not executed | JournalEntriesHook.MirrorUpdateAsWritten (shown by JournalEntriesHook.MirrorUpdateAsWrittenThrows) | JournalEntriesHook.MirrorUpdate |
