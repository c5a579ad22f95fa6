# Notes app core, modelled in Dafny

This project models the stateful core of a small notes application and
proves properties of the model. The core has three parts.

- **The persistence adapter**, `LocalStorageStore` (src/services/db.ts).
  It keeps every note in one stored collection. It offers `create`, `read`,
  `update` and `delete`. `read` is a small in-memory query engine: a
  field-equality filter, a lexicographic multi-key `sortBy`, a field
  projection and a `limit`.
- **The note state store**, `useNotesStore` (src/store/notesStore.ts).
  It holds three fields: a projected list cache `noteList`, the selected
  `currentNote`, and `currentSort`. Each operation calls the adapter and then
  overwrites some of these fields.
- **The toast queue**, `useToastStore` (src/store/toastStore.ts). It is a
  list of messages. `addToast` appends to it and `removeToast` filters it by
  id.

Files:

- `wrappers.dfy`: `Option` and `Outcome`.
- `models.dfy`: notes, fields and values, and the order JavaScript's `<`
  puts on them. A record returned by `read` is a `Row`, a map from field to
  value, so a projection holds exactly the keys it lists.
- `seqs.dfy`: `Keep`, which is `Array.prototype.filter`.
- `sorting.dfy`: an in-place insertion sort on an array, standing for
  `Array.prototype.sort`. It is proved equal to a functional insertion sort.
  For the consistent `sortBy` comparator it gives the same result as any
  stable sort. Its permutation, ordering and stability lemmas take the
  comparator as a parameter.
- `db.dfy`: the query engine as functions, its properties, and the class
  `LocalStorageStore` with a `notes` field.
- `notes_store.dfy`: the class `NotesStore`. It holds a `LocalStorageStore`
  and the pure helpers that its `set` calls use.
- `toast_store.dfy`: the class `ToastQueue`.

Inputs from the environment are parameters:

- `uuid` v4 ids are parameters, with a precondition that the id is unused.
- `new Date()` readings are integer parameters, one per call in the source.
  `create` takes two, for `createdAt` and then `updatedAt`, the later no
  earlier than the first. `update` assumes a clock that never reads earlier
  than a stored note was created (`ClockPast`). So `createdAt <= updatedAt`
  holds for every stored note.

Behaviour kept as the code has it:

- `skip` is accepted and ignored.
- A `limit` of 0 or no limit returns everything. A negative `limit` drops
  records from the end, as `slice(0, limit)` does.
- An empty store returns `[]` before anything is filtered.
- `updateNote` patches the list cache even when the adapter updated 0 rows.
- `removeNote` clears `currentNote` whatever was removed. It leaves the
  deleted entry in `noteList`.
- `sortNotes` does nothing when the criteria equal `currentSort`. Because of
  this, the first `sortNotes` by title ascending after `loadNotesList` leaves
  the list unsorted (`StaleSortScenario`).
- The `sortNotes` comparator never returns 0 and is inconsistent on ties.

## Model

| member | source | states |
|---|---|---|
| `Models.NoteOf` | src/models/Note.ts:4-9 | a record is read back as a note exactly when it has all five fields, each holding a value of that field's kind, and the note read back turns into the same record |
| `Models.NoteOfToRow` | src/models/Note.ts:4-9 | reading back the full record of a note gives that note |
| `Models.ValueOrder` | src/services/db.ts:47-48 | on the values of one field, JavaScript's `<` is irreflexive, transitive and total |
| `Seqs.Keep` | src/services/db.ts:117 | the filter keeps only elements of the input that pass the predicate, and keeps every one that passes |
| `Db.FindIndex` | src/services/db.ts:98 | `find` by id yields the first index holding that id, and yields nothing exactly when no note has it |
| `Db.Select` | src/services/db.ts:24-26 | an empty store reads as `[]`, and a read never returns more records than are stored |
| `Db.SelectPlain` | src/services/db.ts:32-38 | with no options, `read` returns the stored notes that match the query, as full records, in storage order |
| `Db.SelectFilters` | src/services/db.ts:32-38 | a note's full record is returned exactly when the note is stored and equals the query on every query key |
| `Db.SelectAll` | src/services/db.ts:32-38 | an empty query with no options returns every stored note in storage order |
| `Db.SelectRowsFromStore` | src/services/db.ts:24-71 | whatever the options, each returned record is the restriction of a stored note that matches the query |
| `Db.SelectAgreesWithQuery` | src/services/db.ts:32-38 | whatever the options, each returned record equals the query on every query key it carries |
| `Db.Compare` | src/services/db.ts:43-50 | the `sortBy` comparator returns -1, 0 or 1 |
| `Db.CompareAntisymmetric` | src/services/db.ts:43-50 | swapping the two notes negates the comparison |
| `Db.CompareZero` | src/services/db.ts:43-50 | the comparator returns 0 exactly when the two notes are equal on every key field |
| `Db.CompareTransitive` | src/services/db.ts:43-50 | "not after" under the comparator is transitive |
| `Db.CompareLexicographic` | src/services/db.ts:43-49 | the comparator returns -1 exactly when the notes agree on every key before some key `p`, and key `p` with its order (1 ascending, -1 descending) puts the first note first |
| `Db.SortByPermutes` | src/services/db.ts:41-51 | sorting returns a permutation of the filtered notes |
| `Db.SortByOrdered` | src/services/db.ts:41-51 | after sorting, no note compares above a note that follows it |
| `Db.SortByStable` | src/services/db.ts:41-51 | notes that are equal on all keys keep their storage order |
| `Db.SelectSorted` | src/services/db.ts:41-51 | with `sortBy`, `read` returns the filtered notes permuted, ordered by the keys, and stable on ties |
| `Db.SelectProjection` | src/services/db.ts:55-64 | with a non-empty projection, each record has exactly the listed fields; with an absent or empty one, each record is a full note |
| `Db.SelectLimit` | src/services/db.ts:67-71 | a positive limit keeps the first `min(limit, n)` records; no limit or 0 keeps them all; a negative limit drops that many from the end |
| `Db.SelectIgnoresSkip` | src/models/index.ts:8 | `skip` never changes what `read` returns |
| `Db.SelectById` | src/services/db.ts:32-38 | reading by id returns nothing exactly when no note has that id, and otherwise starts with the first note that has it |
| `Db.SelectByUniqueId` | src/services/db.test.ts:36-40 | with unique ids, reading by a stored id returns exactly that note's record |
| `Db.ReadAfterCreate` | src/services/db.ts:77-89 | after `create` with a fresh id and its two clock readings, reading by that id returns exactly the new record |
| `Db.ReadAfterUpdate` | src/services/db.ts:95-104 | after `update` of a stored id, reading by it returns exactly the revised record |
| `Db.UpdateTwice` | src/services/db.ts:98-102 | a repeated identical update finds the same note, leaves title and content as the first update set them, and changes only `updatedAt` |
| `Db.DeleteCount` | src/services/db.ts:116-119 | the length before minus the length after is the number of notes whose id was listed |
| `Db.ReadAfterDelete` | src/services/db.ts:112-119 | after `delete`, reading any deleted id returns nothing, whatever the options |
| `Db.KeepUnique` | src/services/db.ts:117 | filtering a collection with unique ids keeps the ids unique |
| `Db.LocalStorageStore.constructor` | src/services/db.ts:125-129 | the adapter starts over the collection already in storage, which it requires to have unique ids and `createdAt <= updatedAt` (see "Left out") |
| `Db.LocalStorageStore.Read` | src/services/db.ts:24-75 | the imperative read (filter, in-place sort of a copy, field-by-field projection, slice) returns exactly `Select` of the stored notes |
| `Db.LocalStorageStore.Create` | src/services/db.ts:77-89 | appends exactly one note with the given title and content, the returned id, `createdAt` from the first clock reading and `updatedAt` from the second, so `createdAt <= updatedAt`; earlier notes are unchanged |
| `Db.LocalStorageStore.Update` | src/services/db.ts:95-110 | for a stored id, returns 1 and changes only the title, content and `updatedAt` of the first note with it; for an unknown id, returns 0 and changes nothing |
| `Db.LocalStorageStore.Delete` | src/services/db.ts:112-123 | accepts one id or a list of ids; keeps, in order, exactly the notes whose id is not listed; returns the number removed |
| `Db.SortCopy` | src/services/db.ts:41-53 | sorting an array holding the filtered notes, when `sortBy` is given, leaves exactly `Sorted` of them |
| `Db.ProjectAll` | src/services/db.ts:56-64 | the `map` over the sorted notes projects each one on the listed fields when the projection is non-empty, and keeps full records otherwise, exactly as `Projected` says |
| `Db.ProjectNote` | src/services/db.ts:58-62 | the field-by-field `Object.assign` loop builds the projection of the note on the listed fields |
| `Db.CrudScenario` | src/services/db.test.ts:29-61 | with clock readings in order, the create, read, update, read, update, read, delete, read sequence returns the new id, the expected record after each step, counts 1, 1 and 1, and finally nothing |
| `Sorting.InsertionSortPermutes` | src/services/db.ts:42 | the sort returns a permutation of its input |
| `Sorting.InsertionSortOrdered` | src/services/db.ts:42 | with a comparator that agrees with a transitive order, the sort returns an ordered sequence |
| `Sorting.InsertionSortStable` | src/services/db.ts:42 | elements that the comparator does not separate keep their relative order |
| `Sorting.SortInPlace` | src/services/db.ts:42 | sorting the array in place leaves in it the insertion sort of its old contents |
| `NotesStore.PatchList` | src/store/notesStore.ts:106-110 | the patch keeps the list's length and order, rebuilds each entry for the id with the new title, a refreshed `updatedAt` and its own `createdAt`, and leaves every other entry unchanged |
| `NotesStore.PatchListAbsent` | src/store/notesStore.ts:106-110 | a patch for an id the list does not hold changes nothing |
| `NotesStore.PatchListIdempotent` | src/store/notesStore.ts:106-110 | patching twice with the same update and clock reading is patching once |
| `NotesStore.PatchEntryRevises` | src/store/notesStore.ts:108 | patching a note's list entry gives the list entry of the note as `update` revises it |
| `NotesStore.PatchKeepsListCurrent` | src/store/notesStore.ts:92-110 | on a fully loaded list, the patch gives the list of the notes `update` leaves behind, whether or not the id is stored |
| `NotesStore.SortComparison` | src/store/notesStore.ts:124-127 | the comparator is 1 or -1, never 0: it is 1 exactly when "a is greater on the field" matches the ascending direction |
| `NotesStore.TiesCompareInconsistently` | src/store/notesStore.ts:125-126 | two entries equal on the field compare the same way in both argument orders, so ties have no defined order |
| `NotesStore.ComparatorAgrees` | src/store/notesStore.ts:124-127 | on entries that carry the field, the comparator agrees with a transitive "not after, in this direction" order |
| `NotesStore.SortedList` | src/store/notesStore.ts:124-127 | sorting keeps the entries, and when every entry carries the field, orders them non-decreasing (asc) or non-increasing (desc) on it |
| `NotesStore.LoadedList` | src/store/notesStore.ts:83-85 | the read `loadNotesList` makes returns every stored note in storage order, with exactly id, title, createdAt and updatedAt |
| `NotesStore.SelectedRecord` | src/store/notesStore.ts:57-58 | reading by id returns nothing for an unknown id, and otherwise a first record that reads back as the stored note |
| `NotesStore.NotesStore.constructor` | src/store/notesStore.ts:29-32 | the store starts with an empty list, no selected note, and title ascending |
| `NotesStore.NotesStore.AddNote` | src/store/notesStore.ts:34-41 | creates the note as `create` does, with its two clock readings, returns its new id, and leaves `noteList`, `currentNote` and `currentSort` unchanged |
| `NotesStore.NotesStore.RemoveNote` | src/store/notesStore.ts:43-52 | deletes by id, returns the delete count, sets `currentNote` to none, and leaves `noteList` and `currentSort` unchanged |
| `NotesStore.NotesStore.SetSelectedNote` | src/store/notesStore.ts:54-71 | no id or an empty id clears the selection; an unknown id gives a not-found error and keeps the selection; otherwise the selection becomes the stored note with that id |
| `NotesStore.NotesStore.QueryNotes` | src/store/notesStore.ts:73-81 | the list becomes what `read` returns for the query and options, each defaulting to empty; the other fields are unchanged |
| `NotesStore.NotesStore.LoadNotesList` | src/store/notesStore.ts:83-90 | the list becomes every stored note, in storage order, projected to id, title and both dates; `currentSort` is left alone |
| `NotesStore.NotesStore.UpdateListNote` | src/store/notesStore.ts:103-116 | the list becomes its patch for the update; the other fields are unchanged |
| `NotesStore.NotesStore.UpdateNote` | src/store/notesStore.ts:92-101 | returns the adapter's count, changes storage as `update` does, and patches the list whatever the count |
| `NotesStore.NotesStore.SortNotes` | src/store/notesStore.ts:118-130 | criteria equal to `currentSort` change nothing; otherwise the list becomes a permutation of itself, ordered on the field whenever every entry carries it, and `currentSort` becomes the criteria |
| `NotesStore.StaleSortScenario` | src/store/notesStore.ts:118-122 | with two notes stored out of title order, `loadNotesList` followed by `sortNotes` of the initial criteria leaves the list unsorted by title |
| `ToastStore.Without` | src/store/toastStore.ts:35-37 | after removal no toast has the id, and every other toast is still there |
| `ToastStore.RemoveUnknown` | src/store/toastStore.ts:36 | removing an id that no toast has leaves the list unchanged |
| `ToastStore.RemoveTwice` | src/store/toastStore.ts:36 | removing the same id twice is removing it once |
| `ToastStore.RemoveCommutes` | src/store/toastStore.ts:31-37 | two removals, as two timers fire, give the same list in either order |
| `ToastStore.AddThenRemove` | src/store/toastStore.ts:27-36 | with a fresh id, appending a toast and then removing its id restores the previous list |
| `ToastStore.ToastQueue.constructor` | src/store/toastStore.ts:25 | the queue starts empty |
| `ToastStore.ToastQueue.AddToast` | src/store/toastStore.ts:26-28 | appends exactly one toast with the fresh id, message and type; it records the given duration, and without a duration it records 30000; existing toasts are unchanged |
| `ToastStore.ToastQueue.RemoveToast` | src/store/toastStore.ts:35-37 | the list becomes the toasts with another id, in their order |
| `ToastStore.ToastLifetime` | src/store/toastStore.ts:26-37 | adding a toast and then removing it by its own id leaves the queue as it was |

## Left out

- Storage access and JSON (src/services/db.ts:125-140). The stored
  collection is the `notes` field. Storage errors and JSON parse errors are
  not modelled, so no adapter operation fails. Also not modelled: `JSON`
  turning `Date` values into strings. That has two visible effects the
  model does not share. First, `updateListNote` stores a `Date`
  (src/store/notesStore.ts:108) next to loaded entries whose `updatedAt` is
  an ISO string; `>` between a `Date` and a string is false both ways, so
  after an `updateNote` the program's list need not be `Ordered` by
  `updatedAt` the way `NotesStore.NotesStore.SortNotes` promises. Second, a
  query filter holding a `Date` never matches a stored string under `===`
  (src/services/db.ts:35), while `Db.Matches` compares `Stamp` values by
  value.
- `uuid` v4 generation (src/services/db.ts:79, src/store/toastStore.ts:27).
  Ids are parameters that callers guarantee are unused.
- `new Date()` (src/services/db.ts:82-83, 102; src/store/notesStore.ts:108).
  Clock readings are integer parameters.
- `Db.LocalStorageStore.constructor`: requires the stored collection to have
  unique ids and `createdAt <= updatedAt` on every note. `getStoredNotes`
  (src/services/db.ts:125-129) accepts whatever the key holds; the
  requirement holds because only the adapter writes the key and an absent
  key reads as an empty collection.
- `Db.LocalStorageStore.Create`: requires the `updatedAt` reading to be no
  earlier than the `createdAt` reading, as a clock that does not go back
  gives. The source does not check this.
- `Db.LocalStorageStore.Update`: requires `ClockPast`, a clock that never
  reads earlier than any stored note's creation. The source does not check
  this.
- `NotesStore.NotesStore.UpdateNote`: the two clock readings are separate
  parameters, as in the source. `NotesStore.PatchKeepsListCurrent` states
  that the cache matches storage only when both readings are equal.
- `NotesStore.PatchList`: takes one clock reading for the whole list. The
  source reads the clock once per matching entry, which only differs when
  several entries share the id.
- `NotesStore.PatchList`: an entry that lacks `createdAt` gets no
  `createdAt` key. In JavaScript it gets the key with the value `undefined`.
- `NotesStore.NotesStore.SortNotes`: states permutation and order only.
  Because the comparator is inconsistent on ties, the order of equal
  entries is unspecified. The ordering is stated only when every entry
  carries the sort field, holding a value of its kind. The body does use
  the same insertion sort as `read`.
- `Db.LocalStorageStore.Read`: `Array.prototype.sort` is modelled as an
  insertion sort that moves an element left past every element that
  compares above it. For the consistent `sortBy` comparator, any stable
  sort gives the same result.
- Async `Promise` wrapping, zustand's `create`/`set`/`get`, and
  try/catch-and-log are left out. Store fields are updated directly. The
  only error the store reports itself, "Selected note was not found", is
  the `Outcome` of `SetSelectedNote`. The logger (src/utils/logger.ts) is
  console output.
- The `setTimeout` that removes a toast (src/store/toastStore.ts:31-33) is
  timer-driven. Only the `removeToast` it calls is modelled, with
  `ToastLifetime` standing for the whole lifetime.
- Races between in-flight full-collection rewrites are concurrency and have
  no sequential meaning here.
- All React components and pages are UI.
- `Models.StrLess`: orders strings by Dafny characters. JavaScript compares
  UTF-16 code units, and the two differ only outside the Basic Multilingual
  Plane.
- `Db.SelectLimit`: covers integer limits only. A fractional `limit`, which
  `slice` truncates, is not modelled.
- `ReadOptions.sortBy`: lists its keys in the order `Object.entries` yields
  them. An empty key list stands for `sortBy: {}`, which is truthy and sorts
  with a comparator that always returns 0, leaving the order unchanged.
