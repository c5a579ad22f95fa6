/**
 * The note state store (src/store/notesStore.ts): `useNotesStore`, which
 * keeps a projected list cache, the selected note and the current sort
 * criteria, and moves between states by calling the persistence adapter.
 */
module NotesStore {
  import opened Wrappers
  import opened Models
  import opened Seqs
  import opened Sorting
  import opened Db

  /** `NoteSortCriteria.field`. */
  datatype SortField = ByTitle | ByCreatedAt | ByUpdatedAt

  /** `NoteSortCriteria.direction`. */
  datatype Direction = Asc | Desc

  datatype SortCriteria = SortCriteria(field: SortField, direction: Direction)

  /** The note key a sort field names. */
  function FieldOf(f: SortField): (key: Field)
  {
    match f
    case ByTitle => Title
    case ByCreatedAt => CreatedAt
    case ByUpdatedAt => UpdatedAt
  }

  /** The criteria the store starts with: title, ascending. */
  const DefaultSort := SortCriteria(ByTitle, Asc)

  /** The one failure the store reports itself rather than passing on from storage. */
  datatype StoreError = NotFound(id: string)

  /** The keys of a `NoteItemList` entry. */
  const ListFields: seq<Field> := [Id, Title, CreatedAt, UpdatedAt]

  /** The options `loadNotesList` reads with. */
  const ListOptions := NoOptions.(projection := Some(ListFields))

  /** The list cache that a full load of `notes` produces. */
  function ListOf(notes: seq<Note>): (list: seq<Row>)
    ensures |list| == |notes|
  {
    seq(|notes|, i requires 0 <= i < |notes| => Project(notes[i], ListFields))
  }

  // ---------------------------------------------------------------------
  // The `updateListNote` patch

  /** `n.id === id`: an entry without an id never matches. */
  predicate IsEntryFor(entry: Row, id: string)
  {
    Id in entry && entry[Id] == Text(id)
  }

  /** `{ id, title, createdAt: n.createdAt, updatedAt: new Date() }` for a matching entry. */
  function PatchEntry(entry: Row, u: NoteUpdate, now: Timestamp): (patched: Row)
  {
    var base := map[Id := Text(u.id), Title := Text(u.title), UpdatedAt := Stamp(now)];
    if CreatedAt in entry then base[CreatedAt := entry[CreatedAt]] else base
  }

  /**
   * The list after `updateListNote(u)`: same length and order, each entry
   * for `u.id` rebuilt with the new title, a refreshed `updatedAt` and its
   * own `createdAt` (any other key it had is dropped), every other entry
   * untouched.
   */
  function PatchList(list: seq<Row>, u: NoteUpdate, now: Timestamp): (r: seq<Row>)
    ensures |r| == |list|
    ensures forall i :: 0 <= i < |list| && !IsEntryFor(list[i], u.id) ==> r[i] == list[i]
    ensures forall i :: 0 <= i < |list| && IsEntryFor(list[i], u.id) ==>
      r[i].Keys == {Id, Title, UpdatedAt} + (list[i].Keys * {CreatedAt})
      && r[i][Id] == Text(u.id) && r[i][Title] == Text(u.title) && r[i][UpdatedAt] == Stamp(now)
      && (CreatedAt in list[i] ==> r[i][CreatedAt] == list[i][CreatedAt])
  {
    seq(|list|, i requires 0 <= i < |list| =>
      if IsEntryFor(list[i], u.id) then PatchEntry(list[i], u, now) else list[i])
  }

  /** A patch for an id the list does not hold changes nothing. */
  lemma PatchListAbsent(list: seq<Row>, u: NoteUpdate, now: Timestamp)
    requires forall i :: 0 <= i < |list| ==> !IsEntryFor(list[i], u.id)
    ensures PatchList(list, u, now) == list
  {
  }

  /** Patching twice with the same update and clock reading is patching once. */
  lemma PatchListIdempotent(list: seq<Row>, u: NoteUpdate, now: Timestamp)
    ensures PatchList(PatchList(list, u, now), u, now) == PatchList(list, u, now)
  {
    var once := PatchList(list, u, now);
    var twice := PatchList(once, u, now);
    forall i | 0 <= i < |list| ensures twice[i] == once[i] {
      if IsEntryFor(list[i], u.id) {
        assert IsEntryFor(once[i], u.id);
        assert twice[i].Keys == once[i].Keys;
      }
    }
  }

  /**
   * The patch keeps a fully loaded cache in step with storage: patching the
   * list of `notes` gives the list of the notes `update` leaves behind when
   * both see the same clock reading.
   */
  lemma PatchKeepsListCurrent(notes: seq<Note>, u: NoteUpdate, now: Timestamp)
    requires UniqueIds(notes)
    ensures match FindIndex(notes, u.id)
      case Some(i) => PatchList(ListOf(notes), u, now) == ListOf(notes[i := Revise(notes[i], u, now)])
      case None => PatchList(ListOf(notes), u, now) == ListOf(notes)
  {
    var list := ListOf(notes);
    forall j | 0 <= j < |notes| ensures IsEntryFor(list[j], u.id) <==> notes[j].id == u.id {
      assert list[j][Id] == Text(notes[j].id);
    }
    match FindIndex(notes, u.id)
    case None =>
      PatchListAbsent(list, u, now);
    case Some(i) =>
      var patched := PatchList(list, u, now);
      var revised := ListOf(notes[i := Revise(notes[i], u, now)]);
      forall j | 0 <= j < |notes| ensures patched[j] == revised[j] {
        if j == i {
          PatchEntryRevises(notes[i], u, now);
        }
      }
  }

  /** Patching the list entry of a note gives the list entry of the updated note. */
  lemma PatchEntryRevises(n: Note, u: NoteUpdate, now: Timestamp)
    requires n.id == u.id
    ensures PatchEntry(Project(n, ListFields), u, now) == Project(Revise(n, u, now), ListFields)
  {
    var patched := PatchEntry(Project(n, ListFields), u, now);
    var revised := Project(Revise(n, u, now), ListFields);
    assert patched.Keys == revised.Keys;
  }

  // ---------------------------------------------------------------------
  // The `sortNotes` comparator

  /** `a[field] > b[field]`: false when either entry lacks the field. */
  predicate Greater(a: Row, b: Row, f: Field)
  {
    f in a && f in b && ValueLess(b[f], a[f])
  }

  /** `comparison = a[field] > b[field] ? 1 : -1`, negated for descending order. */
  function SortComparison(c: SortCriteria, a: Row, b: Row): (r: int)
    ensures r == 1 || r == -1
    ensures r == 1 <==> (Greater(a, b, FieldOf(c.field)) <==> c.direction == Asc)
  {
    var comparison := if Greater(a, b, FieldOf(c.field)) then 1 else -1;
    if c.direction == Asc then comparison else -comparison
  }

  function ListComparator(c: SortCriteria): (cmp: (Row, Row) -> int)
  {
    (a, b) => SortComparison(c, a, b)
  }

  /**
   * Two entries equal on the sort field each compare as the smaller one
   * (ascending) or the larger one (descending), whichever is asked first:
   * the comparator is not antisymmetric, so the order of ties is up to the
   * sort.
   */
  lemma TiesCompareInconsistently(c: SortCriteria, a: Row, b: Row)
    requires FieldOf(c.field) in a && FieldOf(c.field) in b && a[FieldOf(c.field)] == b[FieldOf(c.field)]
    requires OfKind(a[FieldOf(c.field)], FieldOf(c.field))
    ensures SortComparison(c, a, b) == SortComparison(c, b, a) == (if c.direction == Asc then -1 else 1)
  {
    var f := FieldOf(c.field);
    ValueOrder(f, a[f], a[f], a[f]);
  }

  /** Every entry has the sort field, holding a value of the field's kind. */
  predicate Sortable(list: seq<Row>, f: Field)
  {
    forall i :: 0 <= i < |list| ==> f in list[i] && OfKind(list[i][f], f)
  }

  /** `x` may come before `y`: not after it on the field, in the asked direction. */
  function InOrder(c: SortCriteria): (ok: (Row, Row) -> bool)
  {
    (x, y) => if c.direction == Asc then !Greater(x, y, FieldOf(c.field)) else !Greater(y, x, FieldOf(c.field))
  }

  /** On entries that carry the field, the comparator agrees with `InOrder`. */
  lemma ComparatorAgrees(c: SortCriteria, d: set<Row>)
    requires forall r :: r in d ==> FieldOf(c.field) in r && OfKind(r[FieldOf(c.field)], FieldOf(c.field))
    ensures Agrees(d, ListComparator(c), InOrder(c))
  {
    var f := FieldOf(c.field);
    var cmp, ok := ListComparator(c), InOrder(c);
    forall x, y | x in d && y in d ensures if cmp(x, y) > 0 then ok(y, x) else ok(x, y) {
      ValueOrder(f, x[f], y[f], x[f]);
    }
    forall x, y, z | x in d && y in d && z in d && ok(x, y) && ok(y, z) ensures ok(x, z) {
      ValueOrder(f, x[f], y[f], z[f]);
      ValueOrder(f, z[f], y[f], x[f]);
      ValueOrder(f, x[f], z[f], y[f]);
      ValueOrder(f, z[f], x[f], y[f]);
    }
  }

  /**
   * Sorting with the comparator keeps the entries and, when every entry
   * carries the field, orders them non-decreasing (ascending) or
   * non-increasing (descending) on it.
   */
  lemma SortedList(list: seq<Row>, c: SortCriteria)
    ensures var sorted := InsertionSort(list, ListComparator(c));
      multiset(sorted) == multiset(list)
      && (Sortable(list, FieldOf(c.field)) ==> Ordered(sorted, InOrder(c)))
  {
    InsertionSortPermutes(list, ListComparator(c));
    if Sortable(list, FieldOf(c.field)) {
      var d := set i | 0 <= i < |list| :: list[i];
      ComparatorAgrees(c, d);
      InsertionSortOrdered(list, ListComparator(c), InOrder(c), d);
    }
  }

  // ---------------------------------------------------------------------
  // The read a full list load makes

  /** `loadNotesList` reads every stored note, in storage order, projected to the list keys. */
  lemma LoadedList(notes: seq<Note>)
    ensures var list := Select(notes, map[], ListOptions);
      list == ListOf(notes)
      && forall i :: 0 <= i < |list| ==>
        list[i].Keys == {Id, Title, CreatedAt, UpdatedAt}
        && list[i][Id] == Text(notes[i].id) && list[i][Title] == Text(notes[i].title)
        && list[i][CreatedAt] == Stamp(notes[i].createdAt) && list[i][UpdatedAt] == Stamp(notes[i].updatedAt)
  {
  }

  /** Reading the selected note by its id returns its full record, or nothing. */
  lemma SelectedRecord(notes: seq<Note>, id: string)
    ensures var rows := Select(notes, IdQuery(id), NoOptions);
      match FindIndex(notes, id)
      case None => |rows| == 0
      case Some(i) => |rows| > 0 && NoteOf(rows[0]) == Some(notes[i])
  {
    SelectById(notes, id);
    if FindIndex(notes, id).Some? {
      NoteOfToRow(notes[FindIndex(notes, id).value]);
    }
  }

  // ---------------------------------------------------------------------
  // The store

  class NotesStore {
    /** The adapter every operation goes through. */
    const db: LocalStorageStore
    var noteList: seq<Row>
    var currentNote: Option<Note>
    var currentSort: SortCriteria

    ghost predicate Valid()
      reads this, db
    {
      db.Valid()
    }

    /** The initial state: an empty list, nothing selected, title ascending. */
    constructor (db: LocalStorageStore)
      requires db.Valid()
      ensures this.db == db && Valid()
      ensures noteList == [] && currentNote == None && currentSort == DefaultSort
    {
      this.db := db;
      noteList := [];
      currentNote := None;
      currentSort := DefaultSort;
    }

    /**
     * `addNote`: creates the note with the clock readings `create` takes and
     * returns its id; the store's own fields stay as they are.
     */
    method AddNote(note: NoteNew, id: string, createdNow: Timestamp, updatedNow: Timestamp) returns (newId: string)
      requires Valid() && IdFree(db.notes, id) && createdNow <= updatedNow
      modifies db
      ensures Valid() && newId == id
      ensures db.notes == old(db.notes) + [Note(id, note.title, note.content, createdNow, updatedNow)]
      ensures noteList == old(noteList) && currentNote == old(currentNote) && currentSort == old(currentSort)
    {
      newId := db.Create(note, id, createdNow, updatedNow);
    }

    /**
     * `removeNote`: deletes by id, returns the count and clears the selection
     * whatever was removed; the list cache keeps the removed entry.
     */
    method RemoveNote(id: string) returns (count: int)
      requires Valid()
      modifies db, this
      ensures Valid()
      ensures db.notes == Keep(old(db.notes), KeptAfter([id]))
      ensures count == |Keep(old(db.notes), RemovedBy([id]))|
      ensures currentNote == None
      ensures noteList == old(noteList) && currentSort == old(currentSort)
    {
      count := db.Delete(OneId(id));
      var _ := SetSelectedNote(None);
    }

    /**
     * `setSelectedNote`: no id or an empty id clears the selection without
     * reading; an id nothing is stored under is an error that keeps the
     * selection; otherwise the selection becomes the stored note.
     */
    method SetSelectedNote(id: Option<string>) returns (outcome: Outcome<StoreError>)
      requires Valid()
      modifies this
      ensures Valid()
      ensures noteList == old(noteList) && currentSort == old(currentSort)
      ensures id.None? || id.value == "" ==> outcome == Pass && currentNote == None
      ensures id.Some? && id.value != "" ==>
        match FindIndex(db.notes, id.value)
        case None => outcome == Fail(NotFound(id.value)) && currentNote == old(currentNote)
        case Some(i) => outcome == Pass && currentNote == Some(db.notes[i])
    {
      if id.None? || id.value == "" {
        currentNote := None;
        return Pass;
      }
      var rows := db.Read(IdQuery(id.value), NoOptions);
      SelectedRecord(db.notes, id.value);
      if |rows| == 0 {
        return Fail(NotFound(id.value));
      }
      currentNote := NoteOf(rows[0]);
      outcome := Pass;
    }

    /** `queryNotes`: replaces the list with a read; both arguments default to empty. */
    method QueryNotes(query: Option<Query>, options: Option<ReadOptions>)
      requires Valid()
      modifies this
      ensures Valid()
      ensures noteList == Select(db.notes, query.GetOr(map[]), options.GetOr(NoOptions))
      ensures currentNote == old(currentNote) && currentSort == old(currentSort)
    {
      noteList := db.Read(query.GetOr(map[]), options.GetOr(NoOptions));
    }

    /**
     * `loadNotesList`: the list becomes every stored note in storage order,
     * projected to id, title and both dates; it is not sorted, and
     * `currentSort` is left as it was.
     */
    method LoadNotesList()
      requires Valid()
      modifies this
      ensures Valid()
      ensures noteList == ListOf(db.notes)
      ensures currentNote == old(currentNote) && currentSort == old(currentSort)
    {
      QueryNotes(None, Some(ListOptions));
      LoadedList(db.notes);
    }

    /** `updateListNote`: patches the cached entries for the note's id. */
    method UpdateListNote(u: NoteUpdate, now: Timestamp)
      modifies this
      ensures noteList == PatchList(old(noteList), u, now)
      ensures currentNote == old(currentNote) && currentSort == old(currentSort)
    {
      noteList := PatchList(noteList, u, now);
    }

    /**
     * `updateNote`: updates storage at clock reading `dbNow`, then patches the
     * list at `listNow` whether or not a note was updated, and returns the
     * adapter's count.
     */
    method UpdateNote(u: NoteUpdate, dbNow: Timestamp, listNow: Timestamp) returns (count: int)
      requires Valid() && ClockPast(db.notes, dbNow)
      modifies db, this
      ensures Valid()
      ensures match FindIndex(old(db.notes), u.id)
        case Some(i) => count == 1 && db.notes == old(db.notes)[i := Revise(old(db.notes)[i], u, dbNow)]
        case None => count == 0 && db.notes == old(db.notes)
      ensures noteList == PatchList(old(noteList), u, listNow)
      ensures currentNote == old(currentNote) && currentSort == old(currentSort)
    {
      count := db.Update(u, dbNow);
      UpdateListNote(u, listNow);
    }

    /**
     * `sortNotes`: nothing happens when the criteria equal `currentSort`;
     * otherwise the list is re-ordered, ordered on the field whenever every
     * entry carries it, and the criteria are recorded.
     */
    method SortNotes(criteria: SortCriteria)
      modifies this
      ensures currentNote == old(currentNote)
      ensures criteria == old(currentSort) ==> noteList == old(noteList) && currentSort == old(currentSort)
      ensures criteria != old(currentSort) ==>
        currentSort == criteria
        && multiset(noteList) == multiset(old(noteList))
        && (Sortable(old(noteList), FieldOf(criteria.field)) ==> Ordered(noteList, InOrder(criteria)))
    {
      if criteria == currentSort {
        return;
      }
      var list := noteList;
      var a := new Row[|list|](i requires 0 <= i < |list| => list[i]);
      assert a[..] == list;
      SortInPlace(a, ListComparator(criteria));
      SortedList(list, criteria);
      noteList := a[..];
      currentSort := criteria;
    }
  }

  /**
   * A right-after-start session: with two notes stored out of title order,
   * `loadNotesList` followed by `sortNotes` of the initial criteria leaves
   * the list in storage order, not sorted by title.
   */
  method StaleSortScenario(first: Note, second: Note) returns (list: seq<Row>)
    requires first.id != second.id && StrLess(second.title, first.title)
    requires first.createdAt <= first.updatedAt && second.createdAt <= second.updatedAt
    ensures list == ListOf([first, second])
    ensures !Ordered(list, InOrder(DefaultSort))
  {
    var db := new LocalStorageStore([first, second]);
    var store := new NotesStore(db);
    store.LoadNotesList();
    store.SortNotes(DefaultSort);
    list := store.noteList;
    assert Greater(list[0], list[1], Title);
  }
}
