/**
 * The note persistence adapter (src/services/db.ts): `LocalStorageStore`,
 * which keeps the whole note collection as one sequence and answers `read`
 * with an in-memory filter, sort, projection and limit.
 */
module Db {
  import opened Wrappers
  import opened Models
  import opened Seqs
  import opened Sorting

  /** A `sortBy` order: 1 ascending, -1 descending. */
  type SortOrder = x: int | x == 1 || x == -1 witness 1

  /** One entry of a `sortBy` object, which are taken in insertion order. */
  datatype SortKey = SortKey(field: Field, order: SortOrder)

  /** `EntityQueryOptions<Note>`; `skip` is accepted and never applied. */
  datatype ReadOptions = ReadOptions(skip: Option<int>, limit: Option<int>,
                                     sortBy: Option<seq<SortKey>>, projection: Option<seq<Field>>)

  const NoOptions := ReadOptions(None, None, None, None)

  /** `Partial<Note>` used as a filter: each key must equal the given value. */
  type Query = map<Field, Value>

  /** `{ id }`. */
  function IdQuery(id: string): (q: Query)
  {
    map[Id := Text(id)]
  }

  /** `delete` takes one id or a list of ids. */
  datatype IdSelector = OneId(id: string) | ManyIds(ids: seq<string>)

  /** `Array.isArray(noteId) ? noteId : [noteId]`. */
  function IdsToDelete(target: IdSelector): (ids: seq<string>)
  {
    match target
    case OneId(id) => [id]
    case ManyIds(ids) => ids
  }

  // ---------------------------------------------------------------------
  // Invariants of the stored collection

  predicate UniqueIds(notes: seq<Note>)
  {
    forall i, j :: 0 <= i < j < |notes| ==> notes[i].id != notes[j].id
  }

  predicate TimesOrdered(notes: seq<Note>)
  {
    forall n :: n in notes ==> n.createdAt <= n.updatedAt
  }

  /** The clock reading `now` is not earlier than any note's creation. */
  predicate ClockPast(notes: seq<Note>, now: Timestamp)
  {
    forall n :: n in notes ==> n.createdAt <= now
  }

  predicate IdFree(notes: seq<Note>, id: string)
  {
    forall i :: 0 <= i < |notes| ==> notes[i].id != id
  }

  /** `notes.find((n) => n.id === id)`, as the index of the note found. */
  function FindIndex(notes: seq<Note>, id: string): (r: Option<nat>)
    ensures r.Some? ==> r.value < |notes| && notes[r.value].id == id
    ensures r.Some? ==> forall j :: 0 <= j < r.value ==> notes[j].id != id
    ensures r.None? <==> IdFree(notes, id)
  {
    if notes == [] then None
    else if notes[0].id == id then Some(0)
    else match FindIndex(notes[1..], id)
      case None => None
      case Some(k) => Some(k + 1)
  }

  /** A note after `update`: new title and content, `updatedAt` refreshed. */
  function Revise(n: Note, u: NoteUpdate, now: Timestamp): (revised: Note)
  {
    n.(title := u.title, content := u.content, updatedAt := now)
  }

  // ---------------------------------------------------------------------
  // The stages of `read`

  predicate Matches(query: Query, n: Note)
  {
    forall f :: f in query ==> FieldValue(n, f) == query[f]
  }

  function MatchesQuery(query: Query): (p: Note -> bool)
  {
    n => Matches(query, n)
  }

  /** The filter: an empty query keeps the collection as it is. */
  function Filtered(notes: seq<Note>, query: Query): (filtered: seq<Note>)
  {
    if |query| == 0 then notes else Keep(notes, MatchesQuery(query))
  }

  /** The `sortBy` comparator: the first key on which the two differ decides. */
  function Compare(keys: seq<SortKey>, a: Note, b: Note): (c: int)
    ensures c == -1 || c == 0 || c == 1
  {
    if keys == [] then 0
    else
      var fa, fb := FieldValue(a, keys[0].field), FieldValue(b, keys[0].field);
      if ValueLess(fa, fb) then (if keys[0].order == 1 then -1 else 1)
      else if ValueLess(fb, fa) then (if keys[0].order == 1 then 1 else -1)
      else Compare(keys[1..], a, b)
  }

  function KeyComparator(keys: seq<SortKey>): (cmp: (Note, Note) -> int)
  {
    (a, b) => Compare(keys, a, b)
  }

  function Sorted(notes: seq<Note>, sortBy: Option<seq<SortKey>>): (sorted: seq<Note>)
  {
    match sortBy
    case None => notes
    case Some(keys) => InsertionSort(notes, KeyComparator(keys))
  }

  /** The record holding only the listed fields of `n`. */
  function Project(n: Note, fields: seq<Field>): (r: Row)
  {
    map f | f in fields :: FieldValue(n, f)
  }

  function Rows(notes: seq<Note>): (rows: seq<Row>)
    ensures |rows| == |notes|
  {
    seq(|notes|, i requires 0 <= i < |notes| => ToRow(notes[i]))
  }

  /** An absent or empty projection keeps full records. */
  function Projected(notes: seq<Note>, projection: Option<seq<Field>>): (rows: seq<Row>)
    ensures |rows| == |notes|
  {
    if projection.Some? && |projection.value| > 0
    then seq(|notes|, i requires 0 <= i < |notes| => Project(notes[i], projection.value))
    else Rows(notes)
  }

  /** Where `slice(0, end)` stops on a sequence of length `len`; a negative end counts from the back. */
  function SliceEnd(len: nat, end: int): (k: nat)
    ensures k <= len
  {
    if end < 0 then (if len + end < 0 then 0 else len + end)
    else if end > len then len
    else end
  }

  /** `if (options.limit)`: an absent or zero limit returns everything. */
  function Limited<T>(rows: seq<T>, limit: Option<int>): (limited: seq<T>)
  {
    if limit.None? || limit.value == 0 then rows else rows[..SliceEnd(|rows|, limit.value)]
  }

  /** What `read({ query, options })` returns for the stored collection `notes`. */
  function Select(notes: seq<Note>, query: Query, options: ReadOptions): (rows: seq<Row>)
    ensures notes == [] ==> rows == []
    ensures |rows| <= |notes|
  {
    if |notes| == 0 then []
    else
      var filtered := Filtered(notes, query);
      Limited(Projected(Sorted(filtered, options.sortBy), options.projection), options.limit)
  }

  // ---------------------------------------------------------------------
  // The comparator is a lexicographic total preorder

  /** `a` and `b` agree on every key field. */
  ghost predicate SameOn(keys: seq<SortKey>, a: Note, b: Note)
  {
    forall i :: 0 <= i < |keys| ==> FieldValue(a, keys[i].field) == FieldValue(b, keys[i].field)
  }

  /** Key `k` alone puts `a` strictly before `b`. */
  ghost predicate Precedes(k: SortKey, a: Note, b: Note)
  {
    if k.order == 1 then ValueLess(FieldValue(a, k.field), FieldValue(b, k.field))
    else ValueLess(FieldValue(b, k.field), FieldValue(a, k.field))
  }

  /** Lexicographic order: equal on the keys before position `p`, and before at key `p`. */
  ghost predicate LexBefore(keys: seq<SortKey>, a: Note, b: Note)
  {
    exists p :: 0 <= p < |keys| && SameOn(keys[..p], a, b) && Precedes(keys[p], a, b)
  }

  lemma FieldValueOrder(f: Field, a: Note, b: Note, c: Note)
    ensures !ValueLess(FieldValue(a, f), FieldValue(a, f))
    ensures ValueLess(FieldValue(a, f), FieldValue(b, f)) ==> !ValueLess(FieldValue(b, f), FieldValue(a, f))
    ensures ValueLess(FieldValue(a, f), FieldValue(b, f)) && ValueLess(FieldValue(b, f), FieldValue(c, f))
            ==> ValueLess(FieldValue(a, f), FieldValue(c, f))
    ensures FieldValue(a, f) == FieldValue(b, f) || ValueLess(FieldValue(a, f), FieldValue(b, f))
            || ValueLess(FieldValue(b, f), FieldValue(a, f))
  {
    var va, vb, vc := FieldValue(a, f), FieldValue(b, f), FieldValue(c, f);
    ValueOrder(f, va, vb, vc);
    ValueOrder(f, va, vb, va);
  }

  /** Swapping the arguments negates the comparison. */
  lemma {:induction false} CompareAntisymmetric(keys: seq<SortKey>, a: Note, b: Note)
    ensures Compare(keys, a, b) == -Compare(keys, b, a)
  {
    if keys != [] {
      FieldValueOrder(keys[0].field, a, b, a);
      CompareAntisymmetric(keys[1..], a, b);
    }
  }

  /** Two notes compare 0 exactly when they are equal on every key. */
  lemma {:induction false} CompareZero(keys: seq<SortKey>, a: Note, b: Note)
    ensures Compare(keys, a, b) == 0 <==> SameOn(keys, a, b)
  {
    if keys != [] {
      FieldValueOrder(keys[0].field, a, b, a);
      CompareZero(keys[1..], a, b);
      if SameOn(keys[1..], a, b) && FieldValue(a, keys[0].field) == FieldValue(b, keys[0].field) {
        forall i | 0 <= i < |keys|
          ensures FieldValue(a, keys[i].field) == FieldValue(b, keys[i].field)
        {
          if i > 0 {
            assert keys[i] == keys[1..][i - 1];
          }
        }
      }
      if SameOn(keys, a, b) {
        forall i | 0 <= i < |keys[1..]|
          ensures FieldValue(a, keys[1..][i].field) == FieldValue(b, keys[1..][i].field)
        {
          assert keys[1..][i] == keys[i + 1];
        }
      }
    }
  }

  /** "Not after" is transitive. */
  lemma {:induction false} CompareTransitive(keys: seq<SortKey>, a: Note, b: Note, c: Note)
    requires Compare(keys, a, b) <= 0 && Compare(keys, b, c) <= 0
    ensures Compare(keys, a, c) <= 0
  {
    if keys != [] {
      var f := keys[0].field;
      FieldValueOrder(f, a, b, c);
      FieldValueOrder(f, c, b, a);
      FieldValueOrder(f, b, c, a);
      FieldValueOrder(f, a, c, b);
      if FieldValue(a, f) == FieldValue(b, f) && FieldValue(b, f) == FieldValue(c, f) {
        CompareTransitive(keys[1..], a, b, c);
      }
    }
  }

  /** The comparator returns -1 exactly when the keys, in order, put `a` before `b`. */
  lemma {:induction false} CompareLexicographic(keys: seq<SortKey>, a: Note, b: Note)
    ensures Compare(keys, a, b) == -1 <==> LexBefore(keys, a, b)
  {
    if keys != [] {
      var k := keys[0];
      FieldValueOrder(k.field, a, b, a);
      CompareLexicographic(keys[1..], a, b);
      if Precedes(k, a, b) {
        assert SameOn(keys[..0], a, b);
      } else if FieldValue(a, k.field) == FieldValue(b, k.field) {
        if LexBefore(keys[1..], a, b) {
          var p :| 0 <= p < |keys[1..]| && SameOn(keys[1..][..p], a, b) && Precedes(keys[1..][p], a, b);
          var pre, tail := keys[..p + 1], keys[1..][..p];
          forall i | 0 <= i < |pre|
            ensures FieldValue(a, pre[i].field) == FieldValue(b, pre[i].field)
          {
            if i > 0 {
              assert pre[i] == tail[i - 1];
            }
          }
          assert Precedes(keys[p + 1], a, b);
        }
        if LexBefore(keys, a, b) {
          var p :| 0 <= p < |keys| && SameOn(keys[..p], a, b) && Precedes(keys[p], a, b);
          assert p > 0;
          var pre, tail := keys[..p], keys[1..][..p - 1];
          forall i | 0 <= i < |tail|
            ensures FieldValue(a, tail[i].field) == FieldValue(b, tail[i].field)
          {
            assert tail[i] == pre[i + 1];
          }
          assert keys[1..][p - 1] == keys[p];
        }
      } else {
        assert Precedes(k, b, a);
        assert !LexBefore(keys, a, b);
      }
    }
  }

  // ---------------------------------------------------------------------
  // Properties of the sort

  function SameKeysAs(keys: seq<SortKey>, k: Note): (p: Note -> bool)
  {
    x => Compare(keys, x, k) == 0
  }

  /** The set of notes in a sequence. */
  ghost function Elements(notes: seq<Note>): (d: set<Note>)
  {
    set i | 0 <= i < |notes| :: notes[i]
  }

  /** Sorting only rearranges the filtered records. */
  lemma SortByPermutes(notes: seq<Note>, keys: seq<SortKey>)
    ensures multiset(Sorted(notes, Some(keys))) == multiset(notes)
  {
    InsertionSortPermutes(notes, KeyComparator(keys));
  }

  /** The sorted records are ordered by the comparator: no record compares above a later one. */
  lemma SortByOrdered(notes: seq<Note>, keys: seq<SortKey>)
    ensures var r := Sorted(notes, Some(keys));
      forall i, j :: 0 <= i < j < |r| ==> Compare(keys, r[i], r[j]) <= 0
  {
    var cmp := KeyComparator(keys);
    var ok := (x, y) => Compare(keys, x, y) <= 0;
    var d := Elements(notes);
    forall x, y | x in d && y in d
      ensures if cmp(x, y) > 0 then ok(y, x) else ok(x, y)
    {
      CompareAntisymmetric(keys, x, y);
    }
    forall x, y, z | x in d && y in d && z in d && ok(x, y) && ok(y, z)
      ensures ok(x, z)
    {
      CompareTransitive(keys, x, y, z);
    }
    InsertionSortOrdered(notes, cmp, ok, d);
  }

  /** Stability: records equal on all keys keep their storage order. */
  lemma SortByStable(notes: seq<Note>, keys: seq<SortKey>, k: Note)
    ensures Keep(Sorted(notes, Some(keys)), SameKeysAs(keys, k)) == Keep(notes, SameKeysAs(keys, k))
  {
    var p := SameKeysAs(keys, k);
    var d := Elements(notes);
    forall a, b | a in d && b in d && p(a) && p(b)
      ensures Compare(keys, a, b) <= 0
    {
      CompareZero(keys, a, k);
      CompareZero(keys, b, k);
      CompareZero(keys, a, b);
    }
    InsertionSortStable(notes, KeyComparator(keys), p, d);
  }

  // ---------------------------------------------------------------------
  // Properties of `read`

  /** Each record holds, for every field it has, that field of note `n`. */
  ghost predicate RestrictionOf(r: Row, n: Note)
  {
    forall f :: f in r ==> r[f] == FieldValue(n, f)
  }

  /** `r` is the restriction of a stored note that matches the query. */
  ghost predicate FromStore(r: Row, notes: seq<Note>, query: Query)
  {
    exists n :: n in notes && Matches(query, n) && RestrictionOf(r, n)
  }

  lemma SortedMembers(notes: seq<Note>, sortBy: Option<seq<SortKey>>)
    ensures |Sorted(notes, sortBy)| == |notes|
    ensures forall i :: 0 <= i < |Sorted(notes, sortBy)| ==> Sorted(notes, sortBy)[i] in notes
  {
    if sortBy.Some? {
      var r := Sorted(notes, sortBy);
      SortByPermutes(notes, sortBy.value);
      forall i | 0 <= i < |r| ensures r[i] in notes {
        assert r[i] in multiset(r);
      }
    }
  }

  /** An id query keeps exactly the notes with that id. */
  lemma MatchesId(id: string, n: Note)
    ensures Matches(IdQuery(id), n) <==> n.id == id
  {
    assert Id in IdQuery(id);
  }

  /**
   * Without options, `read` returns, as full records and in storage order,
   * exactly the stored notes that match the query.
   */
  lemma SelectPlain(notes: seq<Note>, query: Query)
    ensures Select(notes, query, NoOptions) == Rows(Keep(notes, MatchesQuery(query)))
  {
    if |query| == 0 {
      KeepAll(notes, MatchesQuery(query));
    }
  }

  /** A record is returned exactly when it is a stored note that matches the query. */
  lemma SelectFilters(notes: seq<Note>, query: Query, n: Note)
    ensures ToRow(n) in Select(notes, query, NoOptions) <==> n in notes && Matches(query, n)
  {
    SelectPlain(notes, query);
    var kept := Keep(notes, MatchesQuery(query));
    if ToRow(n) in Rows(kept) {
      var i :| 0 <= i < |kept| && Rows(kept)[i] == ToRow(n);
      NoteOfToRow(n);
      NoteOfToRow(kept[i]);
      assert kept[i] in notes;
    }
    if n in notes && Matches(query, n) {
      var i :| 0 <= i < |kept| && kept[i] == n;
      assert Rows(kept)[i] == ToRow(n);
    }
  }

  /** An empty query and no options return every record in storage order. */
  lemma SelectAll(notes: seq<Note>)
    ensures Select(notes, map[], NoOptions) == Rows(notes)
  {
  }

  /** Every returned record is the restriction of a stored note that matches the query. */
  lemma SelectRowsFromStore(notes: seq<Note>, query: Query, options: ReadOptions)
    ensures var rows := Select(notes, query, options);
      forall i :: 0 <= i < |rows| ==> FromStore(rows[i], notes, query)
  {
    var rows := Select(notes, query, options);
    if |notes| > 0 {
      var filtered := Filtered(notes, query);
      var sorted := Sorted(filtered, options.sortBy);
      var projected := Projected(sorted, options.projection);
      SortedMembers(filtered, options.sortBy);
      forall i | 0 <= i < |rows|
        ensures FromStore(rows[i], notes, query)
      {
        assert rows[i] == projected[i];
        var n := sorted[i];
        assert n in filtered;
        assert n in notes && Matches(query, n) by {
          if |query| > 0 {
            var k :| 0 <= k < |filtered| && filtered[k] == n;
          }
        }
        assert RestrictionOf(rows[i], n);
      }
    }
  }

  /** Every returned record equals the query on each query key it carries. */
  lemma SelectAgreesWithQuery(notes: seq<Note>, query: Query, options: ReadOptions)
    ensures var rows := Select(notes, query, options);
      forall i, f :: 0 <= i < |rows| && f in query && f in rows[i] ==> rows[i][f] == query[f]
  {
    var rows := Select(notes, query, options);
    SelectRowsFromStore(notes, query, options);
    forall i, f | 0 <= i < |rows| && f in query && f in rows[i]
      ensures rows[i][f] == query[f]
    {
      var n :| n in notes && Matches(query, n) && RestrictionOf(rows[i], n);
    }
  }

  /**
   * With a non-empty projection each record has exactly the listed fields;
   * with an absent or empty one each record is a full note.
   */
  lemma SelectProjection(notes: seq<Note>, query: Query, options: ReadOptions)
    ensures var rows := Select(notes, query, options);
      forall i :: 0 <= i < |rows| ==>
        if options.projection.Some? && |options.projection.value| > 0
        then rows[i].Keys == set f | f in options.projection.value
        else NoteOf(rows[i]).Some?
  {
  }

  /**
   * The limit keeps a prefix of what filter, sort and projection produce:
   * the first `limit` records when positive, everything when absent or 0,
   * and all but the last `-limit` when negative.
   */
  lemma SelectLimit(notes: seq<Note>, query: Query, options: ReadOptions)
    ensures var all := Select(notes, query, options.(limit := None));
      var rows := Select(notes, query, options);
      match options.limit
      case None => rows == all
      case Some(k) =>
        if k == 0 then rows == all
        else if k > 0 then rows == all[..if k < |all| then k else |all|]
        else rows == all[..if |all| + k > 0 then |all| + k else 0]
  {
  }

  /** `skip` has no effect on what `read` returns. */
  lemma SelectIgnoresSkip(notes: seq<Note>, query: Query, options: ReadOptions, skip: Option<int>)
    ensures Select(notes, query, options.(skip := skip)) == Select(notes, query, options)
  {
  }

  /**
   * With `sortBy`, the filtered records come back as a permutation, ordered
   * by the comparator, with records equal on every key in storage order.
   */
  lemma SelectSorted(notes: seq<Note>, query: Query, keys: seq<SortKey>)
    ensures var filtered := Filtered(notes, query);
      var sorted := Sorted(filtered, Some(keys));
      Select(notes, query, NoOptions.(sortBy := Some(keys))) == Rows(sorted)
      && multiset(sorted) == multiset(filtered)
      && (forall i, j :: 0 <= i < j < |sorted| ==> Compare(keys, sorted[i], sorted[j]) <= 0)
      && (forall k :: Keep(sorted, SameKeysAs(keys, k)) == Keep(filtered, SameKeysAs(keys, k)))
  {
    var filtered := Filtered(notes, query);
    SortByPermutes(filtered, keys);
    SortByOrdered(filtered, keys);
    forall k ensures Keep(Sorted(filtered, Some(keys)), SameKeysAs(keys, k)) == Keep(filtered, SameKeysAs(keys, k)) {
      SortByStable(filtered, keys, k);
    }
  }

  /** Reading by id finds the first note with that id, and nothing when there is none. */
  lemma SelectById(notes: seq<Note>, id: string)
    ensures var rows := Select(notes, IdQuery(id), NoOptions);
      (|rows| == 0 <==> IdFree(notes, id))
      && (FindIndex(notes, id).Some? ==> rows[0] == ToRow(notes[FindIndex(notes, id).value]))
  {
    SelectPlain(notes, IdQuery(id));
    var p := MatchesQuery(IdQuery(id));
    forall j | 0 <= j < |notes| ensures p(notes[j]) <==> notes[j].id == id {
      MatchesId(id, notes[j]);
    }
    match FindIndex(notes, id)
    case None =>
      KeepNone(notes, p);
      assert Rows(Keep(notes, p)) == [];
    case Some(i) =>
      KeepFirst(notes, p, i);
      assert Rows(Keep(notes, p))[0] == ToRow(notes[i]);
  }

  /** With unique ids, reading by a stored id yields exactly that one record. */
  lemma SelectByUniqueId(notes: seq<Note>, i: nat)
    requires UniqueIds(notes) && i < |notes|
    ensures Select(notes, IdQuery(notes[i].id), NoOptions) == [ToRow(notes[i])]
  {
    var id := notes[i].id;
    SelectPlain(notes, IdQuery(id));
    var p := MatchesQuery(IdQuery(id));
    forall j | 0 <= j < |notes| ensures p(notes[j]) <==> notes[j].id == id {
      MatchesId(id, notes[j]);
    }
    KeepFirst(notes, p, i);
    var rest := notes[i + 1..];
    assert forall j :: 0 <= j < |rest| ==> rest[j] == notes[i + 1 + j];
    KeepNone(rest, p);
  }

  /** After `create`, reading by the new id yields exactly the new record. */
  lemma ReadAfterCreate(notes: seq<Note>, note: NoteNew, id: string, createdNow: Timestamp, updatedNow: Timestamp)
    requires UniqueIds(notes) && IdFree(notes, id)
    ensures var created := Note(id, note.title, note.content, createdNow, updatedNow);
      Select(notes + [created], IdQuery(id), NoOptions) == [ToRow(created)]
  {
    var created := Note(id, note.title, note.content, createdNow, updatedNow);
    SelectByUniqueId(notes + [created], |notes|);
  }

  /** After `update` of a stored id, reading by it yields the revised record. */
  lemma ReadAfterUpdate(notes: seq<Note>, u: NoteUpdate, now: Timestamp)
    requires UniqueIds(notes) && FindIndex(notes, u.id).Some?
    ensures var i := FindIndex(notes, u.id).value;
      Select(notes[i := Revise(notes[i], u, now)], IdQuery(u.id), NoOptions) == [ToRow(Revise(notes[i], u, now))]
  {
    var i := FindIndex(notes, u.id).value;
    var updated := notes[i := Revise(notes[i], u, now)];
    SelectByUniqueId(updated, i);
  }

  /**
   * A second identical update finds the same note again and leaves title and
   * content as the first left them; only `updatedAt` moves on.
   */
  lemma UpdateTwice(notes: seq<Note>, u: NoteUpdate, first: Timestamp, second: Timestamp)
    requires FindIndex(notes, u.id).Some?
    ensures var i := FindIndex(notes, u.id).value;
      var once := notes[i := Revise(notes[i], u, first)];
      FindIndex(once, u.id) == Some(i)
      && once[i := Revise(once[i], u, second)] == notes[i := Revise(notes[i], u, second)]
      && once[i].title == u.title && once[i].content == u.content
  {
    var i := FindIndex(notes, u.id).value;
    var once := notes[i := Revise(notes[i], u, first)];
    assert once[i].id == u.id;
    assert forall j :: 0 <= j < i ==> once[j].id != u.id;
  }

  function KeptAfter(ids: seq<string>): (p: Note -> bool)
  {
    (n: Note) => n.id !in ids
  }

  function RemovedBy(ids: seq<string>): (p: Note -> bool)
  {
    (n: Note) => n.id in ids
  }

  /** `initialLength - filteredNotes.length` is the number of notes whose id was listed. */
  lemma DeleteCount(notes: seq<Note>, ids: seq<string>)
    ensures |notes| - |Keep(notes, KeptAfter(ids))| == |Keep(notes, RemovedBy(ids))|
  {
    KeepSplit(notes, RemovedBy(ids), KeptAfter(ids));
  }

  /** After `delete`, reading a deleted id yields nothing, whatever the options. */
  lemma ReadAfterDelete(notes: seq<Note>, ids: seq<string>, id: string, options: ReadOptions)
    requires id in ids
    ensures Select(Keep(notes, KeptAfter(ids)), IdQuery(id), options) == []
  {
    var kept := Keep(notes, KeptAfter(ids));
    var p := MatchesQuery(IdQuery(id));
    forall j | 0 <= j < |kept| ensures p(kept[j]) <==> kept[j].id == id {
      MatchesId(id, kept[j]);
    }
    assert forall j :: 0 <= j < |kept| ==> kept[j] in notes && KeptAfter(ids)(kept[j]);
    KeepNone(kept, p);
  }

  lemma {:induction false} KeepUnique(notes: seq<Note>, p: Note -> bool)
    requires UniqueIds(notes)
    ensures UniqueIds(Keep(notes, p))
  {
    if notes != [] {
      KeepUnique(notes[1..], p);
      var rest := Keep(notes[1..], p);
      forall j | 0 <= j < |rest| ensures rest[j].id != notes[0].id {
        var k :| 0 <= k < |notes[1..]| && notes[1..][k] == rest[j];
        assert notes[k + 1] == rest[j];
      }
    }
  }

  // ---------------------------------------------------------------------
  // The adapter

  class LocalStorageStore {
    /** The note collection kept under the storage key `notes`. */
    var notes: seq<Note>

    /** Ids are unique and no note was updated before it was created. */
    ghost predicate Valid()
      reads this
    {
      UniqueIds(notes) && TimesOrdered(notes)
    }

    /** An adapter over the collection already in storage (empty when the key is absent). */
    constructor (stored: seq<Note>)
      requires UniqueIds(stored) && TimesOrdered(stored)
      ensures notes == stored && Valid()
    {
      notes := stored;
    }

    /** `read`: filter, sort in place, project field by field, then limit. */
    method Read(query: Query, options: ReadOptions) returns (rows: seq<Row>)
      ensures rows == Select(notes, query, options)
    {
      if |notes| == 0 {
        return [];
      }
      var filtered := Filtered(notes, query);
      var sorted := SortCopy(filtered, options.sortBy);
      var projected := ProjectAll(sorted, options.projection);
      rows := Limited(projected, options.limit);
    }

    /**
     * `create`: append a note with the fresh id, stamped with the two clock
     * readings taken for `createdAt` and then for `updatedAt`.
     */
    method Create(note: NoteNew, id: string, createdNow: Timestamp, updatedNow: Timestamp) returns (newId: string)
      requires Valid() && IdFree(notes, id) && createdNow <= updatedNow
      modifies this
      ensures Valid()
      ensures newId == id
      ensures notes == old(notes) + [Note(id, note.title, note.content, createdNow, updatedNow)]
      ensures notes[|notes| - 1].createdAt <= notes[|notes| - 1].updatedAt
    {
      var saved := Note(id, note.title, note.content, createdNow, updatedNow);
      notes := notes + [saved];
      newId := id;
    }

    /** `update`: revise the first note with the id and report 1, or report 0 and write nothing. */
    method Update(u: NoteUpdate, now: Timestamp) returns (count: int)
      requires Valid() && ClockPast(notes, now)
      modifies this
      ensures Valid()
      ensures match FindIndex(old(notes), u.id)
        case Some(i) => count == 1 && notes == old(notes)[i := Revise(old(notes)[i], u, now)]
        case None => count == 0 && notes == old(notes)
    {
      match FindIndex(notes, u.id) {
        case Some(i) =>
          assert notes[i] in notes;
          notes := notes[i := Revise(notes[i], u, now)];
          count := 1;
        case None =>
          count := 0;
      }
    }

    /** `delete`: drop every note whose id is listed, keeping the rest in order, and report how many went. */
    method Delete(target: IdSelector) returns (count: int)
      requires Valid()
      modifies this
      ensures Valid()
      ensures notes == Keep(old(notes), KeptAfter(IdsToDelete(target)))
      ensures count == |old(notes)| - |notes| == |Keep(old(notes), RemovedBy(IdsToDelete(target)))|
    {
      var ids := IdsToDelete(target);
      var initialLength := |notes|;
      KeepUnique(notes, KeptAfter(ids));
      DeleteCount(notes, ids);
      notes := Keep(notes, KeptAfter(ids));
      count := initialLength - |notes|;
    }
  }

  /** `filteredNotes.sort(...)` on a fresh array holding the filtered notes, when `sortBy` is given. */
  method SortCopy(filtered: seq<Note>, sortBy: Option<seq<SortKey>>) returns (sorted: seq<Note>)
    ensures sorted == Sorted(filtered, sortBy)
  {
    var a := new Note[|filtered|](i requires 0 <= i < |filtered| => filtered[i]);
    assert a[..] == filtered;
    if sortBy.Some? {
      SortInPlace(a, KeyComparator(sortBy.value));
    }
    sorted := a[..];
  }

  /** The projection stage: each record built field by field when a non-empty projection is given. */
  method ProjectAll(sorted: seq<Note>, projection: Option<seq<Field>>) returns (projected: seq<Row>)
    ensures projected == Projected(sorted, projection)
  {
    if projection.Some? && |projection.value| > 0 {
      var fields := projection.value;
      projected := [];
      for i := 0 to |sorted|
        invariant |projected| == i
        invariant forall k :: 0 <= k < i ==> projected[k] == Project(sorted[k], fields)
      {
        var row := ProjectNote(sorted[i], fields);
        projected := projected + [row];
      }
    } else {
      projected := Rows(sorted);
    }
  }

  /** One projected record, built one listed field at a time. */
  method ProjectNote(n: Note, fields: seq<Field>) returns (r: Row)
    ensures r == Project(n, fields)
  {
    r := map[];
    for i := 0 to |fields|
      invariant r == Project(n, fields[..i])
    {
      assert fields[..i + 1] == fields[..i] + [fields[i]];
      r := r[fields[i] := FieldValue(n, fields[i])];
    }
    assert fields[..|fields|] == fields;
  }

  /**
   * The create, read, update, read, update, read, delete, read sequence that
   * src/services/db.test.ts runs against empty storage. `create` reads the
   * clock twice (`c0` for `createdAt`, `c1` for `updatedAt`); the two
   * updates read it at `t1` and `t2`.
   */
  method CrudScenario(id: string, c0: Timestamp, c1: Timestamp, t1: Timestamp, t2: Timestamp)
    returns (created: string, firstRead: seq<Row>, titleUpdate: int, secondRead: seq<Row>,
             contentUpdate: int, thirdRead: seq<Row>, removed: int, lastRead: seq<Row>)
    requires c0 <= c1 <= t1 <= t2
    ensures created == id
    ensures firstRead == [ToRow(Note(id, "Initial Title", "Initial Content", c0, c1))]
    ensures titleUpdate == 1 && secondRead == [ToRow(Note(id, "task 1", "Initial Content", c0, t1))]
    ensures contentUpdate == 1 && thirdRead == [ToRow(Note(id, "task 1", "task 1 content", c0, t2))]
    ensures removed == 1 && lastRead == []
  {
    var db := new LocalStorageStore([]);
    created := db.Create(NoteNew("Initial Title", "Initial Content"), id, c0, c1);
    ghost var n0 := Note(id, "Initial Title", "Initial Content", c0, c1);
    assert db.notes == [n0];
    firstRead := db.Read(IdQuery(created), NoOptions);
    SelectByUniqueId(db.notes, 0);
    assert firstRead[0][Content] == Text("Initial Content");

    assert FindIndex(db.notes, id) == Some(0);
    assert ClockPast(db.notes, t1);
    titleUpdate := db.Update(NoteUpdate(created, "task 1", "Initial Content"), t1);
    ghost var n1 := Note(id, "task 1", "Initial Content", c0, t1);
    assert db.notes == [n1];
    secondRead := db.Read(IdQuery(created), NoOptions);
    SelectByUniqueId(db.notes, 0);
    assert secondRead[0][Title] == Text("task 1");

    assert FindIndex(db.notes, id) == Some(0);
    assert ClockPast(db.notes, t2);
    contentUpdate := db.Update(NoteUpdate(created, "task 1", "task 1 content"), t2);
    ghost var n2 := Note(id, "task 1", "task 1 content", c0, t2);
    assert db.notes == [n2];
    thirdRead := db.Read(IdQuery(created), NoOptions);
    SelectByUniqueId(db.notes, 0);

    ghost var before := db.notes;
    removed := db.Delete(OneId(created));
    DeleteSingle(before, id);
    lastRead := db.Read(IdQuery(created), NoOptions);
    ReadAfterDelete(before, [id], id, NoOptions);
  }

  /** Deleting the only stored note by its id removes it and counts one. */
  lemma DeleteSingle(notes: seq<Note>, id: string)
    requires |notes| == 1 && notes[0].id == id
    ensures Keep(notes, KeptAfter([id])) == []
    ensures |Keep(notes, RemovedBy([id]))| == 1
  {
    assert notes[1..] == [];
  }
}
