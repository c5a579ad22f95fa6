/**
 * The note entity, its fields, and the values those fields hold
 * (src/models/Note.ts, src/models/index.ts), together with the order
 * JavaScript's `<` puts on those values.
 */
module Models {
  import opened Wrappers

  /** A `Date`, as the milliseconds it stands for. */
  type Timestamp = int

  /** What a caller supplies to create a note. */
  datatype NoteNew = NoteNew(title: string, content: string)

  /** A stored note: an entity (id, createdAt, updatedAt) carrying a title and content. */
  datatype Note = Note(id: string, title: string, content: string, createdAt: Timestamp, updatedAt: Timestamp)

  /** A note without its timestamps: what an update carries. */
  datatype NoteUpdate = NoteUpdate(id: string, title: string, content: string)

  /** The keys of a note. */
  datatype Field = Id | Title | Content | CreatedAt | UpdatedAt

  /** The value a field holds: text for id, title and content, a timestamp for the dates. */
  datatype Value = Text(text: string) | Stamp(time: Timestamp)

  /** A record as a read returns it: only the fields it has, each with its value. */
  type Row = map<Field, Value>

  const AllFields: set<Field> := {Id, Title, Content, CreatedAt, UpdatedAt}

  /** `note[key]`. */
  function FieldValue(n: Note, f: Field): (v: Value)
  {
    match f
    case Id => Text(n.id)
    case Title => Text(n.title)
    case Content => Text(n.content)
    case CreatedAt => Stamp(n.createdAt)
    case UpdatedAt => Stamp(n.updatedAt)
  }

  /** Whether a field holds a timestamp rather than text. */
  predicate IsDateField(f: Field)
  {
    f == CreatedAt || f == UpdatedAt
  }

  /** Whether `v` is the kind of value field `f` holds. */
  predicate OfKind(v: Value, f: Field)
  {
    v.Stamp? <==> IsDateField(f)
  }

  /** A full note as a record with every field. */
  function ToRow(n: Note): (r: Row)
    ensures r.Keys == AllFields
    ensures forall f :: f in r ==> r[f] == FieldValue(n, f) && OfKind(r[f], f)
  {
    map[Id := Text(n.id), Title := Text(n.title), Content := Text(n.content),
        CreatedAt := Stamp(n.createdAt), UpdatedAt := Stamp(n.updatedAt)]
  }

  /** The note a full record stands for, if it is one. */
  function NoteOf(r: Row): (n: Option<Note>)
    ensures n.Some? ==> ToRow(n.value) == r
    ensures n.Some? <==> r.Keys == AllFields && forall f :: f in r ==> OfKind(r[f], f)
  {
    if r.Keys == AllFields && r[Id].Text? && r[Title].Text? && r[Content].Text?
       && r[CreatedAt].Stamp? && r[UpdatedAt].Stamp?
    then Some(Note(r[Id].text, r[Title].text, r[Content].text, r[CreatedAt].time, r[UpdatedAt].time))
    else None
  }

  /** Reading back a full record gives the note it came from. */
  lemma NoteOfToRow(n: Note)
    ensures NoteOf(ToRow(n)) == Some(n)
  {
    assert ToRow(n).Keys == AllFields;
  }

  /*
   * JavaScript's `<` on two strings: lexicographic on characters, a proper
   * prefix coming first.
   */
  predicate StrLess(a: string, b: string)
    decreases |a|
  {
    |b| > 0 && (|a| == 0 || a[0] < b[0] || (a[0] == b[0] && StrLess(a[1..], b[1..])))
  }

  lemma {:induction false} StrLessIrreflexive(a: string)
    ensures !StrLess(a, a)
    decreases |a|
  {
    if |a| > 0 {
      StrLessIrreflexive(a[1..]);
    }
  }

  lemma {:induction false} StrLessTransitive(a: string, b: string, c: string)
    requires StrLess(a, b) && StrLess(b, c)
    ensures StrLess(a, c)
    decreases |a|
  {
    if |a| > 0 && a[0] == b[0] && b[0] == c[0] {
      StrLessTransitive(a[1..], b[1..], c[1..]);
    }
  }

  lemma {:induction false} StrLessTotal(a: string, b: string)
    requires a != b
    ensures StrLess(a, b) || StrLess(b, a)
    decreases |a|
  {
    if |a| > 0 && |b| > 0 && a[0] == b[0] {
      assert a == [a[0]] + a[1..] && b == [b[0]] + b[1..];
      StrLessTotal(a[1..], b[1..]);
    }
  }

  /** JavaScript's `<` on two field values of the same kind. */
  predicate ValueLess(a: Value, b: Value)
  {
    match (a, b)
    case (Text(x), Text(y)) => StrLess(x, y)
    case (Stamp(x), Stamp(y)) => x < y
    case _ => false
  }

  /** On the values of one field, `<` is a strict total order. */
  lemma ValueOrder(f: Field, a: Value, b: Value, c: Value)
    requires OfKind(a, f) && OfKind(b, f) && OfKind(c, f)
    ensures !ValueLess(a, a)
    ensures ValueLess(a, b) && ValueLess(b, c) ==> ValueLess(a, c)
    ensures a == b || ValueLess(a, b) || ValueLess(b, a)
  {
    if a.Text? {
      StrLessIrreflexive(a.text);
      if ValueLess(a, b) && ValueLess(b, c) {
        StrLessTransitive(a.text, b.text, c.text);
      }
      if a != b {
        StrLessTotal(a.text, b.text);
      }
    }
  }
}
