/** The shapes of a note: the persisted `Note` row, the `NoteCreate` payload of
    POST /notes and the `NotesUpdate` payload of PATCH /notes/{id}, together with
    the partial-update rule that applies a `NotesUpdate` to a stored note.
 */
module Notes {
  import opened Wrappers

  /** A persisted note. `createdAt` is the creation instant as an integer
      timestamp; `id` is the primary key the store assigned on insertion. */
  datatype Note = Note(id: int, title: string, content: string, isDone: bool, createdAt: int)

  /** The POST payload: both fields are required. */
  datatype NoteCreate = NoteCreate(title: string, content: string)

  /** The PATCH payload: `None` means the client did not send the field, which is
      distinct from sending it (for instance `isDone == Some(false)`). */
  datatype NotesUpdate = NotesUpdate(title: Option<string>, content: Option<string>, isDone: Option<bool>)

  /** One entry of the dictionary that `model_dump(exclude_unset=True)` produces:
      a field the client set, with its value. */
  datatype FieldValue = TitleValue(title: string) | ContentValue(content: string) | IsDoneValue(isDone: bool)

  /** The new row built from a POST payload: `is_done` takes its default `false`
      and `created_at` the instant `now` supplied by the caller. */
  function FromPayload(p: NoteCreate, id: int, now: int): (n: Note)
    ensures n.id == id && n.createdAt == now
    ensures n.title == p.title && n.content == p.content
    ensures !n.isDone
  {
    Note(id, p.title, p.content, false, now)
  }

  /** True when `f` is one of the fields the client set in `p`, with that value. */
  predicate IsSetIn(f: FieldValue, p: NotesUpdate) {
    match f
    case TitleValue(t) => p.title == Some(t)
    case ContentValue(c) => p.content == Some(c)
    case IsDoneValue(b) => p.isDone == Some(b)
  }

  /** The number of fields the client set in `p`. */
  function SetCount(p: NotesUpdate): nat {
    (if p.title.Some? then 1 else 0)
    + (if p.content.Some? then 1 else 0)
    + (if p.isDone.Some? then 1 else 0)
  }

  /** `model_dump(exclude_unset=True)`: exactly the fields the client set, each
      once, in declaration order (title, content, is_done). */
  function Dump(p: NotesUpdate): (fs: seq<FieldValue>)
    ensures forall f :: f in fs <==> IsSetIn(f, p)
    ensures |fs| == SetCount(p)
  {
    (if p.title.Some? then [TitleValue(p.title.value)] else [])
    + (if p.content.Some? then [ContentValue(p.content.value)] else [])
    + (if p.isDone.Some? then [IsDoneValue(p.isDone.value)] else [])
  }

  /** `setattr(note, key, value)` for one dumped field: the named field takes
      the sent value, every other field keeps its value. */
  function SetAttr(n: Note, f: FieldValue): (r: Note)
    ensures r.id == n.id && r.createdAt == n.createdAt
    ensures r.title == (if f.TitleValue? then f.title else n.title)
    ensures r.content == (if f.ContentValue? then f.content else n.content)
    ensures r.isDone == (if f.IsDoneValue? then f.isDone else n.isDone)
  {
    match f
    case TitleValue(t) => n.(title := t)
    case ContentValue(c) => n.(content := c)
    case IsDoneValue(b) => n.(isDone := b)
  }

  /** The `for key, value in updates.items(): setattr(...)` loop. No field it
      can set is the primary key or the creation instant. */
  function SetAll(n: Note, fs: seq<FieldValue>): (r: Note)
    ensures r.id == n.id && r.createdAt == n.createdAt
    ensures (forall i :: 0 <= i < |fs| ==> !fs[i].TitleValue?) ==> r.title == n.title
    ensures (forall i :: 0 <= i < |fs| ==> !fs[i].ContentValue?) ==> r.content == n.content
    ensures (forall i :: 0 <= i < |fs| ==> !fs[i].IsDoneValue?) ==> r.isDone == n.isDone
    decreases |fs|
  {
    if fs == [] then n else SetAll(SetAttr(n, fs[0]), fs[1..])
  }

  /** The patch a PATCH request applies to the stored note: every field the
      client set is overwritten with the sent value, every other field keeps its
      stored value, and `id` and `createdAt` never change. */
  function ApplyPatch(n: Note, p: NotesUpdate): (r: Note)
    ensures r.id == n.id && r.createdAt == n.createdAt
    ensures r.title == (if p.title.Some? then p.title.value else n.title)
    ensures r.content == (if p.content.Some? then p.content.value else n.content)
    ensures r.isDone == (if p.isDone.Some? then p.isDone.value else n.isDone)
  {
    var fs := Dump(p);
    SetAllFields(n, p);
    SetAll(n, fs)
  }

  /** Unfolds the setattr loop over the (at most three) dumped fields. */
  lemma {:induction false} SetAllFields(n: Note, p: NotesUpdate)
    ensures SetAll(n, Dump(p)) == Note(n.id, p.title.GetOr(n.title), p.content.GetOr(n.content),
                                       p.isDone.GetOr(n.isDone), n.createdAt)
  {
    var n1 := if p.title.Some? then n.(title := p.title.value) else n;
    var n2 := if p.content.Some? then n1.(content := p.content.value) else n1;
    var n3 := if p.isDone.Some? then n2.(isDone := p.isDone.value) else n2;
    var d1 := if p.title.Some? then [TitleValue(p.title.value)] else [];
    var d2 := if p.content.Some? then [ContentValue(p.content.value)] else [];
    var d3 := if p.isDone.Some? then [IsDoneValue(p.isDone.value)] else [];
    assert Dump(p) == d1 + d2 + d3;
    SetAllAppend(n, d1, d2 + d3);
    SetAllAppend(n1, d2, d3);
    assert SetAll(n, d1) == n1;
    assert SetAll(n1, d2) == n2;
    assert SetAll(n2, d3) == n3;
  }

  /** The loop over `a + b` is the loop over `a` followed by the loop over `b`. */
  lemma {:induction false} SetAllAppend(n: Note, a: seq<FieldValue>, b: seq<FieldValue>)
    ensures SetAll(n, a + b) == SetAll(SetAll(n, a), b)
    decreases |a|
  {
    if a != [] {
      assert (a + b)[1..] == a[1..] + b;
      SetAllAppend(SetAttr(n, a[0]), a[1..], b);
    } else {
      assert a + b == b;
    }
  }

  /** Sending the same PATCH twice leaves the note as sending it once. */
  lemma PatchIdempotent(n: Note, p: NotesUpdate)
    ensures ApplyPatch(ApplyPatch(n, p), p) == ApplyPatch(n, p)
  {
  }

  /** A patch that sets nothing leaves the note unchanged. */
  lemma EmptyPatchIsIdentity(n: Note)
    ensures ApplyPatch(n, NotesUpdate(None, None, None)) == n
  {
  }
}
