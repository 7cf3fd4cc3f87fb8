/** Properties that relate several store operations: round trips, idempotence,
    the behaviour on absent keys, and what the list query selects and in which
    order.
 */
module StoreProperties {
  import opened Wrappers
  import opened Notes
  import opened NoteStore

  // ---------------------------------------------------------------- round trips

  /** Fetching the note a create returned yields exactly that note. */
  lemma CreateThenGet(s: Store, p: NoteCreate, now: int)
    ensures var c := Create(s, p, now); Get(c.store, c.note.id) == Ok(c.note)
  {
  }

  /** Deleting the note a create returned restores the table it started from. */
  lemma CreateThenDelete(s: Store, p: NoteCreate, now: int)
    ensures var c := Create(s, p, now); Delete(c.store, c.note.id) == Step(Ok(()), s)
  {
  }

  /** A successful delete is terminal: the key is gone afterwards. */
  lemma DeleteThenGet(s: Store, id: int)
    ensures var d := Delete(s, id); d.result.Ok? ==> Get(d.store, id) == Err(NotFound)
  {
  }

  /** Fetching after a successful update yields the note the update returned. */
  lemma UpdateThenGet(s: Store, id: int, p: NotesUpdate)
    ensures var u := Update(s, id, p); u.result.Ok? ==> Get(u.store, id) == u.result
  {
  }

  // ---------------------------------------------------------------- idempotence

  /** Sending the same PATCH twice gives the same response and the same table as
      sending it once. */
  lemma UpdateIdempotent(s: Store, id: int, p: NotesUpdate)
    ensures var u := Update(s, id, p); Update(u.store, id, p) == u
  {
  }

  // ---------------------------------------------------------------- absent keys

  /** Get, update and delete of a key that is not in the table all fail with
      NotFound and leave the table as it was. */
  lemma AbsentKeyIsNotFound(s: Store, id: int, p: NotesUpdate)
    requires id !in s
    ensures Get(s, id) == Err(NotFound)
    ensures Update(s, id, p) == Step(Err(NotFound), s)
    ensures Delete(s, id) == Step(Err(NotFound), s)
  {
  }

  /** A PATCH that sends only `is_done: true` to a note titled "A" with content
      "B" that is not done changes the flag and nothing else. */
  lemma UpdateIsPartialExample(s: Store, id: int, created: int)
    requires s == map[id := Note(id, "A", "B", false, created)]
    ensures Update(s, id, NotesUpdate(None, None, Some(true))).store
            == map[id := Note(id, "A", "B", true, created)]
  {
  }

  /** Keys are fresh only with respect to the current table: once the newest
      row is deleted, the next create hands out its key again. */
  lemma KeyReusedAfterDeletingNewest(p: NoteCreate, q: NoteCreate, t1: int, t2: int)
    ensures var c1 := Create(map[], p, t1);
            var d := Delete(c1.store, c1.note.id);
            Create(d.store, q, t2).note.id == c1.note.id == 1
  {
  }

  // ---------------------------------------------------------------- list

  /** Without a filter the list query selects every row of the table. */
  lemma SelectedWithoutFilter(s: Store)
    ensures Selected(s, None) == s.Values
  {
    forall n | n in s.Values
      ensures n in Selected(s, None)
    {
      var k := KeyOf(s, n);
    }
  }

  /** With filter `b` the list query selects exactly the rows whose `isDone`
      is `b`; the two filters split the table between them. */
  lemma SelectedPartition(s: Store, b: bool)
    ensures forall n :: n in Selected(s, Some(b)) <==> n in s.Values && n.isDone == b
    ensures Selected(s, Some(b)) !! Selected(s, Some(!b))
    ensures Selected(s, Some(b)) + Selected(s, Some(!b)) == Selected(s, None)
  {
    forall n | n in s.Values && n.isDone == b
      ensures n in Selected(s, Some(b))
    {
      var k := KeyOf(s, n);
    }
    SelectedWithoutFilter(s);
  }

  /** No two notes of `r` were created at the same instant. */
  predicate DistinctCreationTimes(r: seq<Note>) {
    forall i, j :: 0 <= i < j < |r| ==> r[i].createdAt != r[j].createdAt
  }

  /** Dropping the newest note keeps a sequence newest first. */
  lemma TailNewestFirst(r: seq<Note>)
    requires NewestFirst(r) && r != []
    ensures NewestFirst(r[1..])
  {
  }

  /** Two newest-first sequences holding the same notes, created at distinct
      instants, start with the same note: each head is at least as new as the
      other, and only one note has that creation instant. */
  lemma SameNewest(a: seq<Note>, b: seq<Note>)
    requires NewestFirst(a) && NewestFirst(b)
    requires multiset(a) == multiset(b)
    requires DistinctCreationTimes(a)
    requires a != []
    ensures b != [] && a[0] == b[0]
  {
    assert a[0] in multiset(b);
    var j :| 0 <= j < |b| && b[j] == a[0];
    assert b[0] in multiset(a);
    var i :| 0 <= i < |a| && a[i] == b[0];
    assert b[0].createdAt >= b[j].createdAt;
    assert a[0].createdAt >= a[i].createdAt;
    assert i == 0;
  }

  /** The ordering is a contract, not an accident: two newest-first sequences
      holding the same notes, created at distinct instants, are the same
      sequence. So the list response is fully determined whenever no two
      selected notes share a creation instant. */
  lemma {:induction false} NewestFirstIsUnique(a: seq<Note>, b: seq<Note>)
    requires NewestFirst(a) && NewestFirst(b)
    requires multiset(a) == multiset(b)
    requires DistinctCreationTimes(a)
    ensures a == b
    decreases |a|
  {
    if a == [] {
      assert |b| == |multiset(b)| == 0;
    } else {
      SameNewest(a, b);
      assert a == [a[0]] + a[1..];
      assert b == [b[0]] + b[1..];
      assert multiset(a[1..]) == multiset(a) - multiset{a[0]};
      assert multiset(b[1..]) == multiset(b) - multiset{b[0]};
      TailNewestFirst(a);
      TailNewestFirst(b);
      assert DistinctCreationTimes(a[1..]) by {
        forall i, j | 0 <= i < j < |a| - 1
          ensures a[1..][i].createdAt != a[1..][j].createdAt
        {
          assert a[1..][i] == a[i + 1] && a[1..][j] == a[j + 1];
        }
      }
      NewestFirstIsUnique(a[1..], b[1..]);
    }
  }
}
