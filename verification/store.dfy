/** The note table and the five operations behind the HTTP routes: create, list,
    get, partial update and delete. The table is an immutable map from primary
    key to row; every write returns the table it leaves behind.
 */
module NoteStore {
  import opened Wrappers
  import opened Notes

  /** The `note` table, keyed by primary key. */
  type Store = map<int, Note>

  /** The one error kind the handlers raise (HTTP 404 "Note Not Found!"). */
  datatype StoreError = NotFound

  /** The outcome of a write: what the handler returns, and the table after it. */
  datatype Step<T> = Step(result: Result<T, StoreError>, store: Store)

  /** The outcome of a create, which has no error path of its own. */
  datatype Created = Created(note: Note, store: Store)

  /** Every row sits under its own primary key. */
  ghost predicate WellFormed(s: Store) {
    forall k :: k in s ==> s[k].id == k
  }

  // ---------------------------------------------------------------- fresh ids

  /** An element of a set that is not empty. */
  lemma Pick<T>(ks: set<T>) returns (x: T)
    requires ks != {}
    ensures x in ks
  {
    var none: set<T> := {};
    assert !(ks <= none);
    x :| x in ks;
  }

  /** A key under which a map holds the value `v`. */
  lemma KeyOf<K, V>(s: map<K, V>, v: V) returns (k: K)
    requires v in s.Values
    ensures k in s && s[k] == v
  {
    k :| k in s && s[k] == v;
  }

  /** `m` is the largest element of `ks`. */
  predicate IsMax(ks: set<int>, m: int) {
    m in ks && forall k :: k in ks ==> k <= m
  }

  /** Every non-empty finite set of integers has a largest element. */
  lemma {:induction false} MaxExists(ks: set<int>)
    requires ks != {}
    ensures exists m :: IsMax(ks, m)
    decreases |ks|
  {
    var x := Pick(ks);
    var rest := ks - {x};
    assert ks == rest + {x};
    if rest == {} {
      assert IsMax(ks, x);
    } else {
      MaxExists(rest);
      var m :| IsMax(rest, m);
      if x <= m {
        assert IsMax(ks, m);
      } else {
        assert IsMax(ks, x);
      }
    }
  }

  /** The largest key of a non-empty table. */
  function MaxKey(ks: set<int>): (m: int)
    requires ks != {}
    ensures m in ks
    ensures forall k :: k in ks ==> k <= m
  {
    MaxExists(ks);
    var m :| IsMax(ks, m);
    m
  }

  /** The key SQLite gives a row inserted without one into a table whose primary
      key is a plain INTEGER PRIMARY KEY: 1 when the table is empty, otherwise one
      more than the largest key present. */
  function NextId(s: Store): (id: int)
    ensures id !in s
    ensures forall k :: k in s ==> k < id
    ensures s == map[] ==> id == 1
    ensures s != map[] ==> id - 1 in s
  {
    if s == map[] then 1 else MaxKey(s.Keys) + 1
  }

  // ---------------------------------------------------------------- create

  /** POST /notes: insert a row built from the payload, with the fresh key and
      the creation instant `now`, and return the stored row. */
  function Create(s: Store, p: NoteCreate, now: int): (c: Created)
    ensures c.note.id !in s
    ensures c.note.title == p.title && c.note.content == p.content
    ensures !c.note.isDone && c.note.createdAt == now
    ensures c.store.Keys == s.Keys + {c.note.id}
    ensures c.note.id in c.store && c.store[c.note.id] == c.note
    ensures forall k :: k in s ==> c.store[k] == s[k]
    ensures WellFormed(s) ==> WellFormed(c.store)
  {
    var n := FromPayload(p, NextId(s), now);
    Created(n, s[n.id := n])
  }

  // ---------------------------------------------------------------- get

  /** GET /notes/{id}: the stored row, or NotFound when the key is absent. */
  function Get(s: Store, id: int): (r: Result<Note, StoreError>)
    ensures r.Ok? <==> id in s
    ensures r.Ok? ==> r.value == s[id]
    ensures r.Err? ==> r.error == NotFound
    ensures WellFormed(s) && r.Ok? ==> r.value.id == id
  {
    if id in s then Ok(s[id]) else Err(NotFound)
  }

  // ---------------------------------------------------------------- update

  /** PATCH /notes/{id}: NotFound when the key is absent, otherwise overwrite
      the fields the client set and return the updated row. */
  function Update(s: Store, id: int, p: NotesUpdate): (u: Step<Note>)
    ensures id !in s ==> u.result == Err(NotFound) && u.store == s
    ensures id in s ==> u.result.Ok?
    ensures u.store.Keys == s.Keys
    ensures forall k :: k in s && k != id ==> u.store[k] == s[k]
    ensures u.result.Ok? ==> u.store[id] == u.result.value
    ensures u.result.Ok? ==> var prev := s[id]; var n := u.result.value;
              && n.id == prev.id && n.createdAt == prev.createdAt
              && n.title == (if p.title.Some? then p.title.value else prev.title)
              && n.content == (if p.content.Some? then p.content.value else prev.content)
              && n.isDone == (if p.isDone.Some? then p.isDone.value else prev.isDone)
    ensures WellFormed(s) ==> WellFormed(u.store)
  {
    if id !in s then Step(Err(NotFound), s)
    else
      var n := ApplyPatch(s[id], p);
      Step(Ok(n), s[id := n])
  }

  // ---------------------------------------------------------------- delete

  /** DELETE /notes/{id}: NotFound when the key is absent, otherwise remove the
      row for good and acknowledge. */
  function Delete(s: Store, id: int): (d: Step<()>)
    ensures d.result.Ok? <==> id in s
    ensures d.result.Err? ==> d.result.error == NotFound && d.store == s
    ensures d.result.Ok? ==> d.store.Keys == s.Keys - {id}
    ensures forall k :: k in d.store ==> k in s && d.store[k] == s[k]
    ensures WellFormed(s) ==> WellFormed(d.store)
  {
    if id !in s then Step(Err(NotFound), s)
    else Step(Ok(()), s - {id})
  }

  // ---------------------------------------------------------------- list

  /** The optional `is_done` query filter: no filter keeps every row, filter
      `b` keeps exactly the rows whose `isDone` equals `b`. */
  predicate Matches(n: Note, filter: Option<bool>)
    ensures filter.None? ==> Matches(n, filter)
    ensures filter.Some? ==> (Matches(n, filter) <==> n.isDone == filter.value)
  {
    filter.None? || n.isDone == filter.value
  }

  /** The rows under the keys `ks` that pass the filter. */
  ghost function SelectedAmong(s: Store, ks: set<int>, filter: Option<bool>): set<Note> {
    set k | k in ks && k in s && Matches(s[k], filter) :: s[k]
  }

  /** The rows of the table that pass the filter. */
  ghost function Selected(s: Store, filter: Option<bool>): set<Note> {
    SelectedAmong(s, s.Keys, filter)
  }

  /** Ordered by `createdAt`, newest first. */
  predicate NewestFirst(r: seq<Note>) {
    forall i, j :: 0 <= i < j < |r| ==> r[i].createdAt >= r[j].createdAt
  }

  /** Insert `n` into a newest-first sequence, keeping it newest first. */
  function InsertNewest(n: Note, r: seq<Note>): (q: seq<Note>)
    requires NewestFirst(r)
    ensures NewestFirst(q)
    ensures multiset(q) == multiset(r) + multiset{n}
    decreases |r|
  {
    if r == [] || r[0].createdAt <= n.createdAt then [n] + r
    else
      var rest := InsertNewest(n, r[1..]);
      assert r == [r[0]] + r[1..];
      assert forall x :: x in rest ==> x in multiset(r[1..]) || x == n by {
        forall x | x in rest
          ensures x in multiset(r[1..]) || x == n
        {
          assert x in multiset(rest);
        }
      }
      assert forall j :: 0 <= j < |rest| ==> r[0].createdAt >= rest[j].createdAt by {
        forall j | 0 <= j < |rest|
          ensures r[0].createdAt >= rest[j].createdAt
        {
          assert rest[j] in rest;
          if rest[j] != n {
            assert rest[j] in r[1..];
          }
        }
      }
      [r[0]] + rest
  }

  /** Moving key `k` from the pending keys to the visited ones adds its row to
      the selection when it passes the filter, and nothing else. */
  lemma SelectedStep(s: Store, done: set<int>, k: int, filter: Option<bool>)
    requires WellFormed(s)
    requires k in s && k !in done
    ensures multiset(SelectedAmong(s, done + {k}, filter))
            == multiset(SelectedAmong(s, done, filter))
               + (if Matches(s[k], filter) then multiset{s[k]} else multiset{})
  {
  }

  /** GET /notes: the rows passing the optional `is_done` filter, newest first.
      Rows with equal `createdAt` come in no promised order. */
  method List(s: Store, filter: Option<bool>) returns (r: seq<Note>)
    requires WellFormed(s)
    ensures NewestFirst(r)
    ensures multiset(r) == multiset(Selected(s, filter))
    ensures forall n :: n in r <==> n in s.Values && Matches(n, filter)
  {
    r := [];
    var todo := s.Keys;
    while todo != {}
      invariant todo <= s.Keys
      invariant NewestFirst(r)
      invariant multiset(r) == multiset(SelectedAmong(s, s.Keys - todo, filter))
      decreases |todo|
    {
      // only there to prove that the choice on the next line has a candidate
      ghost var someKey := Pick(todo);
      var k :| k in todo;
      SelectedStep(s, s.Keys - todo, k, filter);
      if Matches(s[k], filter) {
        r := InsertNewest(s[k], r);
      }
      assert s.Keys - (todo - {k}) == (s.Keys - todo) + {k};
      todo := todo - {k};
    }
    assert s.Keys - todo == s.Keys;
    forall n
      ensures n in r <==> n in s.Values && Matches(n, filter)
    {
      assert n in r <==> n in multiset(r);
      if n in s.Values && Matches(n, filter) {
        var k := KeyOf(s, n);
        assert n in Selected(s, filter);
      }
    }
  }
}
