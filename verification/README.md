# Notes CRUD service: a Dafny model of the note store

The service keeps one table of notes. Each note has an integer `id`, a `title`, a
`content`, an `is_done` flag and a `created_at` instant. Five HTTP routes act on
that table:

- POST /notes creates a note.
- GET /notes lists notes, optionally filtered by `is_done`, newest first.
- GET /notes/{id} fetches one note.
- PATCH /notes/{id} partially updates one note.
- DELETE /notes/{id} removes one note.

Fetch, update and delete answer "Note Not Found!" (HTTP 404) when the id is not in the table.

The model treats the table as an immutable `map<int, Note>` from primary key to row.
Each write is a pure function that returns what the handler returns together with the
table it leaves behind:

- `wrappers.dfy` (`Wrappers`): `Option` for absent fields and the optional filter,
  and `Result` for operations that can fail.
- `notes.dfy` (`Notes`): the `Note`, `NoteCreate` and `NotesUpdate` shapes. It also
  models the partial-update rule: `model_dump(exclude_unset=True)` followed by the
  `setattr` loop.
- `store.dfy` (`NoteStore`): the table and its representation invariant: every row
  sits under its own `id`. It holds the key-assignment rule and the five operations
  `Create`, `List`, `Get`, `Update` and `Delete`. The only error is `NotFound`.
- `properties.dfy` (`StoreProperties`): properties that relate several operations.
  These are round trips, idempotence of PATCH, behaviour on absent keys, and what
  the list query selects and in which order.

A few modelling decisions:

- **Creation instant.** `created_at` comes from the caller as an integer timestamp
  (`now`). The source reads a clock instead.
- **Key assignment.** A fresh key follows SQLite's rule for a plain `INTEGER PRIMARY KEY`
  column: 1 for an empty table, otherwise one more than the largest key present.
  So after the row with the largest id is deleted, that id is handed out again
  (`KeyReusedAfterDeletingNewest`). Freshness is promised only with respect to the
  current table.
- **PATCH payload.** Each of the three fields is an `Option`, so "not sent" stays
  distinct from "sent", and an explicit `is_done: false` is applied.
- **List is a method.** Enumerating a map's keys needs a choice of element. The
  method inserts each selected row into a newest-first sequence. Its contract gives
  sortedness and multiset equality with the set of selected rows, so nothing is
  dropped or duplicated. Rows that share a `created_at` come in no promised order.
  When creation instants are distinct, the order is unique (`NewestFirstIsUnique`).

## Model

| member | source | states |
|---|---|---|
| Notes.FromPayload | main.py:15-21 | A note built from a create payload keeps the payload's title and content, is not done, and carries the given id and creation instant |
| Notes.Dump | main.py:88 | The dumped fields are exactly the fields the client set in the PATCH payload, each with its sent value, one entry per set field |
| Notes.SetAttr | main.py:90 | One `setattr` gives the named field the sent value and leaves every other field, including `id` and `created_at`, as it was |
| Notes.SetAll | main.py:89-90 | The setattr loop never changes `id` or `created_at`; a field that no dumped entry names keeps its value |
| Notes.ApplyPatch | main.py:88-90 | A PATCH overwrites each sent field with its sent value (including `is_done: false`), keeps every unsent field, and never changes `id` or `created_at` |
| Notes.SetAllFields | main.py:88-90 | Looping setattr over the dumped fields equals the field-by-field rule: sent value if present, stored value otherwise |
| Notes.SetAllAppend | main.py:89-90 | The setattr loop over two concatenated field lists is the loop over the first list followed by the loop over the second |
| Notes.PatchIdempotent | main.py:88-90 | Applying the same patch twice gives the same note as applying it once |
| Notes.EmptyPatchIsIdentity | main.py:88-90 | A PATCH with no field set leaves the note unchanged |
| NoteStore.NextId | main.py:12 | The key given to a new row is not in the table and exceeds every key in it; it is 1 for an empty table and otherwise one more than the largest key |
| NoteStore.Create | main.py:55-60 | Create returns a note with the payload's title and content, not done, created at `now`, under a key not already in the table; that key is the only one added, it maps to the returned note, every existing note is unchanged, and the representation invariant is kept |
| NoteStore.Get | main.py:75-79 | Get succeeds exactly when the key is in the table and then returns the stored note (whose id is the key); otherwise it fails with NotFound |
| NoteStore.Update | main.py:83-95 | An absent key yields NotFound with the table unchanged. A present key yields the patched note: sent fields overwritten, unsent fields kept, `id` and `created_at` unchanged. The note is stored under the same key, the key set is unchanged, and all other notes are unchanged |
| NoteStore.Delete | main.py:99-105 | Delete succeeds exactly when the key is present. It then removes exactly that key and leaves all other notes unchanged; on NotFound the table is unchanged |
| NoteStore.Matches | main.py:67-68 | No filter keeps every row; filter `b` keeps exactly the rows whose `is_done` is `b` |
| NoteStore.InsertNewest | main.py:70 | Inserting a note into a newest-first sequence keeps it newest first and adds exactly that note |
| NoteStore.List | main.py:64-71 | The list response is ordered by creation instant, newest first, and is a permutation of the set of stored notes that pass the optional `is_done` equality filter: it contains a note iff the table holds it and it passes the filter |
| StoreProperties.CreateThenGet | main.py:55-79 | Fetching the id a create returned yields exactly the created note |
| StoreProperties.CreateThenDelete | main.py:55-105 | Deleting the note a create just returned restores the original table |
| StoreProperties.DeleteThenGet | main.py:75-105 | After a successful delete, fetching that id yields NotFound |
| StoreProperties.UpdateThenGet | main.py:75-95 | After a successful update, fetching that id yields the note the update returned |
| StoreProperties.UpdateIdempotent | main.py:83-95 | Sending the same PATCH twice gives the same response and the same table as sending it once |
| StoreProperties.AbsentKeyIsNotFound | main.py:75-105 | For a key not in the table, get, update and delete all fail with NotFound, and update and delete leave the table unchanged |
| StoreProperties.UpdateIsPartialExample | main.py:88-90 | Sending only `is_done: true` to note ("A", "B", not done) yields ("A", "B", done), with title and content untouched |
| StoreProperties.KeyReusedAfterDeletingNewest | main.py:12 | Creating into an empty table gives key 1; after that note is deleted, the next create gets key 1 again |
| StoreProperties.SelectedWithoutFilter | main.py:64-68 | Without a filter, the list query selects every note in the table |
| StoreProperties.SelectedPartition | main.py:67-68 | Filter `b` selects exactly the notes whose `is_done` is `b`; filters `true` and `false` select disjoint sets whose union is the whole table |
| StoreProperties.TailNewestFirst | main.py:70 | Dropping the first note of a newest-first sequence leaves it newest first |
| StoreProperties.SameNewest | main.py:70 | Two newest-first sequences with the same notes and distinct creation instants start with the same note |
| StoreProperties.NewestFirstIsUnique | main.py:70 | Two newest-first sequences with the same notes, where no two notes share a creation instant, are equal, so the list order is then fully determined |

## Left out

- HTTP routing, dependency injection and response shaping (main.py:44-49 and the route decorators). NotFound is an error value, not a 404 status with a message.
- The SQLite engine, the session lifecycle, `commit`/`refresh`, `create_all`/`dispose` in `lifespan`, and `echo` logging (main.py:32-41). They are library plumbing. Every operation is one pure function, so in the model each is atomic.
- Storage failures. The model has no failing engine, so `Create` has no error path, and `Get`, `List`, `Update` and `Delete` never fail with a storage error either, although in the service any of them can.
- Reading the wall clock and the UTC timezone in `created_at`'s default factory (main.py:16). The instant is the integer parameter `now`.
- `Get` and `List` return no table. A read cannot change the immutable map, so "the table is unchanged" holds by construction and is not stated as an ensures.
- NoteStore.NextId: does not model SQLite's fallback when the largest key is already 2^63-1 (it then picks an unused key at random). Keys are unbounded integers here.
- An explicit JSON `null` for `title` or `content` in a PATCH. `exclude_unset` would pass it through, and the outcome depends on the database's NOT NULL constraint. A field is either sent with a value or not sent.
- Pydantic validation of payload types and required fields, which the library enforces before the handler runs. Unknown fields in a body, such as an `id` or `created_at` in a PATCH, are not rejected: the library silently ignores them. The model behaves the same way because `NotesUpdate` has no such fields.
- Concurrent requests. The service runs its handlers on a thread pool, and `update_note` and `delete_note` read the row (main.py:84, main.py:100) before they commit (main.py:93, main.py:104), so requests can interleave. For example, a DELETE that commits between a PATCH's read and its commit makes the PATCH fail instead of returning the patched note. The model handles one request at a time and does not model interleavings.
- NoteStore.Get: ids outside the signed 64-bit range [-2^63, 2^63) never reach the not-found check in the service (main.py:76-78): the SQLite driver refuses to bind them and the request fails with a server error. The model answers NotFound for them.
- NoteStore.Update: likewise, an id outside [-2^63, 2^63) fails in the service at the lookup (main.py:84) with a server error, not with NotFound as in the model.
- NoteStore.Delete: likewise, an id outside [-2^63, 2^63) fails in the service at the lookup (main.py:100) with a server error, not with NotFound as in the model.
- NoteStore.List: the order among notes with equal `created_at` is left open, because SQLite's `ORDER BY created_at DESC` does not fix it.
