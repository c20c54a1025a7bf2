# Task store

A verified model of the in-memory task store behind a small task-tracking
HTTP service. The store holds a list of task records and a counter that
hands out ids. Five operations act on it: create, list, get, update and
delete.

The model is one Dafny module, `TaskStore` (`task_store.dfy`):

- `Task` is a stored record: `id`, `title`, an optional `description` and a
  `completed` flag.
- `TaskCreate` is the request payload. `description` defaults to `None` and
  `completed` defaults to `false`.
- `Store` is a class. Its fields are the record list `tasks: seq<Task>` and
  the counter `nextId: nat`, which start as `[]` and `1`. A ghost field
  `issued` records every id ever handed out.
- `Valid()` is the store invariant (`WellFormed`): every id lies in
  `[1, nextId)` and ids strictly increase along the list, so no id occurs
  twice. Every id in the list has been issued, and every issued id is below
  the counter.
- `Get`, `Update` and `Delete` scan the list with a loop, as main.py does.
  Each is proved against a specification function on the record sequence:
  `Find` (first matching record), `UpdateFirst` (first matching record
  patched) and `Without` (the list filtered, like the Python
  comprehension). The lemmas state what those functions mean.
- `Scenario` replays a short request sequence. It shows that ids count up
  from 1 and that a deleted id is not handed out again.

The title is not validated. The Python code types `title` only as a string
(main.py:13), so the model accepts any title, including the empty one.

## Model

| member | source | states |
|---|---|---|
| TaskStore.Store.constructor | main.py:7-9 | a fresh store has no records, its counter is 1, and it satisfies the invariant |
| TaskStore.Store.Create | main.py:24-34 | the new record's id is the counter's old value and was never issued before; it carries the payload's title, description and flag; it is appended at the end; the counter grows by exactly 1; the invariant is kept |
| TaskStore.AppendKeepsWellFormed | main.py:26-33 | appending a record with the counter's value and advancing the counter keeps ids unique, increasing and below the counter |
| TaskStore.FindAfterAppend | main.py:26-32 | after a create, looking up the new id returns exactly the created record |
| TaskStore.Store.All | main.py:36-37 | returns every stored record, in list order, with the same length as the store; ids strictly increase along it (creation order); the store is not changed |
| TaskStore.Find | main.py:40-43 | the scan's result: when it finds a record, that record is stored and carries the id |
| TaskStore.Store.Get | main.py:39-43 | returns the first record whose id matches, and None exactly when no record has that id; the result is a stored record with that id; the store is not changed |
| TaskStore.FindSpec | main.py:39-43 | lookup returns a record exactly when some record carries the id, and that record is stored and has the id |
| TaskStore.FindFirst | main.py:40-42 | lookup returns the first record in list order that carries the id |
| TaskStore.FindInStore | main.py:40-42 | in a well-formed store, lookup of a stored record's id returns that record |
| TaskStore.Store.Update | main.py:45-54 | returns a record exactly when the id was present; the result carries the id and the new payload and is what a later lookup returns; the list becomes `UpdateFirst` of the old list; on an absent id the list is unchanged; counter and issued ids are unchanged; the invariant is kept |
| TaskStore.UpdateFirst | main.py:46-54 | the list after the scan and in-place update: same length, and the same id at every position |
| TaskStore.UpdateFirstAt | main.py:46-52 | updating where the first match is at position k patches that record in place and leaves every other position as it was |
| TaskStore.UpdateFirstAbsent | main.py:54 | updating an id that no record carries leaves the list identical |
| TaskStore.UpdateInStore | main.py:45-54 | in a well-formed store, update replaces exactly title, description and completed of the record with that id and leaves every other record unchanged |
| TaskStore.UpdateKeepsWellFormed | main.py:48-52 | update keeps the store invariant with the same counter |
| TaskStore.Store.Delete | main.py:56-62 | returns true exactly when some record had the id; afterwards no record has it; the list becomes the old list filtered; on true it is one shorter, on false it is unchanged; counter and issued ids are unchanged; the invariant is kept |
| TaskStore.Without | main.py:60 | the list the comprehension builds: no longer than before, and no record in it carries the id |
| TaskStore.WithoutMembers | main.py:60 | a record survives the filter exactly when it was stored and carries another id |
| TaskStore.WithoutRemovesId | main.py:60 | after the filter no record carries the id |
| TaskStore.FindAfterDelete | main.py:56-62 | after a delete, looking up that id finds nothing |
| TaskStore.WithoutAbsent | main.py:58-62 | filtering out an id that no record carries leaves the list identical |
| TaskStore.WithoutAppend | main.py:60 | the filter distributes over concatenation |
| TaskStore.WithoutKeepsOrder | main.py:60 | deleting the only record with an id removes just that record and keeps the records before and after it in order |
| TaskStore.DeleteInStore | main.py:58-61 | in a well-formed store, deleting a stored id yields the list with that one position removed, one shorter, order kept |
| TaskStore.WithoutKeepsWellFormed | main.py:60 | delete keeps the store invariant with the same counter |

## Left out

- The web framework: the application object and the route handlers at main.py:5 and 64-91. They only map a missing record to a 404 response and a delete to 204, which is HTTP glue, not store logic.
- Request validation and serialisation by the model library. The payload and the response are plain datatypes, and building a response from a record is the identity.
- `async`/`await` and the absence of any locking around the shared list. Each operation is modelled as one atomic sequential step.
- Python's module globals. The list and the counter are fields of a `Store` object instead.
- Aliasing of the stored dictionaries. Records are values: main.py updates the matching dictionary in place, and no reference to it escapes the store because every response is a copy.
