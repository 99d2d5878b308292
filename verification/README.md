# Flowboard task-board core in Dafny

Flowboard is an offline-first task board. It has three columns: todo, in progress and done. Tasks live in a Dexie (IndexedDB) table called `tasks`, keyed by `id`. The board the user sees is a three-column projection held in React state. A sync pass queries the `synced` index for `false` and pushes each record it finds to `/api/tasks`.

This project models the board's state logic as pure transitions on two values:

- the table, a list of `Task` records in ascending key order;
- the `Board` of three ordered columns.

The modelled operations:

- the load-time grouping (`Boards.Group`, `Boards.Load`);
- modal submit in add and edit mode (`Mutations.Submit`);
- the drop that moves a card between columns (`Mutations.Drop`);
- the soft delete (`Mutations.Delete`);
- the sync pass (`Sync.SyncTasksToServer`);
- the three counters (`Boards.Count`).

Dexie's `add`, `update` and `toArray` are modelled in `Store`. The unsynced query is given its intended meaning there, the records whose `synced` is `false`. The program as written does not get those records (see `Store.Unsynced` under "Left out"). `String.prototype.trim` is modelled in `Text`.

The central invariant is `Consistency.Consistent`. It holds when each column holds, exactly once each, the live records whose status selects that column. Every card must equal its stored record, except possibly in `synced`. A successful load establishes it, and every mutation made from the board preserves it. So does the sync pass, which only changes `synced` flags.

Module layout: `Wrappers`, `Tasks` (record, status, patch), `Records` (find/filter/map over record lists), `Text`, `Store`, `Boards`, `Mutations`, `Consistency`, `Sync`.

Modelling choices:

- **The table is a key-ordered list, not a map.** IndexedDB returns records in ascending primary-key order, and that order fixes both the board order after a load and the push order of a sync pass. `Store.Keyed` states that ids strictly ascend.
- **`status` has three forms.** It can be absent or falsy (the record goes to todo), name a column, or be some other string. With another string, `grouped[status].push` throws. The `catch` around the load swallows the error, and the board stays empty (`Boards.Load`).
- **The new id is a parameter.** `Date.now()` becomes the parameter `now`. Dexie's `add` with a key already present rejects, and the submit then stops before touching the board. This is `Mutations.SubmitError.IdTaken`. The lemmas about creation assume a fresh id.
- **`update` on a missing key changes nothing.**
- **The network is an oracle.** Each push meets one `Outcome` from a sequence: `Resolved` (any HTTP response, since `fetch` only rejects on network errors) or `Rejected`.

## Behaviour worth knowing

- **An HTTP error response still marks a record synced.** `fetch` resolves on every response, including 4xx and 5xx. So the pass marks the record synced after any response, and only a network error leaves it unsynced. In the model, `Resolved` marks synced.
- **A reload agrees with the session board only up to order and the `synced` flag.**
  - A move appends the card at the end of its new column, while a load orders each column by id.
  - The card copies on the board keep a stale `synced` flag after a move or a sync pass.

  `Consistency.ReloadAgrees` proves what does hold: the same ids, the same number of cards, and the same fields apart from `synced`. `Consistency.MoveThenReloadReorders` gives a concrete two-task board where the orders differ.
- **Edit and delete on a missing id do nothing and report nothing.** Dexie's `update` on a missing key resolves without writing, and the board filter or map finds nothing to change.

## Model

| member | source | states |
|---|---|---|
| Text.Trim | src/App.js:158-159 | the trimmed text is the input with whitespace-only margins cut off both ends, leaving no whitespace at either end |
| Text.TrimUnique | src/App.js:158-159 | any such whitespace-margin decomposition of a string yields exactly the trimmed text |
| Text.TrimBlankIffAllWhitespace | src/App.js:158-170 | the trimmed text is empty exactly when the input consists of whitespace only |
| Records.Find | src/App.js:252 | find by id yields the first member carrying that id, and yields nothing exactly when no member carries it |
| Records.FindMember | src/App.js:252 | in a list without repeated ids, find returns each member under its own id |
| Records.Without | src/App.js:112 | filtering by id keeps exactly the members with another id |
| Records.WithoutDistinct | src/App.js:260 | filtering an id out of a list without repeats keeps it without repeats |
| Records.WithoutSplice | src/App.js:112 | in a list without repeated ids, filtering out an id it holds splices out that one member and keeps the rest in order |
| Records.WithoutConcat | src/App.js:112 | filtering by id distributes over concatenation |
| Records.WithoutOne | src/App.js:260 | filtering out an id the list holds exactly once removes exactly one card, whether or not other ids repeat |
| Store.InsertKeyed | src/db.js:7 | inserting a record under a fresh key keeps the table in strictly ascending key order |
| Store.Add | src/App.js:183 | add succeeds exactly when the key is free, keeps key order and adds the one record |
| Store.AddFind | src/App.js:183 | after add the key holds the new record and every other key keeps its record |
| Store.UpdateFind | src/App.js:108 | update merges the changes into the record under the key, leaves other keys alone, and is a no-op on a missing key |
| Store.Unsynced | src/App.js:57 | the snapshot the unsynced query is meant to return holds exactly the records with synced false |
| Store.UnsyncedKeyed | src/App.js:57 | the snapshot keeps ascending key order, so it holds each record once |
| Boards.GroupFails | src/App.js:19-30 | grouping throws exactly when some live record's status names no column |
| Boards.GroupPlaces | src/App.js:19-25 | grouping puts each live record into the column its status selects, as often as it is stored, and excludes every tombstone |
| Boards.GroupKeyed | src/App.js:19-25 | each grouped column keeps the table's ascending key order |
| Boards.Load | src/App.js:17-31 | a load whose grouping throws leaves the board empty |
| Mutations.Submit | src/App.js:156-208 | submit fails with the title alert exactly when the title is whitespace only, with the description alert exactly when only the description is, and with a taken key only when adding under a used id |
| Mutations.CreateAppends | src/App.js:172-188 | adding under a fresh id stores one new record with the trimmed texts, the modal's column as status, not deleted and unsynced; appends it to that column and keeps the other columns and records |
| Mutations.EditPatchesStore | src/App.js:189-195 | editing changes only title, description, priority and synced false of the record under the id; its id, status and tombstone and every other record are kept |
| Mutations.EditPatchesBoard | src/App.js:197-204 | editing changes only the cards with that id in the modal's column, each in its own position, and keeps the other columns |
| Mutations.DropNoOp | src/App.js:246-253 | a drop without a drag, onto the card's own column, or of a card not found in its column changes nothing |
| Mutations.DropMoves | src/App.js:255-262 | a move removes the card from its source column, splicing it out and keeping the other cards in order when ids there are distinct; appends it with the new status to the target; keeps the third column; the stored record gets only the new status and synced false |
| Mutations.DropKeepsTotal | src/App.js:130 | a drop never changes the total count when the source column holds the dragged id at most once, whatever other ids repeat there |
| Mutations.DeleteTombstones | src/App.js:107-113 | a soft delete keeps the record, now deleted and unsynced and otherwise unchanged; it removes that id from the given column only, splicing out its one card and keeping the others in order when ids there are distinct, and leaves the column as it was when the id is absent |
| Consistency.LoadConsistent | src/App.js:19-27 | a load that does not throw yields a board consistent with the table |
| Consistency.CreateConsistent | src/App.js:172-188 | creating under a fresh id preserves consistency |
| Consistency.EditConsistent | src/App.js:189-204 | an edit made from the card's own column preserves consistency |
| Consistency.DropConsistent | src/App.js:245-267 | every drop preserves consistency |
| Consistency.DeleteConsistent | src/App.js:107-114 | a soft delete from the card's own column preserves consistency, so tombstones never show |
| Consistency.SyncConsistent | src/App.js:67 | a change confined to synced flags preserves consistency |
| Consistency.ReloadAgrees | src/App.js:19-27 | a consistent board and a fresh load hold, per column, the same ids the same number of times, and their cards agree except in synced |
| Consistency.MoveThenReloadReorders | src/App.js:255-262 | on one two-task board, a move leaves the session column and the reloaded column in different orders, and the moved session card keeps its old synced flag |
| Consistency.ColumnsDisjoint | src/App.js:19-27 | on a consistent board an id sits in one column at most |
| Consistency.TombstonesHidden | src/App.js:22 | on a consistent board no card is a tombstone |
| Consistency.CountersMatchStore | src/App.js:130-132 | on a consistent board the total counts the showable live records, and the other two counters count the live in-progress and done records |
| Sync.SyncTasksToServer | src/App.js:56-72 | the pass pushes each snapshot record once, in key order, with DELETE exactly for tombstones and POST otherwise; resolved pushes set only synced true and rejected ones leave the record alone; afterwards exactly the rejected records are unsynced, and none are when every push resolved |
| Sync.PassKeepsKeys | src/App.js:67 | a pass changes the table only in synced flags, position by position, so it keeps key order |
| Sync.RemainingAreRejected | src/App.js:59-70 | after a pass, the unsynced records are exactly those whose push was rejected |

## Left out

- Rendering, the modal's open/close and field editing, drag-start bookkeeping, the `dragInfo` reset and the `alert` calls (src/App.js:97-150, 211-375) are presentation. So are the console messages: the load's `console.error` (src/App.js:29) and the sync pass's `console.log` on a rejected push (src/App.js:69). Submit takes the modal's fields as inputs, and its validation failures stand for the alerts.
- The mount-time `testDB` insert (src/App.js:36-52) is debugging scaffolding.
- The online/offline listeners and the `isOnline` flag (src/App.js:75-93) are platform events. A sync pass is an explicit call.
- Asynchronous interleavings are not modelled: every operation is atomic and sequential. This covers the un-awaited `update` inside the drop's state updater, React StrictMode's double invocation, and a sync pass racing an edit.
- `fetch`, the JSON body and headers, Dexie internals, `++id` and IndexedDB persistence are foreign I/O. They are replaced by a record list and an outcome oracle. Store write failures are not modelled.
- `Date.now()` is a clock, so the new id is the parameter `now`.
- src/index.js (service-worker registration and mounting) and workbox-config.js (build caching configuration) hold no board logic.
- Sync.SyncTasksToServer: the outcome oracle must supply exactly one outcome per snapshot record. Server-side idempotence of repeated pushes is the remote service's concern and is not stated.
- Consistency.EditConsistent: assumes the modal's column is the column of the card being edited, as the edit button guarantees.
- Consistency.DeleteConsistent: assumes the column passed in is the card's own column, as the delete button guarantees.
- Store.Unsynced: states the query's intended meaning, the records whose `synced` is `false`, in key order. As written, src/App.js:57 does not deliver that. IndexedDB does not accept booleans as keys, so `where('synced').equals(false)` rejects, and the `await` sits outside the `try`. Boolean `synced` values are never entered in the index declared at src/db.js:7 either. So the program's pass pushes nothing, and the model describes the pass the code is evidently written to perform.
