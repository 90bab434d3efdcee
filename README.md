# Smart door lock: access-control entity store

This project models the part of the smart door lock backend that holds state
and rules. That part is the access-control database: users, access keys,
doors, and the permission rows that say which key may open which door. It
covers three files:

- `smart_door_lock_backend/db_init.py` declares the tables. Module `Schema`
  has one datatype per row, the column defaults, and the constraints as one
  predicate, `Consistent`. The constraints are: key_uid is UNIQUE, the
  foreign keys hold, and each (key_id, door_id) pair appears once. `Schema`
  also has the check each single-row INSERT must pass, and the ON DELETE
  actions (CASCADE on permissions, SET NULL on a key's owner).
- `smart_door_lock_backend/app.py` holds the REST handlers. Module `Backend`
  has one class, `AccessStore`. Its fields are the four tables and the
  AUTO_INCREMENT counters. It has one method per handler. Every method takes
  the request body's members as `Field`s (missing, `null` or a value),
  returns the handler's HTTP status and says what each table holds
  afterwards. Every method keeps `Valid()`, which is the schema's
  `Consistent` plus fresh ids. `SetPermissions` is a loop like the handler's
  own. It works on a copy of the table: first it deletes the key's rows, then
  it inserts one row per listed door, checking each insert against the
  constraints. It stores the copy only if every insert passes, which models
  commit and rollback.
- `src/pages/Permissions.tsx` is the console's permissions page. Module
  `Console` has `Toggle` (handleDoorToggle), `SelectedDoors` (the door_id
  projection in fetchPermissions) and `Save` (the guard in handleSave). It
  also has lemmas linking the selection the page builds to what
  `set_permissions` accepts.

Python behaviours the model spells out:
- Truthiness: `""`, `0` and `None` are falsy.
- `data.get(k)` returns None for a member that is missing and for one that
  is `null`.
- `data.get(k, d)` returns the default d only when the member is missing.
- `COALESCE(x, col)` keeps the stored value only when x is None.

An uncaught database error becomes status 500 with nothing committed. That
is Flask's answer to an uncaught exception, and the handler never reaches
its `commit()`. Two handlers have such a path:
- `create_user` with `"role": null` writes NULL into a NOT NULL column.
- `update_key` on an existing key with a user_id that no user has breaks
  the foreign key.

The device call in `send_command` is a parameter, `deviceAccepts`. The
method returns the request it would send, `POST http://{ip}/{cmd}`, and
changes no table.

Facts about the code that the model keeps:
- Permission rows have no granted-by or granted-at columns.
- `POST /api/permissions` replaces the key's whole door set.
- A door listed twice in `POST /api/permissions` makes the whole request fail
  with 500, because the second INSERT breaks UNIQUE (key_id, door_id).
- `delete_user` and `delete_key` answer 200 even when the id is absent.
- A door's state is only `locked` or `unlocked`.
- No handler changes a key's `key_uid` or `status`, or a door's `status`.
- `key_uid` and `device_ip` are VARCHAR columns without a COLLATE clause, so
  the UNIQUE index on `key_uid` and the `WHERE device_ip = %s` lookup compare
  under the server's default collation, which is case-insensitive. The model
  compares them with `SameText`: equal once ASCII capitals are folded to lower
  case. With "A1B2C3D4" stored, `create_key` with "a1b2c3d4" is a duplicate
  entry and answers 400.
- `update_door` answers 404 when the UPDATE changes nothing, because
  `cur.rowcount` counts changed rows (the driver's default, without the
  FOUND_ROWS client flag). This includes a request that sets every given
  column to the value it already holds.

## Model

| member | source | states |
|---|---|---|
| Schema.Consistent | smart_door_lock_backend/db_init.py:27-60 | Every constraint the tables declare: key_uid unique under the collation, a key's user_id NULL or naming a user, every permission row naming an existing key and door, and no (key_id, door_id) pair twice. |
| Schema.KeyInsertable | smart_door_lock_backend/db_init.py:30-34 | An INSERT INTO access_keys passes when no stored key_uid collates equal to the new one and the user_id is NULL or names a user. |
| Schema.PermissionInsertable | smart_door_lock_backend/db_init.py:53-58 | An INSERT INTO permissions passes when its key and door exist and its (key_id, door_id) pair is new. |
| Schema.SameTextPointwise | smart_door_lock_backend/db_init.py:30 | Two values collate equal exactly when they have the same length and agree at every position once ASCII case is folded. |
| Schema.CaseVariantUidInUse | smart_door_lock_backend/db_init.py:30 | With "A1B2C3D4" stored, the key_uid "a1b2c3d4" is already in use. |
| Schema.InsertKeyConsistent | smart_door_lock_backend/db_init.py:27-36 | Adding a key row with a fresh id keeps the constraints exactly when its key_uid is unused and its user_id is NULL or names a user. |
| Schema.InsertPermissionConsistent | smart_door_lock_backend/db_init.py:50-60 | Appending a permission row keeps the constraints exactly when its key and door exist and its (key_id, door_id) pair is new. |
| Schema.WithoutKey | smart_door_lock_backend/db_init.py:56 | The rows left after a key is deleted are exactly the rows of other keys. |
| Schema.WithoutDoor | smart_door_lock_backend/db_init.py:57 | The rows left after a door is deleted are exactly the rows of other doors. |
| Schema.WithoutKeyExactly | smart_door_lock_backend/db_init.py:56 | Deleting a key removes every row that references it and keeps every other row as often as it occurred. |
| Schema.WithoutDoorExactly | smart_door_lock_backend/db_init.py:57 | Deleting a door removes every row that references it and keeps every other row as often as it occurred. |
| Schema.ClearOwner | smart_door_lock_backend/db_init.py:32-34 | ON DELETE SET NULL: every key stays; each key the deleted user owned keeps all its columns but gets user_id NULL; every other key is unchanged. |
| Schema.WithoutKeyUnique | smart_door_lock_backend/db_init.py:58 | Removing a key's rows keeps every (key_id, door_id) pair unique. |
| Schema.WithoutDoorUnique | smart_door_lock_backend/db_init.py:58 | Removing a door's rows keeps every (key_id, door_id) pair unique. |
| Schema.DeleteKeyConsistent | smart_door_lock_backend/db_init.py:53-58 | Deleting a key with its cascade keeps all constraints. |
| Schema.DeleteDoorConsistent | smart_door_lock_backend/db_init.py:53-58 | Deleting a door with its cascade keeps all constraints. |
| Schema.DeleteUserConsistent | smart_door_lock_backend/db_init.py:32-34 | Deleting a user and setting its keys' user_id to NULL keeps all constraints. |
| Backend.KeyPermissionRows | smart_door_lock_backend/app.py:284-293 | The SELECT ... JOIN returns, for each of the key's rows whose door exists, its door_id, the door's name and location, and the row's role, and nothing else. |
| Backend.KeyPermissionRowsCover | smart_door_lock_backend/app.py:284-293 | On consistent tables the returned door ids are exactly the doors the key is granted. |
| Backend.KeyPermissionRowsDistinct | smart_door_lock_backend/app.py:284-293 | Because (key_id, door_id) is unique, no door appears twice in the result. |
| Backend.NewRows | smart_door_lock_backend/app.py:321-325 | The insert loop adds one row per listed door, in list order, each with the request's key and role. |
| Backend.ReplaceKeyDoors | smart_door_lock_backend/app.py:316-328 | The committed table holds a row exactly when it is a row of another key that was there before, or a row of the key for a listed door carrying the request's role. |
| Backend.ReplaceGrantsListedDoors | smart_door_lock_backend/app.py:316-328 | After the replace, the key's rows are exactly one per listed door, each carrying the request's role, and its door set is the set of listed doors. |
| Backend.ReplaceKeepsOtherKeys | smart_door_lock_backend/app.py:318 | The replace leaves every other key's rows unchanged and in order. |
| Backend.WorkingTablePairs | smart_door_lock_backend/app.py:318-325 | After the DELETE and some inserts, the pair (key, d) is present exactly when d was already inserted, so an insert fails on uniqueness only for a repeated door. |
| Backend.ReplaceConsistent | smart_door_lock_backend/app.py:316-328 | A replace whose every insert passes the checks keeps all constraints. |
| Backend.DeviceKnown | smart_door_lock_backend/app.py:252-257 | The lookup finds a row exactly when some stored device_ip collates equal to the path's ip; otherwise the handler answers 404. |
| Backend.ReplaceAllowed | smart_door_lock_backend/app.py:318-327 | Every INSERT of the loop passes exactly when the key exists (if any door is listed), every listed door exists, and no door is listed twice. |
| Backend.AccessStore.CreateUser | smart_door_lock_backend/app.py:35-49 | 400 with no user added when name is missing, null or empty; 500 with nothing added for a null role; otherwise 201 and one new user whose role defaults to 'operator'. |
| Backend.AccessStore.DeleteUser | smart_door_lock_backend/app.py:52-59 | Always 200: the user is gone, and its keys stay with user_id NULL (the access_keys table becomes `ClearOwner` of the old one). |
| Backend.AccessStore.CreateKey | smart_door_lock_backend/app.py:82-105 | 201 exactly when key_uid and user_id are truthy and the insert passes: one new key, status 'active', label defaulting to ''. Otherwise 400 with the table unchanged: missing fields, a key_uid that collates equal to a stored one, or an unknown user. |
| Backend.AccessStore.UpdateKey | smart_door_lock_backend/app.py:109-125 | Only the target key's label and user_id change (an absent label becomes ''); key_uid and status never change; an absent id answers 200 with no change. |
| Backend.AccessStore.DeleteKey | smart_door_lock_backend/app.py:129-136 | Always 200: the key is gone, and by cascade exactly its permission rows. |
| Backend.AccessStore.CreateDoor | smart_door_lock_backend/app.py:160-178 | 400 unless name, location and deviceIP are all truthy; otherwise 201 and one new door with status 'locked'. |
| Backend.AccessStore.UpdateDoor | smart_door_lock_backend/app.py:183-214 | 400 when none of name/location/deviceIP is truthy; 404 when the id is absent; otherwise each non-null member replaces its column while the others and the status keep their values, and the answer is 200 exactly when the row changed, 404 when it did not. |
| Backend.AccessStore.DeleteDoor | smart_door_lock_backend/app.py:219-230 | 404 with no change when the id is absent; otherwise 200, the door is gone, and by cascade exactly its permission rows. |
| Backend.AccessStore.SendCommand | smart_door_lock_backend/app.py:237-273 | 400 when cmd is falsy and 404 when no door's device_ip collates equal to the path's ip, in both cases with no device request; otherwise the request goes to the path's ip with that command, and the status is 200 or 500 as the device answers. No table changes. |
| Backend.AccessStore.GetPermissionsByKey | smart_door_lock_backend/app.py:280-299 | 200 with the key's joined rows; their door ids are exactly the key's granted doors, each once. |
| Backend.AccessStore.SetPermissions | smart_door_lock_backend/app.py:304-336 | 400 exactly when keyId is falsy; 200 exactly when every insert passes (the key exists if any door is listed, every door exists, no door repeats), and then the table is the replace; otherwise (500) the table is exactly as before. |
| Console.Remove | src/pages/Permissions.tsx:45 | The filter keeps exactly the ids other than the toggled one. |
| Console.SelectedDoors | src/pages/Permissions.tsx:35 | The loaded selection is the door_id of each returned row, in order. |
| Console.Save | src/pages/Permissions.tsx:50-56 | With no key selected an error is reported and no request is made; otherwise the request carries the key and the selection unchanged. |
| Console.RemoveCounts | src/pages/Permissions.tsx:45 | The filter drops every occurrence of the id and keeps every other id as often as it occurred. |
| Console.ToggleRemovesEveryOccurrence | src/pages/Permissions.tsx:44-45 | Toggling a selected id removes every occurrence of it and keeps the others with their multiplicities. |
| Console.ToggleAppendsAbsent | src/pages/Permissions.tsx:45 | Toggling an unselected id keeps the whole selection as a prefix and appends the id at the end. |
| Console.ToggleKeepsOthersInOrder | src/pages/Permissions.tsx:45 | Apart from the toggled id, the selection is the same sequence as before. |
| Console.ToggleTwiceRestores | src/pages/Permissions.tsx:45 | Toggling the same unselected id twice restores the selection. |
| Console.ToggleNoDuplicates | src/pages/Permissions.tsx:45 | A selection without duplicates stays without duplicates. |
| Console.Toggle | src/pages/Permissions.tsx:43-47 | The toggled id is in the result exactly when it was not in the selection; every other id is in the result exactly when it was in the selection. |
| Console.LoadedSelection | src/pages/Permissions.tsx:29-40 | The selection loaded for a key has no duplicates and holds exactly the key's granted doors. |
| Console.SaveLoadedSelectionKeepsDoors | src/pages/Permissions.tsx:50-56 | Saving the loaded selection unchanged is accepted by set_permissions and grants the key the same doors as before. |
| Console.ToggleKeepsSaveable | src/pages/Permissions.tsx:43-47 | Toggling a door that exists, for a key that exists, keeps a selection that set_permissions accepts. |

## Left out

- Flask routing, JSON parsing, CORS and the MySQL connection handling are I/O. The model keeps only the status code and the effect on the tables. Request members are typed (strings, ints, a list of ints); a member of another JSON type is not modelled.
- The controller call in `send_command` (`requests.post` with a 5 s timeout) is network I/O. Its outcome is the parameter `deviceAccepts`.
- VARCHAR widths are not modelled. In MySQL's strict mode an over-long value makes an INSERT or UPDATE fail.
- InnoDB can use up an AUTO_INCREMENT value on a failed insert. The model advances its counters only on success and promises only that new ids are fresh.
- Backend.AccessStore.UpdateDoor: assumes `cur.rowcount` counts changed rows, the driver's default. With the FOUND_ROWS client flag set it counts matched rows, and a no-op update of an existing door would answer 200, not 404.
- Backend.AccessStore.CreateKey: the collation is modelled as ASCII case folding only. The accent-insensitive and Unicode case folding of `utf8mb4_0900_ai_ci`, and the trailing-space padding of PAD SPACE collations, are not modelled, so two key_uids that only those rules make equal are treated as different. A server configured with a binary default collation would compare exactly.
- Backend.AccessStore.SendCommand: the device_ip lookup uses the same ASCII case folding, with the same gaps as for key_uid.
- Backend.AccessStore.SetPermissions: assumes no other request runs at the same time. `app.run` serves requests on several threads, and the model runs each handler as one atomic step. A lock-wait timeout or deadlock abort inside the transaction goes to the `except` branch and answers 500 with a rollback even when every insert would pass; the model answers 200 there.
- Concurrency in general: every handler is modelled as one atomic step on the tables. Interleavings of concurrent requests (for example a key deleted between the DELETE and the INSERTs of `set_permissions`) are not modelled.
- Backend.AccessStore.GetPermissionsByKey: the route `/api/permissions/<key_id>` has no `int:` converter, so the path segment reaches `WHERE p.key_id = %s` as a string and MySQL casts it to a number ("abc" matches key 0, "1abc" matches key 1). The model takes the key id as an integer and does not model that cast.
- Backend.AccessStore.GetPermissionsByKey: returns rows in permission-table (insertion) order. The SELECT has no ORDER BY, so SQL promises no order. The contracts on what the rows contain do not depend on the order.
- The early returns that skip closing the connection are resource handling.
- The read-only listings `get_users`, `get_keys` and `get_doors` only project table rows and carry no rule. They are not modelled.
- The console's `PUT /api/doors/{id}/status` has no handler in the backend.
- Console.Save: the key id is modelled as the string the page holds. Its conversion to the backend's integer id is not modelled. The page calls `setKeyPermissions` with two arguments, so `updatedBy` is undefined and `JSON.stringify` leaves it out of the body; `set_permissions` reads no such member either.
- The page's React state setters, fetch wrapper, toasts, auth token and demo login are UI state and browser I/O.
- The `access_logs` table and the commented-out code are unused.
