# Terarium IoT telemetry and command relay, in Dafny

This project models the request-handling core of a small Flask service for
IoT devices such as a terrarium monitor. Devices push sensor readings
(temperature and humidity). A dashboard reads a device's latest reading and
its recent history, and it sets a control command such as `fan_on`. The
device fetches that command by polling.

The service keeps two tables:

- the sensor table (`SensorData`), with one row per reading;
- the command table (`DeviceCommand`), with at most one row per device.

Here the two tables live in an in-memory store, `Service.Store`. The sensor
table is a sequence in insertion order. The command table is a map keyed on
the unique device id. The five HTTP handlers are methods of the store:

- `ReceiveSensorData` validates a reading and appends it;
- `SendControlCommand` validates a command and upserts the device's row;
- `GetCommands` is the device's poll, and it changes nothing;
- `GetLatestData` and `GetHistoricalData` are read-only queries.

Each handler takes an already-decoded request and returns a status and a
JSON-shaped payload. Request fields are `Option`s: `None` stands for a field
that is absent or JSON null. A body that is not JSON is its own case.

The logic sits in the functions the handlers are proved against:

- `Queries` holds the read path. It filters by device, orders newest first,
  takes the first reading for "latest" and at most 100 for "history".
- `CommandRelay` holds the relay: `Poll` and `Upsert`, with lemmas for
  last-write-wins, poll-after-set and the table's well-formedness.
- `DatabaseUrl` holds the choice of connection string. The initialisation
  script rewrites a leading `postgres://` to `postgresql://` with Python's
  `str.replace(old, new, 1)`, which `ReplaceFirst` models in general. The web
  application reads the same variable without that rewrite. The lemma
  `AppAndInitDbAgreeUnlessLegacy` proves the two disagree exactly on
  legacy-scheme URLs.

Modules and files:

| file | module | source |
|---|---|---|
| wrappers.dfy | Wrappers | `Option` |
| records.dfy | Records | table rows, requests, responses, status codes, messages |
| queries.dfy | Queries | read path of app.py |
| relay.dfy | CommandRelay | command relay of app.py |
| service.dfy | Service | the five handlers as methods of `Store` |
| db_url.dfy | DatabaseUrl | init_db.py and app.py:10 |

Readings with equal timestamps come out in whatever order the database
chooses, and the latest-reading query and the history query may each choose
differently, because neither specifies one. `SortNewestFirst` picks an order,
but no contract or lemma depends on which: in particular,
`LatestMatchesHistoryHead` relates the latest reading to the head of the
history only by existence and timestamp, not as the same reading.

## Model

| member | source | states |
|---|---|---|
| `DatabaseUrl.ReplaceFirst` | init_db.py:9 | Python's replace-first: with no occurrence the string is unchanged; otherwise only the leftmost occurrence is replaced, and the text before and after it is kept |
| `DatabaseUrl.Normalize` | init_db.py:8-9 | a URL starting with `postgres://` becomes `postgresql://` followed by its unchanged remainder; any other URL is returned unchanged; the result never starts with `postgres://` |
| `DatabaseUrl.NormalizeIdempotent` | init_db.py:8-9 | normalising an already normalised URL changes nothing |
| `DatabaseUrl.InitDbUrl` | init_db.py:7-10 | with no `DATABASE_URL`, `sqlite:///terarium_data.db`, which the rewrite leaves alone; a supplied `postgres://` URL becomes `postgresql://` plus its remainder; any other supplied URL is used unchanged; the result never starts with `postgres://` |
| `DatabaseUrl.AppUrl` | app.py:10 | with no `DATABASE_URL`, `sqlite:///terarium_data.db`; otherwise the supplied URL verbatim, legacy scheme included |
| `DatabaseUrl.AppAndInitDbAgreeUnlessLegacy` | init_db.py:7-10 | the app's URL (app.py:10) equals the script's URL if and only if the supplied URL does not start with `postgres://` |
| `Queries.ForDevice` | app.py:85 | `filter_by(device_id=d)` returns only readings of `d`, and no more readings than the table holds |
| `Queries.ForDeviceMultiset` | app.py:85 | `filter_by(device_id=d)` keeps every reading of `d`, as often as it occurs in the table, and nothing else |
| `Queries.InsertByTime` | app.py:94 | inserting into a newest-first sequence keeps it newest first and adds exactly the inserted reading |
| `Queries.SortNewestFirst` | app.py:94 | `order_by(timestamp.desc())` yields a newest-first permutation of its input |
| `Queries.Latest` | app.py:85-88 | no result exactly when the device has no reading; otherwise a reading of the device, from the table, whose timestamp is at least that of every reading of the device |
| `Queries.History` | app.py:94-95 | exactly min(100, N) readings for N readings of the device, all of the device, a sub-multiset of its readings (all of them when N ≤ 100), newest first, and every reading left out is no newer than every reading returned |
| `Queries.TakeNewest` | app.py:94 | `limit(k)` on a newest-first sequence is newest first, and what it drops is no newer than what it keeps |
| `Queries.LatestMatchesHistoryHead` | app.py:85-94 | the device has a latest reading if and only if its history is non-empty, and then the latest reading is exactly as new as the history's first reading |
| `Queries.ForDeviceAppend` | app.py:57-59 | an appended reading joins the end of its own device's readings and no other device's |
| `Queries.AppendKeepsOtherDevices` | app.py:57-59 | storing a reading of one device leaves another device's latest reading and history unchanged |
| `Queries.NewestAppendIsLatest` | app.py:57-59 | a reading newer than all earlier readings of its device becomes that device's latest reading and heads its history |
| `Queries.AppendedIsNotNewerThanLatest` | app.py:57-59 | right after a reading is stored, its device has a latest reading, at least as new as the stored one |
| `Queries.HistoryFromTable` | app.py:94-95 | every reading in the history is a row of the table |
| `Queries.HistoryOmitsOnlyOlder` | app.py:94-95 | a reading of the device that the history leaves out is no newer than any reading in it |
| `Queries.HistoryEmptyIffNoReading` | app.py:94-95 | the history is empty if and only if the device has no reading |
| `CommandRelay.Poll` | app.py:71-80 | a command is returned if and only if the device has a row whose command is a non-empty string, and then it is that command; otherwise null |
| `CommandRelay.Upsert` | app.py:108-114 | afterwards the device has exactly one row, holding the new command; an existing row keeps its id, a new row gets the fresh id; every other device's row is unchanged |
| `CommandRelay.PollWellFormed` | app.py:71-80 | in a table written only by the handlers, a poll returns a command if and only if the device has a row, and then the row's command |
| `CommandRelay.UpsertWellFormed` | app.py:105-114 | an upsert of a non-empty command for a non-empty device, with a fresh id, keeps the row ids distinct and all stored commands non-empty |
| `CommandRelay.PollAfterUpsert` | app.py:71-114 | after a non-empty command is set for a device, polling that device returns it, and polls of other devices are unchanged |
| `CommandRelay.LastWriteWins` | app.py:108-114 | two upserts for one device equal a single upsert of the second command, on the row the first one created or found |
| `Service.Store.constructor` | app.py:39-41 | a fresh store is well-formed and has both tables empty |
| `Service.Store.ReceiveSensorData` | app.py:47-62 | a non-JSON body gets 400 "Request must be JSON"; a falsy `device_id` or an absent temperature or humidity gets 400 "Invalid data", and a value of 0 counts as present; a rejection changes nothing; on success exactly one reading is appended, with the next id, the given fields and the time `now`; earlier readings and the command table are unchanged |
| `Service.Store.GetCommands` | app.py:66-80 | a missing or empty `device_id` gets 400; otherwise 200 with `Poll`'s answer, never an error; it modifies nothing, so repeated polls return the same answer |
| `Service.Store.GetLatestData` | app.py:84-88 | 404 "No data found for this device" if and only if the device has no reading; otherwise 200 with a reading of the device, from the table, at least as new as all its readings |
| `Service.Store.GetHistoricalData` | app.py:92-95 | always 200 with `Queries.History` of the table: min(100, N) readings of the device, a sub-multiset of its readings and all of them when N ≤ 100, newest first, none left out newer than one returned, and an empty list exactly when the device has no reading |
| `Service.Store.SendControlCommand` | app.py:99-117 | a non-JSON body gets 400 "Request must be JSON"; a falsy `device_id` or `command` gets 400; a rejection changes nothing; on success the command table becomes `Upsert` of the old one, the next command id advances only when a row was created, and the sensor table is unchanged |

## Left out

- HTTP routing and JSON encoding are left out. Each request is an already-decoded record, and each response is a status and a payload.
- The server error raised when a JSON body is not an object (`data.get` on a list) is left out. Only "not JSON" and "JSON object" bodies are modelled.
- JSON values of other types (a number for `device_id` or `command`, say) are left out. Device ids and commands are strings, and Python truthiness of a string means non-empty.
- SQLAlchemy sessions, `db.create_all()` and storage failures are left out. The in-memory store replaces the database, and every write succeeds.
- The `updated_at` column is left out, because it only records the clock.
- The timestamp formatting of `to_dict` (`isoformat() + 'Z'`) is left out. Timestamps are naturals supplied by the caller as `now`.
- Temperature and humidity are `real`, not binary floating point. The handlers only test whether they are present.
- The `String(80)` column lengths are left out. They are a database constraint that the code never checks.
- The log lines printed by the handlers and `app.run` are left out.
- Concurrent requests are left out. Calls are sequential, so the read-then-write race in `SendControlCommand` cannot occur.
