# Personal calendar event store

This project models the event store of a small personal calendar web
application, `app.py`, which keeps its events in one SQLite table:

```
events(id INTEGER PRIMARY KEY AUTOINCREMENT, event_date TEXT NOT NULL,
       description TEXT NOT NULL, color TEXT DEFAULT '#4361ee',
       created_at TIMESTAMP DEFAULT CURRENT_TIMESTAMP)
```

The HTTP handlers do four kinds of request: add an event, fetch one by id, update
one and delete one. They also answer three queries: the events of one day, all
events grouped by date, and the events of the coming week.

The model holds the table as a class `Store.EventStore`. Its fields are a
`map` from id to row and the AUTOINCREMENT counter, the largest id ever
assigned, which deletions do not lower. Each handler becomes a method over that
state. A handler that only reads and has no loop becomes a function: `GetById`
and `View`. `AllEvents` and `UpcomingEvents` only read too, but they are methods
because they hold the loops of app.py:121-128 and app.py:166-173. Each takes
the fields of the request. It returns either the store's answer or the error
status of the HTTP response: 400, 404 or 500. Where does a 500 come from?

- `add_event`, `update_event` and `delete_event` have a catch-all `except`
  (app.py:61-62, 231-232, 198-199) that answers 500.
- `get_event_by_id` and `get_upcoming_events` have none. There, an
  OverflowError is left uncaught: binding an id too large for SQLite
  (app.py:135-138), or `today + timedelta(days=7)` past 9999-12-31
  (app.py:156). Flask's own handler for uncaught exceptions then answers 500.

The project has six modules:

- `Wrappers` defines the `Option` type, for absent form fields and absent
  dates.
- `Text` defines the order SQLite's default BINARY collation uses to compare
  TEXT values. That order drives `event_date = ?`, `BETWEEN`, `ORDER BY
  event_date` and `ORDER BY created_at`. It is proved to be a total order, and
  comparing two concatenations of equal-length prefixes is proved to compare the
  prefixes first.
- `Calendar` defines Python's `datetime.date`:
  - Gregorian month lengths;
  - `date + timedelta(days = n)`, which fails past 9999-12-31;
  - `isoformat()`.

  It proves that comparing zero-padded ISO text compares dates, and that the
  dates between `d` and `d + n` are exactly `d + 0, ..., d + n`.
- `Events` defines the rows and the pure parts of the queries:
  - the scan of the table in ascending id order;
  - `WHERE` filters;
  - `ORDER BY`, as a stable sort proved sorted and a permutation;
  - the date grouping `get_all_events` builds.
- `Store` defines the class, its operations and the upcoming-week window.
- `Scenarios` works through sequences of requests and what a client can conclude
  from the contracts alone.

The model follows the code where it differs from the intended behaviour:

- The "upcoming" window runs from today to today + 7 days, both ends included.
  That is eight calendar days, so with today 2024-01-01 an event on 2024-01-08
  is listed.
- In `add_event`, a missing `event_date` or `description` form field raises
  KeyError. The handler's catch-all turns it into a 500, not a 400. An empty
  field is a 400.
- `color` falls back to `#4361ee` only when the field is absent. An explicitly
  empty colour is stored as the empty text.
- Stored dates are compared as text. A date stored without zero padding, such
  as `2024-1-5`, therefore falls outside a window it names a day of.

## Model

| member | source | states |
|---|---|---|
| Store.EventStore.constructor | app.py:15-27 | `init_db` on a new database gives an empty table with its counter at 0, and the store invariant holds |
| Store.EventStore.Add | app.py:36-62 | a missing field is 500 and an empty one is 400, both with no change; once id 2^63-1 has been used the insert fails with 500; otherwise the row is stored under the counter + 1, an id never assigned before and larger than every earlier one, with the colour defaulted only when absent and `created_at` set to the current time; nothing else changes |
| Store.EventStore.GetById | app.py:133-151 | the answer is the stored row exactly when a row has that id, and 404 otherwise; an id too large for SQLite is 500 |
| Store.EventStore.Delete | app.py:178-199 | an id with no row is 404 and changes nothing; otherwise exactly that row is removed and the counter is kept, so the id is not reused |
| Store.EventStore.Update | app.py:202-232 | a missing or empty date or description is 400 before any lookup; an id with no row is 404; otherwise only that row changes, to the new date, description and colour, and keeps its `created_at` |
| Store.EventStore.View | app.py:65-77 | a missing or empty date is 400 and otherwise never an error; the result holds exactly the stored rows of that date, each once, with the length the page reports, newest `created_at` first |
| Store.EventStore.AllEvents | app.py:113-130 | the keys are exactly the dates that have rows; each group is non-empty and lists the `{description, color}` entries of the date's rows in the order of the date-sorted scan |
| Store.EventStore.DateGroupIsStoredRows | app.py:115-128 | the rows behind each date group are a permutation of the stored rows of that date |
| Store.EventStore.UpcomingEvents | app.py:154-175 | 500 exactly when today + 7 days is past 9999-12-31; otherwise the list holds one element per stored row whose date text lies between the two ISO bounds, each equal to that row's `{id, event_date, description, color}`, in ascending date order |
| Store.EventStore.UpcomingSpec | app.py:159-173 | the sorted rows of the window, turned into list elements, cover exactly the window's rows, with the right count and in ascending date order |
| Store.ToUpcomingList | app.py:166-173 | the loop builds one element per fetched row, in the order of the rows |
| Store.EventStore.SelectSpec | app.py:72-76 | a `SELECT ... WHERE p ORDER BY o` returns every matching row of the table exactly once, sorted by o |
| Store.EventStore.RowsSpec | app.py:18-19 | the table scan lists every stored row once, in strictly ascending id order |
| Store.EventStore.RowsCount | app.py:87 | a filtered scan has as many rows as the table has matching ids |
| Store.ColorOrDefault | app.py:40 | an absent colour becomes `#4361ee`; a given one, empty included, is kept |
| Store.UpcomingWindowDays | app.py:155-161 | a valid date's ISO text lies in the window exactly when the date is today + k for some k in 0..7 |
| Store.FirstWeekOf2024Bounds | app.py:156 | from 2024-01-01 the upper bound is 2024-01-08, and the two format as `2024-01-01` and `2024-01-08` |
| Store.FirstWeekOf2024Window | app.py:160-161 | that window includes 2024-01-01 and 2024-01-08 and excludes 2023-12-31 and 2024-01-09 |
| Store.UnpaddedDateOutsideWindow | app.py:160 | the unpadded text `2024-1-5` is outside the window from 2024-01-01 |
| Store.LeapYearWindows | app.py:156 | in the leap years 2024 and 2000, 25 February + 7 days is 3 March |
| Store.CommonYearWindows | app.py:156 | in the common years 2023 and 1900, 25 February + 7 days is 4 March |
| Store.YearEndWindows | app.py:156 | the bound rolls into the next year; 9999-12-24 + 7 days is the last date, and 9999-12-25 + 7 days does not exist |
| Calendar.DaysInMonth | app.py:156 | months have 28 to 31 days, and February has 29 exactly in Gregorian leap years |
| Calendar.NextDay | app.py:156 | the next day is a valid, later date, and is absent only after 9999-12-31 |
| Calendar.NextDayIsImmediate | app.py:156 | no valid date lies strictly between a date and its next day |
| Calendar.AddDays | app.py:156 | `d + n days`, when it exists, is a valid date not before d, and after d when n > 0 |
| Calendar.AddDaysOverflow | app.py:156 | adding days fails only by stepping past 9999-12-31 |
| Calendar.AddDaysSpan | app.py:156 | the dates from d to d + n, both included, are exactly d + k for k in 0..n |
| Calendar.AddDaysIncreasing | app.py:156 | larger offsets give strictly later dates |
| Calendar.IsoFormat | app.py:161 | `isoformat()` is ten characters with dashes at positions 4 and 7 |
| Calendar.Pad2Order | app.py:161 | two-digit zero padding preserves order and distinctness |
| Calendar.Pad4Order | app.py:161 | four-digit zero padding preserves order and distinctness |
| Calendar.IsoFormatOrder | app.py:160-161 | comparing ISO texts compares the dates chronologically, in both directions |
| Calendar.IsoFormatInjective | app.py:161 | distinct dates have distinct ISO texts |
| Text.LeReflexive | app.py:73 | text order is reflexive |
| Text.LeAntisymmetric | app.py:116 | text order is antisymmetric |
| Text.LeTransitive | app.py:116 | text order is transitive |
| Text.LeTotal | app.py:116 | any two texts are comparable |
| Text.LeConcat | app.py:160 | with equal-length prefixes, the concatenations compare by prefix first, then by the rest |
| Events.ScanSpec | app.py:18-19 | the scan of ids 1..n lists exactly the rows with those ids, once each, in ascending id order |
| Events.FilterMembers | app.py:73 | a `WHERE` filter keeps exactly the elements satisfying its condition |
| Events.FilterCounts | app.py:73 | a filter keeps every satisfying element as many times as it occurs, and drops the others |
| Events.FilterPermutation | app.py:116 | filtering two permutations of each other gives permutations of each other |
| Events.FilterScanCount | app.py:87 | a filtered scan has one row per matching id |
| Events.InOrderTotal | app.py:73 | any two rows are comparable under either sort order |
| Events.InOrderTransitive | app.py:116 | both sort orders are transitive |
| Events.InsertPermutes | app.py:116 | inserting into a sorted list adds exactly that element |
| Events.InsertSorted | app.py:116 | inserting keeps a list sorted |
| Events.SortByCorrect | app.py:116 | `ORDER BY` returns its rows sorted and as a permutation of its input |
| Events.SortByMembers | app.py:160 | sorting keeps the length and the set of rows |
| Events.UpcomingListAt | app.py:168-173 | element i of the upcoming list is the projection of row i |
| Events.GroupByDateKeys | app.py:121-124 | the grouping has a key exactly for every date that occurs in the rows |
| Events.GroupByDateGroup | app.py:121-128 | the group of a date lists the entries of that date's rows, in the rows' order |
| Events.GroupByDateGroups | app.py:121-128 | the previous statement holds for every key at once |
| Events.GroupByDateNonEmpty | app.py:123-128 | no group is empty |
| Scenarios.AddThenFetch | app.py:36-59 | adding 2024-03-15 "Meeting" with no colour and fetching the returned id gives that row with `#4361ee` and the current time |
| Scenarios.AddWithEmptyColor | app.py:40 | an event added with an empty colour is stored with the empty colour |
| Scenarios.DeleteTwice | app.py:183-187 | deleting the same id twice makes the second delete 404, whatever the first did, and a later fetch is 404 |
| Scenarios.DeletedIdNotReused | app.py:19 | after an add and a delete, the next add gets a larger id, and the deleted id stays absent |
| Scenarios.UpdateKeepsCreatedAt | app.py:215-221 | updating an existing row keeps its `created_at`; updating a missing id is 404 and changes nothing |

## Left out

- HTTP routing, form and JSON parsing, the JSON and HTML bodies and their messages (app.py:31-33, 55-59, 79-110, 130, 145-151, 175, 193-196, 226-229) are not modelled. Handlers take and return the values these carry.
- The `color or '#4361ee'` display fallback and the `created_at` time formatting on the view page (app.py:92-95) are not modelled, because they only build HTML. A stored `created_at` that is not `YYYY-MM-DD HH:MM:SS` would make that page fail, and the model does not capture this.
- SQLite connections, `init_db` on an existing file, and the connection left open on early returns (app.py:15-29, 186-187, 216-217) are not modelled. The model is one in-memory table.
- The wall clock is not modelled: `datetime.now().date()` and `CURRENT_TIMESTAMP` are the `today` and `now` parameters.
- 500 answers are modelled only where the inputs determine their cause. In add, update and delete these are their catch-all `except`: a missing form field, an id past 2^63 - 1, or a full AUTOINCREMENT counter. In get-by-id and upcoming they come from Flask's handler for an uncaught OverflowError: an id past 2^63 - 1, or today + 7 days past 9999-12-31. Disk, locking and I/O errors are not modelled.
- Successive `now` values are not related to each other, so the model does not state that `created_at` never decreases as ids grow. The source cannot guarantee it either, because the wall clock can step back.
- `update_event` with a body that is not a JSON object, or with non-text values such as a `null` colour stored as NULL, is not modelled. Fields are absent or text.
- Flask's `<int:...>` converter is not modelled: it sends negative ids and non-numbers to 404 before any handler runs. Ids are natural numbers.
- Concurrent requests are not modelled. Each operation is atomic.
- The browser script under `static/` is not modelled.
- Store.EventStore.View: the order among rows with equal `created_at` is stated only as "sorted", because SQL leaves the order of ties unspecified. The function itself keeps them in scan order.
- Store.EventStore.AllEvents: the order of rows with equal `event_date` is tied only to the model's stable sort, because SQL does not fix it. The order of the JSON object's keys is not modelled; the result is a map.
- Store.EventStore.UpcomingEvents: rows with equal `event_date` are stated only as sorted by date, for the same reason.
