# sauna-app session ledger in Dafny

This project models the core of sauna-app, a personal log of sauna sessions.
A user records how many minutes each session took, day by day.

The model covers four pieces:

- **The server session ledger** (`src/app/actions/saunaSessions.ts`).
  - The `sauna_sessions` relation is a sequence of rows `(user, date, order, minutes)`. The sequence is a bag, and its physical order carries no meaning.
  - Each server action is a pure transition of that relation: `addSession`, `removeSession`, `setSessions`, `getSessionsByDate`, `getOverallAverage` and `listDatesWithSessions`.
  - An action returns either the new relation or an error. An error carries no relation, so a failed action leaves the stored rows as they were. This matches the source: it checks its input before `BEGIN`, and `ROLLBACK` undoes a failed transaction.
  - `ORDER BY session_order` is modelled as a sorted permutation of the day's rows. SQL leaves the order of rows with equal `session_order` unspecified; the model breaks such ties by position in the sequence, and ties can only arise on a day that is not dense.
  - The central invariant is density: on every `(user, date)` the orders are exactly `1..N`.
- **The browser ledger** (`src/lib/storage.ts`). It is a map from day key to a stored array, with the JSON object standing in for `readAll`/`writeAll`.
- **Day keys** (`src/lib/date.ts`, repeated in `src/lib/storage.ts`): `getDateKey`, `formatDisplayDate`, and the server's `isValidDateKey` check.
- **The user upsert rule** (`src/app/actions/saveUser.ts`).

Modules, one per file:

| file | module | contents |
|---|---|---|
| `wrappers.dfy` | `Wrappers` | `Option`, `Result` |
| `decimal.dfy` | `Decimal` | decimal rendering and reading of natural numbers (`String(n)`, `Number(s)`) |
| `text.dfy` | `Text` | `split` on one character, code-point string order, descending insertion |
| `date_format.dfy` | `DateFormat` | `getDateKey`, `formatDisplayDate` |
| `date_key.dfy` | `DateKey` | `isValidDateKey` and how it agrees with `getDateKey` |
| `minute_lists.dfy` | `MinuteLists` | the positive-value filter and the sum both ledgers use |
| `session_table.dfy` | `SessionTable` | the relation, the SQL statements, `ORDER BY`, density |
| `session_actions.dfy` | `SessionActions` | the server actions |
| `ledger_proofs.dfy` | `LedgerProofs` | invariant, frame, and refinement to plain lists |
| `local_storage.dfy` | `LocalStorage` | the browser ledger |
| `save_user.dfy` | `SaveUser` | the user upsert rule |

Three behaviours of the code are worth stating up front:

- `removeSession` refuses only a negative index. An index at or past the end of the day deletes nothing and is a silent no-op (`RemoveSessionOutOfRange`).
- `isValidDateKey` checks only the pattern of the key, so `2024-02-30` passes (`NoCalendarCheck`).
- The actions in `saunaSessions.ts` take no facility or rating argument, so the model has no such fields.

## Model

| member | source | states |
|---|---|---|
| `DateKey.ValidDateKeyMeaning` | src/app/actions/saunaSessions.ts:12-15 | a key passes isValidDateKey iff it has 4 digits, '-', a 2-digit month of value 1..12, '-', a 2-digit day of value 1..31, and nothing else |
| `DateKey.NoCalendarCheck` | src/app/actions/saunaSessions.ts:14 | "2024-02-30" passes isValidDateKey and "2024-13-01" does not |
| `DateKey.GetDateKeyIsValid` | src/lib/date.ts:1-6 | for years 1000..9999, month indices 0..11 and days 1..31, the key getDateKey builds passes the server's check |
| `DateKey.ValidDateKeyRoundTrip` | src/lib/date.ts:1-6 | every valid key whose year does not start with 0 is the key getDateKey builds from its own year, month - 1 and day |
| `DateFormat.GetDateKeyShape` | src/lib/date.ts:1-6 | the key is the year's digits, '-', month index + 1 as two zero-padded digits, '-', the day as two zero-padded digits |
| `DateFormat.PaddedValue` | src/lib/date.ts:3-4 | a number padded to two digits reads back as that number |
| `DateFormat.DisplayOfParts` | src/lib/date.ts:8-11 | for three '-'-free parts with digit-only month and day of at most 15 digits, the display is year + "年" + month without leading zeros + "月" + day without leading zeros + "日" |
| `DateFormat.DisplayOfDateKey` | src/lib/date.ts:1-11 | round trip: for month index + 1 and day below 100, displaying getDateKey(y, m, d) gives y年(m+1)月d日 |
| `DateFormat.DisplayExample` | src/lib/date.ts:8-11 | "2024-02-05" is shown as "2024年2月5日" |
| `Text.Split` | src/lib/date.ts:9 | split returns at least one part, no part contains the separator, and joining the parts with it gives back the input |
| `Text.SplitJoin` | src/lib/date.ts:9 | split undoes a join of separator-free parts |
| `Decimal.NatToStringValue` | src/lib/date.ts:10 | the decimal text of n reads back as n |
| `MinuteLists.Positive` | src/lib/storage.ts:36 | the filter's result holds only positive values, holds every positive value of the input, and is no longer than the input |
| `MinuteLists.PositiveCounts` | src/lib/storage.ts:36 | each positive value occurs in the result as often as in the input, and no other value occurs |
| `MinuteLists.PositiveConcat` | src/app/actions/saunaSessions.ts:149-151 | filtering distributes over concatenation, so the kept values stay in their input order |
| `MinuteLists.PositiveIdentity` | src/lib/storage.ts:36 | the filter leaves a list unchanged iff every value in it is positive |
| `MinuteLists.PositiveIdempotent` | src/lib/storage.ts:36-41 | filtering a filtered list changes nothing |
| `MinuteLists.SumAppend` | src/lib/storage.ts:70-72 | sumSessions([]) is 0, and appending x adds x |
| `MinuteLists.SumConcat` | src/lib/storage.ts:70-72 | the sum of a concatenation is the sum of the sums |
| `MinuteLists.SumBounds` | src/app/actions/saunaSessions.ts:32 | values in [lo, hi] sum to between lo and hi times their count |
| `SessionTable.Day` | src/app/actions/saunaSessions.ts:74 | the WHERE clause selects exactly the rows of that user and date |
| `SessionTable.MaxOrder` | src/app/actions/saunaSessions.ts:95-97 | MAX is NULL exactly on no rows, and otherwise bounds every order and is attained by one |
| `SessionTable.SortByOrder` | src/app/actions/saunaSessions.ts:72-75 | ORDER BY session_order yields a permutation of the rows with ascending orders |
| `SessionTable.OrderedMembers` | src/app/actions/saunaSessions.ts:71-78 | the ordered minutes have one entry per row and the same values as the rows |
| `SessionTable.DenseOrdersMeaning` | src/app/actions/saunaSessions.ts:115-135 | density holds iff the set of orders is {1..N} and no two rows share an order |
| `SessionTable.DenseBounds` | src/app/actions/saunaSessions.ts:94-100 | on a dense day MIN is 1 and MAX is N |
| `SessionTable.DenseSorted` | src/app/actions/saunaSessions.ts:72-75 | on a dense day the sorted rows hold the row of order o at position o - 1 |
| `SessionTable.NumberedDense` | src/app/actions/saunaSessions.ts:161-168 | the rows the insert loop writes are dense and list the input in order |
| `SessionTable.DayOfOtherDays` | src/app/actions/saunaSessions.ts:157-160 | deleting a day empties it and leaves every other (user, date) pair as it was |
| `SessionTable.DayOfDeleteSlot` | src/app/actions/saunaSessions.ts:125-129 | the single-row delete acts on its own day only |
| `SessionTable.DayOfShiftDown` | src/app/actions/saunaSessions.ts:130-135 | the renumbering acts on its own day only |
| `SessionTable.BucketOfShiftDown` | src/app/actions/saunaSessions.ts:130-135 | after the renumbering, order o holds the minutes that order o (below k) or o + 1 (from k on) held |
| `SessionActions.NextOrder` | src/app/actions/saunaSessions.ts:94-100 | the new order is 1 on an empty day, and otherwise is above every order with the previous one attained |
| `SessionActions.AddSession` | src/app/actions/saunaSessions.ts:85-113 | errors in the source's order (Unauthorized, Invalid date, Invalid minutes for minutes <= 0, then a failing transaction); success appends exactly one row with the given user, date and minutes and order MAX + 1 |
| `SessionActions.RemoveSession` | src/app/actions/saunaSessions.ts:116-143 | errors in the source's order, with Invalid index exactly for index < 0; success never grows the relation, keeps every row of other days, and adds no row to them |
| `SessionActions.SetSessions` | src/app/actions/saunaSessions.ts:146-176 | errors in the source's order; on success every row of the day is a positive input value with an order in 1..|input|, and every other row was there before |
| `SessionActions.GetSessionsByDate` | src/app/actions/saunaSessions.ts:65-82 | errors in the source's order; the result holds only positive values, no more than the day has rows, and exactly the positive minutes of the day |
| `SessionActions.GetOverallAverage` | src/app/actions/saunaSessions.ts:27-44 | only Unauthorized fails; 0 with no rows; otherwise the total over the count |
| `SessionActions.DatesDescending` | src/app/actions/saunaSessions.ts:52-55 | DISTINCT date ORDER BY date DESC: strictly descending, and exactly the dates of the rows |
| `SessionActions.ListDatesWithSessions` | src/app/actions/saunaSessions.ts:47-62 | only Unauthorized fails; the dates are strictly descending and are exactly the dates of the user's rows |
| `LedgerProofs.EmptyInv` | src/app/actions/saunaSessions.ts:17-24 | the empty relation is dense and positive |
| `LedgerProofs.NextOrderDense` | src/app/actions/saunaSessions.ts:94-100 | on a dense day of N rows, MAX + 1 is N + 1 |
| `LedgerProofs.AppendDense` | src/app/actions/saunaSessions.ts:100-105 | a row of order N + 1 keeps a dense day dense and appends its minutes to the ordered list |
| `LedgerProofs.AddSessionFrame` | src/app/actions/saunaSessions.ts:95-105 | addSession leaves every other (user, date) pair's rows unchanged |
| `LedgerProofs.AddSessionRefines` | src/app/actions/saunaSessions.ts:85-113 | on a valid ledger addSession keeps it valid, grows the day by one, and makes the day's list L + [minutes] |
| `LedgerProofs.RemoveDense` | src/app/actions/saunaSessions.ts:125-135 | deleting order k from a dense day and lowering the later orders keeps it dense and removes exactly entry k - 1 of the ordered list |
| `LedgerProofs.RemoveSessionFrame` | src/app/actions/saunaSessions.ts:125-135 | removeSession leaves every other (user, date) pair's rows unchanged |
| `LedgerProofs.RemoveSessionRefines` | src/app/actions/saunaSessions.ts:116-143 | on a valid ledger, with 0 <= index < N, removeSession keeps it valid and makes the day's list L[..index] + L[index+1..] |
| `LedgerProofs.RemoveSessionOutOfRange` | src/app/actions/saunaSessions.ts:119-135 | on a valid ledger an index at or past the end of the day leaves the relation unchanged |
| `LedgerProofs.SetSessionsFrame` | src/app/actions/saunaSessions.ts:157-168 | setSessions leaves every other (user, date) pair's rows unchanged |
| `LedgerProofs.SetSessionsRefines` | src/app/actions/saunaSessions.ts:146-176 | whatever the day held, afterwards it is dense, has one row per positive input value, and lists exactly those values in input order (an input with no positive value empties it) |
| `LedgerProofs.SetSessionsInv` | src/app/actions/saunaSessions.ts:146-176 | setSessions keeps a valid ledger valid |
| `LedgerProofs.GetSessionsByDateIsDayList` | src/app/actions/saunaSessions.ts:71-78 | on a valid ledger the filter drops nothing: getSessionsByDate returns the day's ordered list |
| `LedgerProofs.DayListEntries` | src/app/actions/saunaSessions.ts:71-75 | on a valid ledger the day's list is as long as the day, and every row of the day sits in it at position order - 1 with its own minutes |
| `LedgerProofs.AverageBounds` | src/app/actions/saunaSessions.ts:37-40 | the average lies between the smallest and the largest logged value |
| `LedgerProofs.AverageExample` | src/app/actions/saunaSessions.ts:37-40 | sessions of 10, 20 and 30 minutes average 20 |
| `LocalStorage.GetSessions` | src/lib/storage.ts:32-37 | [] for a missing or non-array entry; otherwise exactly the positive stored values, none added |
| `LocalStorage.SetSessions` | src/lib/storage.ts:39-43 | the key then holds an all-positive array, other keys are unchanged, and getSessions returns the input's positive values |
| `LocalStorage.AddSession` | src/lib/storage.ts:45-52 | a non-positive value changes nothing; otherwise the key's array (created if absent) gains the value at the end, and other keys are unchanged |
| `LocalStorage.RemoveSession` | src/lib/storage.ts:54-62 | an index inside the stored array removes exactly that element, keeping earlier ones and shifting later ones down; any other index changes nothing; other keys are unchanged |
| `LocalStorage.ClearDate` | src/lib/storage.ts:64-68 | the key is gone, other keys are unchanged, and getSessions for it returns [] |
| `LocalStorage.ViewIsRaw` | src/lib/storage.ts:54-58 | when every stored value is positive the view is the raw array, so shown indices are stored indices |
| `LocalStorage.SetSessionsInv` | src/lib/storage.ts:39-43 | setSessions keeps every stored array positive |
| `LocalStorage.AddSessionInv` | src/lib/storage.ts:45-52 | addSession keeps every stored array positive |
| `LocalStorage.RemoveSessionInv` | src/lib/storage.ts:54-62 | removeSession keeps every stored array positive |
| `LocalStorage.ClearDateInv` | src/lib/storage.ts:64-68 | clearDate keeps every stored array positive |
| `LocalStorage.AddSessionView` | src/lib/storage.ts:45-52 | on a positive store, adding a positive value appends it to the view |
| `LocalStorage.RemoveSessionView` | src/lib/storage.ts:54-62 | on a positive store, removeSession removes exactly entry index of the view, or nothing when the index is outside it |
| `LocalStorage.RemoveIndexesRawArray` | src/lib/storage.ts:56-58 | a stored [0, 5] shows [5], and removing index 0 still shows [5]: the index is into the raw array |
| `LocalStorage.AddThenRemoveRestores` | src/lib/storage.ts:45-62 | adding a value and then removing the old length restores the array, and restores the whole store when the key already held an array |
| `SaveUser.SaveUser` | src/app/actions/saveUser.ts:17-34 | the row for the id exists afterwards, no other row changes, and its name becomes the supplied one iff the row was missing, its name was NULL or empty, or equal to the supplied one; otherwise the old non-empty name stays |
| `SaveUser.SaveUserIdempotent` | src/app/actions/saveUser.ts:17-34 | two identical calls have the effect of one |
| `SaveUser.SetNameIsKept` | src/app/actions/saveUser.ts:21 | an existing different non-empty name leaves the relation unchanged |
| `SaveUser.FirstNameWins` | src/app/actions/saveUser.ts:19-28 | once a non-empty name is written, a later save with any name keeps it |

## Left out

- React UI (`src/components/TodaySessions.tsx`, `src/app/page.tsx`, `src/app/history/page.tsx`): rendering, hooks, debounce timers and optimistic updates. Their input checks only repeat the ledger's own.
- Day metadata (facility name, ratings, `getDayMeta`, `setDayMeta`, `listFacilities`): none of these is defined anywhere in `src/`.
- `src/lib/db.ts` and `src/hooks/saveuser.ts`: the connection pool and a React hook. They are not part of this model.
- Authentication: `auth()` is replaced by the user id as a parameter. None or "" is the falsy id that `assertAuthed` refuses.
- SQL text, connections, transaction isolation and concurrent appends. Each action is one atomic step, and a failure inside the transaction is the `storeFails` flag.
- Failures of the read-only queries (`getSessionsByDate`, `getOverallAverage`, `listDatesWithSessions`): they change nothing, so only their validation errors are modelled.
- localStorage access, `JSON.parse` and the `window` guard (`readAll`/`writeAll`): the map is the parsed object itself.
- JavaScript numbers:
  - Minutes are whole numbers, so `Math.round` is the identity. NaN, Infinity, fractions and the `typeof n === "number"` test are outside the model.
  - The average is a real number.
  - The storage quirk where `addSession(0.3)` stores 0 cannot arise.
- LocalStorage.SetSessions: the source stores the filtered values without rounding. With whole-number minutes this is the same list, so the difference between the two ledgers is not visible here.
- SessionActions.SetSessions: `minutesArray || []` for a null argument is not modelled; the input is always a list.
- SessionActions.GetOverallAverage: the `::int` casts of COUNT and SUM cannot overflow here, because integers are unbounded.
- SessionActions.ListDatesWithSessions: dates are ordered as strings in code-point order. The column type of `date` is not given in the source (the `date::text` cast hints at a DATE column). For ten-character keys of the checked pattern, string order and calendar order agree.
- Database type checks on `date`: if the column is a DATE, the database refuses a key such as `2024-02-30` that the pattern admits, so every action on it would fail with a database error. The model has no column type, so those actions succeed on such keys.
- SessionActions.RemoveSession: a non-integer index (refused by `Number.isInteger`) cannot be written; indices are integers.
- DateFormat.FormatDisplayDate: `Number()` is modelled for digit strings and missing parts only. The empty string reads as 0 and a missing part as NaN. Text that JavaScript also reads as a number ("+5", " 5", "5.0", "1e1", "0x10") is outside the model, which reads it as NaN. Digit strings above 2^53, which JavaScript rounds, and values from 1e21 up, which it prints in exponent form, are outside it too.
- DateFormat.DisplayOfParts: stated for month and day parts of at most 15 digits, where `Number()` reads the value exactly.
- DateFormat.DisplayOfDateKey: stated for month and day values below 100. A `Date` yields at most 12 and 31.
- DateFormat.GetDateKey: the `Date` object and its time zone are replaced by the three integers `getFullYear()`, `getMonth()` and `getDate()` would return.
- The copies of `getDateKey` and `formatDisplayDate` in `src/lib/storage.ts` (lines 7-12 and 74-77) are identical to `src/lib/date.ts` and are modelled once.

