# Todo table model

A Dafny model of the persistence core of a single-user to-do application: one
SQLite table, `Todos`, and the one SQL statement each store function runs
against it (`app.py`). The table is modelled as an abstract state machine: a
`Store` holds the rows keyed by id and the AUTOINCREMENT counter (the next id
to issue, which only grows). Each operation is a pure function from store to
store; a write the schema can reject returns a `Result`, and a rejected write
carries no new store, so the table and its counter stay as they were.

Modules:

- `Wrappers` (`wrappers.dfy`): `Option` (also SQL NULL) and `Result`.
- `Like` (`like.dfy`): SQLite's `LIKE` as the search uses it: `%` and `_`
  wildcards, ASCII-only case folding, no escape character, and both operands
  read only up to their first U+0000. Its main theorem, `SqlSubstringSearch`,
  is that the pattern `%q%` matches a name exactly when `q` occurs up to ASCII
  case in the part of the name before any U+0000. This holds provided `q`
  contains no `%`, no `_` and no U+0000.
- `Todos` (`todos.dfy`): the schema (`NOT NULL`, the `CHECK` enumerations for
  `state` and `category`, the defaults, AUTOINCREMENT ids), the table invariant
  `Valid`, and the operations `CreateTable`, `InsertTodoItem`,
  `UpdateTodoState`, `ToggleTodoCompleted`, `DeleteTodoItem`, `AllTodos` and
  `FilteredTodos`, with lemmas about update, delete and filtering.
- `Checkbox` (`checkbox.dfy`): the completion-checkbox rule of the user interface.
- `History` (`history.dfy`): sequences of operations. The counter never
  decreases, the invariant holds throughout, and ids are never reused.
- `Scenario` (`scenario.dfy`): a worked session of two inserts, a search, a
  state change and a delete, with the exact rows each listing returns.

Behaviour of SQLite and of Python's sqlite3 driver that the model follows:

- `category` has no `NOT NULL`, and a `CHECK` passes when it evaluates to NULL.
  So a row's category is `Option<string>` and NULL is accepted. `state` is
  `NOT NULL`.
- `name` must not be NULL, but the empty string is accepted.
- The search is `LIKE`, so it is case-insensitive for ASCII letters only. The
  search text is wrapped in `%…%` without escaping, so a `%` or `_` typed by the
  user acts as a wildcard. `PercentSearchFilter` and `UnderscoreSearchFilter`
  state the consequences. `CaseInsensitiveWitness` shows a match that is not a
  case-sensitive substring.
- SQLite reads both operands of `LIKE` as NUL-terminated text, so pattern and
  name are both cut at their first U+0000. A search text of `"\0"` therefore
  behaves like no search at all (`NulSearchFilter`).
- The driver refuses to bind a Python integer outside the signed 64-bit range.
  An update, toggle or delete with such an id fails before the statement runs.
- An `UPDATE` checks constraints only on the rows it matches. So setting an
  invalid state on an unknown id succeeds as a no-op.
- An insert takes its rowid before any constraint is checked. An exhausted
  counter (past 2^63-1) is therefore reported first. After it come the NOT
  NULL failures in column order (name, then state), then the CHECK failures in
  column order (state, then category).
- `toggle_todo_completed` runs exactly the statement that `update_todo_state`
  runs. `ToggleTodoCompleted` is that same function, with the same contract.

## Model

| member | source | states |
|---|---|---|
| Like.Fold | app.py:61 | LIKE folds an ASCII capital to the lower-case letter 32 code points above it and leaves every other character alone |
| Like.FoldAlike | app.py:61 | two characters compare equal under LIKE exactly when they are equal or are the same ASCII letter in different cases |
| Like.Cut | app.py:61-65 | SQLite reads a text operand of LIKE only up to its first U+0000: the result is the longest NUL-free prefix of the input, and the input itself when it has no NUL |
| Like.LikeMatch | app.py:61-65 | LIKE on NUL-free text: a match consumes at least one input character per non-`%` pattern character, and exactly one each when the pattern has no `%`; the empty pattern matches only the empty string |
| Like.SqlLike | app.py:61-65 | LIKE as SQLite evaluates it on two text values: on NUL-free operands it agrees with `LikeMatch`, and nothing after a U+0000 in either operand affects the result |
| Like.PercentMatchesAll | app.py:62 | the pattern `%` matches every string |
| Like.LeadingPercent | app.py:62 | a leading `%` matches exactly when the rest of the pattern matches some suffix of the input |
| Like.LiteralPrefix | app.py:62 | a wildcard-free text followed by `%` matches exactly the strings that begin with that text up to ASCII case |
| Like.SubstringSearch | app.py:62-65 | for a search text without `%` or `_`, `%q%` matches a name if and only if `q` occurs in it up to ASCII case |
| Like.ExactOccurrenceMatches | app.py:61-65 | every case-sensitive occurrence of a wildcard-free search text is a match |
| Like.CaseInsensitiveWitness | app.py:64-65 | the search `buy` matches "Buy milk" although it is not a case-sensitive substring of it |
| Like.UnderscoreSearch | app.py:65 | a typed `_` makes the search match every non-empty string and nothing else |
| Like.PercentSearch | app.py:65 | a typed `%` makes the search match every string |
| Like.SqlSubstringSearch | app.py:62-65 | for a search text without `%`, `_` or U+0000, SQLite's `%q%` matches a name if and only if the name, up to any U+0000, contains `q` up to ASCII case |
| Like.NulSearch | app.py:62-65 | a search text of U+0000 leaves the pattern `%`, which matches every name |
| Like.SqlUnderscoreSearch | app.py:65 | a typed `_` matches exactly the names that are non-empty and do not begin with U+0000 |
| Like.SqlPercentSearch | app.py:65 | a typed `%` matches every name |
| Todos.CreateTable | app.py:5-24 | creating the table when it is absent gives an empty, valid table whose AUTOINCREMENT counter has issued nothing, so the first insert gets id 1; an existing table is kept unchanged, so repeating the call is harmless |
| Todos.Violation | app.py:12-17 | a row is rejected exactly when name is NULL, state is NULL or outside the three states, or category is non-NULL and outside the four categories. The error reported is NOT NULL on name, then NOT NULL on state, then CHECK on state, then CHECK on category, the first that applies |
| Todos.InsertTodoItem | app.py:33-36 | an insert is rejected exactly when a constraint fails or ids are exhausted. An exhausted counter is reported as the failure before any constraint, and otherwise the first failing constraint is reported. On success it adds exactly one row under the next counter value, with the given fields, a NULL created_by and the insert time. The counter advances by one, every other row is unchanged and the table invariant is preserved |
| Todos.InsertWithDefaults | app.py:33 | with state and category omitted, the insert succeeds whenever a name is given (even an empty one) and stores state `planned` and category `other` |
| Todos.UpdateTodoState | app.py:41-45 | an id outside 64 bits fails with the driver's overflow error. Otherwise an unknown id leaves the store unchanged and raises no error. On a matched row, a state outside the enumeration or NULL is rejected, and otherwise only that row's state changes: its id, name, description, category and created_at stay, and so do all other rows and the counter |
| Todos.ToggleTodoCompleted | app.py:82-86 | behaves exactly as update_todo_state: an id outside 64 bits fails, the same rejection cases apply, only the matched row's state changes, and an unknown id is a no-op |
| Todos.DeleteTodoItem | app.py:75-79 | an id outside 64 bits fails with the driver's overflow error. Otherwise the delete removes exactly the row with that id, leaves every other row and the counter unchanged, is a no-op on an unknown id and preserves the invariant |
| Todos.AllTodos | app.py:48-52 | lists every stored row, and in a valid store each listed row is the one stored under its id, so ids are unique |
| Todos.FilteredTodos | app.py:55-72 | the result is a subset of all rows. A row is kept exactly when it passes the name LIKE test if a search text is given and has that category if the filter is not `All`. An empty search with `All` returns every row |
| Todos.UpdateIdempotent | app.py:43 | repeating a successful state update leaves the store as the first update left it |
| Todos.DeleteIdempotent | app.py:77 | after a successful delete, a second delete of the same id changes nothing |
| Todos.DeleteIsFinal | app.py:75-79 | after a successful delete, no listing and no filter result contains a task with that id |
| Todos.LiteralSearchFilter | app.py:60-68 | for a search text without wildcards or U+0000, the filter keeps exactly the rows whose name, up to any U+0000, contains the text up to ASCII case and, when a category is chosen, whose category equals it |
| Todos.PercentSearchFilter | app.py:62-65 | searching for `%` gives the same rows as not searching at all |
| Todos.UnderscoreSearchFilter | app.py:62-65 | searching for `_` gives the unsearched rows whose name is non-empty and does not begin with U+0000 |
| Todos.NulSearchFilter | app.py:62-65 | searching for U+0000 gives the same rows as not searching at all |
| Todos.UnknownCategoryFilter | app.py:66-68 | in a valid table, a category filter outside the enumeration returns no rows, whatever the search |
| Checkbox.CheckboxTarget | app.py:133-136 | an update is issued exactly when the box differs from `state == 'done'`; the target is `done` when checked and `planned` when cleared, never `in-progress` |
| Checkbox.OnCheckbox | app.py:133-136 | when the box agrees with the row's state, no statement is run and the store is unchanged; otherwise only that row's state may change, and every other row, the set of ids and the counter stay as they were |
| Checkbox.CheckboxSettles | app.py:133-136 | for a stored row the checkbox update never fails. Afterwards the state is `done` exactly when the box is checked, and a second pass with the same box value issues no update |
| Checkbox.CheckboxNeverRestoresInProgress | app.py:134-135 | after the checkbox rule a row is `in-progress` only if it already was, the box is clear and nothing was written |
| History.Step | app.py:11 | one operation never lowers the counter, keeps the table invariant, and adds only ids at or above the old counter |
| History.Run | app.py:11 | the same holds for any sequence of inserts, updates, toggles and deletes |
| History.DeletedIdNeverReused | app.py:11 | deleting a stored row succeeds, and its id appears in no later store |
| History.LaterInsertsGetLargerIds | app.py:11 | an insert after any sequence of operations gets an id larger than every id present at the start |
| Scenario.WriteReportIsNotBuy | app.py:64-65 | the search `buy` does not match "Write report" |
| Scenario.WriteReportHasNoBuy | app.py:64-65 | "Write report" does not contain `buy` in any mix of cases |
| Scenario.BuyMilkIsBuy | app.py:64-65 | the search `buy` matches "Buy milk" |
| Scenario.TwoInserts | app.py:33-36 | on a freshly created table, two inserts issue ids 1 and 2 and store the given fields |
| Scenario.WorkFilter | app.py:66-68 | with those two rows, the category filter `work` returns only the report |
| Scenario.BuySearch | app.py:63-65 | with those two rows, the search `buy` returns only "Buy milk" |
| Scenario.UpdateThenDelete | app.py:41-45 | marking row 1 `done` changes only its state, filtering by `life` then returns it, and deleting row 2 leaves only row 1 |
| Scenario.Session | app.py:33-79 | on a freshly created table, two inserts get ids 1 and 2. Filtering by `work` returns the second task and searching `buy` returns the first. After marking the first done, filtering by `life` returns it with state `done`. After deleting the second, listing returns only the first |

## Left out

- The Streamlit page in `main` (app.py:90-157): layout, forms, columns, badge
  markup and `st.experimental_rerun`. It is presentation. Only the checkbox rule
  (app.py:133-136) is modelled, with the box value as a parameter.
- Connection handling, commits and the fixed database file path (app.py:6,
  app.py:22-30). These are I/O plumbing. Each operation is one atomic statement
  on the store value.
- The pandas `read_sql_query` conversion (app.py:70). Query results are sets of
  rows, because SQL guarantees no row order.
- The clock behind `CURRENT_TIMESTAMP` (app.py:15). `created_at` is an opaque
  `now` parameter of the insert.
- Storage failures (locked or unwritable file, disk full). The model has only
  constraint violations and AUTOINCREMENT exhaustion as errors.
- SQLite's dynamic typing and type affinity. Column values are text or NULL,
  and ids are integers. Values of other Python types are not modelled, and
  neither is the driver's refusal of text arguments too large to bind. Text is
  a sequence of Unicode scalar values, so a Python `str` holding a lone
  surrogate cannot be expressed. The driver rejects such a value with
  `UnicodeEncodeError`, and the model does not cover that failure.
- FilteredTodos: does not model SQLite's limit on LIKE pattern length. When the
  pattern `%q%` exceeds 50,000 bytes of UTF-8, the real query fails with
  "LIKE or GLOB pattern too complex", but the model's filter never fails.
- Concurrent access to the database file. The application has a single local
  user and no locking.
