/**
 The `Todos` table: its schema constraints and the single SQL statement each
 store operation runs. A `Store` is the table's rows keyed by id together with
 the AUTOINCREMENT counter (one more than the largest id ever issued).
 */
module Todos {
  import opened Wrappers
  import Like

  /** `created_at` as SQLite writes it; its value comes from the clock and is opaque here. */
  type Timestamp = string

  /** Values admitted by `CHECK(state IN (...))`. */
  const States: set<string> := {"planned", "in-progress", "done"}

  /** Values admitted by `CHECK(category IN (...))`. */
  const Categories: set<string> := {"school", "work", "life", "other"}

  /** Python defaults of `insert_todo_item`. */
  const DefaultState := "planned"
  const DefaultCategory := "other"

  /** The category filter value that means "no restriction". */
  const AllCategories := "All"

  /** Largest rowid SQLite can issue (a signed 64-bit integer). */
  const MaxRowId: int := 0x7FFF_FFFF_FFFF_FFFF

  /** Smallest integer the sqlite3 driver binds as an SQL INTEGER. */
  const MinInteger: int := -0x8000_0000_0000_0000

  /** One row of `Todos`; NULL columns are `None`. */
  datatype Task = Task(
    id: int,
    name: string,
    description: Option<string>,
    state: string,
    createdAt: Timestamp,
    createdBy: Option<string>,
    category: Option<string>)

  /** The table contents plus the AUTOINCREMENT sequence: the next id to issue. */
  datatype Store = Store(rows: map<int, Task>, nextId: int)

  datatype Column = NameColumn | StateColumn | CategoryColumn

  /** The ways a write statement can be rejected. */
  datatype DbError =
    | NotNull(column: Column)      // NOT NULL constraint failed
    | CheckFailed(column: Column)  // CHECK constraint evaluated to false
    | Full                         // AUTOINCREMENT ran out of rowids
    | IdOutOfRange                 // the driver's OverflowError: an id outside 64 bits

  /** `CHECK(state IN (...))` together with `NOT NULL`. */
  predicate StateOk(state: Option<string>) {
    state.Some? && state.value in States
  }

  /** `CHECK(category IN (...))`: a NULL category makes the check unknown, which passes. */
  predicate CategoryOk(category: Option<string>) {
    category.None? || category.value in Categories
  }

  /** The table invariants: every row sits under its own id, below the counter, within the enumerations. */
  predicate RowOk(k: int, t: Task, nextId: int) {
    && t.id == k
    && 1 <= k < nextId
    && t.state in States
    && CategoryOk(t.category)
  }

  /** Whether the driver can bind `id` as a statement parameter. */
  predicate Bindable(id: int) {
    MinInteger <= id <= MaxRowId
  }

  predicate Valid(s: Store) {
    && 1 <= s.nextId <= MaxRowId + 1
    && forall k :: k in s.rows ==> RowOk(k, s.rows[k], s.nextId)
  }

  /** The table before the first insert. */
  const Empty := Store(map[], 1)

  /**
   `CREATE TABLE IF NOT EXISTS`: `db` is the existing table, if any; an
   existing table is kept as it is.
   */
  function CreateTable(db: Option<Store>): (r: Store)
    ensures db.None? ==> Valid(r) && r.rows == map[] && r.nextId == 1
    ensures db.Some? ==> r == db.value
  {
    match db
    case None => Empty
    case Some(s) => s
  }

  /** Whether a row with these values passes every column constraint. */
  predicate Admissible(name: Option<string>, state: Option<string>, category: Option<string>) {
    name.Some? && StateOk(state) && CategoryOk(category)
  }

  /**
   The constraint SQLite reports for a new or changed row: NOT NULL checks in
   column order first, then CHECK constraints in column order.
   */
  function Violation(name: Option<string>, state: Option<string>, category: Option<string>): (r: Option<DbError>)
    ensures r.None? <==> Admissible(name, state, category)
    ensures name.None? ==> r == Some(NotNull(NameColumn))
    ensures name.Some? && state.None? ==> r == Some(NotNull(StateColumn))
    ensures name.Some? && state.Some? && state.value !in States ==> r == Some(CheckFailed(StateColumn))
    ensures name.Some? && StateOk(state) && !CategoryOk(category) ==> r == Some(CheckFailed(CategoryColumn))
  {
    if name.None? then Some(NotNull(NameColumn))
    else if state.None? then Some(NotNull(StateColumn))
    else if state.value !in States then Some(CheckFailed(StateColumn))
    else if !CategoryOk(category) then Some(CheckFailed(CategoryColumn))
    else None
  }

  /**
   `INSERT INTO Todos (name, description, state, category) VALUES (?, ?, ?, ?)`.
   The new row gets the next AUTOINCREMENT id (allocated before constraints are
   checked), `created_at = now` and a NULL `created_by`. A rejected insert
   leaves no new store: the table and its counter stay as they were.
   */
  function InsertTodoItem(s: Store, name: Option<string>, description: Option<string>,
                          state: Option<string>, category: Option<string>, now: Timestamp): (r: Result<Store, DbError>)
    ensures r.Failure? <==> s.nextId > MaxRowId || !Admissible(name, state, category)
    ensures s.nextId > MaxRowId ==> r == Failure(Full)
    ensures r.Failure? && s.nextId <= MaxRowId ==> Some(r.error) == Violation(name, state, category)
    ensures r.Success? ==>
      && r.value.rows.Keys == s.rows.Keys + {s.nextId}
      && r.value.nextId == s.nextId + 1
      && var t := r.value.rows[s.nextId];
         t.id == s.nextId && t.name == name.value && t.description == description
         && t.state == state.value && t.category == category
         && t.createdAt == now && t.createdBy.None?
    ensures r.Success? ==> forall k :: k in s.rows && k != s.nextId ==> r.value.rows[k] == s.rows[k]
    ensures r.Success? && Valid(s) ==> s.nextId !in s.rows && Valid(r.value)
  {
    if s.nextId > MaxRowId then Failure(Full)
    else match Violation(name, state, category)
      case Some(e) => Failure(e)
      case None =>
        var id := s.nextId;
        var t := Task(id, name.value, description, state.value, now, None, category);
        Success(Store(s.rows[id := t], id + 1))
  }

  /** `insert_todo_item(name, description)` with `state` and `category` left to their defaults. */
  function InsertWithDefaults(s: Store, name: Option<string>, description: Option<string>, now: Timestamp): (r: Result<Store, DbError>)
    ensures r.Success? <==> name.Some? && s.nextId <= MaxRowId
    ensures r.Success? ==>
      && s.nextId in r.value.rows
      && r.value.rows[s.nextId].state == "planned"
      && r.value.rows[s.nextId].category == Some("other")
  {
    InsertTodoItem(s, name, description, Some(DefaultState), Some(DefaultCategory), now)
  }

  /**
   `UPDATE Todos SET state = ? WHERE id = ?`. An id outside 64 bits cannot be
   bound and fails before the statement runs. Only the matched row is checked,
   so an unknown id is a successful no-op whatever the new state is.
   */
  function UpdateTodoState(s: Store, id: int, newState: Option<string>): (r: Result<Store, DbError>)
    ensures !Bindable(id) ==> r == Failure(IdOutOfRange)
    ensures Bindable(id) && id !in s.rows ==> r == Success(s)
    ensures Bindable(id) && id in s.rows ==> (r.Success? <==> StateOk(newState))
    ensures r.Failure? && Bindable(id) ==> r.error == (if newState.None? then NotNull(StateColumn) else CheckFailed(StateColumn))
    ensures r.Success? ==> r.value.nextId == s.nextId && r.value.rows.Keys == s.rows.Keys
    ensures r.Success? && id in s.rows ==> r.value.rows[id] == s.rows[id].(state := newState.value)
    ensures r.Success? ==> forall k :: k in s.rows && k != id ==> r.value.rows[k] == s.rows[k]
    ensures r.Success? && Valid(s) ==> Valid(r.value)
  {
    if !Bindable(id) then Failure(IdOutOfRange)
    else if id !in s.rows then Success(s)
    else if newState.None? then Failure(NotNull(StateColumn))
    else if newState.value !in States then Failure(CheckFailed(StateColumn))
    else Success(s.(rows := s.rows[id := s.rows[id].(state := newState.value)]))
  }

  /** `toggle_todo_completed` runs the very statement `update_todo_state` runs. */
  function ToggleTodoCompleted(s: Store, id: int, newState: Option<string>): (r: Result<Store, DbError>)
    ensures !Bindable(id) ==> r == Failure(IdOutOfRange)
    ensures Bindable(id) && id !in s.rows ==> r == Success(s)
    ensures Bindable(id) && id in s.rows ==> (r.Success? <==> StateOk(newState))
    ensures r.Failure? && Bindable(id) ==> r.error == (if newState.None? then NotNull(StateColumn) else CheckFailed(StateColumn))
    ensures r.Success? ==> r.value.nextId == s.nextId && r.value.rows.Keys == s.rows.Keys
    ensures r.Success? && id in s.rows ==> r.value.rows[id] == s.rows[id].(state := newState.value)
    ensures r.Success? ==> forall k :: k in s.rows && k != id ==> r.value.rows[k] == s.rows[k]
    ensures r.Success? && Valid(s) ==> Valid(r.value)
  {
    UpdateTodoState(s, id, newState)
  }

  /**
   `DELETE FROM Todos WHERE id = ?`; the AUTOINCREMENT counter is untouched. An
   id outside 64 bits cannot be bound and fails before the statement runs.
   */
  function DeleteTodoItem(s: Store, id: int): (r: Result<Store, DbError>)
    ensures r.Success? <==> Bindable(id)
    ensures r.Failure? ==> r.error == IdOutOfRange
    ensures r.Success? ==>
      && r.value.rows.Keys == s.rows.Keys - {id}
      && (forall k :: k in r.value.rows ==> r.value.rows[k] == s.rows[k])
      && r.value.nextId == s.nextId
    ensures r.Success? && id !in s.rows ==> r.value == s
    ensures r.Success? && Valid(s) ==> Valid(r.value)
  {
    if !Bindable(id) then Failure(IdOutOfRange)
    else Success(Store(s.rows - {id}, s.nextId))
  }

  /** `SELECT * FROM Todos`, as a set since SQL fixes no row order. */
  function AllTodos(s: Store): (r: set<Task>)
    ensures forall k :: k in s.rows ==> s.rows[k] in r
    ensures Valid(s) ==> forall t :: t in r ==> t.id in s.rows && s.rows[t.id] == t
  {
    set k | k in s.rows :: s.rows[k]
  }

  /** `name LIKE '%' || q || '%'`, with the search text pasted in unescaped; SQLite cuts both at a U+0000. */
  predicate NameMatches(name: string, q: string) {
    Like.SqlLike("%" + q + "%", name)
  }

  /** Whether a row passes the filter that `get_filtered_todos` builds for `(q, f)`. */
  predicate Selected(t: Task, q: string, f: string) {
    && (q != [] ==> NameMatches(t.name, q))
    && (f != AllCategories ==> t.category == Some(f))
  }

  /**
   `get_filtered_todos(q, f)`: the four-way branch that assembles the WHERE
   clause. `category = ?` is never true of a NULL category.
   */
  function FilteredTodos(s: Store, q: string, f: string): (r: set<Task>)
    ensures r <= AllTodos(s)
    ensures forall t :: t in r <==> t in AllTodos(s) && Selected(t, q, f)
    ensures q == [] && f == AllCategories ==> r == AllTodos(s)
  {
    if q != [] && f != AllCategories then
      set k | k in s.rows && NameMatches(s.rows[k].name, q) && s.rows[k].category == Some(f) :: s.rows[k]
    else if q != [] then
      set k | k in s.rows && NameMatches(s.rows[k].name, q) :: s.rows[k]
    else if f != AllCategories then
      set k | k in s.rows && s.rows[k].category == Some(f) :: s.rows[k]
    else
      AllTodos(s)
  }

  /** Setting the same state twice is the same as setting it once. */
  lemma UpdateIdempotent(s: Store, id: int, newState: Option<string>)
    requires UpdateTodoState(s, id, newState).Success?
    ensures var s' := UpdateTodoState(s, id, newState).value;
      UpdateTodoState(s', id, newState) == Success(s')
  {
    var s' := UpdateTodoState(s, id, newState).value;
    if id in s.rows {
      assert s'.rows[id := s'.rows[id].(state := newState.value)] == s'.rows;
    }
  }

  /** Deleting twice is the same as deleting once. */
  lemma DeleteIdempotent(s: Store, id: int)
    ensures var r := DeleteTodoItem(s, id);
      r.Success? ==> DeleteTodoItem(r.value, id) == r
  {
  }

  /** After a delete, no listing or filter result shows a task with that id. */
  lemma DeleteIsFinal(s: Store, id: int, q: string, f: string)
    requires Valid(s)
    ensures var r := DeleteTodoItem(s, id);
      r.Success? ==>
        && (forall t :: t in AllTodos(r.value) ==> t.id != id)
        && (forall t :: t in FilteredTodos(r.value, q, f) ==> t.id != id)
  {
  }

  /**
   With a search text free of `%`, `_` and U+0000, the filter keeps exactly the
   rows whose name (up to any U+0000) contains the text up to ASCII case and
   whose category equals the filter (when one is set).
   */
  lemma LiteralSearchFilter(s: Store, q: string, f: string)
    requires Like.Literal(q) && Like.NulFree(q)
    ensures forall t :: t in FilteredTodos(s, q, f) <==>
      && t in AllTodos(s)
      && (q != [] ==> Like.ContainsFold(Like.Cut(t.name), q))
      && (f != AllCategories ==> t.category == Some(f))
  {
    forall t: Task {
      Like.SqlSubstringSearch(q, t.name);
    }
  }

  /** A search text of `%` is no restriction at all. */
  lemma PercentSearchFilter(s: Store, f: string)
    ensures FilteredTodos(s, "%", f) == FilteredTodos(s, "", f)
  {
    forall t | t in AllTodos(s)
      ensures NameMatches(t.name, "%")
    {
      Like.SqlPercentSearch(t.name);
    }
  }

  /** A search text of `_` keeps every row whose name is non-empty and does not begin with U+0000. */
  lemma UnderscoreSearchFilter(s: Store, f: string)
    ensures forall t :: t in FilteredTodos(s, "_", f) <==>
      t in FilteredTodos(s, "", f) && t.name != [] && t.name[0] != '\0'
  {
    forall t: Task {
      Like.SqlUnderscoreSearch(t.name);
    }
  }

  /** A search text of U+0000 is no restriction at all: SQLite sees the pattern `%`. */
  lemma NulSearchFilter(s: Store, f: string)
    ensures FilteredTodos(s, "\0", f) == FilteredTodos(s, "", f)
  {
    forall t | t in AllTodos(s)
      ensures NameMatches(t.name, "\0")
    {
      Like.NulSearch(t.name);
    }
  }

  /** A category filter outside the enumeration (and not "All") selects nothing. */
  lemma UnknownCategoryFilter(s: Store, q: string, f: string)
    requires Valid(s) && f != AllCategories && f !in Categories
    ensures FilteredTodos(s, q, f) == {}
  {
  }
}
