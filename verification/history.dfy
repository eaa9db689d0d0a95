/**
 Sequences of store operations as the user interface issues them, one
 statement per interaction. A rejected statement raises in the caller and
 leaves the store as it was.
 */
module History {
  import opened Wrappers
  import opened Todos

  datatype Op =
    | Insert(name: Option<string>, description: Option<string>, state: Option<string>,
             category: Option<string>, now: Timestamp)
    | SetState(id: int, newState: Option<string>)
    | Toggle(id: int, newState: Option<string>)
    | Delete(id: int)

  /** The store after one operation; a rejected write keeps the store. */
  function Step(s: Store, op: Op): (r: Store)
    ensures r.nextId >= s.nextId
    ensures Valid(s) ==> Valid(r)
    ensures forall k :: k in r.rows && k !in s.rows ==> k >= s.nextId
  {
    var res := match op
      case Insert(n, d, st, c, now) => InsertTodoItem(s, n, d, st, c, now)
      case SetState(id, st) => UpdateTodoState(s, id, st)
      case Toggle(id, st) => ToggleTodoCompleted(s, id, st)
      case Delete(id) => DeleteTodoItem(s, id);
    match res
    case Success(s') => s'
    case Failure(_) => s
  }

  /** The store after running `ops` in order. */
  function Run(s: Store, ops: seq<Op>): (r: Store)
    decreases |ops|
    ensures r.nextId >= s.nextId
    ensures Valid(s) ==> Valid(r)
    ensures forall k :: k in r.rows && k !in s.rows ==> k >= s.nextId
  {
    if ops == [] then s else Run(Step(s, ops[0]), ops[1..])
  }

  /** Once deleted, an id never comes back: AUTOINCREMENT does not reuse it. */
  lemma DeletedIdNeverReused(s: Store, id: int, ops: seq<Op>)
    requires Valid(s) && id in s.rows
    ensures DeleteTodoItem(s, id).Success?
    ensures id !in Run(DeleteTodoItem(s, id).value, ops).rows
  {
  }

  /**
   Every id that a later insert issues is larger than every id present now,
   whatever was inserted, updated or deleted in between.
   */
  lemma LaterInsertsGetLargerIds(s: Store, ops: seq<Op>, name: Option<string>, description: Option<string>,
                                 state: Option<string>, category: Option<string>, now: Timestamp)
    requires Valid(s)
    requires InsertTodoItem(Run(s, ops), name, description, state, category, now).Success?
    ensures var before := Run(s, ops);
      var after := InsertTodoItem(before, name, description, state, category, now).value;
      forall j :: j in after.rows && j !in before.rows ==> forall k :: k in s.rows ==> k < j
  {
  }
}
