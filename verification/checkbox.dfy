/**
 The one piece of logic in the user interface: each listed row shows a
 completion checkbox initialised to `state == 'done'`; when the user flips it,
 the row's state is set to `done` (checked) or `planned` (cleared).
 */
module Checkbox {
  import opened Wrappers
  import opened Todos

  /** The state to write for a row currently in `state` when the box reads `checked`; `None` issues no update. */
  function CheckboxTarget(state: string, checked: bool): (r: Option<string>)
    ensures r.Some? <==> checked != (state == "done")
    ensures r.Some? ==> r.value in States && r.value != "in-progress"
    ensures r.Some? ==> (r.value == "done" <==> checked)
  {
    if checked != (state == "done") then
      Some(if checked then "done" else "planned")
    else
      None
  }

  /** What a rendering pass does for `row` given the box's value. */
  function OnCheckbox(s: Store, row: Task, checked: bool): (r: Result<Store, DbError>)
    ensures CheckboxTarget(row.state, checked).None? ==> r == Success(s)
    ensures r.Success? ==> r.value.nextId == s.nextId && r.value.rows.Keys == s.rows.Keys
    ensures r.Success? ==> forall k :: k in s.rows && k != row.id ==> r.value.rows[k] == s.rows[k]
    ensures r.Success? && row.id in s.rows ==>
      r.value.rows[row.id] == s.rows[row.id].(state := r.value.rows[row.id].state)
  {
    match CheckboxTarget(row.state, checked)
    case None => Success(s)
    case Some(target) => UpdateTodoState(s, row.id, Some(target))
  }

  /**
   For a row of the store, the checkbox never fails, afterwards the stored
   state is `done` exactly when the box is checked, and the next rendering pass
   with the same box value issues no further update.
   */
  lemma CheckboxSettles(s: Store, row: Task, checked: bool)
    requires Valid(s) && row in AllTodos(s)
    ensures OnCheckbox(s, row, checked).Success?
    ensures var s' := OnCheckbox(s, row, checked).value;
      && Valid(s')
      && row.id in s'.rows
      && (s'.rows[row.id].state == "done" <==> checked)
      && OnCheckbox(s', s'.rows[row.id], checked) == Success(s')
  {
  }

  /** Clearing or ticking the box never puts a row into `in-progress`; only an untouched row keeps it. */
  lemma CheckboxNeverRestoresInProgress(s: Store, row: Task, checked: bool)
    requires Valid(s) && row in AllTodos(s)
    ensures var s' := OnCheckbox(s, row, checked).value;
      s'.rows[row.id].state == "in-progress" ==> row.state == "in-progress" && !checked && s' == s
  {
  }
}
