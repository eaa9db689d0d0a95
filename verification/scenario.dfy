/** A worked session against the table: two inserts, a search, a state change and a delete. */
module Scenario {
  import opened Wrappers
  import opened Todos
  import Like

  function Milk(t1: Timestamp): Task {
    Task(1, "Buy milk", Some("2%"), "planned", t1, None, Some("life"))
  }

  function Report(t2: Timestamp): Task {
    Task(2, "Write report", Some("Q3"), "in-progress", t2, None, Some("work"))
  }

  /** "Buy milk" begins with "Buy", so `%buy%` matches it. */
  lemma BuyMilkIsBuy()
    ensures NameMatches("Buy milk", "buy")
  {
    var s := "Buy milk";
    assert Like.NulFree(s) && Like.NulFree("buy");
    Like.SqlSubstringSearch("buy", s);
    assert Like.FoldAt(s, "buy", 0);
  }

  /** "Write report" contains no `b` in either case. */
  lemma WriteReportHasNoBuy()
    ensures !Like.ContainsFold("Write report", "buy")
  {
    var s := "Write report";
    forall i | 0 <= i <= |s| - 3
      ensures !Like.FoldAt(s, "buy", i)
    {
      assert Like.Fold(s[i]) != 'b';
    }
  }

  /** So `%buy%` does not match "Write report". */
  lemma WriteReportIsNotBuy()
    ensures !NameMatches("Write report", "buy")
  {
    var s := "Write report";
    assert Like.NulFree(s) && Like.NulFree("buy");
    WriteReportHasNoBuy();
    Like.SqlSubstringSearch("buy", s);
  }

  /** On a freshly created table, the two inserts of the session issue ids 1 and 2. */
  lemma TwoInserts(t1: Timestamp, t2: Timestamp)
    ensures InsertTodoItem(CreateTable(None), Some("Buy milk"), Some("2%"), Some("planned"), Some("life"), t1)
      == Success(Store(map[1 := Milk(t1)], 2))
    ensures InsertTodoItem(Store(map[1 := Milk(t1)], 2), Some("Write report"), Some("Q3"), Some("in-progress"), Some("work"), t2)
      == Success(Store(map[1 := Milk(t1), 2 := Report(t2)], 3))
  {
  }

  /** Filtering by `work` returns the report. */
  lemma WorkFilter(t1: Timestamp, t2: Timestamp)
    ensures FilteredTodos(Store(map[1 := Milk(t1), 2 := Report(t2)], 3), "", "work") == {Report(t2)}
  {
    var s := Store(map[1 := Milk(t1), 2 := Report(t2)], 3);
    assert AllTodos(s) == {Milk(t1), Report(t2)} by {
      assert s.rows[1] == Milk(t1) && s.rows[2] == Report(t2);
    }
    assert !Selected(Milk(t1), "", "work") && Selected(Report(t2), "", "work");
  }

  /** Searching `buy` returns the milk. */
  lemma BuySearch(t1: Timestamp, t2: Timestamp)
    ensures FilteredTodos(Store(map[1 := Milk(t1), 2 := Report(t2)], 3), "buy", AllCategories) == {Milk(t1)}
  {
    var s := Store(map[1 := Milk(t1), 2 := Report(t2)], 3);
    assert AllTodos(s) == {Milk(t1), Report(t2)} by {
      assert s.rows[1] == Milk(t1) && s.rows[2] == Report(t2);
    }
    BuyMilkIsBuy();
    WriteReportIsNotBuy();
    assert Selected(Milk(t1), "buy", AllCategories) && !Selected(Report(t2), "buy", AllCategories);
  }

  /** Marking the milk done, then deleting the report. */
  lemma UpdateThenDelete(t1: Timestamp, t2: Timestamp)
    ensures UpdateTodoState(Store(map[1 := Milk(t1), 2 := Report(t2)], 3), 1, Some("done"))
      == Success(Store(map[1 := Milk(t1).(state := "done"), 2 := Report(t2)], 3))
    ensures FilteredTodos(Store(map[1 := Milk(t1).(state := "done"), 2 := Report(t2)], 3), "", "life")
      == {Milk(t1).(state := "done")}
    ensures DeleteTodoItem(Store(map[1 := Milk(t1).(state := "done"), 2 := Report(t2)], 3), 2).Success?
    ensures AllTodos(DeleteTodoItem(Store(map[1 := Milk(t1).(state := "done"), 2 := Report(t2)], 3), 2).value)
      == {Milk(t1).(state := "done")}
  {
    var s := Store(map[1 := Milk(t1), 2 := Report(t2)], 3);
    assert s.rows[1 := s.rows[1].(state := "done")] == map[1 := Milk(t1).(state := "done"), 2 := Report(t2)];
    var s3 := Store(map[1 := Milk(t1).(state := "done"), 2 := Report(t2)], 3);
    assert DeleteTodoItem(s3, 2).value.rows == map[1 := Milk(t1).(state := "done")];
  }

  /** The whole session, step by step. */
  lemma Session(t1: Timestamp, t2: Timestamp)
    ensures var s1 := InsertTodoItem(CreateTable(None), Some("Buy milk"), Some("2%"), Some("planned"), Some("life"), t1);
      && s1.Success?
      && var s2 := InsertTodoItem(s1.value, Some("Write report"), Some("Q3"), Some("in-progress"), Some("work"), t2);
      && s2.Success?
      && FilteredTodos(s2.value, "", "work") == {Report(t2)}
      && FilteredTodos(s2.value, "buy", AllCategories) == {Milk(t1)}
      && var s3 := UpdateTodoState(s2.value, 1, Some("done"));
      && s3.Success?
      && FilteredTodos(s3.value, "", "life") == {Milk(t1).(state := "done")}
      && DeleteTodoItem(s3.value, 2).Success?
      && AllTodos(DeleteTodoItem(s3.value, 2).value) == {Milk(t1).(state := "done")}
  {
    TwoInserts(t1, t2);
    WorkFilter(t1, t2);
    BuySearch(t1, t2);
    UpdateThenDelete(t1, t2);
  }
}
