/**
 Two request sequences replayed on the model.
 */
module Scenarios {
  import opened TodoModel
  import opened Completion
  import opened RubyString
  import opened Routes
  import opened Sorting

  /** A name without surrounding whitespace is left alone by `strip`. */
  lemma StripKeepsTrimmed(s: string)
    requires |s| > 0 && !IsWhitespace(s[0]) && !IsWhitespace(s[|s| - 1])
    ensures Strip(s) == s
  {
    assert TrimStart(s) == s;
    assert TrimEnd(s) == s;
  }

  /**
   Create "Groceries", add "Milk", mark it done: the list then has one todo,
   none remaining, and counts as completed.
   */
  lemma GroceriesScenario()
    ensures CreateList([], "Groceries") == Reply([List("Groceries", [])], Done(ListCreated))
    ensures AddTodo([List("Groceries", [])], 0, "Milk")
            == Reply([List("Groceries", [Todo("Milk", false)])], Done(TodoCreated))
    ensures ToggleTodo([List("Groceries", [Todo("Milk", false)])], 0, 0, "true")
            == Reply([List("Groceries", [Todo("Milk", true)])], Done(TodoUpdated))
    ensures TodosCount(List("Groceries", [Todo("Milk", true)])) == 1
    ensures TodosRemainingCount(List("Groceries", [Todo("Milk", true)])) == 0
    ensures ListCompleted(List("Groceries", [Todo("Milk", true)]))
  {
    StripKeepsTrimmed("Groceries");
    StripKeepsTrimmed("Milk");
    var added := AddTodo([List("Groceries", [])], 0, "Milk");
    assert added.lists[0].todos == [Todo("Milk", false)];
    assert added.lists == [List("Groceries", [Todo("Milk", false)])];
    var toggled := ToggleTodo(added.lists, 0, 0, "true");
    assert toggled.lists[0].todos == [Todo("Milk", true)];
    assert toggled.lists == [List("Groceries", [Todo("Milk", true)])];
    ListCompletedIff(List("Groceries", [Todo("Milk", true)]));
  }

  /** A completed list stored before an open one is displayed after it. */
  lemma CompletedListShownAfterOpenList(done: List, open: List)
    requires ListCompleted(done) && !ListCompleted(open)
    ensures SortLists([done, open]) == [(open, 1), (done, 0)]
  {
    var lists := [done, open];
    assert Select(lists, false) == [open] by {
      assert lists[1..] == [open];
      assert lists[1..][1..] == [];
    }
    assert Select(lists, true) == [done] by {
      assert lists[1..] == [open];
      assert lists[1..][1..] == [];
    }
    assert FirstIndex(lists, done) == 0;
    assert FirstIndex(lists, open) == 1;
    assert WithFirstIndex([open], lists) == [(open, 1)];
    assert WithFirstIndex([done], lists) == [(done, 0)];
  }

  /** Completing all of [A open, B done] gives [A done, B done]. */
  lemma CompleteAllScenario(name: string)
    ensures CompleteAll([List(name, [Todo("A", false), Todo("B", true)])], 0).lists
            == [List(name, [Todo("A", true), Todo("B", true)])]
  {
    var r := CompleteAll([List(name, [Todo("A", false), Todo("B", true)])], 0).lists;
    assert r[0].todos == [Todo("A", true), Todo("B", true)];
  }
}
