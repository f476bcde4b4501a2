/**
 When a list counts as completed: it has at least one todo and none of its
 todos is still open. An empty list is never completed.
 */
module Completion {
  import opened TodoModel

  /** The number of todos in a list. */
  function TodosCount(list: List): nat
  {
    |list.todos|
  }

  /** The number of todos whose `completed` flag is false, counted by a scan. */
  function CountIncomplete(todos: seq<Todo>): (n: nat)
    ensures n <= |todos|
    ensures n == 0 <==> forall k :: 0 <= k < |todos| ==> todos[k].completed
    ensures n == |todos| <==> forall k :: 0 <= k < |todos| ==> !todos[k].completed
  {
    if |todos| == 0 then 0
    else (if todos[0].completed == false then 1 else 0) + CountIncomplete(todos[1..])
  }

  /** The number of todos of `list` still to be done. */
  function TodosRemainingCount(list: List): (n: nat)
    ensures n <= TodosCount(list)
    ensures n == 0 <==> forall t :: t in list.todos ==> t.completed
  {
    CountIncomplete(list.todos)
  }

  /** A list is completed when it has todos and none of them remains. */
  predicate ListCompleted(list: List)
  {
    TodosCount(list) > 0 && TodosRemainingCount(list) == 0
  }

  /** The completion test, stated directly over the todos. */
  lemma ListCompletedIff(list: List)
    ensures ListCompleted(list) <==>
              |list.todos| > 0 && forall k :: 0 <= k < |list.todos| ==> list.todos[k].completed
    ensures |list.todos| == 0 ==> !ListCompleted(list)
  {
    assert forall k :: 0 <= k < |list.todos| ==> list.todos[k] in list.todos;
  }

  /** Counting the open todos of two pieces adds up. */
  lemma {:induction false} CountIncompleteAppend(a: seq<Todo>, b: seq<Todo>)
    ensures CountIncomplete(a + b) == CountIncomplete(a) + CountIncomplete(b)
    decreases |a|
  {
    if |a| == 0 {
      assert a + b == b;
    } else {
      assert (a + b)[1..] == a[1..] + b;
      CountIncompleteAppend(a[1..], b);
    }
  }
}
