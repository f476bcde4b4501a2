/**
 The state effects of the write routes. Each route is a function from the
 session's sequence of lists (and the request parameters) to the new
 sequence together with the outcome: either the flash message the route sets
 before redirecting, or the validation error it shows on the re-rendered form.

 Lists and todos are addressed by position. A route that dereferences the
 addressed list or todo crashes in todo.rb when the position is out of range,
 so it requires the position to exist; Ruby's `delete_at` quietly ignores a
 position past the end, so the two delete routes accept any one.
 */
module Routes {
  import opened TodoModel
  import opened Completion
  import opened RubyString
  import opened Validation

  /** The success messages, one tag per message text. */
  datatype Flash =
    | ListCreated        // "Your new list has been created."
    | ListRenamed        // "The list name has been updated."
    | ListDeleted        // "The list has been deleted." (also set by the delete-todo route)
    | TodoCreated        // "Your new todo has been created."
    | TodoUpdated        // "The todo has been updated."
    | AllTodosCompleted  // "All todos has been completed."

  /** A redirect with a success message, or a re-rendered form with an error. */
  datatype Outcome = Done(flash: Flash) | Rejected(error: ValidationError)

  /** The session's lists after the request, and how the request ended. */
  datatype Reply = Reply(lists: seq<List>, outcome: Outcome)

  /**
   `post '/lists'`: the stripped name is validated, but the list that is
   appended carries the parameter exactly as submitted.
   */
  function CreateList(lists: seq<List>, listName: string): (r: Reply)
    ensures r.outcome.Done? <==>
              1 <= |Strip(listName)| <= 100 && forall k :: 0 <= k < |lists| ==> lists[k].name != Strip(listName)
    ensures r.outcome.Done? ==>
              && r.outcome.flash == ListCreated
              && |r.lists| == |lists| + 1
              && r.lists[..|lists|] == lists
              && r.lists[|lists|] == List(listName, [])
    ensures r.outcome.Rejected? ==>
              && r.lists == lists
              && (r.outcome.error == ListNameLength <==> !(1 <= |Strip(listName)| <= 100))
              && r.outcome.error != TodoLength
  {
    match ErrorForListName(Strip(listName), lists)
    case Some(error) => Reply(lists, Rejected(error))
    case None => Reply(lists + [List(listName, [])], Done(ListCreated))
  }

  /**
   `post '/lists/:list_id'`: only list `i`'s name changes, to the stripped
   name. The uniqueness check scans every list, the renamed one included.
   */
  function RenameList(lists: seq<List>, i: nat, listName: string): (r: Reply)
    requires i < |lists|
    ensures r.outcome.Done? <==>
              1 <= |Strip(listName)| <= 100 && forall k :: 0 <= k < |lists| ==> lists[k].name != Strip(listName)
    ensures r.outcome.Done? ==>
              && r.outcome.flash == ListRenamed
              && |r.lists| == |lists|
              && r.lists[i].name == Strip(listName)
              && r.lists[i].todos == lists[i].todos
              && forall k :: 0 <= k < |lists| && k != i ==> r.lists[k] == lists[k]
    ensures r.outcome.Rejected? ==>
              && r.lists == lists
              && (r.outcome.error == ListNameLength <==> !(1 <= |Strip(listName)| <= 100))
              && r.outcome.error != TodoLength
  {
    var name := Strip(listName);
    match ErrorForListName(name, lists)
    case Some(error) => Reply(lists, Rejected(error))
    case None => Reply(lists[i := lists[i].(name := name)], Done(ListRenamed))
  }

  /** Submitting a list's current name (of valid length) is rejected as a duplicate. */
  lemma RenameToOwnNameRejected(lists: seq<List>, i: nat, listName: string)
    requires i < |lists| && Strip(listName) == lists[i].name
    ensures RenameList(lists, i, listName).lists == lists
    ensures 1 <= |lists[i].name| <= 100 ==> RenameList(lists, i, listName).outcome == Rejected(ListNameNotUnique)
    ensures !(1 <= |lists[i].name| <= 100) ==> RenameList(lists, i, listName).outcome == Rejected(ListNameLength)
  {
  }

  /** `post '/lists/:list_id/delete'`: list `i` is removed and later lists move down. */
  function DeleteList(lists: seq<List>, i: nat): (r: Reply)
    ensures r.outcome == Done(ListDeleted)
    ensures i < |lists| ==> |r.lists| == |lists| - 1
    ensures i < |lists| ==> forall k :: 0 <= k < i ==> r.lists[k] == lists[k]
    ensures i < |lists| ==> forall k :: i <= k < |r.lists| ==> r.lists[k] == lists[k + 1]
    ensures |lists| <= i ==> r.lists == lists
  {
    Reply(DeleteAt(lists, i), Done(ListDeleted))
  }

  /** `post '/lists/:list_id/todos'`: an open todo with the stripped text is appended to list `i`. */
  function AddTodo(lists: seq<List>, i: nat, text: string): (r: Reply)
    requires i < |lists|
    ensures r.outcome.Done? <==> 1 <= |Strip(text)| <= 100
    ensures r.outcome.Done? ==>
              && r.outcome.flash == TodoCreated
              && |r.lists| == |lists|
              && r.lists[i].name == lists[i].name
              && r.lists[i].todos == lists[i].todos + [Todo(Strip(text), false)]
              && TodosRemainingCount(r.lists[i]) == TodosRemainingCount(lists[i]) + 1
              && !ListCompleted(r.lists[i])
              && forall k :: 0 <= k < |lists| && k != i ==> r.lists[k] == lists[k]
    ensures r.outcome.Rejected? ==> r.lists == lists && r.outcome.error == TodoLength
  {
    var name := Strip(text);
    match ErrorForTodo(name)
    case Some(error) => Reply(lists, Rejected(error))
    case None =>
      var list := lists[i];
      CountIncompleteAppend(list.todos, [Todo(name, false)]);
      Reply(lists[i := list.(todos := list.todos + [Todo(name, false)])], Done(TodoCreated))
  }

  /**
   `post '/lists/:list_id/todos/:todo_id/delete'`: todo `j` of list `i` is
   removed and later todos move down; nothing else changes.
   */
  function DeleteTodo(lists: seq<List>, i: nat, j: nat): (r: Reply)
    requires i < |lists|
    ensures r.outcome == Done(ListDeleted)
    ensures |r.lists| == |lists|
    ensures forall k :: 0 <= k < |lists| && k != i ==> r.lists[k] == lists[k]
    ensures r.lists[i].name == lists[i].name
    ensures j < |lists[i].todos| ==>
              && |r.lists[i].todos| == |lists[i].todos| - 1
              && (forall k :: 0 <= k < j ==> r.lists[i].todos[k] == lists[i].todos[k])
              && (forall k :: j <= k < |r.lists[i].todos| ==> r.lists[i].todos[k] == lists[i].todos[k + 1])
    ensures |lists[i].todos| <= j ==> r.lists == lists
  {
    var list := lists[i];
    Reply(lists[i := list.(todos := DeleteAt(list.todos, j))], Done(ListDeleted))
  }

  /**
   `post '/lists/:list_id/todos/:todo_id'`: todo `j` of list `i` becomes
   completed exactly when the submitted flag is the string "true".
   */
  function ToggleTodo(lists: seq<List>, i: nat, j: nat, flag: string): (r: Reply)
    requires i < |lists| && j < |lists[i].todos|
    ensures r.outcome == Done(TodoUpdated)
    ensures |r.lists| == |lists|
    ensures forall k :: 0 <= k < |lists| && k != i ==> r.lists[k] == lists[k]
    ensures r.lists[i].name == lists[i].name
    ensures |r.lists[i].todos| == |lists[i].todos|
    ensures r.lists[i].todos[j].name == lists[i].todos[j].name
    ensures r.lists[i].todos[j].completed <==> flag == "true"
    ensures forall k :: 0 <= k < |lists[i].todos| && k != j ==> r.lists[i].todos[k] == lists[i].todos[k]
  {
    var list := lists[i];
    var isCompleted := flag == "true";
    var todos := list.todos[j := list.todos[j].(completed := isCompleted)];
    Reply(lists[i := list.(todos := todos)], Done(TodoUpdated))
  }

  /** Every todo of a sequence, marked as completed. */
  function CompleteEach(todos: seq<Todo>): (r: seq<Todo>)
    ensures |r| == |todos|
    ensures forall k :: 0 <= k < |r| ==> r[k] == Todo(todos[k].name, true)
  {
    seq(|todos|, k requires 0 <= k < |todos| => todos[k].(completed := true))
  }

  /**
   `post '/lists/:list_id/all_done'`: every todo of list `i` is completed and
   keeps its name; afterwards the list counts as completed exactly when it
   has todos.
   */
  function CompleteAll(lists: seq<List>, i: nat): (r: Reply)
    requires i < |lists|
    ensures r.outcome == Done(AllTodosCompleted)
    ensures |r.lists| == |lists|
    ensures forall k :: 0 <= k < |lists| && k != i ==> r.lists[k] == lists[k]
    ensures r.lists[i].name == lists[i].name
    ensures |r.lists[i].todos| == |lists[i].todos|
    ensures forall k :: 0 <= k < |lists[i].todos| ==>
              r.lists[i].todos[k].completed && r.lists[i].todos[k].name == lists[i].todos[k].name
    ensures TodosRemainingCount(r.lists[i]) == 0
    ensures ListCompleted(r.lists[i]) <==> |lists[i].todos| > 0
  {
    var list := lists[i];
    var done := list.(todos := CompleteEach(list.todos));
    ListCompletedIff(done);
    Reply(lists[i := done], Done(AllTodosCompleted))
  }
}
