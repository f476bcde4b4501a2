/**
 The data held in a todo manager's session: an ordered sequence of lists, each
 with a name and an ordered sequence of todos. Lists and todos are identified
 by their position, so the sequence helpers here (first position of a value,
 Ruby's `delete_at`) are shared by the rest of the model.
 */
module TodoModel {

  /** The conventional Some/None datatype, standing in for Ruby's `nil`. */
  datatype Option<+T> = None | Some(value: T)

  /** A todo item: `{ name:, completed: }` in the session hash. */
  datatype Todo = Todo(name: string, completed: bool)

  /** A todo list: `{ name:, todos: [] }` in the session hash. */
  datatype List = List(name: string, todos: seq<Todo>)

  /** Ruby's `Array#index`: the first position holding a value equal to `x`. */
  function FirstIndex<T(==)>(s: seq<T>, x: T): (i: nat)
    requires x in s
    ensures i < |s| && s[i] == x
    ensures forall k :: 0 <= k < i ==> s[k] != x
  {
    if s[0] == x then 0 else 1 + FirstIndex(s[1..], x)
  }

  /**
   Ruby's `Array#delete_at` for a non-negative index: the element at `i` is
   removed and later elements move down by one; an index past the end leaves
   the array as it was.
   */
  function DeleteAt<T>(s: seq<T>, i: nat): (r: seq<T>)
    ensures i < |s| ==> |r| == |s| - 1
    ensures i < |s| ==> forall k :: 0 <= k < i ==> r[k] == s[k]
    ensures i < |s| ==> forall k :: i <= k < |r| ==> r[k] == s[k + 1]
    ensures |s| <= i ==> r == s
  {
    if i < |s| then s[..i] + s[i + 1..] else s
  }
}
