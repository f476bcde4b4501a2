/**
 The two validators the write routes run before changing the session. Each
 answers `None` (Ruby's `nil`) when the name is acceptable, or the error to
 show the user.
 */
module Validation {
  import opened TodoModel

  /** The messages a validator can produce, one tag per message text. */
  datatype ValidationError =
    | ListNameLength     // the list name is not 1 to 100 characters long
    | ListNameNotUnique  // another list already has exactly this name
    | TodoLength         // the todo text is not 1 to 100 characters long

  const MinNameLength: nat := 1
  const MaxNameLength: nat := 100

  /** Ruby's `(1..100).cover? size`. */
  predicate ValidLength(name: string)
  {
    MinNameLength <= |name| <= MaxNameLength
  }

  /** `lists.any? { |list| list[:name] == name }`, as a scan. */
  function NameTaken(lists: seq<List>, name: string): (b: bool)
    ensures b <==> exists k :: 0 <= k < |lists| && lists[k].name == name
  {
    if |lists| == 0 then false
    else lists[0].name == name || NameTaken(lists[1..], name)
  }

  /**
   The length check comes first, so an out-of-range name is reported as such
   even when it is also a duplicate; a name of acceptable length is rejected
   exactly when some list (case-sensitively) already carries it.
   */
  function ErrorForListName(name: string, lists: seq<List>): (r: Option<ValidationError>)
    ensures !(1 <= |name| <= 100) ==> r == Some(ListNameLength)
    ensures 1 <= |name| <= 100 ==>
              (r == Some(ListNameNotUnique) <==> exists k :: 0 <= k < |lists| && lists[k].name == name)
    ensures r == None <==> 1 <= |name| <= 100 && forall k :: 0 <= k < |lists| ==> lists[k].name != name
    ensures r != Some(TodoLength)
  {
    if !ValidLength(name) then Some(ListNameLength)
    else if NameTaken(lists, name) then Some(ListNameNotUnique)
    else None
  }

  /** A todo's text is rejected exactly when its length is outside 1 to 100. */
  function ErrorForTodo(name: string): (r: Option<ValidationError>)
    ensures r == None <==> 1 <= |name| <= 100
    ensures r == None || r == Some(TodoLength)
  {
    if !ValidLength(name) then Some(TodoLength) else None
  }

  /** The bounds are inclusive: 1 and 100 characters pass, 0 and 101 do not. */
  lemma LengthBounds(lists: seq<List>, s0: string, s1: string, s100: string, s101: string)
    requires |s0| == 0 && |s1| == 1 && |s100| == 100 && |s101| == 101
    ensures ErrorForTodo(s0) == Some(TodoLength) && ErrorForTodo(s101) == Some(TodoLength)
    ensures ErrorForTodo(s1) == None && ErrorForTodo(s100) == None
    ensures ErrorForListName(s0, lists) == Some(ListNameLength)
    ensures ErrorForListName(s101, lists) == Some(ListNameLength)
    ensures ErrorForListName(s1, lists) != Some(ListNameLength)
    ensures ErrorForListName(s100, lists) != Some(ListNameLength)
  {
  }
}
