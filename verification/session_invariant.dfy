/**
 The session invariant the validators are meant to keep: list names are
 pairwise distinct and every list name and todo name is 1 to 100 characters
 long. Every route keeps it except list creation as written, which validates
 the stripped name but stores the submitted one; `CreateStrippedList` is that
 route storing the name it validated, and it keeps the invariant too.
 */
module SessionInvariant {
  import opened TodoModel
  import opened RubyString
  import opened Validation
  import opened Routes

  ghost predicate WellFormed(lists: seq<List>)
  {
    && (forall a, b :: 0 <= a < b < |lists| ==> lists[a].name != lists[b].name)
    && (forall k :: 0 <= k < |lists| ==> ValidLength(lists[k].name))
    && (forall k, j :: 0 <= k < |lists| && 0 <= j < |lists[k].todos| ==> ValidLength(lists[k].todos[j].name))
  }

  /** A freshly started session (`session[:lists] ||= []`) is well formed. */
  lemma EmptySessionWellFormed()
    ensures WellFormed([])
  {
  }

  /** List creation storing the validated, stripped name. */
  function CreateStrippedList(lists: seq<List>, listName: string): (r: Reply)
    ensures r.outcome.Done? <==>
              1 <= |Strip(listName)| <= 100 && forall k :: 0 <= k < |lists| ==> lists[k].name != Strip(listName)
    ensures r.outcome.Done? ==>
              && r.outcome.flash == ListCreated
              && |r.lists| == |lists| + 1
              && r.lists[..|lists|] == lists
              && r.lists[|lists|] == List(Strip(listName), [])
    ensures r.outcome.Rejected? ==> r.lists == lists && r.outcome.error != TodoLength
  {
    var name := Strip(listName);
    match ErrorForListName(name, lists)
    case Some(error) => Reply(lists, Rejected(error))
    case None => Reply(lists + [List(name, [])], Done(ListCreated))
  }

  lemma CreateStrippedListKeepsWellFormed(lists: seq<List>, listName: string)
    requires WellFormed(lists)
    ensures WellFormed(CreateStrippedList(lists, listName).lists)
  {
  }

  /** The route as written keeps the invariant when the submitted name has no surrounding blanks. */
  lemma CreateListKeepsWellFormedWhenStripped(lists: seq<List>, listName: string)
    requires WellFormed(lists) && Strip(listName) == listName
    ensures WellFormed(CreateList(lists, listName).lists)
    ensures CreateList(lists, listName) == CreateStrippedList(lists, listName)
  {
  }

  /**
   The route as written stores a name the validator never saw: submitting a
   name with surrounding whitespace (such as " a") twice to an empty session
   creates two lists with the same name.
   */
  lemma CreateListAdmitsDuplicateNames(name: string)
    requires Strip(name) != name && 1 <= |Strip(name)| <= 100
    ensures var first := CreateList([], name);
            var second := CreateList(first.lists, name);
            && second.outcome == Done(ListCreated)
            && second.lists == [List(name, []), List(name, [])]
            && !WellFormed(second.lists)
  {
  }

  /** The concrete instance: " a" strips to "a". */
  lemma BlankPaddedNameStrips()
    ensures Strip(" a") == "a"
  {
    assert " a"[1..] == "a";
    assert TrimStart("a") == "a";
    assert TrimStart(" a") == "a";
    assert TrimEnd("a") == "a";
  }

  /**
   The route as written also stores names longer than 100 characters when
   the excess is whitespace around an accepted name.
   */
  lemma CreateListAdmitsOverlongNames(body: string)
    requires |body| == 100 && !IsWhitespace(body[0]) && !IsWhitespace(body[99])
    ensures CreateList([], body + " ").outcome == Done(ListCreated)
    ensures !WellFormed(CreateList([], body + " ").lists)
  {
    var s := body + " ";
    assert TrimStart(s) == s;
    assert TrimEnd(s) == TrimEnd(s[..100]) by {
      assert IsWhitespace(s[|s| - 1]);
    }
    assert s[..100] == body;
    assert TrimEnd(body) == body;
  }

  lemma RenameListKeepsWellFormed(lists: seq<List>, i: nat, listName: string)
    requires i < |lists| && WellFormed(lists)
    ensures WellFormed(RenameList(lists, i, listName).lists)
  {
  }

  lemma DeleteListKeepsWellFormed(lists: seq<List>, i: nat)
    requires WellFormed(lists)
    ensures WellFormed(DeleteList(lists, i).lists)
  {
    var r := DeleteList(lists, i).lists;
    if i < |lists| {
      forall a, b | 0 <= a < b < |r|
        ensures r[a].name != r[b].name
      {
        var a' := if a < i then a else a + 1;
        var b' := if b < i then b else b + 1;
        assert r[a] == lists[a'] && r[b] == lists[b'];
      }
    }
  }

  lemma AddTodoKeepsWellFormed(lists: seq<List>, i: nat, text: string)
    requires i < |lists| && WellFormed(lists)
    ensures WellFormed(AddTodo(lists, i, text).lists)
  {
  }

  lemma DeleteTodoKeepsWellFormed(lists: seq<List>, i: nat, j: nat)
    requires i < |lists| && WellFormed(lists)
    ensures WellFormed(DeleteTodo(lists, i, j).lists)
  {
  }

  lemma ToggleTodoKeepsWellFormed(lists: seq<List>, i: nat, j: nat, flag: string)
    requires i < |lists| && j < |lists[i].todos| && WellFormed(lists)
    ensures WellFormed(ToggleTodo(lists, i, j, flag).lists)
  {
  }

  lemma CompleteAllKeepsWellFormed(lists: seq<List>, i: nat)
    requires i < |lists| && WellFormed(lists)
    ensures WellFormed(CompleteAll(lists, i).lists)
  {
  }
}
