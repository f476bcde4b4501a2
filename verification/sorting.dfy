/**
 The display-order helpers. Both put open items before finished ones and
 pair each item with a position in the stored sequence; neither changes the
 stored order. `sort_lists` pairs a list with the first position holding an
 equal list. `sort_todos` collects todos in hashes keyed by the todo itself,
 so equal todos collapse into one entry, which sits where the first of them
 was inserted but carries the position of the last.
 */
module Sorting {
  import opened TodoModel
  import opened Completion
  import opened OrderedHash

  /** One half of `lists.partition { |list| list_completed?(list) }`. */
  function Select(lists: seq<List>, completed: bool): (r: seq<List>)
    ensures |r| <= |lists|
    ensures forall k :: 0 <= k < |r| ==> ListCompleted(r[k]) == completed
    ensures forall x :: x in r ==> x in lists
  {
    if |lists| == 0 then []
    else (if ListCompleted(lists[0]) == completed then [lists[0]] else []) + Select(lists[1..], completed)
  }

  lemma {:induction false} SelectAppend(a: seq<List>, b: seq<List>, completed: bool)
    ensures Select(a + b, completed) == Select(a, completed) + Select(b, completed)
    decreases |a|
  {
    if |a| == 0 {
      assert a + b == b;
    } else {
      assert (a + b)[1..] == a[1..] + b;
      SelectAppend(a[1..], b, completed);
    }
  }

  /** Selecting a group from a sequence that holds only that group keeps it whole. */
  lemma {:induction false} SelectUniform(s: seq<List>, completed: bool)
    requires forall k :: 0 <= k < |s| ==> ListCompleted(s[k]) == completed
    ensures Select(s, completed) == s
    ensures Select(s, !completed) == []
    decreases |s|
  {
    if |s| > 0 {
      SelectUniform(s[1..], completed);
      assert s == [s[0]] + s[1..];
    }
  }

  /** A non-empty sequence is its head followed by its tail, as a multiset. */
  lemma MultisetCons(s: seq<List>)
    requires |s| > 0
    ensures multiset(s) == multiset{s[0]} + multiset(s[1..])
  {
    assert s == [s[0]] + s[1..];
  }

  /** The head of a non-empty sequence goes to the half of its own completion state. */
  lemma SelectCons(s: seq<List>)
    requires |s| > 0
    ensures multiset(Select(s, ListCompleted(s[0]))) == multiset{s[0]} + multiset(Select(s[1..], ListCompleted(s[0])))
    ensures Select(s, !ListCompleted(s[0])) == Select(s[1..], !ListCompleted(s[0]))
  {
  }

  /** The two halves of the partition together hold every list exactly once. */
  lemma {:induction false} SelectPartition(s: seq<List>)
    ensures multiset(Select(s, false)) + multiset(Select(s, true)) == multiset(s)
    decreases |s|
  {
    if |s| > 0 {
      SelectPartition(s[1..]);
      MultisetCons(s);
      SelectCons(s);
    }
  }



  /** The lists of a sequence of (list, position) pairs. */
  function Firsts(pairs: seq<(List, nat)>): (r: seq<List>)
    ensures |r| == |pairs|
    ensures forall k :: 0 <= k < |pairs| ==> r[k] == pairs[k].0
  {
    seq(|pairs|, k requires 0 <= k < |pairs| => pairs[k].0)
  }

  /** Pairs each of `group` with `lists.index(list)`. */
  function WithFirstIndex(group: seq<List>, lists: seq<List>): (r: seq<(List, nat)>)
    requires forall x :: x in group ==> x in lists
    ensures Firsts(r) == group
    ensures forall k :: 0 <= k < |r| ==> r[k].1 == FirstIndex(lists, group[k])
  {
    seq(|group|, k requires 0 <= k < |group| => (group[k], FirstIndex(lists, group[k])))
  }

  /** The two halves of the partition together are as long as the whole. */
  lemma SelectLengths(s: seq<List>)
    ensures |Select(s, false)| + |Select(s, true)| == |s|
  {
    SelectPartition(s);
    assert |multiset(Select(s, false)) + multiset(Select(s, true))| == |multiset(s)|;
  }

  /** Open lists followed by completed lists are ordered by completion. */
  lemma GroupsOrdered(groups: seq<List>, split: nat)
    requires split <= |groups|
    requires forall k :: 0 <= k < split ==> !ListCompleted(groups[k])
    requires forall k :: split <= k < |groups| ==> ListCompleted(groups[k])
    ensures forall a, b :: 0 <= a < b < |groups| && ListCompleted(groups[a]) ==> ListCompleted(groups[b])
  {
  }

  /** Each pair of `WithFirstIndex(group, lists)` points at a first occurrence in `lists`. */
  lemma PairsPointAtFirstOccurrence(pairs: seq<(List, nat)>, lists: seq<List>)
    requires forall k :: 0 <= k < |pairs| ==> pairs[k].0 in lists && pairs[k].1 == FirstIndex(lists, pairs[k].0)
    ensures forall k :: 0 <= k < |pairs| ==> pairs[k].1 < |lists| && lists[pairs[k].1] == pairs[k].0
    ensures forall k, m :: 0 <= k < |pairs| && 0 <= m < pairs[k].1 ==> lists[m] != pairs[k].0
  {
  }

  /** The open lists and then the completed lists, each paired with `lists.index(list)`. */
  function Arrange(lists: seq<List>): seq<(List, nat)>
  {
    WithFirstIndex(Select(lists, false), lists) + WithFirstIndex(Select(lists, true), lists)
  }

  lemma ArrangeFirsts(lists: seq<List>)
    ensures Firsts(Arrange(lists)) == Select(lists, false) + Select(lists, true)
    ensures forall k :: 0 <= k < |Arrange(lists)| ==>
              Arrange(lists)[k].0 in lists && Arrange(lists)[k].1 == FirstIndex(lists, Arrange(lists)[k].0)
  {
    var open := Select(lists, false);
    var done := Select(lists, true);
    var first := WithFirstIndex(open, lists);
    var second := WithFirstIndex(done, lists);
    var r := first + second;
    assert Firsts(r) == open + done by {
      assert Firsts(first) == open && Firsts(second) == done;
    }
    forall k | 0 <= k < |r|
      ensures r[k].0 in lists && r[k].1 == FirstIndex(lists, r[k].0)
    {
      if k < |first| {
        assert r[k] == first[k] && Firsts(first)[k] == open[k] && open[k] in open;
      } else {
        var j := k - |first|;
        assert r[k] == second[j] && Firsts(second)[j] == done[j] && done[j] in done;
      }
    }
  }

  /** Splitting the open-then-completed sequence again gives back each group. */
  lemma RegroupSelect(lists: seq<List>)
    ensures var groups := Select(lists, false) + Select(lists, true);
            Select(groups, false) == Select(lists, false) && Select(groups, true) == Select(lists, true)
  {
    var open := Select(lists, false);
    var done := Select(lists, true);
    SelectAppend(open, done, false);
    SelectAppend(open, done, true);
    SelectUniform(open, false);
    SelectUniform(done, true);
  }

  /**
   `sort_lists`: every list is yielded exactly once, open lists before
   completed ones, each group in its stored relative order, and each with the
   first position at which an equal list is stored.
   */
  function SortLists(lists: seq<List>): (r: seq<(List, nat)>)
    ensures |r| == |lists|
    ensures multiset(Firsts(r)) == multiset(lists)
    ensures forall a, b :: 0 <= a < b < |r| && ListCompleted(r[a].0) ==> ListCompleted(r[b].0)
    ensures Select(Firsts(r), false) == Select(lists, false)
    ensures Select(Firsts(r), true) == Select(lists, true)
    ensures forall k :: 0 <= k < |r| ==> r[k].1 < |lists| && lists[r[k].1] == r[k].0
    ensures forall k, m :: 0 <= k < |r| && 0 <= m < r[k].1 ==> lists[m] != r[k].0
  {
    var r := Arrange(lists);
    ArrangeFirsts(lists);
    SelectLengths(lists);
    SelectPartition(lists);
    RegroupSelect(lists);
    GroupsOrdered(Firsts(r), |Select(lists, false)|);
    PairsPointAtFirstOccurrence(r, lists);
    r
  }

  /**
   The hash `sort_todos` has built for one completion state after visiting the
   first `n` todos: each visited todo of that state is stored under itself
   with its position as the value.
   */
  function Collect(todos: seq<Todo>, n: nat, completed: bool): Hash<Todo, nat>
    requires n <= |todos|
  {
    if n == 0 then []
    else if todos[n - 1].completed == completed then Put(Collect(todos, n - 1, completed), todos[n - 1], n - 1)
    else Collect(todos, n - 1, completed)
  }

  /** Every entry holds a todo of the right state and a visited position of that todo. */
  ghost predicate ValuesPoint(todos: seq<Todo>, n: nat, h: Hash<Todo, nat>, completed: bool)
    requires n <= |todos|
  {
    forall p :: 0 <= p < |h| ==> h[p].0.completed == completed && h[p].1 < n && todos[h[p].1] == h[p].0
  }

  /** No visited position after an entry's value holds that entry's todo. */
  ghost predicate ValuesLast(todos: seq<Todo>, n: nat, h: Hash<Todo, nat>)
    requires n <= |todos|
  {
    forall p, m :: 0 <= p < |h| && h[p].1 < m < n ==> todos[m] != h[p].0
  }

  /** Every visited todo of the right state is a key. */
  ghost predicate KeysCover(todos: seq<Todo>, n: nat, h: Hash<Todo, nat>, completed: bool)
    requires n <= |todos|
  {
    forall m :: 0 <= m < n && todos[m].completed == completed ==> todos[m] in Keys(h)
  }

  /** The keys come in the order their todos first occur. */
  ghost predicate KeysInFirstOrder(todos: seq<Todo>, h: Hash<Todo, nat>)
  {
    forall a, b :: 0 <= a < b < |h| && h[a].0 in todos && h[b].0 in todos ==>
                     FirstIndex(todos, h[a].0) < FirstIndex(todos, h[b].0)
  }

  lemma {:induction false} CollectValuesPoint(todos: seq<Todo>, n: nat, completed: bool)
    requires n <= |todos|
    ensures ValuesPoint(todos, n, Collect(todos, n, completed), completed)
  {
    if n > 0 {
      CollectValuesPoint(todos, n - 1, completed);
    }
  }

  lemma {:induction false} CollectValuesLast(todos: seq<Todo>, n: nat, completed: bool)
    requires n <= |todos|
    ensures ValuesLast(todos, n, Collect(todos, n, completed))
  {
    if n > 0 {
      CollectValuesLast(todos, n - 1, completed);
      var h := Collect(todos, n - 1, completed);
      var h' := Collect(todos, n, completed);
      var t := todos[n - 1];
      if t.completed == completed {
        assert |h| <= |h'| by { assert |Keys(h)| <= |Keys(h')|; }
        forall p, m | 0 <= p < |h'| && h'[p].1 < m < n
          ensures todos[m] != h'[p].0
        {
          if h'[p].0 != t {
            assert p < |h| by { assert Keys(h')[p] != t; }
            assert h'[p] == h[p];
          }
        }
      } else {
        CollectValuesPoint(todos, n - 1, completed);
      }
    }
  }

  lemma {:induction false} CollectDistinct(todos: seq<Todo>, n: nat, completed: bool)
    requires n <= |todos|
    ensures DistinctKeys(Collect(todos, n, completed))
  {
    if n > 0 {
      CollectDistinct(todos, n - 1, completed);
    }
  }

  lemma {:induction false} CollectKeysCover(todos: seq<Todo>, n: nat, completed: bool)
    requires n <= |todos|
    ensures KeysCover(todos, n, Collect(todos, n, completed), completed)
  {
    if n > 0 {
      CollectKeysCover(todos, n - 1, completed);
      var h := Collect(todos, n - 1, completed);
      var h' := Collect(todos, n, completed);
      assert forall k :: k in Keys(h) ==> k in Keys(h');
    }
  }

  /**
   A todo that is not yet a key of the hash built from the first `n` todos
   first occurs at `n`, after the first occurrence of every key.
   */
  lemma FirstIndexOfNewKey(todos: seq<Todo>, n: nat, h: Hash<Todo, nat>, completed: bool)
    requires n < |todos| && todos[n].completed == completed && todos[n] !in Keys(h)
    requires h == Collect(todos, n, completed)
    ensures FirstIndex(todos, todos[n]) == n
    ensures forall p :: 0 <= p < |h| ==> h[p].0 in todos && FirstIndex(todos, h[p].0) < n
  {
    CollectValuesPoint(todos, n, completed);
    CollectKeysCover(todos, n, completed);
    var t := todos[n];
    assert forall m :: 0 <= m < n ==> todos[m] != t;
    forall p | 0 <= p < |h|
      ensures h[p].0 in todos && FirstIndex(todos, h[p].0) < n
    {
      assert todos[h[p].1] == h[p].0;
    }
  }

  lemma {:induction false} CollectFirstOrder(todos: seq<Todo>, n: nat, completed: bool)
    requires n <= |todos|
    ensures KeysInFirstOrder(todos, Collect(todos, n, completed))
  {
    if n > 0 {
      CollectFirstOrder(todos, n - 1, completed);
      var h := Collect(todos, n - 1, completed);
      var t := todos[n - 1];
      if t.completed == completed && t !in Keys(h) {
        FirstIndexOfNewKey(todos, n - 1, h, completed);
      } else if t.completed == completed {
        var h' := Collect(todos, n, completed);
        assert forall p :: 0 <= p < |h'| ==> h'[p].0 == h[p].0;
      }
    }
  }

  /** A hash whose keys include every todo and whose values point at todos has exactly the todos as keys. */
  lemma KeysAreTodos(todos: seq<Todo>, h: Hash<Todo, nat>)
    requires forall m :: 0 <= m < |todos| ==> todos[m] in Keys(h)
    requires forall p :: 0 <= p < |h| ==> h[p].1 < |todos| && todos[h[p].1] == h[p].0
    ensures KeySet(h) == set t | t in todos
  {
    forall t | t in todos
      ensures t in KeySet(h)
    {
      var m :| 0 <= m < |todos| && todos[m] == t;
      var p :| 0 <= p < |h| && Keys(h)[p] == t;
    }
    forall t | t in KeySet(h)
      ensures t in todos
    {
      var p :| 0 <= p < |h| && h[p].0 == t;
      assert todos[h[p].1] == t;
    }
  }

  /**
   What `sort_todos` yields for `todos`: pairs `(t, i)` with `todos[i] == t`
   and `i` the last position holding `t`; every todo appears, equal todos
   only once; open todos come first, and each group keeps the order in which
   its todos first occur.
   */
  ghost predicate TodoDisplay(todos: seq<Todo>, r: seq<(Todo, nat)>)
  {
    && (forall k :: 0 <= k < |r| ==> r[k].1 < |todos| && todos[r[k].1] == r[k].0)
    && (forall k, m :: 0 <= k < |r| && r[k].1 < m < |todos| ==> todos[m] != r[k].0)
    && (KeySet(r) == set t | t in todos)
    && DistinctKeys(r)
    && (forall a, b :: 0 <= a < b < |r| && r[a].0.completed ==> r[b].0.completed)
    && (forall a, b :: 0 <= a < b < |r| && r[a].0.completed == r[b].0.completed ==>
                         FirstIndex(todos, r[a].0) < FirstIndex(todos, r[b].0))
  }

  /** The finished hash of open todos followed by the finished hash of completed todos. */
  function Buckets(todos: seq<Todo>): Hash<Todo, nat>
  {
    Collect(todos, |todos|, false) + Collect(todos, |todos|, true)
  }

  /** Each entry of the joined buckets carries the last position of its todo. */
  lemma BucketsValuesLast(todos: seq<Todo>)
    ensures var r := Buckets(todos);
            && (forall k :: 0 <= k < |r| ==> r[k].1 < |todos| && todos[r[k].1] == r[k].0)
            && (forall k, m :: 0 <= k < |r| && r[k].1 < m < |todos| ==> todos[m] != r[k].0)
  {
    CollectValuesPoint(todos, |todos|, false);
    CollectValuesPoint(todos, |todos|, true);
    CollectValuesLast(todos, |todos|, false);
    CollectValuesLast(todos, |todos|, true);
  }

  /** The joined buckets hold every todo, and each distinct todo once. */
  lemma BucketsKeys(todos: seq<Todo>)
    ensures (KeySet(Buckets(todos)) == set t | t in todos) && DistinctKeys(Buckets(todos))
  {
    var incomplete := Collect(todos, |todos|, false);
    var complete := Collect(todos, |todos|, true);
    var r := incomplete + complete;
    CollectValuesPoint(todos, |todos|, false);
    CollectValuesPoint(todos, |todos|, true);
    CollectDistinct(todos, |todos|, false);
    CollectDistinct(todos, |todos|, true);
    CollectKeysCover(todos, |todos|, false);
    CollectKeysCover(todos, |todos|, true);
    assert Keys(r) == Keys(incomplete) + Keys(complete);
    KeysAreTodos(todos, r);
  }

  /**
   In the joined buckets open todos come first, each group in first-occurrence
   order (every entry's todo occurs in `todos`, so its first position exists).
   */
  lemma BucketsOrder(todos: seq<Todo>)
    ensures var r := Buckets(todos);
            && (forall k :: 0 <= k < |r| ==> r[k].1 < |todos| && todos[r[k].1] == r[k].0)
            && (forall a, b :: 0 <= a < b < |r| && r[a].0.completed ==> r[b].0.completed)
            && (forall a, b :: 0 <= a < b < |r| && r[a].0.completed == r[b].0.completed ==>
                                 FirstIndex(todos, r[a].0) < FirstIndex(todos, r[b].0))
  {
    CollectValuesPoint(todos, |todos|, false);
    CollectValuesPoint(todos, |todos|, true);
    CollectFirstOrder(todos, |todos|, false);
    CollectFirstOrder(todos, |todos|, true);
  }

  /** The joined buckets are exactly what `sort_todos` yields. */
  lemma JoinBuckets(todos: seq<Todo>)
    ensures TodoDisplay(todos, Buckets(todos))
  {
    BucketsValuesLast(todos);
    BucketsKeys(todos);
    BucketsOrder(todos);
  }

  /**
   `sort_todos`: yields each distinct todo once, open todos before completed
   ones, each group in the order the todos first occur, and each with the
   position of its last occurrence.
   */
  method SortTodos(todos: seq<Todo>) returns (r: seq<(Todo, nat)>)
    ensures TodoDisplay(todos, r)
  {
    var incomplete: Hash<Todo, nat> := [];
    var complete: Hash<Todo, nat> := [];
    var n := 0;
    while n < |todos|
      invariant n <= |todos|
      invariant incomplete == Collect(todos, n, false)
      invariant complete == Collect(todos, n, true)
    {
      var todo := todos[n];
      if todo.completed == true {
        complete := Put(complete, todo, n);
      } else {
        incomplete := Put(incomplete, todo, n);
      }
      n := n + 1;
    }
    r := incomplete + complete;
    JoinBuckets(todos);
  }
}
