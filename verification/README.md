# Session-backed todo manager, modelled in Dafny

This project models the request-handling core of a small Sinatra todo
application (`todo.rb`). A session holds an ordered sequence of lists. Each
list has a name and an ordered sequence of todos, and each todo has a name
and a `completed` flag. Lists and todos are addressed by their position.

What remains once HTTP, sessions and templates are removed is pure sequence
manipulation, and that is what the model covers:

- **Completion** (`completion.dfy`): `todos_count`, `todos_remaining_count`
  and `list_completed?`. A list is completed when it has todos and none of
  them is open.
- **Strip** (`ruby_string.dfy`): Ruby's `String#strip`, which the routes
  apply to submitted names.
- **Validators** (`validation.dfy`): `error_for_list_name` checks the length
  first, then exact case-sensitive uniqueness. `error_for_todo` checks the
  length only.
- **Display order** (`sorting.dfy`, with `ordered_hash.dfy` for Ruby's
  insertion-ordered `Hash`). `sort_lists` partitions the lists and pairs each
  with `lists.index(list)`, the first equal position. `sort_todos` collects
  todos into two hashes keyed by the todo itself. Equal todos therefore
  collapse into one entry, which keeps its first insertion slot but carries
  the index of the last occurrence.
- **Routes** (`routes.dfy`): the state effect of each `post` handler is a
  function from the list sequence to a `Reply`. The reply holds the new list
  sequence and an `Outcome`: either the flash message set before the
  redirect, or the validation error shown on the re-rendered form.
- **Session invariant** (`session_invariant.dfy`): list names are distinct,
  and every name is 1 to 100 characters long. The file proves which routes
  keep this invariant, and records the one that does not.
- **Scenarios** (`scenarios.dfy`): two request sequences replayed on the
  model.

Two quirks of the source are reproduced as written:

- List creation validates the stripped name but stores the parameter as
  submitted.
- Renaming checks uniqueness against every list, including the one being
  renamed. Submitting a list's current name is therefore rejected as a
  duplicate.

The delete-todo route sets the same flash message as delete-list ("The list
has been deleted."). The model keeps that too: both routes return the
`ListDeleted` tag.

Positions are `nat`. The routes that dereference the addressed list crash in
the source when the position does not exist, so those routes require it.
The same holds for the todo in the toggle route. Ruby's `delete_at` ignores a
position past the end, so `DeleteList` accepts any list position and
`DeleteTodo` accepts any todo position. Both leave the sequence unchanged in
that case.

## Model

| member | source | states |
|---|---|---|
| TodoModel.FirstIndex | todo.rb:34-35 | `Array#index`: the result holds the value, and no earlier position does |
| TodoModel.DeleteAt | todo.rb:137 | `delete_at`: removes the element at `i` and shifts later elements down by one; a position past the end changes nothing |
| Completion.CountIncomplete | todo.rb:26-28 | the count of open todos is at most the length; it is 0 iff every todo is completed, and equals the length iff none is |
| Completion.TodosRemainingCount | todo.rb:26-28 | the remaining count is at most `todos_count`, and is 0 iff every todo of the list is completed |
| Completion.ListCompletedIff | todo.rb:14-16 | a list is completed iff it has at least one todo and every todo is completed; an empty list is never completed |
| Completion.CountIncompleteAppend | todo.rb:26-28 | the open counts of two concatenated todo sequences add up |
| RubyString.Strip | todo.rb:92 | the result is the slice of the input after its leading whitespace, followed only by whitespace; it neither starts nor ends with whitespace; it is empty iff the input is all whitespace |
| RubyString.StripIdempotent | todo.rb:92 | stripping twice gives the same result as stripping once |
| Validation.NameTaken | todo.rb:78 | `any?` over the lists is true iff some list has exactly that name |
| Validation.ErrorForListName | todo.rb:75-81 | a length outside 1..100 gives the length error, even for a duplicate name; otherwise the uniqueness error is given iff some list has exactly that name; otherwise no error |
| Validation.ErrorForTodo | todo.rb:84-88 | the only possible error is the length error, and it is given iff the length is outside 1..100 |
| Validation.LengthBounds | todo.rb:76-86 | the bounds are inclusive: lengths 1 and 100 pass the length checks, and lengths 0 and 101 fail them |
| OrderedHash.Put | todo.rb:44-46 | `h[k] = v`: a present key keeps its slot and gets the new value; a new key is appended at the end; other entries are unchanged; distinct keys stay distinct |
| Sorting.Select | todo.rb:32 | each half of `partition` holds only lists of its completion state, all taken from the input |
| Sorting.SelectPartition | todo.rb:32 | together the two halves of the partition hold every list exactly once (as a multiset) |
| Sorting.SelectAppend | todo.rb:32 | partitioning a concatenation gives the concatenated partitions |
| Sorting.SortLists | todo.rb:31-36 | every list is yielded exactly once; open lists come before completed ones; each group keeps its stored relative order; each yielded index is the first position holding an equal list |
| Sorting.CollectValuesLast | todo.rb:42-48 | after the loop, no position after an entry's index holds that entry's todo, so the index is the last occurrence |
| Sorting.CollectFirstOrder | todo.rb:42-48 | the hash keys come in the order their todos first occur |
| Sorting.CollectKeysCover | todo.rb:42-48 | every visited todo with the hash's completion state is a key of that hash |
| Sorting.BucketsValuesLast | todo.rb:42-51 | in the open-todo hash followed by the completed-todo hash, every entry's index holds its todo and no later position does |
| Sorting.BucketsKeys | todo.rb:42-51 | the two hashes together hold every todo as a key, and no todo twice |
| Sorting.BucketsOrder | todo.rb:42-51 | the open-todo hash comes before the completed-todo hash, and within each the todos come in first-occurrence order |
| Sorting.SortTodos | todo.rb:38-52 | each yielded pair `(t, i)` has `todos[i] == t`, and `i` is the last occurrence of `t`; every todo is yielded, and equal todos only once; open todos come first; within a group, todos come in first-occurrence order |
| Routes.CreateList | todo.rb:91-102 | succeeds iff the stripped name has length 1..100 and no list has exactly that name; on success exactly one list is appended, holding the raw parameter and no todos, and earlier lists are unchanged; on error nothing changes |
| Routes.RenameList | todo.rb:119-132 | succeeds iff the stripped name has length 1..100 and no list, the renamed one included, has that name; on success only list `i`'s name changes, to the stripped name, and its todos stay; on error nothing changes, and the error is the length error iff the stripped length is outside 1..100, otherwise the uniqueness error |
| Routes.RenameToOwnNameRejected | todo.rb:122-126 | renaming a list to its own current name changes nothing and is rejected, as a duplicate when the length is valid |
| Routes.DeleteList | todo.rb:135-140 | removes exactly list `i`, and later lists move down by one; a position past the end changes nothing |
| Routes.AddTodo | todo.rb:143-157 | succeeds iff the stripped text has length 1..100; on success an open todo with the stripped text is appended to list `i` only, so its remaining count rises by one and it is no longer completed; on error nothing changes |
| Routes.DeleteTodo | todo.rb:160-167 | removes exactly todo `j` of list `i`, and later todos move down by one; all else is unchanged; a position past the end changes nothing |
| Routes.ToggleTodo | todo.rb:170-180 | only todo `j` of list `i` changes: it is completed iff the flag is the string "true", and its name stays |
| Routes.CompleteAll | todo.rb:183-193 | every todo of list `i` becomes completed and keeps its name; nothing else changes; the list is then completed iff it has todos |
| SessionInvariant.EmptySessionWellFormed | todo.rb:55-57 | the empty session a visit starts with satisfies the invariant |
| SessionInvariant.CreateListAdmitsDuplicateNames | todo.rb:92-98 | as written, submitting twice to an empty session any name that strip changes and that strips to 1..100 characters (such as " a") creates two lists with that same unstripped name, which breaks the invariant |
| SessionInvariant.BlankPaddedNameStrips | todo.rb:92 | " a" strips to "a", so it is an input of the previous row |
| SessionInvariant.CreateListAdmitsOverlongNames | todo.rb:92-98 | as written, a 100-character name followed by a space is accepted and stored as 101 characters |
| SessionInvariant.CreateListKeepsWellFormedWhenStripped | todo.rb:91-102 | the route as written keeps the invariant whenever the submitted name has no surrounding whitespace |
| SessionInvariant.CreateStrippedList | todo.rb:91-102 | creation that stores the validated stripped name: it succeeds under the same condition, and appends exactly one list with that name |
| SessionInvariant.CreateStrippedListKeepsWellFormed | todo.rb:91-102 | creation that stores the stripped name keeps the invariant |
| SessionInvariant.RenameListKeepsWellFormed | todo.rb:119-132 | rename keeps the invariant |
| SessionInvariant.DeleteListKeepsWellFormed | todo.rb:135-140 | delete list keeps the invariant |
| SessionInvariant.AddTodoKeepsWellFormed | todo.rb:143-157 | add todo keeps the invariant |
| SessionInvariant.DeleteTodoKeepsWellFormed | todo.rb:160-167 | delete todo keeps the invariant |
| SessionInvariant.ToggleTodoKeepsWellFormed | todo.rb:170-180 | toggle keeps the invariant |
| SessionInvariant.CompleteAllKeepsWellFormed | todo.rb:183-193 | complete-all keeps the invariant |
| Scenarios.GroceriesScenario | todo.rb:143-180 | creating "Groceries", adding "Milk" and toggling it to "true" gives a list with one todo, none remaining, that counts as completed |
| Scenarios.CompletedListShownAfterOpenList | todo.rb:31-36 | a completed list stored before an open list is displayed after it, each with its own position |
| Scenarios.CompleteAllScenario | todo.rb:183-193 | complete-all turns the todos [A open, B done] into [A done, B done] |

## Left out

- Sinatra routing, `configure`, the `before` filter, the session cookie, `redirect` and ERB rendering (todo.rb:1-11, 55-72 and the `get` handlers). These are framework I/O. The route functions take the session's lists as a parameter and return the new lists instead.
- `list_class` (todo.rb:18-20): a view helper that maps `list_completed?` to a CSS class name.
- `params[...].to_i` parsing and Ruby's negative array indices. Positions are `nat`.
- The crash when a route dereferences a missing list or todo. Those routes require the position to exist instead of modelling the failure.
- The exact flash and error texts. They are tags (`Flash`, `ValidationError`). `session[:error]` and `session[:success]` are carried in the `Outcome` rather than stored.
- Character counting: `size` is the length of a Dafny `string`. Dafny characters are Unicode scalar values, so this matches Ruby's character count for valid UTF-8 input.
- RubyString.Strip: whitespace is NUL, tab, line feed, vertical tab, form feed, carriage return and space, removed at both ends. Older Ruby versions did not strip a leading NUL.
- Completion.TodosCount has no contract of its own: it is the length of the todo sequence.
- Completion.ListCompleted (`list_completed?`, todo.rb:14-16) has no contract of its own: its meaning is stated by Completion.ListCompletedIff.
- Sorting.Collect (the `each_with_index` loop with `[]=`, todo.rb:42-48) has no contract of its own: it is the fold the loop of Sorting.SortTodos is proved equal to, and its properties are stated by the Sorting.Collect* lemmas.
- Sorting.SortTodos and Sorting.SortLists return the yielded pairs as a sequence. They do not model calling a block.
- `public/javascrips/application.js`: a browser-side confirmation dialog, UI only.

## Findings

| source | as written | input that shows it | evidently intended | confidence | as-written member | corrected member |
|---|---|---|---|---|---|---|
| todo.rb:92-98 | create validates `params[:list_name].strip` but appends `params[:list_name]` unstripped | empty session, create " a" twice: both pass validation and two lists named " a" are stored; a 100-letter name plus a trailing space is stored with 101 characters | store the validated, stripped name, as rename does at todo.rb:128, so names stay unique and 1 to 100 characters long | medium, not executed | SessionInvariant.CreateListAdmitsDuplicateNames (on Routes.CreateList) | SessionInvariant.CreateStrippedList, proved by SessionInvariant.CreateStrippedListKeepsWellFormed |
