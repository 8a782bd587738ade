/** The values the list view derives from the `todos` it is given: the
    flags the header and footer show, the "items left" list and the filtered
    list it renders. */
module TodosView {
  import opened TodoTypes

  /** `todos.every(todo => todo.completed)`: true of the empty list. */
  function HasAllTodosCompleted(ts: seq<Todo>): (r: bool)
    ensures r <==> forall i :: 0 <= i < |ts| ==> ts[i].completed
  {
    ts == [] || (ts[0].completed && HasAllTodosCompleted(ts[1..]))
  }

  /** `todos.some(todo => todo.completed)`: false of the empty list. */
  function HasCompletedTodos(ts: seq<Todo>): (r: bool)
    ensures r <==> exists i :: 0 <= i < |ts| && ts[i].completed
  {
    ts != [] && (ts[0].completed || HasCompletedTodos(ts[1..]))
  }

  /** `todos.filter(todo => !todo.completed)`: the open todos. */
  function NotCompletedTodos(ts: seq<Todo>): (r: seq<Todo>)
    ensures |r| <= |ts|
    ensures forall t :: t in r <==> t in ts && !t.completed
  {
    if ts == [] then []
    else if ts[0].completed then NotCompletedTodos(ts[1..])
    else [ts[0]] + NotCompletedTodos(ts[1..])
  }

  /** The "items left" counter of the footer. */
  function ItemsLeft(ts: seq<Todo>): (n: nat)
    ensures n <= |ts|
    ensures n == 0 <==> HasAllTodosCompleted(ts)
  {
    var r := NotCompletedTodos(ts);
    assert r != [] ==> r[0] in r;
    |r|
  }

  /** The footer is rendered only for a non-empty list, so exactly when it
      has something to count (items left) or to clear (completed todos). */
  function ShowsFooter(ts: seq<Todo>): (r: bool)
    ensures r <==> exists t :: t in ts
    ensures r <==> ItemsLeft(ts) > 0 || HasCompletedTodos(ts)
  {
    assert ts != [] ==> ts[0] in ts;
    |ts| > 0
  }

  /** The filtered list under Active is exactly the "items left" list, in
      the same order. */
  lemma {:induction false} ActiveIsNotCompleted(ts: seq<Todo>)
    ensures Filtered(ts, Active) == NotCompletedTodos(ts)
  {
    if ts != [] {
      ActiveIsNotCompleted(ts[1..]);
    }
  }

  /** "Items left" and the Completed list account for every todo, so the
      counter is the list's length minus the completed todos. */
  lemma ItemsLeftCount(ts: seq<Todo>)
    ensures ItemsLeft(ts) + |Filtered(ts, Completed)| == |ts|
  {
  }

  /** The Clear completed button is enabled exactly when the Completed
      filter would show something. */
  lemma HasCompletedIffCompletedShown(ts: seq<Todo>)
    ensures HasCompletedTodos(ts) <==> Filtered(ts, Completed) != []
  {
  }

  /** On a non-empty list "all completed" implies "some completed"; on the
      empty list "all completed" holds and "some completed" does not. */
  lemma AllCompletedImpliesSome(ts: seq<Todo>)
    ensures HasAllTodosCompleted(ts) && ts != [] ==> HasCompletedTodos(ts)
    ensures HasAllTodosCompleted([]) && !HasCompletedTodos([])
  {
  }
}
