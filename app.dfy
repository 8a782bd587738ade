/** The application component: its state (the todo list, the placeholder
    shown while a todo is being created, the error message, the selected
    filter, the new-todo input and the loading flag) and the handlers that
    change it. Each remote call (load, create, delete) is replaced by a
    parameter that gives its outcome. */
module App {
  import opened TodoTypes
  import Text
  import TodosView

  const TitleEmptyError := "Title should not be empty"
  const AddError := "Unable to add todo"
  const DeleteError := "Unable to delete a todo"
  const LoadError := "Unable to load todos"
  const DeleteFailurePrefix := "Unable to delete todo: "
  const ErrorSeparator := ", "

  /** `todos.length > 0 && todos.every(todo => todo.completed)`. */
  function AllCompleted(ts: seq<Todo>): (r: bool)
    ensures ts == [] ==> !r
    ensures r ==> forall t :: t in ts ==> t.completed
  {
    |ts| > 0 && forall t :: t in ts ==> t.completed
  }

  /** The app's flag is the view's "every" test with the empty list taken
      out: they disagree exactly on the empty list. */
  lemma AllCompletedVersusEvery(ts: seq<Todo>)
    ensures AllCompleted(ts) <==> ts != [] && TodosView.HasAllTodosCompleted(ts)
    ensures AllCompleted(ts) != TodosView.HasAllTodosCompleted(ts) <==> ts == []
  {
  }

  /* ---------------- list transforms used by the handlers ---------------- */

  /** Sets the deletion-pending flag of the todos with the given id:
      `prevTodos.map(todo => todo.id === id ? { ...todo, isLoading: flag } : todo)`.
      Only the todos with that id change, and only in that flag. */
  function WithLoading(ts: seq<Todo>, id: int, flag: bool): (r: seq<Todo>)
    ensures |r| == |ts|
    ensures forall i :: 0 <= i < |ts| ==>
      r[i] == if ts[i].id == id then ts[i].(isLoading := flag) else ts[i]
  {
    if ts == [] then []
    else [if ts[0].id == id then ts[0].(isLoading := flag) else ts[0]]
         + WithLoading(ts[1..], id, flag)
  }

  /** A failed delete rolls back: marking a todo as loading and then clearing
      the mark keeps the list's length, ids, titles and flags, and gives back
      the original list when its todos with that id were not loading. */
  lemma DeleteRollback(ts: seq<Todo>, id: int)
    ensures var r := WithLoading(WithLoading(ts, id, true), id, false);
      && |r| == |ts|
      && (forall i :: 0 <= i < |ts| ==> r[i] == ts[i].(isLoading := ts[i].isLoading && ts[i].id != id))
      && ((forall i :: 0 <= i < |ts| && ts[i].id == id ==> !ts[i].isLoading) ==> r == ts)
  {
  }

  /** The todos whose id is not in `ids`, in their order:
      `prevTodos.filter(todo => !ids.has(todo.id))`. */
  function WithoutIds(ts: seq<Todo>, ids: set<int>): (r: seq<Todo>)
    ensures |r| <= |ts|
    ensures forall t :: t in r <==> t in ts && t.id !in ids
  {
    if ts == [] then []
    else if ts[0].id in ids then WithoutIds(ts[1..], ids)
    else [ts[0]] + WithoutIds(ts[1..], ids)
  }

  /** Removing keeps every remaining todo as often as the list holds it, and
      no copy of a removed one. */
  lemma {:induction false} WithoutIdsCounts(ts: seq<Todo>, ids: set<int>)
    ensures forall t :: multiset(WithoutIds(ts, ids))[t] == if t.id in ids then 0 else multiset(ts)[t]
  {
    if ts != [] {
      WithoutIdsCounts(ts[1..], ids);
      assert ts == [ts[0]] + ts[1..];
    }
  }

  /** Removing keeps the order of what remains. */
  lemma {:induction false} WithoutIdsIsSubsequence(ts: seq<Todo>, ids: set<int>)
    ensures IsSubsequence(WithoutIds(ts, ids), ts)
  {
    if ts != [] {
      WithoutIdsIsSubsequence(ts[1..], ids);
      var r, rest := WithoutIds(ts, ids), WithoutIds(ts[1..], ids);
      if ts[0].id !in ids {
        assert r[0] == ts[0] && r[1..] == rest;
      } else if r != [] {
        assert r == rest && r[0] in r;
      }
    }
  }

  /** Removing no ids leaves the list as it is. */
  lemma {:induction false} WithoutNoIds(ts: seq<Todo>)
    ensures WithoutIds(ts, {}) == ts
  {
    if ts != [] {
      WithoutNoIds(ts[1..]);
    }
  }

  /** Removing one set of ids and then another is removing their union. */
  lemma {:induction false} WithoutIdsTwice(ts: seq<Todo>, a: set<int>, b: set<int>)
    ensures WithoutIds(WithoutIds(ts, a), b) == WithoutIds(ts, a + b)
  {
    if ts != [] {
      WithoutIdsTwice(ts[1..], a, b);
    }
  }

  /** The deletion-pending mark does not change which todos a successful
      delete leaves: every todo with the id goes, the others stay in order. */
  lemma {:induction false} DeleteIgnoresLoadingMark(ts: seq<Todo>, id: int, flag: bool)
    ensures WithoutIds(WithLoading(ts, id, flag), {id}) == WithoutIds(ts, {id})
  {
    if ts != [] {
      DeleteIgnoresLoadingMark(ts[1..], id, flag);
      assert WithLoading(ts, id, flag)[1..] == WithLoading(ts[1..], id, flag);
    }
  }

  /** Every todo with its completed flag set to `done`:
      `todos.map(todo => ({ ...todo, completed: done }))`. */
  function WithCompleted(ts: seq<Todo>, done: bool): (r: seq<Todo>)
    ensures |r| == |ts|
    ensures forall i :: 0 <= i < |ts| ==> r[i] == ts[i].(completed := done)
  {
    if ts == [] then [] else [ts[0].(completed := done)] + WithCompleted(ts[1..], done)
  }

  /** What toggle-all does to the list: every todo becomes completed unless
      all of them already are, in which case every todo becomes active. */
  function ToggledAll(ts: seq<Todo>): (r: seq<Todo>)
    ensures |r| == |ts|
    ensures forall i :: 0 <= i < |ts| ==>
      r[i].id == ts[i].id && r[i].title == ts[i].title && r[i].completed == !AllCompleted(ts)
  {
    WithCompleted(ts, !AllCompleted(ts))
  }

  /** On a non-empty list that is not all completed, toggle-all completes
      every todo, and toggling again makes every todo active. */
  lemma ToggleAllTwice(ts: seq<Todo>)
    requires ts != [] && !AllCompleted(ts)
    ensures AllCompleted(ToggledAll(ts))
    ensures ToggledAll(ToggledAll(ts)) == WithCompleted(ts, false)
    ensures forall t :: t in ToggledAll(ToggledAll(ts)) ==> !t.completed
  {
  }

  /** Flips `completed` on the todos with the given id:
      `prevTodos.map(todo => todo.id === id ? { ...todo, completed: !todo.completed } : todo)`. */
  function Toggled(ts: seq<Todo>, id: int): (r: seq<Todo>)
    ensures |r| == |ts|
    ensures forall i :: 0 <= i < |ts| ==>
      r[i] == if ts[i].id == id then ts[i].(completed := !ts[i].completed) else ts[i]
  {
    if ts == [] then []
    else [if ts[0].id == id then ts[0].(completed := !ts[0].completed) else ts[0]]
         + Toggled(ts[1..], id)
  }

  /** Toggling the same todo twice gives back the original list. */
  lemma ToggledTwice(ts: seq<Todo>, id: int)
    ensures Toggled(Toggled(ts, id), id) == ts
  {
  }

  /* ---------------- clear completed, run in snapshot order ---------------- */

  /** The message collected when deleting `t` fails. */
  function DeleteFailure(t: Todo): (m: string)
    ensures |m| > |t.title| && m[|m| - |t.title|..] == t.title
  {
    DeleteFailurePrefix + t.title
  }

  /** The ids removed from the list: those of the snapshot todos whose
      delete succeeded (`outcomes[k]` is the result of deleting `snapshot[k]`). */
  function DeletedIds(snapshot: seq<Todo>, outcomes: seq<bool>): (ids: set<int>)
    requires |snapshot| == |outcomes|
    ensures |ids| <= multiset(outcomes)[true]
    decreases |snapshot|
  {
    if snapshot == [] then {}
    else
      var n := |snapshot| - 1;
      assert outcomes == outcomes[..n] + [outcomes[n]];
      DeletedIds(snapshot[..n], outcomes[..n]) + (if outcomes[n] then {snapshot[n].id} else {})
  }

  /** An id is removed exactly when some snapshot todo with that id was
      deleted successfully. */
  lemma {:induction false} DeletedIdsMembers(snapshot: seq<Todo>, outcomes: seq<bool>)
    requires |snapshot| == |outcomes|
    ensures forall x :: x in DeletedIds(snapshot, outcomes) <==>
      exists k :: 0 <= k < |snapshot| && outcomes[k] && snapshot[k].id == x
    decreases |snapshot|
  {
    if snapshot != [] {
      var n := |snapshot| - 1;
      var s, o := snapshot[..n], outcomes[..n];
      DeletedIdsMembers(s, o);
      forall x ensures x in DeletedIds(snapshot, outcomes) <==>
        exists k :: 0 <= k < |snapshot| && outcomes[k] && snapshot[k].id == x
      {
        if x in DeletedIds(s, o) {
          var k :| 0 <= k < n && o[k] && s[k].id == x;
          assert outcomes[k] && snapshot[k].id == x;
        }
        if exists k :: 0 <= k < |snapshot| && outcomes[k] && snapshot[k].id == x {
          var k :| 0 <= k < |snapshot| && outcomes[k] && snapshot[k].id == x;
          if k < n {
            assert o[k] && s[k].id == x;
          }
        }
      }
    }
  }

  /** The messages collected for the failed deletes, in snapshot order. */
  function FailureMessages(snapshot: seq<Todo>, outcomes: seq<bool>): (ms: seq<string>)
    requires |snapshot| == |outcomes|
    ensures |ms| <= |snapshot|
    decreases |snapshot|
  {
    if snapshot == [] then []
    else
      var n := |snapshot| - 1;
      FailureMessages(snapshot[..n], outcomes[..n])
        + (if outcomes[n] then [] else [DeleteFailure(snapshot[n])])
  }

  /** There is a message for every failed delete and for nothing else, so
      no message is collected exactly when every delete succeeded. */
  lemma {:induction false} FailureMessagesMembers(snapshot: seq<Todo>, outcomes: seq<bool>)
    requires |snapshot| == |outcomes|
    ensures FailureMessages(snapshot, outcomes) == [] <==> forall k :: 0 <= k < |outcomes| ==> outcomes[k]
    ensures forall k :: 0 <= k < |snapshot| && !outcomes[k] ==>
      DeleteFailure(snapshot[k]) in FailureMessages(snapshot, outcomes)
    ensures forall m :: m in FailureMessages(snapshot, outcomes) ==>
      exists k :: 0 <= k < |snapshot| && !outcomes[k] && m == DeleteFailure(snapshot[k])
    decreases |snapshot|
  {
    if snapshot != [] {
      var n := |snapshot| - 1;
      var s, o := snapshot[..n], outcomes[..n];
      FailureMessagesMembers(s, o);
      var before, ms := FailureMessages(s, o), FailureMessages(snapshot, outcomes);
      assert forall k :: 0 <= k < n ==> s[k] == snapshot[k] && o[k] == outcomes[k];
      assert ms == before + (if outcomes[n] then [] else [DeleteFailure(snapshot[n])]);
      forall m | m in ms
        ensures exists k :: 0 <= k < |snapshot| && !outcomes[k] && m == DeleteFailure(snapshot[k])
      {
        if m in before {
          var k :| 0 <= k < n && !o[k] && m == DeleteFailure(s[k]);
          assert !outcomes[k] && m == DeleteFailure(snapshot[k]);
        } else {
          assert !outcomes[n] && m == DeleteFailure(snapshot[n]);
        }
      }
    }
  }

  /** One message is collected per failed delete. */
  lemma {:induction false} FailureMessagesCount(snapshot: seq<Todo>, outcomes: seq<bool>)
    requires |snapshot| == |outcomes|
    ensures |FailureMessages(snapshot, outcomes)| == multiset(outcomes)[false]
    decreases |snapshot|
  {
    if snapshot != [] {
      var n := |snapshot| - 1;
      FailureMessagesCount(snapshot[..n], outcomes[..n]);
      assert outcomes == outcomes[..n] + [outcomes[n]];
    }
  }

  /** One more delete of the snapshot adds its id, if it succeeded, to the
      removed ids. */
  lemma DeletedIdsStep(snapshot: seq<Todo>, outcomes: seq<bool>, i: nat)
    requires |snapshot| == |outcomes| && i < |snapshot|
    ensures DeletedIds(snapshot[..i + 1], outcomes[..i + 1])
      == DeletedIds(snapshot[..i], outcomes[..i]) + (if outcomes[i] then {snapshot[i].id} else {})
  {
    assert snapshot[..i + 1][..i] == snapshot[..i];
    assert outcomes[..i + 1][..i] == outcomes[..i];
  }

  /** One more delete of the snapshot adds its message, if it failed, to the
      end of the collected messages. */
  lemma FailureMessagesStep(snapshot: seq<Todo>, outcomes: seq<bool>, i: nat)
    requires |snapshot| == |outcomes| && i < |snapshot|
    ensures FailureMessages(snapshot[..i + 1], outcomes[..i + 1])
      == FailureMessages(snapshot[..i], outcomes[..i]) + (if outcomes[i] then [] else [DeleteFailure(snapshot[i])])
  {
    assert snapshot[..i + 1][..i] == snapshot[..i];
    assert outcomes[..i + 1][..i] == outcomes[..i];
  }

  /** One more delete of the snapshot, applied to the list and to the
      collected messages, moves both one step along the snapshot. */
  lemma ClearStep(ts: seq<Todo>, snapshot: seq<Todo>, outcomes: seq<bool>, i: nat)
    requires |snapshot| == |outcomes| && i < |snapshot|
    ensures outcomes[i] ==>
      && WithoutIds(WithoutIds(ts, DeletedIds(snapshot[..i], outcomes[..i])), {snapshot[i].id})
         == WithoutIds(ts, DeletedIds(snapshot[..i + 1], outcomes[..i + 1]))
      && FailureMessages(snapshot[..i + 1], outcomes[..i + 1]) == FailureMessages(snapshot[..i], outcomes[..i])
    ensures !outcomes[i] ==>
      && DeletedIds(snapshot[..i + 1], outcomes[..i + 1]) == DeletedIds(snapshot[..i], outcomes[..i])
      && FailureMessages(snapshot[..i + 1], outcomes[..i + 1])
         == FailureMessages(snapshot[..i], outcomes[..i]) + [DeleteFailure(snapshot[i])]
  {
    DeletedIdsStep(snapshot, outcomes, i);
    FailureMessagesStep(snapshot, outcomes, i);
    WithoutIdsTwice(ts, DeletedIds(snapshot[..i], outcomes[..i]), {snapshot[i].id});
  }

  /** The list after clear-completed: the todos whose id no successful
      delete removed. */
  function ClearedTodos(ts: seq<Todo>, outcomes: seq<bool>): (r: seq<Todo>)
    requires |outcomes| == |Filtered(ts, Completed)|
    ensures |r| <= |ts|
    ensures (forall k :: 0 <= k < |outcomes| ==> !outcomes[k]) ==> r == ts
  {
    var ids := DeletedIds(Filtered(ts, Completed), outcomes);
    DeletedIdsMembers(Filtered(ts, Completed), outcomes);
    WithoutNoIds(ts);
    assert (forall k :: 0 <= k < |outcomes| ==> !outcomes[k]) ==> ids == {};
    WithoutIds(ts, ids)
  }

  /** Clear-completed adds nothing, keeps the order, and leaves no todo
      whose id had a successful delete. */
  lemma ClearRemovesSucceeded(ts: seq<Todo>, outcomes: seq<bool>)
    requires |outcomes| == |Filtered(ts, Completed)|
    ensures IsSubsequence(ClearedTodos(ts, outcomes), ts)
    ensures forall k, t :: 0 <= k < |outcomes| && outcomes[k] && t in ClearedTodos(ts, outcomes) ==>
      t.id != Filtered(ts, Completed)[k].id
  {
    var cs := Filtered(ts, Completed);
    WithoutIdsIsSubsequence(ts, DeletedIds(cs, outcomes));
    DeletedIdsMembers(cs, outcomes);
  }

  /** With unique ids, clear-completed never removes an active todo. */
  lemma ClearKeepsActive(ts: seq<Todo>, outcomes: seq<bool>)
    requires UniqueIds(ts)
    requires |outcomes| == |Filtered(ts, Completed)|
    ensures forall t :: t in ts && !t.completed ==> t in ClearedTodos(ts, outcomes)
  {
    var cs := Filtered(ts, Completed);
    var ids := DeletedIds(cs, outcomes);
    DeletedIdsMembers(cs, outcomes);
    forall t | t in ts && !t.completed ensures t.id !in ids {
      if t.id in ids {
        var k :| 0 <= k < |cs| && outcomes[k] && cs[k].id == t.id;
        assert cs[k] in cs;
        SameIdSameTodo(ts, t, cs[k]);
        assert false;
      }
    }
  }

  /** With unique ids, a completed todo is removed exactly when its delete
      succeeded. */
  lemma ClearRemovesExactlySucceeded(ts: seq<Todo>, outcomes: seq<bool>)
    requires UniqueIds(ts)
    requires |outcomes| == |Filtered(ts, Completed)|
    ensures forall k :: 0 <= k < |outcomes| ==>
      (Filtered(ts, Completed)[k] in ClearedTodos(ts, outcomes) <==> !outcomes[k])
  {
    var cs := Filtered(ts, Completed);
    var ids := DeletedIds(cs, outcomes);
    DeletedIdsMembers(cs, outcomes);
    FilteredKeepsUniqueIds(ts, Completed);
    forall k | 0 <= k < |cs|
      ensures cs[k] in ClearedTodos(ts, outcomes) <==> !outcomes[k]
    {
      assert cs[k] in cs;
      if !outcomes[k] {
        // every successful delete of the snapshot is another todo, with another id
        forall j | 0 <= j < |cs| && outcomes[j] ensures cs[j].id != cs[k].id {
          assert j != k;
        }
      }
    }
  }

  /** The error after clear-completed: the failure messages joined with
      ", " when there is at least one, otherwise the error is left as it was. */
  function ClearError(oldError: string, failures: seq<string>): (e: string)
    ensures failures == [] ==> e == oldError
    ensures failures != [] ==> e == Text.Join(failures, ErrorSeparator)
  {
    if failures != [] then Text.Join(failures, ErrorSeparator) else oldError
  }

  /** A failed delete always produces a visible (non-empty) error that
      starts with the message of the first failure. */
  lemma ClearErrorShown(oldError: string, snapshot: seq<Todo>, outcomes: seq<bool>)
    requires |snapshot| == |outcomes|
    requires exists k :: 0 <= k < |outcomes| && !outcomes[k]
    ensures var ms := FailureMessages(snapshot, outcomes);
      ms != [] && ClearError(oldError, ms) != [] &&
      ClearError(oldError, ms)[..|ms[0]|] == ms[0]
  {
  }

  /** Each further failed delete extends a non-empty error at its end with
      the separator and that todo's message, as `errors.push` followed by
      `join` does. */
  lemma ClearErrorStep(oldError: string, snapshot: seq<Todo>, outcomes: seq<bool>, i: nat)
    requires |snapshot| == |outcomes| && i < |snapshot| && !outcomes[i]
    requires FailureMessages(snapshot[..i], outcomes[..i]) != []
    ensures ClearError(oldError, FailureMessages(snapshot[..i + 1], outcomes[..i + 1]))
      == ClearError(oldError, FailureMessages(snapshot[..i], outcomes[..i])) + ErrorSeparator + DeleteFailure(snapshot[i])
  {
    FailureMessagesStep(snapshot, outcomes, i);
    Text.JoinSnoc(FailureMessages(snapshot[..i], outcomes[..i]), DeleteFailure(snapshot[i]), ErrorSeparator);
  }

  /** An example: A and B completed, C active; deleting A succeeds and
      deleting B fails. The list becomes [B, C]. */
  lemma ClearCompletedExample(a: Todo, b: Todo, c: Todo)
    requires a.completed && b.completed && !c.completed
    requires a.id != b.id && a.id != c.id && b.id != c.id
    ensures Filtered([a, b, c], Completed) == [a, b]
    ensures ClearedTodos([a, b, c], [true, false]) == [b, c]
  {
    assert [a, b, c][1..] == [b, c] && [b, c][1..] == [c] && [c][1..] == [];
    assert Filtered([c], Completed) == [];
    assert Filtered([b, c], Completed) == [b];
    ExampleDeletedIds(a, b);
    assert WithoutIds([c], {a.id}) == [c];
    assert WithoutIds([b, c], {a.id}) == [b, c];
    assert WithoutIds([a, b, c], {a.id}) == [b, c];
  }

  /** In the example only A's id is removed. */
  lemma ExampleDeletedIds(a: Todo, b: Todo)
    ensures DeletedIds([a, b], [true, false]) == {a.id}
  {
    assert [a, b][..1] == [a] && [true, false][..1] == [true];
    assert [a][..0] == [] && [true][..0] == [];
  }

  /** The same example: the error names B only. */
  lemma ClearCompletedExampleError(a: Todo, b: Todo)
    ensures FailureMessages([a, b], [true, false]) == [DeleteFailurePrefix + b.title]
  {
    assert [a, b][..1] == [a] && [true, false][..1] == [true];
    assert [a][..0] == [] && [true][..0] == [];
    assert FailureMessages([a], [true]) == [];
  }

  /** The placeholder shown while a todo is being created: id 0, the user,
      not completed, not being deleted, and a trimmed non-empty title. Such a
      title is never blank, so it is one add accepts. */
  predicate IsPlaceholder(t: Todo, userId: int): (r: bool)
    ensures r ==> !Text.AllWhitespace(t.title)
  {
    Text.TrimEmptyIff(t.title);
    && t.id == 0 && t.userId == userId
    && !t.completed && !t.isLoading
    && t.title != [] && Text.Trim(t.title) == t.title
  }

  /** The per-todo part of clear-completed, run one delete after the other
      in snapshot order: a success removes the todos with that id from the
      list, a failure collects its message. */
  method DeleteEach(ts: seq<Todo>, completedTodos: seq<Todo>, outcomes: seq<bool>)
    returns (remaining: seq<Todo>, errors: seq<string>)
    requires |outcomes| == |completedTodos|
    ensures remaining == WithoutIds(ts, DeletedIds(completedTodos, outcomes))
    ensures errors == FailureMessages(completedTodos, outcomes)
  {
    remaining, errors := ts, [];
    WithoutNoIds(ts);
    var i := 0;
    while i < |completedTodos|
      invariant 0 <= i <= |completedTodos|
      invariant remaining == WithoutIds(ts, DeletedIds(completedTodos[..i], outcomes[..i]))
      invariant errors == FailureMessages(completedTodos[..i], outcomes[..i])
    {
      var todo := completedTodos[i];
      ClearStep(ts, completedTodos, outcomes, i);
      if outcomes[i] {
        remaining := WithoutIds(remaining, {todo.id});
      } else {
        errors := errors + [DeleteFailure(todo)];
      }
      i := i + 1;
    }
    assert completedTodos[..i] == completedTodos && outcomes[..i] == outcomes;
  }

  /* ---------------- the component state and its handlers ---------------- */

  class TodoApp {
    const userId: int
    var todos: seq<Todo>
    var tempTodo: Option<Todo>
    var error: string
    var filterOption: Filter
    var newTodoTitle: string
    var isLoading: bool

    /** A pending placeholder always has the shape add gives it: id 0 and a
        title that is not blank. */
    ghost predicate Valid(): (r: bool)
      reads this
      ensures r ==> tempTodo.None? || (tempTodo.value.id == 0 && !Text.AllWhitespace(tempTodo.value.title))
    {
      tempTodo.Some? ==> IsPlaceholder(tempTodo.value, userId)
    }

    /** The initial state: no todos, no placeholder, no error, All, an empty
        input and not loading. */
    constructor (userId: int)
      ensures Valid() && this.userId == userId
      ensures todos == [] && tempTodo == None && error == []
      ensures filterOption == All && newTodoTitle == [] && !isLoading
    {
      this.userId := userId;
      todos := [];
      tempTodo := None;
      error := [];
      filterOption := All;
      newTodoTitle := [];
      isLoading := false;
    }

    /** The list the component renders: the todos that match the selected
        filter, in list order; under All, the whole list. */
    function FilteredTodos(): (r: seq<Todo>)
      reads this
      ensures IsSubsequence(r, todos)
      ensures forall t :: t in r <==> t in todos && Matches(filterOption, t)
      ensures filterOption == All ==> r == todos
    {
      FilteredIsSubsequence(todos, filterOption);
      FilteredAllIsIdentity(todos);
      Filtered(todos, filterOption)
    }

    /** Typing into the new-todo field. */
    method SetNewTodoTitle(title: string)
      requires Valid()
      modifies this
      ensures Valid() && newTodoTitle == title
      ensures todos == old(todos) && tempTodo == old(tempTodo) && error == old(error)
      ensures filterOption == old(filterOption) && isLoading == old(isLoading)
    {
      newTodoTitle := title;
    }

    /** Choosing a filter in the footer. */
    method SetFilterOption(f: Filter)
      requires Valid()
      modifies this
      ensures Valid() && filterOption == f
      ensures todos == old(todos) && tempTodo == old(tempTodo) && error == old(error)
      ensures newTodoTitle == old(newTodoTitle) && isLoading == old(isLoading)
    {
      filterOption := f;
    }

    /** Closing the error notification. */
    method DismissError()
      requires Valid()
      modifies this
      ensures Valid() && error == []
      ensures todos == old(todos) && tempTodo == old(tempTodo) && filterOption == old(filterOption)
      ensures newTodoTitle == old(newTodoTitle) && isLoading == old(isLoading)
    {
      error := [];
    }

    /** The initial load, up to the remote call: the app is loading. */
    method StartLoad()
      requires Valid()
      modifies this
      ensures Valid() && isLoading
      ensures todos == old(todos) && tempTodo == old(tempTodo) && error == old(error)
      ensures filterOption == old(filterOption) && newTodoTitle == old(newTodoTitle)
    {
      isLoading := true;
    }

    /** The initial load after the remote call: the fetched list replaces the
        todos, or a failure sets the load error; loading ends either way. */
    method FinishLoad(response: Option<seq<Todo>>)
      requires Valid()
      modifies this
      ensures Valid() && !isLoading
      ensures todos == (if response.Some? then response.value else old(todos))
      ensures error == (if response.Some? then old(error) else LoadError)
      ensures tempTodo == old(tempTodo) && filterOption == old(filterOption)
      ensures newTodoTitle == old(newTodoTitle)
    {
      if response.Some? {
        todos := response.value;
      } else {
        error := LoadError;
      }
      isLoading := false;
    }

    /** The whole initial load with the given remote outcome. */
    method LoadTodos(response: Option<seq<Todo>>)
      requires Valid()
      modifies this
      ensures Valid() && !isLoading
      ensures todos == (if response.Some? then response.value else old(todos))
      ensures error == (if response.Some? then old(error) else LoadError)
      ensures tempTodo == old(tempTodo) && filterOption == old(filterOption)
      ensures newTodoTitle == old(newTodoTitle)
    {
      StartLoad();
      FinishLoad(response);
    }

    /** Submitting the new-todo form, up to the remote call. A title that
        trims to nothing only sets the validation error and makes no call
        (`request` is None). Otherwise the trimmed title is sent (`request`
        holds it), the app is loading and the placeholder with id 0, the
        trimmed title and `completed` false is shown. */
    method StartAddTodo() returns (request: Option<string>)
      requires Valid()
      modifies this
      ensures Valid()
      ensures request.None? <==> Text.AllWhitespace(old(newTodoTitle))
      ensures request.None? ==>
        && error == TitleEmptyError && tempTodo == old(tempTodo) && isLoading == old(isLoading)
      ensures request.Some? ==>
        && request.value == Text.Trim(old(newTodoTitle)) && request.value != []
        && tempTodo == Some(Todo(0, userId, request.value, false, false))
        && isLoading && error == old(error)
      ensures todos == old(todos) && newTodoTitle == old(newTodoTitle)
      ensures filterOption == old(filterOption)
    {
      var trimmedTitle := Text.Trim(newTodoTitle);
      Text.TrimEmptyIff(newTodoTitle);
      if trimmedTitle == [] {
        error := TitleEmptyError;
        request := None;
        return;
      }
      Text.TrimIdempotent(newTodoTitle);
      isLoading := true;
      tempTodo := Some(Todo(0, userId, trimmedTitle, false, false));
      request := Some(trimmedTitle);
    }

    /** Submitting the new-todo form after the remote call. The todo the
        server returned is appended and the input cleared, or a failure
        sets the add error and keeps the input; either way the placeholder
        goes away and loading ends. */
    method FinishAddTodo(response: Option<Todo>)
      requires Valid()
      modifies this
      ensures Valid() && tempTodo == None && !isLoading
      ensures response.Some? ==>
        && todos == old(todos) + [response.value]
        && newTodoTitle == [] && error == old(error)
      ensures response.None? ==>
        && todos == old(todos) && newTodoTitle == old(newTodoTitle) && error == AddError
      ensures filterOption == old(filterOption)
    {
      if response.Some? {
        todos := todos + [response.value];
        newTodoTitle := [];
      } else {
        error := AddError;
      }
      tempTodo := None;
      isLoading := false;
    }

    /** The whole add handler with the given remote outcome. */
    method HandleAddTodo(response: Option<Todo>) returns (request: Option<string>)
      requires Valid()
      modifies this
      ensures Valid()
      ensures request.None? <==> Text.AllWhitespace(old(newTodoTitle))
      ensures request.None? ==>
        && error == TitleEmptyError && todos == old(todos) && tempTodo == old(tempTodo)
        && newTodoTitle == old(newTodoTitle) && isLoading == old(isLoading)
      ensures request.Some? ==>
        && request.value == Text.Trim(old(newTodoTitle))
        && tempTodo == None && !isLoading
      ensures request.Some? && response.Some? ==>
        && todos == old(todos) + [response.value]
        && newTodoTitle == [] && error == old(error)
      ensures request.Some? && response.None? ==>
        && todos == old(todos) && newTodoTitle == old(newTodoTitle) && error == AddError
      ensures filterOption == old(filterOption)
    {
      request := StartAddTodo();
      if request.Some? {
        FinishAddTodo(response);
      }
    }

    /** Deleting a todo, up to the remote call: the todos with that id are
        marked as loading. */
    method StartDelete(id: int)
      requires Valid()
      modifies this
      ensures Valid() && todos == WithLoading(old(todos), id, true)
      ensures tempTodo == old(tempTodo) && error == old(error) && filterOption == old(filterOption)
      ensures newTodoTitle == old(newTodoTitle) && isLoading == old(isLoading)
    {
      todos := WithLoading(todos, id, true);
    }

    /** Deleting a todo after the remote call: on success every todo with
        that id is removed; on failure their loading mark is cleared and
        the delete error is set. */
    method FinishDelete(id: int, deleted: bool)
      requires Valid()
      modifies this
      ensures Valid()
      ensures todos == if deleted then WithoutIds(old(todos), {id}) else WithLoading(old(todos), id, false)
      ensures error == if deleted then old(error) else DeleteError
      ensures tempTodo == old(tempTodo) && filterOption == old(filterOption)
      ensures newTodoTitle == old(newTodoTitle) && isLoading == old(isLoading)
    {
      if deleted {
        todos := WithoutIds(todos, {id});
      } else {
        todos := WithLoading(todos, id, false);
        error := DeleteError;
      }
    }

    /** The whole delete handler with the given remote outcome. */
    method HandleDelete(id: int, deleted: bool)
      requires Valid()
      modifies this
      ensures Valid()
      ensures deleted ==> todos == WithoutIds(old(todos), {id}) && error == old(error)
      ensures !deleted ==>
        && todos == WithLoading(WithLoading(old(todos), id, true), id, false)
        && error == DeleteError
      ensures tempTodo == old(tempTodo) && filterOption == old(filterOption)
      ensures newTodoTitle == old(newTodoTitle) && isLoading == old(isLoading)
    {
      StartDelete(id);
      FinishDelete(id, deleted);
      if deleted {
        DeleteIgnoresLoadingMark(old(todos), id, true);
      }
    }

    /** Clear completed: every completed todo of the current list is
        deleted, one after the other in list order (`outcomes[k]` tells
        whether deleting the k-th of them succeeds). A success removes the
        todos with its id; a failure collects its message. When anything
        failed, the error becomes the messages joined with ", ". */
    method HandleClearCompleted(outcomes: seq<bool>)
      requires Valid()
      requires |outcomes| == |Filtered(todos, Completed)|
      modifies this
      ensures Valid()
      ensures todos == ClearedTodos(old(todos), outcomes)
      ensures error == ClearError(old(error), FailureMessages(Filtered(old(todos), Completed), outcomes))
      ensures tempTodo == old(tempTodo) && filterOption == old(filterOption)
      ensures newTodoTitle == old(newTodoTitle) && isLoading == old(isLoading)
    {
      var completedTodos := Filtered(todos, Completed);
      var remaining, errors := DeleteEach(todos, completedTodos, outcomes);
      todos := remaining;
      if |errors| > 0 {
        error := Text.Join(errors, ErrorSeparator);
      }
    }

    /** Toggle-all: every todo gets `completed` set to the negation of
        "all completed" as it was before. */
    method ToggleAll()
      requires Valid()
      modifies this
      ensures Valid() && todos == ToggledAll(old(todos))
      ensures tempTodo == old(tempTodo) && error == old(error) && filterOption == old(filterOption)
      ensures newTodoTitle == old(newTodoTitle) && isLoading == old(isLoading)
    {
      var shouldCompleteAll := !AllCompleted(todos);
      todos := WithCompleted(todos, shouldCompleteAll);
    }

    /** Toggle-one: flips `completed` on the todos with the given id. */
    method ToggleTodoCompletion(id: int)
      requires Valid()
      modifies this
      ensures Valid() && todos == Toggled(old(todos), id)
      ensures tempTodo == old(tempTodo) && error == old(error) && filterOption == old(filterOption)
      ensures newTodoTitle == old(newTodoTitle) && isLoading == old(isLoading)
    {
      todos := Toggled(todos, id);
    }
  }
}
