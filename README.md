# To-do list state model

A Dafny model of the state logic of a single-user to-do list web client.
The client loads the user's todos from a remote service. It shows them
through an All / Active / Completed filter. It lets the user add a todo,
toggle one or all todos, delete a todo and clear every completed todo.
Adding, deleting, clearing completed todos and loading go through the
service, and the local state is then reconciled with the outcome; add and
delete also change the local state before the call (the placeholder, the
deletion mark). Toggling one or all todos changes only the local list.

The model has four modules:

- `Text` (`text.dfy`) holds the two JavaScript runtime operations the
  handlers use. These are `String.prototype.trim`, with the ECMAScript
  whitespace and line-terminator set, and `Array.prototype.join`.
- `TodoTypes` (`todo_types.dfy`) holds the todo record, the filter values
  and the filter projection `Filtered`. Both components use that same
  filter expression. It also holds the order-preserving subsequence relation
  and the unique-ids property.
- `TodosView` (`todos_view.dfy`) holds the pure values the list component
  derives from its `todos` prop. These are "all completed", "some
  completed", the open todos, the "items left" count and whether the footer
  is shown.
- `App` (`app.dfy`) holds the application component.
  - The class `TodoApp` has the component's state fields: `todos`,
    `tempTodo`, `error`, `filterOption`, `newTodoTitle` and `isLoading`.
    Its handlers are methods that state the whole new state.
  - The list transforms the handlers apply (`map` and `filter` over the
    list) are functions.
  - Lemmas prove the properties the application relies on.

Each remote call becomes a parameter that gives its outcome:

- load: `Option<seq<Todo>>`;
- create: `Option<Todo>`, the todo the service returned or `None` for a
  failure;
- delete: `bool`;
- clear-completed: `seq<bool>`, one outcome per completed todo, in list
  order.

The add, delete and load handlers are split at their `await`. A `Start…`
method models the part before the remote call, and so the state shown
while the call is pending. A `Finish…` method models the part after it.
`HandleAddTodo`, `HandleDelete` and `LoadTodos` run both parts.
Clear-completed is modelled as one step: `HandleClearCompleted` runs every
delete of the completed snapshot in list order and then sets the error.

Three things the code does are easy to misread:

- A successful add does not replace the placeholder with the returned
  todo. The code appends the returned todo to `todos` and clears the
  separate `tempTodo` field.
- A failed delete does not restore the todo's earlier state. The code sets
  its `isLoading` flag to `false`. `DeleteRollback` shows that this gives
  back the original list exactly when the todo was not already marked.
- Delete and clear-completed remove every todo carrying the id, not just
  one todo.

## Model

| member | source | states |
|---|---|---|
| `Text.Trim` | src/App.tsx:38 | the trimmed title is the slice of the input that starts at its first non-whitespace character; everything outside the slice is whitespace and the slice neither starts nor ends with whitespace |
| `Text.TrimEmptyIff` | src/App.tsx:38-40 | the trimmed title is empty exactly when the input is empty or whitespace only, which is the case add rejects |
| `Text.TrimIdempotent` | src/App.tsx:38 | trimming an already trimmed title changes nothing, so the placeholder's title is a trimmed title |
| `Text.Join` | src/App.tsx:104 | `join` of no parts is empty; the result starts with the first part; it is empty exactly when every part is empty and the separator cannot appear between parts |
| `Text.JoinSnoc` | src/App.tsx:104 | joining one more part appends the separator and that part at the end |
| `TodoTypes.Matches` | src/App.tsx:116-123 | All accepts every todo; Active accepts exactly the todos with `completed` false and Completed exactly those with `completed` true |
| `TodoTypes.Filtered` | src/components/Todos.tsx:37-46 | the filtered list holds exactly the todos of the list that the filter accepts: Active never yields a completed todo, Completed never yields an active one |
| `TodoTypes.FilteredIsSubsequence` | src/components/Todos.tsx:37-46 | every filter result is an order-preserving subsequence of the list |
| `TodoTypes.FilteredAllIsIdentity` | src/components/Todos.tsx:43-44 | the All filter returns the list unchanged |
| `TodoTypes.ActiveCompletedSplit` | src/components/Todos.tsx:37-46 | Active and Completed split the list: their multisets add up to the list's, so every todo is kept exactly as often as the list holds it |
| `TodoTypes.ActiveCompletedPartition` | src/components/Todos.tsx:37-46 | Active and Completed partition the list: their lengths add up to its length and no todo is in both |
| `TodoTypes.FilteredKeepsUniqueIds` | src/App.tsx:89 | the completed snapshot of a list with unique ids has unique ids |
| `TodosView.HasAllTodosCompleted` | src/components/Todos.tsx:33 | true exactly when every todo is completed, hence true of the empty list |
| `TodosView.HasCompletedTodos` | src/components/Todos.tsx:34 | true exactly when some todo is completed |
| `TodosView.NotCompletedTodos` | src/components/Todos.tsx:35 | holds exactly the todos with `completed` false |
| `TodosView.ItemsLeft` | src/components/Footer.tsx:30 | the "items left" count is at most the list's length and is zero exactly when every todo is completed |
| `TodosView.ShowsFooter` | src/components/Todos.tsx:70 | the footer is shown exactly when the list has a todo, which is exactly when there are items left or completed todos to clear |
| `TodosView.ActiveIsNotCompleted` | src/components/Todos.tsx:35-46 | the Active filter result equals the open-todos list, in the same order |
| `TodosView.ItemsLeftCount` | src/components/Todos.tsx:35-46 | "items left" plus the number of completed todos is the list's length |
| `TodosView.HasCompletedIffCompletedShown` | src/components/Todos.tsx:34-46 | some todo is completed exactly when the Completed filter shows something |
| `TodosView.AllCompletedImpliesSome` | src/components/Todos.tsx:33-34 | on a non-empty list "all completed" implies "some completed"; on the empty list "all" holds and "some" does not |
| `App.AllCompleted` | src/App.tsx:34 | `allCompleted` is false on the empty list and, when true, every todo is completed |
| `App.AllCompletedVersusEvery` | src/App.tsx:34 | `allCompleted` holds exactly when the list is non-empty and every todo is completed; it differs from the list view's "every" test exactly on the empty list |
| `App.WithLoading` | src/App.tsx:69-73 | marking keeps the length and changes only the todos with the given id, and in them only `isLoading` |
| `App.DeleteRollback` | src/App.tsx:79-83 | after a failed delete the list has the same length, ids, titles and completion flags, the target's `isLoading` is false, and the list is unchanged when the target was not marked before |
| `App.WithoutIds` | src/App.tsx:77 | the remaining todos are exactly those whose id is not removed |
| `App.WithoutIdsCounts` | src/App.tsx:77 | every todo whose id is kept remains exactly as many times as the list holds it, and no copy of a todo with a removed id remains |
| `App.WithoutIdsIsSubsequence` | src/App.tsx:77 | removal keeps the relative order of the remaining todos |
| `App.WithoutIdsTwice` | src/App.tsx:95 | removing one id after another is removing both at once, so the clear-completed deletes compose |
| `App.DeleteIgnoresLoadingMark` | src/App.tsx:69-77 | the loading mark set before a delete does not change what a successful delete leaves |
| `App.WithCompleted` | src/App.tsx:111 | every todo gets the given `completed` value, and nothing else changes |
| `App.ToggledAll` | src/App.tsx:108-112 | toggle-all keeps length, ids and titles and sets every `completed` to the negation of `allCompleted` |
| `App.ToggleAllTwice` | src/App.tsx:108-112 | on a non-empty list that is not all completed, toggle-all completes every todo and a second toggle-all makes every todo active |
| `App.Toggled` | src/App.tsx:157-163 | toggle-one flips `completed` on the todos with the given id and leaves every other todo unchanged |
| `App.ToggledTwice` | src/App.tsx:157-163 | toggling the same id twice gives back the original list |
| `App.DeleteFailure` | src/App.tsx:97 | the failure message of a todo ends with that todo's title |
| `App.DeletedIds` | src/App.tsx:92-95 | at most one id is removed per successful delete |
| `App.DeletedIdsMembers` | src/App.tsx:92-95 | an id is removed exactly when some snapshot todo with that id had a successful delete |
| `App.FailureMessages` | src/App.tsx:92-98 | never more messages than the snapshot has todos |
| `App.FailureMessagesMembers` | src/App.tsx:92-98 | there is a message for every failed delete and only for failed deletes; no message is collected exactly when every delete succeeded |
| `App.FailureMessagesCount` | src/App.tsx:92-98 | exactly one message is collected per failed delete |
| `App.ClearedTodos` | src/App.tsx:88-99 | clear-completed never lengthens the list, and leaves it unchanged when every delete fails |
| `App.ClearRemovesSucceeded` | src/App.tsx:88-99 | clear-completed adds nothing, keeps the order of what remains, and leaves no todo whose id had a successful delete |
| `App.ClearKeepsActive` | src/App.tsx:88-99 | with unique ids, clear-completed never removes an active todo |
| `App.ClearRemovesExactlySucceeded` | src/App.tsx:88-99 | with unique ids, a completed todo is removed exactly when its delete succeeded and stays when it failed |
| `App.ClearError` | src/App.tsx:103-105 | the error changes only when at least one delete failed, and then becomes the messages joined with ", " |
| `App.ClearErrorShown` | src/App.tsx:97-105 | when a delete fails the resulting error is non-empty and starts with the first failure's message |
| `App.ClearErrorStep` | src/App.tsx:97-104 | each further failed delete extends a non-empty error at its end with ", " and that todo's message |
| `App.ClearCompletedExample` | src/App.tsx:88-99 | with A and B completed and C active, where deleting A succeeds and deleting B fails, the snapshot is [A, B] and the list becomes [B, C] |
| `App.ClearCompletedExampleError` | src/App.tsx:92-98 | in the same example only B's message is collected |
| `App.IsPlaceholder` | src/App.tsx:47-52 | a placeholder has id 0 and a trimmed, non-empty title, which is never blank |
| `App.DeleteEach` | src/App.tsx:92-101 | the per-todo loop of clear-completed, run in snapshot order, leaves the list without the ids of the successful deletes and collects the failure messages in order |
| `App.TodoApp.Valid` | src/App.tsx:46-52 | the object invariant: a pending placeholder has id 0 and a title that is not blank |
| `App.TodoApp.constructor` | src/App.tsx:23-30 | the initial state: no todos, no placeholder, no error, filter All, empty input, not loading |
| `App.TodoApp.FilteredTodos` | src/App.tsx:114-125 | the rendered list is an order-preserving subsequence of `todos` holding exactly the todos the selected filter accepts, and is `todos` itself under All |
| `App.TodoApp.SetNewTodoTitle` | src/App.tsx:180 | typing sets the input and changes nothing else |
| `App.TodoApp.SetFilterOption` | src/App.tsx:207 | choosing a filter sets it and changes nothing else |
| `App.TodoApp.DismissError` | src/App.tsx:215 | closing the notification clears the error and changes nothing else |
| `App.TodoApp.StartLoad` | src/App.tsx:129 | while the initial load is pending the app is loading |
| `App.TodoApp.FinishLoad` | src/App.tsx:130-138 | a fetched list replaces `todos`, a failure sets "Unable to load todos" and keeps `todos`; loading ends either way |
| `App.TodoApp.LoadTodos` | src/App.tsx:128-139 | the whole initial load gives the outcome of `FinishLoad` |
| `App.TodoApp.StartAddTodo` | src/App.tsx:36-52 | an empty or whitespace-only title sets "Title should not be empty", makes no remote call and leaves `todos` and `tempTodo` as they were; otherwise the trimmed title is sent, the app is loading and the placeholder has id 0, the trimmed title and `completed` false |
| `App.TodoApp.FinishAddTodo` | src/App.tsx:54-65 | a success appends the returned todo after the unchanged earlier todos and clears the input; a failure keeps `todos` and the input and sets "Unable to add todo"; either way the placeholder is gone and loading ends |
| `App.TodoApp.HandleAddTodo` | src/App.tsx:36-66 | the whole add handler: the validation case, the success case and the failure case as above |
| `App.TodoApp.StartDelete` | src/App.tsx:69-73 | while a delete is pending the todos with that id are marked as loading |
| `App.TodoApp.FinishDelete` | src/App.tsx:75-85 | a success removes every todo with that id; a failure clears their loading mark and sets "Unable to delete a todo" |
| `App.TodoApp.HandleDelete` | src/App.tsx:68-86 | the whole delete handler: success removes every todo with the id and keeps the rest in order; failure gives the rolled-back list and the delete error |
| `App.TodoApp.HandleClearCompleted` | src/App.tsx:88-106 | the list becomes the old list without the ids of the successful deletes of its completed todos, and the error becomes `ClearError` of the messages of the failed ones; nothing else changes |
| `App.TodoApp.ToggleAll` | src/App.tsx:108-112 | the list becomes `ToggledAll` of the old list; nothing else changes |
| `App.TodoApp.ToggleTodoCompletion` | src/App.tsx:157-163 | the list becomes `Toggled` of the old list for that id; nothing else changes |

## Left out

- The remote service (`getTodos`, `addTodo`, `deleteTodo` and `USER_ID` in
  the `api/todos` module) is HTTP I/O. Each call is an outcome parameter.
  `USER_ID` is the constructor's `userId`. The API module is not part of
  this model.
- The concurrency of clear-completed (`Promise.all`) is not modelled. The
  deletes run one after the other in snapshot order. In the application
  they overlap, and the order of the failure messages depends on when each
  call settles. The model makes no claim about that order.
- Clear-completed is one step. The intermediate lists the application
  shows as each delete settles, and any other handler that runs before
  every delete has settled, are not modelled.
- Re-entrancy is modelled only through the separate `Start…` and `Finish…`
  methods. Examples are a second add or delete, or the initial load,
  finishing while another call is pending.
- The 3000 ms timer that clears the error is timer behaviour.
- Rendering, JSX, input focus, `useMemo` and `useCallback` memoisation are
  UI, and so is the early return that shows a warning when no user id is
  configured.
- The header's own trim check duplicates the add validation of the
  application component. The header component is not part of this model.
- The footer component is presentational: filter links and a button. Only
  its "items left" count is modelled, as `TodosView.ItemsLeft`.
- The list component's `tempTodo`, `isLoading` and `deletingTodoId` props
  only affect rendering.
- The DOM bootstrap is not part of this model.
- Todo ids are JavaScript numbers, modelled as unbounded integers. The
  service assigns them, and no arithmetic is done on them.
- The `isLoading` property of a todo is absent until a delete adds it. The
  model reads an absent property as `false`, the same truth value the
  application sees.
- Strings are sequences of Unicode scalar values, not UTF-16 code units.
  Every character `trim` removes is a single code unit, so trimming is the
  same.
- `App.TodoApp.HandleClearCompleted` takes exactly one outcome per
  completed todo. This fixes how many remote calls the handler makes.
