/** The to-do record, the three list filters and the filter projection that
    both the application component and the list view apply to a todo list. */
module TodoTypes {

  datatype Option<T> = None | Some(value: T)

  /** A todo as the remote service returns it. `isLoading` is the flag the
      application adds to a todo while its deletion is pending; a todo that
      never carried it reads as `false`. Id 0 is reserved for the placeholder
      shown while a new todo is being created. */
  datatype Todo = Todo(id: int, userId: int, title: string, completed: bool, isLoading: bool)

  datatype Filter = All | Active | Completed

  /** The filter callback: Active keeps the open todos, Completed the done
      ones, and every other filter keeps everything. */
  predicate Matches(f: Filter, t: Todo): (r: bool)
    ensures f == All ==> r
    ensures f != All ==> (r <==> t.completed == (f == Completed))
  {
    match f
    case Active => !t.completed
    case Completed => t.completed
    case All => true
  }

  /** `xs` is `ys` with some elements left out and the others kept in order. */
  predicate IsSubsequence<T(==)>(xs: seq<T>, ys: seq<T>)
    decreases |ys|
  {
    if xs == [] then true
    else if ys == [] then false
    else if xs[0] == ys[0] then IsSubsequence(xs[1..], ys[1..])
    else IsSubsequence(xs, ys[1..])
  }

  /** Ids are unique among the todos of the list. */
  predicate UniqueIds(ts: seq<Todo>) {
    forall i, j :: 0 <= i < j < |ts| ==> ts[i].id != ts[j].id
  }

  /** With unique ids, a todo of the list is determined by its id. */
  lemma SameIdSameTodo(ts: seq<Todo>, a: Todo, b: Todo)
    requires UniqueIds(ts) && a in ts && b in ts && a.id == b.id
    ensures a == b
  {
  }

  /** `todos.filter(...)` with the filter callback: exactly the todos that
      match the filter. */
  function Filtered(ts: seq<Todo>, f: Filter): (r: seq<Todo>)
    ensures |r| <= |ts|
    ensures forall t :: t in r ==> t in ts && Matches(f, t)
    ensures forall t :: t in ts && Matches(f, t) ==> t in r
  {
    if ts == [] then []
    else (if Matches(f, ts[0]) then [ts[0]] else []) + Filtered(ts[1..], f)
  }

  /** Filtering never reorders: the result is a subsequence of the list. */
  lemma {:induction false} FilteredIsSubsequence(ts: seq<Todo>, f: Filter)
    ensures IsSubsequence(Filtered(ts, f), ts)
  {
    if ts != [] {
      FilteredIsSubsequence(ts[1..], f);
      var r, rest := Filtered(ts, f), Filtered(ts[1..], f);
      if Matches(f, ts[0]) {
        assert r[0] == ts[0] && r[1..] == rest;
      } else {
        assert r == rest;
        if r != [] {
          // the elements of r come from ts[1..] and match f, so r[0] is not ts[0]
          assert r[0] in r;
        }
      }
    }
  }

  /** The All filter gives back the list itself. */
  lemma {:induction false} FilteredAllIsIdentity(ts: seq<Todo>)
    ensures Filtered(ts, All) == ts
  {
    if ts != [] {
      FilteredAllIsIdentity(ts[1..]);
    }
  }

  /** Active and Completed split the list: between them they hold every
      todo exactly as often as the list does. */
  lemma {:induction false} ActiveCompletedSplit(ts: seq<Todo>)
    ensures multiset(Filtered(ts, Active)) + multiset(Filtered(ts, Completed)) == multiset(ts)
  {
    if ts != [] {
      var h, rest := ts[0], ts[1..];
      ActiveCompletedSplit(rest);
      assert ts == [h] + rest;
      assert multiset(ts) == multiset{h} + multiset(rest);
      if h.completed {
        assert Filtered(ts, Active) == Filtered(rest, Active);
        assert Filtered(ts, Completed) == [h] + Filtered(rest, Completed);
      } else {
        assert Filtered(ts, Active) == [h] + Filtered(rest, Active);
        assert Filtered(ts, Completed) == Filtered(rest, Completed);
      }
    }
  }

  /** Active and Completed partition the list: their lengths add up to the
      list's length and no todo is in both. */
  lemma ActiveCompletedPartition(ts: seq<Todo>)
    ensures |Filtered(ts, Active)| + |Filtered(ts, Completed)| == |ts|
    ensures forall t :: t in Filtered(ts, Active) ==> t !in Filtered(ts, Completed)
  {
    ActiveCompletedSplit(ts);
    assert |multiset(Filtered(ts, Active)) + multiset(Filtered(ts, Completed))| == |multiset(ts)|;
  }

  /** Filtering keeps ids unique. */
  lemma {:induction false} FilteredKeepsUniqueIds(ts: seq<Todo>, f: Filter)
    requires UniqueIds(ts)
    ensures UniqueIds(Filtered(ts, f))
  {
    if ts != [] {
      var rest := ts[1..];
      assert UniqueIds(rest) by {
        forall i, j | 0 <= i < j < |rest| ensures rest[i].id != rest[j].id {
          assert rest[i] == ts[i + 1] && rest[j] == ts[j + 1];
        }
      }
      FilteredKeepsUniqueIds(rest, f);
      var fr := Filtered(rest, f);
      var r := Filtered(ts, f);
      if Matches(f, ts[0]) {
        forall i, j | 0 <= i < j < |r| ensures r[i].id != r[j].id {
          if i == 0 {
            assert r[j] == fr[j - 1] && r[j] in rest;
            var k :| 0 <= k < |rest| && rest[k] == r[j];
            assert ts[k + 1] == r[j];
          } else {
            assert r[i] == fr[i - 1] && r[j] == fr[j - 1];
          }
        }
      } else {
        assert r == fr;
      }
    }
  }
}
