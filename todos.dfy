/**
 * The todo list held by the zustand store in src/stores/todoStore.js and
 * its five updaters. Each updater is the pure function from the previous
 * `todos` value to the next one that the store hands to `set`.
 *
 * The store takes a fresh id from `Date.now()`; here the id is a parameter
 * of AddTodo. Nothing makes ids unique, so no lemma below assumes it unless
 * it says so in its `requires`.
 */
module Todos {
  import opened ArrayOps

  /** One item of the list, as the object literal built by `addTodo`. */
  datatype Todo = Todo(id: int, title: string, completed: bool)

  /** Some item of `todos` carries `id`. */
  predicate HasId(todos: seq<Todo>, id: int)
  {
    exists i :: 0 <= i < |todos| && todos[i].id == id
  }

  /** No two items of `todos` share an id. */
  predicate IdsDistinct(todos: seq<Todo>)
  {
    forall i, j :: 0 <= i < j < |todos| ==> todos[i].id != todos[j].id
  }

  /** The value of `todos` the store is created with. */
  function InitialTodos(): (r: seq<Todo>)
    ensures |r| == 0
  {
    []
  }

  /** `addTodo(text)` with `id` standing for the value `Date.now()` returned. */
  function AddTodo(todos: seq<Todo>, id: int, text: string): (r: seq<Todo>)
    ensures |r| == |todos| + 1
    ensures r[..|todos|] == todos
    ensures r[|todos|].id == id && r[|todos|].title == text && !r[|todos|].completed
  {
    todos + [Todo(id, text, false)]
  }

  /** The item `t` after `toggleTodo(id)`: its completion flipped if the id matches. */
  function Toggled(t: Todo, id: int): (r: Todo)
    ensures r.id == t.id && r.title == t.title
    ensures r.completed == (t.completed != (t.id == id))
  {
    if t.id == id then t.(completed := !t.completed) else t
  }

  /** `toggleTodo(id)`: every item whose id matches has its completion flipped. */
  function ToggleTodo(todos: seq<Todo>, id: int): (r: seq<Todo>)
    ensures |r| == |todos|
    ensures forall i :: 0 <= i < |todos| ==> r[i].id == todos[i].id && r[i].title == todos[i].title
    ensures forall i :: 0 <= i < |todos| ==> r[i].completed == (todos[i].completed != (todos[i].id == id))
    ensures forall i :: 0 <= i < |todos| && todos[i].id != id ==> r[i] == todos[i]
  {
    Map(todos, (t: Todo) => Toggled(t, id))
  }

  /** The callback `deleteTodo(id)` passes to `filter`. */
  function OtherId(id: int): Todo -> bool
  {
    (t: Todo) => t.id != id
  }

  /** `deleteTodo(id)`: every item whose id matches is removed. */
  function DeleteTodo(todos: seq<Todo>, id: int): (r: seq<Todo>)
    ensures |r| <= |todos|
    ensures forall i :: 0 <= i < |r| ==> r[i] in todos && r[i].id != id
    ensures forall i :: 0 <= i < |todos| && todos[i].id != id ==> todos[i] in r
  {
    Filter(todos, OtherId(id))
  }

  /** The callback `clearCompleted()` passes to `filter`. */
  function NotCompleted(): Todo -> bool
  {
    (t: Todo) => !t.completed
  }

  /** The complement of NotCompleted: the items `clearCompleted()` removes. */
  function Completed(): Todo -> bool
  {
    (t: Todo) => t.completed
  }

  /** `clearCompleted()`: every completed item is removed. */
  function ClearCompleted(todos: seq<Todo>): (r: seq<Todo>)
    ensures |r| <= |todos|
    ensures forall i :: 0 <= i < |r| ==> r[i] in todos && !r[i].completed
    ensures forall i :: 0 <= i < |todos| && !todos[i].completed ==> todos[i] in r
  {
    Filter(todos, NotCompleted())
  }

  /** `clearTodo()`: the previous list is ignored. */
  function ClearTodo(todos: seq<Todo>): (r: seq<Todo>)
    ensures |r| == 0
  {
    []
  }

  // ---------------------------------------------------------------- addTodo

  /** Adding with an id nobody holds and deleting that id restores the list. */
  lemma AddTodoThenDelete(todos: seq<Todo>, id: int, text: string)
    requires !HasId(todos, id)
    ensures DeleteTodo(AddTodo(todos, id, text), id) == todos
  {
    var item := Todo(id, text, false);
    FilterAppend(todos, [item], OtherId(id));
    FilterAllKept(todos, OtherId(id));
    assert Filter([item], OtherId(id)) == [];
  }

  /** Adding with a fresh id keeps ids distinct; a repeated id is the caller's doing. */
  lemma AddTodoKeepsIdsDistinct(todos: seq<Todo>, id: int, text: string)
    requires IdsDistinct(todos) && !HasId(todos, id)
    ensures IdsDistinct(AddTodo(todos, id, text))
  {
  }

  /** Successive `addTodo` calls, one per (id, text) pair, in order. */
  function AddAll(todos: seq<Todo>, entries: seq<(int, string)>): (r: seq<Todo>)
    ensures |r| == |todos| + |entries|
    decreases |entries|
  {
    if entries == [] then todos
    else AddAll(AddTodo(todos, entries[0].0, entries[0].1), entries[1..])
  }

  /**
   * After a run of additions the earlier items are untouched and each
   * addition sits at its own position, in call order, uncompleted.
   */
  lemma {:induction false} AddAllInOrder(todos: seq<Todo>, entries: seq<(int, string)>)
    ensures AddAll(todos, entries)[..|todos|] == todos
    ensures forall j :: 0 <= j < |entries| ==>
      AddAll(todos, entries)[|todos| + j] == Todo(entries[j].0, entries[j].1, false)
    decreases |entries|
  {
    if entries != [] {
      var next := AddTodo(todos, entries[0].0, entries[0].1);
      AddAllInOrder(next, entries[1..]);
      var r := AddAll(todos, entries);
      assert r == AddAll(next, entries[1..]);
      assert r[..|todos|] == next[..|next|][..|todos|];
      forall j | 0 <= j < |entries|
        ensures r[|todos| + j] == Todo(entries[j].0, entries[j].1, false)
      {
        if j == 0 {
          assert r[|todos|] == r[..|next|][|todos|] == next[|todos|];
        } else {
          assert entries[j] == entries[1..][j - 1];
          assert r[|todos| + j] == r[|next| + (j - 1)];
        }
      }
    }
  }

  // ------------------------------------------------------------- toggleTodo

  /** Toggling an id that no item carries leaves the list as it was. */
  lemma ToggleTodoAbsent(todos: seq<Todo>, id: int)
    requires !HasId(todos, id)
    ensures ToggleTodo(todos, id) == todos
  {
  }

  /** Toggling the same id twice gives back the original list. */
  lemma ToggleTodoTwice(todos: seq<Todo>, id: int)
    ensures ToggleTodo(ToggleTodo(todos, id), id) == todos
  {
  }

  /** Toggling never changes which ids the list holds, so distinct ids stay distinct. */
  lemma ToggleTodoKeepsIdsDistinct(todos: seq<Todo>, id: int)
    requires IdsDistinct(todos)
    ensures IdsDistinct(ToggleTodo(todos, id))
  {
  }

  // ----------------------------------------------- deleteTodo, clearCompleted

  /** Any filter of a list with distinct ids has distinct ids. */
  lemma {:induction false} FilterKeepsIdsDistinct(todos: seq<Todo>, keep: Todo -> bool)
    requires IdsDistinct(todos)
    ensures IdsDistinct(Filter(todos, keep))
  {
    if todos != [] {
      var tail := todos[1..];
      assert IdsDistinct(tail) by {
        forall i, j | 0 <= i < j < |tail| ensures tail[i].id != tail[j].id {
          assert tail[i] == todos[i + 1] && tail[j] == todos[j + 1];
        }
      }
      FilterKeepsIdsDistinct(tail, keep);
      if keep(todos[0]) {
        var rest := Filter(tail, keep);
        var r := Filter(todos, keep);
        assert r == [todos[0]] + rest;
        forall j | 0 <= j < |rest| ensures todos[0].id != rest[j].id {
          var m :| 0 <= m < |tail| && tail[m] == rest[j];
          assert todos[m + 1] == rest[j];
        }
        forall i, j | 0 <= i < j < |r| ensures r[i].id != r[j].id {
          assert r[j] == rest[j - 1];
          if i > 0 {
            assert r[i] == rest[i - 1];
          }
        }
      } else {
        assert Filter(todos, keep) == Filter(tail, keep);
      }
    }
  }

  /**
   * `deleteTodo(id)` keeps exactly the items whose id differs, in their
   * original relative order, each as often as it occurred.
   */
  lemma DeleteTodoExact(todos: seq<Todo>, id: int)
    ensures IsSubsequence(DeleteTodo(todos, id), todos)
    ensures forall t :: multiset(DeleteTodo(todos, id))[t] == if t.id != id then multiset(todos)[t] else 0
  {
    FilterIsSubsequence(todos, OtherId(id));
    FilterCounts(todos, OtherId(id));
  }

  /** Deleting an id that no item carries leaves the list as it was. */
  lemma DeleteTodoAbsent(todos: seq<Todo>, id: int)
    requires !HasId(todos, id)
    ensures DeleteTodo(todos, id) == todos
  {
    FilterAllKept(todos, OtherId(id));
  }

  /** A second `deleteTodo` with the same id is a no-op. */
  lemma DeleteTodoIdempotent(todos: seq<Todo>, id: int)
    ensures DeleteTodo(DeleteTodo(todos, id), id) == DeleteTodo(todos, id)
  {
    FilterIdempotent(todos, OtherId(id));
  }

  /** When ids are distinct, deleting the id of item k removes that one item only. */
  lemma DeleteTodoDistinct(todos: seq<Todo>, k: nat)
    requires IdsDistinct(todos) && k < |todos|
    ensures DeleteTodo(todos, todos[k].id) == todos[..k] + todos[k + 1..]
  {
    var id := todos[k].id;
    var before, after := todos[..k], todos[k + 1..];
    assert todos == before + ([todos[k]] + after);
    FilterAppend(before, [todos[k]] + after, OtherId(id));
    FilterAppend([todos[k]], after, OtherId(id));
    assert Filter([todos[k]], OtherId(id)) == [];
    forall i | 0 <= i < |before| ensures OtherId(id)(before[i]) {
      assert before[i] == todos[i];
    }
    FilterAllKept(before, OtherId(id));
    forall i | 0 <= i < |after| ensures OtherId(id)(after[i]) {
      assert after[i] == todos[k + 1 + i];
    }
    FilterAllKept(after, OtherId(id));
  }

  /** Deleting keeps distinct ids distinct. */
  lemma DeleteTodoKeepsIdsDistinct(todos: seq<Todo>, id: int)
    requires IdsDistinct(todos)
    ensures IdsDistinct(DeleteTodo(todos, id))
  {
    FilterKeepsIdsDistinct(todos, OtherId(id));
  }

  /**
   * `clearCompleted()` keeps exactly the uncompleted items, in their
   * original relative order, each as often as it occurred.
   */
  lemma ClearCompletedExact(todos: seq<Todo>)
    ensures IsSubsequence(ClearCompleted(todos), todos)
    ensures forall t :: multiset(ClearCompleted(todos))[t] == if !t.completed then multiset(todos)[t] else 0
  {
    FilterIsSubsequence(todos, NotCompleted());
    FilterCounts(todos, NotCompleted());
  }

  /** With nothing completed, `clearCompleted()` leaves the list as it was. */
  lemma ClearCompletedNoneDone(todos: seq<Todo>)
    requires forall i :: 0 <= i < |todos| ==> !todos[i].completed
    ensures ClearCompleted(todos) == todos
  {
    FilterAllKept(todos, NotCompleted());
  }

  /** A second `clearCompleted()` is a no-op. */
  lemma ClearCompletedIdempotent(todos: seq<Todo>)
    ensures ClearCompleted(ClearCompleted(todos)) == ClearCompleted(todos)
  {
    FilterIdempotent(todos, NotCompleted());
  }

  /** Clearing completed items keeps distinct ids distinct. */
  lemma ClearCompletedKeepsIdsDistinct(todos: seq<Todo>)
    requires IdsDistinct(todos)
    ensures IdsDistinct(ClearCompleted(todos))
  {
    FilterKeepsIdsDistinct(todos, NotCompleted());
  }

  /**
   * The items `clearCompleted()` keeps and the completed ones make up the
   * whole list: together they hold every item exactly as often as it occurs.
   */
  lemma ClearCompletedPartition(todos: seq<Todo>)
    ensures |ClearCompleted(todos)| + |Filter(todos, Completed())| == |todos|
    ensures multiset(ClearCompleted(todos)) + multiset(Filter(todos, Completed())) == multiset(todos)
  {
    FilterPartition(todos, NotCompleted(), Completed());
    FilterCounts(todos, NotCompleted());
    FilterCounts(todos, Completed());
  }

  // ------------------------------------------------------------- clearTodo

  /** Clearing everything trivially leaves no two items sharing an id. */
  lemma ClearTodoKeepsIdsDistinct(todos: seq<Todo>)
    ensures IdsDistinct(ClearTodo(todos))
  {
  }

  // ------------------------------------------------------------- same tick

  /**
   * Two additions within one clock tick get the same id; toggling then
   * flips both items and deleting removes both.
   */
  lemma SameTickCollision(first: string, second: string, now: int)
    ensures var todos := AddTodo(AddTodo(InitialTodos(), now, first), now, second);
      && ToggleTodo(todos, now) == [Todo(now, first, true), Todo(now, second, true)]
      && DeleteTodo(todos, now) == []
  {
    var todos := AddTodo(AddTodo(InitialTodos(), now, first), now, second);
    assert todos == [Todo(now, first, false), Todo(now, second, false)];
    var keep := OtherId(now);
    assert !keep(todos[0]) && !keep(todos[1]);
    assert todos[1..][1..] == [];
    assert Filter(todos, keep) == Filter(todos[1..], keep) == Filter([], keep);
  }
}
