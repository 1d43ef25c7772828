# Todo store model

A Dafny model of the todo store of `learning-zustand`: the zustand store in
`src/stores/todoStore.js` that holds one field, `todos`, and five actions
that replace it — `addTodo`, `toggleTodo`, `deleteTodo`, `clearCompleted`
and `clearTodo`.

- `array_ops.dfy` (module `ArrayOps`): the JavaScript builtins the actions are
  written with, `Array.prototype.map` and `Array.prototype.filter`, as
  recursive functions on sequences, with the facts about `filter` that the
  `deleteTodo` and `clearCompleted` lemmas are proved from: order kept,
  multiplicities kept, idempotence, distribution over concatenation.
- `todos.dfy` (module `Todos`): the `Todo` item, the initial empty list and
  each action as a pure function from the old list to the new one, plus the
  lemmas about them: frame conditions, round trips, idempotence, exact
  characterisations of the filters, and conditional preservation of id
  distinctness.
- `todo_store.dfy` (module `TodoStore`): a thin `Store` class with a `todos`
  field and one method per action, each assigning the function's result, as
  zustand's `set` does.

The fresh id that `addTodo` reads from `Date.now()` is a parameter of
`AddTodo`. The code does nothing to keep ids unique, so the model never
assumes it: `map` in `toggleTodo` and `filter` in `deleteTodo` touch every
item whose id matches, and `SameTickCollision` shows two additions in one
clock tick being toggled and deleted together. When ids happen to be
distinct, `DeleteTodoDistinct` shows that deleting an item's id removes
that one item only. Distinct ids are proved to be kept by `addTodo` (when
the new id is fresh), `toggleTodo`, `deleteTodo`, `clearCompleted` and
`clearTodo`; they are never imposed.

## Model

| member | source | states |
|---|---|---|
| `ArrayOps.Map` | src/stores/todoStore.js:10 | `map` keeps the length and puts `f` of the i-th input element at index i |
| `ArrayOps.Filter` | src/stores/todoStore.js:13-15 | `filter` never lengthens; every result element is in the input and satisfies the callback; every input element satisfying it is in the result |
| `ArrayOps.FilterIsSubsequence` | src/stores/todoStore.js:13-15 | the result of `filter` is a subsequence of the input (relative order kept) |
| `ArrayOps.FilterCounts` | src/stores/todoStore.js:13-15 | `filter` keeps every occurrence of a kept value and no occurrence of a dropped one |
| `ArrayOps.FilterAllKept` | src/stores/todoStore.js:13-15 | filtering a list whose every element passes returns it unchanged |
| `ArrayOps.FilterIdempotent` | src/stores/todoStore.js:13-15 | filtering twice with the same callback equals filtering once |
| `ArrayOps.FilterAppend` | src/stores/todoStore.js:13-15 | filtering a concatenation is the concatenation of the filtered parts |
| `ArrayOps.FilterPartition` | src/stores/todoStore.js:13-15 | a filter and its complement together account for every element |
| `Todos.InitialTodos` | src/stores/todoStore.js:5 | the store's initial `todos` is the empty list |
| `Todos.AddTodo` | src/stores/todoStore.js:6-8 | the `Todo` datatype is the object literal of line 7; `addTodo` grows the list by one, keeps every earlier item in place, and puts `{id, title: text, completed: false}` last, for any text including the empty one |
| `Todos.AddTodoThenDelete` | src/stores/todoStore.js:6-14 | adding with an id no item holds and then deleting that id restores the list |
| `Todos.AddTodoKeepsIdsDistinct` | src/stores/todoStore.js:6-8 | adding with a fresh id keeps ids pairwise distinct |
| `Todos.AddAll` | src/stores/todoStore.js:6-8 | n successive additions grow the list by exactly n |
| `Todos.AddAllInOrder` | src/stores/todoStore.js:6-8 | after successive additions the old items are untouched and each new item sits at its call position, uncompleted, with its own id and text |
| `Todos.Toggled` | src/stores/todoStore.js:10 | the `map` callback of `toggleTodo` (wrapped as `t => Toggled(t, id)`) keeps id and title and flips `completed` exactly when the id matches |
| `Todos.ToggleTodo` | src/stores/todoStore.js:9-11 | `toggleTodo` keeps the length and each index's id and title, negates `completed` exactly at indices whose id matches, and leaves every other item identical |
| `Todos.ToggleTodoAbsent` | src/stores/todoStore.js:9-11 | toggling an id no item carries leaves the list unchanged |
| `Todos.ToggleTodoTwice` | src/stores/todoStore.js:9-11 | toggling the same id twice returns the original list |
| `Todos.ToggleTodoKeepsIdsDistinct` | src/stores/todoStore.js:9-11 | toggling keeps pairwise-distinct ids distinct |
| `Todos.DeleteTodo` | src/stores/todoStore.js:12-14 | written as `Filter(todos, OtherId(id))`, where `OtherId` is the `filter` callback of line 13; `deleteTodo` never lengthens the list; no remaining item has the id; every remaining item was in the input; every item with another id remains |
| `Todos.DeleteTodoExact` | src/stores/todoStore.js:12-14 | `deleteTodo` returns exactly the items with a different id, in original relative order and multiplicity |
| `Todos.DeleteTodoAbsent` | src/stores/todoStore.js:12-14 | deleting an id no item carries leaves the list unchanged |
| `Todos.DeleteTodoIdempotent` | src/stores/todoStore.js:12-14 | a second identical `deleteTodo` is a no-op |
| `Todos.DeleteTodoDistinct` | src/stores/todoStore.js:12-14 | with distinct ids, deleting the id of item k removes item k and nothing else |
| `Todos.FilterKeepsIdsDistinct` | src/stores/todoStore.js:12-15 | any filter of a list with distinct ids has distinct ids |
| `Todos.DeleteTodoKeepsIdsDistinct` | src/stores/todoStore.js:12-14 | deleting keeps distinct ids distinct |
| `Todos.ClearCompleted` | src/stores/todoStore.js:15 | written as `Filter(todos, NotCompleted())`, where `NotCompleted` is the `filter` callback of line 15; `clearCompleted` never lengthens the list; every remaining item is uncompleted and was in the input; every uncompleted item remains |
| `Todos.ClearCompletedExact` | src/stores/todoStore.js:15 | `clearCompleted` returns exactly the uncompleted items, in original relative order and multiplicity |
| `Todos.ClearCompletedNoneDone` | src/stores/todoStore.js:15 | with no completed item, `clearCompleted` leaves the list unchanged |
| `Todos.ClearCompletedIdempotent` | src/stores/todoStore.js:15 | a second `clearCompleted` is a no-op |
| `Todos.ClearCompletedKeepsIdsDistinct` | src/stores/todoStore.js:15 | clearing completed items keeps distinct ids distinct |
| `Todos.ClearCompletedPartition` | src/stores/todoStore.js:15 | with `Completed` the complement of the line-15 callback, the items `clearCompleted` keeps and the completed items together are the original list as a multiset, so their lengths add up to its length |
| `Todos.ClearTodo` | src/stores/todoStore.js:16 | `clearTodo` yields the empty list whatever the previous list was |
| `Todos.ClearTodoKeepsIdsDistinct` | src/stores/todoStore.js:16 | clearing everything leaves no shared ids |
| `Todos.SameTickCollision` | src/stores/todoStore.js:6-14 | two additions with the same clock reading share an id, so one toggle flips both and one delete removes both |
| `TodoStore.Store.constructor` | src/stores/todoStore.js:4-5 | a new store starts with an empty `todos` |
| `TodoStore.Store.AddTodo` | src/stores/todoStore.js:6-8 | `todos` becomes the old list with the new uncompleted item appended |
| `TodoStore.Store.ToggleTodo` | src/stores/todoStore.js:9-11 | `todos` becomes the toggled list: same ids and titles per index, `completed` negated exactly where the id matches |
| `TodoStore.Store.DeleteTodo` | src/stores/todoStore.js:12-14 | `todos` becomes an order-preserving subsequence of the old list holding every item with another id and none with this one |
| `TodoStore.Store.ClearCompleted` | src/stores/todoStore.js:15 | `todos` becomes an order-preserving subsequence of the old list holding every uncompleted item and no completed one |
| `TodoStore.Store.ClearTodo` | src/stores/todoStore.js:16 | `todos` becomes empty |

## Left out

- zustand's `create`, `set` and subscriber notification (src/stores/todoStore.js:2-4, 19-21) are a foreign library; `set` is modelled only as replacing `todos` with the updater's result.
- `Date.now()` (src/stores/todoStore.js:7) is a clock read; its value is the `id` parameter of `AddTodo`. Id uniqueness is not guaranteed by the code and is not an invariant of the model.
- Ids are JavaScript numbers compared with `===`; the model uses mathematical integers, which is exact for the millisecond timestamps `Date.now()` returns.
- Object identity: `map` in `toggleTodo` returns the same object for unchanged items and a new one for toggled items; likewise `filter` in `deleteTodo` and `clearCompleted` always returns a new array, even when it removes nothing. The model uses values, so reference identity (which React uses to skip re-renders) is not captured: the "unchanged" of `ToggleTodoAbsent`, `DeleteTodoAbsent` and `ClearCompletedNoneDone` is equality of values, while the source still installs a new `todos` array on each of those calls.
- The counter store that src/Counter.jsx imports (`./stores/counterStore`) is not part of this model; its increment, decrement and reset are therefore not modelled.
- Persistence to durable storage and hydration: the modelled store has no persistence middleware.
- src/Todo.jsx and src/Counter.jsx are presentation: rendering, form and button wiring, and the input buffer cleared after submit.
