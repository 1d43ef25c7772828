/**
 * The store object `create` builds in src/stores/todoStore.js: one field,
 * `todos`, and one action per updater. zustand's `set` replaces the field
 * with the updater's result, which each method here does with a single
 * assignment; subscriber notification is not modelled.
 */
module TodoStore {
  import Todos
  import ArrayOps

  class Store {
    var todos: seq<Todos.Todo>

    /** A fresh store holds no todos. */
    constructor ()
      ensures todos == Todos.InitialTodos()
      ensures |todos| == 0
    {
      todos := Todos.InitialTodos();
    }

    /** `addTodo(text)`, with `id` standing for the clock reading. */
    method AddTodo(id: int, text: string)
      modifies this
      ensures todos == Todos.AddTodo(old(todos), id, text)
      ensures todos[..|old(todos)|] == old(todos)
      ensures todos[|old(todos)|] == Todos.Todo(id, text, false)
    {
      todos := Todos.AddTodo(todos, id, text);
    }

    /** `toggleTodo(id)`. */
    method ToggleTodo(id: int)
      modifies this
      ensures todos == Todos.ToggleTodo(old(todos), id)
      ensures |todos| == |old(todos)|
      ensures forall i :: 0 <= i < |todos| ==>
        todos[i].id == old(todos)[i].id && todos[i].title == old(todos)[i].title
      ensures forall i :: 0 <= i < |todos| ==>
        todos[i].completed == (old(todos)[i].completed != (old(todos)[i].id == id))
    {
      todos := Todos.ToggleTodo(todos, id);
    }

    /** `deleteTodo(id)`. */
    method DeleteTodo(id: int)
      modifies this
      ensures todos == Todos.DeleteTodo(old(todos), id)
      ensures ArrayOps.IsSubsequence(todos, old(todos))
      ensures forall i :: 0 <= i < |todos| ==> todos[i].id != id
      ensures forall i :: 0 <= i < |old(todos)| && old(todos)[i].id != id ==> old(todos)[i] in todos
    {
      Todos.DeleteTodoExact(todos, id);
      todos := Todos.DeleteTodo(todos, id);
    }

    /** `clearCompleted()`. */
    method ClearCompleted()
      modifies this
      ensures todos == Todos.ClearCompleted(old(todos))
      ensures ArrayOps.IsSubsequence(todos, old(todos))
      ensures forall i :: 0 <= i < |todos| ==> !todos[i].completed
      ensures forall i :: 0 <= i < |old(todos)| && !old(todos)[i].completed ==> old(todos)[i] in todos
    {
      Todos.ClearCompletedExact(todos);
      todos := Todos.ClearCompleted(todos);
    }

    /** `clearTodo()`. */
    method ClearTodo()
      modifies this
      ensures todos == Todos.ClearTodo(old(todos))
      ensures todos == []
    {
      todos := Todos.ClearTodo(todos);
    }
  }
}
