/** The in-memory todo store of the react-query demo route
    (src/routes/react-query.tsx): a module-level list of todos that the mock API
    functions read, extend, update in place and filter. */
module Todos {
  import opened Wrappers
  import opened Text

  datatype Todo = Todo(id: int, title: string, completed: bool)

  /** `mockTodos.find((t) => t.id === id)`, as a position: the first todo with that id. */
  function FindIndex(todos: seq<Todo>, id: int): (r: Option<nat>)
    ensures r.None? <==> forall i :: 0 <= i < |todos| ==> todos[i].id != id
    ensures r.Some? ==> r.value < |todos| && todos[r.value].id == id
                        && forall i :: 0 <= i < r.value ==> todos[i].id != id
  {
    if todos == [] then None
    else if todos[0].id == id then Some(0)
    else
      match FindIndex(todos[1..], id)
      case None => None
      case Some(k) => Some(k + 1)
  }

  /** The store after `todo.completed = !todo.completed` on the todo at position `i`. */
  function Toggled(todos: seq<Todo>, i: nat): (r: seq<Todo>)
    requires i < |todos|
    ensures |r| == |todos|
    ensures r[i].id == todos[i].id && r[i].title == todos[i].title && r[i].completed == !todos[i].completed
    ensures forall j :: 0 <= j < |todos| && j != i ==> r[j] == todos[j]
  {
    todos[i := todos[i].(completed := !todos[i].completed)]
  }

  /** Toggling keeps every id, so the same todo is found again, and toggling it a second
      time restores the store. */
  lemma ToggleTwiceRestores(todos: seq<Todo>, id: int)
    requires FindIndex(todos, id).Some?
    ensures var i := FindIndex(todos, id).value;
            && FindIndex(Toggled(todos, i), id) == Some(i)
            && Toggled(Toggled(todos, i), i) == todos
  {
    var i := FindIndex(todos, id).value;
    var once := Toggled(todos, i);
    assert forall j :: 0 <= j < |once| ==> once[j].id == todos[j].id;
  }

  /** `mockTodos.filter((t) => t.id !== id)` */
  function Without(todos: seq<Todo>, id: int): (r: seq<Todo>)
    ensures |r| <= |todos|
    ensures forall t :: t in r <==> t in todos && t.id != id
  {
    if todos == [] then []
    else if todos[0].id == id then Without(todos[1..], id)
    else [todos[0]] + Without(todos[1..], id)
  }

  /** Deleting works position by position: what survives keeps its relative order. */
  lemma {:induction false} WithoutConcat(a: seq<Todo>, b: seq<Todo>, id: int)
    ensures Without(a + b, id) == Without(a, id) + Without(b, id)
  {
    if a == [] {
      assert a + b == b;
    } else {
      assert (a + b)[0] == a[0] && (a + b)[1..] == a[1..] + b;
      WithoutConcat(a[1..], b, id);
    }
  }

  /** Deleting an id no todo carries changes nothing. */
  lemma {:induction false} WithoutAbsent(todos: seq<Todo>, id: int)
    requires forall t :: t in todos ==> t.id != id
    ensures Without(todos, id) == todos
  {
    if todos != [] {
      assert todos[0] in todos;
      WithoutAbsent(todos[1..], id);
      assert [todos[0]] + todos[1..] == todos;
    }
  }

  /** Deleting twice is deleting once. */
  lemma WithoutIdempotent(todos: seq<Todo>, id: int)
    ensures Without(Without(todos, id), id) == Without(todos, id)
  {
    WithoutAbsent(Without(todos, id), id);
  }

  /** The guard of `handleSubmit`: the trimmed title when it is not empty. */
  function SubmittedTitle(input: string): (r: Option<string>)
    ensures r.None? <==> forall i :: 0 <= i < |input| ==> IsWhitespace(input[i])
    ensures r.Some? ==> r.value != [] && !IsWhitespace(r.value[0]) && !IsWhitespace(r.value[|r.value| - 1])
    ensures r.Some? ==> r.value == Trim(input)
  {
    var title := Trim(input);
    if title != "" then Some(title) else None
  }

  const SeedTodos: seq<Todo> := [
    Todo(1, "Learn React Query", true),
    Todo(2, "Build awesome apps", false),
    Todo(3, "Ship to production", false)
  ]

  /** `mockTodos` and the mock API functions that act on it. */
  class Store {
    var todos: seq<Todo>

    constructor ()
      ensures todos == SeedTodos
    {
      todos := SeedTodos;
    }

    /** `getTodos`: a copy of the current list. */
    method GetTodos() returns (r: seq<Todo>)
      ensures r == todos
    {
      r := todos;
    }

    /** `createTodo`: one new, not yet completed todo at the end; `now` stands for
        `Date.now()`, so its id may repeat an existing one. */
    method CreateTodo(title: string, now: int) returns (t: Todo)
      modifies this
      ensures t == Todo(now, title, false)
      ensures todos == old(todos) + [t]
    {
      t := Todo(now, title, false);
      todos := todos + [t];
    }

    /** `toggleTodo`: flips `completed` on the first todo with that id and returns a copy
        of it; with no such todo it throws `'Todo not found'` and changes nothing. */
    method ToggleTodo(id: int) returns (r: Result<Todo, string>)
      modifies this
      ensures FindIndex(old(todos), id).None? ==> r == Failure("Todo not found") && todos == old(todos)
      ensures FindIndex(old(todos), id).Some? ==>
                var i := FindIndex(old(todos), id).value;
                todos == Toggled(old(todos), i) && r == Success(todos[i])
    {
      var found := FindIndex(todos, id);
      if found.None? {
        return Failure("Todo not found");
      }
      var i := found.value;
      todos := Toggled(todos, i);
      r := Success(todos[i]);
    }

    /** `deleteTodo`: every todo with that id is removed. */
    method DeleteTodo(id: int)
      modifies this
      ensures todos == Without(old(todos), id)
    {
      todos := Without(todos, id);
    }

    /** `handleSubmit`: creates a todo from the trimmed input, and only when that is not
        empty. */
    method HandleSubmit(input: string, now: int)
      modifies this
      ensures SubmittedTitle(input).None? ==> todos == old(todos)
      ensures SubmittedTitle(input).Some? ==> todos == old(todos) + [Todo(now, SubmittedTitle(input).value, false)]
    {
      var title := SubmittedTitle(input);
      if title.Some? {
        var _ := CreateTodo(title.value, now);
      }
    }
  }
}
