/**
 * The to-do list: an ordered list of records `{id, text, completed}` with
 * the newest first, the three display filters, and the operations that
 * add, delete, update and clear records. Rendering and storage are outside
 * the model.
 */
module TodoList {
  import opened Wrappers

  datatype TodoItem = TodoItem(id: int, text: string, completed: bool)

  /** The display filter: 'all', 'active' or 'completed'. */
  datatype Filter = All | Active | Completed

  /** The largest id `getRandomInt(1, 999999)` can return. */
  const MAX_ID := 999999

  /** Whether `renderRows` draws `t` under `filter`. */
  predicate Shows(filter: Filter, t: TodoItem): (shown: bool)
    ensures filter == All ==> shown
    ensures filter != All ==> (shown <==> (filter == Completed) == t.completed)
  {
    match filter
    case All => true
    case Active => !t.completed
    case Completed => t.completed
  }

  /** `Array.prototype.filter`: the elements that pass `keep`, in their order. */
  function Select(ts: seq<TodoItem>, keep: TodoItem -> bool): (r: seq<TodoItem>)
    ensures |r| <= |ts|
    ensures forall t :: t in r <==> t in ts && keep(t)
  {
    if ts == [] then []
    else
      assert forall t :: t in ts <==> t == ts[0] || t in ts[1..];
      (if keep(ts[0]) then [ts[0]] else []) + Select(ts[1..], keep)
  }

  /** Each element that passes is kept as often as it occurs; the others are dropped. */
  lemma {:induction false} SelectMultiplicity(ts: seq<TodoItem>, keep: TodoItem -> bool)
    ensures forall t :: multiset(Select(ts, keep))[t] == if keep(t) then multiset(ts)[t] else 0
  {
    if ts != [] {
      SelectMultiplicity(ts[1..], keep);
      assert ts == [ts[0]] + ts[1..];
    }
  }

  /** Filtering distributes over concatenation: the relative order of kept elements is preserved. */
  lemma {:induction false} SelectAppend(a: seq<TodoItem>, b: seq<TodoItem>, keep: TodoItem -> bool)
    ensures Select(a + b, keep) == Select(a, keep) + Select(b, keep)
  {
    if a != [] {
      var head := if keep(a[0]) then [a[0]] else [];
      assert (a + b)[0] == a[0] && (a + b)[1..] == a[1..] + b;
      assert Select(a + b, keep) == head + Select(a[1..] + b, keep);
      SelectAppend(a[1..], b, keep);
      assert Select(a, keep) == head + Select(a[1..], keep);
    } else {
      assert a + b == b;
    }
  }

  /** Filtering twice with the same test is filtering once. */
  lemma {:induction false} SelectIdempotent(ts: seq<TodoItem>, keep: TodoItem -> bool)
    ensures Select(Select(ts, keep), keep) == Select(ts, keep)
  {
    if ts != [] {
      var rest := Select(ts[1..], keep);
      SelectIdempotent(ts[1..], keep);
      if keep(ts[0]) {
        assert Select(ts, keep) == [ts[0]] + rest;
        SelectAppend([ts[0]], rest, keep);
        assert [ts[0]][1..] == [];
        assert Select([ts[0]], keep) == [ts[0]] + Select([], keep);
      } else {
        assert Select(ts, keep) == [] + rest;
        assert [] + rest == rest;
      }
    }
  }

  /** Filtering depends only on what the test says about each element. */
  lemma {:induction false} SelectAgrees(ts: seq<TodoItem>, f: TodoItem -> bool, g: TodoItem -> bool)
    requires forall t :: t in ts ==> f(t) == g(t)
    ensures Select(ts, f) == Select(ts, g)
  {
    if ts != [] {
      SelectAgrees(ts[1..], f, g);
    }
  }

  /** A filter that every element passes returns the list unchanged. */
  lemma {:induction false} SelectKeepsAll(ts: seq<TodoItem>, keep: TodoItem -> bool)
    requires forall t :: t in ts ==> keep(t)
    ensures Select(ts, keep) == ts
  {
    if ts != [] {
      SelectKeepsAll(ts[1..], keep);
    }
  }

  function IdIsNot(id: int): TodoItem -> bool
  {
    (t: TodoItem) => t.id != id
  }

  function NotCompleted(): TodoItem -> bool
  {
    (t: TodoItem) => !t.completed
  }

  /** The rows `renderRows` draws under `filter`, in list order. */
  function Visible(ts: seq<TodoItem>, filter: Filter): (r: seq<TodoItem>)
    ensures |r| <= |ts|
    ensures forall t :: t in r <==> t in ts && Shows(filter, t)
  {
    Select(ts, t => Shows(filter, t))
  }

  /** 'all' draws every todo. */
  lemma VisibleAll(ts: seq<TodoItem>)
    ensures Visible(ts, All) == ts
  {
    SelectKeepsAll(ts, t => Shows(All, t));
  }

  /** 'active' draws exactly the todos that are not completed. */
  lemma VisibleActive(ts: seq<TodoItem>)
    ensures Visible(ts, Active) == Select(ts, NotCompleted())
  {
    SelectAgrees(ts, t => Shows(Active, t), NotCompleted());
  }

  /** Every todo is drawn under exactly one of 'active' and 'completed'. */
  lemma {:induction false} ActiveAndCompletedPartition(ts: seq<TodoItem>)
    ensures |Visible(ts, Active)| + |Visible(ts, Completed)| == |ts|
    ensures forall t :: t in ts ==> (t in Visible(ts, Active) <==> t !in Visible(ts, Completed))
  {
    if ts != [] {
      ActiveAndCompletedPartition(ts[1..]);
    }
  }

  /** Deleting the id just added, when no other todo has it, undoes the addition. */
  lemma DeleteUndoesAdd(ts: seq<TodoItem>, id: int, text: string)
    requires forall t :: t in ts ==> t.id != id
    ensures Select([TodoItem(id, text, false)] + ts, IdIsNot(id)) == ts
  {
    SelectAppend([TodoItem(id, text, false)], ts, IdIsNot(id));
    SelectKeepsAll(ts, IdIsNot(id));
    assert [TodoItem(id, text, false)][1..] == [];
  }

  /** After clearing the completed todos, the 'completed' view is empty and 'active' shows them all. */
  lemma ClearedShowsNoCompleted(ts: seq<TodoItem>)
    ensures Visible(Select(ts, NotCompleted()), Completed) == []
    ensures Visible(Select(ts, NotCompleted()), Active) == Select(ts, NotCompleted())
  {
    var kept := Select(ts, NotCompleted());
    ActiveAndCompletedPartition(kept);
    VisibleActive(kept);
    SelectIdempotent(ts, NotCompleted());
  }

  /** `Array.prototype.find` by id, as an index: the first todo with that id. */
  function FindIndex(ts: seq<TodoItem>, id: int): (r: Option<nat>)
    ensures r.Some? ==> r.value < |ts| && ts[r.value].id == id
    ensures r.Some? ==> forall j :: 0 <= j < r.value ==> ts[j].id != id
    ensures r.None? <==> forall j :: 0 <= j < |ts| ==> ts[j].id != id
  {
    if ts == [] then None
    else if ts[0].id == id then Some(0)
    else
      match FindIndex(ts[1..], id)
      case None => None
      case Some(k) => Some(k + 1)
  }

  /** Why `setDataById` throws: `Object.assign` on `undefined`. */
  datatype TodoError = NoTodoWithId(id: int)

  class Todo {
    var todos: seq<TodoItem>
    var filter: Filter

    /** The stored list, or an empty one when nothing is stored; filter 'all'. */
    constructor (stored: Option<seq<TodoItem>>)
      ensures todos == (if stored.Some? then stored.value else [])
      ensures filter == All
    {
      todos := if stored.Some? then stored.value else [];
      filter := All;
    }

    /** `addTodo`: the new, not completed todo goes first; `id` is the random id drawn. */
    method AddTodo(text: string, id: int)
      requires 1 <= id <= MAX_ID
      modifies this`todos
      ensures todos == [TodoItem(id, text, false)] + old(todos)
    {
      todos := [TodoItem(id, text, false)] + todos;
    }

    /** `_handleFormSubmit`: an empty input adds nothing. */
    method HandleFormSubmit(value: string, id: int)
      requires 1 <= id <= MAX_ID
      modifies this`todos
      ensures value == "" ==> todos == old(todos)
      ensures value != "" ==> todos == [TodoItem(id, value, false)] + old(todos)
    {
      if value == "" {
        return;
      }
      AddTodo(value, id);
    }

    /** `deleteRowById`: drop every todo with that id, keep the rest in order. */
    method DeleteRowById(id: int)
      modifies this`todos
      ensures todos == Select(old(todos), IdIsNot(id))
      ensures forall t :: t in todos <==> t in old(todos) && t.id != id
    {
      todos := Select(todos, IdIsNot(id));
    }

    /**
     * `setDataById(id, {completed: completed})`: set `completed` on the first
     * todo with that id. With no such todo the source throws, and nothing changes.
     */
    method SetDataById(id: int, completed: bool) returns (r: Outcome<TodoError>)
      modifies this`todos
      ensures r.Fail? <==> forall j :: 0 <= j < |old(todos)| ==> old(todos)[j].id != id
      ensures r.Fail? ==> r.error == NoTodoWithId(id) && todos == old(todos)
      ensures r.Pass? ==>
        var k := FindIndex(old(todos), id).value;
        todos == old(todos)[k := old(todos)[k].(completed := completed)]
    {
      var found := FindIndex(todos, id);
      if found.None? {
        return Fail(NoTodoWithId(id));
      }
      var k := found.value;
      todos := todos[k := todos[k].(completed := completed)];
      return Pass;
    }

    /** `_handleButtonClearCompletedClick`: keep the todos that are not completed. */
    method ClearCompleted()
      modifies this`todos
      ensures todos == Select(old(todos), NotCompleted())
      ensures todos == Visible(old(todos), Active)
    {
      todos := Select(todos, NotCompleted());
      VisibleActive(old(todos));
    }

    /** The three filter buttons: choose what `renderRows` draws. */
    method SetFilter(mode: Filter)
      modifies this`filter
      ensures filter == mode
    {
      filter := mode;
    }
  }
}
