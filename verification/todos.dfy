/** The to-do list of script.js: its records, the three mutators `addTodo`,
    `toggleTodo` and `deleteTodo`, and the filtered view that `renderTodos`
    draws. The pure `map`/`filter` steps are functions; the module variables
    `todos` and `currentFilter` are the fields of the class TodoStore. */
module Todos {
  import opened Seqs
  import opened Text

  /** One record `{id, text, completed}`; `id` is the clock reading taken when
      the record was added. */
  datatype Todo = Todo(id: int, text: string, completed: bool)

  /** The `data-filter` values of the three filter buttons. */
  const ALL: string := "all"
  const ACTIVE: string := "active"
  const COMPLETED: string := "completed"

  /** What the list element shows: the single "No tasks found." row, or one
      row per record. */
  datatype TodoList = NoTasksFound | Items(items: seq<Todo>)

  /** The records the store keeps when every one of them came through `addTodo`
      with a clock that moves forward: trimmed non-empty texts and ids that
      increase along the list (so no two records share an id). */
  ghost predicate ValidTodos(todos: seq<Todo>) {
    && (forall i :: 0 <= i < |todos| ==> IsTrimmed(todos[i].text))
    && (forall i, j :: 0 <= i < j < |todos| ==> todos[i].id < todos[j].id)
  }

  // ---------------------------------------------------------------- addTodo

  /** The list after submitting `input` when the clock reads `now`: unchanged
      when the trimmed input is empty, otherwise one new open record with the
      trimmed text appended at the end. */
  function Added(todos: seq<Todo>, input: string, now: int): (r: seq<Todo>)
    ensures |r| == |todos| + (if AllWhitespace(input) then 0 else 1)
    ensures r[..|todos|] == todos
    ensures |r| > |todos| ==> r[|todos|].id == now && !r[|todos|].completed
    ensures |r| > |todos| ==> r[|todos|].text == Trim(input) && IsTrimmed(r[|todos|].text)
  {
    var text := Trim(input);
    if text == [] then todos else todos + [Todo(now, text, false)]
  }

  // ------------------------------------------------------------- toggleTodo

  /** The `map` callback of `toggleTodo`. */
  function Flip(todo: Todo, id: int): Todo {
    if todo.id == id then todo.(completed := !todo.completed) else todo
  }

  /** The list after `toggleTodo(id)`: same length, order, ids and texts, with
      `completed` flipped on exactly the records whose id is `id`. */
  function Toggled(todos: seq<Todo>, id: int): (r: seq<Todo>)
    ensures |r| == |todos|
    ensures forall i :: 0 <= i < |r| ==> r[i].id == todos[i].id && r[i].text == todos[i].text
    ensures forall i :: 0 <= i < |r| ==> (r[i].completed != todos[i].completed <==> todos[i].id == id)
  {
    if todos == [] then [] else [Flip(todos[0], id)] + Toggled(todos[1..], id)
  }

  /** Toggling an id that no record carries changes nothing. */
  lemma ToggleAbsentIsNoop(todos: seq<Todo>, id: int)
    requires forall t :: t in todos ==> t.id != id
    ensures Toggled(todos, id) == todos
  {
    var r := Toggled(todos, id);
    forall i | 0 <= i < |r| ensures r[i] == todos[i] {
      assert todos[i] in todos;
    }
  }

  /** Toggling the same id twice restores the list. */
  lemma {:induction false} ToggleTwiceRestores(todos: seq<Todo>, id: int)
    ensures Toggled(Toggled(todos, id), id) == todos
  {
    if todos != [] {
      ToggleTwiceRestores(todos[1..], id);
      assert Toggled(todos, id)[1..] == Toggled(todos[1..], id);
    }
  }

  /** When ids are unique (as in a valid list), toggling the id of record `k`
      flips that record and only that one. */
  lemma ToggleFlipsOne(todos: seq<Todo>, k: nat)
    requires ValidTodos(todos) && k < |todos|
    ensures Toggled(todos, todos[k].id) == todos[k := todos[k].(completed := !todos[k].completed)]
  {
    var r := Toggled(todos, todos[k].id);
    var expected := todos[k := todos[k].(completed := !todos[k].completed)];
    forall i | 0 <= i < |todos| ensures r[i] == expected[i] {
      if i < k {
        assert todos[i].id < todos[k].id;
      } else if k < i {
        assert todos[k].id < todos[i].id;
      }
    }
  }

  /** Toggling keeps a valid list valid. */
  lemma ToggleKeepsValid(todos: seq<Todo>, id: int)
    requires ValidTodos(todos)
    ensures ValidTodos(Toggled(todos, id))
  {
  }

  // ------------------------------------------------------------- deleteTodo

  /** The `filter` callback of `deleteTodo`: keep the records whose id is not `id`. */
  function OtherId(id: int): Todo -> bool {
    (todo: Todo) => todo.id != id
  }

  /** The list after `deleteTodo(id)`: the records whose id is not `id`, in
      their original order; DeleteCount adds that each keeps its
      multiplicity. */
  function Deleted(todos: seq<Todo>, id: int): (r: seq<Todo>)
    ensures forall t :: t in r <==> t in todos && t.id != id
    ensures IsSubsequence(r, todos)
  {
    Filter(todos, OtherId(id))
  }

  /** Deleting keeps every other record with its multiplicity and drops every
      record with the id. */
  lemma DeleteCount(todos: seq<Todo>, id: int, t: Todo)
    ensures multiset(Deleted(todos, id))[t] == if t.id == id then 0 else multiset(todos)[t]
  {
    FilterCount(todos, OtherId(id), t);
  }

  /** Deleting the same id twice is deleting it once. */
  lemma DeleteIdempotent(todos: seq<Todo>, id: int)
    ensures Deleted(Deleted(todos, id), id) == Deleted(todos, id)
  {
    FilterIdempotent(todos, OtherId(id));
  }

  /** After `deleteTodo(id)`, `toggleTodo(id)` has nothing left to flip. */
  lemma ToggleAfterDeleteIsNoop(todos: seq<Todo>, id: int)
    ensures Toggled(Deleted(todos, id), id) == Deleted(todos, id)
  {
    ToggleAbsentIsNoop(Deleted(todos, id), id);
  }

  /** Deleting an id that no record carries changes nothing. */
  lemma DeleteAbsentIsNoop(todos: seq<Todo>, id: int)
    requires forall t :: t in todos ==> t.id != id
    ensures Deleted(todos, id) == todos
  {
    FilterKeepsAll(todos, OtherId(id));
    assert forall k :: 0 <= k < |todos| ==> todos[k] in todos;
  }

  /** When ids are unique, deleting the id of record `k` removes exactly that
      record. */
  lemma DeleteRemovesOne(todos: seq<Todo>, k: nat)
    requires ValidTodos(todos) && k < |todos|
    ensures Deleted(todos, todos[k].id) == todos[..k] + todos[k + 1..]
  {
    var id := todos[k].id;
    forall i | 0 <= i < |todos| && i != k ensures OtherId(id)(todos[i]) {
      if i < k { assert todos[i].id < id; } else { assert id < todos[i].id; }
    }
    FilterDropsOne(todos, OtherId(id), k);
  }

  /** Deleting keeps a valid list valid. */
  lemma DeleteKeepsValid(todos: seq<Todo>, id: int)
    requires ValidTodos(todos)
    ensures ValidTodos(Deleted(todos, id))
  {
    var r := Deleted(todos, id);
    FilterKeepsOrdered(todos, OtherId(id), (a: Todo, b: Todo) => a.id < b.id);
    forall i | 0 <= i < |r| ensures IsTrimmed(r[i].text) {
      assert r[i] in todos;
    }
  }

  /** Adding at a clock reading later than every stored id keeps a valid list
      valid. */
  lemma AddKeepsValid(todos: seq<Todo>, input: string, now: int)
    requires ValidTodos(todos)
    requires forall t :: t in todos ==> t.id < now
    ensures ValidTodos(Added(todos, input, now))
  {
    var r := Added(todos, input, now);
    forall i, j | 0 <= i < j < |r| ensures r[i].id < r[j].id {
      assert r[i] == todos[i];
      if j < |todos| { assert r[j] == todos[j]; } else { assert todos[i] in todos; }
    }
    forall i | 0 <= i < |r| ensures IsTrimmed(r[i].text) {
      if i < |todos| { assert r[i] == todos[i]; }
    }
  }

  /** Deleting the id of a record just added, at a clock reading no stored
      record carries, gives back the list from before the add. */
  lemma DeleteUndoesAdd(todos: seq<Todo>, input: string, now: int)
    requires forall t :: t in todos ==> t.id != now
    ensures Deleted(Added(todos, input, now), now) == todos
  {
    DeleteAbsentIsNoop(todos, now);
    if !AllWhitespace(input) {
      var added := [Todo(now, Trim(input), false)];
      assert Added(todos, input, now) == todos + added;
      FilterConcat(todos, added, OtherId(now));
      assert Filter(added, OtherId(now)) == [];
    }
  }

  // -------------------------------------------------- renderTodos, selection

  predicate IsActive(todo: Todo) {
    !todo.completed
  }

  predicate IsCompleted(todo: Todo) {
    todo.completed
  }

  /** The records `renderTodos` shows for `filter`: all of them, the open
      ones, the completed ones, each time in list order; for any other filter
      value the list it builds stays empty. ViewsPartition adds the
      multiplicities of the two filtered views. */
  function SelectView(todos: seq<Todo>, filter: string): (r: seq<Todo>)
    ensures IsSubsequence(r, todos)
    ensures filter == ALL ==> r == todos
    ensures filter == ACTIVE ==> forall t :: t in r <==> t in todos && !t.completed
    ensures filter == COMPLETED ==> forall t :: t in r <==> t in todos && t.completed
    ensures filter != ALL && filter != ACTIVE && filter != COMPLETED ==> r == []
  {
    if filter == ALL then
      SubsequenceReflexive(todos);
      todos
    else if filter == ACTIVE then Filter(todos, IsActive)
    else if filter == COMPLETED then Filter(todos, IsCompleted)
    else []
  }

  /** The "active" and "completed" views split the list: every record is in
      exactly one of them, so their lengths add up to the length of the list. */
  lemma ViewsPartition(todos: seq<Todo>)
    ensures multiset(SelectView(todos, ACTIVE)) + multiset(SelectView(todos, COMPLETED)) == multiset(todos)
    ensures |SelectView(todos, ACTIVE)| + |SelectView(todos, COMPLETED)| == |todos|
    ensures forall t :: t in todos <==> t in SelectView(todos, ACTIVE) || t in SelectView(todos, COMPLETED)
    ensures forall t :: !(t in SelectView(todos, ACTIVE) && t in SelectView(todos, COMPLETED))
  {
    FilterPartition(todos, IsActive, IsCompleted);
  }

  /** `renderTodos`: the placeholder row when the selected records are none,
      otherwise those records. */
  function Rendered(todos: seq<Todo>, filter: string): (v: TodoList)
    ensures v == NoTasksFound <==> SelectView(todos, filter) == []
    ensures v.Items? ==> v.items == SelectView(todos, filter)
  {
    var shown := SelectView(todos, filter);
    if |shown| == 0 then NoTasksFound else Items(shown)
  }

  /** When the placeholder row appears, filter by filter: for "all" when the
      list is empty, for "active" when every record is completed, for
      "completed" when none is, and always for an unknown filter value. */
  lemma PlaceholderWhen(todos: seq<Todo>, filter: string)
    ensures Rendered(todos, ALL) == NoTasksFound <==> todos == []
    ensures Rendered(todos, ACTIVE) == NoTasksFound <==> forall t :: t in todos ==> t.completed
    ensures Rendered(todos, COMPLETED) == NoTasksFound <==> forall t :: t in todos ==> !t.completed
    ensures filter != ALL && filter != ACTIVE && filter != COMPLETED ==> Rendered(todos, filter) == NoTasksFound
  {
    var shownActive, shownCompleted := SelectView(todos, ACTIVE), SelectView(todos, COMPLETED);
    if shownActive != [] {
      assert shownActive[0] in shownActive;
    }
    if shownCompleted != [] {
      assert shownCompleted[0] in shownCompleted;
    }
    if !forall t :: t in todos ==> t.completed {
      var t :| t in todos && !t.completed;
      assert t in shownActive;
    }
    if !forall t :: t in todos ==> !t.completed {
      var t :| t in todos && t.completed;
      assert t in shownCompleted;
    }
  }

  /** A walk through the page: submitting "  Buy milk " stores one open record
      with the trimmed text; toggling it completes it; the "completed" filter
      then shows it and the "active" filter shows the placeholder. */
  lemma BuyMilkScenario()
    ensures Added([], "  Buy milk ", 7) == [Todo(7, "Buy milk", false)]
    ensures Toggled([Todo(7, "Buy milk", false)], 7) == [Todo(7, "Buy milk", true)]
    ensures Rendered([Todo(7, "Buy milk", true)], COMPLETED) == Items([Todo(7, "Buy milk", true)])
    ensures Rendered([Todo(7, "Buy milk", true)], ACTIVE) == NoTasksFound
  {
    BuyMilkTrimmed();
    var done := [Todo(7, "Buy milk", true)];
    assert Rendered(done, ACTIVE) == NoTasksFound by {
      assert done[0] in done;
      PlaceholderWhen(done, ACTIVE);
    }
  }

  lemma BuyMilkTrimmed()
    ensures Trim("  Buy milk ") == "Buy milk"
  {
    var front, middle, back := "  ", "Buy milk", " ";
    assert front + middle + back == "  Buy milk ";
    assert AllWhitespace(front) && AllWhitespace(back) by {
      assert IsWhitespace(' ');
    }
    assert IsTrimmed(middle) by {
      assert !IsWhitespace('B') && !IsWhitespace('k');
    }
    TrimUnique(front, middle, back);
  }

  /** The module state of the page: the record list and the current filter. */
  class TodoStore {
    var todos: seq<Todo>
    var currentFilter: string

    /** Page load: `stored` is the list read back from local storage, or the
        empty list when there is none; the filter starts at "all". */
    constructor (stored: seq<Todo>)
      ensures todos == stored && currentFilter == ALL
    {
      todos := stored;
      currentFilter := ALL;
    }

    /** `addTodo`: push a record built from the trimmed input, unless it is empty. */
    method AddTodo(input: string, now: int)
      modifies this
      ensures todos == Added(old(todos), input, now)
      ensures currentFilter == old(currentFilter)
      ensures ValidTodos(old(todos)) && (forall t :: t in old(todos) ==> t.id < now) ==> ValidTodos(todos)
    {
      var text := Trim(input);
      if text != [] {
        todos := todos + [Todo(now, text, false)];
      }
      if ValidTodos(old(todos)) && (forall t :: t in old(todos) ==> t.id < now) {
        AddKeepsValid(old(todos), input, now);
      }
    }

    /** `toggleTodo`: replace the list by its mapped copy. */
    method ToggleTodo(id: int)
      modifies this
      ensures todos == Toggled(old(todos), id)
      ensures currentFilter == old(currentFilter)
      ensures ValidTodos(old(todos)) ==> ValidTodos(todos)
    {
      todos := Toggled(todos, id);
    }

    /** `deleteTodo`: replace the list by its filtered copy. */
    method DeleteTodo(id: int)
      modifies this
      ensures todos == Deleted(old(todos), id)
      ensures currentFilter == old(currentFilter)
      ensures ValidTodos(old(todos)) ==> ValidTodos(todos)
    {
      if ValidTodos(todos) {
        DeleteKeepsValid(todos, id);
      }
      todos := Deleted(todos, id);
    }

    /** A click on a filter button stores its `data-filter` value. */
    method SelectFilter(filter: string)
      modifies this
      ensures currentFilter == filter && todos == old(todos)
    {
      currentFilter := filter;
    }

    /** `renderTodos`: what the list element shows for the current state. */
    method Render() returns (view: TodoList)
      ensures view == Rendered(todos, currentFilter)
    {
      view := Rendered(todos, currentFilter);
    }
  }
}
