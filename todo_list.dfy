/**
 * The list operations of src/screens/TodoListScreen.jsx: toggling an item's
 * `completed` flag by id, the status filter, the pending and done counts
 * shown on the filter buttons, and the subject initial and priority colour
 * of each row. Every operation builds a new list; the screen's state setter
 * only replaces the whole list.
 */
module TodoList {

  /** A todo record; the display-only fields (times, day label) are left out. */
  datatype Todo = Todo(id: string, subject: string, priority: string, completed: bool, description: string)

  /** `toggleTodo(id)`: every item with that id has its flag flipped, the others are kept. */
  function ToggleTodo(todos: seq<Todo>, id: string): (r: seq<Todo>)
    ensures |r| == |todos|
    ensures forall i :: 0 <= i < |r| ==>
              r[i].id == todos[i].id && r[i].subject == todos[i].subject
              && r[i].priority == todos[i].priority && r[i].description == todos[i].description
    ensures forall i :: 0 <= i < |r| ==> (r[i].completed != todos[i].completed <==> todos[i].id == id)
  {
    seq(|todos|, i requires 0 <= i < |todos| =>
      if todos[i].id == id then todos[i].(completed := !todos[i].completed) else todos[i])
  }

  /** Toggling the same id twice gives back the original list. */
  lemma ToggleTwice(todos: seq<Todo>, id: string)
    ensures ToggleTodo(ToggleTodo(todos, id), id) == todos
  {
    var once := ToggleTodo(todos, id);
    var twice := ToggleTodo(once, id);
    forall i | 0 <= i < |todos| ensures twice[i] == todos[i] {
      assert once[i].id == todos[i].id;
    }
  }

  /** Whether the status filter `filter` keeps `t`. */
  predicate Keeps(filter: string, t: Todo) {
    if filter == "completed" then t.completed
    else if filter == "pending" then !t.completed
    else true
  }

  /** `filteredTodos`: the items the filter keeps, in list order. */
  function FilterTodos(todos: seq<Todo>, filter: string): (r: seq<Todo>)
    ensures forall t :: t in r <==> t in todos && Keeps(filter, t)
    ensures |r| <= |todos|
  {
    if todos == [] then []
    else
      var rest := FilterTodos(todos[1..], filter);
      assert forall t :: t in todos <==> t == todos[0] || t in todos[1..];
      if Keeps(filter, todos[0]) then [todos[0]] + rest else rest
  }

  /** Filtering keeps the order: the kept items of `a` come before those of `b`. */
  lemma {:induction false} FilterAppend(a: seq<Todo>, b: seq<Todo>, filter: string)
    ensures FilterTodos(a + b, filter) == FilterTodos(a, filter) + FilterTodos(b, filter)
  {
    if a == [] {
      assert a + b == b;
    } else {
      var ab := a + b;
      assert ab[0] == a[0] && ab[1..] == a[1..] + b;
      FilterAppend(a[1..], b, filter);
      var rest := FilterTodos(a[1..], filter) + FilterTodos(b, filter);
      assert FilterTodos(ab, filter) == (if Keeps(filter, a[0]) then [a[0]] + rest else rest);
      assert FilterTodos(a, filter) + FilterTodos(b, filter)
          == (if Keeps(filter, a[0]) then [a[0]] + rest else rest);
    }
  }

  /** The "all" filter, and any other unknown one, keeps the whole list. */
  lemma {:induction false} FilterKeepsAll(todos: seq<Todo>, filter: string)
    requires filter != "completed" && filter != "pending"
    ensures FilterTodos(todos, filter) == todos
  {
    if todos != [] {
      FilterKeepsAll(todos[1..], filter);
    }
  }

  /** The pending count and the done count add up to the number of items. */
  lemma {:induction false} PendingPlusDone(todos: seq<Todo>)
    ensures |FilterTodos(todos, "pending")| + |FilterTodos(todos, "completed")| == |todos|
  {
    if todos != [] {
      PendingPlusDone(todos[1..]);
    }
  }

  /** The letter the ASCII upper-case mapping gives; other characters are kept. */
  function UpperCase(c: char): (u: char)
    ensures 'a' <= c <= 'z' ==> u as int == c as int - 32 && 'A' <= u <= 'Z'
    ensures !('a' <= c <= 'z') ==> u == c
  {
    if 'a' <= c <= 'z' then (c as int - 32) as char else c
  }

  /** `getSubjectInitial(subject)`: the first character upper-cased, or "" for an empty subject. */
  function GetSubjectInitial(subject: string): (r: string)
    ensures |r| <= 1 && (r == [] <==> subject == [])
    ensures r != [] ==> r[0] == UpperCase(subject[0])
  {
    if subject == [] then [] else [UpperCase(subject[0])]
  }

  /** The initial of an initial is itself: it is already upper case. */
  lemma InitialIdempotent(subject: string)
    ensures GetSubjectInitial(GetSubjectInitial(subject)) == GetSubjectInitial(subject)
    ensures subject != [] && 'a' <= subject[0] <= 'z' ==> 'A' <= GetSubjectInitial(subject)[0] <= 'Z'
  {
  }

  /** `getPriorityColor(priority)`. */
  function GetPriorityColor(priority: string): (color: string)
    ensures priority == "high" ==> color == "#EF4444"
    ensures priority == "medium" ==> color == "#F59E0B"
    ensures priority == "low" ==> color == "#10B981"
    ensures priority != "high" && priority != "medium" && priority != "low" ==> color == "#6B7280"
  {
    match priority
    case "high" => "#EF4444"
    case "medium" => "#F59E0B"
    case "low" => "#10B981"
    case _ => "#6B7280"
  }

  /** The four colours are distinct, so a row's colour tells its priority class. */
  lemma PriorityColorsDistinct(p: string, q: string)
    requires GetPriorityColor(p) == GetPriorityColor(q)
    ensures p == q || (p != "high" && p != "medium" && p != "low" && q != "high" && q != "medium" && q != "low")
  {
    assert "#EF4444" != "#F59E0B" && "#EF4444" != "#10B981" && "#F59E0B" != "#10B981";
    assert "#6B7280" != "#EF4444" && "#6B7280" != "#F59E0B" && "#6B7280" != "#10B981";
  }
}
