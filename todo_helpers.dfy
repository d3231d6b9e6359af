/** The view helpers and input validators of the todo application: completion
    state of a list, todo lookup, the incomplete-first orderings, and the checks on
    list and todo names. The validators see the existing lists as a parameter
    (the application reads them from its store). */
module TodoHelpers {
  import opened Seqs
  import opened Records
  import SessionStore

  /** `todos_count`. */
  function TodosCount(list: TodoList): nat
  {
    |list.todos|
  }

  /** `open_todo_count`: how many todos of the list are not completed. */
  function OpenTodoCount(list: TodoList): (n: nat)
    ensures n <= TodosCount(list)
    ensures n == 0 <==> forall k :: 0 <= k < |list.todos| ==> list.todos[k].completed
  {
    var open := Select(TodoCompleted, false, list.todos);
    assert |open| > 0 ==> open[0] in list.todos;
    |open|
  }

  /** `complete?`: the list has todos and none of them is open. */
  function IsComplete(list: TodoList): (b: bool)
    ensures b <==> |list.todos| > 0 && forall k :: 0 <= k < |list.todos| ==> list.todos[k].completed
  {
    TodosCount(list) > 0 && OpenTodoCount(list) == 0
  }

  /** `list_classes`: the CSS class "complete" for a complete list, nil otherwise. */
  function ListClasses(list: TodoList): (r: Option<string>)
    ensures r == Some("complete") <==> IsComplete(list)
    ensures r == None <==> !IsComplete(list)
  {
    if IsComplete(list) then Some("complete") else None
  }

  /** `get_todo`: the first todo of the list with the given id, or nil. The source
      reads the list from the current request (`@list`); here it is passed in. */
  function GetTodo(list: TodoList, id: int): (r: Option<Todo>)
    ensures r == None <==> forall k :: 0 <= k < |list.todos| ==> list.todos[k].id != id
    ensures r.Some? ==> exists k :: 0 <= k < |list.todos| && list.todos[k] == r.value && r.value.id == id &&
                                    forall j :: 0 <= j < k ==> list.todos[j].id != id
  {
    match FirstMatch(HasTodoId(id), list.todos)
    case None => None
    case Some(k) => Some(list.todos[k])
  }

  /** `sorted_lists`: the lists in the order they are yielded, incomplete ones first. */
  function SortedLists(lists: seq<TodoList>): seq<TodoList>
  {
    FalseFirst(IsComplete, lists)
  }

  /** `sorted_todos`: the todos in the order they are yielded, open ones first. */
  function SortedTodos(todos: seq<Todo>): seq<Todo>
  {
    FalseFirst(TodoCompleted, todos)
  }

  lemma SortedListsIsStablePartition(lists: seq<TodoList>)
    ensures multiset(SortedLists(lists)) == multiset(lists)
    ensures forall i, j :: 0 <= i < j < |SortedLists(lists)| && IsComplete(SortedLists(lists)[i]) ==> IsComplete(SortedLists(lists)[j])
    ensures Select(IsComplete, false, SortedLists(lists)) == Select(IsComplete, false, lists)
    ensures Select(IsComplete, true, SortedLists(lists)) == Select(IsComplete, true, lists)
  {
    StablePartition(IsComplete, lists);
  }

  lemma SortedTodosIsStablePartition(todos: seq<Todo>)
    ensures multiset(SortedTodos(todos)) == multiset(todos)
    ensures forall i, j :: 0 <= i < j < |SortedTodos(todos)| && SortedTodos(todos)[i].completed ==> SortedTodos(todos)[j].completed
    ensures Select(TodoCompleted, false, SortedTodos(todos)) == Select(TodoCompleted, false, todos)
    ensures Select(TodoCompleted, true, SortedTodos(todos)) == Select(TodoCompleted, true, todos)
  {
    StablePartition(TodoCompleted, todos);
    var r := SortedTodos(todos);
    assert forall k :: 0 <= k < |r| ==> TodoCompleted(r[k]) == r[k].completed;
  }

  /** The positions of the todos that are not completed. */
  ghost function OpenPositions(todos: seq<Todo>): set<int>
  {
    set k | 0 <= k < |todos| && !todos[k].completed
  }

  /** The open-todo count is the number of positions holding an open todo. */
  lemma OpenTodoCountIsNumberOfOpenTodos(list: TodoList)
    ensures OpenTodoCount(list) == |OpenPositions(list.todos)|
  {
    OpenTodosCounted(list.todos);
  }

  lemma {:induction false} OpenTodosCounted(todos: seq<Todo>)
    ensures |Select(TodoCompleted, false, todos)| == |OpenPositions(todos)|
    decreases |todos|
  {
    if todos != [] {
      var n := |todos| - 1;
      var front := todos[..n];
      OpenTodosCounted(front);
      assert todos == front + [todos[n]];
      SelectConcat(TodoCompleted, false, front, [todos[n]]);
      OpenPositionsOfExtension(todos);
    }
  }

  lemma OpenPositionsOfExtension(todos: seq<Todo>)
    requires todos != []
    ensures var n := |todos| - 1;
            OpenPositions(todos) == OpenPositions(todos[..n]) + (if todos[n].completed then {} else {n})
    ensures |todos| - 1 !in OpenPositions(todos[..|todos| - 1])
  {
  }

  /** After `complete_all_todos` a list is complete exactly when it has todos. */
  lemma CompleteAllMakesListComplete(list: TodoList)
    ensures IsComplete(list.(todos := SessionStore.MarkAllCompleted(list.todos))) <==> |list.todos| > 0
  {
  }

  const LIST_NAME_LENGTH_ERROR := "List name must have from 1 to 100 characters."

  const TODO_NAME_LENGTH_ERROR := "Todo name must have from 1 to 100 characters."

  function ListNameInUseError(name: string): string
  {
    "List name \"" + name + "\" is already in use."
  }

  /** `(1..100).cover?(name.size)`. */
  predicate ValidNameLength(name: string)
  {
    1 <= |name| <= 100
  }

  /** `@storage.all_lists.any? { |list| list[:name] == name }`. */
  function NameInUse(lists: seq<TodoList>, name: string): (b: bool)
    ensures b <==> exists k :: 0 <= k < |lists| && lists[k].name == name
  {
    if lists == [] then false
    else lists[0].name == name || NameInUse(lists[1..], name)
  }

  /** `error_for_list`: the length error, else the in-use error, else nil. */
  function ErrorForList(name: string, existing: seq<TodoList>): (r: Option<string>)
    ensures r == Some(LIST_NAME_LENGTH_ERROR) <==> !(1 <= |name| <= 100)
    ensures r == Some(ListNameInUseError(name)) <==> 1 <= |name| <= 100 && exists k :: 0 <= k < |existing| && existing[k].name == name
    ensures r == None <==> 1 <= |name| <= 100 && forall k :: 0 <= k < |existing| ==> existing[k].name != name
  {
    assert LIST_NAME_LENGTH_ERROR[10] != ListNameInUseError(name)[10];
    if !ValidNameLength(name) then Some(LIST_NAME_LENGTH_ERROR)
    else if NameInUse(existing, name) then Some(ListNameInUseError(name))
    else None
  }

  /** `error_for_todo`: the length error, else nil. */
  function ErrorForTodo(name: string): (r: Option<string>)
    ensures r == None <==> 1 <= |name| <= 100
    ensures r != None ==> r == Some(TODO_NAME_LENGTH_ERROR)
  {
    if ValidNameLength(name) then None else Some(TODO_NAME_LENGTH_ERROR)
  }

  /** The length bounds are inclusive at both ends: 1 and 100 characters pass, 0 and
      101 are refused by both validators. */
  lemma NameLengthBoundaries(name: string, existing: seq<TodoList>)
    requires |name| == 0 || |name| == 101
    ensures ErrorForList(name, existing) == Some(LIST_NAME_LENGTH_ERROR)
    ensures ErrorForTodo(name) == Some(TODO_NAME_LENGTH_ERROR)
  {
  }

  /** A name of 1 or 100 characters that no existing list carries is accepted. */
  lemma FreshNameAccepted(name: string, existing: seq<TodoList>)
    requires |name| == 1 || |name| == 100
    requires forall k :: 0 <= k < |existing| ==> existing[k].name != name
    ensures ErrorForList(name, existing) == None
    ensures ErrorForTodo(name) == None
  {
  }

  /** Once a list is created under a name, the same name is refused as in use. */
  lemma CreatedNameIsInUse(lists: seq<TodoList>, name: string)
    requires 1 <= |name| <= 100
    ensures ErrorForList(name, lists + [TodoList(SessionStore.NextId(ListId, lists), name, [])]) == Some(ListNameInUseError(name))
  {
    var r := lists + [TodoList(SessionStore.NextId(ListId, lists), name, [])];
    assert r[|lists|].name == name;
  }
}
