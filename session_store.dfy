/** The session-backed store (`SessionPersistence`): an ordered collection of todo
    lists kept in the caller's session, changed in place by each operation. */
module SessionStore {
  import opened Seqs
  import opened Records

  /** The largest key among items (`items.map { |item| item[:id] }.max`). */
  function MaxKey<T>(key: T -> int, items: seq<T>): (m: int)
    requires items != []
    ensures forall i :: 0 <= i < |items| ==> key(items[i]) <= m
    ensures exists i :: 0 <= i < |items| && key(items[i]) == m
    decreases |items|
  {
    if |items| == 1 then key(items[0])
    else
      var rest := MaxKey(key, items[1..]);
      if key(items[0]) > rest then key(items[0]) else rest
  }

  /** `next_id`: one past the largest id among items, or 0 when there are none. */
  function NextId<T>(key: T -> int, items: seq<T>): (r: int)
    ensures forall i :: 0 <= i < |items| ==> key(items[i]) < r
    ensures items == [] ==> r == 0
    ensures items != [] ==> exists i :: 0 <= i < |items| && key(items[i]) == r - 1
  {
    if items == [] then 0 else MaxKey(key, items) + 1
  }

  /** The todos of a list after `complete_all_todos` has set every `completed` flag. */
  function MarkAllCompleted(todos: seq<Todo>): (r: seq<Todo>)
    ensures |r| == |todos|
    ensures forall k :: 0 <= k < |r| ==> r[k].id == todos[k].id && r[k].name == todos[k].name && r[k].completed
  {
    if todos == [] then [] else [todos[0].(completed := true)] + MarkAllCompleted(todos[1..])
  }

  /** How an operation ended. The source dereferences the result of a failed lookup
      (`nil[:name] = ...`) and so raises before changing anything; here that is a
      ListMissing or TodoMissing outcome with the collection unchanged. */
  datatype Outcome = Done | ListMissing | TodoMissing

  class SessionPersistence {
    /** `@session[:lists]`: the lists, in creation order. */
    var lists: seq<TodoList>

    ghost predicate Valid()
      reads this
    {
      WellFormed(lists)
    }

    /** `initialize`: keep the collection already in the session, or start an empty one. */
    constructor (stored: Option<seq<TodoList>>)
      ensures lists == (if stored.Some? then stored.value else [])
      ensures stored.None? ==> Valid()
    {
      lists := if stored.Some? then stored.value else [];
    }

    method AllLists() returns (r: seq<TodoList>)
      ensures r == lists
    {
      r := lists;
    }

    method CreateList(name: string)
      modifies this
      ensures lists == old(lists) + [TodoList(NextId(ListId, old(lists)), name, [])]
      ensures old(Valid()) ==> Valid()
    {
      if Valid() {
        CreateListKeepsWellFormed(lists, name);
      }
      var id := NextId(ListId, lists);
      lists := lists + [TodoList(id, name, [])];
    }

    method DeleteList(id: int)
      modifies this
      ensures lists == Select(HasListId(id), false, old(lists))
      ensures old(Valid()) ==> Valid()
    {
      if Valid() {
        DeleteListKeepsWellFormed(lists, id);
      }
      lists := DeleteIf(HasListId(id), lists);
    }

    method FindList(id: int) returns (r: Option<TodoList>)
      ensures r.None? <==> forall i :: 0 <= i < |lists| ==> lists[i].id != id
      ensures r.Some? ==> exists i :: 0 <= i < |lists| && lists[i] == r.value && r.value.id == id &&
                                      forall j :: 0 <= j < i ==> lists[j].id != id
    {
      var found := FindIndex(HasListId(id), lists);
      match found
      case None =>
        r := None;
      case Some(i) =>
        r := Some(lists[i]);
    }

    method UpdateList(id: int, newName: string) returns (r: Outcome)
      modifies this
      ensures match FirstMatch(HasListId(id), old(lists))
        case None => r == ListMissing && lists == old(lists)
        case Some(i) => r == Done && lists == old(lists)[i := old(lists)[i].(name := newName)]
      ensures old(Valid()) ==> Valid()
    {
      var found := FindIndex(HasListId(id), lists);
      match found
      case None =>
        r := ListMissing;
      case Some(i) =>
        if Valid() {
          ReplaceListKeepsWellFormed(lists, i, lists[i].(name := newName));
        }
        lists := lists[i := lists[i].(name := newName)];
        r := Done;
    }

    method CreateTodo(listId: int, name: string) returns (r: Outcome)
      modifies this
      ensures match FirstMatch(HasListId(listId), old(lists))
        case None => r == ListMissing && lists == old(lists)
        case Some(i) =>
          var todos := old(lists)[i].todos;
          r == Done && lists == old(lists)[i := old(lists)[i].(todos := todos + [Todo(NextId(TodoId, todos), name, false)])]
      ensures old(Valid()) ==> Valid()
    {
      var found := FindIndex(HasListId(listId), lists);
      match found
      case None =>
        r := ListMissing;
      case Some(i) =>
        if Valid() {
          CreateTodoKeepsWellFormed(lists, i, name);
        }
        var todos := lists[i].todos;
        var id := NextId(TodoId, todos);
        lists := lists[i := lists[i].(todos := todos + [Todo(id, name, false)])];
        r := Done;
    }

    method DeleteTodo(listId: int, todoId: int) returns (r: Outcome)
      modifies this
      ensures match FirstMatch(HasListId(listId), old(lists))
        case None => r == ListMissing && lists == old(lists)
        case Some(i) =>
          r == Done && lists == old(lists)[i := old(lists)[i].(todos := Select(HasTodoId(todoId), false, old(lists)[i].todos))]
      ensures old(Valid()) ==> Valid()
    {
      var found := FindIndex(HasListId(listId), lists);
      match found
      case None =>
        r := ListMissing;
      case Some(i) =>
        if Valid() {
          DeleteTodoKeepsWellFormed(lists, i, todoId);
        }
        var kept := DeleteIf(HasTodoId(todoId), lists[i].todos);
        lists := lists[i := lists[i].(todos := kept)];
        r := Done;
    }

    method UpdateTodoStatus(listId: int, todoId: int, newStatus: bool) returns (r: Outcome)
      modifies this
      ensures match FirstMatch(HasListId(listId), old(lists))
        case None => r == ListMissing && lists == old(lists)
        case Some(i) =>
          var todos := old(lists)[i].todos;
          match FirstMatch(HasTodoId(todoId), todos)
          case None => r == TodoMissing && lists == old(lists)
          case Some(j) =>
            r == Done && lists == old(lists)[i := old(lists)[i].(todos := todos[j := todos[j].(completed := newStatus)])]
      ensures old(Valid()) ==> Valid()
    {
      var found := FindIndex(HasListId(listId), lists);
      match found
      case None =>
        r := ListMissing;
      case Some(i) =>
        var todos := lists[i].todos;
        var todoFound := FindIndex(HasTodoId(todoId), todos);
        match todoFound
        case None =>
          r := TodoMissing;
        case Some(j) =>
          if Valid() {
            UpdateTodoStatusKeepsWellFormed(lists, i, j, newStatus);
          }
          lists := lists[i := lists[i].(todos := todos[j := todos[j].(completed := newStatus)])];
          r := Done;
    }

    method CompleteAllTodos(id: int) returns (r: Outcome)
      modifies this
      ensures match FirstMatch(HasListId(id), old(lists))
        case None => r == ListMissing && lists == old(lists)
        case Some(i) =>
          r == Done && lists == old(lists)[i := old(lists)[i].(todos := MarkAllCompleted(old(lists)[i].todos))]
      ensures old(Valid()) ==> Valid()
    {
      var found := FindIndex(HasListId(id), lists);
      match found
      case None =>
        r := ListMissing;
      case Some(i) =>
        var original := lists[i].todos;
        var todos := original;
        var k := 0;
        while k < |todos|
          invariant 0 <= k <= |todos| == |original|
          invariant forall m :: 0 <= m < k ==> todos[m] == original[m].(completed := true)
          invariant forall m :: k <= m < |todos| ==> todos[m] == original[m]
        {
          todos := todos[k := todos[k].(completed := true)];
          k := k + 1;
        }
        assert todos == MarkAllCompleted(original);
        if Valid() {
          CompleteAllTodosKeepsWellFormed(lists, i);
        }
        lists := lists[i := lists[i].(todos := todos)];
        r := Done;
    }
  }

  /** Replacing one list by a list with the same id and distinct todo ids keeps the
      collection well formed; every operation on one list reduces to this. */
  lemma ReplaceListKeepsWellFormed(lists: seq<TodoList>, i: nat, l: TodoList)
    requires WellFormed(lists) && i < |lists|
    requires l.id == lists[i].id && DistinctKeys(TodoId, l.todos) && NonNegativeKeys(TodoId, l.todos)
    ensures WellFormed(lists[i := l])
  {
  }

  /** `create_list` gives the new list an id above every existing one, so list ids
      stay distinct. */
  lemma CreateListKeepsWellFormed(lists: seq<TodoList>, name: string)
    requires WellFormed(lists)
    ensures WellFormed(lists + [TodoList(NextId(ListId, lists), name, [])])
  {
    AppendLargerKeyKeepsDistinct(ListId, lists, TodoList(NextId(ListId, lists), name, []));
  }

  /** `delete_list` keeps a subsequence of the lists, so ids stay distinct. */
  lemma DeleteListKeepsWellFormed(lists: seq<TodoList>, id: int)
    requires WellFormed(lists)
    ensures WellFormed(Select(HasListId(id), false, lists))
  {
    var kept := Select(HasListId(id), false, lists);
    SelectKeepsDistinctKeys(ListId, HasListId(id), false, lists);
    forall m | 0 <= m < |kept|
      ensures kept[m].id >= 0 && DistinctKeys(TodoId, kept[m].todos) && NonNegativeKeys(TodoId, kept[m].todos)
    {
      var k :| 0 <= k < |lists| && lists[k] == kept[m];
    }
  }

  lemma CreateTodoKeepsWellFormed(lists: seq<TodoList>, i: nat, name: string)
    requires WellFormed(lists) && i < |lists|
    ensures var todos := lists[i].todos;
            WellFormed(lists[i := lists[i].(todos := todos + [Todo(NextId(TodoId, todos), name, false)])])
  {
    var todos := lists[i].todos;
    var t := Todo(NextId(TodoId, todos), name, false);
    AppendLargerKeyKeepsDistinct(TodoId, todos, t);
    ReplaceListKeepsWellFormed(lists, i, lists[i].(todos := todos + [t]));
  }

  lemma DeleteTodoKeepsWellFormed(lists: seq<TodoList>, i: nat, todoId: int)
    requires WellFormed(lists) && i < |lists|
    ensures WellFormed(lists[i := lists[i].(todos := Select(HasTodoId(todoId), false, lists[i].todos))])
  {
    SelectKeepsDistinctKeys(TodoId, HasTodoId(todoId), false, lists[i].todos);
    ReplaceListKeepsWellFormed(lists, i, lists[i].(todos := Select(HasTodoId(todoId), false, lists[i].todos)));
  }

  lemma UpdateTodoStatusKeepsWellFormed(lists: seq<TodoList>, i: nat, j: nat, status: bool)
    requires WellFormed(lists) && i < |lists| && j < |lists[i].todos|
    ensures var todos := lists[i].todos;
            WellFormed(lists[i := lists[i].(todos := todos[j := todos[j].(completed := status)])])
  {
  }

  lemma CompleteAllTodosKeepsWellFormed(lists: seq<TodoList>, i: nat)
    requires WellFormed(lists) && i < |lists|
    ensures WellFormed(lists[i := lists[i].(todos := MarkAllCompleted(lists[i].todos))])
  {
  }

  /** When every todo is already completed, `complete_all_todos` changes nothing; in
      particular a second call repeats the state the first one left. */
  lemma MarkAllCompletedFixesCompleted(todos: seq<Todo>)
    requires forall k :: 0 <= k < |todos| ==> todos[k].completed
    ensures MarkAllCompleted(todos) == todos
  {
  }

  lemma MarkAllCompletedIdempotent(todos: seq<Todo>)
    ensures MarkAllCompleted(MarkAllCompleted(todos)) == MarkAllCompleted(todos)
  {
  }

  /** A second `complete_all_todos(id)` finds the same list as the first (completing
      todos does not change list ids) and leaves the collection as the first call left it. */
  lemma CompleteAllTodosTwiceIsOnce(lists: seq<TodoList>, id: int)
    requires FirstMatch(HasListId(id), lists).Some?
    ensures var i := FirstMatch(HasListId(id), lists).value;
            var once := lists[i := lists[i].(todos := MarkAllCompleted(lists[i].todos))];
            FirstMatch(HasListId(id), once) == Some(i) &&
            once[i := once[i].(todos := MarkAllCompleted(once[i].todos))] == once
  {
    var i := FirstMatch(HasListId(id), lists).value;
    var once := lists[i := lists[i].(todos := MarkAllCompleted(lists[i].todos))];
    FirstMatchSameTests(HasListId(id), lists, once);
    MarkAllCompletedIdempotent(lists[i].todos);
  }

  /** In a well-formed collection the list `find_list(id)` returns is the only one with
      that id, so `delete_list(id)` removes exactly that list and keeps the rest in order. */
  lemma FoundListIsUnique(lists: seq<TodoList>, id: int)
    requires WellFormed(lists)
    requires FirstMatch(HasListId(id), lists).Some?
    ensures var i := FirstMatch(HasListId(id), lists).value;
            (forall k :: 0 <= k < |lists| && k != i ==> lists[k].id != id) &&
            Select(HasListId(id), false, lists) == lists[..i] + lists[i + 1..] &&
            |Select(HasListId(id), false, lists)| == |lists| - 1
  {
    var p := HasListId(id);
    var i := FirstMatch(p, lists).value;
    forall k | 0 <= k < |lists| && k != i
      ensures !p(lists[k])
    {
      assert ListId(lists[k]) != ListId(lists[i]);
    }
    SelectDropsSoleMatch(p, lists, i);
  }

  /** The lists `delete_list(id)` keeps are exactly those with another id. */
  lemma KeptLists(lists: seq<TodoList>, id: int)
    ensures var kept := Select(HasListId(id), false, lists);
            (forall m :: 0 <= m < |kept| ==> exists k :: 0 <= k < |lists| && lists[k] == kept[m] && lists[k].id != id) &&
            (forall k :: 0 <= k < |lists| && lists[k].id != id ==> lists[k] in kept)
  {
    var kept := Select(HasListId(id), false, lists);
    forall k | 0 <= k < |lists| && lists[k].id != id
      ensures lists[k] in kept
    {
      assert HasListId(id)(lists[k]) == false;
    }
  }

  /** `next_id` after `delete_list(id)` never exceeds `next_id` before it. It stays the
      same exactly when the collection was empty or a list with another id carries the
      largest id; it drops only when every list with the largest id was deleted. */
  lemma DeleteListNeverRaisesNextId(lists: seq<TodoList>, id: int)
    requires WellFormed(lists)
    ensures var n := NextId(ListId, lists);
            var r := NextId(ListId, Select(HasListId(id), false, lists));
            r <= n &&
            (r == n <==> lists == [] || exists k :: 0 <= k < |lists| && lists[k].id != id && lists[k].id == n - 1)
  {
    var kept := Select(HasListId(id), false, lists);
    KeptLists(lists, id);
    if kept == [] {
      NextIdWhenNoneKept(lists, id);
    } else {
      NextIdWhenSomeKept(lists, id, kept);
    }
  }

  lemma NextIdWhenNoneKept(lists: seq<TodoList>, id: int)
    requires NonNegativeKeys(ListId, lists)
    requires forall k :: 0 <= k < |lists| ==> lists[k].id == id
    ensures lists != [] ==> NextId(ListId, lists) > 0
    ensures !exists k :: 0 <= k < |lists| && lists[k].id != id
  {
    if lists != [] {
      var k :| 0 <= k < |lists| && ListId(lists[k]) == NextId(ListId, lists) - 1;
      assert ListId(lists[k]) >= 0;
    }
  }

  lemma NextIdWhenSomeKept(lists: seq<TodoList>, id: int, kept: seq<TodoList>)
    requires kept != []
    requires forall m :: 0 <= m < |kept| ==> exists k :: 0 <= k < |lists| && lists[k] == kept[m] && lists[k].id != id
    requires forall k :: 0 <= k < |lists| && lists[k].id != id ==> lists[k] in kept
    ensures var n := NextId(ListId, lists);
            var r := NextId(ListId, kept);
            r <= n && (r == n <==> exists k :: 0 <= k < |lists| && lists[k].id != id && lists[k].id == n - 1)
  {
    var n := NextId(ListId, lists);
    var r := NextId(ListId, kept);
    var m :| 0 <= m < |kept| && ListId(kept[m]) == r - 1;
    var k0 :| 0 <= k0 < |lists| && lists[k0] == kept[m] && lists[k0].id != id;
    assert ListId(lists[k0]) < n;
    forall k | 0 <= k < |lists| && lists[k].id != id
      ensures ListId(lists[k]) < r
    {
      var j :| 0 <= j < |kept| && kept[j] == lists[k];
    }
  }

  /** The list `create_list` appends is the one `find_list` returns for its id. */
  lemma CreateListThenFind(lists: seq<TodoList>, name: string)
    ensures var id := NextId(ListId, lists);
            FirstMatch(HasListId(id), lists + [TodoList(id, name, [])]) == Some(|lists|)
  {
    var id := NextId(ListId, lists);
    assert forall j :: 0 <= j < |lists| ==> ListId(lists[j]) < id;
    FirstMatchOfAppended(HasListId(id), lists, TodoList(id, name, []));
  }

  /** The todo `create_todo` appends is the one found afterwards under its id. */
  lemma CreateTodoThenFind(todos: seq<Todo>, name: string)
    ensures var id := NextId(TodoId, todos);
            FirstMatch(HasTodoId(id), todos + [Todo(id, name, false)]) == Some(|todos|)
  {
    var id := NextId(TodoId, todos);
    assert forall j :: 0 <= j < |todos| ==> TodoId(todos[j]) < id;
    FirstMatchOfAppended(HasTodoId(id), todos, Todo(id, name, false));
  }

  /** After `delete_list(id)`, no list with that id (and so none of its todos) remains. */
  lemma DeleteListThenFind(lists: seq<TodoList>, id: int)
    ensures FirstMatch(HasListId(id), Select(HasListId(id), false, lists)) == None
  {
  }

  /** Ids are not reserved: deleting the list with the largest id hands that id to
      the next list created (lists 0 and 1, delete 1, the next id is 1 again). */
  /** While a list with a larger id remains, `delete_list(id)` does not free `id`:
      the next list created gets an id above it. */
  lemma DeletedIdNotReusedWhileLargerRemains(lists: seq<TodoList>, id: int)
    requires exists k :: 0 <= k < |lists| && lists[k].id > id
    ensures NextId(ListId, Select(HasListId(id), false, lists)) > id
  {
    var k :| 0 <= k < |lists| && lists[k].id > id;
    assert HasListId(id)(lists[k]) == false;
  }

  /** A middle id does come back once the larger ones are gone: lists 0, 1 and 2,
      delete 1 (the next id is 3), then delete 2 (the next id is 1). */
  lemma MiddleIdReusedLater()
    ensures var l1 := Select(HasListId(1), false, [TodoList(0, "a", []), TodoList(1, "b", []), TodoList(2, "c", [])]);
            var l2 := Select(HasListId(2), false, l1);
            NextId(ListId, l1) == 3 && NextId(ListId, l2) == 1
  {
  }

  lemma DeletingNewestListFreesItsId()
    ensures var lists := [TodoList(0, "a", []), TodoList(1, "b", [])];
            NextId(ListId, Select(HasListId(1), false, lists)) == 1
  {
  }
}
