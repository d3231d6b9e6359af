/** The two records the todo application stores: a list `{id, name, todos}` and a
    todo `{id, name, completed}`, with the id lookups and the well-formedness
    invariant (ids unique and non-negative among lists, and among the todos of each
    list). */
module Records {
  import opened Seqs

  datatype Todo = Todo(id: int, name: string, completed: bool)

  datatype TodoList = TodoList(id: int, name: string, todos: seq<Todo>)

  /** `item[:id]` for a list, as the key `next_id` and uniqueness are taken over. */
  function ListId(l: TodoList): int
  {
    l.id
  }

  /** `item[:id]` for a todo. */
  function TodoId(t: Todo): int
  {
    t.id
  }

  /** `todo[:completed]`, the key `sorted_todos` partitions on. */
  function TodoCompleted(t: Todo): bool
  {
    t.completed
  }

  /** The block `{ |list| list[:id] == id }`. */
  function HasListId(id: int): TodoList -> bool
  {
    (l: TodoList) => l.id == id
  }

  /** The block `{ |todo| todo[:id] == id }`. */
  function HasTodoId(id: int): Todo -> bool
  {
    (t: Todo) => t.id == id
  }

  /** List ids are pairwise distinct and non-negative, and so are the todo ids inside
      each list (`next_id` hands out 0 first and only ever goes up from an existing id). */
  ghost predicate WellFormed(lists: seq<TodoList>)
  {
    DistinctKeys(ListId, lists) && NonNegativeKeys(ListId, lists) &&
    forall i :: 0 <= i < |lists| ==> DistinctKeys(TodoId, lists[i].todos) && NonNegativeKeys(TodoId, lists[i].todos)
  }
}
