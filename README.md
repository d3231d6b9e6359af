# Todo lists: session store and list helpers

A model of the core of a small todo-list web application. The user keeps named
lists; each list holds todos that can be added, removed and marked completed.
Two pieces of plain in-memory logic are modelled:

- **The session-backed store** (`SessionPersistence`). It keeps the lists, in
  creation order, in the user's session and changes them in place. It creates,
  finds, renames and deletes lists. It adds and deletes todos, sets one todo's
  status, and completes every todo of a list. New ids are "largest existing id
  plus one, or 0 when there are none". Lists get ids over the whole collection;
  todos get ids within their own list.
- **The view helpers and validators**: whether a list is complete, how many of
  its todos are open, the incomplete-first ordering of lists and of todos,
  lookup of a todo by id, and the checks on list and todo names. A name must
  have 1 to 100 characters, and a list name must not equal (case-sensitively)
  the name of an existing list.

Files:

- `seqs.dfy` (module `Seqs`): generic stand-ins for the Ruby collection methods
  the code uses. `Select` stands for `delete_if` (the elements the block
  rejects), for `count` (the length of the elements on one side), and for each
  half of `partition`. `FirstMatch` is `find`. `FalseFirst` is `partition` with
  the "false" half emitted before the "true" half. `DeleteIf` and `FindIndex` are
  the scans, proved against those functions.
- `records.dfy` (module `Records`): the `Todo` and `TodoList` records, the id
  blocks (`HasListId`, `HasTodoId`), and the invariant `WellFormed`: list ids
  are distinct and non-negative, and so are the todo ids within each list.
- `session_store.dfy` (module `SessionStore`): `NextId`, and the class
  `SessionPersistence` whose field `lists` is the session's collection. Each
  method states the whole new collection in terms of the old one, and keeps
  `Valid()` (that is, `WellFormed`). Lemmas beside it prove that every operation
  keeps the invariant, that created items are found again under their new id,
  that a found list is the only one with its id (so deleting it removes exactly
  one list), that deleting lists never raises the next id, and that a second
  `complete_all_todos` call leaves the collection as the first one left it.
- `todo_helpers.dfy` (module `TodoHelpers`): the helpers and validators as
  functions, with the stable-partition, counting and validation properties.

A lookup that finds nothing returns nil in the source. The store's mutating
operations then index into that nil and raise before changing anything. The
model returns `ListMissing` or `TodoMissing` in that case and leaves the
collection unchanged. `delete_list` of an unknown id is not an error: it
removes nothing.

Ids are not reserved after deletion. `next_id` looks only at the lists that
exist now. Deleting lists never raises the next id. The next id stays the same
while a remaining list carries the largest id, and it drops once every list
with the largest id is deleted (`DeleteListNeverRaisesNextId`). So deleting the
newest list hands its id to the next list created
(`DeletingNewestListFreesItsId`). After a list is deleted from the middle, the
next list created gets a larger id (`DeletedIdNotReusedWhileLargerRemains`).
The deleted id comes back only once every list with a larger id has been
deleted too (`MiddleIdReusedLater`).

## Model

| member | source | states |
|---|---|---|
| `Seqs.Select` | session_persistence.rb:17 | the kept elements are exactly the input's elements whose test has the wanted value; there are no more of them than in the input |
| `Seqs.SelectIsSubsequence` | session_persistence.rb:16-18 | deletion keeps the remaining elements in their original relative order |
| `Seqs.DeleteIf` | session_persistence.rb:16-18 | the in-place scan of `delete_if` leaves exactly the elements the block rejects, in order |
| `Seqs.FirstMatch` | session_persistence.rb:21 | `find` gives the position of an element that satisfies the block with none before it, or nothing exactly when no element satisfies it |
| `Seqs.FindIndex` | session_persistence.rb:20-22 | the left-to-right scan of `find` stops at the first match, or reports none |
| `Seqs.StablePartition` | todo.rb:42-55 | partitioning and emitting the false half first gives a permutation of the input; every failing element comes before every passing one; each half keeps its input order |
| `SessionStore.MaxKey` | session_persistence.rb:50 | the maximum id is one of the ids and no id exceeds it |
| `SessionStore.NextId` | session_persistence.rb:49-51 | the new id exceeds every existing id; it is 0 for no items and otherwise exactly one past an existing id |
| `SessionStore.MarkAllCompleted` | session_persistence.rb:43-45 | the todos keep their count, order, ids and names, and all are completed |
| `SessionStore.SessionPersistence.constructor` | session_persistence.rb:2-5 | a collection already in the session is kept as it is; without one the store starts empty (and so well formed) |
| `SessionStore.SessionPersistence.AllLists` | session_persistence.rb:7-9 | returns the stored collection itself |
| `SessionStore.SessionPersistence.CreateList` | session_persistence.rb:11-14 | appends exactly one list with id `next_id`, the given name and no todos; earlier lists are unchanged; ids stay distinct |
| `SessionStore.SessionPersistence.DeleteList` | session_persistence.rb:16-18 | removes every list with the id and keeps the others in order; ids stay distinct |
| `SessionStore.SessionPersistence.FindList` | session_persistence.rb:20-22 | returns the first list with the id, or nothing exactly when no list has it |
| `SessionStore.SessionPersistence.UpdateList` | session_persistence.rb:24-26 | renames only the first list with the id, keeping its id and todos and every other list; fails without change when there is none |
| `SessionStore.SessionPersistence.CreateTodo` | session_persistence.rb:28-32 | appends to the first matching list one open todo with id one past that list's largest todo id (0 if none); other lists are unchanged; fails without change when the list is missing |
| `SessionStore.SessionPersistence.DeleteTodo` | session_persistence.rb:34-36 | removes from the first matching list exactly the todos with the id, keeping the rest in order; fails without change when the list is missing |
| `SessionStore.SessionPersistence.UpdateTodoStatus` | session_persistence.rb:38-41 | sets only the flag of the first matching todo in the first matching list; fails without change when the list or the todo is missing |
| `SessionStore.SessionPersistence.CompleteAllTodos` | session_persistence.rb:43-45 | marks every todo of the first matching list completed, with the same ids and names, and changes nothing else; fails without change when the list is missing |
| `SessionStore.ReplaceListKeepsWellFormed` | session_persistence.rb:24-26 | replacing one list by one with the same id and distinct todo ids keeps all ids distinct |
| `SessionStore.CreateListKeepsWellFormed` | session_persistence.rb:11-14 | creating a list keeps list ids pairwise distinct and non-negative |
| `SessionStore.DeleteListKeepsWellFormed` | session_persistence.rb:16-18 | deleting lists keeps list and todo ids distinct |
| `SessionStore.CreateTodoKeepsWellFormed` | session_persistence.rb:28-32 | creating a todo keeps the todo ids of that list distinct and non-negative |
| `SessionStore.DeleteTodoKeepsWellFormed` | session_persistence.rb:34-36 | deleting todos keeps ids distinct |
| `SessionStore.UpdateTodoStatusKeepsWellFormed` | session_persistence.rb:38-41 | changing a status keeps ids distinct |
| `SessionStore.CompleteAllTodosKeepsWellFormed` | session_persistence.rb:43-45 | completing all todos keeps ids distinct |
| `SessionStore.MarkAllCompletedFixesCompleted` | session_persistence.rb:43-45 | on a list whose todos are all completed, completing all changes nothing |
| `SessionStore.MarkAllCompletedIdempotent` | session_persistence.rb:43-45 | completing all todos twice gives the same todos as once |
| `SessionStore.CompleteAllTodosTwiceIsOnce` | session_persistence.rb:43-45 | a second `complete_all_todos` with the same id finds the same list and leaves the whole collection as the first call left it |
| `SessionStore.FoundListIsUnique` | session_persistence.rb:16-22 | in a well-formed collection the list `find_list` returns is the only one with its id, and `delete_list` of that id removes exactly it, keeping the rest in order |
| `SessionStore.KeptLists` | session_persistence.rb:16-18 | the lists `delete_list` keeps are exactly those whose id differs |
| `SessionStore.DeleteListNeverRaisesNextId` | session_persistence.rb:49-51 | after `delete_list` the next list id is at most what it was; it is unchanged exactly when there were no lists or a list with another id carries the largest id |
| `SessionStore.CreateListThenFind` | session_persistence.rb:11-22 | the list just created is the one found under its new id |
| `SessionStore.CreateTodoThenFind` | session_persistence.rb:28-32 | the todo just created is the one found under its new id |
| `SessionStore.DeleteListThenFind` | session_persistence.rb:16-22 | after deleting a list id, no list with that id is found, so its todos are gone with it |
| `SessionStore.DeletingNewestListFreesItsId` | session_persistence.rb:49-51 | with lists 0 and 1, deleting list 1 makes the next id 1 again |
| `SessionStore.DeletedIdNotReusedWhileLargerRemains` | session_persistence.rb:49-51 | while a list with a larger id remains, the next id after deleting an id is above the deleted id |
| `SessionStore.MiddleIdReusedLater` | session_persistence.rb:49-51 | with lists 0, 1 and 2, deleting 1 makes the next id 3, and then deleting 2 makes it 1, so the middle id returns |
| `TodoHelpers.OpenTodoCount` | todo.rb:38-40 | the open count is at most `todos_count`, and it is zero exactly when every todo is completed |
| `TodoHelpers.OpenTodoCountIsNumberOfOpenTodos` | todo.rb:38-40 | the open count equals the number of positions holding a todo that is not completed |
| `TodoHelpers.IsComplete` | todo.rb:26-28 | a list is complete exactly when it has at least one todo and all its todos are completed |
| `TodoHelpers.ListClasses` | todo.rb:34-36 | gives "complete" exactly for a complete list and nil otherwise |
| `TodoHelpers.GetTodo` | todo.rb:30-32 | gives the first todo with the id, or nil exactly when no todo has it (the current list, `@list` in the source, is passed in) |
| `TodoHelpers.SortedListsIsStablePartition` | todo.rb:42-48 | lists are emitted as a permutation of the input, incomplete before complete, each group in its input order |
| `TodoHelpers.SortedTodosIsStablePartition` | todo.rb:50-55 | todos are emitted as a permutation of the input, open before completed, each group in its input order |
| `TodoHelpers.CompleteAllMakesListComplete` | todo.rb:26-28 | after completing all its todos, a list is complete exactly when it has todos |
| `TodoHelpers.NameInUse` | todo.rb:66 | true exactly when some existing list has that very name |
| `TodoHelpers.ErrorForList` | todo.rb:63-69 | the length message exactly when the length is outside 1..100; the in-use message exactly when the length is fine and an existing list has the same name; nil exactly otherwise |
| `TodoHelpers.ErrorForTodo` | todo.rb:71-74 | nil exactly when the length is within 1..100, the length message otherwise |
| `TodoHelpers.NameLengthBoundaries` | todo.rb:63-74 | names of 0 and of 101 characters get the length message from both validators |
| `TodoHelpers.FreshNameAccepted` | todo.rb:63-74 | a name of 1 or 100 characters that no list carries passes both validators |
| `TodoHelpers.CreatedNameIsInUse` | todo.rb:66-67 | once a list is created under a valid name, that name is refused as in use |

## Left out

- The relational store (database_persistence.rb) is not part of this model. It
  runs SQL against tables that are not visible, the database assigns its ids,
  and its statement logging is a side effect. Its one piece of logic, reading
  the `completed` column as true exactly when it holds `'t'`, is not modelled.
- The browser script (public/javascript/application.js) is not part of this
  model: confirm dialogs, ajax calls and page edits.
- The web layer of todo.rb is not modelled: configuration, routing, session
  flash messages, redirects, templates, and opening and closing the store for
  each request. The route handlers strip surrounding white space from a name
  before validating it; the validators here take the name as given.
- `find_list` in the source returns the stored record itself, so changes made
  through it are seen by every holder of that record. The model keeps the lists
  as values in a sequence that each method replaces. It captures the resulting
  collection, not the sharing of records between callers.
- `sorted_lists` and `sorted_todos` hand each element to a block. The model
  returns the sequence of elements in the order they are handed over.
- The values that the source's mutating operations happen to return (the array
  after `<<` or `delete_if`, the assigned value) are not modelled; callers ignore
  them.
- The session's content is taken to be a sequence of well-typed list records.
  A value of another shape stored under the key is not modelled.
- Concurrent requests on one session (last write wins) and session expiry are
  outside the code's logic and are not modelled.
- `TodosCount` (todo.rb:57-59) is the number of todos of a list; it appears in
  the contract of `OpenTodoCount` and has no row of its own.
