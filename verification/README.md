# To-do canister task store, modelled in Dafny

The backend canister of `ic_todo_crud` keeps every to-do task in one
vector, `TasksStore = Vec<Task>`, and exposes six endpoints on it:
`add_task`, `get_tasks`, `change_task_status`, `get_tasks_with_pagination`,
`update_todo_description` and `delete_todo_by_id`. A `Task` is a record of
three strings: `title`, `description` and `status`.

The model treats the vector as an immutable `seq<Task>` (`TaskStore.Store`).
Each endpoint is a pure function. It takes the store before the call and
returns an `Outcome`, which holds the store after the call and the
endpoint's reply.

A task carries no id of its own. The id the canister hands out and accepts
is the task's 1-based position in the vector. `add_task` answers the new
length in decimal, and the three endpoints that take an id act on position
`id - 1`. The model keeps this scheme exactly, and its lemmas show what
follows from it:

- deleting a task shifts the id of every later task down by one;
- deleting the same id twice succeeds whenever a later task existed;
- an add after a delete hands out an id that was handed out before.

Modules:

- `Decimal` (`decimal.dfy`): the `format!("{}", n)` rendering of the id
  string, with its inverse `Value` and both round trips.
- `TaskStore` (`task_store.dfy`): the `Task` record, the store, and the six
  endpoints.
- `Paging` (`paging.dfy`): the pages of a fixed positive size partition the
  store, and reading them in order reproduces `get_tasks`.
- `StoreLaws` (`store_laws.dfy`): laws relating the endpoints to each
  other. They cover add then update, undoing an update, commuting updates,
  and how the positional ids behave across a delete.

The code's positional ids and unchecked page arguments have these
consequences:

- Ids are positions, not values of a counter. So ids are neither stable
  under deletion nor strictly increasing
  (`StoreLaws.AddAfterDeleteRepeatsId`, `StoreLaws.DeleteTwice`).
- A page size of 0 is not rejected. Every page is then empty when the store
  is non-empty and `None` when it is empty (`Paging.ZeroPageSize`). A
  client that pages until the first `None` with page size 0 on a non-empty
  store never stops, which is why `Paging.Collect` takes a page size of at
  least 1.
- Page 1 of an empty store is `None`, not an empty page
  (`Paging.EmptyStoreHasNoPages`).
- `status` is an unconstrained string.

## Model

| member | source | states |
|---|---|---|
| Decimal.Show | src/ic_todo_crud_backend/src/lib.rs:34 | the id string is a non-empty run of ASCII digits with no leading zero, and it starts with '0' exactly when the number is 0 |
| Decimal.ValueOfShow | src/ic_todo_crud_backend/src/lib.rs:34 | reading a rendered id back as a decimal number gives the number it was rendered from |
| Decimal.ShowOfValue | src/ic_todo_crud_backend/src/lib.rs:34 | every canonical digit string is the rendering of the number it denotes, so the rendering is onto the canonical strings |
| Decimal.ShowInjective | src/ic_todo_crud_backend/src/lib.rs:34 | two numbers render to the same id string if and only if they are equal |
| TaskStore.AddTask | src/ic_todo_crud_backend/src/lib.rs:27-36 | the store grows by one, every existing id still addresses the same task, the new last id addresses the added task, and the reply is the canonical decimal rendering of that id (the new length) |
| TaskStore.GetTasks | src/ic_todo_crud_backend/src/lib.rs:39-48 | the store is unchanged, and the reply lists every task, the k-th entry being the task with id k+1 |
| TaskStore.ChangeTaskStatus | src/ic_todo_crud_backend/src/lib.rs:50-65 | replies "done." if and only if the id is in range, and then only that task's status becomes the new one while its title and description stay; the length and every other id's task are unchanged; an out-of-range id replies None and leaves the store as it was |
| TaskStore.GetTasksWithPagination | src/ic_todo_crud_backend/src/lib.rs:67-82 | the store is unchanged; the reply is None exactly when (page_no-1)*page_size is at or past the end; otherwise the page holds min(page_size, remaining) tasks, at most page_size, and its k-th entry is the task with id (page_no-1)*page_size+k+1 |
| TaskStore.UpdateTodoDescription | src/ic_todo_crud_backend/src/lib.rs:85-100 | replies "done." if and only if the id is in range, and then only that task's description changes while its title and status stay; everything else is unchanged; an out-of-range id replies None and leaves the store as it was |
| TaskStore.DeleteTodoById | src/ic_todo_crud_backend/src/lib.rs:102-117 | replies "done." if and only if the id is in range; then the length drops by one, earlier ids keep their tasks, every later id drops by one, and the store loses exactly that one task as a multiset; an out-of-range id replies None and leaves the store as it was |
| Paging.CollectFrom | src/ic_todo_crud_backend/src/lib.rs:71-77 | asking for pages p, p+1, ... of a fixed positive size until the first None yields exactly the tasks from page p's start to the end of the store |
| Paging.PagesReassemble | src/ic_todo_crud_backend/src/lib.rs:68-77 | for any page size of at least 1, concatenating pages 1, 2, ... up to the first None reproduces what get_tasks lists |
| Paging.PageLocate | src/ic_todo_crud_backend/src/lib.rs:71-77 | the task with id i+1 is entry i mod page_size of page i div page_size + 1, so every task lies on the page its position says |
| Paging.ZeroPageSize | src/ic_todo_crud_backend/src/lib.rs:71-76 | with page size 0 any page is Some of an empty sequence when the store is non-empty and None when it is empty, so no argument is rejected |
| Paging.EmptyStoreHasNoPages | src/ic_todo_crud_backend/src/lib.rs:73-75 | on an empty store every page, page 1 included, is None |
| Paging.FourTaskScenario | src/ic_todo_crud_backend/src/lib.rs:68-82 | after adding Task 1 to Task 4, page (1,2) is [Task 1, Task 2], page (2,1) is [Task 2], page (2,2) is [Task 3, Task 4], and page (3,2) is None |
| StoreLaws.AddThenChangeStatus | src/ic_todo_crud_backend/src/lib.rs:28-56 | changing the status through the id add_task just returned replies "done." and updates exactly the task just added |
| StoreLaws.AddThenGetTasks | src/ic_todo_crud_backend/src/lib.rs:28-48 | after add_task, get_tasks lists the earlier tasks in their old order followed by the added task |
| StoreLaws.DeleteUndoesAdd | src/ic_todo_crud_backend/src/lib.rs:28-117 | deleting the id add_task just returned restores the store and replies "done." |
| StoreLaws.ChangeStatusUndo | src/ic_todo_crud_backend/src/lib.rs:51-65 | setting a task's status back to its old value restores the store |
| StoreLaws.UpdateDescriptionUndo | src/ic_todo_crud_backend/src/lib.rs:86-100 | setting a task's description back to its old value restores the store |
| StoreLaws.StatusAndDescriptionCommute | src/ic_todo_crud_backend/src/lib.rs:51-100 | a status change and a description update commute, for any two ids |
| StoreLaws.DeleteTwice | src/ic_todo_crud_backend/src/lib.rs:103-117 | deleting an id a second time succeeds if and only if a later task existed, and then it removes that later task |
| StoreLaws.DeleteThenChangeStatus | src/ic_todo_crud_backend/src/lib.rs:51-117 | after a delete, a status change through the same id finds a task if and only if a later task existed, and it updates that task |
| StoreLaws.DeleteThenUpdateDescription | src/ic_todo_crud_backend/src/lib.rs:86-117 | after a delete, a description update through the same id finds a task if and only if a later task existed, and it updates that task |
| StoreLaws.AddAfterDeleteRepeatsId | src/ic_todo_crud_backend/src/lib.rs:28-117 | after any delete that follows an add, the next add replies the same id string as that add, so ids are reused and need not increase |

## Left out

- Ids and page numbers of 0. The code computes `task_id as usize - 1` and `page_no as usize - 1`, which panics or wraps depending on the build. The model takes ids and page numbers as `nat` and requires them to be at least 1.
- Machine-integer behaviour. This covers the narrowing of `u128` ids and page arguments to `usize`, and overflow in `(page_no - 1) * page_size` and in `start_index + page_size`. The model uses unbounded integers.
- The `thread_local!`/`RefCell` plumbing and the `Err` arms of `try_with`. Access is single-threaded, so those arms cannot be reached. The store is an explicit value, and `get_tasks` always replies `Some`.
- The `#[query]`/`#[update]` attributes and the Candid derives. These are transport and serialisation done by the canister library.
- Checking `status` against Todo, InProgress, Done and Backlog. The code accepts any string, and so does the model.
- The frontend script `src/ic_todo_crud_frontend/src/index.js`. It only handles a DOM form and calls a `greet` method the backend does not define, so it has no store logic.
