/**
  The to-do canister's task store: one vector of tasks in insertion order and
  the six endpoints that act on it.

  The canister keeps the vector in a thread-local cell; here it is an explicit
  value, and every endpoint is a pure function from the store before the call
  to an `Outcome` holding the store after the call and the endpoint's reply.

  A task has no id of its own. The id the canister hands out and accepts is
  the task's 1-based position in the vector, so ids of later tasks shift down
  when a task is deleted, and an id freed at the end is handed out again by
  the next `AddTask`.
 */
module TaskStore {
  import Decimal

  datatype Option<T> = None | Some(value: T)

  /** A to-do record. `status` is free text: Todo, InProgress, Done and
      Backlog are the conventional values, but nothing checks it. */
  datatype Task = Task(title: string, description: string, status: string)

  /** The whole canister state: the tasks in insertion order. */
  type Store = seq<Task>

  /** The store after an endpoint call, with the endpoint's reply. */
  datatype Outcome<T> = Outcome(store: Store, reply: T)

  /** The reply of a mutation that found its task. */
  const Ack: string := "done."

  /** The task at position `id - 1`, if there is one. */
  function Get(s: Store, id: nat): Option<Task>
    requires id >= 1
  {
    if id <= |s| then Some(s[id - 1]) else None
  }

  /** `add_task`: push the task and answer the new length in decimal, which
      is the id of the task just added. */
  function AddTask(s: Store, t: Task): (r: Outcome<string>)
    ensures |r.store| == |s| + 1
    ensures forall id :: 1 <= id <= |s| ==> Get(r.store, id) == Get(s, id)
    ensures Get(r.store, |r.store|) == Some(t)
    ensures Decimal.IsCanonical(r.reply)
    ensures Decimal.Value(r.reply) == |r.store|
  {
    var s' := s + [t];
    Decimal.ValueOfShow(|s'|);
    Outcome(s', Decimal.Show(|s'|))
  }

  /** `get_tasks`: the whole store, listed in id order, store untouched. */
  function GetTasks(s: Store): (r: Outcome<Option<seq<Task>>>)
    ensures r.store == s
    ensures r.reply.Some?
    ensures |r.reply.value| == |s|
    ensures forall k :: 0 <= k < |r.reply.value| ==> Get(s, k + 1) == Some(r.reply.value[k])
  {
    Outcome(s, Some(s))
  }

  /** `change_task_status`: overwrite the status of the task with the given id. */
  function ChangeTaskStatus(s: Store, id: nat, status: string): (r: Outcome<Option<string>>)
    requires id >= 1
    ensures r.reply.Some? <==> id <= |s|
    ensures r.reply.Some? ==> r.reply.value == Ack
    ensures |r.store| == |s|
    ensures forall j :: 1 <= j <= |s| && j != id ==> Get(r.store, j) == Get(s, j)
    ensures id <= |s| ==>
              Get(r.store, id) == Some(Task(s[id - 1].title, s[id - 1].description, status))
    ensures id > |s| ==> r.store == s
  {
    if id <= |s| then
      Outcome(s[id - 1 := s[id - 1].(status := status)], Some(Ack))
    else
      Outcome(s, None)
  }

  /** The index of the first task on a page (`(page_no - 1) * page_size`). */
  function PageStart(pageNo: nat, pageSize: nat): nat
    requires pageNo >= 1
  {
    (pageNo - 1) * pageSize
  }

  function Min(a: int, b: int): int {
    if a <= b then a else b
  }

  /** `get_tasks_with_pagination`: the window of at most `pageSize` tasks that
      starts at `PageStart`, or `None` when that start is past the end. The
      page size is not validated: a page size of 0 gives an empty page. */
  function GetTasksWithPagination(s: Store, pageNo: nat, pageSize: nat): (r: Outcome<Option<seq<Task>>>)
    requires pageNo >= 1
    ensures r.store == s
    ensures r.reply.None? <==> PageStart(pageNo, pageSize) >= |s|
    ensures r.reply.Some? ==>
              |r.reply.value| == Min(pageSize, |s| - PageStart(pageNo, pageSize)) <= pageSize
    ensures r.reply.Some? ==>
              forall k :: 0 <= k < |r.reply.value| ==>
                Get(s, PageStart(pageNo, pageSize) + k + 1) == Some(r.reply.value[k])
  {
    var start := PageStart(pageNo, pageSize);
    var end := start + pageSize;
    if start >= |s| then
      Outcome(s, None)
    else
      Outcome(s, Some(s[start .. Min(end, |s|)]))
  }

  /** `update_todo_description`: overwrite the description of the task with the given id. */
  function UpdateTodoDescription(s: Store, id: nat, description: string): (r: Outcome<Option<string>>)
    requires id >= 1
    ensures r.reply.Some? <==> id <= |s|
    ensures r.reply.Some? ==> r.reply.value == Ack
    ensures |r.store| == |s|
    ensures forall j :: 1 <= j <= |s| && j != id ==> Get(r.store, j) == Get(s, j)
    ensures id <= |s| ==>
              Get(r.store, id) == Some(Task(s[id - 1].title, description, s[id - 1].status))
    ensures id > |s| ==> r.store == s
  {
    if id <= |s| then
      Outcome(s[id - 1 := s[id - 1].(description := description)], Some(Ack))
    else
      Outcome(s, None)
  }

  /** `delete_todo_by_id`: remove the task with the given id, shifting every
      later task one place to the left (and so its id one down). */
  function DeleteTodoById(s: Store, id: nat): (r: Outcome<Option<string>>)
    requires id >= 1
    ensures r.reply.Some? <==> id <= |s|
    ensures r.reply.Some? ==> r.reply.value == Ack
    ensures id <= |s| ==> |r.store| == |s| - 1
    ensures forall j :: 1 <= j < id && j <= |s| ==> Get(r.store, j) == Get(s, j)
    ensures id <= |s| ==> forall j :: id <= j < |s| ==> Get(r.store, j) == Get(s, j + 1)
    ensures id <= |s| ==> multiset(r.store) + multiset{s[id - 1]} == multiset(s)
    ensures id > |s| ==> r.store == s
  {
    if id <= |s| then
      assert s == s[..id - 1] + [s[id - 1]] + s[id..];
      Outcome(s[..id - 1] + s[id..], Some(Ack))
    else
      Outcome(s, None)
  }
}
