/**
  Laws relating the store's endpoints to one another: what an id returned by
  `add_task` addresses, which mutations undo which, and how the positional id
  scheme behaves across a delete.
 */
module StoreLaws {
  import Decimal
  import opened TaskStore

  /** The id `add_task` replies with addresses the task just added: changing
      its status straight away updates that task and nothing else. */
  lemma AddThenChangeStatus(s: Store, t: Task, status: string)
    ensures var added := AddTask(s, t);
            var id := Decimal.Value(added.reply);
            && id >= 1
            && ChangeTaskStatus(added.store, id, status) == Outcome(s + [t.(status := status)], Some(Ack))
  {
  }

  /** The task just added is listed last by `get_tasks`, after the earlier tasks in their old order. */
  lemma AddThenGetTasks(s: Store, t: Task)
    ensures GetTasks(AddTask(s, t).store).reply == Some(s + [t])
  {
  }

  /** Deleting the id `add_task` just returned undoes the add. */
  lemma DeleteUndoesAdd(s: Store, t: Task)
    ensures var added := AddTask(s, t);
            DeleteTodoById(added.store, Decimal.Value(added.reply)) == Outcome(s, Some(Ack))
  {
  }

  /** Setting a status back to the value it had undoes a status change. */
  lemma ChangeStatusUndo(s: Store, id: nat, status: string)
    requires 1 <= id <= |s|
    ensures ChangeTaskStatus(ChangeTaskStatus(s, id, status).store, id, s[id - 1].status).store == s
  {
  }

  /** Setting a description back to the value it had undoes a description update. */
  lemma UpdateDescriptionUndo(s: Store, id: nat, description: string)
    requires 1 <= id <= |s|
    ensures UpdateTodoDescription(UpdateTodoDescription(s, id, description).store, id, s[id - 1].description).store == s
  {
  }

  /** A status change and a description update of any two ids commute. */
  lemma StatusAndDescriptionCommute(s: Store, i: nat, status: string, j: nat, description: string)
    requires i >= 1 && j >= 1
    ensures ChangeTaskStatus(UpdateTodoDescription(s, j, description).store, i, status).store
         == UpdateTodoDescription(ChangeTaskStatus(s, i, status).store, j, description).store
  {
  }

  /** Deleting the same id twice succeeds the second time exactly when a
      later task existed: that task slid into the freed id and is the one
      the second call removes. */
  lemma DeleteTwice(s: Store, id: nat)
    requires 1 <= id <= |s|
    ensures var once := DeleteTodoById(s, id);
            var twice := DeleteTodoById(once.store, id);
            && (twice.reply.Some? <==> id < |s|)
            && (id < |s| ==> twice.store == s[..id - 1] + s[id + 1..])
  {
  }

  /** After a delete, a status change through the same id finds a task
      exactly when a later task existed, and that task is the one changed. */
  lemma DeleteThenChangeStatus(s: Store, id: nat, status: string)
    requires 1 <= id <= |s|
    ensures var deleted := DeleteTodoById(s, id).store;
            var changed := ChangeTaskStatus(deleted, id, status);
            && (changed.reply.Some? <==> id < |s|)
            && (id < |s| ==> Get(changed.store, id) == Some(s[id].(status := status)))
  {
  }

  /** After a delete, a description update through the same id finds a task
      exactly when a later task existed, and that task is the one updated. */
  lemma DeleteThenUpdateDescription(s: Store, id: nat, description: string)
    requires 1 <= id <= |s|
    ensures var deleted := DeleteTodoById(s, id).store;
            var updated := UpdateTodoDescription(deleted, id, description);
            && (updated.reply.Some? <==> id < |s|)
            && (id < |s| ==> Get(updated.store, id) == Some(s[id].(description := description)))
  {
  }

  /** Ids handed out by successive adds need not increase: after deleting any
      task, the next add hands out the same id as the add before the delete.
      With `id` the id that add returned, the freed id itself is reused. */
  lemma AddAfterDeleteRepeatsId(s: Store, t: Task, id: nat, u: Task)
    requires 1 <= id <= |s| + 1
    ensures var first := AddTask(s, t);
            var deleted := DeleteTodoById(first.store, id);
            var second := AddTask(deleted.store, u);
            second.reply == first.reply
  {
  }
}
