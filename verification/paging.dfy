/**
  Properties of `get_tasks_with_pagination`: the pages of a fixed positive
  size partition the store, and a client that asks for page 1, 2, ... until
  the first `None` gets back exactly what `get_tasks` lists.
 */
module Paging {
  import opened TaskStore

  lemma PageStartNext(pageNo: nat, pageSize: nat)
    requires pageNo >= 1
    ensures PageStart(pageNo + 1, pageSize) == PageStart(pageNo, pageSize) + pageSize
  {
  }

  /** What a client collects by asking for pages `pageNo`, `pageNo + 1`, ...
      of size `pageSize` and stopping at the first `None`. With a page size
      of 0 a non-empty store never answers `None` (`ZeroPageSize`), so such a
      client would not stop; the page size here is at least 1. */
  function Collect(s: Store, pageSize: nat, pageNo: nat): seq<Task>
    requires pageSize >= 1 && pageNo >= 1
    decreases |s| - PageStart(pageNo, pageSize)
  {
    PageStartNext(pageNo, pageSize);
    match GetTasksWithPagination(s, pageNo, pageSize).reply
    case None => []
    case Some(page) => page + Collect(s, pageSize, pageNo + 1)
  }

  /** Paging from `pageNo` onwards yields the tasks from that page's start to the end. */
  lemma {:induction false} CollectFrom(s: Store, pageSize: nat, pageNo: nat)
    requires pageSize >= 1 && pageNo >= 1
    ensures Collect(s, pageSize, pageNo) == s[Min(PageStart(pageNo, pageSize), |s|)..]
    decreases |s| - PageStart(pageNo, pageSize)
  {
    var start := PageStart(pageNo, pageSize);
    PageStartNext(pageNo, pageSize);
    if start < |s| {
      var end := Min(start + pageSize, |s|);
      var page := GetTasksWithPagination(s, pageNo, pageSize).reply.value;
      assert page == s[start..end];
      CollectFrom(s, pageSize, pageNo + 1);
      assert Collect(s, pageSize, pageNo) == s[start..end] + s[end..];
      assert s[start..end] + s[end..] == s[start..];
    }
  }

  /** Concatenating pages 1, 2, ... up to the first `None` reproduces `get_tasks`. */
  lemma PagesReassemble(s: Store, pageSize: nat)
    requires pageSize >= 1
    ensures Collect(s, pageSize, 1) == GetTasks(s).reply.value
  {
    CollectFrom(s, pageSize, 1);
    assert s[0..] == s;
  }

  /** Every task lies on exactly the page its position says: the task with
      id `i + 1` is entry `i % pageSize` of page `i / pageSize + 1`. */
  lemma PageLocate(s: Store, pageSize: nat, i: nat)
    requires pageSize >= 1 && i < |s|
    ensures var page := GetTasksWithPagination(s, i / pageSize + 1, pageSize).reply;
            page.Some? && i % pageSize < |page.value| && page.value[i % pageSize] == s[i]
  {
  }

  /** With a page size of 0 every page is empty, and it exists exactly when the store is non-empty. */
  lemma ZeroPageSize(s: Store, pageNo: nat)
    requires pageNo >= 1
    ensures GetTasksWithPagination(s, pageNo, 0).reply == (if |s| > 0 then Some([]) else None)
  {
  }

  /** On an empty store even page 1 is `None`. */
  lemma EmptyStoreHasNoPages(pageNo: nat, pageSize: nat)
    requires pageNo >= 1
    ensures GetTasksWithPagination([], pageNo, pageSize).reply == None
  {
  }

  /** Four tasks added in order, then read back in windows. */
  lemma FourTaskScenario()
    ensures var t1 := Task("Task 1", "", "Todo");
            var t2 := Task("Task 2", "", "Todo");
            var t3 := Task("Task 3", "", "Todo");
            var t4 := Task("Task 4", "", "Todo");
            var s := AddTask(AddTask(AddTask(AddTask([], t1).store, t2).store, t3).store, t4).store;
            && GetTasksWithPagination(s, 1, 2).reply == Some([t1, t2])
            && GetTasksWithPagination(s, 2, 1).reply == Some([t2])
            && GetTasksWithPagination(s, 2, 2).reply == Some([t3, t4])
            && GetTasksWithPagination(s, 3, 2).reply == None
  {
    var t1 := Task("Task 1", "", "Todo");
    var t2 := Task("Task 2", "", "Todo");
    var t3 := Task("Task 3", "", "Todo");
    var t4 := Task("Task 4", "", "Todo");
    var s := AddTask(AddTask(AddTask(AddTask([], t1).store, t2).store, t3).store, t4).store;
    assert s == [t1, t2, t3, t4];
    assert s[0..2] == [t1, t2] && s[1..2] == [t2] && s[2..4] == [t3, t4];
  }
}
