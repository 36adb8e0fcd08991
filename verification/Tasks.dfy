/** The list of tasks: doubly linked through next and prev, with a current task. */
module Tasks {
  class Task {
    var next: Task?
    var prev: Task?

    /** A fresh task. Its links are taken to be null: task_new and task_init clear only as many
        bytes as a pointer has. */
    constructor ()
      ensures next == null && prev == null
    {
      next, prev := null, null;
    }
  }

  ghost predicate Distinct<T>(s: seq<T>) {
    forall i, j :: 0 <= i < j < |s| ==> s[i] != s[j]
  }

  ghost function Without<T>(s: seq<T>, i: nat): seq<T>
    requires i < |s|
  {
    s[..i] + s[i + 1..]
  }

  /** The member after member `i`, going round at the end. */
  function NextIndex(n: nat, i: nat): nat
    requires i < n
  {
    if i + 1 < n then i + 1 else 0
  }

  /** Member `i` links to its neighbours in the sequence. */
  ghost predicate LinksOk(tasks: seq<Task>, i: nat)
    requires i < |tasks|
    reads tasks[i]
  {
    && tasks[i].next == (if i + 1 < |tasks| then tasks[i + 1] else null)
    && tasks[i].prev == (if i > 0 then tasks[i - 1] else null)
  }

  class TaskList {
    var current: Task?
    var head: Task?
    var tail: Task?
    ghost var tasks: seq<Task>  // the members, in order

    ghost predicate Valid()
      reads this, tasks
    {
      && Distinct(tasks)
      && head == (if tasks == [] then null else tasks[0])
      && tail == (if tasks == [] then null else tasks[|tasks| - 1])
      && (forall i: nat :: i < |tasks| ==> LinksOk(tasks, i))
      && (if tasks == [] then current == null else current != null && current in tasks)
    }

    constructor ()
      ensures Valid() && tasks == []
    {
      current, head, tail, tasks := null, null, null, [];
    }

    /** The end of task_new: a fresh task goes to the end, and becomes current in an empty list. */
    method Append(task: Task)
      requires Valid() && task !in tasks && task.next == null && task.prev == null
      modifies this, task, tail
      ensures Valid() && tasks == old(tasks) + [task]
      ensures current == if old(tasks) == [] then task else old(current)
    {
      ghost var n := |tasks|;
      tasks := tasks + [task];
      if head == null {
        head, tail, current := task, task, task;
        return;
      }
      assert LinksOk(tasks[..n], n - 1);
      tail.next := task;
      task.prev := tail;
      tail := task;
      forall i: nat | i <= n ensures LinksOk(tasks, i) {
        assert i < n ==> old(LinksOk(tasks, i));
      }
    }

    /** task_get_next: the next member, going round at the end. */
    method GetNext(ghost i: nat) returns (task: Task)
      requires Valid() && i < |tasks| && current == tasks[i]
      ensures task == tasks[NextIndex(|tasks|, i)]
    {
      assert LinksOk(tasks, i);
      if current.next == null {
        return head;
      }
      return current.next;
    }

    /** The neighbours of member `i` are linked to each other; it keeps its own links. */
    method Unlink(task: Task, ghost i: nat)
      requires Valid() && i < |tasks| && tasks[i] == task
      modifies tasks
      ensures task.next == old(task.next) && task.prev == old(task.prev)
      ensures forall j: nat :: j < |tasks| - 1 ==> LinksOk(Without(tasks, i), j)
    {
      assert LinksOk(tasks, i);
      if task.prev != null {
        task.prev.next := task.next;
      }
      if task.next != null {
        task.next.prev := task.prev;
      }
      ghost var rest := Without(tasks, i);
      forall j: nat | j < |rest| ensures LinksOk(rest, j) {
        assert old(LinksOk(tasks, if j < i then j else j + 1));
      }
    }

    /** task_list_remove: takes member `i` out. When it was current, the member after it becomes
        current, or the first one when it was the last. */
    method Remove(task: Task, ghost i: nat)
      requires Valid() && i < |tasks| && tasks[i] == task
      modifies this, tasks
      ensures Valid() && tasks == Without(old(tasks), i)
      ensures current == if old(current) != task then old(current)
                         else if tasks == [] then null
                         else if i < |tasks| then tasks[i] else tasks[0]
    {
      assert LinksOk(tasks, i);
      Unlink(task, i);
      if task == head {
        head := task.next;
      }
      if task == tail {
        tail := task.prev;
      }
      if task == current {
        // task_get_next; the removed task still has its own links
        current := if current.next == null then head else current.next;
      }
      tasks := Without(tasks, i);
    }
  }

  // ---------------------------------------------------------------------------
  // Going round.
  // ---------------------------------------------------------------------------

  /** The index of the current task after `k` calls of task_get_next, each made current. */
  function AfterNext(n: nat, i: nat, k: nat): nat
    requires i < n
    ensures AfterNext(n, i, k) < n
  {
    if k == 0 then i else NextIndex(n, AfterNext(n, i, k - 1))
  }

  lemma {:induction false} AfterNextIs(n: nat, i: nat, k: nat)
    requires i < n && k <= n
    ensures AfterNext(n, i, k) == if i + k < n then i + k else i + k - n
  {
    if k > 0 {
      AfterNextIs(n, i, k - 1);
    }
  }

  /** n steps visit every one of the n members exactly once and come back to the start. */
  lemma RoundVisitsAll<T>(tasks: seq<T>, i: nat)
    requires i < |tasks|
    ensures var visited := seq(|tasks|, k requires 0 <= k => tasks[AfterNext(|tasks|, i, k)]);
            visited == tasks[i..] + tasks[..i] && multiset(visited) == multiset(tasks)
    ensures AfterNext(|tasks|, i, |tasks|) == i
  {
    var n := |tasks|;
    var visited := seq(n, k requires 0 <= k => tasks[AfterNext(n, i, k)]);
    forall k | 0 <= k < n ensures visited[k] == (tasks[i..] + tasks[..i])[k] {
      AfterNextIs(n, i, k);
    }
    AfterNextIs(n, i, n);
    assert tasks[..i] + tasks[i..] == tasks;
  }

  /** task_switch, for a member: it becomes current. */
  method Switch(list: TaskList, task: Task)
    requires list.Valid() && task in list.tasks
    modifies list`current
    ensures list.Valid() && list.current == task
  {
    list.current := task;
  }

  /** Switching to what task_get_next gives makes the next member current, going round at the end. */
  method Advance(list: TaskList, ghost i: nat)
    requires list.Valid() && i < |list.tasks| && list.current == list.tasks[i]
    modifies list`current
    ensures list.Valid() && list.current == list.tasks[NextIndex(|list.tasks|, i)]
  {
    var next := list.GetNext(i);
    Switch(list, next);
  }

  /** As many advances as there are members make every member current exactly once, in their order from
      the current one on, and come back to it. */
  method GoRound(list: TaskList, n: nat, ghost i: nat) returns (visited: seq<Task>)
    requires list.Valid() && n == |list.tasks| && i < n && list.current == list.tasks[i]
    modifies list`current
    ensures list.Valid() && list.current == old(list.current)
    ensures visited == list.tasks[i..] + list.tasks[..i] && multiset(visited) == multiset(list.tasks)
  {
    visited := [];
    ghost var tasks := list.tasks;
    for k := 0 to n
      invariant list.Valid() && list.current == tasks[AfterNext(n, i, k)] && Visited(tasks, i, k, visited)
    {
      visited := visited + [list.current];
      Advance(list, AfterNext(n, i, k));
    }
    AllVisited(tasks, i, visited);
  }

  /** The members that the first `k` steps visit. */
  ghost predicate Visited<T>(tasks: seq<T>, i: nat, k: nat, visited: seq<T>)
    requires i < |tasks|
  {
    var ok := |visited| == k && forall j :: 0 <= j < k ==> visited[j] == tasks[AfterNext(|tasks|, i, j)];
    ok
  }

  lemma AllVisited<T>(tasks: seq<T>, i: nat, visited: seq<T>)
    requires i < |tasks| && Visited(tasks, i, |tasks|, visited)
    ensures visited == tasks[i..] + tasks[..i] && multiset(visited) == multiset(tasks)
    ensures AfterNext(|tasks|, i, |tasks|) == i
  {
    RoundVisitsAll(tasks, i);
    assert visited == seq(|tasks|, k requires 0 <= k => tasks[AfterNext(|tasks|, i, k)]);
  }
}
