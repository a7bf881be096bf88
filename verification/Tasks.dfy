/**
 task.c: the linked list of tasks and its round-robin current pointer.
 */
module RoundRobin {

  // ----- Positions: what stepping and appending do to a list of n tasks -----

  datatype Op = Step | Append

  /** The position after the current one, from the head again at the end. */
  function Successor(n: nat, cur: nat): (next: nat)
    requires cur < n
    ensures next < n
  {
    if cur + 1 == n then 0 else cur + 1
  }

  /** The positions that run, in order. */
  function Trace(n: nat, cur: nat, ops: seq<Op>): (t: seq<nat>)
    requires cur < n
    decreases |ops|
  {
    if ops == [] then []
    else match ops[0]
      case Step => [Successor(n, cur)] + Trace(n, Successor(n, cur), ops[1..])
      case Append => Trace(n + 1, cur, ops[1..])
  }

  function Count(ops: seq<Op>, op: Op): nat {
    if ops == [] then 0 else (if ops[0] == op then 1 else 0) + Count(ops[1..], op)
  }

  /** Steps until position j runs, if nothing is appended. */
  function Wait(n: nat, cur: nat, j: nat): (w: nat)
    requires cur < n && j < n
    ensures 1 <= w <= n
  {
    if cur < j then j - cur else n - cur + j
  }

  /** Bounded waiting: task j runs once there have been as many steps as its distance plus the tasks appended
      meanwhile. */
  lemma {:induction false} EveryTaskRuns(n: nat, cur: nat, j: nat, ops: seq<Op>)
    requires cur < n && j < n && Count(ops, Step) >= Wait(n, cur, j) + Count(ops, Append)
    ensures j in Trace(n, cur, ops)
    decreases |ops|
  {
    if ops[0].Append? {
      EveryTaskRuns(n + 1, cur, j, ops[1..]);
    } else if Successor(n, cur) != j {
      EveryTaskRuns(n, Successor(n, cur), j, ops[1..]);
    }
  }

  // ----- Exits: which prev links are still exact -----

  datatype LifeOp = Run | Create | Leave

  /** The position that runs once the task at cur has left a list of n: its successor moves up, and is passed over. */
  function AfterExit(n: nat, cur: nat): (next: nat)
    requires n >= 2 && cur < n
    ensures next < n - 1
  {
    Successor(n - 1, if cur + 1 == n then 0 else cur)
  }

  /** The exact prev links once the i-th task has left: that of its successor is not. */
  function AfterLeaving(exact: seq<bool>, i: nat): (r: seq<bool>)
    requires i < |exact|
    ensures |r| == |exact| - 1
    ensures forall j :: 0 <= j < |r| ==> r[j] == if j < i then exact[j] else if j == i then false else exact[j + 1]
  {
    exact[..i] + if i + 1 < |exact| then [false] + exact[i + 2..] else []
  }

  /** Every task that exits is at the head or has an exact prev link, and it is not the only one. */
  predicate Survives(exact: seq<bool>, cur: nat, ops: seq<LifeOp>)
    requires cur < |exact|
    decreases |ops|
  {
    ops == [] ||
    match ops[0]
    case Run => Survives(exact, Successor(|exact|, cur), ops[1..])
    case Create => Survives(exact + [true], cur, ops[1..])
    case Leave =>
      && |exact| >= 2 && (cur == 0 || exact[cur])
      && Survives(AfterLeaving(exact, cur), AfterExit(|exact|, cur), ops[1..])
  }

  /** Of four tasks, the second, the fourth and the third exit, each in its turn: the list does not survive, but it
      survives the first two of these exits. */
  lemma ThreeExits()
    ensures var all := [true, true, true, true];
            Survives(all, 1, [Leave, Leave]) && !Survives(all, 1, [Leave, Leave, Leave])
  {
    var all := [true, true, true, true];
    assert AfterLeaving(all, 1) == [true, false, true];
    assert AfterLeaving([true, false, true], 2) == [true, false];
    assert [Leave, Leave, Leave][1..] == [Leave, Leave] && [Leave, Leave][1..] == [Leave];
    assert Survives([true, false], 1, [Leave]) == false;
    assert AfterExit(4, 1) == 2 && AfterExit(3, 2) == 1;
    assert Survives([true, false], 1, []);
    assert [Leave][1..] == [];
  }

  function Steps(k: nat): (ops: seq<Op>)
    ensures |ops| == k
  {
    seq(k, _ => Step)
  }

  lemma {:induction false} TraceOfSteps(n: nat, cur: nat, k: nat)
    requires cur < n && k <= n
    ensures |Trace(n, cur, Steps(k))| == k
    ensures forall i :: 0 <= i < k ==>
              Trace(n, cur, Steps(k))[i] == if cur + 1 + i < n then cur + 1 + i else cur + 1 + i - n
    decreases k
  {
    if k > 0 {
      var next := Successor(n, cur);
      assert Steps(k)[1..] == Steps(k - 1);
      TraceOfSteps(n, next, k - 1);
    }
  }

  /** n steps run every one of n tasks exactly once and end where they began. */
  lemma FullRound(n: nat, cur: nat)
    requires cur < n
    ensures var t := Trace(n, cur, Steps(n));
            && |t| == n && t[n - 1] == cur
            && (forall i, k :: 0 <= i < k < n ==> t[i] != t[k])
            && (forall j :: 0 <= j < n ==> j in t)
  {
    TraceOfSteps(n, cur, n);
    var t := Trace(n, cur, Steps(n));
    forall j | 0 <= j < n ensures j in t {
      assert t[Wait(n, cur, j) - 1] == j;
    }
  }
}

module Tasks {
  import opened RoundRobin

  class Task {
    const process: nat
    var next: Task?
    var prev: Task?

    constructor (process: nat)
      ensures this.process == process && next == null && prev == null
    {
      this.process := process;
      next, prev := null, null;
    }

    ghost function PrevNodes(): set<Task>
      reads this
    {
      if prev == null then {} else {prev}
    }
  }

  class Scheduler {
    var current: Task?
    var head: Task?
    var tail: Task?
    /** The list from the head on, and the position of the current task in it. */
    ghost var tasks: seq<Task>
    ghost var cur: nat

    constructor ()
      ensures Forward() && tasks == []
    {
      current, head, tail := null, null, null;
      tasks, cur := [], 0;
    }

    ghost predicate NextOk(i: nat)
      requires i < |tasks|
      reads this, tasks
    {
      tasks[i].next == if i + 1 < |tasks| then tasks[i + 1] else null
    }

    /** The next links, the head, the tail and the current task are right; nothing is said of the prev links. */
    ghost predicate Forward()
      reads this, tasks
    {
      && (forall i, j :: 0 <= i < j < |tasks| ==> tasks[i] != tasks[j])
      && (forall i :: 0 <= i < |tasks| ==> NextOk(i))
      && if tasks == [] then head == null && current == null
         else head == tasks[0] && tail == tasks[|tasks| - 1] && cur < |tasks| && current == tasks[cur]
    }

    ghost predicate PrevOk(i: nat)
      requires i < |tasks|
      reads this, tasks
    {
      tasks[i].prev == if i == 0 then null else tasks[i - 1]
    }

    /** The list is exact in both directions. */
    ghost predicate Exact()
      reads this, tasks
    {
      Forward() && forall i :: 0 <= i < |tasks| ==> PrevOk(i)
    }

    /** The prev link of task i leads to its predecessor; for the head, to no task of the list. */
    ghost predicate Removable(i: nat)
      requires i < |tasks|
      reads this, tasks
    {
      if i == 0 then tasks[0].prev == null || tasks[0].prev !in tasks else tasks[i].prev == tasks[i - 1]
    }

    /** task_new, when the allocation and task_init succeed. */
    method TaskNew(process: nat) returns (task: Task)
      requires Forward()
      modifies this, tasks
      ensures fresh(task) && task.process == process
      ensures Forward() && tasks == old(tasks) + [task]
      ensures cur == if old(tasks) == [] then 0 else old(cur)
      ensures old(Exact()) ==> Exact()
      ensures task.prev == if old(tasks) == [] then null else old(tasks)[|old(tasks)| - 1]
      ensures forall i :: 0 <= i < |old(tasks)| ==> old(tasks)[i].prev == old(tasks[i].prev)
    {
      task := new Task(process);
      if head == null {
        head, tail, current := task, task, task;
        tasks, cur := [task], 0;
        return;
      }
      Append(task);
    }

    /** The end of task_new: link the task behind the tail. */
    method Append(task: Task)
      requires Forward() && tasks != [] && task !in tasks && task.next == null
      modifies this`tail, this`tasks, tail`next, task`prev
      ensures Forward() && tasks == old(tasks) + [task]
      ensures old(Exact()) ==> Exact()
      ensures task.prev == old(tasks)[|old(tasks)| - 1]
    {
      ghost var list := tasks;
      assert forall i :: 0 <= i < |list| ==> NextOk(i) && (old(Exact()) ==> PrevOk(i));
      tail.next := task;
      task.prev := tail;
      tail := task;
      tasks := tasks + [task];
      forall i | 0 <= i < |tasks| ensures NextOk(i) && (old(Exact()) ==> PrevOk(i)) {
        if i < |list| { assert old(NextOk(i)) && (old(Exact()) ==> old(PrevOk(i))); }
      }
    }

    /** task_get_next. */
    method GetNext() returns (next: Task?)
      requires Forward() && tasks != []
      ensures next == tasks[Successor(|tasks|, cur)]
    {
      assert NextOk(cur);
      if current.next == null {
        return head;
      }
      return current.next;
    }

    /** task_switch, to a task of the list. */
    method Switch(task: Task, ghost i: nat)
      requires Forward() && i < |tasks| && tasks[i] == task
      modifies this`current, this`cur
      ensures Forward() && current == task && cur == i
    {
      assert forall j :: 0 <= j < |tasks| ==> NextOk(j);
      current := task;
      cur := i;
      assert forall j :: 0 <= j < |tasks| ==> old(NextOk(j)) ==> NextOk(j);
    }

    /** task_next. */
    method TaskNext()
      requires Forward() && tasks != []
      modifies this`current, this`cur
      ensures Forward() && cur == Successor(|tasks|, old(cur))
    {
      var next := GetNext();
      Switch(next, Successor(|tasks|, cur));
    }

    /** Any interleaving of task_next and task_new: the tasks that run are those at the positions of the trace. */
    method RunOps(ops: seq<Op>) returns (ran: seq<Task>)
      requires Forward() && tasks != []
      modifies this, tasks
      ensures Forward() && old(tasks) <= tasks
      ensures |ran| == |Trace(|old(tasks)|, old(cur), ops)|
      ensures forall i :: 0 <= i < |ran| ==>
                var j := Trace(|old(tasks)|, old(cur), ops)[i]; j < |tasks| && ran[i] == tasks[j]
      decreases |ops|
    {
      ran := [];
      if ops == [] {
        return;
      }
      match ops[0] {
        case Step =>
          TaskNext();
          var now := current;
          ghost var list := tasks;
          ran := RunOps(ops[1..]);
          ran := [now] + ran;
        case Append =>
          var task := TaskNew(0);
          ran := RunOps(ops[1..]);
      }
    }

    /** task_list_remove: what it writes, whatever the links are. */
    method Unlink(task: Task)
      modifies this`head, this`tail, this`current, task.PrevNodes()`next
      ensures task.prev != null ==> task.prev.next == old(task.next)
      ensures head == if task == old(head) then old(task.next) else old(head)
      ensures tail == if task == old(tail) then task.prev else old(tail)
      ensures current == if task != old(current) then old(current) else if task.next != null then task.next else head
    {
      if task.prev != null {
        task.prev.next := task.next;
      }
      if task == head {
        head := task.next;
      }
      if task == tail {
        tail := task.prev;
      }
      if task == current {
        if current.next == null {
          current := head;
        } else {
          current := current.next;
        }
      }
    }

    /** task_list_remove of the i-th task. If the task's own prev link is usable, the forward list loses exactly that
        task and current moves to the cyclic successor if it was removed. With a stale prev link the predecessor still
        leads to the removed task, and the task that the link names, in the list or not, leads to its successor. No prev
        link is changed, and no other next link. */
    method ListRemove(task: Task, ghost i: nat)
      requires Forward() && i < |tasks| && tasks[i] == task
      modifies this, task.PrevNodes()`next
      ensures old(Removable(i)) ==> Forward() && tasks == Without(old(tasks), i)
      ensures old(Removable(i)) && |old(tasks)| > 1 ==>
                current == if i == old(cur) then old(tasks)[Successor(|old(tasks)|, i)] else old(current)
      ensures old(Removable(i)) && |old(tasks)| == 1 ==> current == null
      ensures i > 0 && task.prev != old(tasks)[i - 1] ==> old(tasks)[i - 1].next == task
      ensures task.prev != null ==> task.prev.next == old(task.next)
      ensures head == if i == 0 then old(task.next) else old(head)
      ensures tail == if i + 1 == |old(tasks)| then task.prev else old(tail)
    {
      ghost var ok := Removable(i);
      ghost var list := tasks;
      assert forall j :: 0 <= j < |list| ==> NextOk(j);
      assert NextOk(i) && (i > 0 ==> NextOk(i - 1));
      Unlink(task);
      if ok {
        forall j | 0 <= j < |tasks| && j != i && j + 1 != i ensures NextOk(j) {
          assert old(NextOk(j)) && list[j] in list;
        }
        Forget(i);
      }
    }

    /** The list without its i-th task, once the links pass over it. */
    ghost method Forget(i: nat)
      requires i < |tasks| && cur < |tasks| && forall j, k :: 0 <= j < k < |tasks| ==> tasks[j] != tasks[k]
      requires forall j :: 0 <= j < |tasks| && j != i && j + 1 != i ==> NextOk(j)
      requires i > 0 ==> tasks[i - 1].next == if i + 1 < |tasks| then tasks[i + 1] else null
      requires |tasks| == 1 ==> head == null && current == null
      requires |tasks| > 1 ==> head == if i == 0 then tasks[1] else tasks[0]
      requires |tasks| > 1 ==> tail == if i + 1 == |tasks| then tasks[|tasks| - 2] else tasks[|tasks| - 1]
      requires |tasks| > 1 ==> current == if i == cur then tasks[Successor(|tasks|, i)] else tasks[cur]
      modifies this`tasks, this`cur
      ensures Forward() && tasks == Without(old(tasks), i)
    {
      ghost var list := tasks;
      cur := if i < cur then cur - 1 else if i == cur && i + 1 == |list| then 0 else cur;
      tasks := Without(list, i);
      forall j | 0 <= j < |tasks| ensures NextOk(j) {
        if j + 1 != i {
          assert tasks[j] == list[if j < i then j else j + 1];
          assert old(NextOk(if j < i then j else j + 1));
        }
      }
    }

    static ghost function Without(list: seq<Task>, i: nat): (r: seq<Task>)
      requires i < |list|
      ensures |r| == |list| - 1
      ensures forall j :: 0 <= j < |r| ==> r[j] == if j < i then list[j] else list[j + 1]
    {
      list[..i] + list[i + 1..]
    }

    /** From an exact list, removal keeps the list exact in both directions exactly when the last task is removed;
        otherwise the successor alone keeps one stale prev link, to the removed task. */
    method RemoveFromExact(task: Task, ghost i: nat)
      requires Exact() && i < |tasks| && tasks[i] == task
      modifies this, task.PrevNodes()`next
      ensures Forward() && tasks == Without(old(tasks), i)
      ensures Exact() <==> i == |tasks|
      ensures i < |tasks| ==> tasks[i].prev == task
      ensures forall j :: 0 <= j < |tasks| && j != i ==> PrevOk(j)
    {
      ghost var list := tasks;
      assert PrevOk(i) && Removable(i);
      ListRemove(task, i);
      forall j | 0 <= j < |tasks| ensures PrevOk(j) <==> j != i {
        var k := if j < i then j else j + 1;
        assert old(PrevOk(k)) && tasks[j] == list[k] && tasks[j].prev == old(list[k].prev);
        assert j > 0 ==> tasks[j - 1] == if j - 1 < i then list[j - 1] else list[j];
      }
      if i < |tasks| {
        assert tasks[i] == list[i + 1] && old(PrevOk(i + 1));
        assert !PrevOk(i);
      }
    }

    /** Removing a task and then its successor, from an exact list, breaks the list: the predecessor still leads to the
        second task that was removed. */
    method RemoveTwoInARow(first: Task, second: Task, ghost i: nat)
      requires Exact() && 1 <= i && i + 1 < |tasks| && tasks[i] == first && tasks[i + 1] == second
      modifies this, tasks
      ensures old(tasks)[i - 1].next == second
    {
      assert PrevOk(i) && PrevOk(i + 1) && NextOk(i - 1);
      RemoveFromExact(first, i);
      assert NextOk(i - 1);
      assert tasks[i] == second && tasks[i - 1] == old(tasks)[i - 1];
      ListRemove(second, i);
    }

    /** Exit, when the current task's prev link is usable: remove it, then task_next. With another task in the list one
        runs, and it is the one after the exiting task exactly when there were two; otherwise that one is passed over.
        With no other task there is no current task left whose next link task_get_next could read, so it is not called
        here. */
    method ExitCurrent(task: Task) returns (runs: bool)
      requires Forward() && tasks != [] && task == current && Removable(cur)
      modifies this, task.PrevNodes()`next
      ensures Forward() && tasks == Without(old(tasks), old(cur))
      ensures runs <==> |old(tasks)| >= 2
      ensures !runs ==> current == null && tasks == []
      ensures runs ==> cur == AfterExit(|old(tasks)|, old(cur))
      ensures var n, next := |old(tasks)|, Successor(|old(tasks)|, old(cur));
              runs ==>
                && (current == old(tasks)[next] <==> n == 2)
                && current == if n == 2 then old(tasks)[next] else old(tasks)[Successor(n, next)]
    {
      ghost var i, n, list := cur, |tasks|, tasks;
      ListRemove(task, i);
      if current == null {
        return false;
      }
      assert current == list[Successor(n, i)];
      assert cur == if i + 1 == n then 0 else i by {
        var want := if i + 1 == n then 0 else i;
        assert tasks[want] == list[Successor(n, i)];
      }
      TaskNext();
      runs := true;
    }

    // ----- Runs with exits -----

    /** What the prev link of the i-th task says: exact, or leading to a task that has left. */
    static ghost predicate Says(list: seq<Task>, gone: set<Task>, i: nat, exact: bool, prev: Task?)
      requires i < |list|
    {
      if exact then prev == if i == 0 then null else list[i - 1] else prev != null && prev in gone
    }

    static ghost predicate AllSay(list: seq<Task>, gone: set<Task>, exact: seq<bool>, prevs: map<Task, Task?>) {
      && |exact| == |list|
      && (forall t :: t in list ==> t !in gone && t in prevs)
      && forall i :: 0 <= i < |list| ==> Says(list, gone, i, exact[i], prevs[list[i]])
    }

    /** What a prev link says when the i-th task has left. */
    static lemma SaysWithout(list: seq<Task>, gone: set<Task>, i: nat, k: nat, exact: bool, prev: Task?)
      requires i < |list| && k < |list| && k != i && Says(list, gone, k, exact, prev)
      ensures Says(Without(list, i), gone + {list[i]}, if k < i then k else k - 1, exact && k != i + 1, prev)
    {
    }

    static lemma AllSayWithout(list: seq<Task>, gone: set<Task>, exact: seq<bool>, prevs: map<Task, Task?>, i: nat,
                               ps: map<Task, Task?>)
      requires i < |list| && AllSay(list, gone, exact, prevs)
      requires forall j, m :: 0 <= j < m < |list| ==> list[j] != list[m]
      requires forall t :: t in Without(list, i) ==> t in ps && t in prevs && ps[t] == prevs[t]
      ensures AllSay(Without(list, i), gone + {list[i]}, AfterLeaving(exact, i), ps)
      ensures forall t :: t in Without(list, i) ==> t in list
    {
      hide Says;
      var r, marks := Without(list, i), AfterLeaving(exact, i);
      WithoutIn(list, i);
      forall j | 0 <= j < |r| ensures Says(r, gone + {list[i]}, j, marks[j], ps[r[j]]) {
        var k := if j < i then j else j + 1;
        assert r[j] == list[k] && r[j] in r;
        SaysWithout(list, gone, i, k, exact[k], prevs[list[k]]);
        assert marks[j] == (exact[k] && k != i + 1);
      }
    }

    static lemma WithoutIn(list: seq<Task>, i: nat)
      requires i < |list|
      ensures forall t :: t in Without(list, i) ==> t in list
      ensures (forall j, m :: 0 <= j < m < |list| ==> list[j] != list[m]) ==> list[i] !in Without(list, i)
    {
      forall t | t in Without(list, i) ensures t in list {
        var j :| 0 <= j < |list| - 1 && Without(list, i)[j] == t;
        assert t == list[if j < i then j else j + 1];
      }
    }

    static lemma AllSayAppend(list: seq<Task>, gone: set<Task>, exact: seq<bool>, prevs: map<Task, Task?>,
                              task: Task, ps: map<Task, Task?>)
      requires list != [] && AllSay(list, gone, exact, prevs) && task !in gone && task !in list
      requires task in ps && ps[task] == list[|list| - 1]
      requires forall t :: t in list ==> t in ps && t in prevs && ps[t] == prevs[t]
      ensures AllSay(list + [task], gone, exact + [true], ps)
    {
      var r := list + [task];
      forall j | 0 <= j < |r| ensures Says(r, gone, j, (exact + [true])[j], ps[r[j]]) {
        if j < |list| { assert Says(list, gone, j, exact[j], prevs[list[j]]); }
      }
    }

    ghost function PrevLinks(): map<Task, Task?>
      reads this, tasks
    {
      map t | t in tasks :: t.prev
    }

    /** The marks tell the exact prev links from those that lead to tasks that have left. */
    ghost predicate Marked(exact: seq<bool>, gone: set<Task>)
      reads this, tasks
    {
      AllSay(tasks, gone, exact, PrevLinks())
    }

    /** An exact list from which no task has left. */
    lemma ExactIsMarked(exact: seq<bool>)
      requires Exact() && |exact| == |tasks| && forall i :: 0 <= i < |exact| ==> exact[i]
      ensures Marked(exact, {})
    {
      forall i | 0 <= i < |tasks| ensures Says(tasks, {}, i, exact[i], tasks[i].prev) {
        assert PrevOk(i);
      }
    }

    lemma CurrentSays(exact: seq<bool>, gone: set<Task>)
      requires Forward() && tasks != [] && Marked(exact, gone)
      ensures |exact| == |tasks| && (current.prev == null || current.prev in tasks || current.prev in gone)
      ensures cur == 0 || exact[cur] ==> Removable(cur)
      ensures cur > 0 && !exact[cur] ==> current.prev != tasks[cur - 1]
    {
      assert Says(tasks, gone, cur, exact[cur], tasks[cur].prev);
    }

    /** The exit of the current task, where its prev link is usable: only the successor's prev link ceases to be
        exact. */
    method Leave(ghost exact: seq<bool>, ghost gone: set<Task>)
      requires Forward() && |tasks| >= 2 && Marked(exact, gone) && (cur == 0 || exact[cur])
      modifies this, tasks`next, gone`next
      ensures Forward() && tasks != [] && cur == AfterExit(|old(tasks)|, old(cur))
      ensures Marked(AfterLeaving(exact, old(cur)), gone + {old(current)})
      ensures forall t :: t in tasks ==> t in old(tasks)
    {
      hide AllSay; hide AfterLeaving; hide AfterExit; hide Successor; hide Removable;
      ghost var list, i, prevs := tasks, cur, PrevLinks();
      CurrentSays(exact, gone);
      var runs := ExitCurrent(current);
      WithoutIn(list, i);
      AllSayWithout(list, gone, exact, prevs, i, PrevLinks());
    }

    /** task_next: no mark changes. */
    method Advance(ghost exact: seq<bool>, ghost gone: set<Task>)
      requires Forward() && tasks != [] && Marked(exact, gone)
      modifies this`current, this`cur
      ensures Forward() && tasks != [] && Marked(exact, gone) && cur == Successor(|tasks|, old(cur))
    {
      hide AllSay;
      ghost var prevs := PrevLinks();
      TaskNext();
      assert PrevLinks() == prevs;
    }

    /** task_new: the new task's prev link is exact. */
    method Add(ghost exact: seq<bool>, ghost gone: set<Task>) returns (task: Task)
      requires Forward() && tasks != [] && Marked(exact, gone)
      modifies this, tasks
      ensures Forward() && Marked(exact + [true], gone) && cur == old(cur)
      ensures fresh(task) && tasks == old(tasks) + [task]
    {
      hide AllSay;
      ghost var list, prevs := tasks, PrevLinks();
      task := TaskNew(0);
      forall t | t in list ensures t.prev == old(t.prev) {
        var j :| 0 <= j < |list| && list[j] == t;
      }
      AllSayAppend(list, gone, exact, prevs, task, PrevLinks());
    }

    /** The exit that does not survive: of the only task, which leaves none, or of a task with a stale prev link, which
        leaves its predecessor leading to it. */
    method LeaveBadly(ghost exact: seq<bool>, ghost gone: set<Task>) returns (ghost pred: Task?)
      requires Forward() && tasks != [] && Marked(exact, gone) && (|tasks| == 1 || (cur > 0 && !exact[cur]))
      modifies this, tasks`next, gone`next
      ensures |old(tasks)| == 1 ==> current == null
      ensures |old(tasks)| > 1 ==> pred == old(tasks)[old(cur) - 1] && pred.next == old(current)
    {
      pred := if cur > 0 then tasks[cur - 1] else null;
      CurrentSays(exact, gone);
      ListRemove(current, cur);
    }

    ghost function Touched(gone: set<Task>): set<Task>
      reads this
    {
      (set t | t in tasks) + gone
    }

    lemma Marks(exact: seq<bool>, gone: set<Task>)
      requires Marked(exact, gone)
      ensures |exact| == |tasks|
    {
    }

    /** Any run of steps, new tasks and exits: the list survives it exactly when the marks say so. Where it does not,
        the only task has left, or a task that has left is still the next of its predecessor. */
    method RunLife(ops: seq<LifeOp>, exact: seq<bool>, pos: nat, ghost gone: set<Task>)
      returns (kept: bool, ghost pred: Task?, ghost left: Task?)
      requires Forward() && tasks != [] && Marked(exact, gone) && pos == cur
      modifies this, Touched(gone)
      ensures kept <==> |exact| > pos && Survives(exact, pos, ops)
      ensures kept ==> Forward() && tasks != []
      ensures !kept ==> left != null && (current == null || (pred != null && pred.next == left))
      decreases |ops|
    {
      hide AllSay; hide PrevLinks;
      kept, pred, left := true, null, null;
      Marks(exact, gone);
      if ops == [] {
        return;
      }
      match ops[0] {
        case Run =>
          Advance(exact, gone);
          kept, pred, left := RunLife(ops[1..], exact, Successor(|exact|, pos), gone);
        case Create =>
          var task := Add(exact, gone);
          kept, pred, left := RunLife(ops[1..], exact + [true], pos, gone);
        case Leave =>
          ghost var task := tasks[cur];
          if |exact| == 1 || (pos > 0 && !exact[pos]) {
            pred := LeaveBadly(exact, gone);
            left, kept := task, false;
            return;
          }
          Leave(exact, gone);
          ghost var gone' := gone + {task};
          assert Touched(gone') <= old(Touched(gone));
          kept, pred, left := RunLife(ops[1..], AfterLeaving(exact, pos), AfterExit(|exact|, pos), gone');
      }
    }
  }
}
