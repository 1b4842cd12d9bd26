/** The queue of running attempts: insertion with eviction, removal, close, and what every interleaving keeps. */
module TaskQueues {

  /** A queued attempt. `cancel` names the cancel function it was added with: the number of tasks added before it. */
  datatype Task = Task(id: nat, cancel: nat, valid: bool)

  /** The queue with two histories: how many tasks were ever added, and the cancel functions called so far. */
  datatype Queue = Queue(tasks: seq<Task>, closed: bool, added: nat, calls: seq<nat>)

  const EMPTY := Queue([], false, 0, [])

  /** One call made under the queue's mutex. */
  datatype QueueCall = Add(id: nat, evict: bool) | Remove(id: nat) | Close

  // ----- what the calls compute -----

  /** Where the oldest valid task is; the length if there is none. */
  function FirstValid(ts: seq<Task>): (i: nat)
    ensures i <= |ts|
    ensures i < |ts| ==> ts[i].valid
    ensures forall k | 0 <= k < i :: !ts[k].valid
  {
    if ts == [] then 0 else if ts[0].valid then 0 else 1 + FirstValid(ts[1..])
  }

  function Evict(ts: seq<Task>): seq<Task> {
    var i := FirstValid(ts);
    if i < |ts| then ts[i := ts[i].(valid := false)] else ts
  }

  function EvictCalls(ts: seq<Task>): seq<nat> {
    var i := FirstValid(ts);
    if i < |ts| then [ts[i].cancel] else []
  }

  function RemoveAll(ts: seq<Task>, id: nat): seq<Task> {
    seq(|ts|, i requires 0 <= i < |ts| => if ts[i].id == id then ts[i].(valid := false) else ts[i])
  }

  /** The cancel functions of the tasks under an id, valid or not. */
  function RemoveCalls(ts: seq<Task>, id: nat): seq<nat> {
    if ts == [] then []
    else
      var n := |ts| - 1;
      RemoveCalls(ts[..n], id) + if ts[n].id == id then [ts[n].cancel] else []
  }

  /** The cancel functions of the valid tasks. */
  function CloseCalls(ts: seq<Task>): seq<nat> {
    if ts == [] then []
    else
      var n := |ts| - 1;
      CloseCalls(ts[..n]) + if ts[n].valid then [ts[n].cancel] else []
  }

  function Apply(q: Queue, c: QueueCall): Queue {
    match c
    case Add(id, evict) =>
      var ts := if evict then Evict(q.tasks) else q.tasks;
      var calls := if evict then EvictCalls(q.tasks) else [];
      Queue(ts + [Task(id, q.added, true)], q.closed, q.added + 1, q.calls + calls)
    case Remove(id) => q.(tasks := RemoveAll(q.tasks, id), calls := q.calls + RemoveCalls(q.tasks, id))
    case Close => q.(tasks := [], closed := true, calls := q.calls + CloseCalls(q.tasks))
  }

  function CountValid(ts: seq<Task>): (n: nat)
    ensures n <= |ts|
  {
    if ts == [] then 0 else CountValid(ts[..|ts| - 1]) + if ts[|ts| - 1].valid then 1 else 0
  }

  /** Position `i` holds the first task under an id. */
  predicate FirstWith(ts: seq<Task>, id: nat, i: int) {
    0 <= i < |ts| && ts[i].id == id && forall k | 0 <= k < i :: ts[k].id != id
  }

  /** What `IsTaskValid` answers. */
  predicate ReportsValid(q: Queue, id: nat) {
    !q.closed && exists i :: 0 <= i < |q.tasks| && FirstWith(q.tasks, id, i) && q.tasks[i].valid
  }

  /** What `TaskCount` answers. */
  function Running(q: Queue): nat {
    if q.closed then 0 else CountValid(q.tasks)
  }

  // ----- the class -----

  class TaskQueue {
    var taskQueue: seq<Task>
    var closed: bool
    /** The number of cancel functions handed in so far, which names the next one. */
    var added: nat
    ghost var calls: seq<nat>

    ghost function View(): Queue
      reads this
    {
      Queue(taskQueue, closed, added, calls)
    }

    constructor ()
      ensures View() == EMPTY
    {
      taskQueue, closed, added, calls := [], false, 0, [];
    }

    /** Stands for a call of the cancel function of the task at `idx`. */
    method Cancel(idx: nat)
      requires idx < |taskQueue|
      modifies this`calls
      ensures calls == old(calls) + [taskQueue[idx].cancel]
    {
      calls := calls + [taskQueue[idx].cancel];
    }

    method AddTask(id: nat, evictOldestOne: bool)
      modifies this
      ensures View() == Apply(old(View()), Add(id, evictOldestOne))
    {
      if evictOldestOne {
        var idx := 0;
        while idx < |taskQueue|
          invariant idx <= |taskQueue|
          invariant View() == old(View())
          invariant forall k | 0 <= k < idx :: !taskQueue[k].valid
        {
          if taskQueue[idx].valid {
            assert FirstValid(taskQueue) == idx;
            taskQueue := taskQueue[idx := taskQueue[idx].(valid := false)];
            Cancel(idx);
            break;
          }
          idx := idx + 1;
        }
        assert taskQueue == Evict(old(taskQueue)) && calls == old(calls) + EvictCalls(old(taskQueue));
      }
      taskQueue := taskQueue + [Task(id, added, true)];
      added := added + 1;
    }

    method RemoveTask(id: nat)
      modifies this
      ensures View() == Apply(old(View()), Remove(id))
    {
      var idx := 0;
      ghost var was := taskQueue;
      while idx < |taskQueue|
        invariant idx <= |taskQueue| == |was| && closed == old(closed) && added == old(added)
        invariant forall k | 0 <= k < idx :: taskQueue[k] == RemoveAll(was, id)[k]
        invariant forall k | idx <= k < |was| :: taskQueue[k] == was[k]
        invariant calls == old(calls) + RemoveCalls(was[..idx], id)
      {
        assert was[..idx + 1][..idx] == was[..idx];
        if taskQueue[idx].id == id {
          taskQueue := taskQueue[idx := taskQueue[idx].(valid := false)];
          Cancel(idx);
        }
        idx := idx + 1;
      }
      assert was[..idx] == was && taskQueue == RemoveAll(was, id);
    }

    method CloseQueue()
      modifies this
      ensures View() == Apply(old(View()), Close)
    {
      var idx := 0;
      ghost var was := taskQueue;
      while idx < |taskQueue|
        invariant idx <= |taskQueue| == |was| && closed == old(closed) && added == old(added)
        invariant forall k | idx <= k < |was| :: taskQueue[k] == was[k]
        invariant calls == old(calls) + CloseCalls(was[..idx])
      {
        assert was[..idx + 1][..idx] == was[..idx];
        if taskQueue[idx].valid {
          taskQueue := taskQueue[idx := taskQueue[idx].(valid := false)];
          Cancel(idx);
        }
        idx := idx + 1;
      }
      assert was[..idx] == was;
      taskQueue := [];
      closed := true;
    }

    method IsTaskValid(id: nat) returns (valid: bool)
      ensures valid <==> ReportsValid(View(), id)
    {
      if closed {
        return false;
      }
      var idx := 0;
      while idx < |taskQueue|
        invariant idx <= |taskQueue|
        invariant forall k | 0 <= k < idx :: taskQueue[k].id != id
      {
        if taskQueue[idx].id == id {
          assert FirstWith(taskQueue, id, idx);
          return taskQueue[idx].valid;
        }
        idx := idx + 1;
      }
      return false;
    }

    method TaskCount() returns (count: nat)
      ensures count == Running(View())
    {
      if closed {
        return 0;
      }
      count := 0;
      var idx := 0;
      while idx < |taskQueue|
        invariant idx <= |taskQueue| && count == CountValid(taskQueue[..idx])
      {
        assert taskQueue[..idx + 1][..idx] == taskQueue[..idx];
        if taskQueue[idx].valid {
          count := count + 1;
        }
        idx := idx + 1;
      }
      assert taskQueue[..idx] == taskQueue;
    }

    method IsQueueClosed() returns (b: bool)
      ensures b == View().closed
    {
      return closed;
    }
  }

  // ----- every call keeps the invariant -----

  predicate Called(q: Queue, cancel: nat) {
    cancel in q.calls
  }

  predicate Queued(q: Queue, cancel: nat) {
    exists i :: 0 <= i < |q.tasks| && q.tasks[i].cancel == cancel
  }

  /**
   * Tasks stand in the order they were added, a queued task is valid exactly while its cancel function was
   * never called, and a task that left the queue was cancelled.
   */
  ghost predicate Inv(q: Queue) {
    && (forall i | 0 <= i < |q.tasks| :: q.tasks[i].cancel < q.added)
    && (forall i, j | 0 <= i < j < |q.tasks| :: q.tasks[i].cancel < q.tasks[j].cancel)
    && (forall i | 0 <= i < |q.tasks| :: q.tasks[i].valid <==> !Called(q, q.tasks[i].cancel))
    && (forall h: nat | h < q.added :: Called(q, h) || Queued(q, h))
    && (forall h: nat | Called(q, h) :: h < q.added)
  }

  /** Some task under the id has the cancel function. */
  predicate RemovedWith(ts: seq<Task>, id: nat, cancel: nat) {
    exists i :: 0 <= i < |ts| && ts[i].id == id && ts[i].cancel == cancel
  }

  lemma {:induction false} RemoveCallsExact(ts: seq<Task>, id: nat, h: nat)
    ensures h in RemoveCalls(ts, id) <==> RemovedWith(ts, id, h)
  {
    if ts != [] {
      var n := |ts| - 1;
      RemoveCallsExact(ts[..n], id, h);
      if i :| 0 <= i < n && ts[i].id == id && ts[i].cancel == h {
        assert ts[..n][i].id == id;
      }
    }
  }

  lemma {:induction false} CloseCallsExact(ts: seq<Task>, h: nat)
    ensures h in CloseCalls(ts) <==> exists i :: 0 <= i < |ts| && ts[i].valid && ts[i].cancel == h
  {
    if ts != [] {
      var n := |ts| - 1;
      CloseCallsExact(ts[..n], h);
      if i :| 0 <= i < n && ts[i].valid && ts[i].cancel == h {
        assert ts[..n][i].valid;
      }
    }
  }

  lemma EvictInv(q: Queue)
    requires Inv(q)
    ensures Inv(q.(tasks := Evict(q.tasks), calls := q.calls + EvictCalls(q.tasks)))
  {
    var q' := q.(tasks := Evict(q.tasks), calls := q.calls + EvictCalls(q.tasks));
    assert |q'.tasks| == |q.tasks|;
    assert forall i | 0 <= i < |q.tasks| :: q'.tasks[i].cancel == q.tasks[i].cancel;
    assert forall h: nat :: Called(q', h) <==> Called(q, h) || h in EvictCalls(q.tasks);
    forall h: nat | h < q'.added ensures Called(q', h) || Queued(q', h) {
      if !Called(q, h) {
        var i :| 0 <= i < |q.tasks| && q.tasks[i].cancel == h;
        assert q'.tasks[i].cancel == h;
      }
    }
  }

  lemma AppendInv(q: Queue, id: nat)
    requires Inv(q)
    ensures Inv(q.(tasks := q.tasks + [Task(id, q.added, true)], added := q.added + 1))
  {
    var q' := q.(tasks := q.tasks + [Task(id, q.added, true)], added := q.added + 1);
    var n := |q.tasks|;
    assert q'.tasks[n] == Task(id, q.added, true);
    assert !Called(q, q.added);
    assert forall h: nat :: Called(q', h) <==> Called(q, h);
    forall h: nat | h < q'.added ensures Called(q', h) || Queued(q', h) {
      if h == q.added {
        assert q'.tasks[n].cancel == h;
      } else if !Called(q, h) {
        var i :| 0 <= i < n && q.tasks[i].cancel == h;
        assert q'.tasks[i].cancel == h;
      }
    }
  }

  lemma AddInv(q: Queue, id: nat, evict: bool)
    requires Inv(q)
    ensures Inv(Apply(q, Add(id, evict)))
  {
    if evict {
      EvictInv(q);
      AppendInv(q.(tasks := Evict(q.tasks), calls := q.calls + EvictCalls(q.tasks)), id);
    } else {
      AppendInv(q, id);
      assert q.calls + [] == q.calls;
    }
  }

  lemma RemoveInv(q: Queue, id: nat)
    requires Inv(q)
    ensures Inv(Apply(q, Remove(id)))
  {
    var q' := Apply(q, Remove(id));
    assert |q'.tasks| == |q.tasks|;
    assert forall i | 0 <= i < |q.tasks| :: q'.tasks[i].cancel == q.tasks[i].cancel;
    forall h: nat ensures Called(q', h) <==> Called(q, h) || RemovedWith(q.tasks, id, h) {
      RemoveCallsExact(q.tasks, id, h);
    }
    forall h: nat | h < q'.added ensures Called(q', h) || Queued(q', h) {
      RemoveKeeps(q, id, h);
    }
    forall i | 0 <= i < |q'.tasks| ensures q'.tasks[i].valid <==> !Called(q', q'.tasks[i].cancel) {
      RemoveValid(q, id, i);
    }
    forall h: nat | Called(q', h) ensures h < q'.added {
      RemoveBounded(q, id, h);
    }
  }

  lemma RemoveKeeps(q: Queue, id: nat, h: nat)
    requires Called(q, h) || Queued(q, h)
    ensures var q' := Apply(q, Remove(id)); Called(q', h) || Queued(q', h)
  {
    var q' := Apply(q, Remove(id));
    if !Called(q, h) {
      var i :| 0 <= i < |q.tasks| && q.tasks[i].cancel == h;
      assert q'.tasks[i].cancel == h;
    }
  }

  lemma RemoveValid(q: Queue, id: nat, i: nat)
    requires Inv(q) && i < |q.tasks|
    ensures var q' := Apply(q, Remove(id)); q'.tasks[i].valid <==> !Called(q', q'.tasks[i].cancel)
  {
    var h := q.tasks[i].cancel;
    RemoveCallsExact(q.tasks, id, h);
    if RemovedWith(q.tasks, id, h) {
      var j :| 0 <= j < |q.tasks| && q.tasks[j].id == id && q.tasks[j].cancel == h;
      assert i == j;
    }
  }

  lemma RemoveBounded(q: Queue, id: nat, h: nat)
    requires Inv(q) && Called(Apply(q, Remove(id)), h)
    ensures h < q.added
  {
    RemoveCallsExact(q.tasks, id, h);
    assert Called(q, h) || RemovedWith(q.tasks, id, h);
  }

  /** Closing calls the cancel function of every task ever added that was not cancelled before. */
  lemma CloseCancels(q: Queue, h: nat)
    requires Inv(q) && h < q.added
    ensures Called(Apply(q, Close), h)
  {
    CloseCallsExact(q.tasks, h);
    if !Called(q, h) {
      var i :| 0 <= i < |q.tasks| && q.tasks[i].cancel == h;
      assert q.tasks[i].valid;
    }
  }

  lemma CloseInv(q: Queue)
    requires Inv(q)
    ensures Inv(Apply(q, Close))
  {
    var q' := Apply(q, Close);
    forall h: nat | h < q'.added ensures Called(q', h) {
      CloseCancels(q, h);
    }
    forall h: nat | Called(q', h) ensures h < q'.added {
      CloseCallsExact(q.tasks, h);
      assert Called(q, h) || h in CloseCalls(q.tasks);
    }
  }

  lemma ApplyInv(q: Queue, c: QueueCall)
    requires Inv(q)
    ensures Inv(Apply(q, c))
  {
    match c {
      case Add(id, evict) => AddInv(q, id, evict);
      case Remove(id) => RemoveInv(q, id);
      case Close => CloseInv(q);
    }
  }

  /** Some valid task was added before the one with this cancel function. */
  predicate ValidBefore(ts: seq<Task>, cancel: nat) {
    exists k :: 0 <= k < |ts| && ts[k].valid && ts[k].cancel < cancel
  }

  /** An evicting insertion invalidates the valid task added earliest, and only that one. */
  lemma EvictsOldest(q: Queue, id: nat, i: nat)
    requires Inv(q) && i < |q.tasks|
    ensures var q' := Apply(q, Add(id, true));
      q'.tasks[i].valid <==> q.tasks[i].valid && ValidBefore(q.tasks, q.tasks[i].cancel)
    ensures Apply(q, Add(id, true)).tasks[i].id == q.tasks[i].id
  {
    var f := FirstValid(q.tasks);
    if q.tasks[i].valid && i != f {
      assert q.tasks[f].valid && q.tasks[f].cancel < q.tasks[i].cancel;
    }
  }

  // ----- at most one valid task -----

  lemma {:induction false} CountZero(ts: seq<Task>)
    ensures CountValid(ts) == 0 <==> FirstValid(ts) == |ts|
  {
    if ts != [] {
      var n := |ts| - 1;
      CountZero(ts[..n]);
      if FirstValid(ts) <= n && FirstValid(ts[..n]) == n {
        assert forall k | 0 <= k < n :: !ts[..n][k].valid;
        assert FirstValid(ts) == n;
      }
      if FirstValid(ts[..n]) < n {
        assert ts[FirstValid(ts[..n])].valid;
      }
    }
  }

  lemma {:induction false} CountUpdate(ts: seq<Task>, i: nat)
    requires i < |ts| && ts[i].valid
    ensures CountValid(ts[i := ts[i].(valid := false)]) == CountValid(ts) - 1
  {
    var n := |ts| - 1;
    var us := ts[i := ts[i].(valid := false)];
    if i < n {
      assert us[..n] == ts[..n][i := ts[i].(valid := false)];
      CountUpdate(ts[..n], i);
    } else {
      assert us[..n] == ts[..n];
    }
  }

  lemma {:induction false} CountFewer(ts: seq<Task>, us: seq<Task>)
    requires |ts| == |us| && forall i | 0 <= i < |ts| :: us[i].valid ==> ts[i].valid
    ensures CountValid(us) <= CountValid(ts)
  {
    if ts != [] {
      CountFewer(ts[..|ts| - 1], us[..|us| - 1]);
    }
  }

  /** Eviction leaves one valid task fewer, if there was one. */
  lemma EvictCount(ts: seq<Task>)
    ensures CountValid(Evict(ts)) == if CountValid(ts) == 0 then 0 else CountValid(ts) - 1
  {
    CountZero(ts);
    var i := FirstValid(ts);
    if i < |ts| {
      CountUpdate(ts, i);
    }
  }

  lemma AddCount(ts: seq<Task>, t: Task)
    ensures CountValid(ts + [t]) == CountValid(ts) + if t.valid then 1 else 0
  {
    assert (ts + [t])[..|ts|] == ts;
  }

  /** How a call changes the number of valid tasks. */
  lemma ApplyCount(q: Queue, c: QueueCall)
    ensures var (n, n') := (CountValid(q.tasks), CountValid(Apply(q, c).tasks));
      match c
      case Add(_, evict) => n' == if evict && n > 0 then n else n + 1
      case Remove(_) => n' <= n
      case Close => n' == 0
  {
    match c {
      case Add(id, evict) =>
        EvictCount(q.tasks);
        AddCount(if evict then Evict(q.tasks) else q.tasks, Task(id, q.added, true));
      case Remove(id) => CountFewer(q.tasks, RemoveAll(q.tasks, id));
      case Close =>
    }
  }

  // ----- runs -----

  function RunCalls(q: Queue, cs: seq<QueueCall>): Queue
    decreases |cs|
  {
    if cs == [] then q else RunCalls(Apply(q, cs[0]), cs[1..])
  }

  lemma {:induction false} RunInv(q: Queue, cs: seq<QueueCall>)
    requires Inv(q)
    ensures Inv(RunCalls(q, cs))
    decreases |cs|
  {
    if cs != [] {
      ApplyInv(q, cs[0]);
      RunInv(Apply(q, cs[0]), cs[1..]);
    }
  }

  /** Overlap is disabled: every insertion after the first evicts. */
  predicate NoOverlap(cs: seq<QueueCall>) {
    forall i, j | 0 <= i < j < |cs| && cs[i].Add? && cs[j].Add? :: cs[j].evict
  }

  lemma {:induction false} NoOverlapFrom(q: Queue, cs: seq<QueueCall>)
    requires CountValid(q.tasks) == 0 || forall j | 0 <= j < |cs| && cs[j].Add? :: cs[j].evict
    requires CountValid(q.tasks) <= 1 && NoOverlap(cs)
    ensures CountValid(RunCalls(q, cs).tasks) <= 1
    decreases |cs|
  {
    if cs != [] {
      ApplyCount(q, cs[0]);
      NoOverlapFrom(Apply(q, cs[0]), cs[1..]);
    }
  }

  /** With overlap disabled every interleaving of insertions, removals and close leaves at most one valid task. */
  lemma AtMostOneValid(cs: seq<QueueCall>)
    requires NoOverlap(cs)
    ensures CountValid(RunCalls(EMPTY, cs).tasks) <= 1
  {
    NoOverlapFrom(EMPTY, cs);
  }

  lemma {:induction false} StaysClosed(q: Queue, cs: seq<QueueCall>)
    requires q.closed
    ensures RunCalls(q, cs).closed
    decreases |cs|
  {
    if cs != [] {
      StaysClosed(Apply(q, cs[0]), cs[1..]);
    }
  }

  lemma {:induction false} RunSplit(q: Queue, cs: seq<QueueCall>, ds: seq<QueueCall>)
    ensures RunCalls(q, cs + ds) == RunCalls(RunCalls(q, cs), ds)
    decreases |cs|
  {
    if cs == [] {
      assert cs + ds == ds;
    } else {
      assert (cs + ds)[1..] == cs[1..] + ds;
      RunSplit(Apply(q, cs[0]), cs[1..], ds);
    }
  }

  /**
   * In every run: a queued task is valid iff its cancel function was never called; a close cancels every
   * task added before it; and from then on no id is reported valid.
   */
  lemma CloseIsFinal(before: seq<QueueCall>, after: seq<QueueCall>, id: nat, h: nat)
    ensures Inv(RunCalls(EMPTY, before))
    ensures h < RunCalls(EMPTY, before).added ==> Called(RunCalls(EMPTY, before + [Close]), h)
    ensures var q := RunCalls(EMPTY, before + [Close] + after); !ReportsValid(q, id) && Running(q) == 0
  {
    RunInv(EMPTY, before);
    var q := RunCalls(EMPTY, before);
    RunSplit(EMPTY, before, [Close]);
    assert RunCalls(q, [Close]) == Apply(q, Close);
    if h < q.added {
      CloseCancels(q, h);
    }
    RunSplit(EMPTY, before + [Close], after);
    StaysClosed(Apply(q, Close), after);
  }

  predicate DistinctIds(q: Queue) {
    forall i, j | 0 <= i < j < |q.tasks| :: q.tasks[i].id != q.tasks[j].id
  }

  /** With distinct ids, `IsTaskValid` tells exactly that the queue is open and the task was not cancelled. */
  lemma ReportsExact(q: Queue, i: nat)
    requires Inv(q) && DistinctIds(q) && i < |q.tasks|
    ensures ReportsValid(q, q.tasks[i].id) <==> !q.closed && !Called(q, q.tasks[i].cancel)
  {
    if !q.closed && !Called(q, q.tasks[i].cancel) {
      assert FirstWith(q.tasks, q.tasks[i].id, i);
    }
  }

  lemma FirstWithUnique(ts: seq<Task>, id: nat, i: nat, j: nat)
    requires FirstWith(ts, id, i) && FirstWith(ts, id, j)
    ensures i == j
  {}

  /** A new task is found under its own id, and every other id keeps its answer, up to the eviction. */
  lemma AddReports(q: Queue, id: nat, evict: bool)
    requires !q.closed && forall i | 0 <= i < |q.tasks| :: q.tasks[i].id != id
    ensures ReportsValid(Apply(q, Add(id, evict)), id)
    ensures forall j: nat, other: nat | other != id && FirstWith(q.tasks, other, j) ::
      ReportsValid(Apply(q, Add(id, evict)), other) <==>
        ReportsValid(q, other) && !(evict && j == FirstValid(q.tasks))
  {
    var q', n := Apply(q, Add(id, evict)), |q.tasks|;
    assert |q'.tasks| == n + 1 && forall i | 0 <= i < n :: q'.tasks[i].id == q.tasks[i].id;
    assert FirstWith(q'.tasks, id, n) && q'.tasks[n].valid;
    forall j: nat, other: nat | other != id && FirstWith(q.tasks, other, j)
      ensures ReportsValid(q', other) <==> ReportsValid(q, other) && !(evict && j == FirstValid(q.tasks))
    {
      assert FirstWith(q'.tasks, other, j);
      forall k: nat | FirstWith(q'.tasks, other, k) ensures k == j {
        FirstWithUnique(q'.tasks, other, j, k);
      }
    }
  }

  /** After a removal no task under the id is valid, and all others are as before. */
  lemma RemoveReports(q: Queue, id: nat)
    ensures var q' := Apply(q, Remove(id));
      && !ReportsValid(q', id)
      && |q'.tasks| == |q.tasks|
      && forall i | 0 <= i < |q.tasks| ::
           q'.tasks[i] == if q.tasks[i].id == id then q.tasks[i].(valid := false) else q.tasks[i]
  {}
}
