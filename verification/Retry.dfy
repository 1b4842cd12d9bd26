/**
 * The retry controller as a step relation. The controller's goroutine takes signals in any order; a launch is
 * split into its check of the closed flag and its insertion, so that other goroutines may close the queue between.
 */
module Retries {
  import opened Wrappers
  import TaskQueues

  /** What the policies see and an attempt is given. */
  datatype TaskContext = TaskContext(retryNum: nat, concurrencyNum: nat, lastError: Option<int>)

  datatype Policies = Policies(retry: TaskContext -> bool, overlap: TaskContext -> bool)

  datatype Attempt = Attempt(id: nat, context: TaskContext)

  datatype Signal = Done | Error(e: int) | Retry(e: int) | Timeout(e: int) | Quit

  /** Where the controller's goroutine is. */
  datatype Pc =
    | Invoking(evict: bool)  // in Invoke, before the check of the closed flag
    | Adding(evict: bool)    // in Invoke, the check passed
    | Waiting                // in Wait
    | Finishing              // in Finish, before the check of the closed flag
    | Closing                // in Finish, the check passed
    | Ended

  datatype Run = Run(
    queue: TaskQueues.Queue,
    id: nat,
    context: TaskContext,
    pc: Pc,
    launched: seq<Attempt>,  // history: every attempt whose goroutine was started
    refused: bool)           // history: the retry policy has said no

  const START := Run(TaskQueues.EMPTY, 0, TaskContext(0, 0, None), Invoking(false), [], false)

  /** A step of the controller's goroutine, or a call on the queue from a callback, the deadline or a cancel. */
  datatype Event =
    | Receive(s: Signal)
    | Check
    | Insert
    | CheckFinish
    | CloseOwn
    | OtherRemove(id: nat)
    | OtherClose

  predicate Enabled(r: Run, e: Event) {
    match e
    case Receive(_) => r.pc.Waiting?
    case Check => r.pc.Invoking?
    case Insert => r.pc.Adding?
    case CheckFinish => r.pc.Finishing?
    case CloseOwn => r.pc.Closing?
    case OtherRemove(_) => true
    case OtherClose => true
  }

  /** The retry closure, up to its call of Invoke or Finish. */
  function OnRetry(p: Policies, r: Run, e: int): Run {
    var context := TaskContext(r.context.retryNum + 1, TaskQueues.Running(r.queue), Some(e));
    if p.retry(context) then r.(context := context, pc := Invoking(!p.overlap(context)))
    else r.(context := context, pc := Finishing, refused := true)
  }

  /** The end of Invoke: a new id, the queue with the new task, and the attempt's goroutine. */
  function Launch(r: Run, queue: TaskQueues.Queue): Run {
    r.(id := r.id + 1, queue := queue, launched := r.launched + [Attempt(r.id + 1, r.context)], pc := Waiting)
  }

  function Step(p: Policies, r: Run, e: Event): Run
    requires Enabled(r, e)
  {
    match e
    case Receive(s) =>
      (match s
       case Done => r
       case Error(_) => r
       case Retry(err) => OnRetry(p, r, err)
       case Timeout(err) => OnRetry(p, r, err)
       case Quit => r.(pc := Ended))
    case Check => r.(pc := if r.queue.closed then Waiting else Adding(r.pc.evict))
    case Insert =>
      Launch(r, TaskQueues.Apply(r.queue, TaskQueues.Add(r.id + 1, r.pc.evict)))
    case CheckFinish => r.(pc := if r.queue.closed then Waiting else Closing)
    case CloseOwn => r.(queue := TaskQueues.Apply(r.queue, TaskQueues.Close), pc := Waiting)
    case OtherRemove(id) => r.(queue := TaskQueues.Apply(r.queue, TaskQueues.Remove(id)))
    case OtherClose => r.(queue := TaskQueues.Apply(r.queue, TaskQueues.Close))
  }

  function Runs(p: Policies, r: Run, es: seq<Event>): Option<Run>
    decreases |es|
  {
    if es == [] then Some(r)
    else if Enabled(r, es[0]) then Runs(p, Step(p, r, es[0]), es[1..])
    else None
  }

  // ----- the invariant -----

  /** How many attempts there are, as far as the closed flag leaves it fixed. */
  ghost predicate Counted(r: Run) {
    match r.pc
    case Invoking(_) => r.queue.closed || |r.launched| == r.context.retryNum
    case Adding(_) => |r.launched| == r.context.retryNum
    case Waiting => r.queue.closed || |r.launched| == r.context.retryNum + 1
    case _ => true
  }

  ghost predicate Inv(p: Policies, r: Run) {
    TaskQueues.Inv(r.queue) && AttemptsInv(p, r) && PlaceInv(p, r)
  }

  /** What the attempts launched so far keep. */
  ghost predicate AttemptsInv(p: Policies, r: Run) {
    && r.id == |r.launched| == r.queue.added
    && (forall i | 0 <= i < |r.launched| :: r.launched[i].id == i + 1 && r.launched[i].context.retryNum == i)
    && (forall i | 1 <= i < |r.launched| :: p.retry(r.launched[i].context))
  }

  /** What the place of the controller says. */
  ghost predicate PlaceInv(p: Policies, r: Run) {
    && Counted(r)
    && (r.pc.Invoking? || r.pc.Adding? ==> r.context.retryNum == 0 || p.retry(r.context))
    && (r.refused ==> r.queue.closed || r.pc.Finishing? || r.pc.Closing?)
    && (r.refused ==> !r.pc.Adding?)
  }

  lemma InsertInv(p: Policies, r: Run)
    requires Inv(p, r) && r.pc.Adding?
    ensures Inv(p, Step(p, r, Insert))
  {
    var r' := Step(p, r, Insert);
    assert TaskQueues.Inv(r'.queue) by {
      TaskQueues.ApplyInv(r.queue, TaskQueues.Add(r.id + 1, r.pc.evict));
    }
    assert AttemptsInv(p, r') by {
      assert r'.launched == r.launched + [Attempt(r.id + 1, r.context)];
    }
  }

  /** A removal or a close by any goroutine. */
  lemma QueueInv(p: Policies, r: Run, c: TaskQueues.QueueCall)
    requires Inv(p, r) && !c.Add?
    ensures Inv(p, r.(queue := TaskQueues.Apply(r.queue, c)))
  {
    TaskQueues.ApplyInv(r.queue, c);
  }

  lemma ReceiveInv(p: Policies, r: Run, s: Signal)
    requires Inv(p, r) && r.pc.Waiting?
    ensures Inv(p, Step(p, r, Receive(s)))
  {
    assert TaskQueues.Inv(r.queue);
    var r' := Step(p, r, Receive(s));
    assert r'.queue == r.queue && r'.launched == r.launched && r'.id == r.id;
    assert PlaceInv(p, r');
  }

  lemma StepInv(p: Policies, r: Run, e: Event)
    requires Inv(p, r) && Enabled(r, e)
    ensures Inv(p, Step(p, r, e))
  {
    match e {
      case Receive(s) => ReceiveInv(p, r, s);
      case Insert => InsertInv(p, r);
      case CloseOwn => QueueInv(p, r, TaskQueues.Close);
      case OtherClose => QueueInv(p, r, TaskQueues.Close);
      case OtherRemove(id) => QueueInv(p, r, TaskQueues.Remove(id));
      case _ =>
    }
  }

  lemma {:induction false} RunsInv(p: Policies, r: Run, es: seq<Event>)
    requires Inv(p, r) && Runs(p, r, es).Some?
    ensures Inv(p, Runs(p, r, es).value)
    decreases |es|
  {
    if es != [] {
      StepInv(p, r, es[0]);
      RunsInv(p, Step(p, r, es[0]), es[1..]);
    }
  }

  lemma StartInv(p: Policies)
    ensures Inv(p, START)
  {}

  // ----- how many attempts -----

  /** In every run attempts carry RetryNum 0, 1, 2, ... and each but the first was allowed by the policy. */
  lemma Consecutive(p: Policies, es: seq<Event>)
    requires Runs(p, START, es).Some?
    ensures var launched := Runs(p, START, es).value.launched;
      && (forall i | 0 <= i < |launched| :: launched[i].context.retryNum == i)
      && (forall i | 1 <= i < |launched| :: p.retry(launched[i].context))
  {
    StartInv(p);
    RunsInv(p, START, es);
  }

  /** The fixed count policy of the engine, which counts attempts. */
  function Strict(retryTimes: nat): TaskContext -> bool {
    (c: TaskContext) => c.retryNum < retryTimes
  }

  /** The fixed count policy of the retry manager, which counts retries. */
  function NonStrict(retryTimes: nat): TaskContext -> bool {
    (c: TaskContext) => c.retryNum <= retryTimes
  }

  /** The largest number of attempts under a count policy. */
  function Limit(strict: bool, n: nat): nat {
    if strict then (if n == 0 then 1 else n) else n + 1
  }

  function CountPolicy(strict: bool, n: nat): TaskContext -> bool {
    if strict then Strict(n) else NonStrict(n)
  }

  /** No order of signals launches more attempts than the limit. */
  lemma AttemptsBounded(p: Policies, strict: bool, n: nat, es: seq<Event>)
    requires p.retry == CountPolicy(strict, n) && Runs(p, START, es).Some?
    ensures |Runs(p, START, es).value.launched| <= Limit(strict, n)
  {
    Consecutive(p, es);
    var launched := Runs(p, START, es).value.launched;
    if |launched| > 1 {
      var last := launched[|launched| - 1];
      assert p.retry(last.context) && last.context.retryNum == |launched| - 1;
    }
  }

  /** The schedule in which every attempt asks for a retry, `k` times. */
  function AllRetry(k: nat): seq<Event> {
    if k == 0 then [] else [Receive(Retry(0)), Check, Insert] + AllRetry(k - 1)
  }

  lemma OneRetry(p: Policies, r: Run, es: seq<Event>) returns (r': Run)
    requires r.pc.Waiting? && !r.queue.closed
    requires forall c: TaskContext | c.retryNum == r.context.retryNum + 1 :: p.retry(c)
    ensures r'.pc.Waiting? && !r'.queue.closed && |r'.launched| == |r.launched| + 1
    ensures r'.context.retryNum == r.context.retryNum + 1
    ensures Runs(p, r, [Receive(Retry(0)), Check, Insert] + es) == Runs(p, r', es)
  {
    var all := [Receive(Retry(0)), Check, Insert] + es;
    var a := OnRetry(p, r, 0);
    var b := Step(p, a, Check);
    r' := Step(p, b, Insert);
    assert all[1..][0] == Check && all[1..][1..][0] == Insert && all[1..][1..][1..] == es;
    assert Runs(p, b, all[1..][1..]) == Runs(p, r', es);
    assert Runs(p, r, all) == Runs(p, a, all[1..]);
  }

  lemma {:induction false} AllRetryLaunches(p: Policies, r: Run, k: nat)
    requires r.pc.Waiting? && !r.queue.closed
    requires forall c: TaskContext | r.context.retryNum < c.retryNum <= r.context.retryNum + k :: p.retry(c)
    ensures Runs(p, r, AllRetry(k)).Some? && |Runs(p, r, AllRetry(k)).value.launched| == |r.launched| + k
    decreases k
  {
    if k > 0 {
      var r' := OneRetry(p, r, AllRetry(k - 1));
      AllRetryLaunches(p, r', k - 1);
    }
  }

  /** The limit is met: some order of signals launches exactly that many attempts. */
  lemma LimitReached(p: Policies, strict: bool, n: nat)
    requires p.retry == CountPolicy(strict, n)
    ensures exists es :: Runs(p, START, es).Some? && |Runs(p, START, es).value.launched| == Limit(strict, n)
  {
    var k := Limit(strict, n) - 1;
    var es := [Check, Insert] + AllRetry(k);
    var a := Step(p, START, Check);
    var b := Step(p, a, Insert);
    assert es[1..][0] == Insert && es[1..][1..] == AllRetry(k);
    assert Runs(p, START, es) == Runs(p, b, AllRetry(k));
    AllRetryLaunches(p, b, k);
  }

  // ----- no launch after a refusal or a close -----

  /** Once the policy has refused, nothing is launched again, whatever signals follow. */
  lemma {:induction false} NoneAfterRefusal(p: Policies, r: Run, es: seq<Event>)
    requires Inv(p, r) && r.refused && Runs(p, r, es).Some?
    ensures Runs(p, r, es).value.launched == r.launched && Runs(p, r, es).value.refused
    decreases |es|
  {
    if es != [] {
      StepInv(p, r, es[0]);
      NoneAfterRefusal(p, Step(p, r, es[0]), es[1..]);
    }
  }

  /** After a close at most one attempt is still launched, and only one whose check passed before the close. */
  lemma {:induction false} AtMostOneAfterClose(p: Policies, r: Run, es: seq<Event>)
    requires r.queue.closed && Runs(p, r, es).Some?
    ensures var r' := Runs(p, r, es).value;
      && r'.queue.closed
      && r.launched <= r'.launched
      && |r'.launched| <= |r.launched| + (if r.pc.Adding? then 1 else 0)
    decreases |es|
  {
    if es != [] {
      AtMostOneAfterClose(p, Step(p, r, es[0]), es[1..]);
    }
  }

  /** After a close something is still launched in some continuation if and only if the check has just passed. */
  lemma LaunchAfterClose(p: Policies, r: Run)
    requires r.queue.closed
    ensures (exists es :: Runs(p, r, es).Some? && Runs(p, r, es).value.launched != r.launched) <==> r.pc.Adding?
  {
    if r.pc.Adding? {
      var r' := Step(p, r, Insert);
      var es := [Insert];
      assert es[1..] == [] && Runs(p, r', []) == Some(r');
      assert Runs(p, r, es).Some? && Runs(p, r, es).value.launched == r'.launched != r.launched;
    }
    forall es | Runs(p, r, es).Some? && !r.pc.Adding? ensures Runs(p, r, es).value.launched == r.launched {
      AtMostOneAfterClose(p, r, es);
    }
  }

  /** An attempt launched in that gap can signal nothing: no id is reported valid after the close. */
  lemma LateAttemptIsMute(p: Policies, r: Run, es: seq<Event>, id: nat)
    requires r.queue.closed && Runs(p, r, es).Some?
    ensures !TaskQueues.ReportsValid(Runs(p, r, es).value.queue, id)
  {
    AtMostOneAfterClose(p, r, es);
  }

  /** The gap is real: a close between check and insertion lets one attempt start on a closed queue. */
  lemma GapExists(p: Policies)
    ensures Runs(p, START, [Check, OtherClose]).Some? && Runs(p, START, [Check, OtherClose]).value.queue.closed
    ensures Runs(p, START, [Check, OtherClose, Insert]).Some?
    ensures |Runs(p, START, [Check, OtherClose, Insert]).value.launched| == 1
  {
    var a := Step(p, START, Check);
    var b := Step(p, a, OtherClose);
    var c := Step(p, b, Insert);
    var es := [Check, OtherClose, Insert];
    assert es[1..] == [OtherClose, Insert] && es[1..][1..] == [Insert] && [Insert][1..] == [];
    assert Runs(p, b, [Insert]) == Runs(p, c, []);
    assert [Check, OtherClose][1..] == [OtherClose] && [OtherClose][1..] == [];
    assert Runs(p, a, [OtherClose]) == Runs(p, b, []);
  }

  // ----- one attempt at a time -----

  /** Overlap is disabled for every context. */
  ghost predicate Never(p: Policies) {
    forall c: TaskContext :: !p.overlap(c)
  }

  ghost predicate Serial(r: Run) {
    && TaskQueues.CountValid(r.queue.tasks) <= 1
    && (r.pc.Invoking? || r.pc.Adding? ==> r.pc.evict || TaskQueues.CountValid(r.queue.tasks) == 0)
    && r.context.concurrencyNum <= 1
    && forall i | 0 <= i < |r.launched| :: r.launched[i].context.concurrencyNum <= 1
  }

  lemma RetrySerial(p: Policies, r: Run, e: int)
    requires Never(p) && Serial(r)
    ensures Serial(OnRetry(p, r, e))
  {}

  lemma InsertSerial(p: Policies, r: Run)
    requires Serial(r) && Enabled(r, Insert)
    ensures Serial(Step(p, r, Insert))
  {
    InsertCount(r.queue, r.id + 1, r.pc.evict);
    LaunchSerial(r, TaskQueues.Apply(r.queue, TaskQueues.Add(r.id + 1, r.pc.evict)));
  }

  lemma LaunchSerial(r: Run, queue: TaskQueues.Queue)
    requires Serial(r) && TaskQueues.CountValid(queue.tasks) <= 1
    ensures Serial(Launch(r, queue))
  {}

  lemma InsertCount(q: TaskQueues.Queue, id: nat, evict: bool)
    requires TaskQueues.CountValid(q.tasks) <= 1 && (evict || TaskQueues.CountValid(q.tasks) == 0)
    ensures TaskQueues.CountValid(TaskQueues.Apply(q, TaskQueues.Add(id, evict)).tasks) <= 1
  {
    TaskQueues.ApplyCount(q, TaskQueues.Add(id, evict));
  }

  lemma StepSerial(p: Policies, r: Run, e: Event)
    requires Never(p) && Serial(r) && Enabled(r, e)
    ensures Serial(Step(p, r, e))
  {
    match e {
      case Receive(Retry(err)) => RetrySerial(p, r, err);
      case Receive(Timeout(err)) => RetrySerial(p, r, err);
      case Insert => InsertSerial(p, r);
      case CloseOwn => TaskQueues.ApplyCount(r.queue, TaskQueues.Close);
      case OtherClose => TaskQueues.ApplyCount(r.queue, TaskQueues.Close);
      case OtherRemove(id) => TaskQueues.ApplyCount(r.queue, TaskQueues.Remove(id));
      case _ =>
    }
  }

  lemma {:induction false} RunsSerial(p: Policies, r: Run, es: seq<Event>)
    requires Never(p) && Serial(r) && Runs(p, r, es).Some?
    ensures Serial(Runs(p, r, es).value)
    decreases |es|
  {
    if es != [] {
      StepSerial(p, r, es[0]);
      RunsSerial(p, Step(p, r, es[0]), es[1..]);
    }
  }

  /** With overlap disabled at most one attempt is valid in every reachable state, and every attempt is told so. */
  lemma OneAtATime(p: Policies, es: seq<Event>)
    requires Never(p) && Runs(p, START, es).Some?
    ensures TaskQueues.CountValid(Runs(p, START, es).value.queue.tasks) <= 1
    ensures forall i | 0 <= i < |Runs(p, START, es).value.launched| ::
      Runs(p, START, es).value.launched[i].context.concurrencyNum <= 1
  {
    RunsSerial(p, START, es);
  }
}
