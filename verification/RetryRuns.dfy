/** What the attempts of a run are told, and which attempts a launch cancels. */
module RetryRuns {
  import opened Wrappers
  import TaskQueues
  import opened Retries

  // ----- the context of an attempt -----

  /** The error of an event that asks for a retry. */
  function ErrorOf(e: Event): seq<int> {
    match e
    case Receive(Retry(err)) => [err]
    case Receive(Timeout(err)) => [err]
    case _ => []
  }

  /** The errors that asked for a retry, in order. */
  function Errors(es: seq<Event>): seq<int> {
    if es == [] then [] else ErrorOf(es[0]) + Errors(es[1..])
  }

  function LastOf(errors: seq<int>): Option<int> {
    if errors == [] then None else Some(errors[|errors| - 1])
  }

  /** The context counts the errors so far and holds the last; an attempt was given the one it was launched for. */
  ghost predicate ContextInv(r: Run, errors: seq<int>) {
    && r.context.retryNum == |errors| && r.context.lastError == LastOf(errors)
    && |r.launched| <= |errors| + 1
    && forall i | 0 <= i < |r.launched| :: r.launched[i].context.lastError == LastOf(errors[..i])
  }

  lemma ContextStep(p: Policies, r: Run, e: Event, errors: seq<int>)
    requires Inv(p, r) && Enabled(r, e) && ContextInv(r, errors)
    ensures ContextInv(Step(p, r, e), errors + ErrorOf(e))
  {
    var more := errors + ErrorOf(e);
    assert errors + [] == errors && errors[..|errors|] == errors;
    assert forall i | 0 <= i <= |errors| :: more[..i] == errors[..i];
    if ErrorOf(e) != [] {
      assert more[|more| - 1] == ErrorOf(e)[0];
    }
  }

  lemma SeqAssoc(a: seq<int>, b: seq<int>, c: seq<int>)
    ensures a + (b + c) == a + b + c
  {}

  lemma {:induction false} ContextRun(p: Policies, r: Run, es: seq<Event>, errors: seq<int>)
    requires Inv(p, r) && Runs(p, r, es).Some? && ContextInv(r, errors)
    ensures ContextInv(Runs(p, r, es).value, errors + Errors(es))
    decreases |es|
  {
    if es == [] {
      assert errors + [] == errors;
    } else {
      StepInv(p, r, es[0]);
      ContextStep(p, r, es[0], errors);
      ContextRun(p, Step(p, r, es[0]), es[1..], errors + ErrorOf(es[0]));
      SeqAssoc(errors, ErrorOf(es[0]), Errors(es[1..]));
    }
  }

  /** In every run attempt `i` is told the error of the `i`-th retry or time-out signal, and the first none. */
  lemma ContextExact(p: Policies, es: seq<Event>)
    requires Runs(p, START, es).Some?
    ensures var launched := Runs(p, START, es).value.launched;
      && |launched| <= |Errors(es)| + 1
      && forall i | 0 <= i < |launched| ::
           launched[i].context.lastError == if i == 0 then None else Some(Errors(es)[i - 1])
  {
    StartInv(p);
    ContextRun(p, START, es, []);
    assert [] + Errors(es) == Errors(es);
    var launched := Runs(p, START, es).value.launched;
    forall i | 0 <= i < |launched|
      ensures launched[i].context.lastError == if i == 0 then None else Some(Errors(es)[i - 1])
    {
      assert i > 0 ==> Errors(es)[..i][i - 1] == Errors(es)[i - 1];
    }
  }

  // ----- what a launch cancels -----

  /** A launch evicts iff it is a retry for whose context overlap was refused. */
  predicate EvictInv(p: Policies, r: Run) {
    r.pc.Invoking? || r.pc.Adding? ==> r.pc.evict == (r.context.retryNum > 0 && !p.overlap(r.context))
  }

  lemma {:induction false} EvictRun(p: Policies, r: Run, es: seq<Event>)
    requires EvictInv(p, r) && Runs(p, r, es).Some?
    ensures EvictInv(p, Runs(p, r, es).value)
    decreases |es|
  {
    if es != [] {
      EvictRun(p, Step(p, r, es[0]), es[1..]);
    }
  }

  /** The oldest valid task of a queue. */
  predicate IsOldest(q: TaskQueues.Queue, k: nat) {
    k < |q.tasks| && q.tasks[k].valid
    && forall j | 0 <= j < |q.tasks| && q.tasks[j].valid :: q.tasks[k].cancel <= q.tasks[j].cancel
  }

  /**
   * In every run, launching attempt `i` cancels the oldest valid attempt, and only that one, if and only if it is a
   * retry for which the policy refused overlap; the new attempt is valid under its own id.
   */
  lemma LaunchCancels(p: Policies, es: seq<Event>)
    requires Runs(p, START, es).Some? && Runs(p, START, es).value.pc.Adding?
    ensures var r := Runs(p, START, es).value;
      var r' := Step(p, r, Insert);
      var i, q, q' := |r.launched|, r.queue, r'.queue;
      && |r'.launched| == i + 1 && |q'.tasks| == |q.tasks| + 1
      && q'.tasks[|q.tasks|] == TaskQueues.Task(r'.launched[i].id, i, true)
      && forall k: nat | k < |q.tasks| ::
           q'.tasks[k].valid <==>
             q.tasks[k].valid && !(i >= 1 && !p.overlap(r'.launched[i].context) && IsOldest(q, k))
  {
    var r := Runs(p, START, es).value;
    StartInv(p);
    RunsInv(p, START, es);
    EvictRun(p, START, es);
    var f := TaskQueues.FirstValid(r.queue.tasks);
    forall k: nat | k < |r.queue.tasks| ensures IsOldest(r.queue, k) <==> k == f {
      if k != f && r.queue.tasks[k].valid {
        assert r.queue.tasks[f].cancel < r.queue.tasks[k].cancel;
      }
    }
  }

  // ----- overlapping attempts -----

  ghost predicate Always(p: Policies) {
    forall c: TaskContext :: p.overlap(c)
  }

  /** Nothing is removed or closed. */
  predicate Undisturbed(es: seq<Event>) {
    forall i | 0 <= i < |es| :: !es[i].OtherRemove? && !es[i].OtherClose? && !es[i].CloseOwn?
  }

  /** All attempts are valid, and each was told how many ran when it was asked for. */
  ghost predicate OverlapInv(r: Run) {
    && !r.queue.closed && r.queue.calls == [] && |r.queue.tasks| == |r.launched|
    && (forall i | 0 <= i < |r.queue.tasks| :: r.queue.tasks[i].valid)
    && (r.pc.Invoking? || r.pc.Adding? ==> !r.pc.evict && r.context.concurrencyNum == r.context.retryNum)
    && forall i | 0 <= i < |r.launched| :: r.launched[i].context.concurrencyNum == i
  }

  lemma {:induction false} AllCounted(ts: seq<TaskQueues.Task>)
    requires forall i | 0 <= i < |ts| :: ts[i].valid
    ensures TaskQueues.CountValid(ts) == |ts|
  {
    if ts != [] {
      AllCounted(ts[..|ts| - 1]);
    }
  }

  lemma OverlapInsert(p: Policies, r: Run)
    requires Inv(p, r) && OverlapInv(r) && r.pc.Adding?
    ensures OverlapInv(Step(p, r, Insert))
  {
    assert r.queue.calls + [] == r.queue.calls;
  }

  lemma OverlapRetry(p: Policies, r: Run, e: int)
    requires Always(p) && Inv(p, r) && OverlapInv(r) && r.pc.Waiting?
    ensures OverlapInv(OnRetry(p, r, e))
  {
    AllCounted(r.queue.tasks);
  }

  lemma {:induction false} OverlapRun(p: Policies, r: Run, es: seq<Event>)
    requires Always(p) && Inv(p, r) && OverlapInv(r) && Runs(p, r, es).Some? && Undisturbed(es)
    ensures OverlapInv(Runs(p, r, es).value)
    decreases |es|
  {
    if es != [] {
      StepInv(p, r, es[0]);
      match es[0] {
        case Insert => OverlapInsert(p, r);
        case Receive(Retry(e)) => OverlapRetry(p, r, e);
        case Receive(Timeout(e)) => OverlapRetry(p, r, e);
        case _ =>
      }
      OverlapRun(p, Step(p, r, es[0]), es[1..]);
    }
  }

  /** With overlap always allowed, a run without removals and closes keeps every attempt valid and cancels none. */
  lemma AllOverlap(p: Policies, es: seq<Event>)
    requires Always(p) && Runs(p, START, es).Some? && Undisturbed(es)
    ensures var r := Runs(p, START, es).value;
      && r.queue.calls == [] && TaskQueues.CountValid(r.queue.tasks) == |r.launched|
      && forall i | 0 <= i < |r.launched| :: r.launched[i].context.concurrencyNum == i
  {
    StartInv(p);
    OverlapRun(p, START, es);
    AllCounted(Runs(p, START, es).value.queue.tasks);
  }

  // ----- the end -----

  /** Once the quit signal is taken nothing is launched or counted any more. */
  lemma {:induction false} NoneAfterQuit(p: Policies, r: Run, es: seq<Event>)
    requires r.pc.Waiting? && Runs(p, Step(p, r, Receive(Quit)), es).Some?
    ensures var r' := Runs(p, Step(p, r, Receive(Quit)), es).value;
      r'.launched == r.launched && r'.context == r.context && r'.id == r.id
  {
    EndedRun(p, Step(p, r, Receive(Quit)), es);
  }

  lemma {:induction false} EndedRun(p: Policies, r: Run, es: seq<Event>)
    requires r.pc.Ended? && Runs(p, r, es).Some?
    ensures var r' := Runs(p, r, es).value;
      r'.pc.Ended? && r'.launched == r.launched && r'.context == r.context && r'.id == r.id
    decreases |es|
  {
    if es != [] {
      EndedRun(p, Step(p, r, es[0]), es[1..]);
    }
  }

  lemma {:induction false} EndedFrom(p: Policies, r: Run, es: seq<Event>)
    requires !r.pc.Ended? && Runs(p, r, es).Some?
    ensures Runs(p, r, es).value.pc.Ended? <==> Receive(Quit) in es
    decreases |es|
  {
    if es != [] {
      assert es == [es[0]] + es[1..];
      var r' := Step(p, r, es[0]);
      if es[0] == Receive(Quit) {
        EndedRun(p, r', es[1..]);
      } else {
        EndedFrom(p, r', es[1..]);
      }
    }
  }

  /** The controller stops waiting for signals when, and only when, it has taken the quit signal. */
  lemma OnlyQuitEnds(p: Policies, es: seq<Event>)
    requires Runs(p, START, es).Some?
    ensures Runs(p, START, es).value.pc.Ended? <==> Receive(Quit) in es
  {
    EndedFrom(p, START, es);
  }
}
