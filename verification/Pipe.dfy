/**
 * One direction of the in-process stream: a bounded channel, the read-write lock and closed flag
 * that guard it, and the goroutines that are inside `Send`.
 */
module Pipes {
  const QUEUE_DEPTH := 16

  datatype Payload = Data(d: int) | Status(e: int)

  /** Where a goroutine is inside `Send`. */
  datatype SendPc =
    | Waiting   // passed the unlocked check of the closed flag
    | Holding   // has the read lock and passed the second check
    | Selecting // passed the check of the cancel context, in the final select

  datatype Sender = Sender(pc: SendPc, payload: Payload)

  /** Where `Close` is. */
  datatype Closing = NotClosing | Locked | FlagSet

  /** A payload that left the channel, delivered or thrown away by a cancelled `Recv`. */
  datatype Taken = Taken(payload: Payload, kept: bool)

  datatype Pipe = Pipe(
    buf: seq<Payload>,
    channelClosed: bool,
    closed: bool,
    closing: Closing,
    senders: map<nat, Sender>,
    accepted: seq<Payload>,  // history: everything ever put on the channel
    taken: seq<Taken>,       // history: everything ever taken off it
    eofSeen: bool)           // history: a `Recv` has returned EOF

  const EMPTY := Pipe([], false, false, NotClosing, map[], [], [], false)

  /** The contexts both ends select on. */
  datatype Env = Env(cancelled: bool, closeDone: bool)

  datatype Action =
    | Begin(t: nat, payload: Payload)
    | Acquire(t: nat)
    | CheckCancel(t: nat)
    | Commit(t: nat)
    | Abort(t: nat)
    | CloseLock
    | CloseFlag
    | CloseChannel
    | Take
    | Discard
    | SeeEof

  predicate HasLock(s: Sender) {
    s.pc != Waiting
  }

  predicate NoReader(p: Pipe) {
    forall t | t in p.senders :: !HasLock(p.senders[t])
  }

  predicate Enabled(p: Pipe, env: Env, a: Action) {
    match a
    case Begin(t, _) => t !in p.senders && !p.closed
    case Acquire(t) => t in p.senders && p.senders[t].pc == Waiting && p.closing == NotClosing
    case CheckCancel(t) => t in p.senders && p.senders[t].pc == Holding
    case Commit(t) => t in p.senders && p.senders[t].pc == Selecting && |p.buf| < QUEUE_DEPTH
    case Abort(t) => t in p.senders && p.senders[t].pc == Selecting && (env.cancelled || env.closeDone)
    case CloseLock => p.closing == NotClosing && NoReader(p) && !p.closed
    case CloseFlag => p.closing == Locked
    case CloseChannel => p.closing == FlagSet
    case Take => p.buf != []
    case Discard => p.buf != [] && env.cancelled
    case SeeEof => p.buf == [] && p.channelClosed
  }

  function Move(p: Pipe, t: nat, pc: SendPc): Pipe
    requires t in p.senders
  {
    p.(senders := p.senders[t := p.senders[t].(pc := pc)])
  }

  function Leave(p: Pipe, t: nat): Pipe {
    p.(senders := p.senders - {t})
  }

  function Step(p: Pipe, env: Env, a: Action): Pipe
    requires Enabled(p, env, a)
  {
    match a
    case Begin(t, payload) => p.(senders := p.senders[t := Sender(Waiting, payload)])
    case Acquire(t) => if p.closed then Leave(p, t) else Move(p, t, Holding)
    case CheckCancel(t) => if env.cancelled then Leave(p, t) else Move(p, t, Selecting)
    case Commit(t) =>
      var m := p.senders[t].payload;
      Leave(p, t).(buf := p.buf + [m], accepted := p.accepted + [m])
    case Abort(t) => Leave(p, t)
    case CloseLock => p.(closing := Locked)
    case CloseFlag => p.(closing := FlagSet, closed := true)
    case CloseChannel => p.(closing := NotClosing, channelClosed := true)
    case Take => p.(buf := p.buf[1..], taken := p.taken + [Taken(p.buf[0], true)])
    case Discard => p.(buf := p.buf[1..], taken := p.taken + [Taken(p.buf[0], false)])
    case SeeEof => p.(eofSeen := true)
  }

  /** The Go runtime would panic: a send on, or a second close of, a closed channel. */
  predicate Panics(p: Pipe, a: Action) {
    (a.Commit? || a.CloseChannel?) && p.channelClosed
  }

  function Payloads(taken: seq<Taken>): (r: seq<Payload>)
    ensures |r| == |taken|
  {
    seq(|taken|, i requires 0 <= i < |taken| => taken[i].payload)
  }

  /** Every accepted payload was delivered, thrown away or is still buffered, in order and once. */
  ghost predicate Conserved(p: Pipe) {
    p.accepted == Payloads(p.taken) + p.buf
  }

  ghost predicate Inv(p: Pipe, env: Env) {
    && Conserved(p) && |p.buf| <= QUEUE_DEPTH
    && (p.closing == Locked ==> !p.closed && NoReader(p))
    && (p.closing == FlagSet ==> p.closed && !p.channelClosed && NoReader(p))
    && (p.closing == NotClosing ==> (p.closed <==> p.channelClosed))
    && (p.channelClosed ==> p.closed && NoReader(p))
    && (p.eofSeen ==> p.channelClosed && p.buf == [])
    && (!env.cancelled ==> forall i | 0 <= i < |p.taken| :: p.taken[i].kept)
  }

  lemma TakeConserves(p: Pipe, kept: bool)
    requires Conserved(p) && p.buf != []
    ensures Payloads(p.taken + [Taken(p.buf[0], kept)]) + p.buf[1..] == p.accepted
  {
    var taken := p.taken + [Taken(p.buf[0], kept)];
    assert Payloads(taken) == Payloads(p.taken) + [p.buf[0]];
    assert p.buf == [p.buf[0]] + p.buf[1..];
  }

  /** No step breaks the invariant, and no enabled step would panic. */
  lemma StepInv(p: Pipe, env: Env, a: Action)
    requires Inv(p, env) && Enabled(p, env, a)
    ensures Inv(Step(p, env, a), env) && !Panics(p, a)
  {
    match a {
      case Take => TakeConserves(p, true);
      case Discard => TakeConserves(p, false);
      case Commit(t) =>
        var m := p.senders[t].payload;
        assert HasLock(p.senders[t]);
        assert Payloads(p.taken) + (p.buf + [m]) == Payloads(p.taken) + p.buf + [m];
      case Acquire(t) =>
        assert p.closed ==> p.channelClosed;
      case _ =>
    }
  }

  /** The contexts only ever become done; that keeps the invariant too. */
  lemma EnvInv(p: Pipe, env: Env, env': Env)
    requires Inv(p, env) && (env.cancelled ==> env'.cancelled)
    ensures Inv(p, env')
  {}

  /** Once the channel is closed nothing more is accepted. */
  lemma ClosedAcceptsNothing(p: Pipe, env: Env, a: Action)
    requires Inv(p, env) && Enabled(p, env, a) && p.channelClosed
    ensures Step(p, env, a).channelClosed && Step(p, env, a).accepted == p.accepted
  {
    StepInv(p, env, a);
  }

  function Received(taken: seq<Taken>): seq<Payload> {
    if taken == [] then []
    else Received(taken[..|taken| - 1]) + if taken[|taken| - 1].kept then [taken[|taken| - 1].payload] else []
  }

  lemma {:induction false} ReceivedAll(taken: seq<Taken>)
    requires forall i | 0 <= i < |taken| :: taken[i].kept
    ensures Received(taken) == Payloads(taken)
  {
    if taken != [] {
      var n := |taken| - 1;
      ReceivedAll(taken[..n]);
      assert Payloads(taken) == Payloads(taken[..n]) + [taken[n].payload];
    }
  }

  /** Until the cancel nothing is lost: what was accepted is what was delivered and what is buffered. */
  lemma NothingLost(p: Pipe, env: Env)
    requires Inv(p, env) && !env.cancelled
    ensures p.accepted == Received(p.taken) + p.buf
  {
    ReceivedAll(p.taken);
  }
}
