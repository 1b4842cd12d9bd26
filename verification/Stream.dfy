/** The in-process bidirectional stream as a step relation over interleaved client and server actions. */
module Streams {
  import opened Wrappers
  import opened Pipes

  /** The goroutine id under which the server sends. */
  const SERVER: nat := 0

  /** Where the server's sending goroutine is. */
  datatype ServerPc =
    | Idle
    | MsgHeader(d: int)               // in SendMsg, before SendHeader
    | MsgReady(d: int)                // in SendMsg, after SendHeader
    | MsgSending                      // in SendMsg, inside Send
    | StatusStart(e: Option<int>)     // in WriteStatus, before SendHeader
    | StatusReady(e: Option<int>)     // in WriteStatus, after SendHeader
    | StatusSending                   // in WriteStatus, inside Send
    | StatusCancel                    // in WriteStatus, before srvCloseFunc
    | StatusClose                     // in WriteStatus, inside Close
    | StatusDone                      // in WriteStatus, before srvClosed is set

  datatype Stream = Stream(
    c2s: Pipe,
    s2c: Pipe,
    env: Env,
    srvClosed: bool,
    headerSent: bool,
    header: seq<int>,
    server: ServerPc)

  const START := Stream(EMPTY, EMPTY, Env(false, false), false, false, [], Idle)

  datatype StreamAction =
    | ClientSend(a: Action)       // a goroutine of the client inside SendMsg or CloseSend
    | ClientRecv(a: Action)
    | ServerRecv(a: Action)
    | Cancel
    | SetHeader(md: seq<int>)     // any goroutine of the server
    | SendHeader
    | CallSendMsg(d: int)
    | CallWriteStatus(e: Option<int>)
    | ServerHeader                // the header step of SendMsg and WriteStatus
    | ServerBegin                 // the first check of Send
    | ServerSend(a: Action)       // a later step of Send
    | ServerCancel
    | ServerClose(a: Action)
    | ServerFinish

  predicate IsRecv(a: Action) {
    a.Take? || a.Discard? || a.SeeEof?
  }

  predicate IsClose(a: Action) {
    a.CloseLock? || a.CloseFlag? || a.CloseChannel?
  }

  predicate IsSend(a: Action) {
    a.Acquire? || a.CheckCancel? || a.Commit? || a.Abort?
  }

  predicate StreamEnabled(s: Stream, x: StreamAction) {
    match x
    case ClientSend(a) =>
      && !IsRecv(a) && Enabled(s.c2s, s.env, a)
      && (a.Begin? ==> !s.srvClosed && a.payload.Data?)
    case ClientRecv(a) => IsRecv(a) && Enabled(s.s2c, s.env, a)
    case ServerRecv(a) => IsRecv(a) && Enabled(s.c2s, s.env, a)
    case Cancel => true
    case SetHeader(_) => true
    case SendHeader => true
    case CallSendMsg(_) => s.server == Idle
    case CallWriteStatus(_) => s.server == Idle
    case ServerHeader => s.server.MsgHeader? || s.server.StatusStart?
    case ServerBegin => s.server.MsgReady? || s.server.StatusReady?
    case ServerSend(a) =>
      (s.server.MsgSending? || s.server.StatusSending?) && IsSend(a) && a.t == SERVER && Enabled(s.s2c, s.env, a)
    case ServerCancel => s.server.StatusCancel?
    case ServerClose(a) => s.server.StatusClose? && IsClose(a) && Enabled(s.s2c, s.env, a)
    case ServerFinish => s.server.StatusDone?
  }

  function BeginServer(s: Stream, m: Payload, inside: ServerPc, failed: ServerPc): Stream {
    if s.s2c.closed || SERVER in s.s2c.senders then s.(server := failed)
    else s.(s2c := Step(s.s2c, s.env, Begin(SERVER, m)), server := inside)
  }

  function StreamStep(s: Stream, x: StreamAction): Stream
    requires StreamEnabled(s, x)
  {
    match x
    case ClientSend(a) => s.(c2s := Step(s.c2s, s.env, a))
    case ClientRecv(a) => s.(s2c := Step(s.s2c, s.env, a))
    case ServerRecv(a) => s.(c2s := Step(s.c2s, s.env, a))
    case Cancel => s.(env := s.env.(cancelled := true))
    case SetHeader(md) => if s.headerSent || s.srvClosed then s else s.(header := s.header + md)
    case SendHeader => if s.srvClosed then s else s.(headerSent := true)
    case CallSendMsg(d) => s.(server := MsgHeader(d))
    case CallWriteStatus(e) => if s.srvClosed then s else s.(server := StatusStart(e))
    case ServerHeader =>
      var next := if s.server.MsgHeader? then MsgReady(s.server.d) else StatusReady(s.server.e);
      if s.srvClosed then s.(server := next) else s.(headerSent := true, server := next)
    case ServerBegin =>
      (match s.server
       case MsgReady(d) => BeginServer(s, Data(d), MsgSending, Idle)
       case StatusReady(e) =>
         if e.None? then s.(server := StatusCancel) else BeginServer(s, Status(e.value), StatusSending, StatusCancel)
       case _ => s)
    case ServerSend(a) =>
      var p := Step(s.s2c, s.env, a);
      var next := if SERVER in p.senders then s.server else if s.server == MsgSending then Idle else StatusCancel;
      s.(s2c := p, server := next)
    case ServerCancel =>
      s.(env := s.env.(closeDone := true), server := if s.s2c.closed then StatusDone else StatusClose)
    case ServerClose(a) =>
      s.(s2c := Step(s.s2c, s.env, a), server := if a.CloseChannel? then StatusDone else StatusClose)
    case ServerFinish => s.(srvClosed := true, server := Idle)
  }

  // ----- the invariant -----

  predicate NoStatus(ms: seq<Payload>) {
    forall i | 0 <= i < |ms| :: ms[i].Data?
  }

  /** A status comes last. */
  predicate StatusLast(ms: seq<Payload>) {
    forall i | 0 <= i < |ms| - 1 :: ms[i].Data?
  }

  /** The server is between the status and the end of WriteStatus. */
  predicate Ending(pc: ServerPc) {
    pc.StatusCancel? || pc.StatusClose? || pc.StatusDone?
  }

  ghost predicate ClientInv(s: Stream) {
    && Inv(s.c2s, s.env) && NoStatus(s.c2s.accepted)
    && forall t | t in s.c2s.senders :: s.c2s.senders[t].payload.Data?
  }

  ghost predicate ServerInv(s: Stream) {
    && Inv(s.s2c, s.env)
    && (forall t | t in s.s2c.senders :: t == SERVER)
    && (SERVER in s.s2c.senders <==> s.server.MsgSending? || s.server.StatusSending?)
    && (s.server.MsgSending? ==> s.s2c.senders[SERVER].payload.Data?)
    && (s.s2c.closing != NotClosing ==> s.server.StatusClose?)
    && (s.server.StatusClose? ==> (s.s2c.closed <==> s.s2c.closing == FlagSet))
    && (s.server.StatusDone? || s.srvClosed ==> s.s2c.channelClosed)
    && (s.s2c.closed ==> s.server.StatusClose? || s.server.StatusDone? || s.srvClosed)
    && (s.srvClosed ==> s.server.Idle? || s.server.MsgHeader? || s.server.MsgReady?)
    && StatusLast(s.s2c.accepted)
    && (!s.srvClosed && !Ending(s.server) ==> NoStatus(s.s2c.accepted))
  }

  ghost predicate HeaderInv(s: Stream) {
    && (s.s2c.accepted != [] || s.s2c.senders != map[] || s.srvClosed ==> s.headerSent)
    && (s.server.Idle? || s.server.MsgHeader? || s.server.StatusStart? || s.headerSent)
  }

  ghost predicate StreamInv(s: Stream) {
    ClientInv(s) && ServerInv(s) && HeaderInv(s)
  }

  /** Some enabled step of the stream would panic. */
  predicate StreamPanics(s: Stream, x: StreamAction) {
    match x
    case ClientSend(a) => Panics(s.c2s, a)
    case ServerSend(a) => Panics(s.s2c, a)
    case ServerClose(a) => Panics(s.s2c, a)
    case _ => false
  }

  // ----- every step keeps the invariant -----

  lemma ClientInvStep(s: Stream, a: Action)
    requires ClientInv(s) && Enabled(s.c2s, s.env, a) && (a.Begin? ==> a.payload.Data?)
    ensures ClientInv(s.(c2s := Step(s.c2s, s.env, a))) && !Panics(s.c2s, a)
  {
    StepInv(s.c2s, s.env, a);
  }

  lemma ClientStep(s: Stream, x: StreamAction)
    requires StreamInv(s) && StreamEnabled(s, x) && (x.ClientSend? || x.ServerRecv?)
    ensures StreamInv(StreamStep(s, x)) && !StreamPanics(s, x)
  {
    ClientInvStep(s, x.a);
  }

  lemma RecvStep(s: Stream, x: StreamAction)
    requires StreamInv(s) && StreamEnabled(s, x) && x.ClientRecv?
    ensures StreamInv(StreamStep(s, x))
  {
    StepInv(s.s2c, s.env, x.a);
  }

  lemma ServerSendStep(s: Stream, x: StreamAction)
    requires StreamInv(s) && StreamEnabled(s, x) && x.ServerSend?
    ensures StreamInv(StreamStep(s, x)) && !StreamPanics(s, x)
  {
    StepInv(s.s2c, s.env, x.a);
    var p := Step(s.s2c, s.env, x.a);
    assert !s.s2c.closed;
    assert p.senders == map[] || SERVER in p.senders;
  }

  lemma ServerBeginStep(s: Stream)
    requires StreamInv(s) && StreamEnabled(s, ServerBegin)
    ensures StreamInv(StreamStep(s, ServerBegin))
  {
    if !s.s2c.closed && SERVER !in s.s2c.senders {
      var m := match s.server case MsgReady(d) => Data(d) case _ => Status(0);
      StepInv(s.s2c, s.env, Begin(SERVER, m));
    }
  }

  lemma ServerCloseStep(s: Stream, x: StreamAction)
    requires StreamInv(s) && StreamEnabled(s, x) && x.ServerClose?
    ensures StreamInv(StreamStep(s, x)) && !StreamPanics(s, x)
  {
    StepInv(s.s2c, s.env, x.a);
  }

  lemma EnvStep(s: Stream, x: StreamAction)
    requires StreamInv(s) && StreamEnabled(s, x) && (x.Cancel? || x.ServerCancel?)
    ensures StreamInv(StreamStep(s, x))
  {
    var env' := StreamStep(s, x).env;
    EnvInv(s.c2s, s.env, env');
    EnvInv(s.s2c, s.env, env');
  }

  /** Every action keeps the invariant, and no enabled action panics. */
  lemma AnyStep(s: Stream, x: StreamAction)
    requires StreamInv(s) && StreamEnabled(s, x)
    ensures StreamInv(StreamStep(s, x)) && !StreamPanics(s, x)
  {
    match x {
      case ClientSend(_) => ClientStep(s, x);
      case ServerRecv(_) => ClientStep(s, x);
      case ClientRecv(_) => RecvStep(s, x);
      case ServerSend(_) => ServerSendStep(s, x);
      case ServerBegin => ServerBeginStep(s);
      case ServerClose(_) => ServerCloseStep(s, x);
      case Cancel => EnvStep(s, x);
      case ServerCancel => EnvStep(s, x);
      case _ =>
    }
  }

  // ----- runs -----

  /** The state after a run of enabled actions, `None` if one is not enabled. */
  function Run(s: Stream, xs: seq<StreamAction>): Option<Stream>
    decreases |xs|
  {
    if xs == [] then Some(s)
    else if StreamEnabled(s, xs[0]) then Run(StreamStep(s, xs[0]), xs[1..])
    else None
  }

  lemma {:induction false} RunInv(s: Stream, xs: seq<StreamAction>)
    requires StreamInv(s) && Run(s, xs).Some?
    ensures StreamInv(Run(s, xs).value)
    decreases |xs|
  {
    if xs != [] {
      AnyStep(s, xs[0]);
      RunInv(StreamStep(s, xs[0]), xs[1..]);
    }
  }

  /** A status the client took was the last payload ever accepted, and everything before it was taken first. */
  lemma StatusAfterData(s: Stream, i: nat)
    requires StreamInv(s) && i < |s.s2c.taken| && s.s2c.taken[i].payload.Status?
    ensures s.s2c.buf == [] && i == |s.s2c.taken| - 1 && Payloads(s.s2c.taken) == s.s2c.accepted
  {
    assert s.s2c.accepted[i] == Payloads(s.s2c.taken)[i];
  }

  /** What holds in every state that a new stream can reach, in every interleaving. */
  ghost predicate Safe(s: Stream) {
    // each direction conserves its payloads in order, with at most 16 in flight
    && Conserved(s.c2s) && Conserved(s.s2c)
    && |s.c2s.buf| <= QUEUE_DEPTH && |s.s2c.buf| <= QUEUE_DEPTH
    // nothing is lost before the cancel
    && (!s.env.cancelled ==> s.c2s.accepted == Received(s.c2s.taken) + s.c2s.buf)
    && (!s.env.cancelled ==> s.s2c.accepted == Received(s.s2c.taken) + s.s2c.buf)
    // EOF is seen only after everything accepted was taken
    && (s.c2s.eofSeen ==> Payloads(s.c2s.taken) == s.c2s.accepted && s.c2s.channelClosed)
    && (s.s2c.eofSeen ==> Payloads(s.s2c.taken) == s.s2c.accepted && s.s2c.channelClosed)
    // the final status is seen only after everything else
    && (forall i | 0 <= i < |s.s2c.taken| && s.s2c.taken[i].payload.Status? ::
          i == |s.s2c.taken| - 1 && s.s2c.buf == [])
    // a server payload in flight implies that the header was sent
    && (s.s2c.accepted != [] ==> s.headerSent)
  }

  lemma InvSafe(s: Stream)
    requires StreamInv(s)
    ensures Safe(s)
  {
    if !s.env.cancelled {
      NothingLost(s.c2s, s.env);
      NothingLost(s.s2c, s.env);
    }
    assert s.c2s.buf == [] ==> Payloads(s.c2s.taken) + s.c2s.buf == Payloads(s.c2s.taken);
    assert s.s2c.buf == [] ==> Payloads(s.s2c.taken) + s.s2c.buf == Payloads(s.s2c.taken);
    forall i | 0 <= i < |s.s2c.taken| && s.s2c.taken[i].payload.Status?
      ensures i == |s.s2c.taken| - 1 && s.s2c.buf == []
    {
      StatusAfterData(s, i);
    }
  }

  /** Every run of a new stream stays safe, and no action it can take next panics. */
  lemma RunSafe(xs: seq<StreamAction>)
    requires Run(START, xs).Some?
    ensures Safe(Run(START, xs).value)
    ensures forall x | StreamEnabled(Run(START, xs).value, x) :: !StreamPanics(Run(START, xs).value, x)
  {
    assert StreamInv(START);
    RunInv(START, xs);
    var s := Run(START, xs).value;
    InvSafe(s);
    forall x | StreamEnabled(s, x) ensures !StreamPanics(s, x) {
      AnyStep(s, x);
    }
  }

  /** Once a channel is closed or the header is sent, later steps leave what they fixed alone. */
  ghost predicate Later(s: Stream, t: Stream) {
    && PipeLater(s.c2s, t.c2s) && PipeLater(s.s2c, t.s2c)
    && (s.headerSent ==> t.headerSent && t.header == s.header)
  }

  ghost predicate PipeLater(p: Pipe, q: Pipe) {
    && p.accepted <= q.accepted
    && (p.channelClosed ==> q.channelClosed && q.accepted == p.accepted)
  }

  lemma PipeStepLater(p: Pipe, env: Env, a: Action)
    requires Inv(p, env) && Enabled(p, env, a)
    ensures PipeLater(p, Step(p, env, a))
  {
    if p.channelClosed {
      ClosedAcceptsNothing(p, env, a);
    }
  }

  lemma StepLater(s: Stream, x: StreamAction)
    requires StreamInv(s) && StreamEnabled(s, x)
    ensures Later(s, StreamStep(s, x))
  {
    match x {
      case ClientSend(a) => PipeStepLater(s.c2s, s.env, a);
      case ServerRecv(a) => PipeStepLater(s.c2s, s.env, a);
      case ClientRecv(a) => PipeStepLater(s.s2c, s.env, a);
      case ServerSend(a) => PipeStepLater(s.s2c, s.env, a);
      case ServerClose(a) => PipeStepLater(s.s2c, s.env, a);
      case _ =>
    }
  }

  /** Header and closed channels are final: nothing is accepted after a close, in any continuation. */
  lemma {:induction false} RunLater(s: Stream, xs: seq<StreamAction>)
    requires StreamInv(s) && Run(s, xs).Some?
    ensures Later(s, Run(s, xs).value)
    decreases |xs|
  {
    if xs != [] {
      AnyStep(s, xs[0]);
      StepLater(s, xs[0]);
      RunLater(StreamStep(s, xs[0]), xs[1..]);
    }
  }
}
