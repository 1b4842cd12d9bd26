/** Runs that the stream has: every message and the status can get through, and the channel holds its full depth. */
module StreamRuns {
  import opened Wrappers
  import opened Pipes
  import opened Streams

  /** The server is between calls, and nothing has ended. */
  predicate Open(s: Stream) {
    && s.server == Idle && !s.env.cancelled && !s.env.closeDone && !s.srvClosed
    && !s.s2c.closed && !s.s2c.channelClosed && s.s2c.closing == NotClosing && s.s2c.senders == map[]
  }

  function Put(p: Pipe, m: Payload): Pipe {
    p.(buf := p.buf + [m], accepted := p.accepted + [m])
  }

  function Got(p: Pipe): Pipe
    requires p.buf != []
  {
    p.(buf := p.buf[1..], taken := p.taken + [Taken(p.buf[0], true)])
  }

  lemma RunOne(s: Stream, x: StreamAction, xs: seq<StreamAction>)
    requires StreamEnabled(s, x)
    ensures Run(s, [x] + xs) == Run(StreamStep(s, x), xs)
  {
    assert ([x] + xs)[1..] == xs;
  }

  lemma {:induction false} RunAppend(s: Stream, xs: seq<StreamAction>, ys: seq<StreamAction>)
    requires Run(s, xs).Some?
    ensures Run(s, xs + ys) == Run(Run(s, xs).value, ys)
    decreases |xs|
  {
    if xs == [] {
      assert xs + ys == ys;
    } else {
      assert (xs + ys)[1..] == xs[1..] + ys;
      RunAppend(StreamStep(s, xs[0]), xs[1..], ys);
    }
  }

  // ----- one call of Send -----

  const THROUGH := [ServerSend(Acquire(SERVER)), ServerSend(CheckCancel(SERVER)), ServerSend(Commit(SERVER))]

  /** The server inside Send, with nothing against it. */
  ghost predicate Sending(s: Stream, pc: SendPc, m: Payload) {
    && !s.env.cancelled && !s.s2c.closed && s.s2c.closing == NotClosing
    && s.s2c.senders == map[SERVER := Sender(pc, m)] && |s.s2c.buf| < QUEUE_DEPTH
    && (s.server == MsgSending || s.server == StatusSending)
  }

  function At(s: Stream, pc: SendPc, m: Payload): Stream {
    s.(s2c := s.s2c.(senders := map[SERVER := Sender(pc, m)]))
  }

  /** The server behind Send. */
  function Through(s: Stream, m: Payload): Stream {
    s.(s2c := Put(s.s2c, m).(senders := map[]), server := if s.server == MsgSending then Idle else StatusCancel)
  }

  lemma AcquireOne(s: Stream, m: Payload)
    requires Sending(s, Waiting, m)
    ensures StreamEnabled(s, THROUGH[0]) && StreamStep(s, THROUGH[0]) == At(s, Holding, m)
    ensures Sending(At(s, Holding, m), Holding, m)
  {}

  lemma CheckOne(s: Stream, m: Payload)
    requires Sending(s, Holding, m)
    ensures StreamEnabled(s, THROUGH[1]) && StreamStep(s, THROUGH[1]) == At(s, Selecting, m)
    ensures Sending(At(s, Selecting, m), Selecting, m)
  {}

  lemma CommitOne(s: Stream, m: Payload)
    requires Sending(s, Selecting, m)
    ensures StreamEnabled(s, THROUGH[2]) && StreamStep(s, THROUGH[2]) == Through(s, m)
  {
    assert s.s2c.senders - {SERVER} == map[];
  }

  lemma SendThrough(s: Stream, m: Payload)
    requires Sending(s, Waiting, m)
    ensures Run(s, THROUGH) == Some(Through(s, m))
  {
    var s1 := At(s, Holding, m);
    var s2 := At(s1, Selecting, m);
    AcquireOne(s, m);
    CheckOne(s1, m);
    CommitOne(s2, m);
    RunOne(s2, THROUGH[2], []);
    RunOne(s1, THROUGH[1], [THROUGH[2]] + []);
    RunOne(s, THROUGH[0], [THROUGH[1]] + ([THROUGH[2]] + []));
    assert THROUGH == [THROUGH[0]] + ([THROUGH[1]] + ([THROUGH[2]] + []));
    assert Through(s2, m) == Through(s, m);
  }

  /** SendMsg, undisturbed. */
  function SendSteps(d: int): seq<StreamAction> {
    [CallSendMsg(d), ServerHeader, ServerBegin] + THROUGH
  }

  lemma SendOne(s: Stream, d: int)
    requires Open(s) && |s.s2c.buf| < QUEUE_DEPTH
    ensures Run(s, SendSteps(d)) == Some(s.(headerSent := true, s2c := Put(s.s2c, Data(d))))
  {
    var s1 := StreamStep(s, CallSendMsg(d));
    var s2 := StreamStep(s1, ServerHeader);
    var s3 := StreamStep(s2, ServerBegin);
    assert s3 == s.(headerSent := true, server := MsgSending,
                    s2c := s.s2c.(senders := map[SERVER := Sender(Waiting, Data(d))]));
    SendThrough(s3, Data(d));
    RunOne(s2, ServerBegin, THROUGH);
    RunOne(s1, ServerHeader, [ServerBegin] + THROUGH);
    RunOne(s, CallSendMsg(d), [ServerHeader] + ([ServerBegin] + THROUGH));
    assert SendSteps(d) == [CallSendMsg(d)] + ([ServerHeader] + ([ServerBegin] + THROUGH));
    assert Put(s.s2c, Data(d)).(senders := map[]) == Put(s.s2c, Data(d));
  }

  lemma TakeOne(s: Stream)
    requires s.s2c.buf != []
    ensures Run(s, [ClientRecv(Take)]) == Some(s.(s2c := Got(s.s2c)))
  {
    assert [ClientRecv(Take)][1..] == [];
    assert Run(s.(s2c := Got(s.s2c)), []) == Some(s.(s2c := Got(s.s2c)));
  }

  // ----- the channel holds sixteen -----

  function Datas(ds: seq<int>): (ms: seq<Payload>)
    ensures |ms| == |ds|
  {
    seq(|ds|, i requires 0 <= i < |ds| => Data(ds[i]))
  }

  /** As many messages as the channel is deep can be sent before the client takes any. */
  lemma {:induction false} CanBuffer(ds: seq<int>) returns (xs: seq<StreamAction>)
    requires |ds| <= QUEUE_DEPTH
    ensures Run(START, xs).Some? && Open(Run(START, xs).value)
    ensures var p := Run(START, xs).value.s2c; p.buf == p.accepted == Datas(ds) && p.taken == []
  {
    if ds == [] {
      xs := [];
    } else {
      var n := |ds| - 1;
      var ys := CanBuffer(ds[..n]);
      var s := Run(START, ys).value;
      SendOne(s, ds[n]);
      xs := ys + SendSteps(ds[n]);
      RunAppend(START, ys, SendSteps(ds[n]));
      assert Datas(ds) == Datas(ds[..n]) + [Data(ds[n])];
    }
  }

  // ----- everything gets through -----

  function Kept(ms: seq<Payload>): (r: seq<Taken>)
    ensures |r| == |ms|
  {
    seq(|ms|, i requires 0 <= i < |ms| => Taken(ms[i], true))
  }

  lemma {:induction false} CanDeliver(ds: seq<int>) returns (xs: seq<StreamAction>)
    ensures Run(START, xs).Some? && Open(Run(START, xs).value)
    ensures var p := Run(START, xs).value.s2c; p.buf == [] && p.taken == Kept(Datas(ds)) && !p.eofSeen
  {
    if ds == [] {
      xs := [];
    } else {
      var n := |ds| - 1;
      var ys := CanDeliver(ds[..n]);
      var s := Run(START, ys).value;
      SendOne(s, ds[n]);
      var t := Run(s, SendSteps(ds[n])).value;
      TakeOne(t);
      RunAppend(s, SendSteps(ds[n]), [ClientRecv(Take)]);
      RunAppend(START, ys, SendSteps(ds[n]) + [ClientRecv(Take)]);
      xs := ys + (SendSteps(ds[n]) + [ClientRecv(Take)]);
      assert t.s2c.buf == [Data(ds[n])];
      assert Datas(ds) == Datas(ds[..n]) + [Data(ds[n])];
      assert Kept(Datas(ds)) == Kept(Datas(ds[..n])) + [Taken(Data(ds[n]), true)];
    }
  }

  // ----- the status, and the end -----

  const CLOSING :=
    [ServerCancel, ServerClose(CloseLock), ServerClose(CloseFlag), ServerClose(CloseChannel), ServerFinish]

  lemma CloseDown(s: Stream)
    requires s.server == StatusCancel && !s.s2c.closed && s.s2c.closing == NotClosing && s.s2c.senders == map[]
    ensures Run(s, CLOSING) == Some(s.(
      env := s.env.(closeDone := true), s2c := s.s2c.(closed := true, channelClosed := true),
      srvClosed := true, server := Idle))
  {
    var s1 := StreamStep(s, ServerCancel);
    CloseSteps(s1);
    RunOne(s, ServerCancel, CLOSING[1..]);
    assert CLOSING == [ServerCancel] + CLOSING[1..];
  }

  lemma CloseSteps(s: Stream)
    requires s.server == StatusClose && !s.s2c.closed && s.s2c.closing == NotClosing && s.s2c.senders == map[]
    ensures Run(s, CLOSING[1..]) == Some(s.(
      s2c := s.s2c.(closed := true, channelClosed := true), srvClosed := true, server := Idle))
  {
    var s2 := StreamStep(s, ServerClose(CloseLock));
    var s3 := StreamStep(s2, ServerClose(CloseFlag));
    var s4 := StreamStep(s3, ServerClose(CloseChannel));
    var s5 := StreamStep(s4, ServerFinish);
    RunOne(s4, ServerFinish, []);
    RunOne(s3, ServerClose(CloseChannel), [ServerFinish] + []);
    RunOne(s2, ServerClose(CloseFlag), [ServerClose(CloseChannel)] + ([ServerFinish] + []));
    RunOne(s, ServerClose(CloseLock),
           [ServerClose(CloseFlag)] + ([ServerClose(CloseChannel)] + ([ServerFinish] + [])));
    assert CLOSING[1..] == [ServerClose(CloseLock)]
      + ([ServerClose(CloseFlag)] + ([ServerClose(CloseChannel)] + ([ServerFinish] + [])));
    assert Run(s5, []) == Some(s5);
  }

  /** WriteStatus with an error, undisturbed, and the client to the end of the stream. */
  function StatusSteps(e: int): seq<StreamAction> {
    [CallWriteStatus(Some(e)), ServerHeader, ServerBegin] + THROUGH
  }

  lemma StatusOne(s: Stream, e: int)
    requires Open(s) && |s.s2c.buf| < QUEUE_DEPTH
    ensures Run(s, StatusSteps(e))
         == Some(s.(headerSent := true, s2c := Put(s.s2c, Status(e)), server := StatusCancel))
  {
    var s1 := StreamStep(s, CallWriteStatus(Some(e)));
    var s2 := StreamStep(s1, ServerHeader);
    var s3 := StreamStep(s2, ServerBegin);
    assert s3 == s.(headerSent := true, server := StatusSending,
                    s2c := s.s2c.(senders := map[SERVER := Sender(Waiting, Status(e))]));
    SendThrough(s3, Status(e));
    RunOne(s2, ServerBegin, THROUGH);
    RunOne(s1, ServerHeader, [ServerBegin] + THROUGH);
    RunOne(s, CallWriteStatus(Some(e)), [ServerHeader] + ([ServerBegin] + THROUGH));
    assert StatusSteps(e) == [CallWriteStatus(Some(e))] + ([ServerHeader] + ([ServerBegin] + THROUGH));
    assert Put(s.s2c, Status(e)).(senders := map[]) == Put(s.s2c, Status(e));
  }

  lemma EofOne(s: Stream)
    requires s.s2c.buf == [] && s.s2c.channelClosed
    ensures Run(s, [ClientRecv(SeeEof)]) == Some(s.(s2c := s.s2c.(eofSeen := true)))
  {
    assert [ClientRecv(SeeEof)][1..] == [];
    assert Run(s.(s2c := s.s2c.(eofSeen := true)), []) == Some(s.(s2c := s.s2c.(eofSeen := true)));
  }

  /** For all messages and any final status there is a run in which the client receives them all, and then EOF. */
  lemma CanFinish(ds: seq<int>, e: int) returns (xs: seq<StreamAction>)
    ensures Run(START, xs).Some?
    ensures var s := Run(START, xs).value;
      s.s2c.taken == Kept(Datas(ds) + [Status(e)]) && s.s2c.eofSeen && s.srvClosed && s.headerSent
  {
    var ys := CanDeliver(ds);
    var s := Run(START, ys).value;
    StatusOne(s, e);
    var s1 := Run(s, StatusSteps(e)).value;
    CloseDown(s1);
    var s2 := Run(s1, CLOSING).value;
    TakeOne(s2);
    var s3 := Run(s2, [ClientRecv(Take)]).value;
    assert s2.s2c.buf == [Status(e)];
    EofOne(s3);
    RunAppend(s2, [ClientRecv(Take)], [ClientRecv(SeeEof)]);
    RunAppend(s1, CLOSING, [ClientRecv(Take)] + [ClientRecv(SeeEof)]);
    RunAppend(s, StatusSteps(e), CLOSING + ([ClientRecv(Take)] + [ClientRecv(SeeEof)]));
    RunAppend(START, ys, StatusSteps(e) + (CLOSING + ([ClientRecv(Take)] + [ClientRecv(SeeEof)])));
    xs := ys + (StatusSteps(e) + (CLOSING + ([ClientRecv(Take)] + [ClientRecv(SeeEof)])));
    assert Kept(Datas(ds) + [Status(e)]) == Kept(Datas(ds)) + [Taken(Status(e), true)];
  }

  // ----- the other direction -----

  /** The client may send under the goroutine id 1. */
  predicate ClientOpen(s: Stream) {
    && !s.env.cancelled && !s.srvClosed && !s.c2s.closed && !s.c2s.channelClosed
    && s.c2s.closing == NotClosing && s.c2s.senders == map[]
  }

  function ClientAt(s: Stream, pc: SendPc, m: Payload): Stream {
    s.(c2s := s.c2s.(senders := map[1 := Sender(pc, m)]))
  }

  function ClientSteps(d: int): seq<StreamAction> {
    [ClientSend(Begin(1, Data(d))), ClientSend(Acquire(1)), ClientSend(CheckCancel(1)), ClientSend(Commit(1)),
     ServerRecv(Take)]
  }

  /** One message of the client goes through and is received. */
  lemma ClientOne(s: Stream, d: int)
    requires ClientOpen(s) && s.c2s.buf == []
    ensures Run(s, ClientSteps(d)) == Some(s.(c2s := Got(Put(s.c2s, Data(d)))))
  {
    var m, xs := Data(d), ClientSteps(d);
    var s1, s2, s3 := ClientAt(s, Waiting, m), ClientAt(s, Holding, m), ClientAt(s, Selecting, m);
    var s4 := s.(c2s := Put(s.c2s, m));
    assert s3.c2s.senders - {1} == map[];
    ClientEnabled(s, m);
    RunOne(s4, xs[4], []);
    RunOne(s3, xs[3], [xs[4]] + []);
    RunOne(s2, xs[2], [xs[3]] + ([xs[4]] + []));
    RunOne(s1, xs[1], [xs[2]] + ([xs[3]] + ([xs[4]] + [])));
    RunOne(s, xs[0], [xs[1]] + ([xs[2]] + ([xs[3]] + ([xs[4]] + []))));
    assert xs == [xs[0]] + ([xs[1]] + ([xs[2]] + ([xs[3]] + ([xs[4]] + []))));
  }

  lemma ClientEnabled(s: Stream, m: Payload)
    requires ClientOpen(s) && s.c2s.buf == [] && m.Data?
    ensures StreamEnabled(s, ClientSend(Begin(1, m)))
    ensures StreamStep(s, ClientSend(Begin(1, m))) == ClientAt(s, Waiting, m)
    ensures StreamEnabled(ClientAt(s, Waiting, m), ClientSend(Acquire(1)))
    ensures StreamStep(ClientAt(s, Waiting, m), ClientSend(Acquire(1))) == ClientAt(s, Holding, m)
    ensures StreamEnabled(ClientAt(s, Holding, m), ClientSend(CheckCancel(1)))
    ensures StreamStep(ClientAt(s, Holding, m), ClientSend(CheckCancel(1))) == ClientAt(s, Selecting, m)
    ensures StreamEnabled(ClientAt(s, Selecting, m), ClientSend(Commit(1)))
    ensures StreamStep(ClientAt(s, Selecting, m), ClientSend(Commit(1))) == s.(c2s := Put(s.c2s, m))
  {
    assert map[1 := Sender(Selecting, m)] - {1} == map[];
  }

  const CLIENT_CLOSE :=
    [ClientSend(CloseLock), ClientSend(CloseFlag), ClientSend(CloseChannel), ServerRecv(SeeEof)]

  /** CloseSend, after which the server sees the end. */
  lemma ClientClose(s: Stream)
    requires ClientOpen(s) && s.c2s.buf == []
    ensures Run(s, CLIENT_CLOSE) == Some(s.(c2s := s.c2s.(closed := true, channelClosed := true, eofSeen := true)))
  {
    var xs := CLIENT_CLOSE;
    var s1 := s.(c2s := s.c2s.(closing := Locked));
    var s2 := s.(c2s := s.c2s.(closing := FlagSet, closed := true));
    var s3 := s.(c2s := s.c2s.(closed := true, channelClosed := true));
    CloseEnabled(s);
    RunOne(s3, xs[3], []);
    RunOne(s2, xs[2], [xs[3]] + []);
    RunOne(s1, xs[1], [xs[2]] + ([xs[3]] + []));
    RunOne(s, xs[0], [xs[1]] + ([xs[2]] + ([xs[3]] + [])));
    assert xs == [xs[0]] + ([xs[1]] + ([xs[2]] + ([xs[3]] + [])));
  }

  lemma CloseEnabled(s: Stream)
    requires ClientOpen(s) && s.c2s.buf == []
    ensures var s1 := s.(c2s := s.c2s.(closing := Locked));
      var s2 := s.(c2s := s.c2s.(closing := FlagSet, closed := true));
      var s3 := s.(c2s := s.c2s.(closed := true, channelClosed := true));
      && StreamEnabled(s, ClientSend(CloseLock)) && StreamStep(s, ClientSend(CloseLock)) == s1
      && StreamEnabled(s1, ClientSend(CloseFlag)) && StreamStep(s1, ClientSend(CloseFlag)) == s2
      && StreamEnabled(s2, ClientSend(CloseChannel)) && StreamStep(s2, ClientSend(CloseChannel)) == s3
  {}

  lemma {:induction false} CanServe(ds: seq<int>) returns (xs: seq<StreamAction>)
    ensures Run(START, xs).Some? && ClientOpen(Run(START, xs).value)
    ensures var p := Run(START, xs).value.c2s; p.buf == [] && p.taken == Kept(Datas(ds))
  {
    if ds == [] {
      xs := [];
    } else {
      var n := |ds| - 1;
      var ys := CanServe(ds[..n]);
      ClientOne(Run(START, ys).value, ds[n]);
      xs := ys + ClientSteps(ds[n]);
      RunAppend(START, ys, ClientSteps(ds[n]));
      assert Datas(ds) == Datas(ds[..n]) + [Data(ds[n])];
      assert Kept(Datas(ds)) == Kept(Datas(ds[..n])) + [Taken(Data(ds[n]), true)];
    }
  }

  /** For all messages there is a run in which the server receives them all from the client, and then EOF. */
  lemma CanServeAll(ds: seq<int>) returns (xs: seq<StreamAction>)
    ensures Run(START, xs).Some?
    ensures var p := Run(START, xs).value.c2s; p.taken == Kept(Datas(ds)) && p.eofSeen
  {
    var ys := CanServe(ds);
    ClientClose(Run(START, ys).value);
    xs := ys + CLIENT_CLOSE;
    RunAppend(START, ys, CLIENT_CLOSE);
  }
}
