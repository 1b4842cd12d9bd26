/** What is sent on the stream and what arrives: payloads keep their values and order from the call to the receiver. */
module StreamOffers {
  import opened Wrappers
  import opened Pipes
  import opened Streams
  import opened Ledgers

  // ----- subsequences -----

  predicate IsSubseq(a: seq<Payload>, b: seq<Payload>)
    decreases |b|
  {
    a == []
    || (b != []
        && (IsSubseq(a, b[..|b| - 1])
            || (a[|a| - 1] == b[|b| - 1] && IsSubseq(a[..|a| - 1], b[..|b| - 1]))))
  }

  lemma SubseqBoth(a: seq<Payload>, b: seq<Payload>, m: Payload)
    requires IsSubseq(a, b)
    ensures IsSubseq(a + [m], b + [m])
  {
    assert (a + [m])[..|a|] == a && (b + [m])[..|b|] == b;
  }

  lemma SubseqWider(a: seq<Payload>, b: seq<Payload>, m: Payload)
    requires IsSubseq(a, b)
    ensures IsSubseq(a, b + [m])
  {
    assert (b + [m])[..|b|] == b;
  }

  lemma {:induction false} SubseqLess(a: seq<Payload>, m: Payload, b: seq<Payload>)
    requires IsSubseq(a + [m], b)
    ensures IsSubseq(a, b)
    decreases |b|
  {
    var n := |b| - 1;
    if IsSubseq(a + [m], b[..n]) {
      SubseqLess(a, m, b[..n]);
    } else {
      assert (a + [m])[..|a|] == a;
    }
  }

  // ----- the server's messages and status -----

  /** What a step hands to SendMsg or WriteStatus. */
  function Called(x: StreamAction): seq<Payload> {
    match x
    case CallSendMsg(d) => [Data(d)]
    case CallWriteStatus(e) => if e.Some? then [Status(e.value)] else []
    case _ => []
  }

  /** Everything that is handed to SendMsg and WriteStatus in a run, in order. */
  function Calls(xs: seq<StreamAction>): seq<Payload> {
    if xs == [] then [] else Called(xs[0]) + Calls(xs[1..])
  }

  /** What the server has been handed and not yet put on the channel. */
  function Pending(s: Stream): seq<Payload> {
    match s.server
    case MsgHeader(d) => [Data(d)]
    case MsgReady(d) => [Data(d)]
    case StatusStart(e) => if e.Some? then [Status(e.value)] else []
    case StatusReady(e) => if e.Some? then [Status(e.value)] else []
    case MsgSending => if SERVER in s.s2c.senders then [s.s2c.senders[SERVER].payload] else []
    case StatusSending => if SERVER in s.s2c.senders then [s.s2c.senders[SERVER].payload] else []
    case _ => []
  }

  /** WriteStatus has cancelled the server's context: it is closing, or has closed. */
  ghost predicate EndInv(s: Stream) {
    && (s.env.closeDone ==> s.s2c.closed || s.server.StatusClose?)
    && (s.s2c.closed || s.srvClosed || s.server.StatusClose? || s.server.StatusDone? ==> s.env.closeDone)
  }

  /**
   * What was accepted is a subsequence of what was offered. Until the stream is cancelled it is a prefix, and nothing
   * but the pending payload is missing before WriteStatus ends.
   */
  ghost predicate OffersInv(s: Stream, offered: seq<Payload>) {
    && EndInv(s)
    && IsSubseq(s.s2c.accepted + Pending(s), offered)
    && (!s.env.cancelled ==> s.s2c.accepted <= offered)
    && (!s.env.cancelled && !s.env.closeDone ==> s.s2c.accepted + Pending(s) == offered)
  }

  lemma QuietStep(s: Stream, x: StreamAction, offered: seq<Payload>)
    requires StreamInv(s) && StreamEnabled(s, x) && OffersInv(s, offered)
    requires x.ClientSend? || x.ClientRecv? || x.ServerRecv? || x.Cancel? || x.SetHeader? || x.SendHeader?
          || x.ServerHeader? || x.ServerFinish?
    ensures OffersInv(StreamStep(s, x), offered)
  {
    var t := StreamStep(s, x);
    assert EndInv(t) && t.s2c.accepted == s.s2c.accepted && Pending(t) == Pending(s);
    SameOffers(s, t, offered);
  }

  lemma SameOffers(s: Stream, t: Stream, offered: seq<Payload>)
    requires OffersInv(s, offered) && EndInv(t) && t.s2c.accepted == s.s2c.accepted && Pending(t) == Pending(s)
    requires (s.env.cancelled ==> t.env.cancelled) && (s.env.closeDone ==> t.env.closeDone)
    ensures OffersInv(t, offered)
  {}

  /** One more payload is offered; it is pending, or the stream has ended. */
  lemma OneOffered(s: Stream, t: Stream, m: Payload, offered: seq<Payload>)
    requires OffersInv(s, offered) && EndInv(t) && Pending(s) == [] && t.env == s.env && t.s2c == s.s2c
    requires Pending(t) == [m] || (Pending(t) == [] && t.env.closeDone)
    ensures OffersInv(t, offered + [m])
  {
    var a := s.s2c.accepted;
    assert a + [] == a;
    SubseqBoth(a, offered, m);
    SubseqWider(a, offered, m);
  }

  lemma CallStep(s: Stream, x: StreamAction, offered: seq<Payload>)
    requires StreamInv(s) && StreamEnabled(s, x) && OffersInv(s, offered)
    requires x.CallSendMsg? || x.CallWriteStatus?
    ensures OffersInv(StreamStep(s, x), offered + Called(x))
  {
    var t := StreamStep(s, x);
    assert EndInv(t) && t.env == s.env && t.s2c == s.s2c;
    if Called(x) == [] {
      assert offered + [] == offered && Pending(t) == Pending(s) == [];
    } else {
      OneOffered(s, t, Called(x)[0], offered);
      assert Called(x) == [Called(x)[0]];
    }
  }

  lemma BeginStep(s: Stream, offered: seq<Payload>)
    requires StreamInv(s) && StreamEnabled(s, ServerBegin) && OffersInv(s, offered)
    ensures OffersInv(StreamStep(s, ServerBegin), offered)
  {
    var t := StreamStep(s, ServerBegin);
    assert EndInv(t) && t.env == s.env && t.s2c.accepted == s.s2c.accepted;
    if Pending(t) == Pending(s) {
      SameOffers(s, t, offered);
    } else {
      assert Pending(t) == [] && |Pending(s)| == 1 && s.env.closeDone;
      Dropped(s, t, Pending(s)[0], offered);
    }
  }

  lemma SendStep(s: Stream, x: StreamAction, offered: seq<Payload>)
    requires StreamInv(s) && StreamEnabled(s, x) && OffersInv(s, offered) && x.ServerSend?
    ensures OffersInv(StreamStep(s, x), offered)
  {
    var a, m, t := s.s2c.accepted, s.s2c.senders[SERVER].payload, StreamStep(s, x);
    assert Pending(s) == [m] && t.env == s.env && EndInv(t);
    if x.a.Commit? {
      assert t.s2c.accepted == a + [m] && Pending(t) == [];
      PutOn(s, t, m, offered);
    } else if SERVER in t.s2c.senders {
      assert t.s2c.accepted == a && Pending(t) == [m];
      SameOffers(s, t, offered);
    } else {
      assert t.s2c.accepted == a && Pending(t) == [] && t.env.cancelled;
      Dropped(s, t, m, offered);
    }
  }

  /** The pending payload is accepted. */
  lemma PutOn(s: Stream, t: Stream, m: Payload, offered: seq<Payload>)
    requires OffersInv(s, offered) && Pending(s) == [m] && EndInv(t) && t.env == s.env
    requires t.s2c.accepted == s.s2c.accepted + [m] && Pending(t) == []
    requires !s.env.cancelled ==> !s.env.closeDone
    ensures OffersInv(t, offered)
  {
    assert t.s2c.accepted + [] == t.s2c.accepted;
  }

  /** The pending payload is dropped, which takes a cancel or a WriteStatus before it. */
  lemma Dropped(s: Stream, t: Stream, m: Payload, offered: seq<Payload>)
    requires OffersInv(s, offered) && Pending(s) == [m] && EndInv(t)
    requires t.s2c.accepted == s.s2c.accepted && Pending(t) == []
    requires (s.env.cancelled ==> t.env.cancelled) && (t.env.cancelled || t.env.closeDone)
    ensures OffersInv(t, offered)
  {
    SubseqLess(s.s2c.accepted, m, offered);
    assert t.s2c.accepted + [] == t.s2c.accepted;
  }

  lemma EndStep(s: Stream, x: StreamAction, offered: seq<Payload>)
    requires StreamInv(s) && StreamEnabled(s, x) && OffersInv(s, offered) && (x.ServerCancel? || x.ServerClose?)
    ensures OffersInv(StreamStep(s, x), offered)
  {
    var t := StreamStep(s, x);
    assert t.s2c.accepted == s.s2c.accepted && Pending(t) == Pending(s) == [];
    if x.ServerCancel? {
      assert EndInv(t);
    } else {
      assert t.env == s.env && EndInv(t);
    }
    SameOffers(s, t, offered);
  }

  lemma OffersStep(s: Stream, x: StreamAction, offered: seq<Payload>)
    requires StreamInv(s) && StreamEnabled(s, x) && OffersInv(s, offered)
    ensures OffersInv(StreamStep(s, x), offered + Called(x))
  {
    assert offered + [] == offered;
    match x {
      case CallSendMsg(_) => CallStep(s, x, offered);
      case CallWriteStatus(_) => CallStep(s, x, offered);
      case ServerBegin => BeginStep(s, offered);
      case ServerSend(_) => SendStep(s, x, offered);
      case ServerCancel => EndStep(s, x, offered);
      case ServerClose(_) => EndStep(s, x, offered);
      case _ => QuietStep(s, x, offered);
    }
  }

  lemma SeqAssoc(a: seq<Payload>, b: seq<Payload>, c: seq<Payload>)
    ensures a + (b + c) == a + b + c
  {}

  lemma {:induction false} OffersRun(s: Stream, xs: seq<StreamAction>, offered: seq<Payload>)
    requires StreamInv(s) && Run(s, xs).Some? && OffersInv(s, offered)
    ensures OffersInv(Run(s, xs).value, offered + Calls(xs))
    decreases |xs|
  {
    if xs == [] {
      assert offered + [] == offered;
    } else {
      AnyStep(s, xs[0]);
      OffersStep(s, xs[0], offered);
      OffersRun(StreamStep(s, xs[0]), xs[1..], offered + Called(xs[0]));
      SeqAssoc(offered, Called(xs[0]), Calls(xs[1..]));
    }
  }

  /**
   * In every run of a new stream, what the server's channel accepted is, in order, a subsequence of what was handed to
   * SendMsg and WriteStatus, values and status included; until a cancel it is a prefix of it, and until WriteStatus
   * ends what was handed over is exactly what the client received, what is buffered and what is being sent.
   */
  lemma ServerOffers(xs: seq<StreamAction>)
    requires Run(START, xs).Some?
    ensures var s := Run(START, xs).value;
      && IsSubseq(s.s2c.accepted, Calls(xs))
      && (!s.env.cancelled ==> s.s2c.accepted <= Calls(xs))
      && (!s.env.cancelled && !s.env.closeDone ==> Received(s.s2c.taken) + s.s2c.buf + Pending(s) == Calls(xs))
  {
    assert StreamInv(START) && OffersInv(START, []);
    RunInv(START, xs);
    OffersRun(START, xs, []);
    assert [] + Calls(xs) == Calls(xs);
    var s := Run(START, xs).value;
    var a := s.s2c.accepted;
    if Pending(s) == [] {
      assert a + [] == a;
    } else {
      assert Pending(s) == [Pending(s)[0]];
      SubseqLess(a, Pending(s)[0], Calls(xs));
    }
    if !s.env.cancelled {
      NothingLost(s.s2c, s.env);
    }
  }

  // ----- the client's messages -----

  /** What a step offers to the server. */
  function Sent(x: StreamAction): seq<Payload> {
    if x.ClientSend? && x.a.Begin? then [x.a.payload] else []
  }

  function ClientOffers(xs: seq<StreamAction>): seq<Payload> {
    if xs == [] then [] else Sent(xs[0]) + ClientOffers(xs[1..])
  }

  /** What a step enters in the ledger of the client's direction. */
  function Entered(s: Stream, l: Ledger, x: StreamAction): Ledger
    requires StreamEnabled(s, x)
  {
    if x.ClientSend? || x.ServerRecv? then Entry(s.c2s, s.env, l, x.a) else l
  }

  function LedgerOf(s: Stream, l: Ledger, xs: seq<StreamAction>): Ledger
    requires Run(s, xs).Some?
    decreases |xs|
  {
    if xs == [] then l else LedgerOf(StreamStep(s, xs[0]), Entered(s, l, xs[0]), xs[1..])
  }

  ghost predicate ClientLedger(s: Stream, l: Ledger) {
    && LedgerInv(s.c2s, l)
    && (!s.env.cancelled && !s.env.closeDone && !s.c2s.closed ==> AllKept(l))
  }

  lemma ClientEntry(s: Stream, l: Ledger, x: StreamAction)
    requires StreamEnabled(s, x) && ClientLedger(s, l)
    ensures ClientLedger(StreamStep(s, x), Entered(s, l, x))
    ensures Entered(s, l, x).offered == l.offered + Sent(x)
  {
    assert l.offered + [] == l.offered;
    if x.ClientSend? || x.ServerRecv? {
      EntryInv(s.c2s, s.env, l, x.a);
    }
  }

  lemma {:induction false} ClientRun(s: Stream, l: Ledger, xs: seq<StreamAction>)
    requires Run(s, xs).Some? && ClientLedger(s, l)
    ensures ClientLedger(Run(s, xs).value, LedgerOf(s, l, xs))
    ensures LedgerOf(s, l, xs).offered == l.offered + ClientOffers(xs)
    decreases |xs|
  {
    if xs == [] {
      assert l.offered + [] == l.offered;
    } else {
      ClientEntry(s, l, xs[0]);
      ClientRun(StreamStep(s, xs[0]), Entered(s, l, xs[0]), xs[1..]);
      SeqAssoc(l.offered, Sent(xs[0]), ClientOffers(xs[1..]));
    }
  }

  /**
   * In every run of a new stream each payload that the client's channel accepted is one that some goroutine of the
   * client offered, with its value and each offer used once; until the stream is cancelled, ended or closed by the
   * client, every offer was accepted or is being sent.
   */
  lemma ClientSends(xs: seq<StreamAction>)
    requires Run(START, xs).Some?
    ensures var (s, l) := (Run(START, xs).value, LedgerOf(START, NEW, xs));
      && l.offered == ClientOffers(xs) && |l.slots| == |s.c2s.accepted|
      && (forall i | 0 <= i < |l.slots| :: l.slots[i] < |l.offered| && l.offered[l.slots[i]] == s.c2s.accepted[i])
      && (forall i, j | 0 <= i < j < |l.slots| :: l.slots[i] != l.slots[j])
      && (!s.env.cancelled && !s.env.closeDone && !s.c2s.closed ==> AllKept(l))
  {
    assert ClientLedger(START, NEW);
    ClientRun(START, NEW, xs);
    assert [] + ClientOffers(xs) == ClientOffers(xs);
  }

  // ----- the header -----

  /** The metadata set before the header goes out. */
  function HeaderSet(xs: seq<StreamAction>): seq<int> {
    if xs == [] then []
    else
      match xs[0]
      case SetHeader(md) => md + HeaderSet(xs[1..])
      case SendHeader => []
      case ServerHeader => []
      case _ => HeaderSet(xs[1..])
  }

  lemma {:induction false} HeaderFrom(s: Stream, xs: seq<StreamAction>)
    requires StreamInv(s) && !s.headerSent && Run(s, xs).Some?
    ensures Run(s, xs).value.header == s.header + HeaderSet(xs)
    decreases |xs|
  {
    if xs == [] {
      assert s.header + [] == s.header;
    } else {
      var t := StreamStep(s, xs[0]);
      AnyStep(s, xs[0]);
      if t.headerSent {
        RunLater(t, xs[1..]);
        assert s.header + [] == s.header;
      } else {
        HeaderFrom(t, xs[1..]);
        if xs[0].SetHeader? {
          assert s.header + xs[0].md + HeaderSet(xs[1..]) == s.header + (xs[0].md + HeaderSet(xs[1..]));
        }
      }
    }
  }

  /** In every run the header is what was set before it was sent, in order. */
  lemma HeaderExact(xs: seq<StreamAction>)
    requires Run(START, xs).Some?
    ensures Run(START, xs).value.header == HeaderSet(xs)
  {
    assert StreamInv(START);
    HeaderFrom(START, xs);
    assert [] + HeaderSet(xs) == HeaderSet(xs);
  }
}
