/** What the peer of a proxied stream may rely on: its heads, their status, the payload, and their order. */
module StreamProperties {
  import opened Results
  import opened ResponseStack

  // ----- what a peer may rely on -----

  /** A head the peer takes as the response; informational heads are not. */
  predicate Successful(e: Event) {
    ((e.Head? || e.Ack? || e.ErrorHead?) && e.ok) || e.ImplicitHead?
  }

  function SuccessfulHeads(wire: seq<Event>): nat {
    if wire == [] then 0
    else SuccessfulHeads(wire[..|wire| - 1]) + if Successful(wire[|wire| - 1]) then 1 else 0
  }

  lemma PutHeads(wire: seq<Event>, e: Event)
    ensures SuccessfulHeads(wire + [e]) == SuccessfulHeads(wire) + if Successful(e) then 1 else 0
  {
    assert (wire + [e])[..|wire|] == wire;
  }

  /** Every body event follows a successful head. */
  predicate BodyAfterHead(wire: seq<Event>) {
    forall k :: 0 <= k < |wire| && wire[k].Body? ==> SuccessfulHeads(wire[..k]) > 0
  }

  /** Bytes on the bare stream, past the writer. */
  predicate RawBytes(e: Event) {
    e.Raw? && e.data != []
  }

  /** Every byte on a hijacked stream follows a successful head. */
  predicate RawAfterHead(wire: seq<Event>) {
    forall k :: 0 <= k < |wire| && RawBytes(wire[k]) ==> SuccessfulHeads(wire[..k]) > 0
  }

  lemma EmptyAfterHead()
    ensures SuccessfulHeads([]) == 0 && BodyAfterHead([]) && RawAfterHead([])
  {
  }

  lemma PutAfterHead(wire: seq<Event>, e: Event)
    ensures BodyAfterHead(wire + [e]) <==> BodyAfterHead(wire) && (e.Body? ==> SuccessfulHeads(wire) > 0)
    ensures RawAfterHead(wire + [e]) <==> RawAfterHead(wire) && (RawBytes(e) ==> SuccessfulHeads(wire) > 0)
  {
    var more := wire + [e];
    assert more[..|wire|] == wire && more[|wire|] == e;
    forall k | 0 <= k < |wire|
      ensures more[..k] == wire[..k] && more[k] == wire[k]
    {
    }
    if BodyAfterHead(more) {
      forall k | 0 <= k < |wire| && wire[k].Body?
        ensures SuccessfulHeads(wire[..k]) > 0
      {
        assert more[k].Body?;
      }
    }
    if RawAfterHead(more) {
      forall k | 0 <= k < |wire| && RawBytes(wire[k])
        ensures SuccessfulHeads(wire[..k]) > 0
      {
        assert RawBytes(more[k]);
      }
    }
  }

  /** Every head on the wire stands for this status; the HTTP/2 server supplies one only behind an informational
      head. */
  predicate Carries(wire: seq<Event>, kind: Kind, status: int) {
    forall k :: 0 <= k < |wire| ==>
      match wire[k]
      case Head(carried, _) => carried == Carried(kind, status) && (kind.Http2? ==> !Informational(status))
      case Info(carried) => carried == status && kind.Http2? && Informational(status)
      case ImplicitHead => kind.Http2? && Informational(status)
      case Body(_) => true
      case Raw(_) => true
      case _ => false
  }

  predicate PayloadOnly(wire: seq<Event>) {
    forall k :: 0 <= k < |wire| ==> wire[k].Body? || wire[k].Raw?
  }

  lemma PayloadCarriesAll(wire: seq<Event>, kind: Kind, status: int)
    requires PayloadOnly(wire)
    ensures Carries(wire, kind, status)
  {
  }

  lemma PutCarries(wire: seq<Event>, e: Event, kind: Kind, status: int)
    requires Carries(wire, kind, status) && Carries([e], kind, status)
    ensures Carries(wire + [e], kind, status)
  {
    assert [e][0] == e;
  }

  /** The first status a handler sets: its first WriteHeader, or the default of its first Write or websocket Hijack. */
  function FirstStatus(websocket: bool, calls: seq<Call>): Option<int>
    decreases |calls|
  {
    if calls == [] then None
    else match calls[0]
         case WriteHeader(status) => Some(status)
         case Write(_, _, _) => Some(200)
         case Hijack(_) => if websocket then Some(101) else FirstStatus(websocket, calls[1..])
         case WriteOnConn(_, _) => FirstStatus(websocket, calls[1..])
  }

  /** How many heads the peer has been given. */
  function HeadCount(s: Stack): nat {
    if (if s.up.kind.Http2? then s.up.committed else s.sentHeader) then 1 else 0
  }

  /** How the flags of the two layers go together. */
  predicate FlagsMatch(s: Stack) {
    && (s.sentHeader ==> s.wroteHeader && s.up.headTried)
    && (s.up.headTried ==> s.wroteHeader && (s.up.kind.Http2? ==> s.sentHeader))
    && (s.up.kind.Http2? ==> s.hasConn == s.up.hijacked && (s.hasConn || s.up.committed ==> s.sentHeader))
    && (s.up.kind.Http2? && s.sentHeader && !s.up.committed ==> Informational(s.status))
    && (s.up.kind.Quic? ==> !s.up.committed)
  }

  /** What holds between any two calls of a handler. */
  predicate StackInv(s: Stack) {
    && FlagsMatch(s)
    && SuccessfulHeads(s.up.wire) == HeadCount(s)
    && BodyAfterHead(s.up.wire)
    && (s.up.headTried ==> Carries(s.up.wire, s.up.kind, s.status))
    && (!s.up.headTried ==> PayloadOnly(s.up.wire))
  }

  lemma NewStackInv(kind: Kind, websocket: bool)
    ensures StackInv(NewStack(NewUp(kind), websocket))
  {
  }

  lemma SetStatusInv(s: Stack, status: int)
    requires StackInv(s)
    ensures StackInv(SetStatus(s, status))
  {
    hide SuccessfulHeads, BodyAfterHead, Carries, PayloadOnly;
  }

  /** One more event of the head's own. */
  lemma PutOnStack(s: Stack, e: Event, t: Stack)
    requires t.up.wire == s.up.wire + [e] && FlagsMatch(t) && t.up.headTried && t.up.kind == s.up.kind
    requires BodyAfterHead(s.up.wire) && SuccessfulHeads(s.up.wire) + (if Successful(e) then 1 else 0) == HeadCount(t)
    requires Carries(s.up.wire, t.up.kind, t.status) && Carries([e], t.up.kind, t.status)
    requires e.Body? ==> SuccessfulHeads(s.up.wire) > 0
    ensures StackInv(t)
  {
    hide SuccessfulHeads, BodyAfterHead, Carries, FlagsMatch;
    PutHeads(s.up.wire, e);
    PutAfterHead(s.up.wire, e);
    PutCarries(s.up.wire, e, t.up.kind, t.status);
  }

  lemma CompletedInv(s: Stack)
    requires StackInv(s) && s.up.kind.Http2? && s.sentHeader
    ensures StackInv(s.(up := Completed(s.up)))
  {
    hide SuccessfulHeads, BodyAfterHead;
    if !s.up.committed {
      PutOnStack(s, ImplicitHead, s.(up := Completed(s.up)));
    }
  }

  lemma SendHeadInv(s: Stack, net: Net)
    requires StackInv(s)
    ensures var (t, done) := SendHead(s, net);
            StackInv(t) && (done && t.wroteHeader ==> t.sentHeader) && (!done ==> t.up.kind.Quic? && t.up.headTried)
  {
    hide SuccessfulHeads, BodyAfterHead;
    if s.wroteHeader && !s.sentHeader {
      var t := SendHead(s, net).0;
      if s.up.kind.Quic? {
        PutOnStack(s, Head(s.status, net.ok), t);
      } else {
        var u := NetHeader(s.up, Carried(Http2, s.status)).(headTried := true);
        var mid := s.(up := u, sentHeader := true);
        PutOnStack(s, if Informational(s.status) then Info(s.status) else Head(Carried(Http2, s.status), true), mid);
        CompletedInv(mid);
      }
    }
  }

  lemma UpWriteInv(s: Stack, data: Data, net: Net, io: Io)
    requires StackInv(s) && s.sentHeader
    ensures StackInv(s.(up := UpWrite(s.up, data, net, io).0))
  {
    hide SuccessfulHeads, BodyAfterHead, Sent;
    var t := s;
    if s.up.kind.Http2? {
      CompletedInv(s);
      t := s.(up := Completed(s.up));
    }
    PutOnStack(t, Body(Sent(data, io)), s.(up := UpWrite(s.up, data, net, io).0));
  }

  lemma ConnWriteInv(s: Stack, data: Data, io: Io)
    requires StackInv(s) && s.hasConn
    ensures StackInv(s.(up := ConnWrite(s.up, data, io)))
  {
    hide SuccessfulHeads, BodyAfterHead, Sent;
    if s.up.kind.Http2? {
      UpWriteInv(s, data, Net(true, true), io);
    } else {
      var e := Raw(Sent(data, io));
      PutHeads(s.up.wire, e);
      PutAfterHead(s.up.wire, e);
    }
  }

  lemma HijackInv(s: Stack)
    requires StackInv(s)
    ensures var (up, done) := UpHijack(s.up);
            StackInv(s.(up := up, hasConn := s.hasConn || done))
  {
    hide SuccessfulHeads, BodyAfterHead, Carries, PayloadOnly;
  }

  lemma StepInv(s: Stack, c: Call)
    requires StackInv(s)
    ensures StackInv(Step(s, c).0)
  {
    hide StackInv, SuccessfulHeads, PutRespHeaders, SendHead, UpWrite, ConnWrite;
    match c {
      case WriteHeader(status) => SetStatusInv(s, status);
      case Write(data, net, io) =>
        SetStatusInv(s, 200);
        SendHeadInv(SetStatus(s, 200), net);
        SendHeadFrame(SetStatus(s, 200), net);
        var (s1, sent) := SendHead(SetStatus(s, 200), net);
        if sent {
          UpWriteInv(s1, data, net, io);
        }
      case Hijack(net) =>
        SetStatusInv(s, 101);
        var s0 := if s.websocket then SetStatus(s, 101) else s;
        SendHeadInv(s0, net);
        HijackInv(SendHead(s0, net).0);
      case WriteOnConn(data, io) =>
        if s.hasConn {
          ConnWriteInv(s, data, io);
        }
    }
  }

  lemma {:induction false} RunInv(s: Stack, calls: seq<Call>)
    requires StackInv(s)
    ensures StackInv(Run(s, calls))
    decreases |calls|
  {
    hide StackInv, Step;
    if calls != [] {
      StepInv(s, calls[0]);
      RunInv(Step(s, calls[0]).0, calls[1..]);
    }
  }

  /** What SendHead leaves alone. */
  predicate SameStatus(s: Stack, t: Stack) {
    t.websocket == s.websocket && t.up.kind == s.up.kind && t.wroteHeader == s.wroteHeader && t.status == s.status
    && t.hasConn == s.hasConn
  }

  lemma SendHeadFrame(s: Stack, net: Net)
    ensures SameStatus(s, SendHead(s, net).0)
  {
  }

  lemma UpFrame(u: Up, data: Data, net: Net, io: Io)
    ensures UpWrite(u, data, net, io).0.kind == u.kind && UpHijack(u).0.kind == u.kind
    ensures ConnWrite(u, data, io).kind == u.kind
  {
  }

  lemma StepStatus(s: Stack, c: Call)
    ensures var t := Step(s, c).0;
            t.websocket == s.websocket && t.up.kind == s.up.kind
            && (if s.wroteHeader then t.wroteHeader && t.status == s.status
                else match c
                     case WriteHeader(status) => t.wroteHeader && t.status == status
                     case Write(_, _, _) => t.wroteHeader && t.status == 200
                     case Hijack(_) => t.wroteHeader == s.websocket && (s.websocket ==> t.status == 101)
                     case WriteOnConn(_, _) => !t.wroteHeader)
  {
    hide SendHead, UpWrite, UpHijack, ConnWrite;
    match c {
      case WriteHeader(_) =>
      case Write(data, net, io) =>
        SendHeadFrame(SetStatus(s, 200), net);
        UpFrame(SendHead(SetStatus(s, 200), net).0.up, data, net, io);
      case Hijack(net) =>
        var s0 := if s.websocket then SetStatus(s, 101) else s;
        SendHeadFrame(s0, net);
        UpFrame(SendHead(s0, net).0.up, [], net, Wrote);
      case WriteOnConn(data, io) => UpFrame(s.up, data, Net(true, true), io);
    }
  }

  /** The status is that of the first call that sets one, whatever comes later. */
  lemma {:induction false} RunStatus(s: Stack, calls: seq<Call>)
    ensures var t := Run(s, calls);
            t.websocket == s.websocket && t.up.kind == s.up.kind
            && (s.wroteHeader ==> t.wroteHeader && t.status == s.status)
            && (!s.wroteHeader ==>
                  (t.wroteHeader <==> FirstStatus(s.websocket, calls).Some?)
                  && (t.wroteHeader ==> t.status == FirstStatus(s.websocket, calls).value))
    decreases |calls|
  {
    hide Step;
    if calls != [] {
      StepStatus(s, calls[0]);
      RunStatus(Step(s, calls[0]).0, calls[1..]);
    }
  }

  /** A handler's stack once `finalize` has run. */
  function Finalized(kind: Kind, websocket: bool, calls: seq<Call>, finalNet: Net): (Stack, bool) {
    FinalHead(Run(NewStack(NewUp(kind), websocket), calls), finalNet)
  }

  /** For every handler call sequence and every pattern of write failures: after `finalize` at most one head was
      given to the peer, every head tried stands for the first status set, and no body precedes the head. */
  lemma OneHeadPerHandler(kind: Kind, websocket: bool, calls: seq<Call>, finalNet: Net)
    ensures var (s, done) := Finalized(kind, websocket, calls, finalNet);
            var first := FirstStatus(websocket, calls);
            SuccessfulHeads(s.up.wire) <= 1 && BodyAfterHead(s.up.wire)
            && (if first.Some? then Carries(s.up.wire, kind, first.value) else PayloadOnly(s.up.wire))
            && (done && first.Some? && !s.hasConn ==>
                  SuccessfulHeads(s.up.wire) == 1 || (kind.Http2? && Informational(first.value)))
            && (!done ==> kind.Quic? && s.up.headTried)
  {
    hide Run, FirstStatus, SuccessfulHeads, BodyAfterHead, Carries, PayloadOnly;
    FinalizedInv(kind, websocket, calls, finalNet);
    var s := Finalized(kind, websocket, calls, finalNet).0;
    if !s.up.headTried && s.wroteHeader {
      PayloadCarriesAll(s.up.wire, kind, s.status);
    }
  }

  lemma FinalizedInv(kind: Kind, websocket: bool, calls: seq<Call>, finalNet: Net)
    ensures var (s, done) := Finalized(kind, websocket, calls, finalNet);
            var first := FirstStatus(websocket, calls);
            StackInv(s) && s.up.kind == kind && s.websocket == websocket
            && (s.wroteHeader <==> first.Some?) && (s.wroteHeader ==> s.status == first.value)
            && (done && s.wroteHeader ==> s.sentHeader || s.hasConn) && (!done ==> kind.Quic? && s.up.headTried)
  {
    hide Run, FirstStatus, StackInv, SendHead;
    var s0 := NewStack(NewUp(kind), websocket);
    NewStackInv(kind, websocket);
    RunInv(s0, calls);
    RunStatus(s0, calls);
    SendHeadInv(Run(s0, calls), finalNet);
    SendHeadFrame(Run(s0, calls), finalNet);
  }

  // ----- whole streams -----

  predicate NoErrorHead(wire: seq<Event>) {
    forall k :: 0 <= k < |wire| ==> !wire[k].ErrorHead?
  }

  /** Heads and body are in order, and an HTTP/2 server's commitment is the head on the wire. */
  predicate InOrder(u: Up) {
    && SuccessfulHeads(u.wire) <= 1 && BodyAfterHead(u.wire) && NoErrorHead(u.wire)
    && (u.kind.Http2? ==> SuccessfulHeads(u.wire) == if u.committed then 1 else 0)
    && (u.kind.Quic? ==> !u.committed)
  }

  /** A writer behind which payload may follow: over QUIC its head has been sent. */
  predicate Headed(u: Up) {
    InOrder(u) && u.headTried && (u.kind.Quic? ==> SuccessfulHeads(u.wire) == 1)
  }

  /** A dispatched stream: an untouched wire if a head is still to be tried. */
  predicate Dispatched(u: Up, done: bool) {
    InOrder(u) && (!done && !u.headTried && !u.committed ==> u.wire == [])
  }

  lemma PutInOrder(u: Up, e: Event, t: Up)
    requires InOrder(u) && t.wire == u.wire + [e] && t.kind == u.kind && !e.ErrorHead?
    requires u.kind.Quic? ==> !t.committed
    requires Successful(e) ==> SuccessfulHeads(u.wire) == 0
    requires e.Body? ==> SuccessfulHeads(u.wire) > 0
    requires u.kind.Http2? ==> t.committed == (u.committed || Successful(e))
    ensures InOrder(t) && SuccessfulHeads(t.wire) == SuccessfulHeads(u.wire) + if Successful(e) then 1 else 0
  {
    hide SuccessfulHeads, BodyAfterHead;
    PutHeads(u.wire, e);
    PutAfterHead(u.wire, e);
  }

  lemma CompletedInOrder(u: Up)
    requires InOrder(u) && u.kind.Http2?
    ensures InOrder(Completed(u)) && Completed(u).committed
  {
    hide SuccessfulHeads, BodyAfterHead, NoErrorHead;
    if !u.committed {
      PutInOrder(u, ImplicitHead, Completed(u));
    }
  }

  lemma WriteInOrder(u: Up, data: Data, net: Net, io: Io)
    requires InOrder(u) && (u.kind.Quic? ==> Headed(u))
    ensures var t := UpWrite(u, data, net, io).0;
            InOrder(t) && t.kind == u.kind && t.headTried == u.headTried && (Headed(u) ==> Headed(t))
            && (u.kind.Http2? ==> t.committed)
  {
    hide SuccessfulHeads, BodyAfterHead, NoErrorHead, Sent;
    var u1 := if u.kind.Http2? then Completed(u) else u;
    if u.kind.Http2? {
      CompletedInOrder(u);
    }
    PutInOrder(u1, Body(Sent(data, io)), UpWrite(u, data, net, io).0);
  }

  lemma {:induction false} CopyKeepsHeaded(u: Up, chunks: seq<Chunk>)
    requires Headed(u)
    ensures var (t, done) := Copy(u, chunks);
            Headed(t) && t.kind == u.kind && (u.kind.Http2? && (u.committed || !done) ==> t.committed)
    decreases |chunks|
  {
    hide Headed, InOrder, UpWrite;
    if chunks != [] {
      var c := chunks[0];
      assert InOrder(u) by { HeadedInOrder(u); }
      WriteInOrder(u, c.data, c.net, c.io);
      CopyKeepsHeaded(UpWrite(u, c.data, c.net, c.io).0, chunks[1..]);
    }
  }

  lemma HeadedInOrder(u: Up)
    requires Headed(u)
    ensures InOrder(u)
  {
  }

  /** The first head of a fresh stream. */
  lemma FirstHead(kind: Kind, status: int, net: Net)
    ensures var (u, sent) := PutRespHeaders(NewUp(kind), status, net);
            u.kind == kind && u.headTried && InOrder(u) && (sent ==> Headed(u))
            && (kind.Http2? ==> sent && (!Informational(status) ==> u.committed))
  {
    hide SuccessfulHeads, BodyAfterHead, NoErrorHead;
    var u0 := NewUp(kind);
    FreshInOrder(kind);
    if kind.Quic? {
      PutInOrder(u0, Head(status, net.ok), PutRespHeaders(u0, status, net).0);
    } else {
      var carried := Carried(kind, status);
      var u1 := NetHeader(u0, carried);
      PutInOrder(u0, if Informational(carried) then Info(carried) else Head(carried, true), u1);
      CompletedInOrder(u1);
    }
  }

  lemma FreshInOrder(kind: Kind)
    ensures InOrder(NewUp(kind)) && SuccessfulHeads([]) == 0
  {
  }

  /** The origin's transport keeps informational responses to itself. */
  predicate FinalStatusFromOrigin(r: Request) {
    r.HTTP? && r.handler.Websocket? && r.handler.direct.Response? ==> !Informational(r.handler.direct.status)
  }

  lemma DispatchIsSafe(kind: Kind, r: Request)
    ensures var (u, done) := Dispatch(NewUp(kind), r);
            u.kind == kind && Dispatched(u, done)
            && (FinalStatusFromOrigin(r) && kind.Http2? && !done && u.headTried ==> u.committed)
  {
    hide SuccessfulHeads, BodyAfterHead, NoErrorHead, Copy, Run, PutRespHeaders, UpWrite, WriteAll,
         Headed;
    FreshInOrder(kind);
    match r {
      case NoProxy =>
      case Rejected =>
      case TCPUnreachable =>
      case Configuration(decoded, reply) =>
        if kind.Http2? {
          WriteInOrder(NewUp(kind), reply.data, reply.net, reply.io);
        }
      case ControlStream(writes, clean) =>
        if kind.Http2? {
          ControlInOrder(NewUp(kind), writes);
        }
      case TCP(ack, chunks, ends) => TcpIsSafe(kind, ack, chunks, ends);
      case HTTP(h) =>
        match h {
          case NoHandler =>
          case Websocket(d) => DirectIsSafe(kind, d);
          case Calls(websocket, calls, finalNet) => HandlerIsSafe(kind, websocket, calls, finalNet);
        }
    }
  }

  lemma {:induction false} ControlInOrder(u: Up, writes: seq<Chunk>)
    requires InOrder(u) && u.kind.Http2?
    ensures var t := WriteAll(u, writes);
            InOrder(t) && t.kind == u.kind && t.headTried == u.headTried && (u.committed ==> t.committed)
            && (t == u || t.committed)
    decreases |writes|
  {
    hide InOrder, UpWrite;
    if writes != [] {
      var w := writes[0];
      WriteInOrder(u, w.data, w.net, w.io);
      ControlInOrder(UpWrite(u, w.data, w.net, w.io).0, writes[1..]);
    }
  }

  lemma TcpIsSafe(kind: Kind, ack: Net, chunks: seq<Chunk>, ends: Ends)
    ensures var (u, done) := ProxyTCP(NewUp(kind), ack, chunks, ends);
            u.kind == kind && Dispatched(u, done) && u.headTried && (kind.Http2? ==> u.committed)
            && (ack.ok ==> SuccessfulHeads(u.wire) == 1)
  {
    hide SuccessfulHeads, BodyAfterHead, NoErrorHead, Copy, TcpSucceeds, PutRespHeaders;
    var u0 := NewUp(kind);
    var (u1, acked) := AckConnection(u0, ack);
    if kind.Http2? {
      FirstHead(kind, 101, ack);
    } else {
      FreshInOrder(kind);
      PutInOrder(u0, Ack(ack.ok), u1);
    }
    if acked {
      CopyKeepsHeaded(u1, chunks);
    }
  }

  lemma DirectIsSafe(kind: Kind, d: Direct)
    ensures var (u, done) := ProxyWebsocket(NewUp(kind), d);
            u.kind == kind && Dispatched(u, done) && u.headTried
            && ((d.Response? ==> !Informational(d.status)) && kind.Http2? ==> u.committed)
            && (d.net.ok ==> (kind.Quic? ==> SuccessfulHeads(u.wire) == 1))
  {
    hide SuccessfulHeads, BodyAfterHead, NoErrorHead, Copy, PutRespHeaders;
    var status := if d.NoOrigin? then 502 else d.status;
    FirstHead(kind, status, d.net);
    QuicHeadOk(status, d.net);
    var (u1, sent) := PutRespHeaders(NewUp(kind), status, d.net);
    if sent && d.Response? {
      CopyKeepsHeaded(u1, d.chunks);
    }
  }

  lemma QuicHeadOk(status: int, net: Net)
    ensures PutRespHeaders(NewUp(Quic), status, net).1 == net.ok
  {
  }

  lemma HandlerIsSafe(kind: Kind, websocket: bool, calls: seq<Call>, finalNet: Net)
    ensures var (s, done) := Finalized(kind, websocket, calls, finalNet);
            s.up.kind == kind && Dispatched(s.up, done) && (!done ==> kind.Quic? && s.up.headTried)
  {
    hide Run, Finalized, SuccessfulHeads, BodyAfterHead, FirstStatus;
    FinalizedInv(kind, websocket, calls, finalNet);
  }

  /** Every stream of either transport, to its end: at most one head is given to the peer, no body precedes it, and
      an error head is the only thing on its stream. Over HTTP/2 a stream that is not aborted has exactly one head,
      and so has an aborted one unless the origin's transport passed on an informational response. */
  lemma StreamSafe(kind: Kind, r: Request, tailOk: bool)
    ensures var (u, aborted) := Serve(kind, r, tailOk);
            SuccessfulHeads(u.wire) <= 1 && BodyAfterHead(u.wire)
            && (forall k :: 0 <= k < |u.wire| && u.wire[k].ErrorHead? ==> |u.wire| == 1)
            && (kind.Http2? && (!aborted || FinalStatusFromOrigin(r)) ==> SuccessfulHeads(u.wire) == 1)
            && (aborted ==> kind.Http2? && u.headTried)
  {
    hide SuccessfulHeads, BodyAfterHead, Dispatch, FinalStatusFromOrigin;
    DispatchIsSafe(kind, r);
    var (u, done) := Dispatch(NewUp(kind), r);
    if kind.Http2? {
      CompletedInOrder(u);
    }
    FreshInOrder(kind);
    var e := ErrorHead(kind.Http2? || tailOk);
    PutHeads([], e);
    PutAfterHead([], e);
    EmptyAfterHead();
  }

  // ----- conservation of payload -----

  /** The payload on the wire, in order. */
  function Delivered(wire: seq<Event>): Data {
    if wire == [] then []
    else
      var last := wire[|wire| - 1];
      Delivered(wire[..|wire| - 1]) + if last.Body? || last.Raw? then last.data else []
  }

  lemma PutDelivered(wire: seq<Event>, e: Event)
    ensures Delivered(wire + [e]) == Delivered(wire) + if e.Body? || e.Raw? then e.data else []
  {
    assert (wire + [e])[..|wire|] == wire;
  }

  lemma NothingDelivered()
    ensures Delivered([]) == []
  {
  }

  /** The bytes the handler was told were written, in order. */
  function Accepted(s: Stack, calls: seq<Call>): Data
    decreases |calls|
  {
    if calls == [] then []
    else
      var (t, reply) := Step(s, calls[0]);
      reply.written + Accepted(t, calls[1..])
  }

  lemma CompletedDelivers(u: Up)
    ensures Delivered(Completed(u).wire) == Delivered(u.wire)
  {
    hide Delivered;
    PutDelivered(u.wire, ImplicitHead);
  }

  lemma HeadDelivers(u: Up, status: int, net: Net)
    ensures Delivered(PutRespHeaders(u, status, net).0.wire) == Delivered(u.wire)
  {
    hide Delivered;
    var carried := Carried(u.kind, status);
    PutDelivered(u.wire, Head(carried, if u.kind.Quic? then net.ok else true));
    PutDelivered(u.wire, Info(carried));
    CompletedDelivers(NetHeader(u, carried));
  }

  lemma SendHeadDelivers(s: Stack, net: Net)
    ensures Delivered(SendHead(s, net).0.up.wire) == Delivered(s.up.wire)
  {
    hide Delivered, PutRespHeaders;
    HeadDelivers(s.up, s.status, net);
  }

  lemma WriteDelivers(u: Up, data: Data, net: Net, io: Io)
    ensures Delivered(UpWrite(u, data, net, io).0.wire) == Delivered(u.wire) + Sent(data, io)
    ensures Delivered(ConnWrite(u, data, io).wire) == Delivered(u.wire) + Sent(data, io)
  {
    hide Delivered, Sent, PutRespHeaders;
    HeadDelivers(u, 200, net);
    CompletedDelivers(u);
    PutDelivered(u.wire, Body(Sent(data, io)));
    PutDelivered(u.wire, Raw(Sent(data, io)));
    PutDelivered(Completed(u).wire, Body(Sent(data, io)));
    PutDelivered(PutRespHeaders(u, 200, net).0.wire, Body(Sent(data, io)));
  }

  lemma StepDelivers(s: Stack, c: Call)
    ensures var (t, reply) := Step(s, c);
            Delivered(t.up.wire) == Delivered(s.up.wire) + reply.written
  {
    hide Delivered, SendHead, UpWrite, ConnWrite, Sent;
    match c {
      case WriteHeader(_) =>
      case Write(data, net, io) =>
        SendHeadDelivers(SetStatus(s, 200), net);
        WriteDelivers(SendHead(SetStatus(s, 200), net).0.up, data, net, io);
      case Hijack(net) => SendHeadDelivers(if s.websocket then SetStatus(s, 101) else s, net);
      case WriteOnConn(data, io) => WriteDelivers(s.up, data, Net(true, true), io);
    }
  }

  /** What one write sends is what it reports; the layers add to that no loss, doubling or reordering: no body goes out
      behind a failed head, and what the peer receives is what the handler was told it had written. */
  lemma {:induction false} PayloadConserved(s: Stack, calls: seq<Call>)
    ensures Delivered(Run(s, calls).up.wire) == Delivered(s.up.wire) + Accepted(s, calls)
    decreases |calls|
  {
    hide Delivered, Step;
    if calls != [] {
      StepDelivers(s, calls[0]);
      PayloadConserved(Step(s, calls[0]).0, calls[1..]);
    }
  }

  /** The data of the chunks up to the first failed write, of which the bytes it did send. */
  function Copied(chunks: seq<Chunk>): Data
    decreases |chunks|
  {
    if chunks == [] then []
    else Sent(chunks[0].data, chunks[0].io) + if chunks[0].io.Wrote? then Copied(chunks[1..]) else []
  }

  /** A copy delivers all that precedes the first failure and what that write sent, and reports whether there was
      one. */
  lemma {:induction false} CopyDelivers(u: Up, chunks: seq<Chunk>)
    ensures var (t, done) := Copy(u, chunks);
            Delivered(t.wire) == Delivered(u.wire) + Copied(chunks)
            && (done <==> forall k :: 0 <= k < |chunks| ==> chunks[k].io.Wrote?)
    decreases |chunks|
  {
    hide Delivered, UpWrite, Sent;
    if chunks != [] {
      var c := chunks[0];
      WriteDelivers(u, c.data, c.net, c.io);
      WriteSucceeds(u, c.data, c.net, c.io);
      CopyDelivers(UpWrite(u, c.data, c.net, c.io).0, chunks[1..]);
      assert chunks == [c] + chunks[1..];
    }
  }

  lemma WriteSucceeds(u: Up, data: Data, net: Net, io: Io)
    ensures UpWrite(u, data, net, io).1 == io.Wrote?
  {
  }

  /** A copy behind a head adds no head but the one an HTTP/2 server supplies after an informational one. */
  lemma {:induction false} CopyCarries(u: Up, chunks: seq<Chunk>, status: int)
    requires u.headTried && Carries(u.wire, u.kind, status)
    requires u.kind.Http2? && !u.committed ==> Informational(status)
    ensures var t := Copy(u, chunks).0;
            t.headTried && t.kind == u.kind && Carries(t.wire, u.kind, status) && (u.committed ==> t.committed)
    decreases |chunks|
  {
    hide Carries, Sent;
    if chunks != [] {
      var c := chunks[0];
      var u1 := if u.kind.Http2? then Completed(u) else u;
      assert Carries([ImplicitHead], u.kind, status) || u1 == u by { OneCarries(u.kind, status, []); }
      if u1 != u {
        PutCarries(u.wire, ImplicitHead, u.kind, status);
      }
      OneCarries(u.kind, status, Sent(c.data, c.io));
      PutCarries(u1.wire, Body(Sent(c.data, c.io)), u.kind, status);
      CopyCarries(UpWrite(u, c.data, c.net, c.io).0, chunks[1..], status);
    }
  }

  lemma OneCarries(kind: Kind, status: int, data: Data)
    ensures Carries([Body(data)], kind, status)
    ensures kind.Http2? && Informational(status) ==>
              Carries([ImplicitHead], kind, status) && Carries([Info(status)], kind, status)
  {
  }

  lemma HeadCarries(kind: Kind, status: int, net: Net)
    ensures var u := PutRespHeaders(NewUp(kind), status, net).0;
            u.kind == kind && u.headTried && Carries(u.wire, kind, status)
            && (kind.Http2? && !u.committed ==> Informational(status))
  {
  }

  /** A websocket proxied directly: every head stands for the origin's status, or 502 without an origin; payload is
      delivered only behind a successful head, then all that was copied, unless a 101 origin cannot be written to. */
  lemma DirectDelivers(kind: Kind, d: Direct, tailOk: bool)
    ensures var wire := Serve(kind, HTTP(Websocket(d)), tailOk).0.wire;
            Carries(wire, kind, if d.NoOrigin? then 502 else d.status)
            && Delivered(wire) == if d.Response? && (kind.Http2? || d.net.ok) && (d.status != 101 || d.writable)
                                  then Copied(d.chunks) else []
  {
    hide Delivered, Copy, Carries, PutRespHeaders, Copied;
    var status := if d.NoOrigin? then 502 else d.status;
    HeadCarries(kind, status, d.net);
    HeadDelivers(NewUp(kind), status, d.net);
    HeadSent(kind, status, d.net);
    NothingDelivered();
    var u1 := PutRespHeaders(NewUp(kind), status, d.net).0;
    if d.Response? {
      CopyDelivers(u1, d.chunks);
      CopyCarries(u1, d.chunks, status);
    }
    var u := ProxyWebsocket(NewUp(kind), d).0;
    CompletedDelivers(u);
    OneCarries(kind, status, []);
    if kind.Http2? && !u.committed {
      PutCarries(u.wire, ImplicitHead, kind, status);
    }
  }

  lemma HeadSent(kind: Kind, status: int, net: Net)
    ensures PutRespHeaders(NewUp(kind), status, net).1 == (kind.Http2? || net.ok)
  {
  }

  // ----- which streams are answered -----

  predicate HeadWritesOk(calls: seq<Call>) {
    forall k :: 0 <= k < |calls| ==> (calls[k].Write? || calls[k].Hijack? ==> calls[k].net.ok)
  }

  /** No attempt to write a head fails. */
  predicate NoHeadFails(r: Request) {
    match r
    case HTTP(Websocket(d)) => d.net.ok
    case HTTP(Calls(_, calls, finalNet)) => finalNet.ok && HeadWritesOk(calls)
    case TCP(ack, _, _) => ack.ok
    case _ => true
  }

  /** The calls make the adapter send a head by themselves: a Write, or a Hijack with a status to send. */
  predicate Forces(websocket: bool, statusSet: bool, calls: seq<Call>)
    decreases |calls|
  {
    calls != []
    && match calls[0]
       case WriteHeader(_) => Forces(websocket, true, calls[1..])
       case Write(_, _, _) => true
       case Hijack(_) => websocket || statusSet || Forces(websocket, statusSet, calls[1..])
       case WriteOnConn(_, _) => Forces(websocket, statusSet, calls[1..])
  }

  predicate NeverHijacks(calls: seq<Call>) {
    forall k :: 0 <= k < |calls| ==> !calls[k].Hijack?
  }

  /** A handler that gets a head out over QUIC: it forces one, or it leaves a status for `finalize` to send. */
  predicate Answers(websocket: bool, calls: seq<Call>) {
    Forces(websocket, false, calls) || (FirstStatus(websocket, calls).Some? && NeverHijacks(calls))
  }

  predicate Unanswering(r: Request) {
    r.HTTP? && r.handler.Calls? && !Answers(r.handler.websocket, r.handler.calls)
  }

  /** How many heads the peer gets when no head write fails. Over HTTP/2 the server sees to it that every stream
      that is not aborted has one; over QUIC exactly the handlers that do not answer leave the peer without. */
  lemma AnsweredIff(kind: Kind, r: Request)
    requires kind.Quic? ==> NoHeadFails(r)
    ensures var (u, aborted) := Serve(kind, r, true);
            (kind.Http2? && !aborted ==> SuccessfulHeads(u.wire) == 1)
            && (kind.Quic? ==> SuccessfulHeads(u.wire) == if Unanswering(r) then 0 else 1)
  {
    hide SuccessfulHeads, BodyAfterHead, FinalHead, Run, Answers, HeadWritesOk, FinalStatusFromOrigin;
    StreamSafe(kind, r, true);
    if kind.Quic? {
      if r.HTTP? && r.handler.Calls? {
        QuicHandlerAnswers(r.handler.websocket, r.handler.calls, r.handler.finalNet);
      } else {
        QuicOthersAnswer(r);
      }
    }
  }

  lemma QuicOthersAnswer(r: Request)
    requires NoHeadFails(r) && !(r.HTTP? && r.handler.Calls?)
    ensures SuccessfulHeads(Serve(Quic, r, true).0.wire) == 1
  {
    hide SuccessfulHeads, BodyAfterHead, Copy, ProxyTCP, ProxyWebsocket;
    EmptyAfterHead();
    PutHeads([], ErrorHead(true));
    match r {
      case TCP(ack, chunks, ends) => TcpIsSafe(Quic, ack, chunks, ends);
      case HTTP(Websocket(d)) => DirectIsSafe(Quic, d);
      case _ =>
    }
  }

  /** Over QUIC, with no head write failing, the head is out exactly when it was forced. */
  lemma {:induction false} QuicRunForces(s: Stack, calls: seq<Call>)
    requires StackInv(s) && s.up.kind.Quic? && HeadWritesOk(calls)
    ensures var t := Run(s, calls);
            (t.sentHeader <==> s.sentHeader || Forces(s.websocket, s.wroteHeader, calls))
            && (t.hasConn <==> s.hasConn || !NeverHijacks(calls))
    decreases |calls|
  {
    hide StackInv, Step;
    if calls != [] {
      var c, t := calls[0], Step(s, calls[0]).0;
      StepInv(s, c);
      StepStatus(s, c);
      QuicStepForces(s, c);
      assert calls == [c] + calls[1..];
      QuicRunForces(t, calls[1..]);
      if t.sentHeader {
        assert t.wroteHeader by { SentIsSet(t); }
      }
    }
  }

  lemma SentIsSet(s: Stack)
    requires StackInv(s) && s.sentHeader
    ensures s.wroteHeader
  {
  }

  lemma QuicStepForces(s: Stack, c: Call)
    requires s.up.kind.Quic? && (c.Write? || c.Hijack? ==> c.net.ok)
    ensures var t := Step(s, c).0;
            (t.sentHeader <==> s.sentHeader || c.Write? || (c.Hijack? && (s.websocket || s.wroteHeader)))
            && (t.hasConn <==> s.hasConn || c.Hijack?)
  {
    hide Sent;
  }

  lemma QuicHandlerAnswers(websocket: bool, calls: seq<Call>, finalNet: Net)
    requires finalNet.ok && HeadWritesOk(calls)
    ensures var (s, done) := Finalized(Quic, websocket, calls, finalNet);
            done && SuccessfulHeads(s.up.wire) == if Answers(websocket, calls) then 1 else 0
  {
    hide Run, SuccessfulHeads, BodyAfterHead, Carries, PayloadOnly, HeadWritesOk, Forces, NeverHijacks, FirstStatus;
    var s0 := NewStack(NewUp(Quic), websocket);
    NewStackInv(Quic, websocket);
    QuicRunForces(s0, calls);
    RunStatus(s0, calls);
    RunInv(s0, calls);
    FinalizedInv(Quic, websocket, calls, finalNet);
  }

  /** A handler that does nothing: its peer gets no head over QUIC, and the server's 200 over HTTP/2. */
  lemma SilentHandler(finalNet: Net)
    ensures Serve(Quic, HTTP(Calls(false, [], finalNet)), true).0.wire == []
    ensures Serve(Http2, HTTP(Calls(false, [], finalNet)), true).0.wire == [ImplicitHead]
  {
    assert Run(NewStack(NewUp(Quic), false), []) == NewStack(NewUp(Quic), false);
    assert Run(NewStack(NewUp(Http2), false), []) == NewStack(NewUp(Http2), false);
  }

  // ----- hijacking -----

  lemma CompletedRaw(u: Up)
    ensures RawAfterHead(Completed(u).wire) <==> RawAfterHead(u.wire)
  {
    hide RawAfterHead;
    PutAfterHead(u.wire, ImplicitHead);
  }

  lemma HeadRaw(u: Up, status: int, net: Net)
    ensures RawAfterHead(PutRespHeaders(u, status, net).0.wire) <==> RawAfterHead(u.wire)
  {
    hide RawAfterHead;
    var carried := Carried(u.kind, status);
    PutAfterHead(u.wire, Head(carried, true));
    PutAfterHead(u.wire, Head(carried, net.ok));
    PutAfterHead(u.wire, Info(carried));
    CompletedRaw(NetHeader(u, carried));
  }

  lemma SendHeadRaw(s: Stack, net: Net)
    ensures RawAfterHead(SendHead(s, net).0.up.wire) <==> RawAfterHead(s.up.wire)
  {
    hide RawAfterHead, PutRespHeaders;
    HeadRaw(s.up, s.status, net);
  }

  /** Only a write on a hijacked QUIC stream can put bytes before the head. */
  lemma WriteRaw(u: Up, data: Data, net: Net, io: Io)
    ensures RawAfterHead(UpWrite(u, data, net, io).0.wire) <==> RawAfterHead(u.wire)
    ensures RawAfterHead(ConnWrite(u, data, io).wire)
            <==> RawAfterHead(u.wire) && (u.kind.Quic? && Sent(data, io) != [] ==> SuccessfulHeads(u.wire) > 0)
  {
    hide RawAfterHead, BodyAfterHead, SuccessfulHeads, Sent, PutRespHeaders;
    HeadRaw(u, 200, net);
    CompletedRaw(u);
    PutAfterHead(PutRespHeaders(u, 200, net).0.wire, Body(Sent(data, io)));
    PutAfterHead(Completed(u).wire, Body(Sent(data, io)));
    PutAfterHead(u.wire, Body(Sent(data, io)));
    PutAfterHead(u.wire, Raw(Sent(data, io)));
  }

  /** A write of at least one byte on a hijacked connection. */
  predicate WritesRaw(c: Call) {
    c.WriteOnConn? && Sent(c.data, c.io) != []
  }

  /** Read off the calls alone: over QUIC some bytes go to a hijacked stream before a head is sent. `statusSet`,
      `sent` and `hasConn` say what earlier calls have brought about. */
  predicate Leaks(websocket: bool, statusSet: bool, sent: bool, hasConn: bool, calls: seq<Call>)
    decreases |calls|
  {
    calls != []
    && var rest := calls[1..];
       match calls[0]
       case WriteHeader(_) => Leaks(websocket, true, sent, hasConn, rest)
       case Write(_, net, _) => Leaks(websocket, true, sent || net.ok, hasConn, rest)
       case Hijack(net) =>
         var known := statusSet || websocket;
         Leaks(websocket, known, sent || (known && net.ok), hasConn || !known || sent || net.ok, rest)
       case WriteOnConn(_, _) =>
         (WritesRaw(calls[0]) && hasConn && !sent) || Leaks(websocket, statusSet, sent, hasConn, rest)
  }

  /** How one call moves the three flags over QUIC, and when it puts bytes before the head. */
  lemma QuicStepRaw(s: Stack, c: Call)
    requires StackInv(s) && s.up.kind.Quic?
    ensures var t := Step(s, c).0;
            match c
            case WriteHeader(_) => t.sentHeader == s.sentHeader && t.hasConn == s.hasConn
            case Write(_, net, _) => t.sentHeader == (s.sentHeader || net.ok) && t.hasConn == s.hasConn
            case Hijack(net) =>
              t.sentHeader == (s.sentHeader || (t.wroteHeader && net.ok))
              && t.hasConn == (s.hasConn || !t.wroteHeader || s.sentHeader || net.ok)
            case WriteOnConn(_, _) => t.sentHeader == s.sentHeader && t.hasConn == s.hasConn
    ensures RawAfterHead(Step(s, c).0.up.wire)
            <==> RawAfterHead(s.up.wire) && !(WritesRaw(c) && s.hasConn && !s.sentHeader)
  {
    hide SuccessfulHeads, BodyAfterHead, RawAfterHead, Carries, PayloadOnly, Sent;
    match c {
      case WriteHeader(_) =>
      case Write(data, net, io) =>
        SendHeadRaw(SetStatus(s, 200), net);
        WriteRaw(SendHead(SetStatus(s, 200), net).0.up, data, net, io);
      case Hijack(net) => SendHeadRaw(if s.websocket then SetStatus(s, 101) else s, net);
      case WriteOnConn(data, io) => WriteRaw(s.up, data, Net(true, true), io);
    }
  }

  lemma {:induction false} QuicRunRaw(s: Stack, calls: seq<Call>)
    requires StackInv(s) && s.up.kind.Quic?
    ensures RawAfterHead(Run(s, calls).up.wire)
            <==> RawAfterHead(s.up.wire) && !Leaks(s.websocket, s.wroteHeader, s.sentHeader, s.hasConn, calls)
    decreases |calls|
  {
    hide StackInv, RawAfterHead, Step, WritesRaw;
    if calls != [] {
      var c, t := calls[0], Step(s, calls[0]).0;
      StepInv(s, c);
      StepStatus(s, c);
      QuicStepRaw(s, c);
      QuicRunRaw(t, calls[1..]);
      assert !c.WriteOnConn? ==> !WritesRaw(c) by { OnlyConnWritesRaw(c); }
      assert Leaks(s.websocket, s.wroteHeader, s.sentHeader, s.hasConn, calls)
             <==> (WritesRaw(c) && s.hasConn && !s.sentHeader)
                  || Leaks(t.websocket, t.wroteHeader, t.sentHeader, t.hasConn, calls[1..]);
    }
  }

  lemma OnlyConnWritesRaw(c: Call)
    ensures WritesRaw(c) ==> c.WriteOnConn?
  {
  }

  /** Over HTTP/2 nothing goes past the writer. */
  lemma Http2StepRaw(s: Stack, c: Call)
    requires s.up.kind.Http2?
    ensures RawAfterHead(Step(s, c).0.up.wire) <==> RawAfterHead(s.up.wire)
  {
    hide SuccessfulHeads, RawAfterHead, Sent, SendHead, UpWrite, ConnWrite;
    match c {
      case WriteHeader(_) =>
      case Write(data, net, io) =>
        SendHeadRaw(SetStatus(s, 200), net);
        WriteRaw(SendHead(SetStatus(s, 200), net).0.up, data, net, io);
      case Hijack(net) => SendHeadRaw(if s.websocket then SetStatus(s, 101) else s, net);
      case WriteOnConn(data, io) => WriteRaw(s.up, data, Net(true, true), io);
    }
  }

  lemma {:induction false} Http2RunRaw(s: Stack, calls: seq<Call>)
    requires s.up.kind.Http2?
    ensures RawAfterHead(Run(s, calls).up.wire) <==> RawAfterHead(s.up.wire)
    decreases |calls|
  {
    hide RawAfterHead, Step;
    if calls != [] {
      Http2StepRaw(s, calls[0]);
      StepStatus(s, calls[0]);
      Http2RunRaw(Step(s, calls[0]).0, calls[1..]);
    }
  }

  /** Exactly the handlers whose hijacked bytes all follow a head, for every pattern of write failures and to the
      end of the stream: all of them over HTTP/2, and over QUIC those whose calls do not leak. */
  lemma RawAfterHeadIff(kind: Kind, websocket: bool, calls: seq<Call>, finalNet: Net, tailOk: bool)
    ensures RawAfterHead(Serve(kind, HTTP(Calls(websocket, calls, finalNet)), tailOk).0.wire)
            <==> kind.Http2? || !Leaks(websocket, false, false, false, calls)
  {
    hide Run, RawAfterHead, StackInv, Leaks, SendHead, FirstStatus;
    var s0 := NewStack(NewUp(kind), websocket);
    NewStackInv(kind, websocket);
    EmptyAfterHead();
    if kind.Quic? {
      QuicRunRaw(s0, calls);
    } else {
      Http2RunRaw(s0, calls);
    }
    SendHeadRaw(Run(s0, calls), finalNet);
    HandlerIsSafe(kind, websocket, calls, finalNet);
    CompletedRaw(Finalized(kind, websocket, calls, finalNet).0.up);
  }

  /** A hijack and a write on the connection, before any status: every byte goes out ahead of the head. */
  lemma HijackedBytesLeak(net: Net, data: Data)
    requires data != []
    ensures var calls := [Hijack(net), WriteOnConn(data, Wrote)];
            var wire := Serve(Quic, HTTP(Calls(false, calls, net)), true).0.wire;
            Leaks(false, false, false, false, calls) && wire == [Raw(data)] && !RawAfterHead(wire)
  {
    var calls := [Hijack(net), WriteOnConn(data, Wrote)];
    var s0 := NewStack(NewUp(Quic), false);
    assert calls[1..] == [WriteOnConn(data, Wrote)] && calls[1..][1..] == [];
    var s1 := Step(s0, calls[0]).0;
    var s2 := Step(s1, calls[1]).0;
    assert Run(s2, []) == s2;
    assert Run(s1, calls[1..]) == s2;
    var wire := [Raw(data)];
    assert s2.up.wire == wire;
    assert RawBytes(wire[0]) && wire[..0] == [];
  }

  /** When no head write fails: some bytes are written after a hijack and before any call that forces the head out. */
  lemma {:induction false} LeaksWhenHeadsOk(websocket: bool, statusSet: bool, sent: bool, hasConn: bool,
                                            calls: seq<Call>)
    requires HeadWritesOk(calls)
    ensures Leaks(websocket, statusSet, sent, hasConn, calls)
            <==> exists k :: LeaksAt(websocket, statusSet, sent, hasConn, calls, k)
    decreases |calls|
  {
    hide WritesRaw, Leaks;
    if calls == [] {
      NoCallsNoLeak(websocket, statusSet, sent, hasConn);
    } else {
      var c, rest := calls[0], calls[1..];
      var known := statusSet || (c.Hijack? && websocket) || c.WriteHeader? || c.Write?;
      var sentNow := sent || c.Write? || (c.Hijack? && known);
      var connNow := hasConn || c.Hijack?;
      assert calls == [c] + rest;
      assert HeadWritesOk(rest);
      LeaksWhenHeadsOk(websocket, known, sentNow, connNow, rest);
      LeaksUnfolds(websocket, statusSet, sent, hasConn, calls);
      forall k | 0 <= k < |rest|
        ensures LeaksAt(websocket, statusSet, sent, hasConn, calls, k + 1)
                <==> LeaksAt(websocket, known, sentNow, connNow, rest, k)
      {
        LeaksLater(websocket, statusSet, sent, hasConn, calls, k);
      }
      if exists k :: LeaksAt(websocket, statusSet, sent, hasConn, calls, k) {
        var k :| LeaksAt(websocket, statusSet, sent, hasConn, calls, k);
        assert k == 0 || LeaksAt(websocket, known, sentNow, connNow, rest, k - 1);
      }
      if exists k :: LeaksAt(websocket, known, sentNow, connNow, rest, k) {
        var k :| LeaksAt(websocket, known, sentNow, connNow, rest, k);
        assert LeaksAt(websocket, statusSet, sent, hasConn, calls, k + 1);
      }
      if WritesRaw(c) && hasConn && !sent {
        assert LeaksAt(websocket, statusSet, sent, hasConn, calls, 0);
      }
    }
  }

  /** The k-th call writes bytes behind a hijack, with no head sent or forced out before it. */
  predicate LeaksAt(websocket: bool, statusSet: bool, sent: bool, hasConn: bool, calls: seq<Call>, k: int) {
    0 <= k < |calls| && WritesRaw(calls[k])
    && (hasConn || !NeverHijacks(calls[..k])) && !sent && !Forces(websocket, statusSet, calls[..k])
  }

  lemma NoCallsNoLeak(websocket: bool, statusSet: bool, sent: bool, hasConn: bool)
    ensures !Leaks(websocket, statusSet, sent, hasConn, [])
  {
  }

  lemma LeaksUnfolds(websocket: bool, statusSet: bool, sent: bool, hasConn: bool, calls: seq<Call>)
    requires calls != [] && HeadWritesOk(calls)
    ensures var c := calls[0];
            var known := statusSet || (c.Hijack? && websocket) || c.WriteHeader? || c.Write?;
            Leaks(websocket, statusSet, sent, hasConn, calls)
            <==> (WritesRaw(c) && hasConn && !sent)
                 || Leaks(websocket, known, sent || c.Write? || (c.Hijack? && known), hasConn || c.Hijack?, calls[1..])
  {
    hide Sent;
  }

  lemma LeaksLater(websocket: bool, statusSet: bool, sent: bool, hasConn: bool, calls: seq<Call>, k: nat)
    requires k + 1 < |calls|
    ensures var c := calls[0];
            var known := statusSet || (c.Hijack? && websocket) || c.WriteHeader? || c.Write?;
            LeaksAt(websocket, statusSet, sent, hasConn, calls, k + 1)
            <==> LeaksAt(websocket, known, sent || c.Write? || (c.Hijack? && known), hasConn || c.Hijack?,
                         calls[1..], k)
  {
    hide WritesRaw;
    var c, more := calls[0], calls[..k + 1];
    assert more[1..] == calls[1..][..k] && more[0] == c;
    assert NeverHijacks(more) <==> !c.Hijack? && NeverHijacks(more[1..]) by { assert more == [c] + more[1..]; }
  }

  /** So when no head write fails, hijacked bytes all follow a head exactly when each write of them that comes behind a
      hijack also comes behind a call that forces the head out. */
  lemma RawAfterHeadWhenHeadsOk(websocket: bool, calls: seq<Call>, finalNet: Net, tailOk: bool)
    requires HeadWritesOk(calls)
    ensures RawAfterHead(Serve(Quic, HTTP(Calls(websocket, calls, finalNet)), tailOk).0.wire)
            <==> forall k :: 0 <= k < |calls| && WritesRaw(calls[k]) && !NeverHijacks(calls[..k])
                             ==> Forces(websocket, false, calls[..k])
  {
    hide RawAfterHead, Serve, Leaks, WritesRaw, NeverHijacks, Forces, HeadWritesOk;
    RawAfterHeadIff(Quic, websocket, calls, finalNet, tailOk);
    LeaksWhenHeadsOk(websocket, false, false, false, calls);
    if exists k :: LeaksAt(websocket, false, false, false, calls, k) {
      var k :| LeaksAt(websocket, false, false, false, calls, k);
    }
    forall k | 0 <= k < |calls| && WritesRaw(calls[k]) && !NeverHijacks(calls[..k])
               && !Forces(websocket, false, calls[..k])
      ensures LeaksAt(websocket, false, false, false, calls, k)
    {
    }
  }

  // ----- informational statuses -----

  /** The status net/http would answer with: informational ones do not count. */
  function FinalStatus(websocket: bool, calls: seq<Call>): Option<int>
    decreases |calls|
  {
    if calls == [] then None
    else match calls[0]
         case WriteHeader(status) =>
           if Informational(status) then FinalStatus(websocket, calls[1..]) else Some(status)
         case Write(_, _, _) => Some(200)
         case Hijack(_) => if websocket then Some(101) else FinalStatus(websocket, calls[1..])
         case WriteOnConn(_, _) => FinalStatus(websocket, calls[1..])
  }

  /** The peer takes this status as the response's. */
  predicate PeerGets(wire: seq<Event>, status: int) {
    exists k :: 0 <= k < |wire| && (wire[k] == Head(status, true) || (wire[k].ImplicitHead? && status == 200))
  }

  lemma {:induction false} FinalIsFirst(websocket: bool, calls: seq<Call>)
    ensures var first, final := FirstStatus(websocket, calls), FinalStatus(websocket, calls);
            (final.Some? ==> first.Some? && !Informational(final.value))
            && (first.Some? && !Informational(first.value) ==> final == first)
    decreases |calls|
  {
    if calls != [] {
      FinalIsFirst(websocket, calls[1..]);
    }
  }

  lemma {:induction false} SomeHead(wire: seq<Event>)
    requires SuccessfulHeads(wire) > 0
    ensures exists k :: 0 <= k < |wire| && Successful(wire[k])
    decreases |wire|
  {
    var n := |wire| - 1;
    if !Successful(wire[n]) {
      SomeHead(wire[..n]);
      var k :| 0 <= k < n && Successful(wire[..n][k]);
      assert Successful(wire[k]);
    }
  }

  /** All heads of a handler's whole stream stand for its first status. */
  lemma HandlerCarries(kind: Kind, websocket: bool, calls: seq<Call>, finalNet: Net)
    requires FirstStatus(websocket, calls).Some?
    ensures var wire := Serve(kind, HTTP(Calls(websocket, calls, finalNet)), true).0.wire;
            Carries(wire, kind, FirstStatus(websocket, calls).value)
  {
    hide Run, FirstStatus, SuccessfulHeads, BodyAfterHead, Carries, PayloadOnly, FinalHead;
    var status := FirstStatus(websocket, calls).value;
    FinalizedInv(kind, websocket, calls, finalNet);
    OneHeadPerHandler(kind, websocket, calls, finalNet);
    var s := Finalized(kind, websocket, calls, finalNet).0;
    OneCarries(kind, status, []);
    if kind.Http2? && !s.up.committed {
      PutCarries(s.up.wire, ImplicitHead, kind, status);
    }
  }

  /** The adapter latches informational statuses too, so the handler's final status reaches the peer exactly when
      it sets no informational one first, or when it happens to be the 200 that an HTTP/2 server supplies. */
  lemma FinalStatusReachesIff(kind: Kind, websocket: bool, calls: seq<Call>, finalNet: Net)
    requires FinalStatus(websocket, calls).Some?
    requires kind.Quic? ==> finalNet.ok && HeadWritesOk(calls) && Answers(websocket, calls)
    ensures var final := Carried(kind, FinalStatus(websocket, calls).value);
            FirstStatus(websocket, calls).Some?
            && (PeerGets(Serve(kind, HTTP(Calls(websocket, calls, finalNet)), true).0.wire, final)
                <==> !Informational(FirstStatus(websocket, calls).value) || (kind.Http2? && final == 200))
  {
    hide FirstStatus, FinalStatus, SuccessfulHeads, Serve, HeadWritesOk, Answers;
    var r := HTTP(Calls(websocket, calls, finalNet));
    FinalIsFirst(websocket, calls);
    HandlerCarries(kind, websocket, calls, finalNet);
    AnsweredIff(kind, r);
    HandlerNotAborted(kind, websocket, calls, finalNet);
    var wire := Serve(kind, r, true).0.wire;
    SomeHead(wire);
    var k :| 0 <= k < |wire| && Successful(wire[k]);
    var final := Carried(kind, FinalStatus(websocket, calls).value);
    if !Informational(FirstStatus(websocket, calls).value) {
      assert wire[k] == Head(final, true);
    } else if kind.Http2? && final == 200 {
      assert wire[k].ImplicitHead?;
    }
  }

  lemma HandlerNotAborted(kind: Kind, websocket: bool, calls: seq<Call>, finalNet: Net)
    ensures !Serve(kind, HTTP(Calls(websocket, calls, finalNet)), true).1
  {
    hide Run, FinalHead, FirstStatus;
    HandlerIsSafe(kind, websocket, calls, finalNet);
  }

  /** A 404 behind early hints never reaches the peer: it sees 103 over QUIC, and 103 and then 200 over HTTP/2. */
  lemma EarlyHintsHideStatus(kind: Kind)
    ensures var net := Net(true, true);
            var wire := Serve(kind, HTTP(Calls(false, [WriteHeader(103), WriteHeader(404)], net)), true).0.wire;
            wire == if kind.Quic? then [Head(103, true)] else [Info(103), ImplicitHead]
  {
    var s0 := NewStack(NewUp(kind), false);
    var calls := [WriteHeader(103), WriteHeader(404)];
    assert calls[1..] == [WriteHeader(404)] && calls[1..][1..] == [];
    var s1 := SetStatus(s0, 103);
    assert Run(s0, calls) == Run(s1, calls[1..]);
    assert Run(s1, calls[1..]) == Run(s1, []);
    assert Run(s1, []) == s1;
  }

  // ----- how streams open and end -----

  predicate StartsWith(wire: seq<Event>, e: Event) {
    wire != [] && wire[0] == e
  }

  lemma {:induction false} CopyOnlyAdds(u: Up, chunks: seq<Chunk>)
    ensures u.wire <= Copy(u, chunks).0.wire
    decreases |chunks|
  {
    hide Sent;
    if chunks != [] {
      CopyOnlyAdds(UpWrite(u, chunks[0].data, chunks[0].net, chunks[0].io).0, chunks[1..]);
    }
  }

  /** The first thing the peer of a direct websocket sees: over QUIC the origin's status or 502, over HTTP/2 the
      same, with 200 for 101 and an informational head for any other 1xx. */
  lemma DirectOpens(kind: Kind, d: Direct, tailOk: bool)
    ensures var wire := Serve(kind, HTTP(Websocket(d)), tailOk).0.wire;
            var status := if d.NoOrigin? then 502 else d.status;
            && (kind.Quic? ==> StartsWith(wire, Head(status, d.net.ok)))
            && (kind.Http2? ==>
                  StartsWith(wire, if status == 101 then Head(200, true)
                                   else if 100 <= status <= 199 then Info(status) else Head(status, true)))
  {
    hide Copy;
    var status := if d.NoOrigin? then 502 else d.status;
    var u := PutRespHeaders(NewUp(kind), status, d.net).0;
    if d.Response? {
      CopyOnlyAdds(u, d.chunks);
    }
  }

  /** A TCP stream opens with its acknowledgement, a 200 over HTTP/2. */
  lemma TcpOpens(kind: Kind, ack: Net, chunks: seq<Chunk>, ends: Ends, tailOk: bool)
    ensures var wire := Serve(kind, TCP(ack, chunks, ends), tailOk).0.wire;
            StartsWith(wire, if kind.Quic? then Ack(ack.ok) else Head(200, true))
  {
    hide Copy, TcpSucceeds;
    CopyOnlyAdds(AckConnection(NewUp(kind), ack).0, chunks);
  }

  /** A request that fails before anything was written gets the error response and nothing else. */
  lemma RefusedGetsError(kind: Kind, r: Request, tailOk: bool)
    requires r.Rejected? || r.TCPUnreachable? || r == HTTP(NoHandler) || (r.NoProxy? && kind.Quic?)
             || (r.Configuration? && (kind.Quic? || !r.decoded))
             || (r.ControlStream? && (kind.Quic? || (r.writes == [] && !r.clean)))
    ensures Serve(kind, r, tailOk) == (Up(kind, true, kind.Http2?, false, [ErrorHead(kind.Http2? || tailOk)]), false)
  {
    var e := ErrorHead(kind.Http2? || tailOk);
    assert NewUp(kind).wire + [e] == [e];
  }

  predicate AllWrote(chunks: seq<Chunk>) {
    forall k :: 0 <= k < |chunks| ==> chunks[k].io.Wrote?
  }

  /** The copies of a TCP stream fail when the context ends or when the first error to arrive is not benign. */
  predicate CopiesFail(chunks: seq<Chunk>, ends: Ends) {
    var down := if AllWrote(chunks) then ends.readEnd else ends.writeError;
    || ends.cancelled
    || (ends.otherFirst && (ends.other == Broken || (ends.other == Fine && down == Broken)))
    || (!ends.otherFirst && (down == Broken || (down == Fine && ends.other == Broken)))
  }

  /** Exactly the HTTP/2 streams that are aborted: those that fail behind their head. */
  lemma AbortedIff(r: Request)
    ensures Serve(Http2, r, true).1
            <==> match r
                 case HTTP(Websocket(NoOrigin(_))) => true
                 case HTTP(Websocket(Response(status, _, writable, chunks, othersOk))) =>
                   (status == 101 && !writable) || !AllWrote(chunks) || !othersOk
                 case TCP(_, chunks, ends) => CopiesFail(chunks, ends)
                 case _ => false
  {
    hide Copy, Run, FinalHead, FirstStatus, UpWrite, WriteAll, ProxyWebsocket, ProxyTCP, CopiesFail;
    match r {
      case HTTP(Calls(websocket, calls, finalNet)) => HandlerNotAborted(Http2, websocket, calls, finalNet);
      case HTTP(Websocket(d)) => DirectAborts(d);
      case TCP(ack, chunks, ends) => TcpAborts(ack, chunks, ends);
      case Configuration(_, reply) => WriteLeavesTried(NewUp(Http2), reply);
      case ControlStream(writes, _) => ControlLeavesTried(NewUp(Http2), writes);
      case _ =>
    }
  }

  lemma DirectAborts(d: Direct)
    ensures var (u, done) := ProxyWebsocket(NewUp(Http2), d);
            u.headTried
            && (done <==> d.Response? && (d.status == 101 ==> d.writable) && AllWrote(d.chunks) && d.othersOk)
  {
    hide Copy, Delivered, Copied;
    if d.Response? {
      var u := PutRespHeaders(NewUp(Http2), d.status, d.net).0;
      CopyDelivers(u, d.chunks);
      CopyTried(u, d.chunks);
    }
  }

  lemma AckTries(ack: Net)
    ensures var (u, acked) := AckConnection(NewUp(Http2), ack);
            acked && u.headTried && u.kind.Http2?
  {
  }

  lemma TcpAborts(ack: Net, chunks: seq<Chunk>, ends: Ends)
    ensures var (u, done) := ProxyTCP(NewUp(Http2), ack, chunks, ends);
            u.headTried && (done <==> !CopiesFail(chunks, ends))
  {
    hide Copy, Delivered, Copied, PutRespHeaders;
    AckTries(ack);
    var u := AckConnection(NewUp(Http2), ack).0;
    CopyDelivers(u, chunks);
    CopyTried(u, chunks);
  }

  lemma WriteLeavesTried(u: Up, c: Chunk)
    requires u.kind.Http2?
    ensures var t := UpWrite(u, c.data, c.net, c.io).0;
            t.headTried == u.headTried && t.kind == u.kind
  {
  }

  lemma {:induction false} ControlLeavesTried(u: Up, writes: seq<Chunk>)
    requires u.kind.Http2?
    ensures WriteAll(u, writes).headTried == u.headTried
    decreases |writes|
  {
    hide UpWrite;
    if writes != [] {
      WriteLeavesTried(u, writes[0]);
      ControlLeavesTried(UpWrite(u, writes[0].data, writes[0].net, writes[0].io).0, writes[1..]);
    }
  }

  lemma {:induction false} CopyTried(u: Up, chunks: seq<Chunk>)
    requires u.kind.Http2?
    ensures Copy(u, chunks).0.headTried == u.headTried
    decreases |chunks|
  {
    hide UpWrite;
    if chunks != [] {
      WriteLeavesTried(u, chunks[0]);
      CopyTried(UpWrite(u, chunks[0].data, chunks[0].net, chunks[0].io).0, chunks[1..]);
    }
  }

  /** Over QUIC nothing is sent behind a stream that failed after its head was tried. */
  lemma NoTailBehindHead(r: Request, tailOk: bool)
    requires Dispatch(NewUp(Quic), r).0.headTried
    ensures Serve(Quic, r, tailOk).0 == Dispatch(NewUp(Quic), r).0
  {
    hide Dispatch;
  }

  /** A flush commits the HTTP/2 server: even an aborted stream then has its 200 behind an informational head. */
  lemma FlushCommits(status: int)
    requires 100 <= status <= 199 && status != 101
    ensures Serve(Http2, HTTP(Websocket(Response(status, Net(true, true), true, [], false))), true).0.wire
         == [Info(status), ImplicitHead]
    ensures Serve(Http2, HTTP(Websocket(Response(status, Net(true, false), true, [], false))), true).0.wire
         == [Info(status)]
  {
  }

  /** A bare first body write: QUIC puts a 200 head before it, and so does the HTTP/2 server; a failed one sends its
      first bytes. */
  lemma FirstWriteHasHead(data: Data, net: Net, n: nat)
    requires n <= |data|
    ensures UpWrite(NewUp(Quic), data, net, Wrote).0.wire == [Head(200, net.ok), Body(data)]
    ensures UpWrite(NewUp(Quic), data, net, Failed(n)).0.wire == [Head(200, net.ok), Body(data[..n])]
    ensures UpWrite(NewUp(Http2), data, net, Wrote).0.wire == [ImplicitHead, Body(data)]
    ensures UpWrite(NewUp(Http2), data, net, Failed(n)).0.wire == [ImplicitHead, Body(data[..n])]
  {
  }

  // ----- hijacking over HTTP/2 -----

  /** Behind a hijack the HTTP/2 writer takes heads without sending them. */
  lemma HeadBehindHijack(u: Up, status: int, net: Net)
    requires u.kind.Http2? && u.headTried && !u.hijacked
    ensures var (taken, ok) := UpHijack(u);
            ok && PutRespHeaders(taken, status, net) == (taken, true) && taken.wire == u.wire
  {
  }

  /** A Hijack call and its report. */
  predicate HijacksAt(s: Stack, calls: seq<Call>, k: nat)
    requires k < |calls|
  {
    calls[k].Hijack? && Step(Run(s, calls[..k]), calls[k]).1.ok
  }

  lemma {:induction false} RunAppend(s: Stack, calls: seq<Call>, more: seq<Call>)
    ensures Run(s, calls + more) == Run(Run(s, calls), more)
    decreases |calls|
  {
    hide Step;
    if calls == [] {
      assert calls + more == more;
    } else {
      assert (calls + more)[1..] == calls[1..] + more;
      RunAppend(Step(s, calls[0]).0, calls[1..], more);
    }
  }

  lemma {:induction false} ConnStays(s: Stack, calls: seq<Call>)
    requires s.hasConn
    ensures Run(s, calls).hasConn
    decreases |calls|
  {
    hide Step;
    if calls != [] {
      StepKeepsConn(s, calls[0]);
      ConnStays(Step(s, calls[0]).0, calls[1..]);
    }
  }

  lemma StepKeepsConn(s: Stack, c: Call)
    requires s.hasConn
    ensures Step(s, c).0.hasConn
  {
    hide UpWrite, UpHijack, ConnWrite, PutRespHeaders;
  }

  /** Over HTTP/2 a Hijack succeeds exactly when a status is known for the head by then and no Hijack succeeded
      before. */
  lemma Http2HijackIff(websocket: bool, calls: seq<Call>, k: nat)
    requires k < |calls| && calls[k].Hijack?
    ensures var s0 := NewStack(NewUp(Http2), websocket);
            HijacksAt(s0, calls, k)
            <==> FirstStatus(websocket, calls[..k + 1]).Some? && forall j :: 0 <= j < k ==> !HijacksAt(s0, calls, j)
  {
    hide Run, FirstStatus, StackInv, Step;
    var s0 := NewStack(NewUp(Http2), websocket);
    var before := calls[..k];
    var s := Run(s0, before);
    NewStackInv(Http2, websocket);
    RunInv(s0, before);
    RunStatus(s0, before);
    Http2HijackStep(s, calls[k]);
    assert calls[..k + 1] == before + [calls[k]];
    FirstStatusAppend(websocket, before, calls[k]);
    ConnIff(s0, calls, k);
  }

  lemma {:induction false} FirstStatusAppend(websocket: bool, calls: seq<Call>, c: Call)
    requires c.Hijack?
    ensures FirstStatus(websocket, calls + [c]).Some? <==> FirstStatus(websocket, calls).Some? || websocket
    decreases |calls|
  {
    if calls == [] {
      assert calls + [c] == [c] && [c][1..] == [];
    } else {
      assert (calls + [c])[1..] == calls[1..] + [c];
      FirstStatusAppend(websocket, calls[1..], c);
    }
  }

  lemma Http2HijackStep(s: Stack, c: Call)
    requires StackInv(s) && s.up.kind.Http2? && c.Hijack?
    ensures Step(s, c).1.ok <==> (s.wroteHeader || s.websocket) && !s.hasConn
  {
    hide SuccessfulHeads, BodyAfterHead, Carries, PayloadOnly;
  }

  /** A connection is held exactly when some Hijack succeeded. */
  lemma {:induction false} ConnIff(s: Stack, calls: seq<Call>, k: nat)
    requires k <= |calls| && !s.hasConn
    ensures Run(s, calls[..k]).hasConn <==> exists j :: 0 <= j < k && HijacksAt(s, calls, j)
    decreases k
  {
    hide Step;
    if k > 0 {
      ConnIff(s, calls, k - 1);
      var before := calls[..k - 1];
      assert calls[..k] == before + [calls[k - 1]];
      RunAppend(s, before, [calls[k - 1]]);
      assert [calls[k - 1]][1..] == [];
      var t := Run(s, before);
      assert Run(Step(t, calls[k - 1]).0, []) == Step(t, calls[k - 1]).0;
      ConnStep(t, calls[k - 1]);
      assert HijacksAt(s, calls, k - 1) <==> calls[k - 1].Hijack? && Step(t, calls[k - 1]).1.ok;
      if Run(s, calls[..k - 1]).hasConn {
        var j :| 0 <= j < k - 1 && HijacksAt(s, calls, j);
      }
    } else {
      assert calls[..0] == [];
    }
  }

  lemma ConnStep(s: Stack, c: Call)
    ensures Step(s, c).0.hasConn <==> s.hasConn || (c.Hijack? && Step(s, c).1.ok)
  {
    hide UpWrite, UpHijack, ConnWrite, PutRespHeaders, Sent;
  }
}
