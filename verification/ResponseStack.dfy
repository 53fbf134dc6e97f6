/** One proxied stream: the net/http adapter over a QUIC or HTTP/2 upstream writer, and the end of each transport's
    stream. Every outcome of a write to the network is a parameter. */
module ResponseStack {
  import opened Results

  type Data = seq<int>

  datatype Kind = Quic | Http2

  /** How a head write goes: whether the QUIC stream takes it, and whether the HTTP/2 writer flushes it. */
  datatype Net = Net(ok: bool, flush: bool)

  /** How a body write goes: in full, or with an error after `n` bytes. */
  datatype Io = Wrote | Failed(n: nat)

  /** What is sent to the peer, in order. */
  datatype Event =
    | Head(status: int, ok: bool)
    | Info(status: int)              // an informational HTTP/2 head, which does not end the wait for the head proper
    | ImplicitHead                   // the 200 an HTTP/2 server supplies
    | Ack(ok: bool)                  // the ConnectResponse of a TCP stream over QUIC, which carries no status
    | ErrorHead(ok: bool)
    | Body(data: Data)
    | Raw(data: Data)                // past the writer, on the stream itself

  // ----- the upstream writers -----

  /** `headTried` is connectResponseSent over QUIC and statusWritten over HTTP/2; `committed` is the wroteHeader of the
      HTTP/2 server's own response writer. */
  datatype Up = Up(kind: Kind, headTried: bool, committed: bool, hijacked: bool, wire: seq<Event>)

  function NewUp(kind: Kind): Up {
    Up(kind, false, false, false, [])
  }

  function Put(u: Up, e: Event): Up {
    u.(wire := u.wire + [e])
  }

  /** The status line a peer sees: HTTP/2 has no 101. */
  function Carried(kind: Kind, status: int): int {
    if kind.Http2? && status == 101 then 200 else status
  }

  predicate Informational(status: int) {
    100 <= status <= 199 && status != 101
  }

  /** The bytes of a write that got out. */
  function Sent(data: Data, io: Io): Data {
    if io.Failed? && io.n <= |data| then data[..io.n] else data
  }

  /** `http.ResponseWriter.WriteHeader` of the HTTP/2 server. */
  function NetHeader(u: Up, status: int): Up {
    if u.committed then u
    else if Informational(status) then Put(u, Info(status))
    else Put(u, Head(status, true)).(committed := true)
  }

  /** The HTTP/2 server commits to 200 before a first body byte, at a first flush, and when its handler returns. */
  function Completed(u: Up): Up {
    if u.committed then u else Put(u, ImplicitHead).(committed := true)
  }

  function PutRespHeaders(u: Up, status: int, net: Net): (Up, bool) {
    if u.kind.Quic? then (Put(u, Head(status, net.ok)).(headTried := true), net.ok)
    else if u.hijacked then (u, true)
    else
      var u1 := NetHeader(u, Carried(u.kind, status));
      ((if net.flush then Completed(u1) else u1).(headTried := true), true)
  }

  /** Over QUIC a first write sends a 200 head, whose error is dropped. */
  function UpWrite(u: Up, data: Data, net: Net, io: Io): (Up, bool) {
    var u1 := if u.kind.Http2? then Completed(u)
              else if u.headTried then u else PutRespHeaders(u, 200, net).0;
    (Put(u1, Body(Sent(data, io))), io.Wrote?)
  }

  function UpHijack(u: Up): (Up, bool) {
    if u.kind.Quic? then (u, true)
    else if !u.headTried || u.hijacked then (u, false)
    else (u.(hijacked := true), true)
  }

  /** A write on a hijacked connection: the bare QUIC stream, or the HTTP/2 writer. */
  function ConnWrite(u: Up, data: Data, io: Io): Up {
    if u.kind.Quic? then Put(u, Raw(Sent(data, io))) else Put(Completed(u), Body(Sent(data, io)))
  }

  /** The error response: nothing when a head was tried, and over HTTP/2 nothing new once the server is committed. */
  function ErrorTail(u: Up, ok: bool): Up {
    if u.headTried then u
    else if u.kind.Quic? then Put(u, ErrorHead(ok)).(headTried := true)
    else if u.committed then u.(headTried := true)
    else Put(u, ErrorHead(true)).(headTried := true, committed := true)
  }

  class Upstream {
    const kind: Kind
    var headTried: bool
    var committed: bool
    var hijacked: bool
    var wire: seq<Event>

    function Value(): Up
      reads this
    {
      Up(kind, headTried, committed, hijacked, wire)
    }

    constructor (kind: Kind)
      ensures Value() == NewUp(kind)
    {
      this.kind := kind;
      headTried, committed, hijacked, wire := false, false, false, [];
    }

    /** The HTTP/2 server's side. */
    method NetWriteHeader(status: int)
      modifies this
      ensures Value() == NetHeader(old(Value()), status)
    {
      if committed {
        return;
      }
      if Informational(status) {
        wire := wire + [Info(status)];
        return;
      }
      wire := wire + [Head(status, true)];
      committed := true;
    }

    method Commit()
      modifies this
      ensures Value() == Completed(old(Value()))
    {
      if !committed {
        wire := wire + [ImplicitHead];
        committed := true;
      }
    }

    method WriteRespHeaders(status: int, net: Net) returns (done: bool)
      modifies this
      ensures (Value(), done) == PutRespHeaders(old(Value()), status, net)
    {
      match kind {
        case Quic =>
          headTried := true;
          wire := wire + [Head(status, net.ok)];
          return net.ok;
        case Http2 =>
          if hijacked {
            return true;
          }
          var carried := status;
          if carried == 101 {
            carried := 200;
          }
          NetWriteHeader(carried);
          if net.flush {
            Commit();
          }
          headTried := true;
          return true;
      }
    }

    method Write(data: Data, net: Net, io: Io) returns (done: bool)
      modifies this
      ensures (Value(), done) == UpWrite(old(Value()), data, net, io)
    {
      match kind {
        case Quic =>
          if !headTried {
            var _ := WriteRespHeaders(200, net);
          }
        case Http2 => Commit();
      }
      wire := wire + [Body(Sent(data, io))];
      return io.Wrote?;
    }

    method Hijack() returns (done: bool)
      modifies this
      ensures (Value(), done) == UpHijack(old(Value()))
    {
      if kind == Http2 {
        if !headTried || hijacked {
          return false;
        }
        hijacked := true;
      }
      return true;
    }

    method WriteOnConn(data: Data, io: Io)
      modifies this
      ensures Value() == ConnWrite(old(Value()), data, io)
    {
      match kind {
        case Quic => wire := wire + [Raw(Sent(data, io))];
        case Http2 =>
          Commit();
          wire := wire + [Body(Sent(data, io))];
      }
    }

    /** False when a head was tried before, which over HTTP/2 aborts the stream. */
    method WriteErrorResponse(ok: bool) returns (done: bool)
      modifies this
      ensures Value() == ErrorTail(old(Value()), ok) && done == !old(headTried)
    {
      if headTried {
        return false;
      }
      if kind == Quic {
        wire := wire + [ErrorHead(ok)];
      } else if !committed {
        wire := wire + [ErrorHead(true)];
        committed := true;
      }
      headTried := true;
      return true;
    }
  }

  // ----- the net/http adapter -----

  datatype Stack = Stack(up: Up, websocket: bool, status: int, wroteHeader: bool, sentHeader: bool, hasConn: bool)

  /** What a handler may do with its http.ResponseWriter and with the connection it hijacked. */
  datatype Call =
    | WriteHeader(status: int)
    | Write(data: Data, net: Net, io: Io)
    | Hijack(net: Net)
    | WriteOnConn(data: Data, io: Io)

  /** What a call reports back: the bytes it says it wrote, and whether it succeeded. */
  datatype Reply = Reply(written: Data, ok: bool)

  function NewStack(up: Up, websocket: bool): Stack {
    Stack(up, websocket, 0, false, false, false)
  }

  function SetStatus(s: Stack, status: int): Stack {
    if s.wroteHeader then s else s.(status := status, wroteHeader := true)
  }

  /** The head goes out once a status is set, and is tried again after a failure. */
  function SendHead(s: Stack, net: Net): (Stack, bool) {
    if !s.wroteHeader || s.sentHeader then (s, true)
    else
      var (up, done) := PutRespHeaders(s.up, s.status, net);
      (s.(up := up, sentHeader := done), done)
  }

  function WriteBody(s: Stack, data: Data, net: Net, io: Io): (Stack, Reply) {
    var (s1, sent) := SendHead(SetStatus(s, 200), net);
    if !sent then (s1, Reply([], false))
    else
      var (up, done) := UpWrite(s1.up, data, net, io);
      (s1.(up := up), Reply(Sent(data, io), done))
  }

  function TakeConn(s: Stack, net: Net): (Stack, bool) {
    var (s1, sent) := SendHead(if s.websocket then SetStatus(s, 101) else s, net);
    if !sent then (s1, false)
    else
      var (up, done) := UpHijack(s1.up);
      (s1.(up := up, hasConn := s1.hasConn || done), done)
  }

  /** The state after a call and its report; there is no connection to write on before a hijack. */
  function Step(s: Stack, c: Call): (Stack, Reply) {
    match c
    case WriteHeader(status) => (SetStatus(s, status), Reply([], true))
    case Write(data, net, io) => WriteBody(s, data, net, io)
    case Hijack(net) => (TakeConn(s, net).0, Reply([], TakeConn(s, net).1))
    case WriteOnConn(data, io) =>
      if s.hasConn then (s.(up := ConnWrite(s.up, data, io)), Reply(Sent(data, io), io.Wrote?))
      else (s, Reply([], false))
  }

  function Run(s: Stack, calls: seq<Call>): Stack
    decreases |calls|
  {
    if calls == [] then s else Run(Step(s, calls[0]).0, calls[1..])
  }

  function FinalHead(s: Stack, net: Net): (Stack, bool) {
    if s.hasConn then (s, true) else SendHead(s, net)
  }

  class ResponseWriterAdapter {
    const upstream: Upstream
    const websocket: bool
    var status: int
    var wroteHeader: bool
    var sentHeader: bool
    var hasConn: bool

    function Value(): Stack
      reads this, upstream
    {
      Stack(upstream.Value(), websocket, status, wroteHeader, sentHeader, hasConn)
    }

    constructor (upstream: Upstream, websocket: bool)
      ensures this.upstream == upstream && Value() == NewStack(upstream.Value(), websocket)
    {
      this.upstream, this.websocket := upstream, websocket;
      status, wroteHeader, sentHeader, hasConn := 0, false, false, false;
    }

    method WriteHeader(statusCode: int)
      modifies this
      ensures Value() == SetStatus(old(Value()), statusCode)
    {
      if wroteHeader {
        return;
      }
      status := statusCode;
      wroteHeader := true;
    }

    method Write(data: Data, net: Net, io: Io) returns (reply: Reply)
      modifies this, upstream
      ensures (Value(), reply) == WriteBody(old(Value()), data, net, io)
    {
      if !wroteHeader {
        WriteHeader(200);
      }
      if !sentHeader {
        var sent := upstream.WriteRespHeaders(status, net);
        if !sent {
          return Reply([], false);
        }
        sentHeader := true;
      }
      var done := upstream.Write(data, net, io);
      return Reply(Sent(data, io), done);
    }

    method Hijack(net: Net) returns (done: bool)
      modifies this, upstream
      ensures (Value(), done) == TakeConn(old(Value()), net)
    {
      if !wroteHeader && websocket {
        WriteHeader(101);
      }
      if wroteHeader && !sentHeader {
        var sent := upstream.WriteRespHeaders(status, net);
        if !sent {
          return false;
        }
        sentHeader := true;
      }
      done := upstream.Hijack();
      if !done {
        return;
      }
      hasConn := true;
    }

    method Finalize(net: Net) returns (done: bool)
      modifies this, upstream
      ensures (Value(), done) == FinalHead(old(Value()), net)
    {
      if hasConn {
        return true;
      }
      if wroteHeader && !sentHeader {
        var sent := upstream.WriteRespHeaders(status, net);
        if !sent {
          return false;
        }
        sentHeader := true;
      }
      return true;
    }

    /** Stands for `handler.ServeHTTP`: an arbitrary sequence of calls. */
    method Handle(calls: seq<Call>)
      modifies this, upstream
      ensures Value() == Run(old(Value()), calls)
    {
      var i := 0;
      while i < |calls|
        invariant i <= |calls|
        invariant Run(Value(), calls[i..]) == Run(old(Value()), calls)
      {
        var rest := calls[i..];
        assert rest[0] == calls[i] && rest[1..] == calls[i + 1..];
        var _ := HandleOne(calls[i]);
        i := i + 1;
      }
    }

    method HandleOne(call: Call) returns (reply: Reply)
      modifies this, upstream
      ensures (Value(), reply) == Step(old(Value()), call)
    {
      match call {
        case WriteHeader(status) =>
          WriteHeader(status);
          reply := Reply([], true);
        case Write(data, net, io) => reply := Write(data, net, io);
        case Hijack(net) =>
          var done := Hijack(net);
          reply := Reply([], done);
        case WriteOnConn(data, io) =>
          reply := Reply([], false);
          if hasConn {
            upstream.WriteOnConn(data, io);
            reply := Reply(Sent(data, io), io.Wrote?);
          }
      }
    }
  }

  // ----- whole streams -----

  datatype Chunk = Chunk(data: Data, net: Net, io: Io)

  /** A websocket proxied without the adapter: the round trip fails, or a response arrives. `othersOk` says that neither
      reading the origin nor the other direction ends in an error. */
  datatype Direct =
    | NoOrigin(net: Net)
    | Response(status: int, net: Net, writable: bool, chunks: seq<Chunk>, othersOk: bool)

  datatype Handler =
    | NoHandler
    | Websocket(direct: Direct)
    | Calls(websocket: bool, calls: seq<Call>, finalNet: Net)

  /** How one direction of a TCP copy ends: without error, with an error that is dropped, or with one that is kept. */
  datatype CopyEnd = Fine | Benign | Broken

  /** The ends of a TCP stream's two copies: of the downstream copy when a write fails and when none does, of the other
      copy, which of the two comes first, and whether the context ended before both. */
  datatype Ends = Ends(writeError: CopyEnd, readEnd: CopyEnd, other: CopyEnd, otherFirst: bool, cancelled: bool)

  datatype Request =
    | NoProxy                      // an error of the orchestrator, which none reports
    | Rejected                     // a request that cannot be built or has no host, or an unknown type
    | HTTP(handler: Handler)
    | TCPUnreachable               // no destination, or the dial fails
    | TCP(ack: Net, chunks: seq<Chunk>, ends: Ends)
    | Configuration(decoded: bool, reply: Chunk)   // an HTTP/2 stream that updates the configuration
    | ControlStream(writes: seq<Chunk>, clean: bool)   // the HTTP/2 stream that carries the registration RPC

  /** A copy loop over the writer, which stops at the first failed write. */
  function Copy(u: Up, chunks: seq<Chunk>): (Up, bool)
    decreases |chunks|
  {
    if chunks == [] then (u, true)
    else
      var (u1, done) := UpWrite(u, chunks[0].data, chunks[0].net, chunks[0].io);
      if done then Copy(u1, chunks[1..]) else (u1, false)
  }

  function ProxyWebsocket(u: Up, d: Direct): (Up, bool) {
    match d
    case NoOrigin(net) => (PutRespHeaders(u, 502, net).0, false)
    case Response(status, net, writable, chunks, othersOk) =>
      var (u1, sent) := PutRespHeaders(u, status, net);
      if !sent || (status == 101 && !writable) then (u1, false)
      else (Copy(u1, chunks).0, Copy(u1, chunks).1 && othersOk)
  }

  function ProxyHTTP(u: Up, h: Handler): (Up, bool) {
    match h
    case NoHandler => (u, false)
    case Websocket(d) => ProxyWebsocket(u, d)
    case Calls(websocket, calls, finalNet) =>
      var (s, done) := FinalHead(Run(NewStack(u, websocket), calls), finalNet);
      (s.up, done)
  }

  function AckConnection(u: Up, net: Net): (Up, bool) {
    if u.kind.Quic? then (Put(u, Ack(net.ok)).(headTried := true), net.ok) else PutRespHeaders(u, 101, net)
  }

  /** The first error to arrive decides; a benign one counts as none. */
  function TcpSucceeds(ends: Ends, copied: bool): bool {
    var down := if copied then ends.readEnd else ends.writeError;
    var first, second := if ends.otherFirst then ends.other else down, if ends.otherFirst then down else ends.other;
    !ends.cancelled && !(if first.Fine? then second.Broken? else first.Broken?)
  }

  function ProxyTCP(u: Up, ack: Net, chunks: seq<Chunk>, ends: Ends): (Up, bool) {
    var (u1, acked) := AckConnection(u, ack);
    if !acked then (u1, false)
    else
      var (u2, copied) := Copy(u1, chunks);
      (u2, TcpSucceeds(ends, copied))
  }

  /** The writes of the RPC transport, which decides for itself whether to go on after a failed one. */
  function WriteAll(u: Up, writes: seq<Chunk>): Up
    decreases |writes|
  {
    if writes == [] then u else WriteAll(UpWrite(u, writes[0].data, writes[0].net, writes[0].io).0, writes[1..])
  }

  function Dispatch(u: Up, r: Request): (Up, bool) {
    match r
    case NoProxy => (u, u.kind.Http2?)
    case Rejected => (u, false)
    case HTTP(h) => ProxyHTTP(u, h)
    case TCPUnreachable => (u, false)
    case TCP(ack, chunks, ends) => ProxyTCP(u, ack, chunks, ends)
    case Configuration(decoded, reply) =>
      if u.kind.Quic? || !decoded then (u, false) else UpWrite(u, reply.data, reply.net, reply.io)
    case ControlStream(writes, clean) => if u.kind.Quic? then (u, false) else (WriteAll(u, writes), clean)
  }

  /** A fresh stream served to its end, and whether it was aborted. An HTTP/2 server commits to a head when its handler
      returns, but not when it is aborted. */
  function Serve(kind: Kind, r: Request, tailOk: bool): (Up, bool) {
    var (u, done) := Dispatch(NewUp(kind), r);
    if kind.Quic? then (if done then u else ErrorTail(u, tailOk), false)
    else if done then (Completed(u), false)
    else if u.headTried then (u, true)
    else (Completed(ErrorTail(u, true)), false)
  }

  method RunCopy(up: Upstream, chunks: seq<Chunk>) returns (done: bool)
    modifies up
    ensures (up.Value(), done) == Copy(old(up.Value()), chunks)
  {
    var i := 0;
    done := true;
    while i < |chunks| && done
      invariant i <= |chunks|
      invariant if done then Copy(up.Value(), chunks[i..]) == Copy(old(up.Value()), chunks)
                else (up.Value(), false) == Copy(old(up.Value()), chunks)
    {
      var rest := chunks[i..];
      assert rest[0] == chunks[i] && rest[1..] == chunks[i + 1..];
      done := up.Write(chunks[i].data, chunks[i].net, chunks[i].io);
      i := i + 1;
    }
  }

  method RunWebsocket(up: Upstream, d: Direct) returns (done: bool)
    modifies up
    ensures (up.Value(), done) == ProxyWebsocket(old(up.Value()), d)
  {
    match d {
      case NoOrigin(net) =>
        var _ := up.WriteRespHeaders(502, net);
        done := false;
      case Response(status, net, writable, chunks, othersOk) =>
        done := up.WriteRespHeaders(status, net);
        if !done {
          return;
        }
        if status != 101 {
          var written := RunCopy(up, chunks);
          return written && othersOk;
        }
        if !writable {
          return false;
        }
        var copied := RunCopy(up, chunks);
        done := copied && othersOk;
    }
  }

  method RunHTTP(up: Upstream, h: Handler) returns (done: bool)
    modifies up
    ensures (up.Value(), done) == ProxyHTTP(old(up.Value()), h)
  {
    match h {
      case NoHandler => done := false;
      case Websocket(d) => done := RunWebsocket(up, d);
      case Calls(websocket, calls, finalNet) =>
        var recorder := new ResponseWriterAdapter(up, websocket);
        recorder.Handle(calls);
        done := recorder.Finalize(finalNet);
    }
  }

  method RunTCP(up: Upstream, ack: Net, chunks: seq<Chunk>, ends: Ends) returns (done: bool)
    modifies up
    ensures (up.Value(), done) == ProxyTCP(old(up.Value()), ack, chunks, ends)
  {
    if up.kind == Quic {
      up.headTried := true;
      up.wire := up.wire + [Ack(ack.ok)];
      done := ack.ok;
    } else {
      done := up.WriteRespHeaders(101, ack);
    }
    if done {
      var copied := RunCopy(up, chunks);
      done := TcpSucceeds(ends, copied);
    }
  }

  method RunControl(up: Upstream, writes: seq<Chunk>)
    modifies up
    ensures up.Value() == WriteAll(old(up.Value()), writes)
  {
    var i := 0;
    while i < |writes|
      invariant i <= |writes|
      invariant WriteAll(up.Value(), writes[i..]) == WriteAll(old(up.Value()), writes)
    {
      var rest := writes[i..];
      assert rest[0] == writes[i] && rest[1..] == writes[i + 1..];
      var _ := up.Write(writes[i].data, writes[i].net, writes[i].io);
      i := i + 1;
    }
  }

  method RunDispatch(up: Upstream, r: Request) returns (done: bool)
    modifies up
    ensures (up.Value(), done) == Dispatch(old(up.Value()), r)
  {
    match r {
      case NoProxy => done := up.kind == Http2;
      case Rejected => done := false;
      case HTTP(h) => done := RunHTTP(up, h);
      case TCPUnreachable => done := false;
      case TCP(ack, chunks, ends) => done := RunTCP(up, ack, chunks, ends);
      case Configuration(decoded, reply) =>
        done := false;
        if up.kind == Http2 && decoded {
          done := up.Write(reply.data, reply.net, reply.io);
        }
      case ControlStream(writes, clean) =>
        done := false;
        if up.kind == Http2 {
          RunControl(up, writes);
          done := clean;
        }
    }
  }

  method HandleDataStream(r: Request, tailOk: bool) returns (wire: seq<Event>)
    ensures wire == Serve(Quic, r, tailOk).0.wire
  {
    var stream := new Upstream(Quic);
    var done := RunDispatch(stream, r);
    if !done && !stream.headTried {
      var _ := stream.WriteErrorResponse(tailOk);
    }
    wire := stream.wire;
  }

  /** `aborted` is the http.ErrAbortHandler panic, after which the HTTP/2 server resets the stream; otherwise it
      completes the response when the handler returns. */
  method ServeHTTP(r: Request) returns (wire: seq<Event>, aborted: bool)
    ensures (wire, aborted) == (Serve(Http2, r, true).0.wire, Serve(Http2, r, true).1)
  {
    var w := new Upstream(Http2);
    var done := RunDispatch(w, r);
    aborted := false;
    if !done {
      var answered := w.WriteErrorResponse(true);
      aborted := !answered;
    }
    if !aborted {
      w.Commit();
    }
    wire := w.wire;
  }
}
