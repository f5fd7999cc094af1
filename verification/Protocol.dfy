/** A client of the Rust library and a server of either library on two threads, joined by two
    zero-capacity pipes. Every interleaving of their steps is a run of this system. */
module Protocol {
  import opened Words
  import opened Errors
  import opened Frames
  import opened NativePipe
  import opened Rpc

  /** Where the client is: between calls; handing over the unsent bytes of a request;
      reading a response, of which it has taken some bytes; gone; or dead of the `unwrap`. */
  datatype Client = Idle | Sending(out: seq<byte>) | Waiting(got: seq<byte>) | Closed | Crashed

  /** Where the server is: reading a request; handing over the unsent bytes of a reply, the
      last one if it reports an error; ended on an error; or dead of the `unwrap`. */
  datatype Server =
    | Receiving(got: seq<byte>) | Replying(out: seq<byte>, last: Option<IpcError>)
    | Stopped(error: IpcError) | Panicked

  /** The reading end of a pipe: the reader's buffer, then the unread rest of a chunk. */
  datatype End = End(buffered: seq<byte>, carry: seq<byte>) {
    function Bytes(): seq<byte> {
      buffered + carry
    }

    predicate Empty() {
      buffered == [] && carry == []
    }
  }

  /** The state of both threads and both pipes: `up` towards the server, `down` towards the
      client. `answered` records whether the request of the current call was served. */
  datatype System<S, Resp> = System(
    client: Client, server: Server, up: End, down: End, state: S, answered: bool, results: seq<Result<Resp>>)

  /** A service, the calls a client makes, the capacities of the two readers, whether the reads
      of a pipe whose writer is gone fail or return zero bytes, and whether the server reports
      the error it ends on, as the Rust one does, or ends without a word, as the C one. */
  datatype Setting<!S, !Req, !Resp> = Setting(
    svc: Service<S, Req, Resp>, initial: S, requests: seq<Req>, upCapacity: nat, downCapacity: nat,
    readsFail: bool, reports: bool)

  function Init<S, Req, Resp>(p: Setting<S, Req, Resp>): System<S, Resp> {
    System(Idle, Receiving([]), End([], []), End([], []), p.initial, false, [])
  }

  // The steps

  datatype Event =
    | Begin | PutUp(n: nat) | SendFails | Sent
    | FillUp | TakeUp | Serve | SeeClientGone
    | PutDown(n: nat) | ReplyFails | Replied
    | FillDown | TakeDown | Return | SeeServerGone | Close

  /** A reader that has taken these bytes asks for more. */
  predicate Wants(got: seq<byte>) {
    ReadPacket(got).Short?
  }

  /** A reader blocked in the receive of an empty pipe. */
  predicate Blocked(got: seq<byte>, end: End) {
    Wants(got) && end.Empty()
  }

  predicate ServerGone(server: Server) {
    server.Stopped? || server.Panicked?
  }

  predicate ClientGone(client: Client) {
    client.Closed? || client.Crashed?
  }

  /** When a step may happen. A chunk changes hands only while its reader is blocked; its
      size is any from one byte to all that is left. */
  predicate Enabled<S, Req, Resp>(p: Setting<S, Req, Resp>, st: System<S, Resp>, ev: Event) {
    match ev
    case Begin => st.client.Idle? && |st.results| < |p.requests|
    case PutUp(n) =>
      st.client.Sending? && 1 <= n <= |st.client.out| && st.server.Receiving? && Blocked(st.server.got, st.up)
    case SendFails => st.client.Sending? && st.client.out != [] && ServerGone(st.server)
    case Sent => st.client == Sending([])
    case FillUp => st.server.Receiving? && Wants(st.server.got) && st.up.buffered == [] && st.up.carry != []
    case TakeUp => st.server.Receiving? && Wants(st.server.got) && st.up.buffered != []
    case Serve => st.server.Receiving? && !Wants(st.server.got)
    case SeeClientGone => st.server.Receiving? && Blocked(st.server.got, st.up) && ClientGone(st.client)
    case PutDown(n) =>
      st.server.Replying? && 1 <= n <= |st.server.out| && st.client.Waiting? && Blocked(st.client.got, st.down)
    case ReplyFails => st.server.Replying? && st.server.out != [] && ClientGone(st.client)
    case Replied => st.server.Replying? && st.server.out == []
    case FillDown => st.client.Waiting? && Wants(st.client.got) && st.down.buffered == [] && st.down.carry != []
    case TakeDown => st.client.Waiting? && Wants(st.client.got) && st.down.buffered != []
    case Return => st.client.Waiting? && !Wants(st.client.got)
    case SeeServerGone => st.client.Waiting? && Blocked(st.client.got, st.down) && ServerGone(st.server)
    case Close => st.client.Idle? && |st.results| >= |p.requests|
  }

  /** One read of the pipe by a reader of some capacity. */
  function Fill(end: End, capacity: nat): End {
    var n := if |end.carry| < capacity then |end.carry| else capacity;
    End(end.carry[..n], end.carry[n..])
  }

  /** It is the read of the native pipe, with no chunk waiting behind the one in hand. */
  lemma FillIsAPipeRead(carry: seq<byte>, capacity: nat)
    ensures var (data, rest, _) := ReadStep(carry, [], capacity);
            Fill(End([], carry), capacity) == End(data, rest)
  {
  }

  function Finish<S, Resp>(st: System<S, Resp>, r: Outcome<Resp>): System<S, Resp> {
    match r
    case Returned(result) => st.(client := Idle, results := st.results + [result])
    case Panicked => st.(client := Crashed)
  }

  /** Serve what was read, or fail on it, and turn to the reply. */
  function Respond<S, Req, Resp>(p: Setting<S, Req, Resp>, st: System<S, Resp>, got: seq<byte>): System<S, Resp> {
    var (s', r, _) := TurnOn(p.svc, st.state, got, p.readsFail);
    st.(server := ReplyTo(p.reports, r), state := s', answered := true)
  }

  function ReplyPacket(r: Result<Payload>): Packet {
    match r
    case Success(bytes) => SuccessPacket(bytes)
    case Failure(e) => ErrorPacket(e)
  }

  function ReplyTo(reports: bool, r: Result<Payload>): Server {
    match r
    case Success(_) => Replying(Wire(ReplyPacket(r)), None)
    case Failure(e) => if reports then Replying(Wire(ReplyPacket(r)), Some(e)) else Stopped(e)
  }

  /** The bytes of that reply. */
  function ReplyBytes(reports: bool, r: Result<Payload>): seq<byte> {
    if r.Success? || reports then Wire(ReplyPacket(r)) else []
  }

  function Apply<S, Req, Resp>(p: Setting<S, Req, Resp>, st: System<S, Resp>, ev: Event): System<S, Resp>
    requires Enabled(p, st, ev)
  {
    match ev
    case Begin => (
      match p.svc.encodeReq(p.requests[|st.results|])
      case None => Finish(st, Returned(Failure(SerializeError)))
      case Some(bytes) => st.(client := Sending(Wire(RequestPacket(bytes))), answered := false))
    case PutUp(n) => st.(client := Sending(st.client.out[n..]), up := End([], st.client.out[..n]))
    case SendFails => Finish(st, Returned(Failure(GeneralIoError)))
    case Sent => st.(client := Waiting([]))
    case FillUp => st.(up := Fill(st.up, p.upCapacity))
    case TakeUp =>
      st.(server := Receiving(st.server.got + st.up.buffered[..1]), up := End(st.up.buffered[1..], st.up.carry))
    case Serve => Respond(p, st, st.server.got)
    case SeeClientGone => Respond(p, st, st.server.got)
    case PutDown(n) => st.(server := Replying(st.server.out[n..], st.server.last), down := End([], st.server.out[..n]))
    case ReplyFails => st.(server := Server.Panicked)
    case Replied => (
      match st.server.last
      case None => st.(server := Receiving([]))
      case Some(e) => st.(server := Stopped(e)))
    case FillDown => st.(down := Fill(st.down, p.downCapacity))
    case TakeDown =>
      st.(client := Waiting(st.client.got + st.down.buffered[..1]), down := End(st.down.buffered[1..], st.down.carry))
    case Return => Finish(st, Receive(p.svc.decodeResp, st.client.got, p.readsFail))
    case SeeServerGone => Finish(st, Receive(p.svc.decodeResp, st.client.got, p.readsFail))
    case Close => st.(client := Closed)
  }

  // What the calls should come to, with no bytes in sight

  /** The service behind a sequence of calls: alive in some state, or stopped on an error. */
  datatype Served<S> = Alive(state: S) | Dead(error: IpcError)

  /** What a caller gets of an error of the service: its code, if the server reports it; else
      it finds the stream at its end. */
  function Reported<Resp>(reports: bool, e: IpcError): Result<Resp> {
    Failure(if reports then ProtocolError(CodeFromError(e)) else IncompleteVlqSeq)
  }

  /** One call: the service's answer to the request, if both can be serialized. The first
      failure stops the server; its caller gets what is reported of it, and later callers an
      I/O error. */
  function CallStep<S, Req, Resp>(p: Setting<S, Req, Resp>, sv: Served<S>, req: Req): (Served<S>, Result<Resp>) {
    if p.svc.encodeReq(req).None? then (sv, Failure(SerializeError)) else
    match sv
    case Dead(_) => (sv, Failure(GeneralIoError))
    case Alive(s) =>
      var (s', r) := p.svc.serve(s, req);
      match r
      case Failure(e) => (Dead(e), Reported(p.reports, e))
      case Success(resp) =>
        if p.svc.encodeResp(resp).None? then (Dead(SerializeError), Reported(p.reports, SerializeError))
        else (Alive(s'), Success(resp))
  }

  /** The first k calls. */
  function Calls<S, Req, Resp>(p: Setting<S, Req, Resp>, k: nat): (c: (Served<S>, seq<Result<Resp>>))
    requires k <= |p.requests|
    ensures |c.1| == k
  {
    if k == 0 then (Alive(p.initial), []) else
    var (sv, results) := Calls(p, k - 1);
    var (sv', r) := CallStep(p, sv, p.requests[k - 1]);
    (sv', results + [r])
  }

  /** The service does not report failure as `ProtocolError(Ok)`, and the serializer gives
      back what it was given. A server that ends without a word is over the native pipe, as
      over failing reads the C one need not notice the end. */
  ghost predicate Honest<S(!new), Req(!new), Resp(!new)>(p: Setting<S, Req, Resp>) {
    && Lawful(p.svc)
    && (forall s: S, q: Req :: p.svc.serve(s, q).1 != Failure(ProtocolError(Ok)))
    && p.upCapacity >= 1 && p.downCapacity >= 1
    && (p.reports || !p.readsFail)
  }

  /** The bytes of request k, and of the reply to it. */
  function RequestWire<S, Req, Resp>(p: Setting<S, Req, Resp>, k: nat): seq<byte>
    requires k < |p.requests|
  {
    match p.svc.encodeReq(p.requests[k])
    case None => []
    case Some(bytes) => Wire(RequestPacket(bytes))
  }

  /** The server's turn on request k. */
  function TurnOf<S, Req, Resp>(p: Setting<S, Req, Resp>, k: nat): (S, Result<Payload>)
    requires k < |p.requests| && p.svc.encodeReq(p.requests[k]).Some? && Calls(p, k).0.Alive?
  {
    Turn(p.svc, Calls(p, k).0.state, p.svc.encodeReq(p.requests[k]).value)
  }

  function ReplyWire<S, Req, Resp>(p: Setting<S, Req, Resp>, k: nat): seq<byte>
    requires k < |p.requests|
  {
    if p.svc.encodeReq(p.requests[k]).Some? && Calls(p, k).0.Alive? then
      Wire(ReplyPacket(TurnOf(p, k).1))
    else []
  }

  // The invariant

  /** The server between requests: done with its last reply, perhaps not yet past it. */
  ghost predicate AtRest<S, Resp>(st: System<S, Resp>, sv: Served<S>) {
    match sv
    case Alive(s) => st.state == s && (st.server == Receiving([]) || st.server == Replying([], None))
    case Dead(e) => st.server == Replying([], Some(e)) || st.server == Stopped(e)
  }

  /** The server of a client that is gone, after it noticed: it tries to report the end of
      the stream, or is dead of that attempt; or it has just ended. */
  ghost predicate Deserted<S, Resp>(reports: bool, st: System<S, Resp>, sv: Served<S>) {
    && sv.Alive? && st.state == sv.state
    && if reports then st.server.Panicked? || (st.server.Replying? && st.server.out != [])
       else st.server == Stopped(IncompleteVlqSeq)
  }

  /** The request is on its way: its bytes are, in order, those the server has taken, those
      in the pipe's reading end, and those the client still holds. */
  ghost predicate RequestOnItsWay<S, Req, Resp>(p: Setting<S, Req, Resp>, st: System<S, Resp>, k: nat, out: seq<byte>)
    requires k < |p.requests|
  {
    var sv := Calls(p, k).0;
    && st.down.Empty()
    && match sv
       case Dead(_) => AtRest(st, sv) && st.up.Empty() && out == RequestWire(p, k)
       case Alive(s) =>
         && st.state == s
         && match st.server
            case Receiving(got) => got + st.up.Bytes() + out == RequestWire(p, k)
            case Replying(o, last) => o == [] && last == None && st.up.Empty() && out == RequestWire(p, k)
            case _ => false
  }

  /** The reply is on its way, in the same sense. */
  ghost predicate ReplyOnItsWay<S, Req, Resp>(p: Setting<S, Req, Resp>, st: System<S, Resp>, k: nat, got: seq<byte>)
    requires k < |p.requests| && p.svc.encodeReq(p.requests[k]).Some? && Calls(p, k).0.Alive?
  {
    var (s', r) := TurnOf(p, k);
    var reply := ReplyBytes(p.reports, r);
    && st.up.Empty() && st.state == s'
    && match st.server
       case Replying(out, last) =>
         && (r.Success? || p.reports) && last == (if r.Success? then None else Some(r.error))
         && got + st.down.Bytes() + out == reply
       case Receiving(g) => r.Success? && g == [] && got + st.down.Bytes() == reply
       case Stopped(e) => r == Failure(e) && got + st.down.Bytes() == reply
       case Panicked => false
  }

  ghost predicate InCall<S, Req, Resp>(p: Setting<S, Req, Resp>, st: System<S, Resp>, k: nat)
    requires k <= |p.requests|
  {
    && k < |p.requests| && p.svc.encodeReq(p.requests[k]).Some?
    && match st.client
       case Sending(out) =>
         if !st.answered then RequestOnItsWay(p, st, k, out)
         else out == [] && Calls(p, k).0.Alive? && ReplyOnItsWay(p, st, k, [])
       case Waiting(got) =>
         && Calls(p, k).0.Alive?
         && if !st.answered then got == [] && RequestOnItsWay(p, st, k, []) else ReplyOnItsWay(p, st, k, got)
       case _ => false
  }

  ghost predicate Inv<S, Req, Resp>(p: Setting<S, Req, Resp>, st: System<S, Resp>) {
    var k := |st.results|;
    && k <= |p.requests| && st.results == Calls(p, k).1
    && match st.client
       case Idle => st.up.Empty() && st.down.Empty() && AtRest(st, Calls(p, k).0)
       case Closed =>
         && k == |p.requests| && st.up.Empty() && st.down.Empty()
         && (AtRest(st, Calls(p, k).0) || Deserted(p.reports, st, Calls(p, k).0))
       case Crashed => false
       case _ => InCall(p, st, k)
  }

  // Reading a packet that is on its way

  /** A reader that has taken a prefix of a packet wants more exactly while some is missing,
      and then has the packet. */
  lemma PacketOnItsWay(p: Packet, got: seq<byte>, rest: seq<byte>)
    requires ByteVersion(p) && got + rest == Wire(p)
    ensures Wants(got) <==> rest != []
    ensures rest == [] ==> got == Wire(p) && ReadPacket(got) == Got(p, |got|)
  {
    hide ReadPacket, Wire;
    if rest == [] {
      ReadWholePacket(p, []);
      assert got == Wire(p) && Wire(p) + [] == Wire(p);
    } else {
      TruncationIsDetected(p, |got|);
      assert Wire(p)[..|got|] == got;
    }
  }

  /** The server's turn on a request is the service's answer, and what the client accepts
      from the reply is the result of the call. */
  lemma TurnIsTheCall<S(!new), Req(!new), Resp(!new)>(p: Setting<S, Req, Resp>, k: nat)
    requires Honest(p) && k < |p.requests| && p.svc.encodeReq(p.requests[k]).Some? && Calls(p, k).0.Alive?
    ensures var (s', r) := TurnOf(p, k);
            var (sv', result) := CallStep(p, Calls(p, k).0, p.requests[k]);
            && sv' == (if r.Success? then Alive(s') else Dead(r.error))
            && (r.Success? || p.reports ==> Accept(p.svc.decodeResp, ReplyPacket(r)) == Returned(result))
            && (r.Failure? ==> result == Reported(p.reports, r.error))
  {
    var s, req := Calls(p, k).0.state, p.requests[k];
    assert CodeFromU64(0) == Some(Ok);
    hide Calls, CodeFromU64, Discriminant;
    assert p.svc.decodeReq(p.svc.encodeReq(req).value) == Some(req);
    match p.svc.serve(s, req).1
    case Failure(e) =>
      CodesSurviveTheWire(CodeFromError(e), 0);
      CodesAreDistinct(e);
    case Success(resp) =>
      CodesSurviveTheWire(SerializeErrorCode, 0);
      if p.svc.encodeResp(resp).Some? {
        assert p.svc.decodeResp(p.svc.encodeResp(resp).value) == Some(resp);
      }
  }

  // The steps keep the invariant

  lemma InitHolds<S, Req, Resp>(p: Setting<S, Req, Resp>)
    ensures Inv(p, Init(p))
  {
  }

  lemma EmptyWants()
    ensures Wants([])
  {
  }

  /** Filling a buffer and taking a byte from it keep the order of the bytes. */
  lemma Regroup(got: seq<byte>, end: End, capacity: nat)
    ensures end.buffered == [] ==> Fill(end, capacity).Bytes() == end.Bytes()
    ensures end.buffered != [] ==>
              got + end.buffered[..1] + End(end.buffered[1..], end.carry).Bytes() == got + end.Bytes()
  {
  }

  /** A request step moves bytes along. */
  lemma RequestStep<S, Req, Resp>(p: Setting<S, Req, Resp>, st: System<S, Resp>, ev: Event, k: nat, out: seq<byte>)
    requires k < |p.requests| && RequestOnItsWay(p, st, k, out)
    requires Enabled(p, st, ev) && (ev.FillUp? || ev.TakeUp? || ev.Replied?)
    ensures RequestOnItsWay(p, Apply(p, st, ev), k, out)
  {
    hide Calls, RequestWire, ReadPacket, Fill;
    if ev.FillUp? || ev.TakeUp? {
      Regroup(st.server.got, st.up, p.upCapacity);
    }
  }

  /** The request's next chunk moves into the pipe's reading end. */
  lemma PutUpStep<S, Req, Resp>(p: Setting<S, Req, Resp>, st: System<S, Resp>, n: nat, k: nat)
    requires k < |p.requests| && Enabled(p, st, PutUp(n)) && RequestOnItsWay(p, st, k, st.client.out)
    ensures RequestOnItsWay(p, Apply(p, st, PutUp(n)), k, st.client.out[n..])
  {
    hide Calls, RequestWire, ReadPacket;
    var out := st.client.out;
    assert out == out[..n] + out[n..];
    Associate(st.server.got, out[..n], out[n..]);
  }

  /** When the server stops asking it has the whole request, and its turn on the bytes is
      its turn on the request. */
  lemma ServeStep<S, Req, Resp>(p: Setting<S, Req, Resp>, st: System<S, Resp>, k: nat, out: seq<byte>)
    requires k < |p.requests| && p.svc.encodeReq(p.requests[k]).Some?
    requires RequestOnItsWay(p, st, k, out) && Enabled(p, st, Serve)
    ensures out == [] && Calls(p, k).0.Alive? && ReplyOnItsWay(p, Apply(p, st, Serve), k, [])
  {
    hide Calls, ReadPacket, Wire, Turn;
    EmptyWants();
    var payload := p.svc.encodeReq(p.requests[k]).value;
    var got := st.server.got;
    Associate(got, st.up.Bytes(), out);
    PacketOnItsWay(RequestPacket(payload), got, st.up.Bytes() + out);
    assert got + [] == got;
    TurnOnRequest(p.svc, st.state, payload, [], p.readsFail);
  }

  /** A reply step moves bytes along. */
  lemma ReplyStep<S, Req, Resp>(p: Setting<S, Req, Resp>, st: System<S, Resp>, ev: Event, k: nat, got: seq<byte>)
    requires k < |p.requests| && p.svc.encodeReq(p.requests[k]).Some? && Calls(p, k).0.Alive?
    requires ReplyOnItsWay(p, st, k, got) && Enabled(p, st, ev)
    requires ev.FillDown? || ev.TakeDown? || ev.PutDown? ==> st.client == Waiting(got)
    requires ev.FillDown? || ev.TakeDown? || ev.PutDown? || ev.Replied?
    ensures ReplyOnItsWay(p, Apply(p, st, ev), k, if ev.TakeDown? then got + st.down.buffered[..1] else got)
  {
    hide Calls, ReadPacket, Wire, Turn, Fill, Finish, Respond, Receive, CallStep;
    match ev
    case PutDown(n) =>
      assert st.server.out == st.server.out[..n] + st.server.out[n..];
      Associate(got, st.server.out[..n], st.server.out[n..]);
      assert got + [] == got;
    case _ =>
      Regroup(got, st.down, p.downCapacity);
  }

  /** When the client stops asking it has the whole reply, and returns what the call should
      come to; the server is done with the call or about to be. */
  lemma ReturnStep<S(!new), Req(!new), Resp(!new)>(p: Setting<S, Req, Resp>, st: System<S, Resp>, k: nat)
    requires Honest(p) && k < |p.requests| && p.svc.encodeReq(p.requests[k]).Some? && Calls(p, k).0.Alive?
    requires st.client.Waiting? && ReplyOnItsWay(p, st, k, st.client.got) && Enabled(p, st, Return)
    ensures var st' := Apply(p, st, Return);
            var (sv', result) := CallStep(p, Calls(p, k).0, p.requests[k]);
            && st'.client == Idle && st'.results == st.results + [result]
            && st'.up.Empty() && st'.down.Empty() && AtRest(st', sv')
  {
    hide Calls, ReadPacket, Wire, Turn, CallStep, Accept;
    var r := TurnOf(p, k).1;
    var got := st.client.got;
    var rest := st.down.Bytes() + if st.server.Replying? then st.server.out else [];
    assert got + rest == ReplyBytes(p.reports, r) by {
      if st.server.Replying? {
        Associate(got, st.down.Bytes(), st.server.out);
      } else {
        assert rest == st.down.Bytes();
      }
    }
    EmptyWants();
    assert r.Success? || p.reports;
    PacketOnItsWay(ReplyPacket(r), got, rest);
    TurnIsTheCall(p, k);
  }

  /** While the reply is on its way the server does not ask, and does not vanish early, unless
      there is none. */
  lemma ReplyIsSafe<S, Req, Resp>(p: Setting<S, Req, Resp>, st: System<S, Resp>, k: nat, got: seq<byte>)
    requires k < |p.requests| && p.svc.encodeReq(p.requests[k]).Some? && Calls(p, k).0.Alive?
    requires ReplyOnItsWay(p, st, k, got)
    ensures st.server.Receiving? ==> Wants(st.server.got)
    ensures var r := TurnOf(p, k).1;
            if r.Success? || p.reports then
              && (ServerGone(st.server) && st.down.Empty() ==> !Wants(got))
              && (got == [] && st.down.Empty() ==> !ServerGone(st.server) && !st.server.Receiving?)
            else st.server == Stopped(r.error) && got == [] && st.down.Empty()
  {
    hide Calls, ReadPacket, Wire, Turn;
    EmptyWants();
    if st.down.Empty() && !st.server.Replying? {
      assert got + [] == got;
      if TurnOf(p, k).1.Success? || p.reports {
        PacketOnItsWay(ReplyPacket(TurnOf(p, k).1), got, []);
      }
    }
  }

  /** A client whose server ended without a reply finds the end of the stream. */
  lemma SilenceStep<S(!new), Req(!new), Resp(!new)>(p: Setting<S, Req, Resp>, st: System<S, Resp>, k: nat)
    requires Honest(p) && k < |p.requests| && p.svc.encodeReq(p.requests[k]).Some? && Calls(p, k).0.Alive?
    requires st.client.Waiting? && ReplyOnItsWay(p, st, k, st.client.got) && Enabled(p, st, SeeServerGone)
    ensures var st' := Apply(p, st, SeeServerGone);
            var (sv', result) := CallStep(p, Calls(p, k).0, p.requests[k]);
            && st'.client == Idle && st'.results == st.results + [result]
            && st'.up.Empty() && st'.down.Empty() && AtRest(st', sv')
  {
    ReplyIsSafe(p, st, k, st.client.got);
    TurnIsTheCall(p, k);
    EmptyIsShort();
    assert p.reports || !p.readsFail;
    hide Calls, ReadPacket, Wire, Turn, CallStep, Accept, Honest, ReplyOnItsWay;
  }

  lemma EmptyIsShort()
    ensures ReadPacket([]) == Short(IncompleteVlqSeq)
  {
  }

  /** The calls after one more. */
  lemma OneMoreCall<S, Req, Resp>(p: Setting<S, Req, Resp>, k: nat)
    requires k < |p.requests|
    ensures var (sv', r) := CallStep(p, Calls(p, k).0, p.requests[k]);
            Calls(p, k + 1) == (sv', Calls(p, k).1 + [r])
  {
  }

  /** The client is between calls. */
  lemma IdleKeepsInv<S, Req, Resp>(p: Setting<S, Req, Resp>, st: System<S, Resp>, ev: Event)
    requires Inv(p, st) && st.client.Idle? && Enabled(p, st, ev)
    ensures Inv(p, Apply(p, st, ev))
  {
    hide Calls, ReadPacket, Wire, Turn;
    EmptyWants();
    if ev.Begin? {
      OneMoreCall(p, |st.results|);
    }
  }

  /** The client is gone. */
  lemma ClosedKeepsInv<S, Req, Resp>(p: Setting<S, Req, Resp>, st: System<S, Resp>, ev: Event)
    requires Inv(p, st) && st.client.Closed? && Enabled(p, st, ev) && (p.reports || !p.readsFail)
    ensures Inv(p, Apply(p, st, ev))
  {
    hide Calls, ReadPacket, Turn;
    EmptyWants();
    EmptyIsShort();
  }

  /** The request of the current call is not served yet. */
  lemma RequestKeepsInv<S, Req, Resp>(p: Setting<S, Req, Resp>, st: System<S, Resp>, ev: Event)
    requires Inv(p, st) && (st.client.Sending? || st.client.Waiting?) && !st.answered && Enabled(p, st, ev)
    ensures Inv(p, Apply(p, st, ev))
  {
    hide Calls, ReadPacket, Wire, Turn, CallStep;
    EmptyWants();
    var k := |st.results|;
    var out := if st.client.Sending? then st.client.out else [];
    match ev
    case PutUp(n) => PutUpStep(p, st, n, k);
    case SendFails => OneMoreCall(p, k); DeadCall(p, k);
    case FillUp => RequestStep(p, st, ev, k, out);
    case TakeUp => RequestStep(p, st, ev, k, out);
    case Replied => RequestStep(p, st, ev, k, out);
    case Serve => ServeStep(p, st, k, out);
    case _ =>
  }

  lemma DeadCall<S, Req, Resp>(p: Setting<S, Req, Resp>, k: nat)
    requires k < |p.requests| && p.svc.encodeReq(p.requests[k]).Some?
    ensures Calls(p, k).0.Dead? ==>
              CallStep(p, Calls(p, k).0, p.requests[k]) == (Calls(p, k).0, Failure(GeneralIoError))
  {
  }

  /** The request of the current call is served. */
  lemma ReplyKeepsInv<S(!new), Req(!new), Resp(!new)>(p: Setting<S, Req, Resp>, st: System<S, Resp>, ev: Event)
    requires Honest(p)
    requires Inv(p, st) && (st.client.Sending? || st.client.Waiting?) && st.answered && Enabled(p, st, ev)
    ensures Inv(p, Apply(p, st, ev))
  {
    hide Calls, ReadPacket, Wire, Turn, CallStep, Honest;
    var k := |st.results|;
    var got := if st.client.Waiting? then st.client.got else [];
    ReplyIsSafe(p, st, k, got);
    match ev
    case PutDown(n) => ReplyStep(p, st, ev, k, got);
    case FillDown => ReplyStep(p, st, ev, k, got);
    case TakeDown => ReplyStep(p, st, ev, k, got);
    case Replied => ReplyStep(p, st, ev, k, got);
    case Return => ReturnStep(p, st, k); OneMoreCall(p, k);
    case SeeServerGone => SilenceStep(p, st, k); OneMoreCall(p, k);
    case _ =>
  }

  /** Every step keeps the invariant. */
  lemma StepKeepsInv<S(!new), Req(!new), Resp(!new)>(p: Setting<S, Req, Resp>, st: System<S, Resp>, ev: Event)
    requires Honest(p) && Inv(p, st) && Enabled(p, st, ev)
    ensures Inv(p, Apply(p, st, ev))
  {
    HonestSetting(p);
    hide Apply, Enabled, Honest, Calls, AtRest, InCall;
    if st.client.Idle? {
      IdleKeepsInv(p, st, ev);
    } else if st.client.Closed? {
      ClosedKeepsInv(p, st, ev);
    } else if st.answered {
      ReplyKeepsInv(p, st, ev);
    } else {
      RequestKeepsInv(p, st, ev);
    }
  }

  // No deadlock

  /** The client has made its calls and the server has ended. */
  predicate Final<S, Resp>(st: System<S, Resp>) {
    st.client.Closed? && ServerGone(st.server)
  }

  /** Some step is possible in every state that is not final. */
  lemma SomeStepIsEnabled<S, Req, Resp>(p: Setting<S, Req, Resp>, st: System<S, Resp>) returns (ev: Event)
    requires Inv(p, st) && !Final(st)
    ensures Enabled(p, st, ev)
  {
    hide Calls, ReadPacket, Wire, Turn;
    EmptyWants();
    match st.client
    case Idle =>
      ev := if |st.results| < |p.requests| then Begin else Close;
    case Closed =>
      ev := if st.server.Receiving? then SeeClientGone else if st.server.out == [] then Replied else ReplyFails;
    case Sending(out) =>
      if out == [] {
        ev := Sent;
      } else {
        ev := RequestGoesOn(p, st, |st.results|, out);
      }
    case Waiting(got) =>
      if st.answered {
        ev := ReplyGoesOn(p, st, |st.results|, got);
      } else {
        ev := RequestGoesOn(p, st, |st.results|, []);
      }
  }

  lemma RequestGoesOn<S, Req, Resp>(p: Setting<S, Req, Resp>, st: System<S, Resp>, k: nat, out: seq<byte>)
    returns (ev: Event)
    requires k < |p.requests| && p.svc.encodeReq(p.requests[k]).Some? && RequestOnItsWay(p, st, k, out)
    requires st.client == Sending(out) || (st.client.Waiting? && out == [] && Calls(p, k).0.Alive?)
    requires st.client.Sending? ==> out != []
    ensures Enabled(p, st, ev)
  {
    hide Calls, ReadPacket, Wire;
    match st.server
    case Receiving(got) =>
      Associate(got, st.up.Bytes(), out);
      PacketOnItsWay(RequestPacket(p.svc.encodeReq(p.requests[k]).value), got, st.up.Bytes() + out);
      ev := if st.up.buffered != [] then TakeUp else if st.up.carry != [] then FillUp
      else if out != [] then PutUp(|out|) else Serve;
    case Replying(_, _) => ev := Replied;
    case _ => ev := SendFails;
  }

  lemma ReplyGoesOn<S, Req, Resp>(p: Setting<S, Req, Resp>, st: System<S, Resp>, k: nat, got: seq<byte>)
    returns (ev: Event)
    requires k < |p.requests| && p.svc.encodeReq(p.requests[k]).Some? && Calls(p, k).0.Alive?
    requires st.client == Waiting(got) && ReplyOnItsWay(p, st, k, got)
    ensures Enabled(p, st, ev)
  {
    hide Calls, ReadPacket, Wire, Turn;
    EmptyWants();
    var r := TurnOf(p, k).1;
    var out := if st.server.Replying? then st.server.out else [];
    if r.Success? || p.reports {
      Associate(got, st.down.Bytes(), out);
      assert got + st.down.Bytes() + out == Wire(ReplyPacket(r));
      PacketOnItsWay(ReplyPacket(r), got, st.down.Bytes() + out);
      ev := if !Wants(got) then Return else if st.down.buffered != [] then TakeDown
      else if st.down.carry != [] then FillDown else PutDown(|out|);
    } else {
      ev := SeeServerGone;
    }
  }

  // Termination

  /** A bound on the steps of call k, and of all calls from k on. */
  function CallCost<S, Req, Resp>(p: Setting<S, Req, Resp>, k: nat): nat
    requires k < |p.requests|
  {
    8 + 4 * |RequestWire(p, k)| + 4 * |ReplyWire(p, k)|
  }

  function Cost<S, Req, Resp>(p: Setting<S, Req, Resp>, k: nat): nat
    requires k <= |p.requests|
    decreases |p.requests| - k
  {
    if k == |p.requests| then 8 else CallCost(p, k) + Cost(p, k + 1)
  }

  /** Each byte weighs less the nearer it is to being taken. */
  function Held(end: End): nat {
    2 * |end.buffered| + 3 * |end.carry|
  }

  function ServerWeight(server: Server): nat {
    match server
    case Receiving(got) => |got|
    case Replying(out, _) => 1 + 4 * |out|
    case _ => 0
  }

  function ClientWeight(client: Client): nat {
    match client
    case Sending(out) => 4 + 4 * |out|
    case Waiting(got) => 3 + |got|
    case _ => 0
  }

  function ClosingWeight(server: Server): nat {
    match server
    case Receiving(_) => 3
    case Replying(out, last) => if out != [] then 2 else if last == None then 4 else 1
    case _ => 0
  }

  /** Unsent and undelivered bytes, and the work still to come. */
  function Measure<S, Req, Resp>(p: Setting<S, Req, Resp>, st: System<S, Resp>): nat
    requires |st.results| <= |p.requests|
  {
    var k := |st.results|;
    match st.client
    case Crashed => 0
    case Closed => ClosingWeight(st.server)
    case Idle => Cost(p, k) + ServerWeight(st.server)
    case _ =>
      if k == |p.requests| then 0 else
      Cost(p, k + 1) + Held(st.up) + Held(st.down) + ServerWeight(st.server)
      + ClientWeight(st.client)
      + (if st.answered then 0 else 2 + 4 * |ReplyWire(p, k)|)
  }

  lemma FillLightens(end: End, capacity: nat)
    requires capacity >= 1 && end.carry != [] && end.buffered == []
    ensures Held(Fill(end, capacity)) < Held(end)
  {
  }

  lemma IdleLowers<S, Req, Resp>(p: Setting<S, Req, Resp>, st: System<S, Resp>, ev: Event)
    requires Inv(p, st) && st.client.Idle? && Enabled(p, st, ev)
    requires Inv(p, Apply(p, st, ev))
    ensures Measure(p, Apply(p, st, ev)) < Measure(p, st)
  {
    hide Calls, ReadPacket, Turn, TurnOn, Wire, Cost, ReplyWire;
    EmptyWants();
    CostUnfolds(p, |st.results|);
  }

  lemma ClosedLowers<S, Req, Resp>(p: Setting<S, Req, Resp>, st: System<S, Resp>, ev: Event)
    requires Inv(p, st) && st.client.Closed? && Enabled(p, st, ev)
    ensures Measure(p, Apply(p, st, ev)) < Measure(p, st)
  {
    hide Calls, ReadPacket, Turn, Cost;
    EmptyWants();
  }

  lemma ServeLowers<S, Req, Resp>(p: Setting<S, Req, Resp>, st: System<S, Resp>)
    requires Inv(p, st) && InACall(st.client) && !st.answered && Enabled(p, st, Serve)
    ensures Measure(p, Apply(p, st, Serve)) < Measure(p, st)
  {
    hide Calls, ReadPacket, Wire, Turn, TurnOn, Cost, Fill, Receive;
    ServeStep(p, st, |st.results|, if st.client.Sending? then st.client.out else []);
  }

  /** During a call every other step lowers it, whatever else holds. */
  lemma MovingLowers<S, Req, Resp>(p: Setting<S, Req, Resp>, st: System<S, Resp>, ev: Event)
    requires p.upCapacity >= 1 && p.downCapacity >= 1
    requires |st.results| < |p.requests| && InACall(st.client) && Enabled(p, st, ev) && !ev.Serve?
    ensures |Apply(p, st, ev).results| <= |p.requests| && Measure(p, Apply(p, st, ev)) < Measure(p, st)
  {
    hide Calls, ReadPacket, Wire, TurnOn, Cost, Fill, Receive, ReplyWire, CallStep;
    hide Respond, ReplyTo, Wants, RequestPacket;
    match ev
    case FillUp => FillLightens(st.up, p.upCapacity);
    case FillDown => FillLightens(st.down, p.downCapacity);
    case _ =>
  }

  lemma HonestSetting<S(!new), Req(!new), Resp(!new)>(p: Setting<S, Req, Resp>)
    requires Honest(p)
    ensures p.upCapacity >= 1 && p.downCapacity >= 1 && (p.reports || !p.readsFail)
  {
  }

  ghost predicate InACall(client: Client) {
    client.Sending? || client.Waiting?
  }

  /** Every step lowers the measure. */
  lemma StepLowersMeasure<S(!new), Req(!new), Resp(!new)>(p: Setting<S, Req, Resp>, st: System<S, Resp>, ev: Event)
    requires Honest(p) && Inv(p, st) && Enabled(p, st, ev)
    ensures Inv(p, Apply(p, st, ev)) && Measure(p, Apply(p, st, ev)) < Measure(p, st)
  {
    StepKeepsInv(p, st, ev);
    HonestSetting(p);
    hide Apply, Honest, Calls, AtRest, RequestOnItsWay, ReplyOnItsWay, Measure;
    if st.client.Idle? {
      IdleLowers(p, st, ev);
    } else if st.client.Closed? {
      ClosedLowers(p, st, ev);
    } else if !ev.Serve? {
      MovingLowers(p, st, ev);
    } else if st.answered {
      ReplyIsSafe(p, st, |st.results|, if st.client.Waiting? then st.client.got else []);
    } else {
      ServeLowers(p, st);
    }
  }

  lemma CostUnfolds<S, Req, Resp>(p: Setting<S, Req, Resp>, k: nat)
    requires k <= |p.requests|
    ensures Cost(p, k) == if k == |p.requests| then 8 else CallCost(p, k) + Cost(p, k + 1)
  {
  }

  // Whole runs

  predicate IsRun<S, Req, Resp>(p: Setting<S, Req, Resp>, st: System<S, Resp>, evs: seq<Event>)
    decreases |evs|
  {
    evs == [] || (Enabled(p, st, evs[0]) && IsRun(p, Apply(p, st, evs[0]), evs[1..]))
  }

  function RunFrom<S, Req, Resp>(p: Setting<S, Req, Resp>, st: System<S, Resp>, evs: seq<Event>): System<S, Resp>
    requires IsRun(p, st, evs)
    decreases |evs|
  {
    if evs == [] then st else RunFrom(p, Apply(p, st, evs[0]), evs[1..])
  }

  lemma {:induction false} RunKeepsInv<S(!new), Req(!new), Resp(!new)>(
    p: Setting<S, Req, Resp>, st: System<S, Resp>, evs: seq<Event>)
    requires Honest(p) && Inv(p, st) && IsRun(p, st, evs)
    ensures Inv(p, RunFrom(p, st, evs))
    ensures |evs| + Measure(p, RunFrom(p, st, evs)) <= Measure(p, st)
    decreases |evs|
  {
    hide Enabled, Apply, Honest, Measure;
    if evs != [] {
      StepLowersMeasure(p, st, evs[0]);
      RunKeepsInv(p, Apply(p, st, evs[0]), evs[1..]);
    }
  }

  /** How the server ends after all calls. */
  ghost predicate ServerEnd<S, Resp>(reports: bool, st: System<S, Resp>, sv: Served<S>) {
    match sv
    case Dead(e) => st.server == Stopped(e)
    case Alive(s) => st.state == s && if reports then st.server.Panicked? else st.server == Stopped(IncompleteVlqSeq)
  }

  /** Whole runs. Whatever the interleaving, the sizes of the chunks and the capacities of
      the buffers: a run has a bounded number of steps; it never deadlocks before the client
      has made all its calls and the server has ended; the client never hits the `unwrap`;
      at every point the results so far are, in order, what the calls should come to, all of
      them at the end; and in the end the server has ended on the error on which the service
      stopped, or, if it never did, is dead of the `unwrap` of its last report or, making none,
      has ended on the end of the stream, the service being in the state after all the calls. */
  lemma WholeRuns<S(!new), Req(!new), Resp(!new)>(p: Setting<S, Req, Resp>, evs: seq<Event>)
    requires Honest(p) && IsRun(p, Init(p), evs)
    ensures |evs| <= Cost(p, 0)
    ensures var st := RunFrom(p, Init(p), evs);
            && st.client != Crashed
            && |st.results| <= |p.requests| && st.results == Calls(p, |p.requests|).1[..|st.results|]
            && (Final(st) || exists ev :: Enabled(p, st, ev))
            && (Final(st) ==>
                  var (sv, results) := Calls(p, |p.requests|);
                  st.results == results && ServerEnd(p.reports, st, sv))
  {
    hide Enabled, Apply, Honest, Calls;
    InitHolds(p);
    RunKeepsInv(p, Init(p), evs);
    var st := RunFrom(p, Init(p), evs);
    CallsPrefix(p, |st.results|, |p.requests|);
    if !Final(st) {
      var ev := SomeStepIsEnabled(p, st);
    }
  }

  lemma {:induction false} CallsPrefix<S, Req, Resp>(p: Setting<S, Req, Resp>, k: nat, n: nat)
    requires k <= n <= |p.requests|
    ensures Calls(p, k).1 == Calls(p, n).1[..k]
    decreases n
  {
    hide CallStep;
    if k < n {
      CallsPrefix(p, k, n - 1);
    } else {
      assert Calls(p, n).1[..n] == Calls(p, n).1;
    }
  }

  /** Of the first n calls, call k is the one on which the service stopped on error e: it
      gives what is reported of it, every earlier result is an answer of the service or a
      request that could not be serialized, and every later call fails and finds the service
      stopped on the same error. */
  ghost predicate FailedAt<S, Req, Resp>(p: Setting<S, Req, Resp>, n: nat, k: nat, e: IpcError)
    requires n <= |p.requests|
  {
    var results := Calls(p, n).1;
    && k < n && results[k] == Reported(p.reports, e)
    && (forall i :: 0 <= i < k ==> results[i].Success? || results[i] == Failure(SerializeError))
    && (forall i :: k < i < n ==> results[i] == Failure(GeneralIoError) || results[i] == Failure(SerializeError))
    && (forall i :: 0 <= i <= k ==> Calls(p, i).0.Alive?)
    && (forall i :: k < i <= n ==> Calls(p, i).0 == Dead(e))
  }

  /** Failure is final. Either no call failed in the service, or there is one on which it
      stopped for good, and no later call reaches it. */
  lemma {:induction false} FailureIsFinal<S, Req, Resp>(p: Setting<S, Req, Resp>, n: nat)
    requires n <= |p.requests|
    ensures var (sv, results) := Calls(p, n);
            match sv
            case Alive(_) =>
              && (forall i :: 0 <= i < n ==> results[i].Success? || results[i] == Failure(SerializeError))
              && (forall i :: 0 <= i <= n ==> Calls(p, i).0.Alive?)
            case Dead(e) => exists k :: FailedAt(p, n, k, e)
  {
    if n > 0 {
      FailureIsFinal(p, n - 1);
      var (sv, results) := Calls(p, n - 1);
      var (sv', r) := CallStep(p, sv, p.requests[n - 1]);
      hide Calls;
      OneMoreCall(p, n - 1);
      if sv.Dead? {
        var k :| FailedAt(p, n - 1, k, sv.error);
        assert FailedAt(p, n, k, sv.error);
      } else if sv'.Dead? {
        assert FailedAt(p, n, n - 1, sv'.error);
      }
    }
  }
}
