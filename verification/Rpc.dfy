/** What a server makes of a byte stream of requests, and what a client makes of the
    replies. The service and its serialization are parameters. */
module Rpc {
  import opened Words
  import opened Errors
  import opened Frames

  /** A service with its state, and the serializer: `encode*` may fail, `decode*` rejects
      bytes that are not a value. */
  datatype Service<!S, !Req, !Resp> = Service(
    encodeReq: Req -> Option<Payload>,
    decodeReq: seq<byte> -> Option<Req>,
    encodeResp: Resp -> Option<Payload>,
    decodeResp: seq<byte> -> Option<Resp>,
    serve: (S, Req) -> (S, Result<Resp>))

  /** The serializer's law: what was encoded decodes to itself. */
  ghost predicate Lawful<S, Req(!new), Resp(!new)>(svc: Service<S, Req, Resp>) {
    && (forall q: Req :: svc.encodeReq(q).Some? ==> svc.decodeReq(svc.encodeReq(q).value) == Some(q))
    && (forall a: Resp :: svc.encodeResp(a).Some? ==> svc.decodeResp(svc.encodeResp(a).value) == Some(a))
  }

  /** `send_response`: a success packet. */
  function SuccessPacket(payload: Payload): Packet {
    Packet(0, 0, payload)
  }

  /** `send_error_code(e.into())`: a packet with the code of an error. */
  function ErrorPacket(e: IpcError): Packet {
    Packet(0, Discriminant(CodeFromError(e)), [])
  }

  function RequestPacket(payload: Payload): Packet {
    Packet(0, 0, payload)
  }

  /** Deserialize, serve, serialize: one turn of the server on a request payload. */
  function Turn<S, Req, Resp>(svc: Service<S, Req, Resp>, s: S, payload: seq<byte>): (S, Result<Payload>) {
    match svc.decodeReq(payload)
    case None => (s, Failure(DeserializeError))
    case Some(req) =>
      var (s', r) := svc.serve(s, req);
      match r
      case Failure(e) => (s', Failure(e))
      case Success(resp) =>
        match svc.encodeResp(resp)
        case None => (s', Failure(SerializeError))
        case Some(bytes) => (s', Success(bytes))
  }

  /** One turn of the server on its incoming bytes: the new state, the reply or the error,
      and the bytes left. */
  function TurnOn<S, Req, Resp>(svc: Service<S, Req, Resp>, s: S, stream: seq<byte>, fails: bool)
    : (t: (S, Result<Payload>, seq<byte>))
    ensures t.1.Success? ==> |t.2| < |stream|
  {
    match ReadPacket(stream)
    case Short(e) => (s, Failure(AtEnd(e, fails)), [])
    case Broken(e, n) => (s, Failure(e), stream[n..])
    case Got(p, n) => var (s', r) := Turn(svc, s, p.payload); (s', r, stream[n..])
  }

  /** A server's whole life: the packets it sends, its last state, the error it stops on. */
  datatype Session<+S> = Session(replies: seq<Packet>, state: S, error: IpcError) {
    /** The same session with packets sent before it. */
    function After(sent: seq<Packet>): Session<S> {
      Session(sent + replies, state, error)
    }
  }

  /** The server on a stream of bytes that then ends: one reply per request until the first
      failure, whose code it reports before stopping. */
  function ServerSession<S, Req, Resp>(svc: Service<S, Req, Resp>, s: S, stream: seq<byte>, fails: bool): Session<S>
    decreases |stream|
  {
    var (s', r, rest) := TurnOn(svc, s, stream, fails);
    match r
    case Failure(e) => Session([ErrorPacket(e)], s', e)
    case Success(bytes) => ServerSession(svc, s', rest, fails).After([SuccessPacket(bytes)])
  }

  /** Error shutdown: on every stream, the server sends success packets and then exactly
      one packet that carries the code of the error it returns. That code is nonzero unless
      the service itself failed with `ProtocolError(Ok)`. */
  lemma {:induction false} ErrorShutdown<S, Req, Resp>(svc: Service<S, Req, Resp>, s: S, stream: seq<byte>, fails: bool)
    ensures var run := ServerSession(svc, s, stream, fails);
            && |run.replies| >= 1
            && (forall i :: 0 <= i < |run.replies| - 1 ==> run.replies[i].version == 0 && run.replies[i].tag == 0)
            && run.replies[|run.replies| - 1] == ErrorPacket(run.error)
            && (run.replies[|run.replies| - 1].tag == 0 <==> run.error == ProtocolError(Ok))
    decreases |stream|
  {
    hide TurnOn;
    var run := ServerSession(svc, s, stream, fails);
    OnlyProtocolOkIsSilent(run.error);
    var (s', r, rest) := TurnOn(svc, s, stream, fails);
    if r.Success? {
      ErrorShutdown(svc, s', rest, fails);
      assert run.replies == [SuccessPacket(r.value)] + ServerSession(svc, s', rest, fails).replies;
    }
  }

  /** The answers to a list of request payloads, the service state threaded through, up to
      and including the first failure. */
  function Answers<S, Req, Resp>(svc: Service<S, Req, Resp>, s: S, payloads: seq<Payload>)
    : (seq<Payload>, S, Option<IpcError>)
    decreases |payloads|
  {
    if payloads == [] then ([], s, None) else
    var (s', r) := Turn(svc, s, payloads[0]);
    match r
    case Failure(e) => ([], s', Some(e))
    case Success(bytes) =>
      var (more, s'', e) := Answers(svc, s', payloads[1..]);
      ([bytes] + more, s'', e)
  }

  function Map<T, U>(f: T -> U, xs: seq<T>): (ys: seq<U>)
    ensures |ys| == |xs| && forall i :: 0 <= i < |xs| ==> ys[i] == f(xs[i])
  {
    seq(|xs|, i requires 0 <= i < |xs| => f(xs[i]))
  }

  /** Call and response correspond on every stream: requests laid end to end, however many
      are already buffered, are answered one by one and in order; then the stream goes on
      from the state they left, unless one failed. */
  lemma {:induction false} RequestsAreAnsweredInOrder<S, Req, Resp>(
    svc: Service<S, Req, Resp>, s: S, payloads: seq<Payload>, rest: seq<byte>, fails: bool)
    ensures var run := ServerSession(svc, s, WireAll(Map(RequestPacket, payloads)) + rest, fails);
            var (answers, s', failed) := Answers(svc, s, payloads);
            match failed
            case Some(e) => run == Session(Map(SuccessPacket, answers) + [ErrorPacket(e)], s', e)
            case None =>
              var more := ServerSession(svc, s', rest, fails);
              run == more.After(Map(SuccessPacket, answers))
    decreases |payloads|
  {
    hide TurnOn, Turn, Wire;
    if payloads == [] {
      assert WireAll(Map(RequestPacket, payloads)) + rest == rest;
      var more := ServerSession(svc, s, rest, fails);
      assert more.After(Map(SuccessPacket, [])) == more;
    } else {
      var tail := WireAll(Map(RequestPacket, payloads[1..])) + rest;
      assert Map(RequestPacket, payloads)[1..] == Map(RequestPacket, payloads[1..]);
      Associate(Wire(RequestPacket(payloads[0])), WireAll(Map(RequestPacket, payloads[1..])), rest);
      TurnOnRequest(svc, s, payloads[0], tail, fails);
      var (s', r) := Turn(svc, s, payloads[0]);
      if r.Success? {
        RequestsAreAnsweredInOrder(svc, s', payloads[1..], rest, fails);
        AfterOneMore(r.value, Answers(svc, s', payloads[1..]).0);
      }
    }
  }

  lemma TurnOnRequest<S, Req, Resp>(svc: Service<S, Req, Resp>, s: S, payload: Payload, tail: seq<byte>, fails: bool)
    ensures var (s', r) := Turn(svc, s, payload);
            TurnOn(svc, s, Wire(RequestPacket(payload)) + tail, fails) == (s', r, tail)
  {
    hide ReadPacket, Wire, Turn;
    ReadWholePacket(RequestPacket(payload), tail);
    SplitAfter(Wire(RequestPacket(payload)), tail);
  }

  lemma AfterOneMore(first: Payload, more: seq<Payload>)
    ensures Map(SuccessPacket, [first] + more) == [SuccessPacket(first)] + Map(SuccessPacket, more)
    ensures forall tail: seq<Packet> ::
              Map(SuccessPacket, [first] + more) + tail == [SuccessPacket(first)] + (Map(SuccessPacket, more) + tail)
  {
  }

  /** A session after one more turn, and at its end. */
  lemma SessionStep<S, Req, Resp>(svc: Service<S, Req, Resp>, s: S, stream: seq<byte>, fails: bool, sent: seq<Packet>)
    ensures var (s', r, rest) := TurnOn(svc, s, stream, fails);
            ServerSession(svc, s, stream, fails).After(sent) ==
            match r
            case Failure(e) => Session(sent + [ErrorPacket(e)], s', e)
            case Success(bytes) => ServerSession(svc, s', rest, fails).After(sent + [SuccessPacket(bytes)])
  {
    hide TurnOn;
    var (s', r, rest) := TurnOn(svc, s, stream, fails);
    if r.Success? {
      var more := ServerSession(svc, s', rest, fails).replies;
      assert sent + ([SuccessPacket(r.value)] + more) == sent + [SuccessPacket(r.value)] + more;
    }
  }

  // The client

  /** What a call comes to; Panicked is the `unwrap` of an unassigned error code. */
  datatype Outcome<+T> = Returned(result: Result<T>) | Panicked

  /** `receive_response` once a packet was read. */
  function Accept<Resp>(decodeResp: seq<byte> -> Option<Resp>, p: Packet): Outcome<Resp> {
    match CodeFromU64(p.tag)
    case None => Panicked
    case Some(Ok) => (
      match decodeResp(p.payload)
      case Some(resp) => Returned(Success(resp))
      case None => Returned(Failure(DeserializeError)))
    case Some(code) => Returned(Failure(ProtocolError(code)))
  }

  /** `receive_response` on a stream. */
  function Receive<Resp>(decodeResp: seq<byte> -> Option<Resp>, stream: seq<byte>, fails: bool): Outcome<Resp> {
    match ReadPacket(stream)
    case Got(p, _) => Accept(decodeResp, p)
    case Short(e) => Returned(Failure(AtEnd(e, fails)))
    case Broken(e, _) => Returned(Failure(e))
  }

  /** An error comes out of the call as the protocol error of the same code exactly if it is
      not `ProtocolError(Ok)`; that one passes for an answer with an empty payload. Either
      way the client of a library server does not hit the `unwrap`. */
  lemma ErrorReachesClient<Resp>(decodeResp: seq<byte> -> Option<Resp>, e: IpcError, rest: seq<byte>, fails: bool)
    ensures var r := Receive(decodeResp, Wire(ErrorPacket(e)) + rest, fails);
            && (r == Returned(Failure(ProtocolError(CodeFromError(e)))) <==> e != ProtocolError(Ok))
            && (e == ProtocolError(Ok) ==>
                  r == Returned(match decodeResp([])
                                case Some(resp) => Success(resp)
                                case None => Failure(DeserializeError)))
  {
    hide ReadPacket, Wire, CodeFromU64, Discriminant;
    ReadWholePacket(ErrorPacket(e), rest);
    CodesSurviveTheWire(CodeFromError(e), 0);
    CodesAreDistinct(e);
  }

  /** The client hits the `unwrap` exactly when it reads a packet whose code is not one of the
      assigned ones. */
  lemma ClientPanicsIff<Resp>(decodeResp: seq<byte> -> Option<Resp>, stream: seq<byte>, fails: bool)
    ensures Receive(decodeResp, stream, fails) == Panicked <==>
              && ReadPacket(stream).Got?
              && var code := ReadPacket(stream).value.tag;
                 !(code <= 9 || 20 <= code <= 29)
  {
    hide ReadPacket, CodeFromU64;
    if ReadPacket(stream).Got? {
      CodesSurviveTheWire(Ok, ReadPacket(stream).value.tag);
    }
  }

  lemma CodesAreDistinct(e: IpcError)
    ensures CodeFromError(e) == Ok <==> e == ProtocolError(Ok)
  {
  }
}
