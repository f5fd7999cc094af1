/** `Channel`: the server loop and the client call over a buffered reader and writer. */
module RpcChannel {
  import opened Words
  import opened Errors
  import opened Vlq
  import opened Frames
  import opened NativePipe
  import opened RustIo
  import opened Rpc

  class Channel {
    const reader: BufReader
    const writer: BufWriter

    constructor (reader: BufReader, writer: BufWriter)
      ensures this.reader == reader && this.writer == writer
    {
      this.reader, this.writer := reader, writer;
    }

    ghost predicate Valid()
      reads this, reader, reader.inner, writer, writer.inner
    {
      && reader.Valid() && writer.Valid()
      && reader.inner != writer.inner
    }

    /** Everything still to be received. */
    ghost function Incoming(): seq<byte>
      requires Valid()
      reads this, reader, reader.inner, writer, writer.inner
    {
      reader.Stream()
    }

    /** Everything the other side has taken. */
    ghost function Sent(): seq<byte>
      requires Valid()
      reads this, reader, reader.inner, writer, writer.inner
    {
      writer.inner.Accepted()
    }

    /** How many more packets the other side will take. */
    ghost function Takes(): Option<nat>
      requires Valid()
      reads this, reader, reader.inner, writer, writer.inner
    {
      writer.Takes()
    }

    /** Nothing waits in the writer's buffer, unless the other side is gone. */
    ghost predicate Flushed()
      requires Valid()
      reads this, reader, reader.inner, writer, writer.inner
    {
      Takes() == Some(0) || writer.buf == []
    }

    /** Serialize, write, flush: the common end of `send_request`, `send_response` and
        `send_error_code`. A packet is one chunk whatever its size, so the other side takes
        it whole or is gone. */
    method SendPacket(p: Packet) returns (r: Result<()>)
      requires Valid() && Flushed()
      modifies writer, writer.inner
      ensures Valid() && Flushed() && Takes() == Less(old(Takes()))
      ensures Incoming() == old(Incoming())
      ensures if old(Takes()) != Some(0) then r == Success(()) && Sent() == old(Sent()) + Wire(p)
              else r == Failure(GeneralIoError) && Sent() == old(Sent())
    {
      var bytes := Serialize(p);
      assert bytes != [];
      var ok := writer.Write(bytes);
      if ok {
        ok := writer.Flush();
      }
      r := if ok then Success(()) else Failure(GeneralIoError);
    }

    /** `receive_request`, then `serve`, then the serialization in `send_response`. */
    method HandleRequest<S, Req, Resp>(svc: Service<S, Req, Resp>, s: S) returns (s': S, r: Result<Payload>)
      requires Valid()
      modifies reader, reader.inner
      ensures Valid() && Sent() == old(Sent()) && Takes() == old(Takes()) && Flushed() == old(Flushed())
      ensures r.Success? ==> |Incoming()| < |old(Incoming())|
      ensures (s', r, Incoming()) == TurnOn(svc, s, old(Incoming()), reader.fails)
    {
      hide ReadPacket;
      s' := s;
      var p := ReadFrom(reader);
      if p.Failure? {
        return s, Failure(p.error);
      }
      match svc.decodeReq(p.value.payload)
      case None => r := Failure(DeserializeError);
      case Some(req) =>
        var (after, resp) := svc.serve(s, req);
        s' := after;
        match resp
        case Failure(e) => r := Failure(e);
        case Success(value) =>
          match svc.encodeResp(value)
          case None => r := Failure(SerializeError);
          case Some(bytes) => r := Success(bytes);
    }

    /** One round of `execute`: receive, serve, reply. */
    method Round<S, Req, Resp>(svc: Service<S, Req, Resp>, s: S) returns (s': S, result: Result<()>)
      requires Valid() && Flushed()
      modifies reader, reader.inner, writer, writer.inner
      ensures Valid() && Flushed()
      ensures var (after, reply, rest) := TurnOn(svc, s, old(Incoming()), reader.fails);
              && s' == after && Incoming() == rest
              && result == (if reply.Failure? then Failure(reply.error)
                            else if old(Takes()) == Some(0) then Failure(GeneralIoError) else Success(()))
              && Takes() == (if result.Success? then Less(old(Takes())) else old(Takes()))
              && Sent() == (if result.Success? then old(Sent()) + Wire(SuccessPacket(reply.value)) else old(Sent()))
    {
      hide TurnOn, Wire, SuccessPacket;
      var reply;
      s', reply := HandleRequest(svc, s);
      if reply.Failure? {
        return s', Failure(reply.error);
      }
      result := SendPacket(SuccessPacket(reply.value));
    }

    /** `execute`. It returns only on an error. However the bytes are buffered and cut, and
        whenever the client leaves: what it sends are the first replies of the server session
        on the incoming bytes, as many as the client takes. If that is all of them it returns
        the error of the session; else it is dead of the `unwrap`. */
    method Execute<S, Req, Resp>(svc: Service<S, Req, Resp>, s0: S) returns (s: S, end: Outcome<()>)
      requires Valid() && Flushed()
      modifies reader, reader.inner, writer, writer.inner
      ensures Valid()
      ensures var run := ServerSession(svc, s0, old(Incoming()), reader.fails);
              var taken := AtMost(old(Takes()), |run.replies|);
              && Sent() == old(Sent()) + WireAll(run.replies[..taken])
              && (if taken == |run.replies| then end == Returned(Failure(run.error)) && s == run.state
                  else end == Panicked)
    {
      hide *;
      s := s0;
      ghost var takes := Takes();
      ghost var sent: seq<Packet> := [];
      NothingSent(Sent(), ServerSession(svc, s, Incoming(), reader.fails));
      NoneTaken(takes);
      while true
        invariant Valid() && Flushed()
        invariant Sent() == old(Sent()) + WireAll(sent) && TookThemAll(takes, |sent|, Takes())
        invariant ServerSession(svc, s0, old(Incoming()), reader.fails) ==
                  ServerSession(svc, s, Incoming(), reader.fails).After(sent)
        decreases |Incoming()|
      {
        SessionStep(svc, s, Incoming(), reader.fails, sent);
        ErrorShutdown(svc, s, Incoming(), reader.fails);
        ghost var run := ServerSession(svc, s, Incoming(), reader.fails);
        StartsWithSent(run, sent);
        TakesNext(takes, |sent|, Takes(), |sent| + |run.replies|);
        ghost var reply := TurnOn(svc, s, Incoming(), reader.fails).1;
        var result;
        s, result := Round(svc, s);
        match result
        case Success(_) =>
          WireAllSnoc(sent, SuccessPacket(reply.value));
          sent := sent + [SuccessPacket(reply.value)];
        case Failure(e) =>
          ghost var last := [ErrorPacket(e)];
          WireAllSnoc(sent, ErrorPacket(e));
          assert (sent + last)[..|sent + last|] == sent + last;
          var notified := SendPacket(ErrorPacket(e));
          return s, if notified.Failure? then Panicked else Returned(Failure(e));
      }
    }

    /** `call`. */
    method Call<S, Req, Resp>(svc: Service<S, Req, Resp>, req: Req) returns (r: Outcome<Resp>)
      requires Valid() && Flushed()
      modifies reader, reader.inner, writer, writer.inner
      ensures Valid() && Flushed()
      ensures match svc.encodeReq(req)
              case None =>
                r == Returned(Failure(SerializeError)) && Sent() == old(Sent()) && Incoming() == old(Incoming())
              case Some(bytes) =>
                if old(Takes()) == Some(0) then
                  r == Returned(Failure(GeneralIoError)) && Sent() == old(Sent()) && Incoming() == old(Incoming())
                else
                  && Sent() == old(Sent()) + ([0, 0] + Encoding(|bytes|) + bytes)
                  && r == Receive(svc.decodeResp, old(Incoming()), reader.fails)
                  && Incoming() == (if ReadPacket(old(Incoming())).Short? then []
                                    else old(Incoming())[ReadPacket(old(Incoming())).used..])
    {
      hide ReadPacket, Wire, Encoding;
      var bytes := svc.encodeReq(req);
      if bytes.None? {
        return Returned(Failure(SerializeError));
      }
      SmallPacket(0, 0, bytes.value);
      var sent := SendPacket(RequestPacket(bytes.value));
      if sent.Failure? {
        return Returned(Failure(sent.error));
      }
      var p := ReadFrom(reader);
      if p.Failure? {
        return Returned(Failure(p.error));
      }
      var code := CodeFromU64(p.value.tag);
      if code.None? {
        return Panicked;
      }
      if code.value != Ok {
        return Returned(Failure(ProtocolError(code.value)));
      }
      match svc.decodeResp(p.value.payload)
      case Some(resp) => r := Returned(Success(resp));
      case None => r := Returned(Failure(DeserializeError));
    }
  }

  lemma NothingSent<S>(wire: seq<byte>, run: Session<S>)
    ensures wire + WireAll([]) == wire && run.After([]) == run
  {
  }

  /** How many of n packets a client takes. */
  function AtMost(takes: Option<nat>, n: nat): (taken: nat)
    ensures taken <= n
  {
    if takes == None || takes.value >= n then n else takes.value
  }

  /** A client took n packets and will take so many more. */
  ghost predicate TookThemAll(takes: Option<nat>, n: nat, more: Option<nat>) {
    if takes == None then more == None else n <= takes.value && more == Some(takes.value - n)
  }

  lemma NoneTaken(takes: Option<nat>)
    ensures TookThemAll(takes, 0, takes)
  {
  }

  /** It takes the next packet of more than n, or it took n of them in all. */
  lemma TakesNext(takes: Option<nat>, n: nat, more: Option<nat>, all: nat)
    requires TookThemAll(takes, n, more) && n < all
    ensures if more == Some(0) then AtMost(takes, all) == n
            else TookThemAll(takes, n + 1, Less(more)) && AtMost(takes, n + 1) == n + 1
  {
  }

  lemma StartsWithSent<S>(run: Session<S>, sent: seq<Packet>)
    ensures |run.After(sent).replies| == |sent| + |run.replies| && run.After(sent).replies[..|sent|] == sent
  {
  }

  lemma WireAllSnoc(ps: seq<Packet>, p: Packet)
    ensures WireAll(ps + [p]) == WireAll(ps) + Wire(p)
  {
    WireAllAppend(ps, [p]);
    WireOne(p);
  }
}
