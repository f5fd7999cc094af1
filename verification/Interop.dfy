/** A C server behind a Rust client: what the client can tell from the wire. */
module Interop {
  import opened Errors
  import opened Frames
  import opened Allocator
  import opened CBuffers
  import opened CCodec
  import Protocol
  import Rpc
  import CServer

  /** A callback that implements a service: it answers where the service does, and returns
      nonzero where the service fails. */
  ghost predicate Implements<S(!new), Req, Resp>(serve: CServer.Serve<S>, svc: Rpc.Service<S, Req, Resp>) {
    forall s: S, p: Packet ::
      var (s', r) := Rpc.Turn(svc, s, p.payload);
      && serve(s, p).0 == s'
      && match r
         case Success(bytes) => serve(s, p).1 == CServer.CReply(0, Rpc.SuccessPacket(bytes))
         case Failure(_) => serve(s, p).1.err != 0
  }

  lemma {:induction false} SameAnswers<S(!new), Req, Resp>(
    serve: CServer.Serve<S>, svc: Rpc.Service<S, Req, Resp>, s: S, payloads: seq<Payload>)
    requires Implements(serve, svc)
    ensures var (answers, s', failed) := Rpc.Answers(svc, s, payloads);
            var (replies, s'', err) := CServer.Answers(serve, s, Rpc.Map(Rpc.RequestPacket, payloads));
            replies == Rpc.Map(Rpc.SuccessPacket, answers) && s'' == s' && (err.Some? <==> failed.Some?)
    decreases |payloads|
  {
    hide Rpc.Turn;
    if payloads != [] {
      var p := Rpc.RequestPacket(payloads[0]);
      assert Rpc.Map(Rpc.RequestPacket, payloads)[1..] == Rpc.Map(Rpc.RequestPacket, payloads[1..]);
      var (s', r) := Rpc.Turn(svc, s, p.payload);
      assert serve(s, p).0 == s';
      if r.Success? {
        SameAnswers(serve, svc, s', payloads[1..]);
        Rpc.AfterOneMore(r.value, Rpc.Answers(svc, s', payloads[1..]).0);
      }
    }
  }

  /** As long as the service does not fail, the C server with two payload blocks and the
      Rust server put the same bytes on the wire for the requests of a Rust client, and both
      go on from the same state with what follows. On the first failure the C server ends
      without a word, where the Rust server sends the code of the error. */
  lemma SameServerUntilFailure<S(!new), Req, Resp>(
    serve: CServer.Serve<S>, svc: Rpc.Service<S, Req, Resp>, s: S, payloads: seq<Payload>, rest: Source,
    count: nat, blockSize: nat, n: nat)
    requires Implements(serve, svc) && count >= 2
    requires forall q :: q in payloads ==> |q| <= blockSize
    requires forall s, p :: |serve(s, p).1.response.payload| <= blockSize
    ensures var src := rest.(now := WireAll(Rpc.Map(Rpc.RequestPacket, payloads)) + rest.now);
            var fails := rest.endCode != 0;
            var (answers, s', failed) := Rpc.Answers(svc, s, payloads);
            var replies := Rpc.Map(Rpc.SuccessPacket, answers);
            var life := CServer.FirstRounds(serve, s, src, count, blockSize, |payloads| + n);
            var run := Rpc.ServerSession(svc, s, src.now, fails);
            match failed
            case None =>
              && life == CServer.FirstRounds(serve, s', rest, count, blockSize, n).After(replies)
              && run == Rpc.ServerSession(svc, s', rest.now, fails).After(replies)
            case Some(e) => life.replies == replies && life.end.Error? && run.replies == replies + [Rpc.ErrorPacket(e)]
  {
    hide CServer.FirstRounds, Rpc.ServerSession, Rpc.Turn, WireAll;
    var requests := Rpc.Map(Rpc.RequestPacket, payloads);
    forall p | p in requests
      ensures |p.payload| <= blockSize
    {
      var i :| 0 <= i < |requests| && requests[i] == p;
      assert payloads[i] in payloads;
    }
    SameAnswers(serve, svc, s, payloads);
    CServer.TwoBlocksAreEnough(serve, s, requests, rest, count, blockSize, n);
    Rpc.RequestsAreAnsweredInOrder(svc, s, payloads, rest.now, rest.endCode != 0);
  }

  /** A C server reads in a Rust client's request version 0, method 0 and the payload. */
  lemma CServerReadsRustRequest<S, Req, Resp>(
    serve: CServer.Serve<S>, s: S, svc: Rpc.Service<S, Req, Resp>, req: Req, rest: Source, count: nat, blockSize: nat)
    requires svc.encodeReq(req).Some? && |svc.encodeReq(req).value| <= blockSize
    ensures var payload := svc.encodeReq(req).value;
            var src := rest.(now := Wire(Rpc.RequestPacket(payload)) + rest.now);
            var t := CServer.RoundOn(serve, s, src, count, blockSize);
            var (s', r) := serve(s, Packet(0, 0, payload));
            t.state == s' && (t.Replied? ==> t.reply == r.response && t.rest == rest)
  {
    hide Wire, CServer.RoundOn;
    CServer.RoundOnRequest(serve, s, Packet(0, 0, svc.encodeReq(req).value), rest, count, blockSize);
  }

  /** When a failing read cuts a header short, Rust notices and C need not. The Rust server
      reports the failed read and stops without a call of its service, and the Rust call
      fails. The C server calls its callback exactly if the leftovers of its buffer complete
      the header to a request it can hold, which none at all do; and with none at all the C
      call returns zero, unless a code with other low bits was whole. */
  lemma OnlyRustNoticesTheEnd<S, Req, Resp>(
    svc: Rpc.Service<S, Req, Resp>, s: S, serve: CServer.Serve<nat>, n: nat, src: Source,
    blocks: Blocks, count: nat, blockSize: nat)
    requires src.endCode != 0 && CReadVlqs(src.now, 3).CShort? && CServer.Counts(serve)
    ensures Rpc.ServerSession(svc, s, src.now, true) == Rpc.Session([Rpc.ErrorPacket(ReadVlqError)], s, ReadVlqError)
    ensures Rpc.Receive(svc.decodeResp, src.now, true) == Rpc.Returned(Failure(ReadVlqError))
    ensures CServer.RoundOn(serve, n, src, count, blockSize).state == n + 1 <==>
            CServer.CutRequest(src.now, src.later, blockSize).Some?
    ensures src.later == [] ==>
              && CServer.CutRequest(src.now, src.later, blockSize).Some?
              && (CServer.CallOn(src, blocks, count, blockSize).0 == Done <==>
                    |Numbers(src.now, 3)| == 2 ==> Numbers(src.now, 3)[1] % 0x1_0000_0000 == 0)
  {
    hide CReadVlqs, ReadVlqs, CServer.RoundOn, CServer.CallOn, CutShort;
    ShortHeadersAgree(src.now, 3);
    CServer.CutRequestIsServedIff(serve, n, src, count, blockSize);
    if src.later == [] {
      CutToNothing(src.now);
      CServer.CallReturnsZeroIff(src, blocks, count, blockSize);
    }
  }

  /** The server of the interleaving system that ends without a word is the C server over the
      native pipe: on a whole request, and at the end of the stream, its turn is the C round,
      with the same state, the same bytes in reply, and an end where the other ends. */
  lemma QuietServerIsTheCServer<S(!new), Req, Resp>(
    serve: CServer.Serve<S>, svc: Rpc.Service<S, Req, Resp>, s: S, payload: Payload, count: nat, blockSize: nat)
    requires Implements(serve, svc) && count >= 2 && |payload| <= blockSize
    requires forall s, p :: |serve(s, p).1.response.payload| <= blockSize
    ensures var request := Wire(Rpc.RequestPacket(payload));
            var (s', r, _) := Rpc.TurnOn(svc, s, request, false);
            var t := CServer.RoundOn(serve, s, NativeSource(request), count, blockSize);
            var server := Protocol.ReplyTo(false, r);
            && t.state == s'
            && (if t.Replied? then server == Protocol.Replying(Wire(t.reply), None) && t.rest == NativeSource([])
                else t.end.Error? && server.Stopped?)
    ensures var (s', r, _) := Rpc.TurnOn(svc, s, [], false);
            && CServer.RoundOn(serve, s, NativeSource([]), count, blockSize)
               == CServer.Stopped(s', Panic(50))
            && Protocol.ReplyTo(false, r) == Protocol.Stopped(IncompleteVlqSeq)
  {
    hide Wire, Rpc.Turn, CServer.RoundOn, FieldsOn;
    var p := Rpc.RequestPacket(payload);
    assert Wire(p) + [] == Wire(p);
    Rpc.TurnOnRequest(svc, s, payload, [], false);
    CServer.RoundOnRequest(serve, s, p, NativeSource([]), count, blockSize);
    assert serve(s, p).0 == Rpc.Turn(svc, s, p.payload).0;
    EndIsSeen(serve, s, count, blockSize);
    Protocol.EmptyIsShort();
  }

  lemma EndIsSeen<S>(serve: CServer.Serve<S>, s: S, count: nat, blockSize: nat)
    ensures CServer.RoundOn(serve, s, NativeSource([]), count, blockSize)
            == CServer.Stopped(s, Panic(CSI_ERROR_INTERNAL))
  {
    hide FieldsOn;
    FieldsOnStream(NativeSource([]), 3);
  }
}
