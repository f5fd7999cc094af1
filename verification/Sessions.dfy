/** What a Rust server puts on the wire and a Rust client returns, straight from the bytes that
    come in: packets with their numbers written out, and every way a session or a call ends. */
module Sessions {
  import opened Words
  import opened Errors
  import opened Vlq
  import opened Frames
  import opened RustIo
  import opened Rpc

  // The server

  /** The server on a request packet, whatever its version and method: a payload the
      serializer rejects, an answer it rejects and a failure of the service each end the
      session with one error packet, in the state the service was left in; else the answer
      goes out and the session goes on. */
  lemma OnRequest<S, Req, Resp>(svc: Service<S, Req, Resp>, s: S, p: Packet, rest: seq<byte>, fails: bool)
    requires ByteVersion(p)
    ensures var run := ServerSession(svc, s, Wire(p) + rest, fails);
            if svc.decodeReq(p.payload).None? then run == Session([Packet(0, 27, [])], s, DeserializeError)
            else
              var (s', r) := svc.serve(s, svc.decodeReq(p.payload).value);
              if r.Failure? then
                && run.state == s' && run.error == r.error && |run.replies| == 1
                && run.replies[0] == Packet(0, run.replies[0].tag, [])
                && IsCodeOf(r.error, run.replies[0].tag)
              else if svc.encodeResp(r.value).None? then run == Session([Packet(0, 26, [])], s', SerializeError)
              else
                run == ServerSession(svc, s', rest, fails).After([Packet(0, 0, svc.encodeResp(r.value).value)])
  {
    hide ReadPacket, Wire;
    ReadWholePacket(p, rest);
    SplitAfter(Wire(p), rest);
    assert svc.decodeReq(p.payload).Some? ==>
             Turn(svc, s, p.payload).0 == svc.serve(s, svc.decodeReq(p.payload).value).0;
  }

  /** The number that goes on the wire for an error, read off the tables of the library. */
  ghost predicate IsCodeOf(e: IpcError, n: u64) {
    && (e == CkbSysError(SysIndexOutOfBound) ==> n == 1)
    && (e == CkbSysError(SysItemMissing) ==> n == 2)
    && (e.CkbSysError? && e.sys.SysLengthNotEnough? ==> n == 3)
    && (e == CkbSysError(SysEncoding) ==> n == 4)
    && (e == CkbSysError(SysWaitFailure) ==> n == 5)
    && (e == CkbSysError(SysInvalidFd) ==> n == 6)
    && (e == CkbSysError(SysOtherEndClosed) ==> n == 7)
    && (e == CkbSysError(SysMaxVmsSpawned) ==> n == 8)
    && (e == CkbSysError(SysMaxFdsCreated) ==> n == 9)
    && (e.CkbSysError? && e.sys.OtherSysError? ==> n == 21)
    && (e == UnexpectedEof ==> n == 22)
    && (e == IncompleteVlqSeq ==> n == 23)
    && (e == DecodeVlqOverflow ==> n == 24)
    && (e == ReadVlqError ==> n == 25)
    && (e == SerializeError ==> n == 26)
    && (e == DeserializeError ==> n == 27)
    && (e in {SliceWriteError, ReadUntilError, ReadExactError, BufReaderError, GeneralIoError} ==> n == 28)
    && (e.ProtocolError? ==> IsNumberOf(e.code, n))
  }

  ghost predicate IsNumberOf(c: ProtocolErrorCode, n: u64) {
    && (c == Ok ==> n == 0) && (c == IndexOutOfBoundCode ==> n == 1) && (c == ItemMissingCode ==> n == 2)
    && (c == LengthNotEnoughCode ==> n == 3) && (c == InvalidDataCode ==> n == 4)
    && (c == WaitFailureCode ==> n == 5) && (c == InvalidFdCode ==> n == 6)
    && (c == OtherEndClosedCode ==> n == 7) && (c == MaxVmsSpawnedCode ==> n == 8)
    && (c == MaxFdsCreatedCode ==> n == 9) && (c == UnknownErrorCode ==> n == 20)
    && (c == UnknownSysErrorCode ==> n == 21) && (c == UnexpectedEofCode ==> n == 22)
    && (c == IncompleteVlqSeqCode ==> n == 23) && (c == DecodeVlqOverflowCode ==> n == 24)
    && (c == ReadVlqErrorCode ==> n == 25) && (c == SerializeErrorCode ==> n == 26)
    && (c == DeserializeErrorCode ==> n == 27) && (c == GeneralIoErrorCode ==> n == 28)
    && (c == EndOfErrorCode ==> n == 29)
  }

  /** A run of exchanges: each request decodes, is served and answered, the state going on
      from one to the next. */
  ghost predicate Exchanged<S, Req, Resp>(
    svc: Service<S, Req, Resp>, s: S, requests: seq<Packet>, replies: seq<Packet>, s': S)
    decreases |requests|
  {
    if requests == [] then replies == [] && s' == s
    else
      && ByteVersion(requests[0]) && replies != [] && svc.decodeReq(requests[0].payload).Some?
      && var (s1, r) := svc.serve(s, svc.decodeReq(requests[0].payload).value);
         && r.Success? && svc.encodeResp(r.value).Some?
         && replies[0] == Packet(0, 0, svc.encodeResp(r.value).value)
         && Exchanged(svc, s1, requests[1..], replies[1..], s')
  }

  /** After any number of exchanges the session is the one on what follows; so everything
      said here of the first request of a session holds of any. */
  lemma {:induction false} AfterExchanges<S, Req, Resp>(
    svc: Service<S, Req, Resp>, s: S, requests: seq<Packet>, replies: seq<Packet>, s': S, rest: seq<byte>, fails: bool)
    requires Exchanged(svc, s, requests, replies, s')
    ensures ServerSession(svc, s, WireAll(requests) + rest, fails) == ServerSession(svc, s', rest, fails).After(replies)
    decreases |requests|
  {
    hide ServerSession, Wire;
    if requests == [] {
      assert [] + rest == rest;
      var run := ServerSession(svc, s, rest, fails);
      assert [] + run.replies == run.replies;
    } else {
      var p, more := requests[0], requests[1..];
      Associate(Wire(p), WireAll(more), rest);
      OnRequest(svc, s, p, WireAll(more) + rest, fails);
      var s1 := svc.serve(s, svc.decodeReq(p.payload).value).0;
      AfterExchanges(svc, s1, more, replies[1..], s', rest, fails);
      var tail := ServerSession(svc, s', rest, fails).replies;
      assert [replies[0]] + (replies[1..] + tail) == replies + tail;
    }
  }

  /** The bytes of a packet before its payload. */
  function HeaderLength(p: Packet): nat {
    |Encoding(p.version)| + |Encoding(p.tag)| + |Encoding(|p.payload|)|
  }

  lemma CutVerdict(p: Packet, n: nat)
    requires ByteVersion(p) && n < |Wire(p)|
    ensures ReadPacket(Wire(p)[..n]) == Short(if n >= HeaderLength(p) then ReadExactError else IncompleteVlqSeq)
  {
    hide ReadPacket, Wire, Encoding, Encodings;
    TruncationIsDetected(p, n);
    ThreeEncodings([], p);
    assert [] + Encodings(Fields(p)) == Encodings(Fields(p));
  }

  /** What reading a packet returns when the bytes end inside it: in the payload, in the header
      with a failing read, or in the header with a zero read. */
  lemma CutRead(p: Packet, n: nat, fails: bool, r: Result<Packet>, after: seq<byte>)
    requires ByteVersion(p) && n < |Wire(p)|
    requires Follows(ReadPacket(Wire(p)[..n]), r, Wire(p)[..n], after, fails)
    ensures after == []
    ensures n >= HeaderLength(p) ==> r == Failure(ReadExactError)
    ensures n < HeaderLength(p) ==> r == Failure(if fails then ReadVlqError else IncompleteVlqSeq)
  {
    hide ReadPacket, Wire, HeaderLength;
    CutVerdict(p, n);
  }

  /** A session whose bytes end inside a request: the service is not called, and the error's
      number is the one thing sent. */
  lemma OnCutRequest<S, Req, Resp>(svc: Service<S, Req, Resp>, s: S, p: Packet, n: nat, fails: bool)
    requires ByteVersion(p) && n < |Wire(p)|
    ensures ServerSession(svc, s, Wire(p)[..n], fails) ==
            if n >= HeaderLength(p) then Session([Packet(0, 28, [])], s, ReadExactError)
            else if fails then Session([Packet(0, 25, [])], s, ReadVlqError)
            else Session([Packet(0, 23, [])], s, IncompleteVlqSeq)
  {
    hide ReadPacket, Wire, HeaderLength;
    CutVerdict(p, n);
  }

  /** A header with a number that does not end within ten bytes, after fewer than three whole
      numbers: overflow, code 24, unless a failing read comes before any end of the number. */
  lemma OnOverlongNumber<S, Req, Resp>(
    svc: Service<S, Req, Resp>, s: S, vs: seq<u64>, bytes: seq<byte>, fails: bool)
    requires |vs| < 3 && |bytes| >= 10 && forall i :: 0 <= i < 10 ==> bytes[i] >= 128
    ensures ServerSession(svc, s, Encodings(vs) + bytes, fails) ==
            if fails && (forall i :: 0 <= i < |bytes| ==> bytes[i] >= 128) then
              Session([Packet(0, 25, [])], s, ReadVlqError)
            else Session([Packet(0, 24, [])], s, DecodeVlqOverflow)
  {
    hide ReadVlqs, Encodings, Wire;
    OverlongNumber(vs, bytes, 3);
  }

  lemma {:induction false} OverlongNumber(vs: seq<u64>, bytes: seq<byte>, m: nat)
    requires |vs| < m && |bytes| >= 10 && forall i :: 0 <= i < 10 ==> bytes[i] >= 128
    ensures var c := ReadVlqs(Encodings(vs) + bytes, m);
            if forall i :: 0 <= i < |bytes| ==> bytes[i] >= 128 then c == Short(DecodeVlqOverflow)
            else c.Broken? && c.error == DecodeVlqOverflow
    decreases |vs|
  {
    hide Encoding, ReadVlq;
    if vs == [] {
      assert Encodings(vs) + bytes == bytes;
      OverlongFirst(bytes);
    } else {
      var e, more := Encoding(vs[0]), Encodings(vs[1..]) + bytes;
      Associate(e, Encodings(vs[1..]), bytes);
      ReadWholeVlq(vs[0], more);
      SplitAfter(e, more);
      OverlongNumber(vs[1..], bytes, m - 1);
    }
  }

  lemma OverlongFirst(bytes: seq<byte>)
    requires |bytes| >= 10 && forall i :: 0 <= i < 10 ==> bytes[i] >= 128
    ensures if forall i :: 0 <= i < |bytes| ==> bytes[i] >= 128 then ReadVlq(bytes) == Short(DecodeVlqOverflow)
            else ReadVlq(bytes).Broken? && ReadVlq(bytes).error == DecodeVlqOverflow
  {
    ContinuedAtLeast(bytes, 10);
    if forall i :: 0 <= i < |bytes| ==> bytes[i] >= 128 {
      ContinuedAtLeast(bytes, |bytes|);
    }
  }

  // The client

  /** What a call returns on a whole reply: the answer, if its code is 0 and the serializer
      takes the payload; the error of an assigned code; else it panics. */
  lemma OnReply<Resp>(decodeResp: seq<byte> -> Option<Resp>, p: Packet, rest: seq<byte>, fails: bool)
    requires ByteVersion(p)
    ensures var r := Receive(decodeResp, Wire(p) + rest, fails);
            if p.tag == 0 then
              r == Returned(if decodeResp(p.payload).Some? then Success(decodeResp(p.payload).value)
                            else Failure(DeserializeError))
            else if p.tag <= 9 || 20 <= p.tag <= 29 then
              && r.Returned? && r.result.Failure? && r.result.error.ProtocolError?
              && IsNumberOf(r.result.error.code, p.tag)
            else r == Panicked
  {
    hide ReadPacket, Wire;
    ReadWholePacket(p, rest);
  }

  /** What a call returns when the bytes end inside the reply. */
  lemma OnCutReply<Resp>(decodeResp: seq<byte> -> Option<Resp>, p: Packet, n: nat, fails: bool)
    requires ByteVersion(p) && n < |Wire(p)|
    ensures Receive(decodeResp, Wire(p)[..n], fails) ==
            Returned(Failure(if n >= HeaderLength(p) then ReadExactError
                             else if fails then ReadVlqError else IncompleteVlqSeq))
  {
    hide ReadPacket, Wire, HeaderLength;
    CutVerdict(p, n);
  }

  /** What a call returns on a reply with a number that does not end within ten bytes. */
  lemma OnOverlongReply<Resp>(decodeResp: seq<byte> -> Option<Resp>, vs: seq<u64>, bytes: seq<byte>, fails: bool)
    requires |vs| < 3 && |bytes| >= 10 && forall i :: 0 <= i < 10 ==> bytes[i] >= 128
    ensures Receive(decodeResp, Encodings(vs) + bytes, fails) ==
            Returned(Failure(if fails && (forall i :: 0 <= i < |bytes| ==> bytes[i] >= 128) then ReadVlqError
                             else DecodeVlqOverflow))
  {
    hide ReadVlqs, Encodings, Wire;
    OverlongNumber(vs, bytes, 3);
  }
}
