/** The C server loop with its payload memory, and the C client call. */
module CServer {
  import opened Words
  import opened Errors
  import opened Vlq
  import opened Frames
  import opened NativePipe
  import opened CBuffers
  import opened CCodec
  import opened Allocator
  import opened CPackets

  /** What the callback returns and the response it fills in. */
  datatype CReply = CReply(err: int, response: Packet)

  /** The callback, on the service state. */
  type Serve<!S> = (S, Packet) -> (S, CReply)

  /** One round of the loop on the incoming bytes: it ends the server, or it answers. */
  datatype Round<+S> = Stopped(state: S, end: Status) | Replied(state: S, reply: Packet, rest: Source)

  /** The loop body, starting with every block free. */
  function RoundOn<S>(serve: Serve<S>, s: S, src: Source, count: nat, blockSize: nat): (t: Round<S>)
    ensures t.Stopped? ==> t.end != Done
    ensures t.Replied? ==> t.rest.endCode == src.endCode
    ensures t.Replied? && src.endCode == 0 ==> |t.rest.now| < |src.now|
  {
    var (status, h, after) := FieldsOn(src, 3);
    if status != Done then Stopped(s, status)
    else if h[2] > blockSize then Stopped(s, Panic(CSI_ERROR_MALLOC))
    else if |after.now| < h[2] then Stopped(s, after.EndStatus())
    else
      var (s', r) := serve(s, Packet(h[0], h[1], after.now[..h[2]]));
      if r.err != 0 then Stopped(s', Error(r.err))
      else if !RoomForReply(h[2], |r.response.payload|, count, blockSize) then Stopped(s', Panic(CSI_ERROR_MALLOC))
      else Replied(s', r.response, after.Drop(h[2]))
  }

  /** Room for a reply beside the request: none is needed for an empty reply; otherwise it
      must fit a block, and a nonempty request holds another one. */
  predicate RoomForReply(requestLen: nat, replyLen: nat, count: nat, blockSize: nat) {
    replyLen == 0 || (replyLen <= blockSize && (requestLen == 0 || count >= 2))
  }

  /** What a server has sent, its state, and how it ended; Done while it goes on. */
  datatype CSession<+S> = CSession(replies: seq<Packet>, state: S, end: Status) {
    function After(sent: seq<Packet>): CSession<S> {
      CSession(sent + replies, state, end)
    }
  }

  /** The server's first n rounds. */
  function FirstRounds<S>(serve: Serve<S>, s: S, src: Source, count: nat, blockSize: nat, n: nat): CSession<S>
    decreases n
  {
    if n == 0 then CSession([], s, Done) else
    match RoundOn(serve, s, src, count, blockSize)
    case Stopped(s', end) => CSession([], s', end)
    case Replied(s', reply, rest) => FirstRounds(serve, s', rest, count, blockSize, n - 1).After([reply])
  }

  /** Over a pipe that ends with zero bytes every server ends, within one round for each byte
      and one more; what happens after any number of rounds from there on is all it does. */
  lemma {:induction false} ServerEnds<S>(serve: Serve<S>, s: S, src: Source, count: nat, blockSize: nat, n: nat)
    requires src.endCode == 0 && n > |src.now|
    ensures var life := FirstRounds(serve, s, src, count, blockSize, n);
            life.end != Done && life == FirstRounds(serve, s, src, count, blockSize, |src.now| + 1)
    decreases n
  {
    hide RoundOn;
    var t := RoundOn(serve, s, src, count, blockSize);
    if t.Replied? {
      ServerEnds(serve, t.state, t.rest, count, blockSize, n - 1);
      ServerEnds(serve, t.state, t.rest, count, blockSize, |src.now|);
    }
  }

  // What the loop promises

  /** The answers of a callback to a list of requests, up to its first nonzero return. */
  function Answers<S>(serve: Serve<S>, s: S, requests: seq<Packet>): (seq<Packet>, S, Option<int>)
    decreases |requests|
  {
    if requests == [] then ([], s, None) else
    var (s', r) := serve(s, requests[0]);
    if r.err != 0 then ([], s', Some(r.err)) else
    var (more, s'', err) := Answers(serve, s', requests[1..]);
    ([r.response] + more, s'', err)
  }

  /** Two blocks are enough: when every request and every response fits a block, no number
      of requests makes an allocation fail. They are answered one by one and in order until
      the callback returns an error, and then the loop goes on with what follows. */
  lemma {:induction false} TwoBlocksAreEnough<S(!new)>(
    serve: Serve<S>, s: S, requests: seq<Packet>, rest: Source, count: nat, blockSize: nat, n: nat)
    requires count >= 2
    requires forall p :: p in requests ==> |p.payload| <= blockSize
    requires forall s, p :: |serve(s, p).1.response.payload| <= blockSize
    ensures var src := rest.(now := WireAll(requests) + rest.now);
            var life := FirstRounds(serve, s, src, count, blockSize, |requests| + n);
            var (answers, s', err) := Answers(serve, s, requests);
            match err
            case Some(e) => life == CSession(answers, s', Error(e))
            case None => life == FirstRounds(serve, s', rest, count, blockSize, n).After(answers)
    decreases |requests|
  {
    hide RoundOn, Wire;
    if requests == [] {
      assert WireAll(requests) + rest.now == rest.now;
      var life := FirstRounds(serve, s, rest, count, blockSize, n);
      assert life.After([]) == life;
    } else {
      var p, more := requests[0], requests[1..];
      Associate(Wire(p), WireAll(more), rest.now);
      RoundOnRequest(serve, s, p, rest.(now := WireAll(more) + rest.now), count, blockSize);
      var (s', r) := serve(s, p);
      if r.err == 0 {
        TwoBlocksAreEnough(serve, s', more, rest, count, blockSize, n);
        var (answers, s'', err) := Answers(serve, s', more);
        if err == None {
          var life := FirstRounds(serve, s'', rest, count, blockSize, n).replies;
          assert [r.response] + (answers + life) == [r.response] + answers + life;
        }
      }
    }
  }

  /** A round on a whole request: an allocation fails exactly when the request does not fit
      a block or there is no room for the reply beside it. */
  lemma RoundOnRequest<S>(serve: Serve<S>, s: S, p: Packet, rest: Source, count: nat, blockSize: nat)
    ensures var t := RoundOn(serve, s, rest.(now := Wire(p) + rest.now), count, blockSize);
            var (s', r) := serve(s, p);
            if |p.payload| > blockSize then t == Stopped(s, Panic(53))
            else if r.err != 0 then t == Stopped(s', Error(r.err))
            else if !RoomForReply(|p.payload|, |r.response.payload|, count, blockSize) then
              t == Stopped(s', Panic(53))
            else t == Replied(s', r.response, rest)
  {
    hide FieldsOn, CReadVlqs, ReadVlqs, Encodings;
    var h := Encodings(Fields(p));
    var tail := p.payload + rest.now;
    Associate(h, p.payload, rest.now);
    ReadWholeVlqs(Fields(p), tail);
    FieldReadersAgree(h + tail, 3);
    FieldsOnStream(rest.(now := h + tail), 3);
    SplitAfter(h, tail);
    SplitAfter(p.payload, rest.now);
  }

  /** A request that is cut short by a zero read ends the server with the panic of the reader,
      or with that of the allocation if its whole header asks for more than a block. */
  lemma CutRequestEnds<S>(serve: Serve<S>, s: S, p: Packet, n: nat, count: nat, blockSize: nat)
    requires n < |Wire(p)|
    ensures RoundOn(serve, s, NativeSource(Wire(p)[..n]), count, blockSize) ==
            if n >= |Encodings(Fields(p))| && |p.payload| > blockSize then Stopped(s, Panic(53))
            else Stopped(s, Panic(50))
  {
    hide FieldsOn, Wire, CReadVlqs;
    FieldsOfCut(p, n);
    FieldsOnStream(NativeSource(Wire(p)[..n]), 3);
  }

  /** The same cut in a reply, for a call with some memory. */
  lemma CutReplyEnds(p: Packet, n: nat, blocks: Blocks, count: nat, blockSize: nat)
    requires n < |Wire(p)| && |p.payload| < TWO_31
    ensures CallOn(NativeSource(Wire(p)[..n]), blocks, count, blockSize).0 ==
            if n >= |Encodings(Fields(p))| && !Room(blocks, count, blockSize, |p.payload|) then Panic(53) else Panic(50)
  {
    hide FieldsOn, Wire, CReadVlqs, Room, NarrowToInt;
    FieldsOfCut(p, n);
    FieldsOnStream(NativeSource(Wire(p)[..n]), 3);
    ExactLenIsLenIff(|p.payload|);
  }

  lemma FieldsOfCut(p: Packet, n: nat)
    requires n < |Wire(p)|
    ensures var s, h := Wire(p)[..n], Encodings(Fields(p));
            && CReadVlqs(s, 3) == (if n < |h| then CShort else CGot(Fields(p), |h|))
            && n - |h| < |p.payload|
  {
    hide CReadVlqs, ReadVlqs, Encodings;
    var s, h := Wire(p)[..n], Encodings(Fields(p));
    if n < |h| {
      assert s == h[..n];
      CutEncodings(Fields(p), n);
    } else {
      assert s == h + p.payload[..n - |h|];
      ReadWholeVlqs(Fields(p), p.payload[..n - |h|]);
      FieldReadersAgree(s, 3);
    }
  }

  /** One block is not enough: a nonempty answer to a nonempty request ends the server. */
  lemma OneBlockIsNotEnough<S>(serve: Serve<S>, s: S, p: Packet, rest: Source, blockSize: nat, n: nat)
    requires 0 < |p.payload| <= blockSize
    requires serve(s, p).1.err == 0 && |serve(s, p).1.response.payload| > 0
    ensures FirstRounds(serve, s, rest.(now := Wire(p) + rest.now), 1, blockSize, n + 1) ==
            CSession([], serve(s, p).0, Panic(53))
  {
    hide RoundOn, Wire;
    RoundOnRequest(serve, s, p, rest, 1, blockSize);
  }

  // When reads fail

  /** The request that a failing read makes of a header it cuts short, with the bytes it takes
      from what the buffer still held; None if those bytes are no number, if its payload does
      not fit a block, or if they do not hold all of it. */
  function CutRequest(now: seq<byte>, later: seq<byte>, blockSize: nat): (r: Option<(Packet, nat)>)
    requires CReadVlqs(now, 3).CShort?
    ensures r.Some? ==> r.value.1 <= |later|
  {
    var c := CutShort(now, later, 3);
    if c.CFail? || c.value[2] > blockSize || c.value[2] > |later| - c.used then None
    else Some((Packet(c.value[0], c.value[1], later[c.used..][..c.value[2]]), c.used + c.value[2]))
  }

  /** Over a pipe whose reads fail, the server takes a header that is cut short for a request:
      the round is as if that request had been sent. Otherwise the server stops before it
      serves anything. */
  lemma CutHeaderIsARequest<S>(serve: Serve<S>, s: S, src: Source, count: nat, blockSize: nat)
    requires src.endCode != 0 && CReadVlqs(src.now, 3).CShort?
    ensures var t := RoundOn(serve, s, src, count, blockSize);
            var c, r := CutShort(src.now, src.later, 3), CutRequest(src.now, src.later, blockSize);
            && (r.Some? ==>
                  var p, rest := r.value.0, Source(src.later[r.value.1..], [], src.endCode);
                  t == RoundOn(serve, s, rest.(now := Wire(p) + rest.now), count, blockSize))
            && (r.None? ==>
                  t == Stopped(s, if c.CFail? then Error(c.code)
                                  else if c.value[2] > blockSize then Panic(53)
                                  else Error(src.endCode)))
  {
    hide FieldsOn, CReadVlqs, CutShort, Wire;
    CutFields(src, 3);
    var r := CutRequest(src.now, src.later, blockSize);
    if r.Some? {
      var c := CutShort(src.now, src.later, 3);
      var rest := Source(src.later[r.value.1..], [], src.endCode);
      assert src.later[c.used..][c.value[2]..] == rest.now;
      RoundOnRequest(serve, s, r.value.0, rest, count, blockSize);
    }
  }

  /** A callback that counts its calls. */
  ghost predicate Counts(serve: Serve<nat>) {
    forall n: nat, p: Packet :: serve(n, p).0 == n + 1
  }

  /** Exactly when a server over a failing pipe calls its callback on a request that nobody
      finished; and when no byte of it was sent, in terms of what the buffer still held: its
      first two numbers are the method and the length, zero if they are not whole. */
  lemma CutRequestIsServedIff(serve: Serve<nat>, n: nat, src: Source, count: nat, blockSize: nat)
    requires Counts(serve) && src.endCode != 0 && CReadVlqs(src.now, 3).CShort?
    ensures var served := RoundOn(serve, n, src, count, blockSize).state == n + 1;
            && (served <==> CutRequest(src.now, src.later, blockSize).Some?)
            && (src.now == [] ==>
                  var c := CReadVlqs(src.later, 2);
                  served <==> !c.CFail? && (c.CGot? ==> c.value[1] <= blockSize && c.value[1] <= |src.later| - c.used))
  {
    hide FieldsOn, RoundOn, CReadVlqs, CutRequest, Wire;
    CutHeaderIsARequest(serve, n, src, count, blockSize);
    var r := CutRequest(src.now, src.later, blockSize);
    RequestSize(src.now, src.later, blockSize);
    if r.Some? {
      RoundOnRequest(serve, n, r.value.0, Source(src.later[r.value.1..], [], src.endCode), count, blockSize);
    }
    if src.now == [] {
      NothingSentRequest(src.later, blockSize);
    }
  }

  lemma RequestSize(now: seq<byte>, later: seq<byte>, blockSize: nat)
    requires CReadVlqs(now, 3).CShort?
    ensures var r := CutRequest(now, later, blockSize); r.Some? ==> |r.value.0.payload| <= blockSize
  {
    hide CReadVlqs, CutShort;
  }

  lemma NothingSentRequest(later: seq<byte>, blockSize: nat)
    requires CReadVlqs([], 3).CShort?
    ensures var c := CReadVlqs(later, 2);
            CutRequest([], later, blockSize).Some? <==>
              !c.CFail? && (c.CGot? ==> c.value[1] <= blockSize && c.value[1] <= |later| - c.used)
  {
    hide CReadVlqs;
    NothingCut(later);
    if CReadVlqs(later, 2).CShort? {
      ShortPair(later);
    }
  }

  /** Eleven bytes in a row that continue a number stop the server before it serves anything. */
  lemma NoNumberStopsIt<S>(serve: Serve<S>, s: S, later: seq<byte>, endCode: int, count: nat, blockSize: nat)
    requires endCode != 0 && |later| > MAX_VLQ_LEN && AllContinue(later, MAX_VLQ_LEN + 1)
    ensures RoundOn(serve, s, Source([], later, endCode), count, blockSize) == Stopped(s, Error(56))
  {
    hide RoundOn, CReadVlq;
    ReadersAgree(later);
    assert CReadVlqs(later, 2) == CFail(CSI_ERROR_READ_VLQ, 11);
    NothingCut(later);
    CutHeaderIsARequest(serve, s, Source([], later, endCode), count, blockSize);
  }

  /** With nothing but zeros left to deliver, however few, such a server serves empty requests
      for ever, if its callback answers them with what fits a block. */
  lemma {:induction false} ServesForEver<S(!new)>(
    serve: Serve<S>, s: S, src: Source, count: nat, blockSize: nat, n: nat)
    requires OnlyZeros(src)
    requires forall s :: var r := serve(s, Packet(0, 0, [])).1; r.err == 0 && |r.response.payload| <= blockSize
    ensures var life := FirstRounds(serve, s, src, count, blockSize, n);
            life.end == Done && |life.replies| == n
    decreases n
  {
    hide RoundOn;
    if n > 0 {
      ZeroRequest(serve, s, src, count, blockSize);
      var t := RoundOn(serve, s, src, count, blockSize);
      ServesForEver(serve, t.state, t.rest, count, blockSize, n - 1);
    }
  }

  lemma ZeroRequest<S>(serve: Serve<S>, s: S, src: Source, count: nat, blockSize: nat)
    requires OnlyZeros(src)
    ensures var t := RoundOn(serve, s, src, count, blockSize);
            var (s', r) := serve(s, Packet(0, 0, []));
            && t.state == s'
            && (t.Stopped? ==> t.end == if r.err != 0 then Error(r.err) else Panic(53))
            && (t.Replied? <==> r.err == 0 && |r.response.payload| <= blockSize)
            && (t.Replied? ==> t.reply == r.response && OnlyZeros(t.rest))
  {
    hide FieldsOn;
    ZerosAreRead(src, 3);
    var after := FieldsOn(src, 3).2;
    assert Zeros(3) == [0, 0, 0];
    assert after.now[..0] == [] && after.Drop(0) == after;
  }

  // The loop

  /** The only block in use, if any, is the one a pointer names, one of the first two. */
  ghost predicate HoldsOnly(b: Blocks, ptr: Option<nat>, blockSize: nat) {
    match ptr
    case None => b == NO_BLOCKS
    case Some(p) => blockSize > 0 && p % blockSize == 0 && p / blockSize <= 1 && b == Blocks({p / blockSize}, {})
  }

  /** `csi_server_malloc_response_payload`, and the filling of the payload. */
  method MallocResponse(alloc: FixedAllocator, response: Packet) returns (status: Status, p: CPacket)
    requires alloc.Valid() && ShiftDefined(alloc.blocks, alloc.blockCount)
    modifies alloc, alloc.buf
    ensures alloc.Valid()
    ensures if |response.payload| == 0 then
              status == Done && p.payload == None && alloc.blocks == old(alloc.blocks)
            else
              var blocks, len := old(alloc.blocks), |response.payload|;
              var (after, index) := MallocStep(blocks, alloc.blockCount, alloc.BlockSize(), len);
              && alloc.blocks == after
              && (index == None ==> status == Panic(CSI_ERROR_MALLOC))
              && (index.Some? ==> status == Done && p.payload == Some(index.value * alloc.BlockSize()))
    ensures status == Done ==> p.PointsInto(alloc.buf[..]) && p.In(alloc.buf[..]) == response
  {
    hide MallocStep;
    p := CPacket(response.version, response.tag, |response.payload|, None);
    if p.payloadLen == 0 {
      return Done, p;
    }
    MallocFits(alloc.blocks, alloc.blockCount, alloc.BlockSize(), p.payloadLen);
    var ptr := alloc.Malloc(p.payloadLen);
    if ptr == None {
      return Panic(CSI_ERROR_MALLOC), p;
    }
    p := CPacket(p.version, p.tag, p.payloadLen, ptr);
    CopyBytes(alloc.buf, ptr.value, response.payload);
    OverwrittenPart(old(alloc.buf[..]), ptr.value, response.payload);
    return Done, p;
  }

  /** The reply gets a block exactly if there is room beside the request, and is alone in the
      memory once the request is freed. */
  lemma ReplyBlock(count: nat, blockSize: nat, requestLen: nat, replyLen: nat)
    requires count >= 1 && blockSize >= 1 && replyLen > 0
    ensures var (after, index) := MallocStep(Requested(requestLen), count, blockSize, replyLen);
            && (index.Some? <==> RoomForReply(requestLen, replyLen, count, blockSize))
            && (index.Some? ==>
                  var left := if requestLen == 0 then after else FreeStep(after, 0);
                  HoldsOnly(left, Some(index.value * blockSize), blockSize))
  {
    RequestBlock(count, blockSize, replyLen);
    PointerOfBlock(0, blockSize);
    PointerOfBlock(1, blockSize);
    assert FirstFree({0}, 0, count) == 1;
    var none: set<nat> := {};
    var first: set<nat> := {0};
    assert first + none == first && first + {1} - {0} == {1} && none - {0} == none;
  }

  lemma PointerOfBlock(i: nat, blockSize: nat)
    requires blockSize >= 1
    ensures i * blockSize % blockSize == 0 && i * blockSize / blockSize == i
  {
    ModUnique(i * blockSize, blockSize, i, 0);
  }

  /** What receiving a request into an empty memory comes to once its numbers are known. Of a
      payload of 2^31 bytes or more fewer are read, and the rest is what the memory held. */
  ghost predicate RequestReceived(
    h: seq<u64>, src: Source, blockSize: nat, mem: seq<byte>,
    status: Status, request: CPacket, p: Packet, src': Source, blocks: Blocks)
    requires |h| == 3
  {
    var len, n := h[2], ExactLen(h[2]);
    if len > blockSize then status == Panic(CSI_ERROR_MALLOC)
    else if |src.now| < n then status == src.EndStatus()
    else
      && status == Done && src' == src.Drop(n)
      && len <= |mem| && p == Packet(h[0], h[1], src.now[..n] + mem[n..len])
      && request.payload == (if len == 0 then None else Some(0)) && blocks == Requested(len)
  }

  /** `csi_receive_request` into an empty memory, and the request as the callback sees it. */
  method ReceiveRequest(reader: CBufReader, alloc: FixedAllocator) returns (status: Status, request: CPacket, p: Packet)
    requires reader.Valid() && alloc.Valid() && reader.buf != alloc.buf
    requires alloc.blocks == NO_BLOCKS
    modifies reader, reader.raw, reader.buf, alloc, alloc.buf
    ensures reader.Valid() && alloc.Valid()
    ensures var (status', h, src) := FieldsOn(old(reader.Src()), 3);
            if status' != Done then status == status'
            else RequestReceived(h, src, alloc.BlockSize(), old(alloc.buf[..]),
                                 status, request, p, reader.Src(), alloc.blocks)
  {
    hide FieldsOn, MallocStep, Overwrite, Flatten, NoEmptyChunk, AfterFills, Represents, FixedAllocator.BlockSize;
    hide FirstFree, PayloadReceived;
    p := Packet(0, 0, []);
    ghost var blocks, mem := alloc.blocks, alloc.buf[..];
    ghost var count, blockSize := alloc.blockCount, alloc.BlockSize();
    ghost var (status', h, src) := FieldsOn(reader.Src(), 3);
    RequestedShift(0, count);
    status, request := ReceivePacket(reader, alloc);
    if status' == Done {
      ReceivedStatus(h, src, blocks, count, blockSize, mem, status, request, reader.Src(), alloc.blocks, alloc.buf[..]);
      RequestStatus(h[2], src, count, blockSize);
    }
    if status != Done {
      return;
    }
    p := Packet(request.version, request.tag, []);
    InFirstBlock(h, src, count, blockSize, mem, status, request, reader.Src(), alloc.blocks, alloc.buf[..]);
    if request.payload.Some? {
      p := p.(payload := alloc.buf[request.payload.value..request.payload.value + request.payloadLen]);
    }
  }

  /** The loop body up to the sending: receive, serve, free the request. The request's block
      is gone again and only the response's is left. */
  method Handle<S>(reader: CBufReader, alloc: FixedAllocator, serve: Serve<S>, s: S)
    returns (status: Status, s': S, response: CPacket)
    requires reader.Valid() && alloc.Valid() && reader.buf != alloc.buf && alloc.BlockSize() < TWO_31
    requires alloc.blocks == NO_BLOCKS
    modifies reader, reader.raw, reader.buf, alloc, alloc.buf
    ensures reader.Valid() && alloc.Valid()
    ensures match RoundOn(serve, s, old(reader.Src()), alloc.blockCount, alloc.BlockSize())
            case Stopped(after, end) => status == end && status != Done && s' == after
            case Replied(after, reply, rest) =>
              && status == Done && s' == after && reader.Src() == rest
              && response.PointsInto(alloc.buf[..]) && response.In(alloc.buf[..]) == reply
              && HoldsOnly(alloc.blocks, response.payload, alloc.BlockSize())
  {
    hide FieldsOn, MallocStep, FreeStep, Flatten, NoEmptyChunk, AfterFills, Represents;
    hide FixedAllocator.BlockSize, RoomForReply, CPacket.In, CPacket.PointsInto;
    s' := s;
    response := CPacket(0, 0, 0, None);
    alloc.BlocksFill();
    var request, p;
    ghost var (fields, h, src) := FieldsOn(reader.Src(), 3);
    if fields == Done {
      SmallRequest(h[2], src.now, alloc.buf[..]);
    }
    status, request, p := ReceiveRequest(reader, alloc);
    if status != Done {
      return;
    }
    var (after, reply) := serve(s, p);
    s' := after;
    if reply.err != 0 {
      return Error(reply.err), s', response;
    }
    if |reply.response.payload| > 0 {
      ReplyBlock(alloc.blockCount, alloc.BlockSize(), |p.payload|, |reply.response.payload|);
    }
    EmptyReplyFits(|p.payload|, |reply.response.payload|, alloc.blockCount, alloc.BlockSize());
    RequestedShift(|p.payload|, alloc.blockCount);
    status, response := MallocResponse(alloc, reply.response);
    if status != Done {
      return;
    }
    PointerOfBlock(0, alloc.BlockSize());
    var panic := alloc.Free(request.payload);
    assert !panic;
  }

  /** A request received into an empty memory lies at its start. */
  lemma InFirstBlock(
    h: seq<u64>, src: Source, count: nat, blockSize: nat, mem: seq<byte>,
    status: Status, p: CPacket, src': Source, blocks: Blocks, mem': seq<byte>)
    requires count >= 1 && |h| == 3 && status == Done
    requires PayloadReceived(h, src, NO_BLOCKS, count, blockSize, mem, status, p, src', blocks, mem')
    ensures p.payload == (if h[2] == 0 then None else Some(0)) && blocks == Requested(h[2])
    ensures h[2] > 0 ==> |mem'| == |mem| >= h[2] && ExactLen(h[2]) <= |src.now|
    ensures h[2] > 0 ==> mem'[..h[2]] == src.now[..ExactLen(h[2])] + mem[ExactLen(h[2])..h[2]]
  {
    hide MallocStep, NarrowToInt;
    RequestBlock(count, blockSize, h[2]);
  }

  /** A request below 2^31 bytes is read whole. */
  lemma SmallRequest(len: u64, s: seq<byte>, mem: seq<byte>)
    ensures len < TWO_31 ==> ExactLen(len) == len
    ensures len < TWO_31 && len <= |s| && len <= |mem| ==> s[..len] + mem[len..len] == s[..len]
  {
  }

  lemma RequestStatus(len: u64, src: Source, count: nat, blockSize: nat)
    requires count >= 1
    ensures PayloadStatus(len, src, NO_BLOCKS, count, blockSize) ==
            if len > blockSize then Panic(CSI_ERROR_MALLOC)
            else if |src.now| < ExactLen(len) then src.EndStatus() else Done
  {
    RequestBlock(count, blockSize, len);
  }

  lemma EmptyReplyFits(requestLen: nat, replyLen: nat, count: nat, blockSize: nat)
    ensures replyLen == 0 ==> RoomForReply(requestLen, replyLen, count, blockSize)
    ensures FreeStep(Requested(1), 0) == NO_BLOCKS
  {
  }

  /** One iteration of `csi_run_server`. Every block is free before it and, if it answers,
      after it. */
  method Iterate<S>(reader: CBufReader, writer: CBufWriter, alloc: FixedAllocator, serve: Serve<S>, s: S)
    returns (status: Status, s': S)
    requires reader.Valid() && writer.Valid() && alloc.Valid() && Separate(reader, writer, alloc)
    requires alloc.BlockSize() < TWO_31 && alloc.blocks == NO_BLOCKS && Flushed(writer)
    modifies reader, reader.raw, reader.buf, writer, writer.raw, writer.buf, alloc, alloc.buf
    ensures reader.Valid() && writer.Valid() && alloc.Valid() && Flushed(writer)
    ensures match RoundOn(serve, s, old(reader.Src()), alloc.blockCount, alloc.BlockSize())
            case Stopped(after, end) =>
              && status == end && status != Done && s' == after
              && writer.raw.Accepted() == old(writer.raw.Accepted()) && writer.Takes() == old(writer.Takes())
            case Replied(after, reply, rest) =>
              && s' == after && (status == Done ==> reader.Src() == rest)
              && (status != Done ==> status == writer.Closed() && writer.Takes() == Some(0))
              && Sending(status, reply, old(writer.Takes()), old(writer.raw.Accepted()), writer.raw.Accepted(),
                         writer.buf.Length)
              && Fewer(writer.Takes(), old(writer.Takes()))
    ensures status == Done ==> alloc.blocks == NO_BLOCKS && alloc.usedFlags == 0
  {
    hide RoundOn, Wire, Flatten, NoEmptyChunk, AfterFills, MallocStep, Bit, Represents, FixedAllocator.BlockSize;
    hide CBufReader.Src;
    var response;
    status, s', response := Handle(reader, alloc, serve, s);
    if status != Done {
      return;
    }
    var payload: Payload := if response.payload.None? then [] else
      alloc.buf[response.payload.value..response.payload.value + response.payloadLen];
    ghost var reply := Packet(response.version, response.tag, payload);
    ghost var takes, wire, before := writer.Takes(), writer.raw.Accepted(), writer.Written();
    FitsIs(Wire(reply), writer.filledLen, writer);
    FitsIs(Encodings(Fields(reply)), writer.filledLen, writer);
    assert takes != Some(0) ==> before == wire;
    status := SendPacket(writer, Packet(response.version, response.tag, payload));
    SendingIs(status, reply, takes, wire, before, writer.raw.Accepted(), writer.buf.Length);
    if status != Done {
      return;
    }
    var panic := alloc.Free(response.payload);
    NothingLeft(alloc);
  }

  /** Freeing the only block in use leaves the bitmap zero. */
  lemma NothingLeft(alloc: FixedAllocator)
    requires alloc.Valid() && alloc.blocks.live + alloc.blocks.spent == {}
    ensures alloc.blocks == NO_BLOCKS && alloc.usedFlags == 0
  {
    hide Bit;
    Pow2Values();
    NoBitsIsZero(alloc.usedFlags, 64);
  }

  /** The buffers, the pipes and the payload memory are different objects. */
  ghost predicate Separate(reader: CBufReader, writer: CBufWriter, alloc: FixedAllocator) {
    reader.raw != writer.raw && reader.buf != writer.buf && reader.buf != alloc.buf && writer.buf != alloc.buf
  }

  /** Nothing waits in the writer's buffer, unless the peer is gone. */
  ghost predicate Flushed(writer: CBufWriter)
    requires writer.Valid()
    reads writer, writer.raw
  {
    writer.Takes() == Some(0) || writer.filledLen == 0
  }

  /** What sending a packet through an empty buffer of some size does to the wire, with a peer
      that takes so many chunks: the whole packet, or a strict part of its front, which is the
      header or nothing if the buffer has room for the header. */
  ghost predicate Sending(
    status: Status, p: Packet, takes: Option<nat>, wire: seq<byte>, wire': seq<byte>, room: nat)
  {
    var header := Encodings(Fields(p));
    && wire <= wire'
    && (if status == Done then wire' == wire + Wire(p) else wire' < wire + Wire(p))
    && (takes == Some(0) ==> status != Done && wire' == wire)
    && (takes == None ==> status == Done)
    && (|header| <= room ==>
          var chunks := if |Wire(p)| <= room then 1 else 2;
          if takes == None || takes.value >= chunks then status == Done
          else status != Done && wire' == if takes.value == 0 then wire else wire + header)
  }

  lemma SendingIs(
    status: Status, p: Packet, takes: Option<nat>, wire: seq<byte>, before: seq<byte>, wire': seq<byte>, room: nat)
    requires SentAs(status, p, wire, before, wire') && (takes != Some(0) ==> before == wire)
    requires takes == Some(0) ==> status != Done && wire' == wire
    requires takes == None ==> status == Done
    requires takes != Some(0) && |Encodings(Fields(p))| <= room ==>
               InChunks(if |Wire(p)| <= room then 1 else 2, takes, status, p, wire, before, wire')
    ensures Sending(status, p, takes, wire, wire', room)
  {
    hide Encodings;
    if takes == Some(0) {
      assert wire < wire + Wire(p);
    }
  }

  /** `csi_run_server`, from its loop on, followed for at most some number of rounds, over any
      pipes and with a client that may leave at any time. What it sends are the replies of its
      first rounds on the incoming bytes, however they are buffered and cut: all of them, and
      then it has ended as those rounds do; or those the client was there to take and the
      front of the next one. The payload bitmap is zero at every loop head. */
  method RunServer<S>(
    reader: CBufReader, writer: CBufWriter, alloc: FixedAllocator, serve: Serve<S>, s0: S, rounds: nat)
    returns (status: Status, s: S, ghost taken: nat)
    requires reader.Valid() && writer.Valid() && alloc.Valid() && Separate(reader, writer, alloc)
    requires alloc.BlockSize() < TWO_31 && alloc.blocks == NO_BLOCKS && Flushed(writer)
    modifies reader, reader.raw, reader.buf, writer, writer.raw, writer.buf, alloc, alloc.buf
    ensures reader.Valid() && writer.Valid() && alloc.Valid()
    ensures var life := FirstRounds(serve, s0, old(reader.Src()), alloc.blockCount, alloc.BlockSize(), rounds);
            && taken <= |life.replies|
            && (if taken == |life.replies| then
                  && status == life.end && s == life.state
                  && writer.raw.Accepted() == old(writer.raw.Accepted()) + WireAll(life.replies)
                else
                  && status == writer.Closed()
                  && CutIn(life.replies[taken], old(writer.raw.Accepted()) + WireAll(life.replies[..taken]),
                           writer.raw.Accepted(), writer.buf.Length))
            && (old(writer.Takes()) == None ==> taken == |life.replies|)
            && (old(writer.Takes()) == Some(0) ==> taken == 0 && writer.raw.Accepted() == old(writer.raw.Accepted()))
    ensures status == Done ==> alloc.blocks == NO_BLOCKS && alloc.usedFlags == 0
  {
    hide RoundOn, FirstRounds, CSession.After, Wire, WireAll, Flatten, NoEmptyChunk, AfterFills, Represents;
    hide Sending, CutIn, CBufReader.Src;
    s, taken := s0, 0;
    ghost var count, blockSize := alloc.blockCount, alloc.BlockSize();
    ghost var sent: seq<Packet> := [];
    ghost var takes := writer.Takes();
    LifeStarts(writer.raw.Accepted(), FirstRounds(serve, s, reader.Src(), count, blockSize, rounds));
    NothingLeft(alloc);
    var left := rounds;
    while true
      invariant reader.Valid() && writer.Valid() && alloc.Valid() && Flushed(writer)
      invariant Fewer(writer.Takes(), takes) && (takes == Some(0) ==> sent == [])
      invariant alloc.blocks == NO_BLOCKS && alloc.usedFlags == 0 && alloc.BlockSize() == blockSize
      invariant writer.raw.Accepted() == old(writer.raw.Accepted()) + WireAll(sent)
      invariant FirstRounds(serve, s0, old(reader.Src()), count, blockSize, rounds) ==
                FirstRounds(serve, s, reader.Src(), count, blockSize, left).After(sent)
      decreases left
    {
      taken := |sent|;
      LifeStep(serve, s, reader.Src(), count, blockSize, left, sent);
      StartsWithSent(FirstRounds(serve, s, reader.Src(), count, blockSize, left), sent);
      assert sent[..|sent|] == sent;
      if left == 0 {
        return Done, s, taken;
      }
      ghost var round := RoundOn(serve, s, reader.Src(), count, blockSize);
      ghost var takesNow, wire := writer.Takes(), writer.raw.Accepted();
      if round.Replied? {
        StartsWithSent(FirstRounds(serve, round.state, round.rest, count, blockSize, left - 1), sent + [round.reply]);
      }
      status, s := Iterate(reader, writer, alloc, serve, s);
      if round.Replied? {
        SentOrCut(status, round.reply, takesNow, wire, writer.raw.Accepted(), writer.buf.Length);
      }
      if status != Done {
        return;
      }
      WireAllAppend(sent, [round.reply]);
      WireOne(round.reply);
      Associate(old(writer.raw.Accepted()), WireAll(sent), Wire(round.reply));
      sent := sent + [round.reply];
      left := left - 1;
    }
  }

  /** The wire ends inside a packet after these bytes: with its header or with nothing of it,
      if the buffer has room for the header, and with nothing, if it has room for all of it. */
  ghost predicate CutIn(p: Packet, wire: seq<byte>, wire': seq<byte>, room: nat) {
    var header := Encodings(Fields(p));
    && wire <= wire' < wire + Wire(p)
    && (|header| <= room ==> wire' == wire || (wire' == wire + header && |Wire(p)| > room))
  }

  lemma SentOrCut(status: Status, p: Packet, takes: Option<nat>, wire: seq<byte>, wire': seq<byte>, room: nat)
    requires Sending(status, p, takes, wire, wire', room)
    ensures if status == Done then takes != Some(0) && wire' == wire + Wire(p)
            else takes != None && CutIn(p, wire, wire', room)
    ensures takes == Some(0) ==> wire' == wire
  {
    hide Encodings;
  }

  lemma StartsWithSent<S>(life: CSession<S>, sent: seq<Packet>)
    ensures |life.After(sent).replies| == |sent| + |life.replies| && life.After(sent).replies[..|sent|] == sent
  {
  }

  lemma LifeStarts<S>(wire: seq<byte>, life: CSession<S>)
    ensures wire + WireAll([]) == wire && life.After([]) == life
  {
  }

  lemma LifeStep<S>(
    serve: Serve<S>, s: S, src: Source, count: nat, blockSize: nat, n: nat, sent: seq<Packet>)
    ensures var t := RoundOn(serve, s, src, count, blockSize);
            FirstRounds(serve, s, src, count, blockSize, n).After(sent) ==
            if n == 0 then CSession(sent, s, Done)
            else if t.Stopped? then CSession(sent, t.state, t.end)
            else FirstRounds(serve, t.state, t.rest, count, blockSize, n - 1).After(sent + [t.reply])
  {
    hide RoundOn;
    var t := RoundOn(serve, s, src, count, blockSize);
    if n > 0 && t.Replied? {
      var more := FirstRounds(serve, t.state, t.rest, count, blockSize, n - 1).replies;
      assert sent + ([t.reply] + more) == sent + [t.reply] + more;
    }
  }

  // The client

  /** A 64-bit error code as a C return value. */
  function CodeStatus(code: u64): Status {
    if NarrowToInt(code) == 0 then Done else Error(NarrowToInt(code))
  }

  /** What `csi_call` returns once its request is sent, and where its reader stands when it
      returns zero. */
  ghost function CallOn(src: Source, blocks: Blocks, count: nat, blockSize: nat): (Status, Source) {
    var (status, h, after) := FieldsOn(src, 3);
    if status != Done then (status, after) else
    var received := PayloadStatus(h[2], after, blocks, count, blockSize);
    if received != Done then (received, after) else (CodeStatus(h[1]), after.Drop(ExactLen(h[2])))
  }

  /** A header after which `csi_call` returns zero: its code is zero in the low 32 bits, and
      there is room for its payload and as many bytes left as are read of it. */
  ghost predicate PassesForSuccess(h: seq<u64>, left: nat, blocks: Blocks, count: nat, blockSize: nat)
    requires |h| == 3
  {
    h[1] % 0x1_0000_0000 == 0 && Room(blocks, count, blockSize, h[2]) && ExactLen(h[2]) <= left
  }

  /** `csi_call` promises zero for success only. It returns zero exactly in two cases: a whole
      header arrived that passes for success; or a failing read cut the header short, and what
      is made of it with what the buffer still held passes for success. Of these it is a
      success, with the whole reply taken and its code zero, exactly when a whole header
      arrived, its code is below 2^32 and its payload is shorter than 2^31. */
  lemma CallReturnsZeroIff(src: Source, blocks: Blocks, count: nat, blockSize: nat)
    ensures var c := CReadVlqs(src.now, 3);
            var (returned, rest) := CallOn(src, blocks, count, blockSize);
            && (c.CGot? ==>
                  (returned == Done <==> PassesForSuccess(c.value, |src.now| - c.used, blocks, count, blockSize)))
            && (c.CFail? ==> returned != Done)
            && (c.CShort? && src.endCode == 0 ==> returned != Done)
            && (c.CShort? && src.endCode != 0 ==>
                  var cut := CutShort(src.now, src.later, 3);
                  (returned == Done <==>
                     cut.CGot? && PassesForSuccess(cut.value, |src.later| - cut.used, blocks, count, blockSize)))
            && (returned == Done ==>
                  (Succeeded(src, rest) <==> c.CGot? && c.value[1] < 0x1_0000_0000 && c.value[2] < TWO_31))
  {
    hide CReadVlqs, FieldsOn, Room, CutShort;
    FieldsOnStream(src, 3);
    var c := CReadVlqs(src.now, 3);
    HeaderFirst(src.now);
    if c.CGot? {
      ExactLenIsLenIff(c.value[2]);
    } else if c.CShort? && src.endCode != 0 {
      CutFields(src, 3);
    }
  }

  /** The stream began with a whole reply of code zero, and the reader stands behind it. */
  ghost predicate Succeeded(src: Source, rest: Source) {
    var c := CReadPacket(src.now);
    c.CGot? && c.value.tag == 0 && rest == src.Drop(c.used)
  }

  lemma HeaderFirst(s: seq<byte>)
    ensures var c, p := CReadVlqs(s, 3), CReadPacket(s);
            && (p.CGot? <==> c.CGot? && c.value[2] <= |s| - c.used)
            && (p.CGot? ==> p.used == c.used + c.value[2] && p.value.tag == c.value[1])
  {
    hide CReadVlqs;
  }

  lemma NarrowedCode(code: u64)
    ensures var status := CodeStatus(code);
            if code < 0x8000_0000 then status == if code == 0 then Done else Error(code)
            else if code % 0x1_0000_0000 == 0 then status == Done
            else
              && status.Error? && -0x8000_0000 <= status.code < 0x8000_0000
              && (code - status.code) % 0x1_0000_0000 == 0
  {
  }

  /** What the call returns on a reply it has room for: its code as an int. That is the code
      itself below 2^31; else the number from -2^31 up to 2^31 that differs from the code by a
      multiple of 2^32, so that code 2^32 passes for success. */
  lemma CallOnReply(p: Packet, rest: Source, blocks: Blocks, count: nat, blockSize: nat)
    ensures var returned := CallOn(rest.(now := Wire(p) + rest.now), blocks, count, blockSize).0;
            && (!Room(blocks, count, blockSize, |p.payload|) ==> returned == Panic(53))
            && (Room(blocks, count, blockSize, |p.payload|) ==>
                  if p.tag < 0x8000_0000 then returned == if p.tag == 0 then Done else Error(p.tag)
                  else if p.tag % 0x1_0000_0000 == 0 then returned == Done
                  else
                    && returned.Error? && -0x8000_0000 <= returned.code < 0x8000_0000
                    && (p.tag - returned.code) % 0x1_0000_0000 == 0)
            && (p.tag == 0x1_0000_0000 && p.payload == [] ==> returned == Done)
  {
    hide FieldsOn, CReadPacket, Wire, MallocStep, CodeStatus, NarrowToInt, ExactLen;
    NarrowedCode(p.tag);
    Interoperation(p, rest.now);
    PacketFields(rest.(now := Wire(p) + rest.now), p, |Wire(p)|);
  }

  /** No byte of a reply arrived and the read failed. Exactly when the call returns zero, in
      terms of what the buffer still held: its first two numbers are the code and the length,
      zero if they are not whole. */
  lemma NoReplyPassesForSuccessIff(later: seq<byte>, endCode: int, blocks: Blocks, count: nat, blockSize: nat)
    requires endCode != 0
    ensures var c, first := CReadVlqs(later, 2), CReadVlq(later);
            CallOn(Source([], later, endCode), blocks, count, blockSize).0 == Done <==>
              if c.CFail? then false
              else if c.CGot? then PassesForSuccess([0] + c.value, |later| - c.used, blocks, count, blockSize)
              else first.CGot? ==> first.value % 0x1_0000_0000 == 0
  {
    hide FieldsOn, Room, CReadVlqs, CReadVlq, CallOn, PassesForSuccess, CutShort;
    NothingCut(later);
    CallReturnsZeroIff(Source([], later, endCode), blocks, count, blockSize);
    if CReadVlqs(later, 2).CShort? {
      ShortPair(later);
      var code := if CReadVlq(later).CGot? then CReadVlq(later).value else 0;
      assert [0] + [code, 0] == [0, code, 0];
      NoPayloadPasses(code, |later| - |later|, blocks, count, blockSize);
    }
  }

  lemma NoPayloadPasses(code: u64, left: nat, blocks: Blocks, count: nat, blockSize: nat)
    ensures PassesForSuccess([0, code, 0], left, blocks, count, blockSize) <==> code % 0x1_0000_0000 == 0
  {
  }

  /** With nothing but zeros left to deliver, however few, the call returns zero. */
  lemma OnlyZerosPassForSuccess(src: Source, blocks: Blocks, count: nat, blockSize: nat)
    requires OnlyZeros(src)
    ensures CallOn(src, blocks, count, blockSize).0 == Done
  {
    hide FieldsOn, Room, PayloadStatus;
    ZerosAreRead(src, 3);
    assert Zeros(3) == [0, 0, 0];
    EmptyPayload(FieldsOn(src, 3).2, blocks, count, blockSize);
  }

  lemma EmptyPayload(src: Source, blocks: Blocks, count: nat, blockSize: nat)
    ensures PayloadStatus(0, src, blocks, count, blockSize) == Done
  {
  }

  /** `csi_call`, with a zeroed response. Either the whole request is sent, and the call
      receives; or the server is gone and the wire ends inside the request. */
  method Call(reader: CBufReader, writer: CBufWriter, alloc: FixedAllocator, request: Packet)
    returns (status: Status, response: CPacket, ghost sent: bool)
    requires reader.Valid() && writer.Valid() && alloc.Valid() && Separate(reader, writer, alloc)
    requires Flushed(writer) && ShiftDefined(alloc.blocks, alloc.blockCount)
    modifies reader, reader.raw, reader.buf, writer, writer.raw, writer.buf, alloc, alloc.buf
    ensures reader.Valid() && writer.Valid() && alloc.Valid() && Flushed(writer)
    ensures Fewer(writer.Takes(), old(writer.Takes()))
    ensures Sending(if sent then Done else writer.Closed(), request, old(writer.Takes()), old(writer.raw.Accepted()),
                    writer.raw.Accepted(), writer.buf.Length)
    ensures !sent ==> status == writer.Closed() && writer.Takes() == Some(0)
    ensures sent ==>
              var (returned, rest) := CallOn(old(reader.Src()), old(alloc.blocks), alloc.blockCount, alloc.BlockSize());
              status == returned && (status == Done ==> reader.Src() == rest)
    ensures sent ==>
              match CReadPacket(old(reader.Src()).now)
              case CGot(p, n) =>
                Room(old(alloc.blocks), alloc.blockCount, alloc.BlockSize(), |p.payload|) && |p.payload| < TWO_31 ==>
                  && response.PointsInto(alloc.buf[..]) && response.In(alloc.buf[..]) == p
                  && status == CodeStatus(p.tag) && reader.Src() == old(reader.Src()).Drop(n)
              case _ => true
  {
    hide FieldsOn, CReadPacket, PayloadReceived, PayloadStatus, Room, Wire, Flatten, NoEmptyChunk, AfterFills;
    hide MallocStep, Represents, FixedAllocator.BlockSize, CPacket.In, CPacket.PointsInto, CBufReader.Src;
    response := CPacket(0, 0, 0, None);
    ghost var takes, wire, before := writer.Takes(), writer.raw.Accepted(), writer.Written();
    FitsIs(Wire(request), writer.filledLen, writer);
    FitsIs(Encodings(Fields(request)), writer.filledLen, writer);
    assert takes != Some(0) ==> before == wire;
    status := SendPacket(writer, request);
    sent := status == Done;
    SendingIs(status, request, takes, wire, before, writer.raw.Accepted(), writer.buf.Length);
    if status != Done {
      return;
    }
    ghost var src, blocks, mem := reader.Src(), alloc.blocks, alloc.buf[..];
    ghost var count, blockSize := alloc.blockCount, alloc.BlockSize();
    ghost var (status', h, after) := FieldsOn(src, 3);
    status, response := ReceivePacket(reader, alloc);
    if CReadPacket(src.now).CGot? {
      var p := CReadPacket(src.now).value;
      PacketFields(src, p, CReadPacket(src.now).used);
      ReceivedIsPacket(p, after, blocks, count, blockSize, mem,
                       status, response, reader.Src(), alloc.blocks, alloc.buf[..]);
    }
    if status' == Done {
      ReceivedStatus(h, after, blocks, count, blockSize, mem,
                     status, response, reader.Src(), alloc.blocks, alloc.buf[..]);
    }
    if status != Done {
      return;
    }
    var err := NarrowToInt(response.tag);
    status := if err == 0 then Done else Error(err);
  }
}
