/** Sending and receiving packets in the C library. A payload that was received lies in a
    block of the payload allocator. */
module CPackets {
  import opened Words
  import opened Errors
  import opened Vlq
  import opened Frames
  import opened NativePipe
  import opened CBuffers
  import opened CCodec
  import opened Allocator

  /** A received packet: its payload is a pointer into the payload buffer, or NULL. */
  datatype CPacket = CPacket(version: u64, tag: u64, payloadLen: u64, payload: Option<nat>) {
    /** The packet's meaning, with the bytes its pointer points to. */
    ghost function In(mem: seq<byte>): Packet
      requires payload.Some? ==> payload.value + payloadLen <= |mem|
    {
      Packet(version, tag, match payload case None => [] case Some(p) => mem[p..p + payloadLen])
    }

    /** A pointer to room for the payload, which is NULL for an empty one. */
    ghost predicate PointsInto(mem: seq<byte>) {
      && (payload.Some? ==> payload.value + payloadLen <= |mem|)
      && (payload == None <==> payloadLen == 0)
    }
  }

  /** `csi_send_request` and `csi_send_response`. The packet is several pipe writes, so a peer
      that leaves may have taken only part of it. If it is sent, its bytes follow everything
      written before, and nothing stays in the buffer; else the peer is gone and the wire ends
      inside it. If the buffer has room for the header it is one chunk, or two when the payload
      makes no room; so exactly a peer that takes only one of two leaves the wire with the
      header alone. */
  method SendPacket(writer: CBufWriter, p: Packet) returns (status: Status)
    requires writer.Valid()
    modifies writer, writer.raw, writer.buf
    ensures writer.Valid() && Fewer(writer.Takes(), old(writer.Takes()))
    ensures SentAs(status, p, old(writer.raw.Accepted()), old(writer.Written()), writer.raw.Accepted())
    ensures if status == Done then writer.filledLen == 0 else status == writer.Closed() && writer.Takes() == Some(0)
    ensures Fits(Encodings(Fields(p)), old(writer.filledLen), writer) ==>
              InChunks(if Fits(Wire(p), old(writer.filledLen), writer) then 1 else 2, old(writer.Takes()), status, p,
                       old(writer.raw.Accepted()), old(writer.Written()), writer.raw.Accepted())
    ensures old(writer.Takes()) == Some(0) ==> status != Done && writer.raw.Accepted() == old(writer.raw.Accepted())
  {
    hide SentAs, Encodings, Flatten, NoEmptyChunk;
    ghost var wire, before, h := writer.raw.Accepted(), writer.Written(), Encodings(Fields(p));
    status := WriteFields(writer, p);
    if status != Done {
      CutInHeader(p, wire, before, writer.raw.Accepted(), writer.Written(), status);
      return;
    }
    Associate(before, h, p.payload);
    if |p.payload| > 0 {
      var writtenLen;
      status, writtenLen := writer.Write(p.payload);
      if status != Done {
        CutBeforePayload(p, wire, before, writer.raw.Accepted(), writer.Written(), status);
        return;
      }
    }
    assert writer.Written() == before + Wire(p) by {
      assert p.payload == [] ==> h + p.payload == h;
    }
    status := writer.Flush();
    CutBeforeFlush(p, wire, before, writer.raw.Accepted(), writer.Written(), status);
  }

  /** The buffer has room for these bytes behind those it holds. */
  ghost predicate Fits(data: seq<byte>, filledLen: nat, writer: CBufWriter) {
    filledLen + |data| <= writer.buf.Length
  }

  /** What sending a packet does to the wire, on which `before` includes the bytes that waited
      in the buffer: all of the packet follows them, or the wire ends inside it. */
  ghost predicate SentAs(status: Status, p: Packet, wire: seq<byte>, before: seq<byte>, wire': seq<byte>) {
    && wire <= wire'
    && if status == Done then wire' == before + Wire(p) else wire' < before + Wire(p)
  }

  /** The same for a packet that is so many chunks, one or two, the first of two ending with the
      header, and a peer that takes so many. */
  ghost predicate InChunks(
    chunks: nat, takes: Option<nat>, status: Status, p: Packet, wire: seq<byte>, before: seq<byte>, wire': seq<byte>)
  {
    if takes == None || takes.value >= chunks then status == Done
    else status != Done && wire' == if takes.value == 0 then wire else before + Encodings(Fields(p))
  }

  lemma CutInHeader(p: Packet, wire: seq<byte>, before: seq<byte>, wire': seq<byte>, written: seq<byte>, status: Status)
    requires status != Done && wire <= wire' <= written < before + Encodings(Fields(p))
    ensures SentAs(status, p, wire, before, wire')
  {
    hide Encodings;
    Associate(before, Encodings(Fields(p)), p.payload);
  }

  lemma CutBeforePayload(
    p: Packet, wire: seq<byte>, before: seq<byte>, wire': seq<byte>, written: seq<byte>, status: Status)
    requires status != Done && wire <= wire' <= written == before + Encodings(Fields(p)) && p.payload != []
    ensures SentAs(status, p, wire, before, wire')
  {
    hide Encodings;
    Associate(before, Encodings(Fields(p)), p.payload);
  }

  lemma CutBeforeFlush(
    p: Packet, wire: seq<byte>, before: seq<byte>, wire': seq<byte>, written: seq<byte>, status: Status)
    requires wire <= wire' <= written == before + Wire(p) && (status == Done <==> wire' == written)
    ensures SentAs(status, p, wire, before, wire')
  {
  }

  /** The three header writes. */
  method WriteFields(writer: CBufWriter, p: Packet) returns (status: Status)
    requires writer.Valid()
    modifies writer, writer.raw, writer.buf
    ensures writer.Valid() && Fewer(writer.Takes(), old(writer.Takes()))
    ensures status == Done ==> writer.Written() == old(writer.Written()) + Encodings(Fields(p))
    ensures status != Done ==>
              && status == writer.Closed() && writer.Takes() == Some(0)
              && writer.Written() < old(writer.Written()) + Encodings(Fields(p))
    ensures Fits(Encodings(Fields(p)), old(writer.filledLen), writer) ==>
              && status == Done && writer.filledLen == old(writer.filledLen) + |Encodings(Fields(p))|
              && writer.raw.Accepted() == old(writer.raw.Accepted()) && writer.Takes() == old(writer.Takes())
    ensures old(writer.raw.Accepted()) <= writer.raw.Accepted()
    ensures old(writer.Takes()) == Some(0) ==> writer.raw.Accepted() == old(writer.raw.Accepted())
  {
    hide Encoding, Encodings, Fits, Flatten, NoEmptyChunk, CBufWriter.Valid, CBufWriter.Written, CBufWriter.Takes;
    ghost var before := writer.Written();
    ThreeEncodings(before, p);
    HeaderParts(before, Encoding(p.version), Encoding(p.tag), Encoding(|p.payload|), Encodings(Fields(p)));
    FitsIs(Encodings(Fields(p)), writer.filledLen, writer);
    status := WriteVlq(writer, p.version);
    if status != Done {
      return;
    }
    status := WriteVlq(writer, p.tag);
    if status != Done {
      return;
    }
    status := WriteVlq(writer, |p.payload|);
  }

  lemma FitsIs(data: seq<byte>, filledLen: nat, writer: CBufWriter)
    ensures Fits(data, filledLen, writer) <==> filledLen + |data| <= writer.buf.Length
  {
  }

  lemma HeaderParts(before: seq<byte>, a: seq<byte>, b: seq<byte>, c: seq<byte>, h: seq<byte>)
    requires before + h == before + a + b + c && a != [] && b != [] && c != []
    ensures |h| == |a| + |b| + |c|
    ensures before < before + h && before + a < before + h && before + a + b < before + h
  {
  }

  /** The three header reads, into zeroed fields. */
  method ReceiveFields(reader: CBufReader) returns (status: Status, h: seq<u64>)
    requires reader.Valid()
    modifies reader, reader.raw, reader.buf
    ensures reader.Valid() && (status == Done ==> |h| == 3)
    ensures var (status', h', src') := FieldsOn(old(reader.Src()), 3);
            status == status' && (status == Done ==> h == h' && reader.Src() == src')
  {
    hide FieldsOn, VlqOn, Flatten, NoEmptyChunk, AfterFills, CBufReader.Src;
    h := [];
    ghost var src0 := reader.Src();
    var version;
    status, version := ReadVlqFrom(reader, 0);
    ghost var src1 := reader.Src();
    OneField(src0, 2);
    if status != Done {
      return;
    }
    var tag;
    status, tag := ReadVlqFrom(reader, 0);
    ghost var src2 := reader.Src();
    OneField(src1, 1);
    if status != Done {
      return;
    }
    var payloadLen;
    status, payloadLen := ReadVlqFrom(reader, 0);
    OneField(src2, 0);
    if status != Done {
      return;
    }
    NoField(reader.Src());
    return Done, [version] + ([tag] + ([payloadLen] + []));
  }

  /** What is left to receive once the three numbers are known: the source after them, the
      memory before and after, and the outcome. */
  ghost predicate PayloadReceived(
    h: seq<u64>, src: Source, blocks: Blocks, count: nat, blockSize: nat, mem: seq<byte>,
    status: Status, p: CPacket, src': Source, blocks': Blocks, mem': seq<byte>)
    requires |h| == 3
  {
    var (after, index) := MallocStep(blocks, count, blockSize, h[2]);
    if h[2] == 0 then
      status == Done && p == CPacket(h[0], h[1], 0, None) && src' == src && blocks' == blocks && mem' == mem
    else
      && blocks' == after
      && match index
         case None => status == Panic(CSI_ERROR_MALLOC)
         case Some(i) =>
           && p == CPacket(h[0], h[1], h[2], Some(i * blockSize)) && i * blockSize + h[2] <= |mem|
           && ReadWhole(src, ExactLen(h[2]), mem, i * blockSize, status, src', mem')
  }

  /** `csi_receive_request` and `csi_receive_response` into a zeroed packet, on every source:
      the payload goes to the lowest free block, if there is one and it is large enough; else
      the library panics, before it reads any of the payload. */
  method ReceivePacket(reader: CBufReader, alloc: FixedAllocator) returns (status: Status, p: CPacket)
    requires reader.Valid() && alloc.Valid() && reader.buf != alloc.buf && ShiftDefined(alloc.blocks, alloc.blockCount)
    modifies reader, reader.raw, reader.buf, alloc, alloc.buf
    ensures reader.Valid() && alloc.Valid()
    ensures var (status', h, src) := FieldsOn(old(reader.Src()), 3);
            if status' != Done then status == status' && alloc.blocks == old(alloc.blocks)
            else PayloadReceived(h, src, old(alloc.blocks), alloc.blockCount, alloc.BlockSize(), old(alloc.buf[..]),
                                 status, p, reader.Src(), alloc.blocks, alloc.buf[..])
  {
    hide FieldsOn, PayloadReceived, MallocStep, ReadWhole, Overwrite, Flatten, NoEmptyChunk, AfterFills, Represents;
    hide CBufReader.Src;
    p := CPacket(0, 0, 0, None);
    ghost var blocks, mem := alloc.blocks, alloc.buf[..];
    var h;
    status, h := ReceiveFields(reader);
    if status != Done {
      return;
    }
    ghost var src := reader.Src();
    ghost var count, blockSize := alloc.blockCount, alloc.BlockSize();
    p := CPacket(h[0], h[1], h[2], None);
    if h[2] == 0 {
      NoPayload(h, src, blocks, count, blockSize, mem);
      return;
    }
    MallocFits(blocks, count, blockSize, h[2]);
    var ptr := alloc.Malloc(h[2]);
    p := CPacket(h[0], h[1], h[2], ptr);
    if ptr == None {
      status := Panic(CSI_ERROR_MALLOC);
    } else {
      status := ReadExact(reader, alloc.buf, ptr.value, h[2]);
    }
    WithPayload(h, src, blocks, count, blockSize, mem, status, p, reader.Src(), alloc.buf[..]);
  }

  lemma NoPayload(h: seq<u64>, src: Source, blocks: Blocks, count: nat, blockSize: nat, mem: seq<byte>)
    requires |h| == 3 && h[2] == 0
    ensures PayloadReceived(h, src, blocks, count, blockSize, mem, Done, CPacket(h[0], h[1], 0, None), src, blocks, mem)
  {
    hide MallocStep;
  }

  lemma WithPayload(
    h: seq<u64>, src: Source, blocks: Blocks, count: nat, blockSize: nat, mem: seq<byte>, status: Status, p: CPacket,
    src': Source, mem': seq<byte>)
    requires |h| == 3 && h[2] > 0
    requires match MallocStep(blocks, count, blockSize, h[2]).1
             case None => status == Panic(CSI_ERROR_MALLOC)
             case Some(i) =>
               && p == CPacket(h[0], h[1], h[2], Some(i * blockSize)) && i * blockSize + h[2] <= |mem|
               && ReadWhole(src, ExactLen(h[2]), mem, i * blockSize, status, src', mem')
    ensures var after := MallocStep(blocks, count, blockSize, h[2]).0;
            PayloadReceived(h, src, blocks, count, blockSize, mem, status, p, src', after, mem')
  {
    hide MallocStep, ReadWhole;
  }

  lemma MallocFits(b: Blocks, count: nat, blockSize: nat, size: nat)
    ensures MallocStep(b, count, blockSize, size).1.Some? ==> size <= blockSize
  {
  }

  /** The memory once a request of some length was received into an empty one. */
  ghost function Requested(requestLen: nat): Blocks {
    if requestLen == 0 then NO_BLOCKS else Blocks({0}, {})
  }

  /** From an empty memory a payload gets block 0 if it fits. */
  lemma RequestBlock(count: nat, blockSize: nat, requestLen: nat)
    requires count >= 1
    ensures MallocStep(NO_BLOCKS, count, blockSize, requestLen) ==
            if requestLen > blockSize then (Blocks({}, {0}), None) else (Blocks({0}, {}), Some(0))
  {
    assert FirstFree({}, 0, count) == 0;
    var none: set<nat> := {};
    assert none + none == none && none + {0} == {0};
  }

  /** With at most one block in use every shift is defined. */
  lemma RequestedShift(requestLen: nat, count: nat)
    ensures ShiftDefined(Requested(requestLen), count)
  {
    if count > 1 {
      assert 1 !in Requested(requestLen).live + Requested(requestLen).spent;
    }
  }

  /** There is a block for a payload, if it needs one. */
  ghost predicate Room(blocks: Blocks, count: nat, blockSize: nat, size: nat) {
    size == 0 || MallocStep(blocks, count, blockSize, size).1.Some?
  }

  /** What receiving a payload of some length returns. */
  ghost function PayloadStatus(len: u64, src: Source, blocks: Blocks, count: nat, blockSize: nat): Status {
    if !Room(blocks, count, blockSize, len) then Panic(CSI_ERROR_MALLOC)
    else if ExactLen(len) > |src.now| then src.EndStatus()
    else Done
  }

  /** The header of a whole packet, as the three reads see it. */
  lemma PacketFields(src: Source, p: Packet, used: nat)
    requires CReadPacket(src.now) == CGot(p, used)
    ensures |p.payload| <= used <= |src.now|
    ensures var after := src.Drop(used - |p.payload|);
            && FieldsOn(src, 3) == (Done, Fields(p), after)
            && p.payload <= after.now && after.Drop(|p.payload|) == src.Drop(used)
  {
    hide CReadVlqs, FieldsOn;
    FieldsOnStream(src, 3);
    var h, n := CReadVlqs(src.now, 3).value, CReadVlqs(src.now, 3).used;
    assert Fields(p) == h;
    DropMore(src, n, h[2]);
    assert src.now[n..][..h[2]] == p.payload;
  }

  /** What is received behind a packet's header, from a source that goes on with its payload,
      is the packet, if there was room and the payload is shorter than 2^31 bytes. */
  lemma ReceivedIsPacket(
    whole: Packet, src: Source, blocks: Blocks, count: nat, blockSize: nat, mem: seq<byte>,
    status: Status, p: CPacket, src': Source, blocks': Blocks, mem': seq<byte>)
    requires whole.payload <= src.now
    requires PayloadReceived(Fields(whole), src, blocks, count, blockSize, mem, status, p, src', blocks', mem')
    ensures !Room(blocks, count, blockSize, |whole.payload|) ==> status == Panic(CSI_ERROR_MALLOC)
    ensures Room(blocks, count, blockSize, |whole.payload|) ==> status == Done && p.tag == whole.tag
    ensures Room(blocks, count, blockSize, |whole.payload|) && |whole.payload| < TWO_31 ==>
              p.PointsInto(mem') && p.In(mem') == whole && src' == src.Drop(|whole.payload|)
  {
    hide MallocStep, Overwrite, NarrowToInt;
    ExactLenIsLenIff(|whole.payload|);
    assert src.now[..|whole.payload|] == whole.payload;
    if p.payload.Some? && p.payload.value + |whole.payload| <= |mem| {
      OverwrittenPart(mem, p.payload.value, whole.payload);
    }
  }

  /** The status a received packet comes with, and where the reader stands behind it. */
  lemma ReceivedStatus(
    h: seq<u64>, src: Source, blocks: Blocks, count: nat, blockSize: nat, mem: seq<byte>,
    status: Status, p: CPacket, src': Source, blocks': Blocks, mem': seq<byte>)
    requires |h| == 3 && PayloadReceived(h, src, blocks, count, blockSize, mem, status, p, src', blocks', mem')
    ensures status == PayloadStatus(h[2], src, blocks, count, blockSize)
    ensures status == Done ==> p.version == h[0] && p.tag == h[1] && p.payloadLen == h[2]
    ensures status == Done ==> ExactLen(h[2]) <= |src.now| && src' == src.Drop(ExactLen(h[2]))
  {
    hide MallocStep, Overwrite;
  }
}
