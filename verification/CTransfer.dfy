/** A packet from one C process to another: written through one buffer, cut into chunks in
    any way, read through another buffer. */
module CTransfer {
  import opened Words
  import opened Errors
  import opened Frames
  import opened NativePipe
  import opened CBuffers
  import opened CCodec
  import opened Allocator
  import opened CPackets

  /** A way of cutting a stream into chunks. */
  ghost predicate Cuts(chop: seq<byte> -> seq<Chunk>) {
    forall s :: Flatten(chop(s)) == s && NoEmptyChunk(chop(s))
  }

  datatype WriteOp = WriteBytes(data: seq<byte>) | FlushAll

  /** The bytes of the writes in a run, in order. */
  function Bytes(ops: seq<WriteOp>): seq<byte>
    decreases |ops|
  {
    if ops == [] then [] else
    Bytes(ops[..|ops| - 1]) + BytesOf(ops[|ops| - 1])
  }

  function BytesOf(op: WriteOp): seq<byte> {
    match op
    case WriteBytes(data) => data
    case FlushAll => []
  }

  /** Over any run of writes and flushes up to the first that fails, the bytes on the wire and
      then those in the buffer are all the bytes written, in order; what is on the wire stays;
      after a flush everything is on it. Only a peer that leaves makes one fail. */
  method RunWrites(writer: CBufWriter, ops: seq<WriteOp>) returns (done: nat)
    requires writer.Valid()
    modifies writer, writer.raw, writer.buf
    ensures writer.Valid() && done <= |ops| && writer.Written() == old(writer.Written()) + Bytes(ops[..done])
    ensures old(writer.raw.Accepted()) <= writer.raw.Accepted()
    ensures done < |ops| ==> writer.Takes() == Some(0) && old(writer.Takes()) != None
    ensures done == |ops| > 0 && ops[|ops| - 1].FlushAll? ==> writer.raw.Accepted() == writer.Written()
  {
    ghost var before, takes := writer.Written(), writer.Takes();
    done := 0;
    while done < |ops|
      invariant writer.Valid() && done <= |ops| && Fewer(writer.Takes(), takes)
      invariant writer.Written() == before + Bytes(ops[..done])
      invariant old(writer.raw.Accepted()) <= writer.raw.Accepted()
      invariant done > 0 && ops[done - 1].FlushAll? ==> writer.filledLen == 0
      decreases |ops| - done
    {
      hide Flatten, NoEmptyChunk, CBufWriter.Valid, CBufWriter.Written, CBufWriter.Takes, Bytes, BytesOf;
      BytesOfOneMore(before, ops, done);
      var status := RunWrite(writer, ops[done]);
      if status != Done {
        return;
      }
      done := done + 1;
    }
    assert ops[..|ops|] == ops;
  }

  lemma BytesOfOneMore(before: seq<byte>, ops: seq<WriteOp>, n: nat)
    requires n < |ops|
    ensures before + Bytes(ops[..n]) + BytesOf(ops[n]) == before + Bytes(ops[..n + 1])
    ensures before + Bytes(ops[..n]) + [] == before + Bytes(ops[..n])
  {
    assert ops[..n + 1][..n] == ops[..n];
    Associate(before, Bytes(ops[..n]), BytesOf(ops[n]));
  }

  method RunWrite(writer: CBufWriter, op: WriteOp) returns (status: Status)
    requires writer.Valid()
    modifies writer, writer.raw, writer.buf
    ensures writer.Valid() && Fewer(writer.Takes(), old(writer.Takes()))
    ensures writer.Written() == old(writer.Written()) + if status == Done then BytesOf(op) else []
    ensures old(writer.raw.Accepted()) <= writer.raw.Accepted()
    ensures status != Done ==> writer.Takes() == Some(0)
    ensures status == Done && op.FlushAll? ==> writer.filledLen == 0
  {
    hide Flatten, NoEmptyChunk;
    match op
    case WriteBytes(data) =>
      var writtenLen;
      status, writtenLen := writer.Write(data);
    case FlushAll =>
      status := writer.Flush();
  }

  /** End to end: whatever the two buffer sizes, however the pipe cuts the stream and however
      its reads end, the receiver gets the packet that was sent, in a block of its own, and
      its reader stands at the first byte after it. */
  method Transfer(
    p: Packet, writerLen: nat, readerLen: nat, endCode: int, chop: seq<byte> -> seq<Chunk>, rest: seq<byte>,
    alloc: FixedAllocator)
    returns (status: Status, got: CPacket, ghost left: seq<byte>)
    requires readerLen >= 1 && Cuts(chop)
    requires alloc.Valid() && alloc.blocks == NO_BLOCKS && |p.payload| <= alloc.BlockSize() && |p.payload| < TWO_31
    modifies alloc, alloc.buf
    ensures alloc.Valid()
    ensures status == Done && got.PointsInto(alloc.buf[..]) && got.In(alloc.buf[..]) == p
    ensures left == rest
  {
    hide FieldsOn, CReadPacket, PayloadReceived, Wire, Flatten, NoEmptyChunk, AfterFills, MallocStep, Represents;
    hide FixedAllocator.BlockSize, FirstFree;
    var writePipe := new Pipe.WriteEnd(None);
    EmptyPipe();
    var writer := new CBufWriter(writePipe, writerLen, 0);
    status := SendPacket(writer, p);
    ghost var wire := Wire(p);
    assert writePipe.Accepted() == [] + [] + wire == wire;
    var readPipe := new Pipe.ReadEnd(chop(Flatten(writePipe.tx.value.accepted) + rest));
    var reader := new CBufReader(readPipe, readerLen, endCode);
    ghost var src := reader.Src();
    assert src.now == wire + rest;
    Interoperation(p, rest);
    PacketFields(src, p, |wire|);
    SplitAfter(wire, rest);
    ghost var count, blockSize := alloc.blockCount, alloc.BlockSize();
    RequestBlock(count, blockSize, |p.payload|);
    RequestedShift(0, count);
    ghost var mem := alloc.buf[..];
    status, got := ReceivePacket(reader, alloc);
    left := reader.Stream();
    ReceivedIsPacket(p, FieldsOn(src, 3).2, NO_BLOCKS, count, blockSize, mem,
                     status, got, reader.Src(), alloc.blocks, alloc.buf[..]);
  }

  lemma EmptyPipe()
    ensures Flatten([]) == [] && NoEmptyChunk([])
  {
  }
}
