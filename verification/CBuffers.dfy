/** Buffered reading and writing in the C library, over a pipe. */
module CBuffers {
  import opened Words
  import opened Errors
  import opened NativePipe

  /** A C function's outcome: zero, a nonzero return, a call of the panic handler, which does
      not come back, or the end of the machine under it. */
  datatype Status = Done | Error(code: int) | Panic(code: int) | Killed

  const CSI_ERROR_INTERNAL: nat := 50
  const CSI_ERROR_VLQ: nat := 52
  const CSI_ERROR_MALLOC: nat := 53
  const CSI_ERROR_READ_VLQ: nat := 56

  /** d with x written over it from index at. */
  ghost function Overwrite(d: seq<byte>, at: nat, x: seq<byte>): seq<byte>
    requires at + |x| <= |d|
  {
    d[..at] + x + d[at + |x|..]
  }

  lemma OverwrittenPart(d: seq<byte>, at: nat, x: seq<byte>)
    requires at + |x| <= |d|
    ensures |Overwrite(d, at, x)| == |d| && Overwrite(d, at, x)[at..at + |x|] == x
  {
  }

  /** `memcpy` into part of an array. */
  method CopyBytes(dst: array<byte>, at: nat, src: seq<byte>)
    requires at + |src| <= dst.Length
    modifies dst
    ensures dst[..] == Overwrite(old(dst[..]), at, src)
  {
    forall i | 0 <= i < |src| {
      dst[at + i] := src[i];
    }
  }

  /** What a buffered reader will deliver: the bytes up to the first read of the pipe that
      fails, and the bytes it takes for data after that. A reader is over a pipe whose reads
      end with zero bytes (`endCode` 0) or with a nonzero return. */
  datatype Source = Source(now: seq<byte>, later: seq<byte>, endCode: int) {
    function Drop(n: nat): (src: Source)
      requires n <= |now|
      ensures |src.now| == |now| - n && src.endCode == endCode
    {
      Source(now[n..], later, endCode)
    }

    /** What a read comes to when nothing is left: the panic over zero bytes, or the pipe's
        own error. */
    function EndStatus(): (status: Status)
      ensures status != Done
    {
      if endCode == 0 then Panic(CSI_ERROR_INTERNAL) else Error(endCode)
    }

    /** After a failed read the rest of the buffer passes for data. */
    function Failed(): Source {
      Source(later, [], endCode)
    }
  }

  /** The bytes of a native pipe. */
  function NativeSource(s: seq<byte>): Source {
    Source(s, [], 0)
  }

  /** The buffer after every fill still to come, and how much of it the last one filled. */
  ghost function AfterFills(mem: seq<byte>, filled: nat, pipeBuf: seq<byte>, incoming: seq<Chunk>)
    : (r: (seq<byte>, nat))
    requires |mem| >= 1 && filled <= |mem| && NoEmptyChunk(incoming)
    ensures |r.0| == |mem| && r.1 <= |mem|
    decreases |pipeBuf| + |Flatten(incoming)|
  {
    if pipeBuf == [] && incoming == [] then (mem, filled) else
    var (data, pipeBuf', incoming') := ReadStep(pipeBuf, incoming, |mem|);
    ReadStepKeepsBytes(pipeBuf, incoming, |mem|);
    assert |data| + (|pipeBuf'| + |Flatten(incoming')|) == |pipeBuf| + |Flatten(incoming)|;
    AfterFills(FilledWith(mem, data), |data|, pipeBuf', incoming')
  }

  function FilledWith(mem: seq<byte>, data: seq<byte>): (r: seq<byte>)
    requires |data| <= |mem|
    ensures |r| == |mem| && r[..|data|] == data
  {
    data + mem[|data|..]
  }

  lemma OverwrittenFront(mem: seq<byte>, data: seq<byte>)
    requires |data| <= |mem|
    ensures var x := Overwrite(mem, 0, data);
            x == FilledWith(mem, data) && x[..|data|] == data && x[|data|..] == mem[|data|..]
  {
  }

  lemma OneFill(mem: seq<byte>, filled: nat, pipeBuf: seq<byte>, incoming: seq<Chunk>)
    requires |mem| >= 1 && filled <= |mem| && NoEmptyChunk(incoming)
    ensures var (data, pipeBuf', incoming') := ReadStep(pipeBuf, incoming, |mem|);
            && |data| <= |mem| && NoEmptyChunk(incoming')
            && (data == [] <==> pipeBuf + Flatten(incoming) == [])
            && (data == [] ==> AfterFills(mem, filled, pipeBuf', incoming') == (mem, filled)
                               && AfterFills(mem, |mem|, pipeBuf', incoming') == (mem, |mem|))
            && (data != [] ==> AfterFills(mem, filled, pipeBuf, incoming)
                               == AfterFills(FilledWith(mem, data), |data|, pipeBuf', incoming'))
            && (data == [] ==> AfterFills(mem, filled, pipeBuf, incoming) == (mem, filled))
  {
    ReadStepKeepsBytes(pipeBuf, incoming, |mem|);
  }

  /** The two ends of the recursion: nothing more to fill, and one fill. */
  lemma NoFill(mem: seq<byte>, filled: nat)
    requires |mem| >= 1 && filled <= |mem|
    ensures NoEmptyChunk([]) && AfterFills(mem, filled, [], []) == (mem, filled)
  {
  }

  class CBufReader {
    const raw: Pipe
    const endCode: int
    const buf: array<byte>
    var pos: nat
    var filledLen: nat

    /** `new_buf_reader`. */
    constructor (raw: Pipe, maxLen: nat, endCode: int)
      ensures this.raw == raw && this.endCode == endCode && buf.Length == maxLen && fresh(buf)
      ensures pos == 0 && filledLen == 0
    {
      this.raw, this.endCode, this.buf, this.pos, this.filledLen := raw, endCode, new byte[maxLen], 0, 0;
    }

    ghost predicate Valid()
      reads this, raw
    {
      && raw.Readable() && buf.Length >= 1
      && pos <= filledLen <= buf.Length
    }

    /** Everything this reader will deliver before the pipe's end. */
    ghost function Stream(): seq<byte>
      requires Valid()
      reads this, raw, buf
    {
      buf[pos..filledLen] + raw.Unread()
    }

    /** What the buffer will hold past its data when the pipe's end is reached. */
    ghost function Stale(): seq<byte>
      requires Valid()
      reads this, raw, buf
    {
      var (mem, filled) := AfterFills(buf[..], filledLen, raw.buf, raw.rx.value.incoming);
      mem[filled..]
    }

    ghost function Src(): Source
      requires Valid()
      reads this, raw, buf
    {
      Source(Stream(), if endCode == 0 then [] else Stale(), endCode)
    }

    /** Once the pipe has nothing more, the source is what the buffer holds: its unread data,
        and, if reads fail, all that lies behind them. */
    lemma AtTheEndOfThePipe()
      requires Valid() && raw.buf == [] && raw.rx.value.incoming == []
      ensures Src().now == buf[pos..filledLen] && Src().endCode == endCode
      ensures Src().later == if endCode == 0 then [] else buf[filledLen..]
    {
      NoFill(buf[..], filledLen);
      assert buf[..][filledLen..] == buf[filledLen..];
    }

    /** The fill at the start of `buf_read`. `csi_read_pipe` stores the capacity in the
        filled length before it tries to read, so a failed read leaves it there. */
    method Fill() returns (status: Status)
      requires Valid() && pos == filledLen
      modifies this, raw, buf
      ensures Valid()
      ensures if old(Stream()) != [] then status == Done && Src() == old(Src()) && pos == 0 < filledLen
              else if endCode == 0 then status == Done && Src() == old(Src()) && pos == filledLen == 0
              else status == Error(endCode) && Src() == old(Src()).Failed()
      ensures if status == Done then buf[filledLen..] == old(buf[..])[filledLen..]
              else pos == old(pos) && filledLen == buf.Length && buf[..] == old(buf[..])
    {
      hide AfterFills, ReadStep, Overwrite, FilledWith, Flatten, NoEmptyChunk;
      ghost var mem, pipeBuf, incoming := buf[..], raw.buf, raw.rx.value.incoming;
      OneFill(mem, filledLen, pipeBuf, incoming);
      var data := raw.Read(buf.Length);
      if data == [] && endCode != 0 {
        filledLen := buf.Length;
        return Error(endCode);
      }
      CopyBytes(buf, 0, data);
      OverwrittenFront(mem, data);
      filledLen := |data|;
      pos := 0;
      assert buf[..filledLen] == data && buf[filledLen..] == buf[..][filledLen..];
      status := Done;
    }

    /** `buf_read`: between one byte and what was asked for, the next bytes of the source; at
        its end the panic or the pipe's error. */
    method Read(dst: array<byte>, at: nat, len: nat) returns (status: Status, readLen: nat)
      requires Valid() && at + len <= dst.Length && dst != buf
      modifies this, raw, buf, dst
      ensures Valid()
      ensures var src := old(Src());
              if src.now == [] then
                && status == src.EndStatus() && dst[..] == old(dst[..])
                && (src.endCode != 0 ==> Src() == src.Failed())
              else
                && status == Done && readLen <= len && (len > 0 ==> readLen > 0)
                && pos >= readLen && (readLen == len || pos == filledLen)
                && readLen <= |src.now| && Src() == src.Drop(readLen)
                && dst[..] == Overwrite(old(dst[..]), at, src.now[..readLen])
    {
      hide Flatten, NoEmptyChunk, Overwrite, AfterFills, ReadStep, FilledWith, CBufReader.Stale;
      readLen := 0;
      if pos == filledLen {
        status := Fill();
        if status != Done {
          return;
        }
      }
      if pos >= filledLen || filledLen > buf.Length {
        return Panic(CSI_ERROR_INTERNAL), 0;
      }
      readLen := Take(dst, at, len);
      status := Done;
    }

    /** The end of `buf_read`: hand out what the buffer holds, as far as it was asked for. */
    method Take(dst: array<byte>, at: nat, len: nat) returns (readLen: nat)
      requires Valid() && at + len <= dst.Length && dst != buf && pos < filledLen
      modifies this`pos, dst
      ensures Valid() && readLen <= len && (len > 0 ==> readLen > 0)
      ensures pos >= readLen && (readLen == len || pos == filledLen)
      ensures var src := old(Src());
              && src.now != [] && readLen <= |src.now| && Src() == src.Drop(readLen)
              && dst[..] == Overwrite(old(dst[..]), at, src.now[..readLen])
    {
      hide Flatten, NoEmptyChunk, Overwrite, AfterFills, ReadStep;
      ghost var s, stale := Stream(), Stale();
      var remainingLen := filledLen - pos;
      readLen := if len > remainingLen then remainingLen else len;
      DeliveredPart(buf[..], pos, filledLen, raw.Unread(), readLen);
      CopyBytes(dst, at, buf[pos..pos + readLen]);
      pos := pos + readLen;
      assert Stream() == s[readLen..] && Stale() == stale;
    }
  }

  /** A buffered writer, over a pipe whose writes to a closed peer return `closedCode` or, if
      that is zero, end the machine, as those of the native pipe do. */
  class CBufWriter {
    const raw: Pipe
    const closedCode: int
    const buf: array<byte>
    var filledLen: nat

    /** `new_buf_writer`. */
    constructor (raw: Pipe, maxLen: nat, closedCode: int)
      ensures this.raw == raw && this.closedCode == closedCode
      ensures buf.Length == maxLen && fresh(buf) && filledLen == 0
    {
      this.raw, this.closedCode, this.buf, this.filledLen := raw, closedCode, new byte[maxLen], 0;
    }

    /** What a write comes to with the peer gone. */
    function Closed(): (status: Status)
      ensures status != Done && (status == Killed <==> closedCode == 0)
      ensures status.Error? ==> status.code == closedCode
      ensures status.Error? || status.Killed?
    {
      if closedCode == 0 then Killed else Error(closedCode)
    }

    ghost predicate Valid()
      reads this, raw
    {
      raw.Writable() && filledLen <= buf.Length
    }

    /** How many more chunks the peer will take. */
    ghost function Takes(): Option<nat>
      requires Valid()
      reads this, raw
    {
      raw.tx.value.takes
    }

    /** The bytes on the wire, then the bytes still in the buffer. */
    ghost function Written(): seq<byte>
      requires Valid()
      reads this, raw, buf
    {
      raw.Accepted() + buf[..filledLen]
    }

    /** `buf_flush`; `csi_write_pipe` passes on everything but empty writes. */
    method Flush() returns (status: Status)
      requires Valid()
      modifies this, raw
      ensures Valid() && Written() == old(Written())
      ensures Takes() == if old(filledLen) == 0 then old(Takes()) else Less(old(Takes()))
      ensures status == if old(filledLen) == 0 || old(Takes()) != Some(0) then Done else Closed()
      ensures filledLen == if status == Done then 0 else old(filledLen)
      ensures raw.Accepted() == if status == Done then old(Written()) else old(raw.Accepted())
    {
      assert buf[..0] == [];
      var r := raw.Write(buf[..filledLen]);
      if r.Failure? {
        return Closed();
      }
      assert r.value == filledLen; // the source checks it: a short write would be an error
      filledLen := 0;
      status := Done;
    }

    /** `buf_write`: data that would not fit makes room by a flush; data longer than the
        buffer goes straight to the pipe. Either all of it is added to what was written, or
        none of it, the peer being gone; then the wire is as it was, or has what the flush
        put on it. Data that fits leaves the wire alone. */
    method Write(data: seq<byte>) returns (status: Status, writtenLen: nat)
      requires Valid()
      modifies this, raw, buf
      ensures Valid()
      ensures status == Done ==> writtenLen == |data| && Written() == old(Written()) + data
      ensures status == Done ==>
                filledLen == if old(filledLen) + |data| <= buf.Length then old(filledLen) + |data|
                             else if |data| > buf.Length then 0 else |data|
      ensures status != Done ==> status == Closed() && Written() == old(Written()) && Takes() == Some(0)
      ensures var flushes := old(filledLen) > 0 && old(filledLen) + |data| > buf.Length;
              var takes := if flushes then Less(old(Takes())) else old(Takes());
              && Takes() == (if |data| > buf.Length then Less(takes) else takes)
              && (status == Done <==>
                    (flushes ==> old(Takes()) != Some(0)) && (|data| > buf.Length ==> takes != Some(0)))
      ensures raw.Accepted() == if old(filledLen) + |data| <= buf.Length || old(Takes()) == Some(0) then
                                  old(raw.Accepted())
                                else if |data| > buf.Length && status == Done then Written() else old(Written())
    {
      hide Overwrite, Flatten, NoEmptyChunk;
      writtenLen := 0;
      if filledLen + |data| > buf.Length {
        status := Flush();
        if status != Done {
          return;
        }
      }
      if |data| > buf.Length {
        var r := raw.Write(data);
        if r.Failure? {
          return Closed(), 0;
        }
        assert buf[..filledLen] == [];
        return Done, |data|;
      }
      ghost var before := buf[..];
      CopyBytes(buf, filledLen, data);
      AppendedPart(before, filledLen, data);
      filledLen := filledLen + |data|;
      assert buf[..filledLen] == buf[..][..filledLen];
      return Done, |data|;
    }
  }

  lemma AppendedPart(d: seq<byte>, n: nat, x: seq<byte>)
    requires n + |x| <= |d|
    ensures |Overwrite(d, n, x)| == |d| && Overwrite(d, n, x)[..n + |x|] == d[..n] + x
  {
  }

  lemma DeliveredPart(buf: seq<byte>, pos: nat, filled: nat, unread: seq<byte>, n: nat)
    requires pos + n <= filled <= |buf|
    ensures (buf[pos..filled] + unread)[..n] == buf[pos..pos + n]
    ensures (buf[pos..filled] + unread)[n..] == buf[pos + n..filled] + unread
  {
  }

  /** A 64-bit number assigned to C's int. */
  function NarrowToInt(e: u64): int {
    var low := e % 0x1_0000_0000;
    if low < TWO_31 then low else low - 0x1_0000_0000
  }

  /** How many bytes `csi_read_exact` reads for a length it counts down in an int. */
  function ExactLen(len: u64): (n: nat)
    ensures n <= len
  {
    if NarrowToInt(len) > 0 then NarrowToInt(len) else 0
  }

  /** What is read is the length's low 32 bits, or nothing if they are 2^31 or more; so it is
      the length asked for exactly below 2^31, and of 2^31 bytes nothing. */
  lemma ExactLenIsLenIff(len: u64)
    ensures ExactLen(len) == if len % 0x1_0000_0000 < 0x8000_0000 then len % 0x1_0000_0000 else 0
    ensures ExactLen(len) == len <==> len < TWO_31
    ensures ExactLen(TWO_31) == 0
  {
  }

  /** What reading exactly n bytes into an array comes to. */
  ghost predicate ReadWhole(src: Source, n: nat, d: seq<byte>, at: nat, status: Status, src': Source, d': seq<byte>)
    requires at + n <= |d|
  {
    if |src.now| < n then
      && status == src.EndStatus() && d' == Overwrite(d, at, src.now)
      && (src.endCode != 0 ==> src' == src.Failed())
    else
      status == Done && src' == src.Drop(n) && d' == Overwrite(d, at, src.now[..n])
  }

  /** `csi_read_exact`: exactly the next bytes, however short the reads in between, or the
      status of the source's end. */
  method ReadExact(reader: CBufReader, dst: array<byte>, at: nat, len: u64) returns (status: Status)
    requires reader.Valid() && at + ExactLen(len) <= dst.Length && dst != reader.buf
    modifies reader, reader.raw, reader.buf, dst
    ensures reader.Valid()
    ensures ReadWhole(old(reader.Src()), ExactLen(len), old(dst[..]), at, status, reader.Src(), dst[..])
  {
    var remainingLen := NarrowToInt(len);
    assert ExactLen(len) == if remainingLen > 0 then remainingLen else 0;
    status := ReadLoop(reader, dst, at, if remainingLen > 0 then remainingLen else 0);
  }

  /** The loop of `csi_read_exact`. */
  method ReadLoop(reader: CBufReader, dst: array<byte>, at: nat, total: nat) returns (status: Status)
    requires reader.Valid() && at + total <= dst.Length && dst != reader.buf
    modifies reader, reader.raw, reader.buf, dst
    ensures reader.Valid()
    ensures ReadWhole(old(reader.Src()), total, old(dst[..]), at, status, reader.Src(), dst[..])
  {
    hide *;
    ghost var src, d := reader.Src(), dst[..];
    var n := 0;
    TakenNone(src, d, at);
    while n < total
      invariant reader.Valid() && n <= total
      invariant Taken(src, n, d, at, reader.Src(), dst[..])
    {
      ghost var src', d' := reader.Src(), dst[..];
      var st, readLen := reader.Read(dst, at + n, total - n);
      if st != Done {
        TakenAll(src, n, total, d, at, src', d', st, reader.Src());
        return st;
      }
      TakenMore(src, n, d, at, src', d', readLen);
      n := n + readLen;
    }
    TakenWhole(src, n, d, at, reader.Src(), dst[..]);
    status := Done;
  }

  /** n bytes of a source were read into part of an array. */
  ghost predicate Taken(src: Source, n: nat, d: seq<byte>, at: nat, src': Source, d': seq<byte>) {
    && n <= |src.now| && at + n <= |d|
    && src' == src.Drop(n) && d' == Overwrite(d, at, src.now[..n])
  }

  lemma TakenNone(src: Source, d: seq<byte>, at: nat)
    requires at <= |d|
    ensures Taken(src, 0, d, at, src, d)
  {
  }

  lemma TakenMore(src: Source, n: nat, d: seq<byte>, at: nat, src': Source, d': seq<byte>, m: nat)
    requires Taken(src, n, d, at, src', d') && m <= |src'.now| && at + n + m <= |d|
    ensures |d'| == |d| && Taken(src, n + m, d, at, src'.Drop(m), Overwrite(d', at + n, src'.now[..m]))
  {
    hide Overwrite;
    var s := src.now;
    OverwriteTwice(d, at, s[..n], s[n..][..m]);
    assert s[..n] + s[n..][..m] == s[..n + m];
    assert s[n..][m..] == s[n + m..];
  }

  lemma TakenAll(
    src: Source, n: nat, total: nat, d: seq<byte>, at: nat, src': Source, d': seq<byte>, status: Status, src'': Source)
    requires Taken(src, n, d, at, src', d') && src'.now == [] && n < total && at + total <= |d|
    requires status == src'.EndStatus() && (src'.endCode != 0 ==> src'' == src'.Failed())
    ensures ReadWhole(src, total, d, at, status, src'', d')
  {
    assert src.now[..n] == src.now;
  }

  lemma TakenWhole(src: Source, n: nat, d: seq<byte>, at: nat, src': Source, d': seq<byte>)
    requires Taken(src, n, d, at, src', d')
    ensures at + n <= |d| && ReadWhole(src, n, d, at, Done, src', d')
  {
  }

  lemma OverwriteTwice(d: seq<byte>, at: nat, x: seq<byte>, y: seq<byte>)
    requires at + |x| + |y| <= |d|
    ensures |Overwrite(d, at, x)| == |d|
    ensures Overwrite(Overwrite(d, at, x), at + |x|, y) == Overwrite(d, at, x + y)
  {
    var d' := Overwrite(d, at, x);
    assert d'[..at + |x|] == d[..at] + x;
    assert d'[at + |x| + |y|..] == d[at + |x| + |y|..];
  }
}
