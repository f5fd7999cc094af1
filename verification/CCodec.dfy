/** The C library's variable-length integers, and how they agree with the Rust ones. */
module CCodec {
  import opened Words
  import opened Errors
  import opened Vlq
  import opened Frames
  import opened NativePipe
  import opened CBuffers

  /** What a C reader makes of the front of a stream: a value, a nonzero return, or it asks
      for more than there is. */
  datatype CParse<+T> = CGot(value: T, used: nat) | CFail(code: int, used: nat) | CShort

  /** `csi_read_vlq` on a stream: it gives up on reading an eleventh byte. */
  function CReadVlq(s: seq<byte>): (r: CParse<u64>)
    ensures r.CGot? ==> 1 <= r.used <= |s|
    ensures r.CFail? ==> r.used <= |s|
  {
    var k := Continued(s);
    if k < |s| && k < MAX_VLQ_LEN then CGot(GroupSum(s[..k + 1]) % TWO_64, k + 1)
    else if |s| > MAX_VLQ_LEN then CFail(CSI_ERROR_READ_VLQ, MAX_VLQ_LEN + 1)
    else CShort
  }

  function CReadVlqs(s: seq<byte>, m: nat): (r: CParse<seq<u64>>)
    ensures r.CGot? ==> m <= r.used <= |s| && |r.value| == m
    ensures r.CFail? ==> r.used <= |s|
  {
    if m == 0 then CGot([], 0) else
    match CReadVlq(s)
    case CShort => CShort
    case CFail(c, n) => CFail(c, n)
    case CGot(v, n) =>
      match CReadVlqs(s[n..], m - 1)
      case CShort => CShort
      case CFail(c, n') => CFail(c, n + n')
      case CGot(vs, n') => CGot([v] + vs, n + n')
  }

  /** `csi_receive_request` and `csi_receive_response` on a stream, given room for the
      payload. The version keeps its 64 bits. */
  function CReadPacket(s: seq<byte>): (r: CParse<Packet>)
    ensures r.CGot? ==> 3 <= r.used <= |s|
  {
    match CReadVlqs(s, 3)
    case CShort => CShort
    case CFail(c, n) => CFail(c, n)
    case CGot(h, n) =>
      if |s| - n < h[2] then CShort
      else CGot(Packet(h[0], h[1], s[n..n + h[2]]), n + h[2])
  }

  // Agreement of the two libraries

  /** Both succeed, with the same value from the same bytes, or neither does. */
  ghost predicate Agree<T>(p: Parse<T>, c: CParse<T>) {
    && (p.Got? <==> c.CGot?)
    && (p.Got? ==> p.value == c.value && p.used == c.used)
  }

  /** On every stream both number readers succeed together, with the same value and the
      same bytes taken. When C returns an error it has taken exactly eleven bytes, the first
      ten of them continuation bytes, and Rust fails with an overflow, at the first stop
      byte or at the end of the stream. C is short exactly when the stream ends too early. */
  lemma ReadersAgree(s: seq<byte>)
    ensures Agree(ReadVlq(s), CReadVlq(s))
    ensures CReadVlq(s).CFail? <==> |s| > MAX_VLQ_LEN && AllContinue(s, MAX_VLQ_LEN)
    ensures CReadVlq(s).CFail? ==>
              && CReadVlq(s) == CFail(56, 11)
              && !ReadVlq(s).Got? && ReadVlq(s).error == DecodeVlqOverflow
              && (ReadVlq(s).Broken? ==> ReadVlq(s).used >= 11)
    ensures CReadVlq(s).CShort? <==> ReadVlq(s).Short? && |s| <= MAX_VLQ_LEN
  {
    if |s| > MAX_VLQ_LEN && AllContinue(s, MAX_VLQ_LEN) {
      ContinuedAtLeast(s, MAX_VLQ_LEN);
    }
  }

  lemma {:induction false} FieldReadersAgree(s: seq<byte>, m: nat)
    ensures Agree(ReadVlqs(s, m), CReadVlqs(s, m))
  {
    hide ReadVlq, CReadVlq;
    if m > 0 {
      ReadersAgree(s);
      if ReadVlq(s).Got? {
        FieldReadersAgree(s[ReadVlq(s).used..], m - 1);
      }
    }
  }

  /** Numbers that are cut short are too short for C. */
  lemma {:induction false} CutEncodings(vs: seq<u64>, n: nat)
    requires n < |Encodings(vs)|
    ensures CReadVlqs(Encodings(vs)[..n], |vs|) == CShort
  {
    hide CReadVlq, Encoding;
    var e, more := Encoding(vs[0]), Encodings(vs[1..]);
    var s := Encodings(vs)[..n];
    if n < |e| {
      assert s == e[..n];
      CutEncoding(vs[0], n);
    } else {
      var tail := more[..n - |e|];
      assert s == e + tail && s[|e|..] == tail;
      ReadWholeVlq(vs[0], tail);
      ReadersAgree(s);
      CutEncodings(vs[1..], n - |e|);
    }
  }

  lemma CutEncoding(v: u64, n: nat)
    requires n < |Encoding(v)|
    ensures CReadVlq(Encoding(v)[..n]) == CShort
  {
    EncodingPrefix(v, n);
    EncodingFitsTen(v);
  }

  /** Where the header is too short for C it is too short for Rust. */
  lemma {:induction false} ShortHeadersAgree(s: seq<byte>, m: nat)
    requires CReadVlqs(s, m).CShort?
    ensures ReadVlqs(s, m).Short? && ReadVlqs(s, m).error != ReadExactError
  {
    hide ReadVlq, CReadVlq;
    ReadersAgree(s);
    NumberErrors(s);
    if ReadVlq(s).Got? {
      ShortHeadersAgree(s[ReadVlq(s).used..], m - 1);
    }
  }

  lemma NumberErrors(s: seq<byte>)
    ensures ReadVlq(s).Short? ==> ReadVlq(s).error != ReadExactError
  {
  }

  /** On every stream the two libraries read packets together, from the same bytes; they
      differ only in the version, which Rust cuts to one byte. */
  lemma PacketReadersAgree(s: seq<byte>)
    ensures ReadPacket(s).Got? <==> CReadPacket(s).CGot?
    ensures CReadPacket(s).CGot? ==>
              var p := CReadPacket(s).value;
              ReadPacket(s) == Got(p.(version := p.version % 256), CReadPacket(s).used)
  {
    hide ReadVlqs, CReadVlqs;
    FieldReadersAgree(s, 3);
  }

  /** Interoperation: both libraries put the same bytes on the wire, so each reader recovers
      what the other side sent, C always and Rust exactly when the version fits a byte. */
  lemma Interoperation(p: Packet, rest: seq<byte>)
    ensures CReadPacket(Wire(p) + rest) == CGot(p, |Wire(p)|)
    ensures ReadPacket(Wire(p) + rest) == Got(p, |Wire(p)|) <==> ByteVersion(p)
  {
    hide ReadVlqs, CReadVlqs, Encodings, ReadPacket;
    var h := Encodings(Fields(p));
    Associate(h, p.payload, rest);
    ReadWholeVlqs(Fields(p), p.payload + rest);
    FieldReadersAgree(h + (p.payload + rest), 3);
    assert CReadVlqs(h + (p.payload + rest), 3) == CGot(Fields(p), |h|);
    assert (h + (p.payload + rest))[|h|..|h| + |p.payload|] == p.payload;
    PacketReadersAgree(Wire(p) + rest);
  }

  // The loops

  /** `csi_vlq_encode`. */
  method VlqEncodeInto(buffer: array<byte>, len: nat, value: u64) returns (status: Status, outLen: nat)
    requires len <= buffer.Length
    modifies buffer
    ensures status == if |Encoding(value)| <= len then Done else Error(52)
    ensures status == Done ==> outLen == |Encoding(value)| && buffer[..outLen] == Encoding(value)
  {
    hide And, Or, Shr64, Encoding;
    outLen := 0;
    var v := value;
    var written := 0;
    while true
      invariant written <= len
      invariant buffer[..written] + Encoding(v) == Encoding(value)
      decreases v
    {
      if written >= len {
        return Error(CSI_ERROR_VLQ), 0;
      }
      EncoderRound(v);
      var b: byte := And(v, 0x7F);
      var rest := Shr64(v, 7);
      if rest != 0 {
        b := Or(b, 0x80);
      }
      ghost var before := buffer[..written];
      buffer[written] := b;
      assert buffer[..written + 1] == before + [b];
      written := written + 1;
      if rest == 0 {
        break;
      }
      assert before + ([b] + Encoding(rest)) == buffer[..written] + Encoding(rest);
      v := rest;
    }
    return Done, written;
  }

  /** `csi_vlq_decode`. */
  method VlqDecodeFrom(bytes: array<byte>, len: nat) returns (status: Status, value: u64, outLen: nat)
    requires len <= bytes.Length
    ensures status == if Decoded(bytes[..len]).Success? then Done else Error(52)
    ensures status == Done ==> Decoded(bytes[..len]) == Success(value) && outLen == Continued(bytes[..len]) + 1
  {
    ghost var s := bytes[..len];
    value, outLen := 0, 0;
    var result: u64 := 0;
    var shift := 0;
    var read := 0;
    while read < len
      invariant read <= len && read < MAX_VLQ_LEN && shift == 7 * read
      invariant forall j :: 0 <= j < read ==> s[j] >= 128
      invariant result == GroupSum(s[..read])
    {
      var b := bytes[read];
      DecoderRound(s[..read], b);
      assert s[..read + 1] == s[..read] + [b];
      read := read + 1;
      result := Or(result, Shl64(And(b, 0x7F), shift));
      if And(b, 0x80) == 0 {
        ContinuedIs(s, read - 1);
        return Done, result, read;
      }
      shift := shift + 7;
      if shift >= 64 {
        ContinuedAtLeast(s, read);
        return Error(CSI_ERROR_VLQ), value, outLen;
      }
    }
    ContinuedAtLeast(s, len);
    status := Error(CSI_ERROR_VLQ);
  }

  /** `csi_write_vlq`: its ten-byte buffer is always long enough. */
  method WriteVlq(writer: CBufWriter, value: u64) returns (status: Status)
    requires writer.Valid()
    modifies writer, writer.raw, writer.buf
    ensures writer.Valid() && Fewer(writer.Takes(), old(writer.Takes()))
    ensures status == Done ==> writer.Written() == old(writer.Written()) + Encoding(value)
    ensures status != Done ==>
              status == writer.Closed() && writer.Written() == old(writer.Written()) && writer.Takes() == Some(0)
    ensures old(writer.filledLen) + |Encoding(value)| <= writer.buf.Length ==>
              && status == Done && writer.filledLen == old(writer.filledLen) + |Encoding(value)|
              && writer.raw.Accepted() == old(writer.raw.Accepted()) && writer.Takes() == old(writer.Takes())
    ensures old(writer.raw.Accepted()) <= writer.raw.Accepted()
    ensures old(writer.Takes()) == Some(0) ==> writer.raw.Accepted() == old(writer.raw.Accepted())
  {
    hide Encoding, Flatten, NoEmptyChunk, Bit;
    EncodingFitsTen(value);
    var buf := new byte[MAX_VLQ_LEN];
    var st, len := VlqEncodeInto(buf, MAX_VLQ_LEN, value);
    var writtenLen;
    status, writtenLen := writer.Write(buf[..len]);
  }

  ghost predicate AllContinue(s: seq<byte>, n: nat)
    requires n <= |s|
  {
    forall i :: 0 <= i < n ==> s[i] >= 128
  }

  // Reading numbers from a source that may fail

  /** `csi_read_vlq` into a variable that holds v0. A second `err` declared in its loop hides
      the one it returns: when the read under it fails, it returns zero and leaves the
      variable alone. */
  function VlqOn(src: Source, v0: u64): (r: (Status, u64, Source))
    ensures r.2.endCode == src.endCode
  {
    match CReadVlq(src.now)
    case CGot(v, n) => (Done, v, src.Drop(n))
    case CFail(c, n) => (Error(c), v0, src.Drop(n))
    case CShort => if src.endCode == 0 then (src.EndStatus(), v0, src) else (Done, v0, src.Failed())
  }

  /** Numbers one after the other into zeroed variables, up to the first nonzero return. */
  function FieldsOn(src: Source, m: nat): (r: (Status, seq<u64>, Source))
    ensures r.0 == Done ==> |r.1| == m
    ensures r.2.endCode == src.endCode
    ensures r.0 == Done && src.endCode == 0 ==> |r.2.now| + m <= |src.now| && r.2.later == src.later
    decreases m
  {
    if m == 0 then (Done, [], src) else
    var (status, v, src') := VlqOn(src, 0);
    if status != Done then (status, [], src') else
    var (status', vs, src'') := FieldsOn(src', m - 1);
    (status', [v] + vs, src'')
  }

  /** While the numbers are whole, a failing source reads like the stream it holds; a stream
      that ends too early is noticed only over a pipe that ends with zero bytes. */
  lemma {:induction false} FieldsOnStream(src: Source, m: nat)
    ensures var c := CReadVlqs(src.now, m);
            && (c.CGot? ==> FieldsOn(src, m) == (Done, c.value, src.Drop(c.used)))
            && (c.CFail? ==> FieldsOn(src, m).0 == Error(c.code))
            && (c.CShort? && src.endCode == 0 ==> FieldsOn(src, m).0 == Panic(50))
    decreases m
  {
    hide CReadVlq;
    if m > 0 {
      var c := CReadVlq(src.now);
      if c.CGot? {
        FieldsOnStream(src.Drop(c.used), m - 1);
      }
    }
  }

  lemma NoField(src: Source)
    ensures FieldsOn(src, 0) == (Done, [], src)
  {
  }

  lemma OneField(src: Source, m: nat)
    ensures var (status, v, src') := VlqOn(src, 0);
            && (status != Done ==> FieldsOn(src, m + 1).0 == status)
            && (status == Done ==>
                  var (status', vs, src'') := FieldsOn(src', m);
                  FieldsOn(src, m + 1) == (status', [v] + vs, src''))
  {
    hide VlqOn;
  }

  /** Nothing but zeros is left, and the pipe's reads fail. */
  ghost predicate OnlyZeros(src: Source) {
    && src.endCode != 0
    && (forall i :: 0 <= i < |src.now| ==> src.now[i] == 0)
    && (forall i :: 0 <= i < |src.later| ==> src.later[i] == 0)
  }

  /** Numbers are still read from it, without an error, and all of them are zero. */
  lemma {:induction false} ZerosAreRead(src: Source, m: nat)
    requires OnlyZeros(src)
    ensures var (status, h, after) := FieldsOn(src, m);
            status == Done && h == Zeros(m) && OnlyZeros(after)
    decreases m
  {
    hide FieldsOn, VlqOn, CReadVlq;
    if m == 0 {
      NoField(src);
    } else {
      ZeroIsRead(src);
      OneField(src, m - 1);
      ZerosAreRead(VlqOn(src, 0).2, m - 1);
    }
  }

  function Zeros(m: nat): (h: seq<u64>)
    ensures |h| == m
  {
    if m == 0 then [] else [0] + Zeros(m - 1)
  }

  lemma ZeroIsRead(src: Source)
    requires OnlyZeros(src)
    ensures var (status, v, after) := VlqOn(src, 0);
            status == Done && v == 0 && OnlyZeros(after)
  {
    if src.now != [] {
      ContinuedIs(src.now, 0);
      assert src.now[..1] == [0];
      assert GroupSum([0]) == 0;
    } else {
      assert CReadVlq(src.now).CShort?;
    }
  }

  // A header that is cut short

  /** The whole numbers at the front of a stream, at most m. */
  function Numbers(s: seq<byte>, m: nat): (vs: seq<u64>)
    ensures |vs| <= m
    ensures CReadVlqs(s, m).CShort? ==> |vs| < m
  {
    if m == 0 || !CReadVlq(s).CGot? then [] else
    [CReadVlq(s).value] + Numbers(s[CReadVlq(s).used..], m - 1)
  }

  /** m numbers from bytes that may be too few: zeros make up for those not whole. */
  function Padded(s: seq<byte>, m: nat): (c: CParse<seq<u64>>)
    ensures !c.CShort? && (c.CGot? ==> |c.value| == m && c.used <= |s|)
  {
    match CReadVlqs(s, m)
    case CGot(vs, n) => CGot(vs, n)
    case CFail(code, n) => CFail(code, n)
    case CShort => var vs := Numbers(s, m); CGot(vs + Zeros(m - |vs|), |s|)
  }

  /** What becomes of m numbers that a failing read cuts short: those that were whole, a zero
      for the one that was cut, and the others from what the buffer still held. */
  function CutShort(now: seq<byte>, later: seq<byte>, m: nat): (c: CParse<seq<u64>>)
    requires CReadVlqs(now, m).CShort?
    ensures !c.CShort? && (c.CGot? ==> |c.value| == m && c.used <= |later|)
  {
    var vs := Numbers(now, m);
    match Padded(later, m - |vs| - 1)
    case CGot(ws, n) => CGot(vs + [0] + ws, n)
    case CFail(code, n) => CFail(code, n)
  }

  /** The reads of a header that is cut short by a failing read. */
  lemma {:induction false} CutFields(src: Source, m: nat)
    requires src.endCode != 0 && CReadVlqs(src.now, m).CShort?
    ensures var c := CutShort(src.now, src.later, m);
            && (c.CFail? ==> FieldsOn(src, m).0 == Error(c.code))
            && (c.CGot? ==> FieldsOn(src, m) == (Done, c.value, Source(src.later[c.used..], [], src.endCode)))
    decreases m
  {
    hide CReadVlq, Padded;
    var c := CReadVlq(src.now);
    if c.CGot? {
      CutFields(src.Drop(c.used), m - 1);
      var more := CutShort(src.now[c.used..], src.later, m - 1);
      var vs := Numbers(src.now[c.used..], m - 1);
      assert more.CGot? ==> [c.value] + more.value == ([c.value] + vs) + [0] + Padded(src.later, m - |vs| - 2).value;
    } else {
      PaddedFields(src.later, src.endCode, m - 1);
      var rest := Padded(src.later, m - 1);
      assert rest.CGot? ==> [] + [0] + rest.value == [0] + rest.value;
    }
  }

  lemma {:induction false} PaddedFields(s: seq<byte>, endCode: int, m: nat)
    requires endCode != 0
    ensures var c, src := Padded(s, m), Source(s, [], endCode);
            && (c.CFail? ==> FieldsOn(src, m).0 == Error(c.code))
            && (c.CGot? ==> FieldsOn(src, m) == (Done, c.value, Source(s[c.used..], [], endCode)))
    decreases m
  {
    hide CReadVlq, Padded, FieldsOn;
    var c, src := CReadVlq(s), Source(s, [], endCode);
    if m == 0 {
      PaddedNone(s);
      NoField(src);
    } else {
      OneField(src, m - 1);
      if c.CGot? {
        PaddedFields(s[c.used..], endCode, m - 1);
        PaddedOneMore(s, m);
        assert src.Drop(c.used) == Source(s[c.used..], [], endCode);
      } else if c.CShort? {
        PaddedFields([], endCode, m - 1);
        PaddedShort(s, m);
        PaddedNothing(m - 1);
      } else {
        PaddedFails(s, m);
      }
    }
  }

  lemma PaddedNone(s: seq<byte>)
    ensures Padded(s, 0) == CGot([], 0) && s[0..] == s
  {
  }

  lemma PaddedFails(s: seq<byte>, m: nat)
    requires m > 0 && CReadVlq(s).CFail?
    ensures Padded(s, m).CFail? && Padded(s, m).code == CReadVlq(s).code
  {
    hide CReadVlq;
  }

  lemma PaddedShort(s: seq<byte>, m: nat)
    requires m > 0 && CReadVlq(s).CShort?
    ensures Padded(s, m) == CGot([0] + Zeros(m - 1), |s|) && s[|s|..] == []
  {
    hide CReadVlq;
    assert [] + Zeros(m) == [0] + Zeros(m - 1);
  }

  lemma PaddedOneMore(s: seq<byte>, m: nat)
    requires m > 0 && CReadVlq(s).CGot?
    ensures var v, n := CReadVlq(s).value, CReadVlq(s).used;
            var c, more := Padded(s, m), Padded(s[n..], m - 1);
            && (c.CFail? <==> more.CFail?) && (c.CFail? ==> c.code == more.code)
            && (c.CGot? ==> c.value == [v] + more.value && s[c.used..] == s[n..][more.used..])
  {
    hide CReadVlq;
    var v, n := CReadVlq(s).value, CReadVlq(s).used;
    var vs := Numbers(s[n..], m - 1);
    assert [v] + vs + Zeros(m - 1 - |vs|) == [v] + (vs + Zeros(m - 1 - |vs|));
  }

  lemma PaddedNothing(m: nat)
    ensures Padded([], m) == CGot(Zeros(m), 0)
  {
    assert m > 0 ==> CReadVlq([]).CShort?;
    assert [] + Zeros(m) == Zeros(m);
  }

  /** A header of which nothing arrived: the version is zero, the other two numbers come from
      what the buffer still held. */
  lemma NothingCut(later: seq<byte>)
    ensures CReadVlqs([], 3).CShort?
    ensures var c, rest := CutShort([], later, 3), Padded(later, 2);
            && (c.CFail? <==> rest.CFail?)
            && (c.CGot? ==> c.value == [0] + rest.value && c.used == rest.used)
  {
    hide CReadVlq, Padded;
    assert CReadVlq([]).CShort? by { EmptyIsShort(); }
    assert Padded(later, 2).CGot? ==> [] + [0] + Padded(later, 2).value == [0] + Padded(later, 2).value;
  }

  /** With nothing left in the buffer, every number after the whole ones is zero. */
  lemma CutToNothing(now: seq<byte>)
    requires CReadVlqs(now, 3).CShort?
    ensures var vs := Numbers(now, 3);
            && |vs| <= 2 && CutShort(now, [], 3) == CGot(vs + [0] + Zeros(2 - |vs|), 0)
            && (vs + [0] + Zeros(2 - |vs|))[2] == 0
            && (vs + [0] + Zeros(2 - |vs|))[1] == if |vs| == 2 then vs[1] else 0
  {
    hide CReadVlqs, Padded;
    var vs := Numbers(now, 3);
    PaddedNothing(2 - |vs|);
    assert Zeros(2) == [0, 0] && Zeros(1) == [0];
  }

  lemma EmptyIsShort()
    ensures CReadVlq([]).CShort?
  {
  }

  /** Two numbers where at most one is whole. */
  lemma ShortPair(s: seq<byte>)
    requires CReadVlqs(s, 2).CShort?
    ensures Padded(s, 2) == CGot([if CReadVlq(s).CGot? then CReadVlq(s).value else 0, 0], |s|)
  {
    hide CReadVlq;
    var v := CReadVlq(s);
    assert Zeros(2) == [0, 0] && Zeros(1) == [0];
    if v.CGot? {
      assert Numbers(s[v.used..], 1) == [];
      assert [v.value] + [] + Zeros(1) == [v.value, 0];
    } else {
      assert [] + Zeros(2) == [0, 0];
    }
  }

  lemma DropMore(src: Source, n: nat, m: nat)
    requires n + m <= |src.now|
    ensures src.Drop(n).Drop(m) == src.Drop(n + m)
    ensures src.Drop(n).now == src.now[n..]
    ensures src.Drop(n).EndStatus() == src.EndStatus() && src.Drop(n).Failed() == src.Failed()
    ensures src.Drop(0) == src
  {
    assert src.now[n..][m..] == src.now[n + m..];
  }

  /** How the gathering loop ends: with the bytes of a number, on an eleventh byte, or with
      the status of a read that brought nothing. */
  datatype Gathered = Whole(len: nat) | TooLong | Ended(status: Status)

  /** The loop of `csi_read_vlq`: one byte at a time up to the first stop byte. */
  method GatherVlq(reader: CBufReader, buf: array<byte>) returns (g: Gathered)
    requires reader.Valid() && buf.Length == MAX_VLQ_LEN && buf != reader.buf
    modifies reader, reader.raw, reader.buf, buf
    ensures reader.Valid()
    ensures var src := old(reader.Src());
            var s := src.now;
            match g
            case Whole(n) => 1 <= n <= MAX_VLQ_LEN && n <= |s| && AllContinue(s, n - 1) && s[n - 1] < 128
                             && buf[..n] == s[..n] && reader.Src() == src.Drop(n)
            case TooLong => |s| > MAX_VLQ_LEN && AllContinue(s, MAX_VLQ_LEN)
                            && reader.Src() == src.Drop(MAX_VLQ_LEN + 1)
            case Ended(status) => |s| <= MAX_VLQ_LEN && AllContinue(s, |s|) && status == src.EndStatus()
                                  && (src.endCode != 0 ==> reader.Src() == src.Failed())
  {
    hide *;
    ghost var src := reader.Src();
    ghost var s := src.now;
    var bufLen := 0;
    NothingGathered(s);
    DropMore(src, 0, 0);
    while true
      invariant reader.Valid() && bufLen <= MAX_VLQ_LEN && bufLen <= |s|
      invariant buf[..bufLen] == s[..bufLen] && reader.Src() == src.Drop(bufLen) && AllContinue(s, bufLen)
      decreases MAX_VLQ_LEN - bufLen
    {
      DropMore(src, bufLen, if bufLen < |s| then 1 else 0);
      var st, peek := ReadByte(reader);
      if st != Done {
        return Ended(st);
      }
      if bufLen >= MAX_VLQ_LEN {
        return TooLong;
      }
      buf[bufLen] := peek;
      bufLen := bufLen + 1;
      assert buf[..bufLen] == s[..bufLen];
      ByteMasks(peek);
      if And(peek, 0x80) == 0 {
        return Whole(bufLen);
      }
      OneMoreContinues(s, bufLen - 1);
    }
  }

  /** A one-byte read into a local. */
  method ReadByte(reader: CBufReader) returns (status: Status, b: byte)
    requires reader.Valid()
    modifies reader, reader.raw, reader.buf
    ensures reader.Valid()
    ensures var src := old(reader.Src());
            if src.now == [] then status == src.EndStatus() && (src.endCode != 0 ==> reader.Src() == src.Failed())
            else status == Done && b == src.now[0] && reader.Src() == src.Drop(1)
  {
    hide Flatten, NoEmptyChunk, AfterFills, CBufReader.Src;
    var peek := new byte[1];
    var readLen;
    ghost var src := reader.Src();
    status, readLen := reader.Read(peek, 0, 1);
    assert status == Done ==> peek[..] == [src.now[0]];
    b := peek[0];
  }

  lemma NothingGathered(s: seq<byte>)
    ensures AllContinue(s, 0) && s[..0] == [] && s[0..] == s
  {
  }

  lemma OneMoreContinues(s: seq<byte>, n: nat)
    requires n < |s| && AllContinue(s, n) && s[n] >= 128
    ensures AllContinue(s, n + 1)
  {
  }

  /** `csi_read_vlq`, on every source. Its last check, that the decoder used every byte
      gathered, never fires. */
  method ReadVlqFrom(reader: CBufReader, v0: u64) returns (status: Status, value: u64)
    requires reader.Valid()
    modifies reader, reader.raw, reader.buf
    ensures reader.Valid()
    ensures var (status', value', src') := VlqOn(old(reader.Src()), v0);
            status == status' && (status.Panic? || (value == value' && reader.Src() == src'))
  {
    value := v0;
    hide *;
    ghost var src := reader.Src();
    var buf := new byte[MAX_VLQ_LEN];
    var g := GatherVlq(reader, buf);
    match g
    case Ended(st) =>
      VlqOnEnd(src, v0);
      if st.Panic? {
        return st, value;
      }
      return Done, value; // the error is in the other variable
    case TooLong =>
      VlqOnTooLong(src, v0);
      return Error(CSI_ERROR_READ_VLQ), value;
    case Whole(bufLen) =>
      VlqOnStop(src, v0, bufLen);
      var readLen;
      status, value, readLen := VlqDecodeFrom(buf, bufLen);
      assert readLen == bufLen; // the source checks it and would return an error
  }

  lemma VlqOnEnd(src: Source, v0: u64)
    requires |src.now| <= MAX_VLQ_LEN && AllContinue(src.now, |src.now|)
    ensures VlqOn(src, v0) == if src.EndStatus().Panic? then (src.EndStatus(), v0, src) else (Done, v0, src.Failed())
    ensures src.EndStatus().Panic? <==> src.endCode == 0
  {
    ContinuedAtLeast(src.now, |src.now|);
  }

  lemma VlqOnTooLong(src: Source, v0: u64)
    requires |src.now| > MAX_VLQ_LEN && AllContinue(src.now, MAX_VLQ_LEN)
    ensures VlqOn(src, v0) == (Error(CSI_ERROR_READ_VLQ), v0, src.Drop(MAX_VLQ_LEN + 1))
  {
    ContinuedAtLeast(src.now, MAX_VLQ_LEN);
  }

  lemma VlqOnStop(src: Source, v0: u64, n: nat)
    requires 1 <= n <= |src.now| && n <= MAX_VLQ_LEN
    requires src.now[n - 1] < 128 && AllContinue(src.now, n - 1)
    ensures Decoded(src.now[..n]).Success? && Continued(src.now[..n]) == n - 1
    ensures VlqOn(src, v0) == (Done, Decoded(src.now[..n]).value, src.Drop(n))
  {
    var s := src.now;
    ContinuedIs(s, n - 1);
    ContinuedIs(s[..n], n - 1);
    assert s[..n][..n] == s[..n];
  }
}
