/** Reading and writing packets in the Rust library: the buffered reader and writer it
    builds on, and the packet code over them. */
module RustIo {
  import opened Words
  import opened Errors
  import opened Vlq
  import opened Frames
  import opened NativePipe

  /** A buffered reader that asks the pipe, once, only when its buffer is empty. The pipe's
      reads end with zero bytes or, if it `fails`, with an error. */
  class BufReader {
    const inner: Pipe
    const capacity: nat
    const fails: bool
    var buf: seq<byte>

    constructor (inner: Pipe, capacity: nat, fails: bool)
      ensures this.inner == inner && this.capacity == capacity && this.fails == fails && buf == []
    {
      this.inner, this.capacity, this.fails, this.buf := inner, capacity, fails, [];
    }

    ghost predicate Valid()
      reads this, inner
    {
      capacity >= 1 && inner.Readable()
    }

    /** Everything this reader will still return. */
    ghost function Stream(): seq<byte>
      requires Valid()
      reads this, inner
    {
      buf + inner.Unread()
    }

    /** None is the error of the pipe. */
    method Read(len: nat) returns (r: Option<seq<byte>>)
      requires Valid()
      modifies this, inner
      ensures Valid()
      ensures r.None? <==> fails && old(Stream()) == []
      ensures r.None? ==> Stream() == []
      ensures r.Some? ==> |r.value| <= len && r.value + Stream() == old(Stream())
      ensures len > 0 && r == Some([]) ==> Stream() == []
    {
      hide Flatten, NoEmptyChunk, ReadStep;
      if buf == [] {
        buf := inner.Read(capacity);
        if fails && buf == [] {
          return None;
        }
      }
      var n := if |buf| < len then |buf| else len;
      CutAt(buf, buf[..n], buf[n..], inner.Unread());
      r := Some(buf[..n]);
      buf := buf[n..];
    }

    /** `read_exact`: None is an error, of the pipe or over its end. */
    method ReadExact(len: nat) returns (r: Option<seq<byte>>)
      requires Valid()
      modifies this, inner
      ensures Valid()
      ensures r.Some? <==> |old(Stream())| >= len
      ensures r.Some? ==> |r.value| == len && r.value + Stream() == old(Stream())
      ensures r.None? ==> Stream() == []
    {
      hide Flatten, NoEmptyChunk;
      var data := [];
      while |data| < len
        invariant Valid() && |data| <= len
        invariant data + Stream() == old(Stream())
      {
        var more := Read(len - |data|);
        if more == None || more.value == [] {
          return None;
        }
        data := data + more.value;
      }
      r := Some(data);
    }
  }

  /** A buffered writer; it reports a failure of the pipe as false. */
  class BufWriter {
    const inner: Pipe
    const capacity: nat
    var buf: seq<byte>

    constructor (inner: Pipe, capacity: nat)
      ensures this.inner == inner && this.capacity == capacity && buf == []
    {
      this.inner, this.capacity, this.buf := inner, capacity, [];
    }

    ghost predicate Valid()
      reads this, inner
    {
      inner.Writable()
    }

    /** How many more chunks the peer will take. */
    ghost function Takes(): Option<nat>
      requires Valid()
      reads this, inner
    {
      inner.tx.value.takes
    }

    /** Everything written to this writer and not lost. */
    ghost function Written(): seq<byte>
      requires Valid()
      reads this, inner
    {
      inner.Accepted() + buf
    }

    method Flush() returns (ok: bool)
      requires Valid()
      modifies this, inner
      ensures Valid() && Takes() == if old(buf) == [] then old(Takes()) else Less(old(Takes()))
      ensures ok <==> old(buf) == [] || old(Takes()) != Some(0)
      ensures ok ==> buf == [] && inner.Accepted() == old(Written())
      ensures !ok ==> buf == old(buf) && inner.Accepted() == old(inner.Accepted())
    {
      var r := inner.Write(buf);
      ok := r.Success?;
      if ok {
        buf := [];
      }
    }

    method Write(data: seq<byte>) returns (ok: bool)
      requires Valid()
      modifies this, inner
      ensures Valid()
      ensures ok ==> Written() == old(Written()) + data
      ensures old(buf) == [] && data != [] ==>
                if |data| < capacity then ok && buf == data && Takes() == old(Takes())
                else buf == [] && Takes() == Less(old(Takes())) && (ok <==> old(Takes()) != Some(0))
      ensures !ok ==> inner.Accepted() == old(inner.Accepted()) || inner.Accepted() == old(Written())
      ensures old(Takes()) == Some(0) ==> Takes() == Some(0) && inner.Accepted() == old(inner.Accepted())
      ensures old(Takes()) == Some(0) && ok && data != [] ==> buf != []
    {
      if |buf| + |data| > capacity {
        ok := Flush();
        if !ok {
          return;
        }
      }
      if |data| >= capacity {
        var r := inner.Write(data);
        ok := r.Success?;
      } else {
        buf := buf + data;
        ok := true;
      }
    }
  }

  /** What a read reports and leaves behind agrees with the verdict on the stream. */
  ghost predicate Follows<T>(p: Parse<T>, r: Result<T>, before: seq<byte>, after: seq<byte>, fails: bool) {
    match p
    case Got(v, n) => r == Success(v) && n <= |before| && after == before[n..]
    case Short(e) => r == Failure(AtEnd(e, fails)) && after == []
    case Broken(e, n) => r == Failure(e) && n <= |before| && after == before[n..]
  }

  /** The bytes gathered for one number decode to the verdict on the whole stream. */
  lemma GatheredVlq(buf: seq<byte>, rest: seq<byte>, fails: bool)
    requires buf != [] && buf[|buf| - 1] < 128
    requires forall i :: 0 <= i < |buf| - 1 ==> buf[i] >= 128
    ensures Follows(ReadVlq(buf + rest), Decoded(buf), buf + rest, rest, fails)
  {
    ContinuedIs(buf, |buf| - 1);
    ContinuedPrefix(buf, rest);
    SplitAfter(buf, rest);
    assert buf == buf[..|buf|];
  }

  lemma ExhaustedVlq(buf: seq<byte>, fails: bool)
    requires forall i :: 0 <= i < |buf| ==> buf[i] >= 128
    ensures Follows(ReadVlq(buf), if fails then Failure(ReadVlqError) else Decoded(buf), buf, [], fails)
  {
    ContinuedAtLeast(buf, |buf|);
  }

  /** `read_next_vlq`. */
  method ReadNextVlq(reader: BufReader) returns (r: Result<u64>)
    requires reader.Valid()
    modifies reader, reader.inner
    ensures reader.Valid()
    ensures Follows(ReadVlq(old(reader.Stream())), r, old(reader.Stream()), reader.Stream(), reader.fails)
  {
    hide *;
    var buf: seq<byte> := [];
    while true
      invariant reader.Valid()
      invariant forall i :: 0 <= i < |buf| ==> buf[i] >= 128
      invariant buf + reader.Stream() == old(reader.Stream())
      decreases |reader.Stream()|
    {
      var read := reader.Read(1);
      assert reader.Stream() == [] ==> buf + [] == buf;
      if read == None {
        ExhaustedVlq(buf, true);
        return Failure(ReadVlqError);
      }
      var peek := read.value;
      if |peek| == 0 {
        ExhaustedVlq(buf, false);
        break;
      }
      assert peek == [peek[0]];
      Associate(buf, [peek[0]], reader.Stream());
      buf := buf + [peek[0]];
      ByteMasks(peek[0]);
      if And(peek[0], 0x80) == 0 {
        GatheredVlq(buf, reader.Stream(), reader.fails);
        break;
      }
    }
    r := VlqDecode(buf);
  }

  /** One field, then the fields after it. */
  lemma FieldThenFields(
    s0: seq<byte>, first: Result<u64>, s1: seq<byte>, m: nat, others: Result<seq<u64>>, s2: seq<byte>, fails: bool)
    requires Follows(ReadVlq(s0), first, s0, s1, fails)
    requires first.Success? ==> Follows(ReadVlqs(s1, m), others, s1, s2, fails)
    ensures first.Failure? ==> Follows(ReadVlqs(s0, m + 1), Failure(first.error), s0, s1, fails)
    ensures first.Success? && others.Failure? ==>
              Follows(ReadVlqs(s0, m + 1), Failure(others.error), s0, s2, fails)
    ensures first.Success? && others.Success? ==>
              Follows(ReadVlqs(s0, m + 1), Success([first.value] + others.value), s0, s2, fails)
  {
    hide ReadVlq;
  }

  /** The three numbers every packet starts with; the first error stops the reading. */
  method ReadFields(reader: BufReader) returns (r: Result<seq<u64>>)
    requires reader.Valid()
    modifies reader, reader.inner
    ensures reader.Valid() && (r.Success? ==> |r.value| == 3)
    ensures Follows(ReadVlqs(old(reader.Stream()), 3), r, old(reader.Stream()), reader.Stream(), reader.fails)
  {
    hide *;
    ghost var s0 := reader.Stream();
    var version := ReadNextVlq(reader);
    ghost var s1 := reader.Stream();
    if version.Failure? {
      FieldThenFields(s0, version, s1, 2, Failure(version.error), s1, reader.fails);
      return Failure(version.error);
    }
    var tag := ReadNextVlq(reader);
    ghost var s2 := reader.Stream();
    if tag.Failure? {
      FieldThenFields(s1, tag, s2, 1, Failure(tag.error), s2, reader.fails);
      FieldThenFields(s0, version, s1, 2, Failure(tag.error), s2, reader.fails);
      return Failure(tag.error);
    }
    var length := ReadNextVlq(reader);
    ghost var s3 := reader.Stream();
    NoFields(s3, reader.fails);
    FieldThenFields(s2, length, s3, 0, Success([]), s3, reader.fails);
    if length.Failure? {
      FieldThenFields(s1, tag, s2, 1, Failure(length.error), s3, reader.fails);
      FieldThenFields(s0, version, s1, 2, Failure(length.error), s3, reader.fails);
      return Failure(length.error);
    }
    FieldThenFields(s1, tag, s2, 1, Success([length.value] + []), s3, reader.fails);
    FieldThenFields(s0, version, s1, 2, Success([tag.value] + ([length.value] + [])), s3, reader.fails);
    r := Success([version.value] + ([tag.value] + ([length.value] + [])));
  }

  lemma NoFields(s: seq<byte>, fails: bool)
    ensures Follows(ReadVlqs(s, 0), Success([]), s, s, fails)
  {
  }

  /** `RequestPacket::read_from` and `ResponsePacket::read_from`. */
  method ReadFrom(reader: BufReader) returns (r: Result<Packet>)
    requires reader.Valid()
    modifies reader, reader.inner
    ensures reader.Valid()
    ensures Follows(ReadPacket(old(reader.Stream())), r, old(reader.Stream()), reader.Stream(), reader.fails)
  {
    hide ReadVlqs, ReadPacket;
    ghost var s0 := reader.Stream();
    var fields := ReadFields(reader);
    ghost var s1 := reader.Stream();
    FieldsThenPayload(s0, fields, s1, reader.fails);
    if fields.Failure? {
      return Failure(fields.error);
    }
    var h := fields.value;
    var payload := reader.ReadExact(h[2]);
    if payload.None? {
      return Failure(ReadExactError);
    }
    SplitAfter(payload.value, reader.Stream());
    r := Success(Packet(h[0] % 256, h[1], payload.value));
  }

  /** What is left to do for a packet once its three numbers are known. */
  lemma FieldsThenPayload(s0: seq<byte>, fields: Result<seq<u64>>, s1: seq<byte>, fails: bool)
    requires Follows(ReadVlqs(s0, 3), fields, s0, s1, fails)
    ensures fields.Failure? ==> Follows(ReadPacket(s0), Failure(fields.error), s0, s1, fails)
    ensures fields.Success? ==>
              var h := fields.value;
              |h| == 3 &&
              if |s1| < h[2] then ReadPacket(s0) == Short(ReadExactError)
              else Follows(ReadPacket(s0), Success(Packet(h[0] % 256, h[1], s1[..h[2]])), s0, s1[h[2]..], fails)
  {
    hide ReadVlqs;
    if fields.Success? && |s1| >= fields.value[2] {
      var n, len := ReadVlqs(s0, 3).used, fields.value[2];
      assert s0[n..][..len] == s0[n..n + len];
      assert s0[n..][len..] == s0[n + len..];
    }
  }

  /** `serialize`. */
  method Serialize(p: Packet) returns (buf: seq<byte>)
    ensures buf == Wire(p)
  {
    hide Encoding, Encodings;
    ThreeEncodings([], p);
    var version := VlqEncode(p.version);
    var tag := VlqEncode(p.tag);
    var length := VlqEncode(|p.payload|);
    buf := [] + version;
    buf := buf + tag;
    buf := buf + length;
    buf := buf + p.payload;
  }
}
