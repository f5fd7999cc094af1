/** Packets on the wire and what a reader makes of any byte stream. A request packet
    and a response packet have the same layout; `tag` is the method id of the one and
    the error code of the other. */
module Frames {
  import opened Words
  import opened Errors
  import opened Vlq

  /** A payload whose length fits the 64-bit length field. */
  type Payload = s: seq<byte> | |s| < TWO_64 witness []

  datatype Packet = Packet(version: u64, tag: u64, payload: Payload)

  /** The Rust packets hold their version in one byte. */
  predicate ByteVersion(p: Packet) {
    p.version < 256
  }

  /** The three header fields: version, method id or error code, payload length. */
  function Fields(p: Packet): (vs: seq<u64>)
    ensures |vs| == 3
  {
    [p.version, p.tag, |p.payload|]
  }

  function Encodings(vs: seq<u64>): (s: seq<byte>)
    ensures |s| >= |vs|
  {
    if vs == [] then [] else Encoding(vs[0]) + Encodings(vs[1..])
  }

  function Wire(p: Packet): (s: seq<byte>)
    ensures |s| >= 3
  {
    Encodings(Fields(p)) + p.payload
  }

  /** The header is three numbers one after the other. */
  lemma ThreeEncodings(before: seq<byte>, p: Packet)
    ensures before + Encodings(Fields(p)) ==
            before + Encoding(p.version) + Encoding(p.tag) + Encoding(|p.payload|)
  {
    hide Encoding;
    assert Fields(p)[1..] == [p.tag, |p.payload|];
    assert [p.tag, |p.payload|][1..] == [|p.payload|];
    assert Encodings([|p.payload|]) == Encoding(|p.payload|);
    assert Encodings([p.tag, |p.payload|]) == Encoding(p.tag) + Encoding(|p.payload|);
  }

  /** A packet with small numbers in its header, byte for byte. */
  lemma SmallPacket(version: u64, tag: u64, payload: Payload)
    requires version < 128 && tag < 128
    ensures Wire(Packet(version, tag, payload)) == [version] + [tag] + Encoding(|payload|) + payload
  {
    hide Encoding, Encodings;
    var p := Packet(version, tag, payload);
    SmallNumber(version);
    SmallNumber(tag);
    ThreeEncodings([], p);
    JoinHeader(Encodings(Fields(p)), [version], [tag], Encoding(|payload|), payload);
  }

  lemma JoinHeader(h: seq<byte>, a: seq<byte>, b: seq<byte>, c: seq<byte>, payload: seq<byte>)
    requires [] + h == [] + a + b + c
    ensures h + payload == a + b + c + payload
  {
    assert [] + h == h && [] + a == a;
  }

  lemma SmallNumber(v: u64)
    requires v < 128
    ensures Encoding(v) == [v]
  {
  }

  function WireAll(ps: seq<Packet>): seq<byte> {
    if ps == [] then [] else Wire(ps[0]) + WireAll(ps[1..])
  }

  /** What reading from the front of a stream comes to:
      - Got: a value, from the first `used` bytes;
      - Short: the reader took everything and asked for more; if the stream ends there, with
        zero bytes, it fails with `error`;
      - Broken: it fails after `used` bytes, whatever follows. */
  datatype Parse<+T> = Got(value: T, used: nat) | Short(error: IpcError) | Broken(error: IpcError, used: nat)

  /** The error of a reader that asked for more: `error` of Short if the pipe's reads end with
      zero bytes; if they end with an error, that one, which the number reader passes on as
      its own and the exact read does not look at. */
  function AtEnd(error: IpcError, fails: bool): IpcError {
    if fails && error != ReadExactError then ReadVlqError else error
  }

  ghost predicate Within<T>(r: Parse<T>, s: seq<byte>, least: nat) {
    && (r.Got? ==> least <= r.used <= |s|)
    && (r.Broken? ==> r.used <= |s|)
  }

  /** Reading one number: a byte with a clear top bit ends it, wherever it stands, and
      only then is its place, among the first ten or not, looked at. */
  function ReadVlq(s: seq<byte>): (r: Parse<u64>)
    ensures Within(r, s, 1)
  {
    var k := Continued(s);
    if k < |s| then
      if k < MAX_VLQ_LEN then Got(GroupSum(s[..k + 1]) % TWO_64, k + 1)
      else Broken(DecodeVlqOverflow, k + 1)
    else
      Short(if |s| < MAX_VLQ_LEN then IncompleteVlqSeq else DecodeVlqOverflow)
  }

  function ReadVlqs(s: seq<byte>, m: nat): (r: Parse<seq<u64>>)
    ensures Within(r, s, m)
    ensures r.Got? ==> |r.value| == m
  {
    if m == 0 then Got([], 0) else
    match ReadVlq(s)
    case Short(e) => Short(e)
    case Broken(e, n) => Broken(e, n)
    case Got(v, n) =>
      match ReadVlqs(s[n..], m - 1)
      case Short(e) => Short(e)
      case Broken(e, n') => Broken(e, n + n')
      case Got(vs, n') => Got([v] + vs, n + n')
  }

  /** Reading one packet. The version is cut to one byte. */
  function ReadPacket(s: seq<byte>): (r: Parse<Packet>)
    ensures Within(r, s, 3)
  {
    match ReadVlqs(s, 3)
    case Short(e) => Short(e)
    case Broken(e, n) => Broken(e, n)
    case Got(h, n) =>
      if |s| - n < h[2] then Short(ReadExactError)
      else Got(Packet(h[0] % 256, h[1], s[n..n + h[2]]), n + h[2])
  }

  // Reading what was written

  lemma ReadWholeVlq(v: u64, rest: seq<byte>)
    ensures ReadVlq(Encoding(v) + rest) == Got(v, |Encoding(v)|)
  {
    var s := Encoding(v) + rest;
    EncodingIsSelfDelimiting(v, rest);
    DecodeEncoding(v, rest);
    assert s[..|Encoding(v)|] == Encoding(v);
  }

  lemma {:induction false} ReadWholeVlqs(vs: seq<u64>, rest: seq<byte>)
    ensures ReadVlqs(Encodings(vs) + rest, |vs|) == Got(vs, |Encodings(vs)|)
  {
    hide ReadVlq, Encoding;
    if vs != [] {
      ReadWholeVlqs(vs[1..], rest);
      var e, tail := Encoding(vs[0]), Encodings(vs[1..]) + rest;
      ReadWholeVlq(vs[0], tail);
      SplitAfter(e, tail);
      Associate(e, Encodings(vs[1..]), rest);
      assert [vs[0]] + vs[1..] == vs;
    }
  }

  /** A packet is recovered from the front of any stream that starts with its bytes. */
  lemma ReadWholePacket(p: Packet, rest: seq<byte>)
    requires ByteVersion(p)
    ensures ReadPacket(Wire(p) + rest) == Got(p, |Wire(p)|)
  {
    hide ReadVlqs, Encodings;
    var h := Encodings(Fields(p));
    var s := Wire(p) + rest;
    assert s == h + (p.payload + rest);
    ReadWholeVlqs(Fields(p), p.payload + rest);
    assert s[|h|..|h| + |p.payload|] == p.payload;
  }

  /** Repeated reads: the first n packets of a stream and the bytes they took. */
  function ReadMany(s: seq<byte>, n: nat): Option<(seq<Packet>, nat)> {
    if n == 0 then Some(([], 0)) else
    match ReadPacket(s)
    case Got(p, used) => (
      match ReadMany(s[used..], n - 1)
      case Some(more) => Some(([p] + more.0, used + more.1))
      case None => None)
    case _ => None
  }

  /** Streams of packets are self-delimiting: repeated reads give the list back and take
      exactly its bytes, whatever follows. */
  lemma {:induction false} ReadWholeList(ps: seq<Packet>, rest: seq<byte>)
    requires forall p :: p in ps ==> ByteVersion(p)
    ensures ReadMany(WireAll(ps) + rest, |ps|) == Some((ps, |WireAll(ps)|))
  {
    hide Wire, ReadPacket;
    if ps != [] {
      ReadWholeList(ps[1..], rest);
      ReadOneMore(ps[0], ps[1..], rest);
      assert WireAll(ps) == Wire(ps[0]) + WireAll(ps[1..]);
      assert [ps[0]] + ps[1..] == ps;
    }
  }

  lemma ReadOneMore(p: Packet, more: seq<Packet>, rest: seq<byte>)
    requires ByteVersion(p)
    requires ReadMany(WireAll(more) + rest, |more|) == Some((more, |WireAll(more)|))
    ensures ReadMany(Wire(p) + WireAll(more) + rest, |more| + 1) ==
            Some(([p] + more, |Wire(p)| + |WireAll(more)|))
  {
    hide Wire, ReadPacket;
    var w, tail := Wire(p), WireAll(more) + rest;
    ReadWholePacket(p, tail);
    SplitAfter(w, tail);
    Associate(w, WireAll(more), rest);
  }

  lemma Associate(a: seq<byte>, b: seq<byte>, c: seq<byte>)
    ensures a + b + c == a + (b + c)
  {
  }

  lemma SplitAfter(a: seq<byte>, b: seq<byte>)
    ensures (a + b)[..|a|] == a && (a + b)[|a|..] == b
  {
  }

  /** Two lists of packets of whatever lengths never share a byte stream. */
  lemma {:induction false} WireAllInjective(ps: seq<Packet>, qs: seq<Packet>)
    requires forall p :: p in ps ==> ByteVersion(p)
    requires forall q :: q in qs ==> ByteVersion(q)
    requires WireAll(ps) == WireAll(qs)
    ensures ps == qs
  {
    if ps != [] && qs != [] {
      var t, u := WireAll(ps[1..]), WireAll(qs[1..]);
      ReadWholePacket(ps[0], t);
      ReadWholePacket(qs[0], u);
      SplitAfter(Wire(ps[0]), t);
      SplitAfter(Wire(qs[0]), u);
      WireAllInjective(ps[1..], qs[1..]);
      assert ps == [ps[0]] + ps[1..] && qs == [qs[0]] + qs[1..];
    }
  }

  lemma {:induction false} WireAllAppend(ps: seq<Packet>, qs: seq<Packet>)
    ensures WireAll(ps + qs) == WireAll(ps) + WireAll(qs)
  {
    if ps == [] {
      assert ps + qs == qs;
    } else {
      assert (ps + qs)[1..] == ps[1..] + qs;
      WireAllAppend(ps[1..], qs);
    }
  }

  lemma WireOne(p: Packet)
    ensures WireAll([p]) == Wire(p)
  {
    assert [p][1..] == [];
  }

  // Truncation

  lemma {:induction false} EncodingPrefix(v: nat, n: nat)
    requires n < |Encoding(v)|
    ensures Continued(Encoding(v)[..n]) == n
  {
    if n > 0 {
      var s := Encoding(v)[..n];
      assert s[1..] == Encoding(v / 128)[..n - 1];
      EncodingPrefix(v / 128, n - 1);
    }
  }

  lemma {:induction false} TruncatedVlqs(vs: seq<u64>, n: nat)
    requires n < |Encodings(vs)|
    ensures ReadVlqs(Encodings(vs)[..n], |vs|) == Short(IncompleteVlqSeq)
  {
    var e, more := Encoding(vs[0]), Encodings(vs[1..]);
    var s := Encodings(vs)[..n];
    if n < |e| {
      assert s == e[..n];
      EncodingPrefix(vs[0], n);
      EncodingFitsTen(vs[0]);
    } else {
      var tail := more[..n - |e|];
      assert s == e + tail && s[|e|..] == tail;
      ReadWholeVlq(vs[0], tail);
      TruncatedVlqs(vs[1..], n - |e|);
    }
  }

  /** Every strict prefix of a packet asks for more; if the stream ends there the error
      tells whether the cut was in the header or in the payload. In particular it is never
      a packet and never an overflow. */
  lemma TruncationIsDetected(p: Packet, n: nat)
    requires n < |Wire(p)|
    ensures ReadPacket(Wire(p)[..n]) ==
            Short(if n < |Encodings(Fields(p))| then IncompleteVlqSeq else ReadExactError)
  {
    var h := Encodings(Fields(p));
    var s := Wire(p)[..n];
    if n < |h| {
      assert s == h[..n];
      TruncatedVlqs(Fields(p), n);
    } else {
      assert s == h + p.payload[..n - |h|];
      ReadWholeVlqs(Fields(p), p.payload[..n - |h|]);
    }
  }

  // Bytes that arrive later change nothing that was already decided

  lemma {:induction false} ContinuedPrefix(s: seq<byte>, t: seq<byte>)
    requires Continued(s) < |s|
    ensures Continued(s + t) == Continued(s)
  {
    if s[0] >= 128 {
      assert (s + t)[1..] == s[1..] + t;
      ContinuedPrefix(s[1..], t);
    }
  }

  lemma ReadVlqStable(s: seq<byte>, t: seq<byte>)
    requires !ReadVlq(s).Short?
    ensures ReadVlq(s + t) == ReadVlq(s)
  {
    var k := Continued(s);
    ContinuedPrefix(s, t);
    assert (s + t)[..k + 1] == s[..k + 1];
  }

  lemma {:induction false} ReadVlqsStable(s: seq<byte>, t: seq<byte>, m: nat)
    requires !ReadVlqs(s, m).Short?
    ensures ReadVlqs(s + t, m) == ReadVlqs(s, m)
  {
    hide ReadVlq;
    if m > 0 {
      ReadVlqStable(s, t);
      if ReadVlq(s).Got? {
        var n := ReadVlq(s).used;
        assert (s + t)[n..] == s[n..] + t;
        ReadVlqsStable(s[n..], t, m - 1);
      }
    }
  }

  /** A verdict other than "more bytes" does not depend on what follows, so it cannot
      depend on how the pipe cuts the stream. */
  lemma ReadPacketStable(s: seq<byte>, t: seq<byte>)
    requires !ReadPacket(s).Short?
    ensures ReadPacket(s + t) == ReadPacket(s)
  {
    hide ReadVlqs;
    ReadVlqsStable(s, t, 3);
    if ReadVlqs(s, 3).Got? {
      var n, len := ReadVlqs(s, 3).used, ReadVlqs(s, 3).value[2];
      assert (s + t)[n..n + len] == s[n..n + len];
    }
  }
}
