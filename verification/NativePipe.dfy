/** The native pipe: a zero-capacity channel of byte chunks between two threads, with the
    unread part of the last chunk kept in the reading end. */
module NativePipe {
  import opened Words
  import opened Errors

  type Chunk = seq<byte>

  function Flatten(chunks: seq<Chunk>): seq<byte> {
    if chunks == [] then [] else chunks[0] + Flatten(chunks[1..])
  }

  predicate NoEmptyChunk(chunks: seq<Chunk>) {
    forall i :: 0 <= i < |chunks| ==> chunks[i] != []
  }

  lemma {:induction false} FlattenAppend(a: seq<Chunk>, b: seq<Chunk>)
    ensures Flatten(a + b) == Flatten(a) + Flatten(b)
  {
    if a == [] {
      assert a + b == b;
    } else {
      assert (a + b)[1..] == a[1..] + b;
      FlattenAppend(a[1..], b);
    }
  }

  lemma FlattenSnoc(a: seq<Chunk>, c: Chunk)
    ensures Flatten(a + [c]) == Flatten(a) + c
  {
    FlattenAppend(a, [c]);
    assert [c][1..] == [];
  }

  /** The sending half of the channel: the chunks handed over so far, and how many more the
      receiving half will take before it is gone; None if it stays. */
  datatype Sender = Sender(accepted: seq<Chunk>, takes: Option<nat>)

  /** What is left of such a number after one chunk. */
  function Less(takes: Option<nat>): Option<nat> {
    if takes == None || takes.value == 0 then takes else Some(takes.value - 1)
  }

  /** It only ever gets smaller. */
  predicate Fewer(takes': Option<nat>, takes: Option<nat>) {
    if takes == None then takes' == None else takes'.Some? && takes'.value <= takes.value
  }

  /** The receiving half: the chunks the other thread will hand over, in order, until it
      drops its end. */
  datatype Receiver = Receiver(incoming: seq<Chunk>)

  class Pipe {
    var tx: Option<Sender>
    var rx: Option<Receiver>
    var buf: seq<byte>

    /** `new_pair`, seen from the reading thread. */
    constructor ReadEnd(incoming: seq<Chunk>)
      ensures tx == None && rx == Some(Receiver(incoming)) && buf == []
    {
      tx, rx, buf := None, Some(Receiver(incoming)), [];
    }

    /** `new_pair`, seen from the writing thread. */
    constructor WriteEnd(takes: Option<nat>)
      ensures tx == Some(Sender([], takes)) && rx == None && buf == []
    {
      tx, rx, buf := Some(Sender([], takes)), None, [];
    }

    /** Everything still to be read. */
    ghost function Unread(): seq<byte>
      requires rx.Some?
      reads this
    {
      buf + Flatten(rx.value.incoming)
    }

    /** Everything the other end has taken. */
    ghost function Accepted(): seq<byte>
      requires tx.Some?
      reads this
    {
      Flatten(tx.value.accepted)
    }

    ghost predicate Readable()
      reads this
    {
      rx.Some? && NoEmptyChunk(rx.value.incoming)
    }

    ghost predicate Writable()
      reads this
    {
      tx.Some? && NoEmptyChunk(tx.value.accepted)
    }

    method Close()
      modifies this
      ensures tx == None && rx == None && buf == old(buf)
    {
      tx := None;
      rx := None;
    }

    /** `Read for Pipe`. The data and the new state are those of ReadStep; no byte is lost
        or reordered, and on a channel without empty chunks a nonempty read returns
        nothing only at the end. */
    method Read(len: nat) returns (data: seq<byte>)
      requires rx.Some?
      modifies this
      ensures rx.Some? && tx == old(tx)
      ensures (data, buf, rx.value.incoming) == ReadStep(old(buf), old(rx.value.incoming), len)
      ensures data + Unread() == old(Unread())
      ensures var front := if old(buf) != [] || old(rx.value.incoming) == [] then |old(buf)|
                           else |old(rx.value.incoming)[0]|;
              |data| == if front < len then front else len
      ensures old(Readable()) ==> Readable() && (len > 0 && data == [] ==> old(Unread()) == [])
    {
      ReadStepKeepsBytes(buf, rx.value.incoming, len);
      if buf == [] {
        var incoming := rx.value.incoming;
        if incoming == [] {
          return [];
        }
        buf, rx := incoming[0], Some(Receiver(incoming[1..]));
      }
      var n := if |buf| < len then |buf| else len;
      data := buf[..n];
      buf := buf[n..];
    }

    /** `Write for Pipe`. An empty write sends nothing; any other is taken whole or fails. */
    method Write(data: seq<byte>) returns (r: Result<nat>)
      requires tx.Some?
      modifies this
      ensures tx.Some? && rx == old(rx) && buf == old(buf)
      ensures var takes := old(tx.value.takes);
              tx.value.takes == if data == [] || takes == None || takes == Some(0) then takes else Some(takes.value - 1)
      ensures r.Success? <==> data == [] || old(tx.value.takes) != Some(0)
      ensures r.Success? ==> r.value == |data| && Accepted() == old(Accepted()) + data
      ensures r.Success? ==> tx.value.accepted ==
                               old(tx.value.accepted) + if data == [] then [] else [data]
      ensures r.Failure? ==> r.error == GeneralIoError && tx == old(tx)
      ensures old(Writable()) ==> Writable()
    {
      if data == [] {
        return Success(0);
      }
      var s := tx.value;
      if s.takes == Some(0) {
        return Failure(GeneralIoError);
      }
      FlattenSnoc(s.accepted, data);
      tx := Some(Sender(s.accepted + [data], Less(s.takes)));
      r := Success(|data|);
    }
  }

  /** The chunks that a list of writes hands over. */
  function Handed(writes: seq<seq<byte>>): seq<Chunk> {
    if writes == [] then [] else (if writes[0] == [] then [] else [writes[0]]) + Handed(writes[1..])
  }

  /** One read: what it returns, what stays in the buffer, what stays in the channel. */
  function ReadStep(buf: seq<byte>, incoming: seq<Chunk>, len: nat): (seq<byte>, seq<byte>, seq<Chunk>) {
    if buf == [] && incoming == [] then ([], [], []) else
    var b := if buf == [] then incoming[0] else buf;
    var n := if |b| < len then |b| else len;
    (b[..n], b[n..], if buf == [] then incoming[1..] else incoming)
  }

  lemma ReadStepKeepsBytes(buf: seq<byte>, incoming: seq<Chunk>, len: nat)
    ensures var (data, buf', incoming') := ReadStep(buf, incoming, len);
            data + (buf' + Flatten(incoming')) == buf + Flatten(incoming)
  {
    hide Flatten;
    if buf != [] {
      CutAt(buf, ReadStep(buf, incoming, len).0, ReadStep(buf, incoming, len).1, Flatten(incoming));
    } else if incoming != [] {
      var (data, b, rest) := ReadStep(buf, incoming, len);
      CutAt(incoming[0], data, b, Flatten(rest));
      FlattenFirst(incoming);
    }
  }

  lemma CutAt(b: seq<byte>, x: seq<byte>, y: seq<byte>, rest: seq<byte>)
    requires b == x + y
    ensures x + (y + rest) == b + rest
  {
  }

  lemma FlattenFirst(chunks: seq<Chunk>)
    requires chunks != []
    ensures [] + Flatten(chunks) == chunks[0] + Flatten(chunks[1..])
  {
  }

  /** The state and the results after a run of reads of the given sizes. */
  function Reads(buf: seq<byte>, incoming: seq<Chunk>, sizes: seq<nat>): (seq<seq<byte>>, seq<byte>, seq<Chunk>)
    decreases |sizes|
  {
    if sizes == [] then ([], buf, incoming) else
    var (data, buf', incoming') := ReadStep(buf, incoming, sizes[0]);
    var (more, buf'', incoming'') := Reads(buf', incoming', sizes[1..]);
    ([data] + more, buf'', incoming'')
  }

  /** First in, first out: however the reads are cut, what they return is a prefix of what
      was handed over, and the rest is still there. */
  lemma {:induction false} ReadsAreFifo(buf: seq<byte>, incoming: seq<Chunk>, sizes: seq<nat>)
    ensures var (results, buf', incoming') := Reads(buf, incoming, sizes);
            Flatten(results) + (buf' + Flatten(incoming')) == buf + Flatten(incoming)
    decreases |sizes|
  {
    if sizes != [] {
      var (data, buf', incoming') := ReadStep(buf, incoming, sizes[0]);
      var (more, buf'', incoming'') := Reads(buf', incoming', sizes[1..]);
      ReadStepKeepsBytes(buf, incoming, sizes[0]);
      ReadsAreFifo(buf', incoming', sizes[1..]);
      assert ([data] + more)[1..] == more;
      assert Flatten([data] + more) == data + Flatten(more);
    }
  }

  /** A nonempty read that returns nothing means the end: the writer is gone and every
      byte was delivered. */
  ghost predicate ZeroMeansEnd(buf: seq<byte>, incoming: seq<Chunk>) {
    forall len: nat :: len > 0 && ReadStep(buf, incoming, len).0 == [] ==> buf == [] && incoming == []
  }

  /** Over all runs of reads, a zero read means the end exactly when no chunk of the
      channel is empty; this is why empty writes are not sent. */
  lemma EndOfStreamIsSoundIff(incoming: seq<Chunk>)
    ensures (forall sizes: seq<nat> ::
               var (_, buf', incoming') := Reads([], incoming, sizes); ZeroMeansEnd(buf', incoming'))
            <==> NoEmptyChunk(incoming)
  {
    if NoEmptyChunk(incoming) {
      forall sizes: seq<nat>
        ensures var (_, buf', incoming') := Reads([], incoming, sizes); ZeroMeansEnd(buf', incoming')
      {
        NoEmptyChunkIsKept([], incoming, sizes);
      }
    } else {
      var sizes := ReachEmptyChunk(incoming);
      var (_, buf', incoming') := Reads([], incoming, sizes);
      assert ReadStep(buf', incoming', 1).0 == [];
    }
  }

  lemma {:induction false} NoEmptyChunkIsKept(buf: seq<byte>, incoming: seq<Chunk>, sizes: seq<nat>)
    requires NoEmptyChunk(incoming)
    ensures NoEmptyChunk(Reads(buf, incoming, sizes).2)
    ensures ZeroMeansEnd(Reads(buf, incoming, sizes).1, Reads(buf, incoming, sizes).2)
    decreases |sizes|
  {
    if sizes != [] {
      var (_, buf', incoming') := ReadStep(buf, incoming, sizes[0]);
      NoEmptyChunkIsKept(buf', incoming', sizes[1..]);
    }
  }

  /** Reading each chunk whole brings the first empty one to the front. */
  lemma {:induction false} ReachEmptyChunk(incoming: seq<Chunk>) returns (sizes: seq<nat>)
    requires !NoEmptyChunk(incoming)
    ensures var (_, buf', incoming') := Reads([], incoming, sizes);
            buf' == [] && incoming' != [] && incoming'[0] == []
    decreases |incoming|
  {
    if incoming[0] == [] {
      sizes := [];
    } else {
      var more := ReachEmptyChunk(incoming[1..]);
      sizes := [|incoming[0]|] + more;
      assert sizes[1..] == more;
    }
  }

  /** From the writes to the reads: whatever is written, empty writes included, and however
      it is read, what the reads return is a prefix of what was written; and the next
      nonempty read returns nothing exactly when all of it was delivered. */
  lemma WritesReachReads(writes: seq<seq<byte>>, sizes: seq<nat>, len: nat)
    requires len > 0
    ensures var (results, buf, incoming) := Reads([], Handed(writes), sizes);
            && Flatten(results) <= Flatten(writes)
            && (ReadStep(buf, incoming, len).0 == [] <==> Flatten(results) == Flatten(writes))
  {
    hide Reads, Handed, Flatten;
    HandedKeepsBytes(writes);
    ReadsAreFifo([], Handed(writes), sizes);
    NoEmptyChunkIsKept([], Handed(writes), sizes);
    var (results, buf, incoming) := Reads([], Handed(writes), sizes);
    assert [] + Flatten(Handed(writes)) == Flatten(writes);
    NothingUnreadIff(buf, incoming);
  }

  lemma {:induction false} HandedKeepsBytes(writes: seq<seq<byte>>)
    ensures Flatten(Handed(writes)) == Flatten(writes) && NoEmptyChunk(Handed(writes))
  {
    if writes != [] {
      HandedKeepsBytes(writes[1..]);
      if writes[0] == [] {
        assert [] + Handed(writes[1..]) == Handed(writes[1..]);
      }
    }
  }

  lemma NothingUnreadIff(buf: seq<byte>, incoming: seq<Chunk>)
    requires NoEmptyChunk(incoming)
    ensures buf + Flatten(incoming) == [] <==> buf == [] && incoming == []
  {
    if incoming != [] {
      assert |Flatten(incoming)| >= |incoming[0]| > 0;
    }
  }
}
