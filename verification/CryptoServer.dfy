/** The hasher sessions of the crypto service. The digest functions are parameters. */
module CryptoServer {
  import opened Words
  import Errors

  datatype HasherType = CkbBlake2b | Blake2b | Sha256 | Ripemd160

  datatype CryptoError = InvalidContext

  datatype CryptoResult<+T> = Ok(value: T) | Err(error: CryptoError)

  /** The digest library: a starting state, absorbing data, and the digest. */
  datatype Digests<!H> = Digests(
    start: HasherType -> H,
    absorb: (H, seq<byte>) -> H,
    digest: H -> seq<byte>)

  /** Absorbing in pieces is absorbing the whole. */
  ghost predicate Incremental<H(!new)>(lib: Digests<H>) {
    && (forall h: H, a, b :: lib.absorb(lib.absorb(h, a), b) == lib.absorb(h, a + b))
    && (forall h: H :: lib.absorb(h, []) == h)
  }

  /** The live sessions and how many were ever opened. */
  datatype Table<H> = Table(hashers: map<nat, H>, count: nat)

  datatype Op = New(kind: HasherType) | Update(id: nat, data: seq<byte>) | Finalize(id: nat)

  datatype Reply = Opened(id: nat) | Updated(result: CryptoResult<()>) | Digest(outcome: CryptoResult<seq<byte>>)

  function Step<H>(lib: Digests<H>, t: Table<H>, op: Op): (Table<H>, Reply) {
    match op
    case New(kind) =>
      (Table(t.hashers[t.count := lib.start(kind)], t.count + 1), Opened(t.count))
    case Update(id, data) =>
      if id in t.hashers then
        (Table(t.hashers[id := lib.absorb(t.hashers[id], data)], t.count), Updated(Ok(())))
      else (t, Updated(Err(InvalidContext)))
    case Finalize(id) =>
      if id in t.hashers then (Table(t.hashers - {id}, t.count), Digest(Ok(lib.digest(t.hashers[id]))))
      else (t, Digest(Err(InvalidContext)))
  }

  /** The table after a trace of operations of any clients, from an empty one. */
  function After<H>(lib: Digests<H>, trace: seq<Op>): Table<H> {
    if trace == [] then Table(map[], 0)
    else Step(lib, After(lib, trace[..|trace| - 1]), trace[|trace| - 1]).0
  }

  // What a trace says about one session

  /** How many sessions a trace opens. */
  function NewCount(trace: seq<Op>): nat {
    if trace == [] then 0
    else NewCount(trace[..|trace| - 1]) + if trace[|trace| - 1].New? then 1 else 0
  }

  /** The data of the updates of one session, end to end. */
  function UpdatesOf(trace: seq<Op>, id: nat): seq<byte> {
    if trace == [] then [] else
    var last := trace[|trace| - 1];
    UpdatesOf(trace[..|trace| - 1], id) + if last.Update? && last.id == id then last.data else []
  }

  lemma AfterSnoc<H>(lib: Digests<H>, trace: seq<Op>, op: Op)
    ensures After(lib, trace + [op]) == Step(lib, After(lib, trace), op).0
    ensures NewCount(trace + [op]) == NewCount(trace) + if op.New? then 1 else 0
    ensures forall id :: UpdatesOf(trace + [op], id) ==
                         UpdatesOf(trace, id) + if op.Update? && op.id == id then op.data else []
  {
    assert (trace + [op])[..|trace|] == trace;
  }

  /** Ids are handed out in order, and only opened ids are in the table. */
  lemma {:induction false} IdsAreFresh<H>(lib: Digests<H>, trace: seq<Op>)
    ensures After(lib, trace).count == NewCount(trace)
    ensures forall id :: id in After(lib, trace).hashers ==> id < NewCount(trace)
    ensures forall kind :: Step(lib, After(lib, trace), New(kind)).1 == Opened(NewCount(trace))
  {
    if trace != [] {
      IdsAreFresh(lib, trace[..|trace| - 1]);
    }
  }

  /** No id is handed out twice. */
  lemma OpenedIdsDiffer<H>(lib: Digests<H>, trace: seq<Op>, i: nat, j: nat)
    requires i < j < |trace| && trace[i].New? && trace[j].New?
    ensures Step(lib, After(lib, trace[..i]), trace[i]).1 != Step(lib, After(lib, trace[..j]), trace[j]).1
  {
    IdsAreFresh(lib, trace[..i]);
    IdsAreFresh(lib, trace[..j]);
    assert trace[..j] == trace[..i] + [trace[i]] + trace[i + 1..j];
    CountGrows(trace[..i] + [trace[i]], trace[i + 1..j]);
    AfterSnoc(lib, trace[..i], trace[i]);
  }

  /** The state of a session depends on nothing but its own operations since it was opened. */
  lemma {:induction false} SessionState<H(!new)>(lib: Digests<H>, before: seq<Op>, kind: HasherType, later: seq<Op>)
    requires Incremental(lib)
    ensures var id, t := NewCount(before), After(lib, before + [New(kind)] + later);
            && (id in t.hashers <==> Finalize(id) !in later)
            && (id in t.hashers ==> t.hashers[id] == lib.absorb(lib.start(kind), UpdatesOf(later, id)))
    decreases |later|
  {
    hide Step, After, NewCount, Incremental;
    var start, id := before + [New(kind)], NewCount(before);
    if later == [] {
      assert start + later == start;
      IdsAreFresh(lib, before);
      AfterSnoc(lib, before, New(kind));
      NewSession(lib, After(lib, before), kind);
    } else {
      hide UpdatesOf;
      var shorter, op := later[..|later| - 1], later[|later| - 1];
      SessionState(lib, before, kind, shorter);
      assert later == shorter + [op] && start + later == start + shorter + [op];
      AfterSnoc(lib, start + shorter, op);
      AfterSnoc(lib, before, New(kind));
      IdsAreFresh(lib, start + shorter);
      CountGrows(start, shorter);
      StepOnSession(
        lib, After(lib, start + shorter), id, lib.start(kind), UpdatesOf(shorter, id), Finalize(id) !in shorter, op);
    }
  }

  lemma NewSession<H(!new)>(lib: Digests<H>, t: Table<H>, kind: HasherType)
    requires Incremental(lib)
    ensures var t' := Step(lib, t, New(kind)).0;
            t.count in t'.hashers && t'.hashers[t.count] == lib.absorb(lib.start(kind), [])
  {
  }

  /** An operation touches a session only if it names it. */
  lemma StepOnSession<H(!new)>(lib: Digests<H>, t: Table<H>, id: nat, h: H, data: seq<byte>, live: bool, op: Op)
    requires Incremental(lib) && id < t.count
    requires id in t.hashers <==> live
    requires live ==> t.hashers[id] == lib.absorb(h, data)
    ensures var t' := Step(lib, t, op).0;
            && (id in t'.hashers <==> live && op != Finalize(id))
            && (id in t'.hashers ==>
                  t'.hashers[id] == lib.absorb(h, data + if op.Update? && op.id == id then op.data else []))
  {
    assert data + [] == data;
  }

  lemma {:induction false} CountGrows(a: seq<Op>, b: seq<Op>)
    ensures NewCount(a + b) == NewCount(a) + NewCount(b)
    decreases |b|
  {
    if b == [] {
      assert a + b == a;
    } else {
      assert (a + b)[..|a + b| - 1] == a + b[..|b| - 1];
      CountGrows(a, b[..|b| - 1]);
    }
  }

  /** Session isolation. In every interleaved trace, the session opened after `before`
      answers from its own history alone: while it was not finalized, finalizing gives the
      digest of its own updates, concatenated in order, and an update succeeds; from its
      finalization on, both are refused for ever. */
  lemma SessionsAreIsolated<H(!new)>(
    lib: Digests<H>, before: seq<Op>, kind: HasherType, later: seq<Op>, data: seq<byte>)
    requires Incremental(lib)
    ensures var id, t := NewCount(before), After(lib, before + [New(kind)] + later);
            if Finalize(id) in later then
              && Step(lib, t, Finalize(id)) == (t, Digest(Err(InvalidContext)))
              && Step(lib, t, Update(id, data)) == (t, Updated(Err(InvalidContext)))
            else
              && Step(lib, t, Finalize(id)).1 ==
                 Digest(Ok(lib.digest(lib.absorb(lib.start(kind), UpdatesOf(later, id)))))
              && Step(lib, t, Update(id, data)).1 == Updated(Ok(()))
  {
    SessionState(lib, before, kind, later);
  }

  /** An id that was not handed out yet is refused, and nothing changes. */
  lemma UnknownIdIsRefused<H>(lib: Digests<H>, trace: seq<Op>, id: nat, data: seq<byte>)
    requires id >= NewCount(trace)
    ensures var t := After(lib, trace);
            && Step(lib, t, Finalize(id)) == (t, Digest(Err(InvalidContext)))
            && Step(lib, t, Update(id, data)) == (t, Updated(Err(InvalidContext)))
  {
    IdsAreFresh(lib, trace);
  }

  /** Every id handed out in a trace is the id of one opening in it, so the two lemmas above
      cover every id. */
  lemma {:induction false} OpeningOf(trace: seq<Op>, id: nat)
    returns (before: seq<Op>, kind: HasherType, later: seq<Op>)
    requires id < NewCount(trace)
    ensures trace == before + [New(kind)] + later && NewCount(before) == id
  {
    var n := |trace| - 1;
    if id < NewCount(trace[..n]) {
      before, kind, later := OpeningOf(trace[..n], id);
      later := later + [trace[n]];
    } else {
      before, kind, later := trace[..n], trace[n].kind, [];
    }
  }

  // The server

  /** A boxed hasher: its context is taken by finalize. */
  datatype Hasher<H> = Hasher(ctx: Errors.Option<H>)

  class CryptoServer<H> {
    const lib: Digests<H>
    var hashers: map<u64, Hasher<H>>
    var hasherCount: u64

    constructor (lib: Digests<H>)
      ensures this.lib == lib && Valid() && Contents() == Table(map[], 0)
    {
      this.lib, this.hashers, this.hasherCount := lib, map[], 0;
    }

    /** No hasher in the table has lost its context. */
    ghost predicate Valid()
      reads this
    {
      forall id :: id in hashers ==> hashers[id].ctx.Some?
    }

    ghost function Contents(): Table<H>
      requires Valid()
      reads this
    {
      Table(map id: nat | id in hashers :: hashers[id].ctx.value, hasherCount)
    }

    /** `hasher_new`; None is the panic of the counter at its last value. */
    method HasherNew(kind: HasherType) returns (r: Errors.Option<u64>)
      requires Valid()
      modifies this
      ensures Valid()
      ensures r == Errors.None <==> old(Contents()).count == TWO_64 - 1
      ensures r == Errors.None ==> Contents() == old(Contents())
      ensures r.Some? ==> (Contents(), Opened(r.value)) == Step(lib, old(Contents()), New(kind))
    {
      var hash := Hasher(Errors.Some(lib.start(kind)));
      var id := hasherCount;
      if hasherCount == TWO_64 - 1 {
        return Errors.None;
      }
      hasherCount := hasherCount + 1;
      hashers := hashers[id := hash];
      r := Errors.Some(id);
      assert Contents().hashers == old(Contents()).hashers[id as nat := lib.start(kind)];
    }

    /** `hasher_update`. */
    method HasherUpdate(ctx: u64, data: seq<byte>) returns (r: CryptoResult<()>)
      requires Valid()
      modifies this
      ensures Valid() && (Contents(), Updated(r)) == Step(lib, old(Contents()), Update(ctx, data))
    {
      if ctx in hashers {
        var hasher := hashers[ctx];
        hashers := hashers[ctx := Hasher(Errors.Some(lib.absorb(hasher.ctx.value, data)))];
        assert Contents().hashers == old(Contents()).hashers[ctx as nat := lib.absorb(hasher.ctx.value, data)];
        return Ok(());
      }
      r := Err(InvalidContext);
    }

    /** `hasher_finalize`. */
    method HasherFinalize(ctx: u64) returns (r: CryptoResult<seq<byte>>)
      requires Valid()
      modifies this
      ensures Valid() && (Contents(), Digest(r)) == Step(lib, old(Contents()), Finalize(ctx))
    {
      if ctx in hashers {
        var hasher := hashers[ctx];
        hashers := hashers - {ctx};
        assert Contents().hashers == old(Contents()).hashers - {ctx as nat};
        return Ok(lib.digest(hasher.ctx.value));
      }
      r := Err(InvalidContext);
    }
  }
}
