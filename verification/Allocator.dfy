/** The C library's fixed block allocator: a bitmap over equal blocks of one buffer. */
module Allocator {
  import opened Words
  import opened Errors

  /** Which blocks are handed out, and which were used up by requests too large for a
      block: those get NULL but keep their bit. */
  datatype Blocks = Blocks(live: set<nat>, spent: set<nat>) {
    ghost predicate WellFormed(count: nat) {
      && live !! spent
      && (forall i :: i in live ==> i < count)
      && (forall i :: i in spent ==> i < count)
    }
  }

  const NO_BLOCKS := Blocks({}, {})

  /** The lowest index in from..count that is not used, or count. */
  function FirstFree(used: set<nat>, from: nat, count: nat): (i: nat)
    requires from <= count
    ensures from <= i <= count
    ensures forall j :: from <= j < i ==> j in used
    ensures i < count ==> i !in used
    decreases count - from
  {
    if from == count || from !in used then from else FirstFree(used, from + 1, count)
  }

  /** malloc: the lowest free block, if the request fits one. */
  function MallocStep(b: Blocks, count: nat, blockSize: nat, size: nat): (Blocks, Option<nat>) {
    var i := FirstFree(b.live + b.spent, 0, count);
    if i == count then (b, None)
    else if size > blockSize then (Blocks(b.live, b.spent + {i}), None)
    else (Blocks(b.live + {i}, b.spent), Some(i))
  }

  /** free of the block with index i. */
  function FreeStep(b: Blocks, i: nat): Blocks {
    Blocks(b.live - {i}, b.spent - {i})
  }

  ghost predicate AllTaken(used: set<nat>, count: nat) {
    forall i: nat :: i < count ==> i in used
  }

  // Histories

  datatype Op = Malloc(size: nat) | Free(index: nat)

  /** The state after one operation. */
  function OpStep(b: Blocks, count: nat, blockSize: nat, op: Op): Blocks {
    match op
    case Malloc(size) => MallocStep(b, count, blockSize, size).0
    case Free(i) => FreeStep(b, i)
  }

  function RunOps(b: Blocks, count: nat, blockSize: nat, ops: seq<Op>): Blocks
    decreases |ops|
  {
    if ops == [] then b else
    RunOps(OpStep(b, count, blockSize, ops[0]), count, blockSize, ops[1..])
  }

  /** Bytes start..start+size of the buffer. */
  ghost predicate DisjointRanges(start1: nat, start2: nat, size: nat) {
    start1 + size <= start2 || start2 + size <= start1
  }

  /** Over every history, the blocks handed out are pairwise disjoint ranges inside the
      buffer, and none of them is counted as used up. */
  lemma LiveBlocksAreSeparate(count: nat, blockSize: nat, ops: seq<Op>)
    ensures var b := RunOps(NO_BLOCKS, count, blockSize, ops);
            && b.live !! b.spent
            && (forall i :: i in b.live ==> i * blockSize + blockSize <= count * blockSize)
            && (forall i, j :: i in b.live && j in b.live && i != j ==>
                  DisjointRanges(i * blockSize, j * blockSize, blockSize))
  {
    RunOpsKeepsWellFormed(NO_BLOCKS, count, blockSize, ops);
    var b := RunOps(NO_BLOCKS, count, blockSize, ops);
    forall i, j | i in b.live && j in b.live && i != j
      ensures DisjointRanges(i * blockSize, j * blockSize, blockSize)
    {
      BlocksAreDisjoint(i, j, blockSize);
    }
    forall i | i in b.live
      ensures i * blockSize + blockSize <= count * blockSize
    {
      LastByteInside(i, count, blockSize);
    }
  }

  /** Malloc gives the lowest free block, and NULL exactly when the request is too large or
      every block is taken; it touches no block in use. A NULL is not harmless: it changes
      the memory exactly when the request is too large and a block was free. */
  lemma MallocIsLowestFree(b: Blocks, count: nat, blockSize: nat, size: nat)
    ensures var (b', r) := MallocStep(b, count, blockSize, size);
            var used := b.live + b.spent;
            && (r == None <==> size > blockSize || AllTaken(used, count))
            && (r.Some? ==> r.value !in used && AllTaken(used, r.value) && b' == b.(live := b.live + {r.value}))
            && (r == None ==> b'.live == b.live && (b' != b <==> size > blockSize && !AllTaken(used, count)))
  {
    var used := b.live + b.spent;
    var i := FirstFree(used, 0, count);
    assert AllTaken(used, i);
    assert i < count ==> !AllTaken(used, count) && i !in b.spent && i in b.spent + {i};
  }

  /** free makes one block free and touches no other, handed out or used up. */
  lemma FreeIsOneBlock(b: Blocks, i: nat, j: nat)
    ensures var b' := FreeStep(b, i);
            if j == i then j !in b'.live + b'.spent
            else (j in b'.live <==> j in b.live) && (j in b'.spent <==> j in b.spent)
  {
  }

  // Blocks used up for good

  /** A history that frees only what was handed out, as a caller with NULL in hand for a
      used-up block cannot do otherwise. */
  ghost predicate FreesOnlyLive(b: Blocks, count: nat, blockSize: nat, ops: seq<Op>)
    decreases |ops|
  {
    ops == [] || (
      && (ops[0].Free? ==> ops[0].index in b.live)
      && FreesOnlyLive(OpStep(b, count, blockSize, ops[0]), count, blockSize, ops[1..]))
  }

  /** How many requests of a history were too large for a block while a block was free. */
  ghost function Lost(b: Blocks, count: nat, blockSize: nat, ops: seq<Op>): nat
    decreases |ops|
  {
    if ops == [] then 0 else
    var taken := AllTaken(b.live + b.spent, count);
    (if ops[0].Malloc? && ops[0].size > blockSize && !taken then 1 else 0)
    + Lost(OpStep(b, count, blockSize, ops[0]), count, blockSize, ops[1..])
  }

  /** Every such request takes one block away, and no other operation of such a history
      takes one away or gives one back. */
  lemma {:induction false} EveryLossIsABlock(b: Blocks, count: nat, blockSize: nat, ops: seq<Op>)
    requires b.WellFormed(count) && FreesOnlyLive(b, count, blockSize, ops)
    ensures var b' := RunOps(b, count, blockSize, ops);
            b'.WellFormed(count) && b.spent <= b'.spent && |b'.spent| == |b.spent| + Lost(b, count, blockSize, ops)
    decreases |ops|
  {
    if ops != [] {
      var next := OpStep(b, count, blockSize, ops[0]);
      OneLoss(b, count, blockSize, ops[0]);
      EveryLossIsABlock(next, count, blockSize, ops[1..]);
    }
  }

  lemma OneLoss(b: Blocks, count: nat, blockSize: nat, op: Op)
    requires b.WellFormed(count) && (op.Free? ==> op.index in b.live)
    ensures var b' := OpStep(b, count, blockSize, op);
            && b'.WellFormed(count) && b.spent <= b'.spent
            && |b'.spent| == |b.spent| +
               if op.Malloc? && op.size > blockSize && !AllTaken(b.live + b.spent, count) then 1 else 0
  {
    match op
    case Malloc(size) =>
      MallocIsLowestFree(b, count, blockSize, size);
    case Free(i) =>
      assert b.spent - {i} == b.spent;
  }

  /** No history that goes on from here gets a block again, not even for zero bytes. */
  ghost predicate Dead(b: Blocks, count: nat, blockSize: nat) {
    forall ops :: FreesOnlyLive(b, count, blockSize, ops) ==>
      MallocStep(RunOps(b, count, blockSize, ops), count, blockSize, 0).1 == None
  }

  /** Oversize requests disable the allocator for good: after any history it is dead exactly
      when as many of them found a free block as there are blocks. */
  lemma AllocatorIsDeadIff(count: nat, blockSize: nat, ops: seq<Op>)
    requires FreesOnlyLive(NO_BLOCKS, count, blockSize, ops)
    ensures Dead(RunOps(NO_BLOCKS, count, blockSize, ops), count, blockSize)
            <==> Lost(NO_BLOCKS, count, blockSize, ops) == count
  {
    hide RunOps, Lost;
    EveryLossIsABlock(NO_BLOCKS, count, blockSize, ops);
    var b := RunOps(NO_BLOCKS, count, blockSize, ops);
    AllBelow(b.spent, count);
    if AllTaken(b.spent, count) {
      AllSpentIsDead(b, count, blockSize);
    } else {
      NotAllSpentIsNotDead(b, count, blockSize);
    }
  }

  lemma AllSpentIsDead(b: Blocks, count: nat, blockSize: nat)
    requires b.WellFormed(count) && AllTaken(b.spent, count)
    ensures Dead(b, count, blockSize)
  {
    forall ops | FreesOnlyLive(b, count, blockSize, ops)
      ensures MallocStep(RunOps(b, count, blockSize, ops), count, blockSize, 0).1 == None
    {
      EveryLossIsABlock(b, count, blockSize, ops);
      MallocIsLowestFree(RunOps(b, count, blockSize, ops), count, blockSize, 0);
    }
  }

  lemma NotAllSpentIsNotDead(b: Blocks, count: nat, blockSize: nat)
    requires b.WellFormed(count) && !AllTaken(b.spent, count)
    ensures !Dead(b, count, blockSize)
  {
    var i: nat :| i < count && i !in b.spent;
    var ops: seq<Op> := if i in b.live then [Free(i)] else [];
    var b' := if i in b.live then FreeStep(b, i) else b;
    if i in b.live {
      assert ops[1..] == [];
      assert FreesOnlyLive(b', count, blockSize, ops[1..]) && RunOps(b', count, blockSize, ops[1..]) == b';
    }
    assert FreesOnlyLive(b, count, blockSize, ops) && RunOps(b, count, blockSize, ops) == b';
    assert i !in b'.live + b'.spent;
    MallocIsLowestFree(b', count, blockSize, 0);
  }

  /** A set of indexes below count holds them all exactly when it has count elements. */
  lemma {:induction false} AllBelow(s: set<nat>, count: nat)
    requires forall i :: i in s ==> i < count
    ensures |s| <= count && (|s| == count <==> AllTaken(s, count))
  {
    if count > 0 {
      var last := count - 1;
      AllBelow(s - {last}, last);
      if last in s {
        assert |s| == |s - {last}| + 1;
        assert AllTaken(s, count) <==> AllTaken(s - {last}, last);
      } else {
        assert s - {last} == s;
        assert !AllTaken(s, count);
      }
    } else {
      assert forall i :: i !in s;
      assert s == {};
    }
  }

  lemma BlocksAreDisjoint(i: nat, j: nat, blockSize: nat)
    requires i != j
    ensures DisjointRanges(i * blockSize, j * blockSize, blockSize)
  {
    if i < j {
      MulLe(i + 1, j, blockSize);
    } else {
      MulLe(j + 1, i, blockSize);
    }
  }

  lemma {:induction false} RunOpsKeepsWellFormed(b: Blocks, count: nat, blockSize: nat, ops: seq<Op>)
    requires b.WellFormed(count)
    ensures RunOps(b, count, blockSize, ops).WellFormed(count)
    decreases |ops|
  {
    if ops != [] {
      RunOpsKeepsWellFormed(OpStep(b, count, blockSize, ops[0]), count, blockSize, ops[1..]);
    }
  }

  // The bitmap

  /** `1 << index` in C's int, which is only defined for indexes up to 30. */
  function IntOneShl(index: nat): u64
    requires index <= 30
  {
    Pow2Monotone(index, 63);
    Pow2Values();
    Pow2(index)
  }

  /** The next malloc shifts by a defined amount, if it shifts at all. */
  ghost predicate ShiftDefined(b: Blocks, count: nat) {
    var i := FirstFree(b.live + b.spent, 0, count);
    i < count ==> i <= 30
  }

  /** The init and its comment allow 64 blocks, but the shifts are defined over all histories
      exactly up to 31 blocks; with more, 31 allocations in a row reach an undefined one. */
  lemma ShiftIsDefinedIff(count: nat, blockSize: nat)
    ensures (forall ops :: ShiftDefined(RunOps(NO_BLOCKS, count, blockSize, ops), count)) <==> count <= 31
  {
    hide FirstFree, RunOps, Below, Mallocs;
    if count > 31 {
      assert Below(0) == {};
      MallocsFill(0, 31, count, blockSize);
      FirstFreeAbove(31, count);
      assert !ShiftDefined(RunOps(NO_BLOCKS, count, blockSize, Mallocs(31)), count);
    }
  }

  function Below(n: nat): (s: set<nat>)
    ensures forall i: nat :: i in s <==> i < n
  {
    if n == 0 then {} else Below(n - 1) + {n - 1}
  }

  ghost function Mallocs(n: nat): seq<Op> {
    seq(n, _ => Malloc(0))
  }

  lemma FirstFreeAbove(n: nat, count: nat)
    requires n <= count
    ensures FirstFree(Below(n) + {}, 0, count) == n
  {
    var i := FirstFree(Below(n) + {}, 0, count);
    assert n !in Below(n) + {};
    assert i < n ==> i in Below(n) + {};
  }

  /** Allocations in a row fill the lowest blocks. */
  lemma {:induction false} MallocsFill(k: nat, n: nat, count: nat, blockSize: nat)
    requires k + n <= count
    ensures RunOps(Blocks(Below(k), {}), count, blockSize, Mallocs(n)) == Blocks(Below(k + n), {})
    decreases n
  {
    if n > 0 {
      FirstFreeAbove(k, count);
      assert Below(k) + {k} == Below(k + 1);
      assert Mallocs(n)[1..] == Mallocs(n - 1);
      MallocsFill(k + 1, n - 1, count, blockSize);
    }
  }

  /** `__builtin_ctzll`: the place of the lowest set bit. */
  function CountTrailingZeros(x: nat): (n: nat)
    requires x > 0
    ensures Bit(x, n)
    ensures forall i: nat :: i < n ==> !Bit(x, i)
  {
    if x % 2 == 1 then 0 else
    var n := CountTrailingZeros(x / 2);
    assert forall i: nat {:trigger Bit(x, i)} :: 0 < i ==> Bit(x, i) == Bit(x / 2, i - 1);
    n + 1
  }

  /** The bitmap has exactly the bits of a set. */
  ghost predicate Represents(flags: u64, used: set<nat>) {
    forall i: nat :: i < 64 ==> (Bit(flags, i) <==> i in used)
  }

  lemma RepresentsNothing()
    ensures Represents(0, {})
  {
    forall i: nat | i < 64
      ensures !Bit(0, i)
    {
      BitZero(i);
    }
  }

  /** The first zero bit is the lowest free index, if there is one. */
  lemma FirstZeroBit(flags: u64, used: set<nat>, count: nat)
    requires Represents(flags, used) && count <= 64
    ensures Not64(flags) == 0 ==> FirstFree(used, 0, count) == count
    ensures Not64(flags) != 0 ==>
              var n := CountTrailingZeros(Not64(flags));
              FirstFree(used, 0, count) == if n >= count then count else n
  {
    forall i: nat | i < 64
      ensures Bit(Not64(flags), i) <==> i !in used
    {
      BitNot64(flags, i);
      BitZero(i);
    }
    if Not64(flags) == 0 {
      forall i: nat | i < count
        ensures i in used
      {
        BitZero(i);
      }
    }
  }

  lemma SetBit(flags: u64, used: set<nat>, index: nat)
    requires Represents(flags, used) && index <= 30
    ensures Or(flags, IntOneShl(index)) < TWO_64
    ensures Represents(Or(flags, IntOneShl(index)), used + {index})
  {
    Pow2Values();
    OrBound(flags, IntOneShl(index), 64);
    forall i: nat | i < 64
      ensures Bit(Or(flags, IntOneShl(index)), i) <==> i in used + {index}
    {
      BitOr(flags, Pow2(index), i);
      BitPow2(index, i);
    }
  }

  lemma ClearBit(flags: u64, used: set<nat>, index: nat)
    requires Represents(flags, used) && index <= 30
    ensures And(flags, Not64(IntOneShl(index))) < TWO_64
    ensures Represents(And(flags, Not64(IntOneShl(index))), used - {index})
  {
    AndBound(flags, Not64(IntOneShl(index)));
    forall i: nat | i < 64
      ensures Bit(And(flags, Not64(IntOneShl(index))), i) <==> i in used - {index}
    {
      BitAnd(flags, Not64(IntOneShl(index)), i);
      BitNot64(IntOneShl(index), i);
      BitPow2(index, i);
    }
  }

  class FixedAllocator {
    var usedFlags: u64
    const blockCount: nat
    const len: nat
    const buf: array<byte>
    ghost var blocks: Blocks

    /** `fixed_allocator_init` with arguments it does not panic on. */
    constructor (buf: array<byte>, blockCount: nat)
      requires 1 <= blockCount <= 64 && 0 < buf.Length && buf.Length % blockCount == 0
      ensures Valid() && this.buf == buf && this.blockCount == blockCount && blocks == NO_BLOCKS
    {
      this.usedFlags, this.blockCount, this.len, this.buf := 0, blockCount, buf.Length, buf;
      blocks := NO_BLOCKS;
      new;
      RepresentsNothing();
    }

    /** The set bits are the live blocks and those used up by oversize requests. */
    ghost predicate Valid()
      reads this
    {
      && 1 <= blockCount <= 64 && len == buf.Length && 0 < len && len % blockCount == 0
      && blocks.WellFormed(blockCount)
      && Represents(usedFlags, blocks.live + blocks.spent)
    }

    function BlockSize(): (size: nat)
      requires blockCount >= 1
    {
      len / blockCount
    }

    lemma BlocksFill()
      requires Valid()
      ensures BlockSize() >= 1 && BlockSize() * blockCount == len
    {
    }

    /** `fixed_allocator_malloc`: an offset into the buffer, or None for NULL. */
    method Malloc(size: nat) returns (ptr: Option<nat>)
      requires Valid() && ShiftDefined(blocks, blockCount)
      modifies this
      ensures Valid()
      ensures var (after, index) := MallocStep(old(blocks), blockCount, BlockSize(), size);
              blocks == after && ptr == if index.Some? then Some(index.value * BlockSize()) else None
      ensures ptr.Some? ==> ptr.value + BlockSize() <= buf.Length
    {
      hide Or, Bit, Represents, FirstFree, Pow2, IntOneShl, BlockSize;
      BlocksFill();
      var revertFlags := Not64(usedFlags);
      FirstZeroBit(usedFlags, blocks.live + blocks.spent, blockCount);
      if revertFlags == 0 {
        return None;
      }
      var index := CountTrailingZeros(revertFlags);
      if index >= blockCount {
        return None;
      }
      SetBit(usedFlags, blocks.live + blocks.spent, index);
      usedFlags := Or(usedFlags, IntOneShl(index));
      var blockSize := BlockSize();
      if size > blockSize {
        blocks := Blocks(blocks.live, blocks.spent + {index});
        assert blocks.live + blocks.spent == old(blocks.live + blocks.spent) + {index};
        return None;
      }
      blocks := Blocks(blocks.live + {index}, blocks.spent);
      assert blocks.live + blocks.spent == old(blocks.live + blocks.spent) + {index};
      LastByteInside(index, blockCount, blockSize);
      ptr := Some(index * blockSize);
    }

    /** `fixed_allocator_free`; a pointer is an offset from the buffer's start, and only the
        start of a block inside the buffer is not a panic. */
    method Free(ptr: Option<int>) returns (panic: bool)
      requires Valid()
      requires ptr.Some? && 0 <= ptr.value < len && ptr.value % BlockSize() == 0 ==> ptr.value / BlockSize() <= 30
      modifies this
      ensures Valid()
      ensures ptr == None ==> !panic && blocks == old(blocks)
      ensures ptr.Some? ==> (panic <==> !(0 <= ptr.value < len && ptr.value % BlockSize() == 0))
      ensures panic ==> blocks == old(blocks)
      ensures ptr.Some? && !panic ==> blocks == FreeStep(old(blocks), ptr.value / BlockSize())
    {
      if ptr == None {
        return false;
      }
      if ptr.value < 0 || ptr.value >= len {
        return true;
      }
      var blockSize := len / blockCount;
      var offset := ptr.value;
      if offset % blockSize != 0 {
        return true;
      }
      var index := offset / blockSize;
      IndexInRange(offset, blockSize, blockCount);
      ClearBit(usedFlags, blocks.live + blocks.spent, index);
      usedFlags := And(usedFlags, Not64(IntOneShl(index)));
      blocks := FreeStep(blocks, index);
      assert blocks.live + blocks.spent == old(blocks.live + blocks.spent) - {index};
      panic := false;
    }
  }

  lemma LastByteInside(index: nat, count: nat, blockSize: nat)
    requires index < count
    ensures index * blockSize + blockSize <= blockSize * count
  {
    MulLe(index + 1, count, blockSize);
  }

  lemma IndexInRange(offset: nat, blockSize: nat, count: nat)
    requires blockSize >= 1 && offset < blockSize * count
    ensures 0 <= offset / blockSize < count
  {
    if offset / blockSize >= count {
      MulLe(count, offset / blockSize, blockSize);
    }
  }
}
