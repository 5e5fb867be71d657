/**
 * The pool allocator: blocks are cut downwards from the free end of a chunk, each behind a header that
 * holds its size, and the chunk starts over once everything in it has been returned.
 */
module PoolAllocator {
  import opened Arithmetic
  import opened Collections

  // ---------- the account of one chunk ----------

  const HEADER := 4  // sizeof(size_t)
  const MINALIGN := 4
  const CHUNK_DEFAULT_SIZE := 32 * 1024

  /** A size_t has 32 bits. */
  type Size = n: nat | n < 0x1_0000_0000

  function Wrapped(n: nat): Size { n % 0x1_0000_0000 }

  lemma WrappedIs(n: nat)
    ensures n < 0x1_0000_0000 ==> Wrapped(n) == n
    ensures 0x1_0000_0000 <= n < 0x2_0000_0000 ==> Wrapped(n) == n - 0x1_0000_0000
  {}

  /** A block in use: the offset of its header, and its size with the header. */
  datatype Block = Block(off: nat, size: nat) {
    predicate Apart(other: Block) { off + size <= other.off || other.off + other.size <= off }
  }

  /** A chunk's counters, and the blocks in use. */
  datatype Account = Account(free: nat, bound: nat, live: seq<Block>)

  function Total(blocks: seq<Block>): nat {
    if blocks == [] then 0 else Total(blocks[..|blocks| - 1]) + blocks[|blocks| - 1].size
  }

  /**
   * Every block in use lies in the chunk above the free end, apart from all others; every byte is free,
   * bound or in use; and when no block is in use all bytes are free.
   */
  ghost predicate Sound(n: nat, a: Account) {
    && a.free + a.bound + Total(a.live) == n
    && (forall i :: 0 <= i < |a.live| ==> a.free <= a.live[i].off && a.live[i].off + a.live[i].size <= n)
    && (forall i :: 0 <= i < |a.live| ==> a.live[i].size > HEADER)
    && (forall i, j :: 0 <= i < j < |a.live| ==> a.live[i].Apart(a.live[j]))
    && (a.live == [] ==> a.free == n)
  }

  /** A block of `size` bytes, header included, cut from the free end. */
  function Cut(a: Account, size: nat): Account
    requires size <= a.free
  {
    Account(a.free - size, a.bound, a.live + [Block(a.free - size, size)])
  }

  /** The k-th block returned, with the size that mem_pool_free believes it has. */
  function Returned(n: nat, a: Account, k: nat, size: nat): Account
    requires k < |a.live|
  {
    if Wrapped(a.free + a.bound + size) >= n then Account(n, 0, Removed(a.live, k))
    else if a.live[k].off == a.free then Account(Wrapped(a.free + size), a.bound, Removed(a.live, k))
    else Account(a.free, Wrapped(a.bound + size), Removed(a.live, k))
  }

  lemma CutSound(n: nat, a: Account, size: nat)
    requires Sound(n, a) && size <= a.free
    ensures Sound(n, Cut(a, size)) <==> size > HEADER
  {
    var b := Cut(a, size);
    assert b.live[..|b.live| - 1] == a.live;
  }

  lemma {:induction false} TotalWithout(blocks: seq<Block>, k: nat)
    requires k < |blocks|
    ensures Total(Removed(blocks, k)) + blocks[k].size == Total(blocks)
  {
    var last := |blocks| - 1;
    if k == last {
      assert Removed(blocks, k) == blocks[..last];
    } else {
      TotalWithout(blocks[..last], k);
      var rest := Removed(blocks, k);
      assert rest[..|rest| - 1] == Removed(blocks[..last], k);
    }
  }

  lemma {:induction false} TotalPositive(blocks: seq<Block>)
    requires forall i :: 0 <= i < |blocks| ==> blocks[i].size > HEADER
    ensures Total(blocks) == 0 <==> blocks == []
  {
    if blocks != [] { TotalPositive(blocks[..|blocks| - 1]); }
  }

  /** Which blocks remain, and that they stay apart. */
  lemma WithoutKeeps(n: nat, a: Account, k: nat)
    requires Sound(n, a) && k < |a.live|
    ensures forall i :: 0 <= i < |Removed(a.live, k)| ==> Removed(a.live, k)[i] in a.live && Removed(a.live, k)[i].Apart(a.live[k])
    ensures forall i, j :: 0 <= i < j < |Removed(a.live, k)| ==> Removed(a.live, k)[i].Apart(Removed(a.live, k)[j])
  {
    var rest := Removed(a.live, k);
    forall i | 0 <= i < |rest| ensures rest[i] in a.live && rest[i].Apart(a.live[k]) {
      assert rest[i] == a.live[if i < k then i else i + 1];
    }
    forall i, j | 0 <= i < j < |rest| ensures rest[i].Apart(rest[j]) {
      assert rest[i] == a.live[if i < k then i else i + 1] && rest[j] == a.live[if j < k then j else j + 1];
    }
  }

  /** The size is the block's own; or the block is the only one, the size is enough, and the sum does not wrap around. */
  predicate RightSize(a: Account, k: nat, size: nat)
    requires k < |a.live|
  {
    size == a.live[k].size || (|a.live| == 1 && size >= a.live[k].size && a.free + a.bound + size < 0x1_0000_0000)
  }

  /** Returning a block keeps the account exactly when the size used is right. */
  lemma ReturnedSound(n: Size, a: Account, k: nat, size: Size)
    requires Sound(n, a) && k < |a.live|
    ensures Sound(n, Returned(n, a, k, size)) <==> RightSize(a, k, size)
  {
    hide Removed, Total, Block.Apart, Wrapped;
    RestSound(n, a, k);
    WrappedIs(a.free + a.bound + size);
    WrappedIs(a.free + size);
    WrappedIs(a.bound + size);
  }

  /** What is known of the blocks that remain. */
  lemma RestSound(n: nat, a: Account, k: nat)
    requires Sound(n, a) && k < |a.live|
    ensures var rest := Removed(a.live, k);
            && Total(rest) + a.live[k].size == Total(a.live) && (Total(rest) == 0 <==> rest == [])
            && (forall i :: 0 <= i < |rest| ==> rest[i].size > HEADER && a.free <= rest[i].off && rest[i].off + rest[i].size <= n)
            && (forall i :: 0 <= i < |rest| && a.live[k].off == a.free ==> a.free + a.live[k].size <= rest[i].off)
            && (forall i, j :: 0 <= i < j < |rest| ==> rest[i].Apart(rest[j]))
  {
    var rest := Removed(a.live, k);
    TotalWithout(a.live, k);
    WithoutKeeps(n, a, k);
    forall i | 0 <= i < |rest| ensures rest[i].size > HEADER && a.free <= rest[i].off && rest[i].off + rest[i].size <= n {
      assert rest[i] in a.live;
    }
    TotalPositive(rest);
  }

  /** The chunk starts over exactly when the block returned is the only one in use. */
  lemma ResetOnlyWhenLast(n: nat, a: Account, k: nat)
    requires Sound(n, a) && k < |a.live|
    ensures a.free + a.bound + a.live[k].size >= n <==> |a.live| == 1
  {
    var rest := Removed(a.live, k);
    TotalWithout(a.live, k);
    WithoutKeeps(n, a, k);
    forall i | 0 <= i < |rest| ensures rest[i].size > HEADER { assert rest[i] in a.live; }
    TotalPositive(rest);
  }

  /** Giving back the block cut last undoes the cut, unless it was the only one and the chunk starts over. */
  lemma ReturnUndoesCut(n: Size, a: Account, size: Size)
    requires Sound(n, a) && HEADER < size <= a.free
    ensures Returned(n, Cut(a, size), |a.live|, size) == if a.live == [] then Account(n, 0, []) else a
  {
    CutSound(n, a, size);
    var b := Cut(a, size);
    ResetOnlyWhenLast(n, b, |a.live|);
    assert Removed(b.live, |a.live|) == a.live;
    WrappedIs(b.free + b.bound + size);
    WrappedIs(b.free + size);
  }

  /** A block that is not the lowest is bound until the chunk starts over; the free end stays. */
  lemma ReturnBinds(n: Size, a: Account, k: nat)
    requires Sound(n, a) && k < |a.live| && |a.live| > 1 && a.live[k].off != a.free
    ensures Returned(n, a, k, a.live[k].size) == Account(a.free, a.bound + a.live[k].size, Removed(a.live, k))
  {
    ResetOnlyWhenLast(n, a, k);
    RestSound(n, a, k);
    WrappedIs(a.free + a.bound + a.live[k].size);
    WrappedIs(a.bound + a.live[k].size);
  }

  /** A size read from anywhere but the header need not fit: two blocks of eight, and five read for one. */
  lemma WrongSizeBreaks()
    ensures var a := Account(16, 0, [Block(24, 8), Block(16, 8)]);
            Sound(32, a) && !Sound(32, Returned(32, a, 0, 5))
  {
    var a := Account(16, 0, [Block(24, 8), Block(16, 8)]);
    var b := Account(24, 0, [Block(24, 8)]);
    assert a.live[..1] == b.live && b.live[..0] == [];
    assert Total(b.live) == 8 && Total(a.live) == 16;
    ReturnedSound(32, a, 0, 5);
  }

  /** In a pool of eight megabytes with one block, a payload of ones wraps the sum around: nothing starts over. */
  lemma AllOnesBreak()
    ensures var n := 0x80_0000;
            var a := Account(n - 8, 0, [Block(n - 8, 8)]);
            Sound(n, a) && Returned(n, a, 0, 0xffff_ffff) == Account(n - 9, 0, []) && !Sound(n, Account(n - 9, 0, []))
  {
    var n := 0x80_0000;
    var a := Account(n - 8, 0, [Block(n - 8, 8)]);
    assert a.live[..0] == [];
    assert Total(a.live) == 8;
    WrappedIs(n - 8 + 0xffff_ffff);
    assert Removed(a.live, 0) == [];
  }

  // ---------- what is asked for and what is given back ----------

  function Asked(size: Size, quantum: Size): Size { if size == 0 then quantum else size }

  /** The size with its header, which wraps around for a request within four bytes of 2^32. */
  function Need(size: Size, quantum: Size): Size { Wrapped(Asked(size, quantum) + HEADER) }

  predicate NeedWraps(size: Size, quantum: Size) { Asked(size, quantum) + HEADER >= 0x1_0000_0000 }

  lemma NeedIs(size: Size, quantum: Size)
    requires quantum > 0
    ensures if NeedWraps(size, quantum) then Need(size, quantum) < HEADER else Need(size, quantum) == Asked(size, quantum) + HEADER > HEADER
  {
    WrappedIs(Asked(size, quantum) + HEADER);
  }

  /** A header takes four bytes; nothing asked for is one quantum. */
  lemma NeedValues(size: Size, quantum: Size)
    requires size < 0xffff_fffc && quantum < 0xffff_fffc
    ensures size > 0 ==> Need(size, quantum) == size + 4
    ensures Need(0, quantum) == quantum + 4
  {
    WrappedIs(size + HEADER);
    WrappedIs(quantum + HEADER);
  }

  /** The least multiple of the quantum that is not smaller. */
  function RoundedUp(size: nat, quantum: nat): nat
    requires quantum > 0
  {
    if size % quantum == 0 then size else size + (quantum - size % quantum)
  }

  lemma RoundedUpIs(size: nat, quantum: nat)
    requires quantum > 0
    ensures RoundedUp(size, quantum) % quantum == 0 && size <= RoundedUp(size, quantum) < size + quantum
  {
    SmallRemainder(size, quantum);
    if size % quantum != 0 { DivisionUnique(RoundedUp(size, quantum), quantum, size / quantum + 1, 0); }
  }

  /** What mem_pool_free makes of the size it has read. */
  function Adjusted(size: Size, quantum: Size): Size
    requires quantum > 0
  {
    if size == 0 then quantum
    else if quantum > 1 && size % quantum != 0 then Wrapped(size + (quantum - size % quantum)) else size
  }

  /** Among the sizes of blocks, those the quantum divides are given back as they are. */
  lemma AdjustedIs(size: Size, quantum: Size)
    requires quantum > 0 && size > 0
    ensures size % quantum == 0 ==> Adjusted(size, quantum) == size
    ensures size % quantum != 0 ==> RoundedUp(size, quantum) > size
    ensures var r := RoundedUp(size, quantum);
            size % quantum != 0 ==> Adjusted(size, quantum) == (if r < 0x1_0000_0000 then r else r - 0x1_0000_0000) != size
    ensures RoundedUp(size, quantum) >= 0x1_0000_0000 ==> Adjusted(size, quantum) < size
    ensures Adjusted(0, quantum) == quantum
  {
    hide Wrapped;
    SmallRemainder(size, quantum);
    WrappedIs(RoundedUp(size, quantum));
  }

  lemma SmallRemainder(size: nat, quantum: nat)
    requires quantum > 0
    ensures 0 <= size % quantum < quantum && (quantum == 1 ==> size % quantum == 0)
  {}

  /**
   * A block can be given back by its header: the quantum divides its size, or it is the only block and its
   * size rounded up does not wrap the sum around.
   */
  predicate Returnable(a: Account, k: nat, quantum: nat)
    requires k < |a.live| && quantum > 0
  {
    var size := a.live[k].size;
    size % quantum == 0 || (|a.live| == 1 && a.free + a.bound + RoundedUp(size, quantum) < 0x1_0000_0000)
  }

  lemma ReturnableIsRight(n: Size, a: Account, k: nat, quantum: Size)
    requires Sound(n, a) && k < |a.live| && quantum > 0
    ensures a.live[k].size < 0x1_0000_0000
    ensures RightSize(a, k, Adjusted(a.live[k].size, quantum)) <==> Returnable(a, k, quantum)
  {
    hide Adjusted, RoundedUp;
    var size := a.live[k].size;
    AdjustedIs(size, quantum);
    if size % quantum == 0 { RoundedUpOwn(size, quantum); }
  }

  lemma RoundedUpOwn(size: nat, quantum: nat)
    requires quantum > 0 && size % quantum == 0
    ensures RoundedUp(size, quantum) == size
  {}

  // ---------- any run ----------

  /** mem_pool_alloc of `size` bytes, or mem_pool_free of the k-th block in use in a chunk, counted from the first chunk on. */
  datatype Op = Alloc(size: Size) | Free(chunk: nat, k: nat)

  /** The current chunk's account, and those of the chunks that newer ones have replaced. */
  datatype Pool = Pool(current: seq<Account>, dropped: seq<Account>) {
    /** The operation gives back a block of the current chunk. */
    predicate Frees(op: Op) { op.Free? && current != [] && op.chunk == |dropped| && op.k < |current[0].live| }
  }

  /** A block that does not fit takes a new chunk; a block of a replaced chunk is not found. */
  function Apply(n: Size, quantum: Size, p: Pool, op: Op): Pool
    requires quantum > 0
  {
    match op
    case Alloc(size) =>
      var need := Need(size, quantum);
      if need > n then p
      else if p.current == [] || need > p.current[0].free
      then Pool([Cut(Account(n, 0, []), need)], p.dropped + p.current)
      else Pool([Cut(p.current[0], need)] + p.current[1..], p.dropped)
    case Free(chunk, k) =>
      if p.Frees(op)
      then Pool([Returned(n, p.current[0], k, Adjusted(Wrapped(p.current[0].live[k].size), quantum))] + p.current[1..], p.dropped)
      else p
  }

  function Run(n: Size, quantum: Size, ops: seq<Op>): Pool
    requires quantum > 0
  {
    if ops == [] then Pool([], []) else Apply(n, quantum, Run(n, quantum, ops[..|ops| - 1]), ops[|ops| - 1])
  }

  /** The current chunk, of which there is at most one, and every chunk it replaced are sound. */
  ghost predicate PoolSound(n: nat, p: Pool) {
    && |p.current| <= 1
    && (forall i :: 0 <= i < |p.current| ==> Sound(n, p.current[i]))
    && (forall i :: 0 <= i < |p.dropped| ==> Sound(n, p.dropped[i]))
  }

  /** What a caller can know beforehand: a request that wraps around is refused all the same; a block can be given back. */
  predicate Fair(n: Size, quantum: Size, p: Pool, op: Op)
    requires quantum > 0
  {
    match op
    case Alloc(size) => !NeedWraps(size, quantum) || Need(size, quantum) > n
    case Free(_, k) => p.Frees(op) ==> Returnable(p.current[0], k, quantum)
  }

  lemma PoolSoundIs(n: nat, a: Account, dropped: seq<Account>)
    ensures PoolSound(n, Pool([a], dropped)) <==> Sound(n, a) && forall i :: 0 <= i < |dropped| ==> Sound(n, dropped[i])
  {
    hide Sound;
    var p := Pool([a], dropped);
    assert p.current[0] == a;
  }

  /** One operation keeps a sound pool sound exactly when it is fair. */
  lemma StepSound(n: Size, quantum: Size, p: Pool, op: Op)
    requires quantum > 0 && PoolSound(n, p)
    ensures PoolSound(n, Apply(n, quantum, p, op)) <==> Fair(n, quantum, p, op)
  {
    hide Sound, Adjusted, Need, NeedWraps, Returnable, Cut, Returned;
    match op
    case Alloc(size) => AllocSound(n, quantum, p, size);
    case Free(chunk, k) =>
      if p.Frees(op) {
        var a := p.current[0];
        assert p.current == [a] && p.current[1..] == [];
        FreeSound(n, quantum, a, p.dropped, k);
        var b := Returned(n, a, k, Adjusted(Wrapped(a.live[k].size), quantum));
        assert [b] + p.current[1..] == [b];
      }
  }

  lemma FreeSound(n: Size, quantum: Size, a: Account, dropped: seq<Account>, k: nat)
    requires quantum > 0 && PoolSound(n, Pool([a], dropped)) && k < |a.live|
    ensures PoolSound(n, Pool([Returned(n, a, k, Adjusted(Wrapped(a.live[k].size), quantum))], dropped)) <==> Returnable(a, k, quantum)
  {
    hide Sound, Adjusted, Returnable, Returned, PoolSound, RightSize, Wrapped;
    PoolSoundIs(n, a, dropped);
    ReturnableIsRight(n, a, k, quantum);
    WrappedIs(a.live[k].size);
    var size := Adjusted(a.live[k].size, quantum);
    ReturnedSound(n, a, k, size);
    PoolSoundIs(n, Returned(n, a, k, size), dropped);
  }

  lemma AllocSound(n: Size, quantum: Size, p: Pool, size: Size)
    requires quantum > 0 && PoolSound(n, p)
    ensures PoolSound(n, Apply(n, quantum, p, Alloc(size))) <==> !NeedWraps(size, quantum) || Need(size, quantum) > n
  {
    hide Sound, Need, NeedWraps, Cut;
    var need := Need(size, quantum);
    NeedIs(size, quantum);
    if need <= n {
      if p.current == [] || need > p.current[0].free {
        EmptySound(n);
        CutSound(n, Account(n, 0, []), need);
        PoolSoundIs(n, Cut(Account(n, 0, []), need), p.dropped + p.current);
      } else {
        CutSound(n, p.current[0], need);
        PoolSoundIs(n, Cut(p.current[0], need), p.dropped);
        assert p.current[1..] == [] && [Cut(p.current[0], need)] + p.current[1..] == [Cut(p.current[0], need)];
      }
    }
  }

  lemma EmptySound(n: nat)
    ensures Sound(n, Account(n, 0, []))
  {}

  /** After j operations the pool is sound; the operation after them is fair. */
  ghost predicate SoundAt(n: Size, quantum: Size, ops: seq<Op>, j: nat)
    requires quantum > 0 && j <= |ops|
  {
    PoolSound(n, Run(n, quantum, ops[..j]))
  }

  predicate FairAt(n: Size, quantum: Size, ops: seq<Op>, j: nat)
    requires quantum > 0 && j < |ops|
  {
    Fair(n, quantum, Run(n, quantum, ops[..j]), ops[j])
  }

  lemma SameBefore(n: Size, quantum: Size, ops: seq<Op>, m: nat, j: nat)
    requires quantum > 0 && j <= m <= |ops|
    ensures SoundAt(n, quantum, ops, j) == SoundAt(n, quantum, ops[..m], j)
    ensures j < m ==> FairAt(n, quantum, ops, j) == FairAt(n, quantum, ops[..m], j)
  {
    hide PoolSound, Fair, Run;
    assert ops[..j] == ops[..m][..j];
  }

  lemma LastStep(n: Size, quantum: Size, ops: seq<Op>)
    requires quantum > 0 && ops != [] && SoundAt(n, quantum, ops, |ops| - 1)
    ensures SoundAt(n, quantum, ops, |ops|) <==> FairAt(n, quantum, ops, |ops| - 1)
  {
    hide PoolSound, Fair, Apply;
    assert ops[..|ops|] == ops;
    StepSound(n, quantum, Run(n, quantum, ops[..|ops| - 1]), ops[|ops| - 1]);
  }

  /** For every quantum and every run: the pool is sound all along exactly when every operation is fair. */
  lemma {:induction false} RunSound(n: Size, quantum: Size, ops: seq<Op>)
    requires quantum > 0
    ensures (forall j :: 0 <= j <= |ops| ==> SoundAt(n, quantum, ops, j)) <==> (forall j :: 0 <= j < |ops| ==> FairAt(n, quantum, ops, j))
  {
    hide SoundAt, FairAt;
    if ops == [] {
      NothingSoundAt(n, quantum);
    } else {
      var m := |ops| - 1;
      RunSound(n, quantum, ops[..m]);
      forall j | 0 <= j <= m
        ensures SoundAt(n, quantum, ops, j) == SoundAt(n, quantum, ops[..m], j)
        ensures j < m ==> FairAt(n, quantum, ops, j) == FairAt(n, quantum, ops[..m], j)
      {
        SameBefore(n, quantum, ops, m, j);
      }
      if forall j :: 0 <= j <= m ==> SoundAt(n, quantum, ops, j) {
        LastStep(n, quantum, ops);
      }
    }
  }

  lemma NothingSoundAt(n: Size, quantum: Size)
    requires quantum > 0
    ensures SoundAt(n, quantum, [], 0)
  {
    NothingSound(n);
  }

  lemma NothingSound(n: nat)
    ensures PoolSound(n, Pool([], []))
  {}

  /** A request that does not wrap around, and whose size with header the quantum divides. */
  predicate Regular(size: Size, quantum: Size)
    requires quantum > 0
  {
    !NeedWraps(size, quantum) && (Asked(size, quantum) + HEADER) % quantum == 0
  }

  /** With regular requests, and so with quantum 1 and any that do not wrap around, every run is sound. */
  lemma {:induction false} RegularRunSound(n: Size, quantum: Size, ops: seq<Op>)
    requires quantum > 0 && forall i :: 0 <= i < |ops| && ops[i].Alloc? ==> Regular(ops[i].size, quantum)
    ensures PoolSound(n, Run(n, quantum, ops)) && Divided(Run(n, quantum, ops), quantum)
  {
    hide PoolSound, Fair, Apply, Divided, Regular;
    if ops == [] {
      NothingSound(n);
      NothingDivided(quantum);
    } else {
      var before, op := ops[..|ops| - 1], ops[|ops| - 1];
      RegularRunSound(n, quantum, before);
      StaysDivided(n, quantum, Run(n, quantum, before), op);
      StepSound(n, quantum, Run(n, quantum, before), op);
    }
  }

  /** The quantum divides the size of every block in use in the current chunk. */
  predicate Divided(p: Pool, quantum: nat)
    requires quantum > 0
  {
    forall i :: 0 <= i < |p.current| ==> forall k :: 0 <= k < |p.current[i].live| ==> p.current[i].live[k].size % quantum == 0
  }

  lemma NothingDivided(quantum: nat)
    requires quantum > 0
    ensures Divided(Pool([], []), quantum)
  {}

  lemma StaysDivided(n: Size, quantum: Size, p: Pool, op: Op)
    requires quantum > 0 && Divided(p, quantum) && PoolSound(n, p) && (op.Alloc? ==> Regular(op.size, quantum))
    ensures Fair(n, quantum, p, op) && Divided(Apply(n, quantum, p, op), quantum)
  {
    hide Sound, Adjusted, Need, NeedWraps, Wrapped;
    if op.Alloc? { NeedIs(op.size, quantum); }
  }

  /** Three operations with quantum 8: the first block of five is given back as eight. */
  lemma RoundingBreaks()
    ensures var ops := [Alloc(1), Alloc(1), Free(0, 0)];
            PoolSound(100, Run(100, 8, ops[..2])) && !PoolSound(100, Run(100, 8, ops))
  {
    hide PoolSound, Sound;
    var ops := [Alloc(1), Alloc(1), Free(0, 0)];
    var a := Account(90, 0, [Block(95, 5), Block(90, 5)]);
    TwoSmallBlocks();
    assert ops[..2] == [Alloc(1), Alloc(1)];
    assert Run(100, 8, ops) == Apply(100, 8, Run(100, 8, ops[..2]), Free(0, 0));
    assert !Returnable(a, 0, 8);
    StepSound(100, 8, Pool([a], []), Free(0, 0));
  }

  lemma TwoSmallBlocks()
    ensures var p := Pool([Account(90, 0, [Block(95, 5), Block(90, 5)])], []);
            Run(100, 8, [Alloc(1), Alloc(1)]) == p && PoolSound(100, p)
  {
    hide Sound, Run, Apply;
    var none, one := Account(100, 0, []), Account(95, 0, [Block(95, 5)]);
    EmptySound(100);
    TwoCuts();
    CutSound(100, none, 5);
    CutSound(100, one, 5);
    RunOfTwo();
  }

  lemma TwoCuts()
    ensures var none, one := Account(100, 0, []), Account(95, 0, [Block(95, 5)]);
            Cut(none, 5) == one && Cut(one, 5) == Account(90, 0, [Block(95, 5), Block(90, 5)])
  {}

  lemma RunOfTwo()
    ensures Run(100, 8, [Alloc(1), Alloc(1)]) == Pool([Account(90, 0, [Block(95, 5), Block(90, 5)])], [])
  {
    hide Need, Cut;
    var one := Account(95, 0, [Block(95, 5)]);
    NeedIs(1, 8);
    TwoCuts();
    assert [Alloc(1)][..0] == [] && [Alloc(1), Alloc(1)][..1] == [Alloc(1)];
    assert Run(100, 8, []) == Pool([], []);
    assert Run(100, 8, [Alloc(1)]) == Pool([one], []);
    assert [Cut(one, 5)] + [one][1..] == [Cut(one, 5)];
  }

  /** A request for 2^32 - 1 bytes is granted, with three. */
  lemma HugeRequestGranted(n: Size, quantum: Size)
    requires quantum > 0 && n >= HEADER
    ensures Need(0xffff_ffff, quantum) == 3
    ensures !PoolSound(n, Run(n, quantum, [Alloc(0xffff_ffff)]))
  {
    WrappedIs(0xffff_ffff + HEADER);
    NothingSound(n);
    assert [Alloc(0xffff_ffff)][..0] == [];
    assert Run(n, quantum, []) == Pool([], []);
    StepSound(n, quantum, Pool([], []), Alloc(0xffff_ffff));
  }

  /** Whatever happens later, frees of its blocks included: the account of a replaced chunk never changes again. */
  lemma {:induction false} DroppedForGood(n: Size, quantum: Size, ops: seq<Op>, later: seq<Op>)
    requires quantum > 0
    ensures Run(n, quantum, ops).dropped <= Run(n, quantum, ops + later).dropped
  {
    if later == [] {
      assert ops + later == ops;
    } else {
      var before := later[..|later| - 1];
      DroppedForGood(n, quantum, ops, before);
      assert (ops + later)[..|ops + later| - 1] == ops + before;
    }
  }

  // ---------- the allocator over memory ----------

  newtype Octet = x: int | 0 <= x < 256

  /** A size_t as it lies in memory. */
  function StoredSize(n: nat): (b: seq<Octet>)
    requires n < 0x1_0000_0000
    ensures |b| == HEADER
  {
    [(n % 0x100) as Octet, (n / 0x100 % 0x100) as Octet, (n / 0x1_0000 % 0x100) as Octet, (n / 0x100_0000) as Octet]
  }

  function LoadSize(b: seq<Octet>): (n: nat)
    requires |b| == HEADER
    ensures n < 0x1_0000_0000
  {
    b[0] as nat + b[1] as nat * 0x100 + b[2] as nat * 0x1_0000 + b[3] as nat * 0x100_0000
  }

  lemma LoadStoredSize(n: nat)
    requires n < 0x1_0000_0000
    ensures LoadSize(StoredSize(n)) == n
  {
    Bytes(n, n / 0x100, n / 0x1_0000, n / 0x100_0000);
  }

  lemma Bytes(n: nat, n1: nat, n2: nat, n3: nat)
    requires n1 == n / 0x100 && n2 == n / 0x1_0000 && n3 == n / 0x100_0000
    ensures n == n3 * 0x100_0000 + n2 % 0x100 * 0x1_0000 + n1 % 0x100 * 0x100 + n % 0x100
  {
    DivisionUnique(n, 0x1_0000, n1 / 0x100, n1 % 0x100 * 0x100 + n % 0x100);
    DivisionUnique(n, 0x100_0000, n2 / 0x100, n2 % 0x100 * 0x1_0000 + n1 % 0x100 * 0x100 + n % 0x100);
  }

  /** The byte of the lowest weight comes first. */
  lemma SizeInMemory()
    ensures StoredSize(0x0403_0201) == [1, 2, 3, 4]
  {}

  class Chunk {
    const mem: array<Octet>
    var free: nat
    var bound: nat
    ghost var live: seq<Block>

    ghost function Books(): Account
      reads this
    {
      Account.Account(free, bound, live)
    }

    /** The account is sound and every block's header still holds its size. */
    ghost predicate Valid()
      reads this, mem
    {
      && mem.Length < 0x1_0000_0000
      && Sound(mem.Length, Books())
      && forall i :: 0 <= i < |live| ==> Headed(mem[..], live[i])
    }

    constructor (size: nat)
      requires HEADER < size < 0x1_0000_0000
      ensures Valid() && fresh(mem) && mem.Length == size && Books() == Account.Account(size, 0, [])
    {
      mem := new Octet[size];
      free, bound, live := size, 0, [];
    }

    /** Cuts a block off the free end and writes its header, which reaches into its neighbour if the block is too small. */
    method Take(need: nat) returns (start: nat)
      requires Valid() && need <= free && free - need + HEADER <= mem.Length
      modifies this, mem
      ensures Books() == Cut(old(Books()), need) && start == free
      ensures Valid() <==> need > HEADER
    {
      ghost var before := live;
      CutSound(mem.Length, Books(), need);
      free := free - need;
      start := free;
      WriteHeader(mem, start, need, live);
      live := live + [Block(start, need)];
      assert Books() == Cut(old(Books()), need);
    }
  }

  ghost predicate Headed(mem: seq<Octet>, b: Block) {
    b.off + HEADER <= |mem| && LoadSize(mem[b.off..b.off + HEADER]) == b.size
  }

  /** NULL, or an address inside a chunk. */
  datatype Pointer = Null | At(chunk: Chunk, off: nat)

  class MemPool {
    const size: Size
    const quantum: Size
    var chunk: Chunk?

    ghost predicate Valid()
      reads this, chunk, if chunk == null then {} else {chunk.mem}
    {
      quantum > 0 && (chunk != null ==> chunk.mem.Length == size && chunk.Valid())
    }

    /** mem_pool_init: the size is rounded up to the alignment, which wraps around to 0 for the last three; 0 asks for the defaults. */
    constructor (size: Size, quantum: Size)
      ensures Valid() && chunk == null
      ensures this.quantum == if quantum == 0 then 4 else quantum
      ensures if size == 0 then this.size == 0x8000
              else if size > 0xffff_fffc then this.size == 0
              else this.size % 4 == 0 && size <= this.size < size + 4
    {
      WrappedIs(size + MINALIGN - 1);
      this.size := if size != 0 then Wrapped(size + MINALIGN - 1) / 4 * 4 else CHUNK_DEFAULT_SIZE;
      this.quantum := if quantum != 0 then quantum else MINALIGN;
      chunk := null;
    }

    /** The account of the current chunk, if there is one. */
    ghost function Current(): seq<Account>
      reads this, chunk
    {
      if chunk == null then [] else [chunk.Books()]
    }

    /** Whether the current chunk has room. */
    predicate Fits(need: nat)
      reads this, chunk
    {
      chunk != null && need <= chunk.free
    }

    /**
     * The block is the lowest of its chunk; a chunk too full for it is replaced, and not touched again. A
     * request that wraps around is granted if its few bytes fit, and the pool is valid no longer; here the
     * header it writes must lie inside the chunk.
     */
    method Alloc(bytes: Size) returns (p: Pointer)
      requires Valid()
      requires NeedWraps(bytes, quantum) && Need(bytes, quantum) <= size ==>
                 Fits(Need(bytes, quantum)) && chunk.free - Need(bytes, quantum) + HEADER <= size
      modifies this`chunk, chunk, if chunk == null then {} else {chunk.mem}
      ensures Valid() <==> !NeedWraps(bytes, quantum) || p == Null
      ensures Current() == old(Apply(size, quantum, Pool.Pool(Current(), []), Op.Alloc(bytes)).current)
      ensures p == Null <==> Need(bytes, quantum) > size
      ensures p == Null ==> chunk == old(chunk)
      ensures p != Null ==> chunk != null && p == At(chunk, chunk.free + HEADER)
      ensures p != Null && old(Fits(Need(bytes, quantum))) ==>
                chunk == old(chunk) && chunk.Books() == old(Cut(chunk.Books(), Need(bytes, quantum)))
      ensures p != Null && !old(Fits(Need(bytes, quantum))) ==>
                fresh(chunk) && fresh(chunk.mem) && chunk.Books() == Cut(Account.Account(size, 0, []), Need(bytes, quantum))
      ensures old(chunk) != null && (p == Null || chunk != old(chunk)) ==> unchanged(old(chunk)) && unchanged(old(chunk.mem))
    {
      hide Sound, Headed, Cut, LoadSize, Wrapped, NeedWraps, Returned;
      NeedIs(bytes, quantum);
      var need := Wrapped((if bytes == 0 then quantum else bytes) + HEADER);
      if need > size {
        return Null;
      }
      if chunk == null || need > chunk.free {
        chunk := new Chunk(size);
      }
      FreeInside(size, chunk.Books());
      var start := chunk.Take(need);
      p := At(chunk, start + HEADER);
    }

    /** p is what Alloc returned for the k-th block in use of its chunk. */
    ghost predicate Owns(p: Pointer, k: nat)
      reads if p.At? then {p.chunk} else {}
    {
      p.At? && k < |p.chunk.live| && p.off == p.chunk.live[k].off + HEADER
    }

    /**
     * mem_pool_free once it has read a size: the current chunk is found by address, or nothing happens.
     * The pool stays valid exactly under a condition on that size.
     */
    method Return(p: Pointer, sizeRead: Size, ghost k: nat)
      requires Valid() && Owns(p, k)
      modifies chunk
      ensures chunk != null && p.chunk != chunk ==> unchanged(chunk)
      ensures p.chunk == chunk ==> chunk.Books() == old(Returned(size, p.chunk.Books(), k, Adjusted(sizeRead, quantum)))
      ensures Valid() <==> p.chunk != chunk || old(RightSize(p.chunk.Books(), k, Adjusted(sizeRead, quantum)))
    {
      hide Sound, Headed, Wrapped;
      var amount := sizeRead;
      if amount == 0 {
        amount := quantum;
      } else if quantum > 1 && amount % quantum != 0 {
        amount := Wrapped(amount + (quantum - amount % quantum));
      }
      if p.chunk != chunk {
        return;
      }
      ReturnedSound(size, chunk.Books(), k, amount);
      var addr := p.off - HEADER;
      if Wrapped(chunk.free + chunk.bound + amount) >= size {
        chunk.free := size;
        chunk.bound := 0;
      } else if addr == chunk.free {
        chunk.free := Wrapped(chunk.free + amount);
      } else {
        chunk.bound := Wrapped(chunk.bound + amount);
      }
      chunk.live := Removed(chunk.live, k);
      assert forall i :: 0 <= i < |chunk.live| ==> chunk.live[i] in old(chunk.live);
    }

    /** mem_pool_free as written: the size is read at the block's payload, not at its header. */
    method Free(p: Pointer, ghost k: nat)
      requires Valid() && Owns(p, k) && p.off + HEADER <= p.chunk.mem.Length
      modifies chunk
      ensures chunk != null && p.chunk != chunk ==> unchanged(chunk)
      ensures var word := LoadSize(p.chunk.mem[p.off..p.off + HEADER]);
              Valid() <==> p.chunk != chunk || old(RightSize(p.chunk.Books(), k, Adjusted(word, quantum)))
    {
      var word := LoadSize(p.chunk.mem[p.off..p.off + HEADER]);
      Return(p, word, k);
    }

    /** mem_pool_free as meant: the size is read from the header that Alloc wrote. */
    method FreeByHeader(p: Pointer, ghost k: nat)
      requires Valid() && Owns(p, k) && p.chunk.Valid()
      modifies chunk
      ensures Valid() <==> p.chunk != chunk || old(Returnable(p.chunk.Books(), k, quantum))
      ensures p.chunk == chunk ==> Current() == old(Apply(size, quantum, Pool.Pool(Current(), []), Op.Free(0, k)).current)
      ensures chunk != null && p.chunk != chunk ==> unchanged(chunk)
      ensures old(p.chunk.live[k].size) < 0x1_0000_0000
      ensures p.chunk == chunk ==>
                chunk.Books() == old(Returned(size, p.chunk.Books(), k, Adjusted(p.chunk.live[k].size, quantum)))
      ensures Valid() && p.chunk == chunk && chunk.live == [] ==> chunk.free == size && chunk.bound == 0
    {
      hide Adjusted, Returned, Returnable, RightSize, LoadSize;
      assert Headed(p.chunk.mem[..], p.chunk.live[k]);
      ReturnableIsRight(p.chunk.mem.Length, p.chunk.Books(), k, quantum);
      var addr := p.off - HEADER;
      var size := LoadSize(p.chunk.mem[addr..p.off]);
      Return(p, size, k);
      
    }

    /** The owner of a block writes a byte of it: no header is touched. */
    method Write(p: Pointer, i: nat, x: Octet, ghost k: nat)
      requires Valid() && Owns(p, k) && p.chunk == chunk && i + HEADER < chunk.live[k].size
      modifies chunk.mem
      ensures Valid()
      ensures chunk.mem[..] == old(chunk.mem[..])[p.off + i := x]
    {
      ghost var before := chunk.mem[..];
      chunk.mem[p.off + i] := x;
      forall j | 0 <= j < |chunk.live| ensures Headed(chunk.mem[..], chunk.live[j]) {
        assert Headed(before, chunk.live[j]);
        var b := chunk.live[j];
        if j < k { assert b.Apart(chunk.live[k]); } else if k < j { assert chunk.live[k].Apart(b); }
        assert chunk.mem[b.off..b.off + HEADER] == before[b.off..b.off + HEADER];
      }
    }
  }

  /** The free end lies inside the chunk. */
  lemma FreeInside(n: nat, a: Account)
    requires Sound(n, a)
    ensures a.free <= n
  {}

  lemma FreeWhenEmpty(n: nat, a: Account)
    requires Sound(n, a) && a.live == []
    ensures a.free == n && a.bound == 0
  {}

  /** *((size_t *)start) = size; blocks that begin behind it keep their headers. */
  method WriteHeader(mem: array<Octet>, off: nat, size: nat, ghost live: seq<Block>)
    requires off + HEADER <= mem.Length && size < 0x1_0000_0000
    modifies mem
    ensures Headed(mem[..], Block(off, size))
    ensures forall i :: 0 <= i < |live| && old(Headed(mem[..], live[i])) && off + HEADER <= live[i].off ==> Headed(mem[..], live[i])
  {
    ghost var before := mem[..];
    var b := StoredSize(size);
    mem[off], mem[off + 1], mem[off + 2], mem[off + 3] := b[0], b[1], b[2], b[3];
    LoadStoredSize(size);
    assert mem[off..off + HEADER] == b;
    forall i | 0 <= i < |live| && Headed(before, live[i]) && off + HEADER <= live[i].off ensures Headed(mem[..], live[i]) {
      assert mem[live[i].off..live[i].off + HEADER] == before[live[i].off..live[i].off + HEADER];
    }
  }
}
