/** Laws of the kernel heap over whole runs of `kmalloc`, `kfree` and `krealloc`. */
module HeapRuns {
  import opened Machine
  import opened HeapBlocks

  datatype Op =
    | MallocOp(size: u32)
    | FreeOp(ptr: nat)
    | ReallocOp(from: Option<nat>, size: u32)

  /** What the source demands of a caller: a pointer passed in is live, and where a block is moved, its
      bytes fit the new one. */
  ghost predicate Legal(bs: Blocks, op: Op) {
    match op
    case MallocOp(_) => true
    case FreeOp(p) => IsLive(bs, p)
    case ReallocOp(p, n) => p.Some? ==> IsLive(bs, p.value) && CopyFits(bs, p.value, n)
  }

  ghost function Step(bs: Blocks, op: Op): Blocks
    requires Valid(bs) && Legal(bs, op)
  {
    match op
    case MallocOp(n) => Malloc(bs, n).heap
    case FreeOp(p) => Free(bs, p)
    case ReallocOp(p, n) => Realloc(bs, p, n).heap
  }

  /** Every call of the run is legal in the state it reaches. */
  ghost predicate LegalRun(bs: Blocks, ops: seq<Op>)
    decreases ops
  {
    ops == [] || (Valid(bs) && Legal(bs, ops[0]) && LegalRun(Step(bs, ops[0]), ops[1..]))
  }

  ghost function Run(bs: Blocks, ops: seq<Op>): Blocks
    requires LegalRun(bs, ops)
    decreases ops
  {
    if ops == [] then bs else Run(Step(bs, ops[0]), ops[1..])
  }

  /** Freeing one live block leaves every other live. */
  lemma FreeKeepsOther(bs: Blocks, p: nat, b: Block)
    requires Valid(bs) && IsLive(bs, p) && b in Live(bs) && b.Payload() != p
    ensures IsLive(Free(bs, p), b.Payload()) && BlockOf(Free(bs, p), b.Payload()) == b
  {
    FreeLaw(bs, p);
    LiveUnique(Free(bs, p), b);
  }

  /** A `krealloc` that cannot keep its block trades it for a new one, and touches no other. */
  lemma ReallocMoves(bs: Blocks, p: nat, size: u32)
    requires Valid(bs) && IsLive(bs, p) && size > 0
    requires BlockOf(bs, p).size < size && Malloc(bs, size).ptr.Some?
    ensures var g := Realloc(bs, Some(p), size);
      && Valid(g.heap) && g.ptr.Some? && g.ptr.value != p
      && IsLive(g.heap, g.ptr.value)
      && Live(g.heap) == Live(bs) - {BlockOf(bs, p)} + {BlockOf(g.heap, g.ptr.value)}
  {
    hide Valid, Malloc, Free;
    MallocLaw(bs, size);
    var g := Malloc(bs, size);
    var before, after := BlockOf(bs, p), BlockOf(g.heap, g.ptr.value);
    LiveUnique(g.heap, before);
    FreeLaw(g.heap, p);
    FreeKeepsOther(g.heap, p, after);
    assert Realloc(bs, Some(p), size) == Grant(Free(g.heap, p), g.ptr);
  }

  /** The other outcomes of `krealloc` on a live pointer, and the heap invariant in all. */
  lemma ReallocLaw(bs: Blocks, p: Option<nat>, size: u32)
    requires Valid(bs) && (p.Some? ==> IsLive(bs, p.value))
    ensures var g := Realloc(bs, p, size);
      && Valid(g.heap)
      && (p.None? ==> g == Malloc(bs, size))
      && (p.Some? && size > 0 && g.ptr.None? ==> g.heap == bs)
      && (p.Some? && size > BlockOf(bs, p.value).size ==> (g.ptr.None? <==> Malloc(bs, size).ptr.None?))
      && (p.Some? && size == 0 ==> g.ptr.None? && Live(g.heap) == Live(bs) - {BlockOf(bs, p.value)})
      && (p.Some? && 0 < size <= BlockOf(bs, p.value).size ==> g == Grant(bs, p))
  {
    if p.None? {
      MallocLaw(bs, size);
    } else if size == 0 {
      FreeLaw(bs, p.value);
    } else if BlockOf(bs, p.value).size < size {
      if Malloc(bs, size).ptr.Some? {
        ReallocMoves(bs, p.value, size);
      } else {
        MallocLaw(bs, size);
      }
    }
  }

  lemma StepValid(bs: Blocks, op: Op)
    requires Valid(bs) && Legal(bs, op)
    ensures Valid(Step(bs, op))
  {
    match op
    case MallocOp(n) => MallocLaw(bs, n);
    case FreeOp(p) => FreeLaw(bs, p);
    case ReallocOp(p, n) => ReallocLaw(bs, p, n);
  }

  /** Every run keeps the heap tiled, aligned and fully coalesced. */
  lemma {:induction false} RunValid(bs: Blocks, ops: seq<Op>)
    requires Valid(bs) && LegalRun(bs, ops)
    ensures Valid(Run(bs, ops))
    decreases ops
  {
    if ops != [] {
      StepValid(bs, ops[0]);
      RunValid(Step(bs, ops[0]), ops[1..]);
    }
  }

  /** Two runs that leave the same live blocks leave identical block lists. */
  lemma RunsAreCanonical(ops: seq<Op>, ops': seq<Op>)
    requires LegalRun(Initial, ops) && LegalRun(Initial, ops')
    requires Live(Run(Initial, ops)) == Live(Run(Initial, ops'))
    ensures Run(Initial, ops) == Run(Initial, ops')
  {
    InitialValid();
    RunValid(Initial, ops);
    RunValid(Initial, ops');
    Canonical(Run(Initial, ops), Run(Initial, ops'));
  }

  /** `order` names every live block once. */
  ghost predicate ListsLive(bs: Blocks, order: seq<nat>) {
    && (forall k | 0 <= k < |order| :: IsLive(bs, order[k]))
    && (forall b | b in Live(bs) :: b.Payload() in order)
    && (forall i, j | 0 <= i < j < |order| :: order[i] != order[j])
  }

  function Frees(order: seq<nat>): (ops: seq<Op>)
    ensures |ops| == |order|
    ensures forall k | 0 <= k < |order| :: ops[k] == FreeOp(order[k])
  {
    if order == [] then [] else [FreeOp(order[0])] + Frees(order[1..])
  }

  lemma ListsLiveStep(bs: Blocks, order: seq<nat>)
    requires Valid(bs) && ListsLive(bs, order) && order != []
    ensures ListsLive(Free(bs, order[0]), order[1..])
  {
    var p := order[0];
    FreeLaw(bs, p);
    var r := Free(bs, p);
    forall k | 0 <= k < |order[1..]| ensures IsLive(r, order[1..][k]) {
      var b := BlockOf(bs, order[k + 1]);
      assert b in Live(r) && b.Payload() == order[1..][k];
    }
    forall b | b in Live(r) ensures b.Payload() in order[1..] {
      LiveUnique(r, b);
      assert b.Payload() != p;
    }
  }

  /** Freeing everything, in any order, leaves the single initial free block. */
  lemma {:induction false} FreeAllRestoresInitial(bs: Blocks, order: seq<nat>)
    requires Valid(bs) && ListsLive(bs, order)
    ensures LegalRun(bs, Frees(order)) && Run(bs, Frees(order)) == Initial
    decreases order
  {
    var ops := Frees(order);
    if order == [] {
      InitialValid();
      assert Live(bs) == {};
      Canonical(bs, Initial);
    } else {
      FreeLaw(bs, order[0]);
      ListsLiveStep(bs, order);
      FreeAllRestoresInitial(Free(bs, order[0]), order[1..]);
      assert ops[1..] == Frees(order[1..]);
    }
  }

  /** Live payloads lie in the heap, are 8-byte aligned and pairwise disjoint, in every run. */
  lemma LivePayloadsDisjoint(ops: seq<Op>, a: Block, b: Block)
    requires LegalRun(Initial, ops)
    requires a in Live(Run(Initial, ops)) && b in Live(Run(Initial, ops)) && a != b
    ensures a.End() <= b.off || b.End() <= a.off
    ensures a.Payload() % 8 == 0 && a.End() <= KHEAP_SIZE
  {
    InitialValid();
    RunValid(Initial, ops);
    var bs := Run(Initial, ops);
    LiveInHeap(bs, a);
    var i :| 0 <= i < |bs| && bs[i] == a;
    var j :| 0 <= j < |bs| && bs[j] == b;
  }

  // ------------------------------------------------------------ kmalloc_aligned

  /** `(addr + alignment - 1) & ~(alignment - 1)` in 32 bits. */
  function AlignUp(addr: u32, alignment: u32): u32 {
    AndNot(Wrap(addr + alignment - 1), Wrap(alignment - 1))
  }

  lemma AlignUpUnwrapped(addr: u32, alignment: u32)
    requires 0 < alignment
    ensures AlignUp(addr, alignment) == AndNot(Wrap(addr + alignment - 1), alignment - 1)
  {
  }

  /** For a power of two the rounded address is a multiple of the alignment. */
  lemma AlignUpMultiple(addr: u32, k: nat)
    requires Pow2(k) < U32_LIMIT
    ensures AlignUp(addr, Pow2(k)) % Pow2(k) == 0
  {
    var m: u32 := Pow2(k);
    var x := Wrap(addr + m - 1);
    AndNotMultiple(x, k);
    assert AndNot(x, m - 1) % m == 0;
    AlignUpUnwrapped(addr, m);
  }

  /** Rounding up moves an address by less than the alignment, whatever the alignment. */
  lemma AlignUpBounds(addr: u32, alignment: u32)
    requires 0 < alignment && addr + alignment <= U32_LIMIT
    ensures addr <= AlignUp(addr, alignment) < addr + alignment
  {
  }

  /** A block granted for the padded size holds the aligned range exactly when that sum does not wrap. */
  lemma InsideIff(lo: nat, hi: nat, q: nat, size: u32, alignment: u32)
    requires hi <= lo + KHEAP_SIZE && 0 < alignment <= 0x8000_0000
    requires size + alignment <= U32_LIMIT - 8 ==> lo + size + alignment <= hi && lo <= q < lo + alignment
    ensures (lo <= q && q + size <= hi) <==> size + alignment <= U32_LIMIT - 8
  {
  }

  lemma AlignedInside(b: Block, base: u32, size: u32, alignment: u32)
    requires base + KHEAP_SIZE < U32_LIMIT && 0 < alignment <= 0x8000_0000
    requires b.End() <= KHEAP_SIZE && b.size >= Round8(Wrap(size + alignment))
    ensures Inside(b, base, size, alignment) <==> size + alignment <= U32_LIMIT - 8
  {
    var lo, hi := base + b.Payload(), base + b.End();
    var q := AlignUp(lo, alignment);
    assert size + alignment <= U32_LIMIT - 8 ==> lo + size + alignment <= hi by {
      if size + alignment <= U32_LIMIT - 8 {
        Round8Law(size + alignment);
      }
    }
    assert size + alignment <= U32_LIMIT - 8 ==> lo <= q < lo + alignment by {
      if size + alignment <= U32_LIMIT - 8 {
        AlignUpBounds(lo, alignment);
      }
    }
    InsideIff(lo, hi, q, size, alignment);
  }

  /** The mask of a large alignment leaves few bits: the result lies below what is missing to 2^32. */
  lemma AlignUpLow(addr: u32, alignment: u32)
    requires 0 < alignment
    ensures AlignUp(addr, alignment) <= U32_LIMIT - alignment
  {
    var x := Wrap(addr + alignment - 1);
    Pow2At32();
    OrBelow(x, alignment - 1, 32);
  }

  /** An alignment of 0 yields address 0, and one above 2^31 either asks for more than the heap has or
      yields an address below the heap. */
  lemma StrayOutside(b: Block, base: u32, size: u32, alignment: u32)
    requires 4096 <= base && base + KHEAP_SIZE < U32_LIMIT && (alignment == 0 || alignment > 0x8000_0000)
    requires b.End() <= KHEAP_SIZE
    requires Round8(Wrap(size + alignment)) <= b.size < Round8(Wrap(size + alignment)) + HEADER + MIN_BLOCK
    ensures !Inside(b, base, size, alignment) && (alignment > 0 ==> size + alignment > U32_LIMIT - 8)
  {
    hide AlignUp, Round8;
    Round8Law(Wrap(size + alignment));
    if alignment == 0 {
      AlignUpZero(base + b.Payload());
    } else {
      AlignUpLow(base + b.Payload(), alignment);
    }
  }

  lemma AlignUpZero(addr: u32)
    requires addr > 0
    ensures AlignUp(addr, 0) == 0
  {
    Pow2At32();
    OrBelow(addr - 1, 0xFFFF_FFFF, 32);
  }

  /** The aligned range lies in the block behind the raw address. */
  predicate Inside(b: Block, base: u32, size: u32, alignment: u32)
    requires base + KHEAP_SIZE < U32_LIMIT && b.End() <= KHEAP_SIZE
  {
    var q := AlignUp(base + b.Payload(), alignment);
    base + b.Payload() <= q && q + size <= base + b.End()
  }

  /** For every size and alignment: the aligned range lies in the granted block if and only if the
      alignment is not 0 and the padded size, rounded to 8, does not wrap. */
  lemma AlignedRangeInBlock(bs: Blocks, base: u32, size: u32, alignment: u32)
    requires Valid(bs) && 4096 <= base && base + KHEAP_SIZE < U32_LIMIT
    requires Malloc(bs, Wrap(size + alignment)).ptr.Some?
    ensures var g := Malloc(bs, Wrap(size + alignment));
      && IsLive(g.heap, g.ptr.value)
      && BlockOf(g.heap, g.ptr.value).End() <= KHEAP_SIZE
      && (Inside(BlockOf(g.heap, g.ptr.value), base, size, alignment) <==>
            0 < alignment && size + alignment <= U32_LIMIT - 8)
  {
    hide AlignUp, Inside, Round8, HeapBlocks.Valid;
    var n := Wrap(size + alignment);
    var g := Malloc(bs, n);
    MallocLaw(bs, n);
    var b := BlockOf(g.heap, g.ptr.value);
    LiveInHeap(g.heap, b);
    GrantBound(bs, n);
    if 0 < alignment <= 0x8000_0000 {
      AlignedInside(b, base, size, alignment);
    } else {
      StrayOutside(b, base, size, alignment);
    }
  }

  /** A granted block is less than a header and a minimal block larger than the rounded size. */
  lemma GrantBound(bs: Blocks, size: u32)
    requires Valid(bs) && Malloc(bs, size).ptr.Some?
    ensures IsLive(Malloc(bs, size).heap, Malloc(bs, size).ptr.value)
    ensures BlockOf(Malloc(bs, size).heap, Malloc(bs, size).ptr.value).size < Round8(size) + HEADER + MIN_BLOCK
  {
    hide HeapBlocks.Valid, AllocAt, IsLive, BlockOf, Round8;
    Round8Law(size);
    GrantedIsLive(bs, FirstFit(bs, Round8(size), 0), Round8(size));
  }

  /** A padded size that wraps to 15 is granted 16 bytes for a range of 2^32 - 1. */
  lemma WrappedPaddingEscapes(base: u32)
    requires 4096 <= base && base + KHEAP_SIZE < U32_LIMIT
    ensures var g := Malloc(Initial, Wrap(0xFFFF_FFFF + 16));
      && g.ptr.Some? && IsLive(g.heap, g.ptr.value) && BlockOf(g.heap, g.ptr.value).End() <= KHEAP_SIZE
      && !Inside(BlockOf(g.heap, g.ptr.value), base, 0xFFFF_FFFF, 16)
  {
    hide Inside;
    InitialValid();
    Round8Law(15);
    MallocLaw(Initial, 15);
    assert Initial[0] in Initial;
    AlignedRangeInBlock(Initial, base, 0xFFFF_FFFF, 16);
  }
}
