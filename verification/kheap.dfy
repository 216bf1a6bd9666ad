/** kernel/memory/kheap.c: the allocator as it runs on the bytes of `heap_area`. */
module KernelHeap {
  import opened Machine
  import opened HeapBlocks
  import opened HeapMemory
  import opened HeapRuns

  class KHeap {
    /** Address of `heap_area`. */
    const base: u32
    /** `heap_area` itself. */
    const mem: array<u8>
    var initialized: bool
    /** The block list the bytes represent. */
    ghost var blocks: Blocks

    ghost predicate Placed()
      reads this
    {
      0 < base && base % 4096 == 0 && base + KHEAP_SIZE < U32_LIMIT && mem.Length == KHEAP_SIZE
    }

    ghost predicate Linked()
      reads this, mem
    {
      Placed() && Rep(mem[..], base, blocks)
    }

    ghost predicate Valid()
      reads this, mem
    {
      Placed() && (initialized ==> Linked() && HeapBlocks.Valid(blocks))
    }

    /** Is address `p` a live pointer of this heap? */
    ghost predicate LivePtr(p: u32)
      reads this
    {
      p >= base && IsLive(blocks, p - base)
    }

    /** The address of a granted payload, or NULL. */
    ghost function Address(ptr: Option<nat>): int
      reads this
    {
      if ptr.Some? then base + ptr.value else NULL
    }

    constructor (at: u32)
      requires 0 < at && at % 4096 == 0 && at + KHEAP_SIZE < U32_LIMIT
      ensures base == at && fresh(mem) && !initialized && Valid()
    {
      base := at;
      mem := new u8[KHEAP_SIZE];
      initialized := false;
      blocks := [];
    }

    function Word(p: u32): u32
      requires Placed() && base <= p && p - base + 4 <= KHEAP_SIZE
      reads this, mem
    {
      LoadWord(mem[..], p - base)
    }

    method Store(p: u32, v: u32)
      requires Placed() && base <= p && p - base + 4 <= KHEAP_SIZE
      modifies mem
      ensures mem[..] == Put(old(mem[..]), p - base, v)
    {
      var a := p - base;
      mem[a] := v % 0x100;
      mem[a + 1] := v / 0x100 % 0x100;
      mem[a + 2] := v / 0x1_0000 % 0x100;
      mem[a + 3] := v / 0x100_0000;
    }

    method Init()
      requires Placed()
      modifies this`initialized, this`blocks, mem
      ensures Valid() && initialized && blocks == Initial
    {
      var heapStart := base;
      ghost var m0 := mem[..];
      Store(heapStart, KHEAP_SIZE - HEADER);
      Store(heapStart + 4, 1);
      Store(heapStart + 8, NULL);
      Store(heapStart + 12, NULL);
      initialized := true;
      blocks := Initial;
      InitialValid();
      assert HeaderAt(mem[..], base, blocks, 0) by {
        PutHeaderLaw(m0, 0, KHEAP_SIZE - HEADER, 1, NULL, NULL);
      }
    }

    /** The stores of `split_block`. */
    method StoreSplit(block: u32, size: u32, ghost b: Block)
      requires Placed() && block == base + b.off && b.End() <= KHEAP_SIZE && Splits(b.size, size)
      requires Word(block) == b.size
      requires var next := Word(block + 8); next != NULL ==> base <= next && next - base + 16 <= KHEAP_SIZE
      modifies mem
      ensures mem[..] == SplitBytes(old(mem[..]), b, size, base, old(Word(block + 8)))
    {
      hide Put, LoadWord;
      var rest, next, left := block + HEADER + size, Word(block + 8), Word(block) - size - HEADER;
      Store(rest, left);
      Store(rest + 4, 1);
      Store(rest + 8, next);
      Store(rest + 12, block);
      if next != NULL {
        Store(next + 12, rest);
      }
      Store(block + 8, rest);
      Store(block, size);
    }

    /** `split_block`: cut a free block in two when the rest can hold a block of its own. */
    method SplitBlock(block: u32, size: u32, ghost i: nat)
      requires Linked() && i < |blocks| && block == base + blocks[i].off && blocks[i].free
      requires size % 8 == 0 && size <= blocks[i].size
      modifies mem, this`blocks
      ensures Linked()
      ensures !Splits(old(blocks)[i].size, size) ==> blocks == old(blocks)
      ensures Splits(old(blocks)[i].size, size) ==>
        blocks == Splice(old(blocks), i, i + 1, Halves(old(blocks)[i], size))
      ensures Live(blocks) == Live(old(blocks))
      ensures KeepsPayloads(Live(old(blocks)), old(mem[..]), mem[..])
    {
      hide LoadWord, SplitBytes, Tiles;
      ghost var m0, b := mem[..], blocks[i];
      NextAbuts(m0, base, blocks, i);
      assert HeaderAt(m0, base, blocks, i);
      if Word(block) >= size + HEADER + MIN_BLOCK {
        SplitRep(m0, base, blocks, i, size);
        SplitKeeps(m0, base, blocks, i, size);
        StoreSplit(block, size, b);
        HalvesLive(blocks, i, size);
        blocks := Splice(blocks, i, i + 1, Halves(b, size));
      }
    }

    /** The stores by which block `first` takes over its successor `second`. */
    method StoreMerge(first: u32, second: u32)
      requires Placed() && base <= first && first + 16 <= second && second - base + 16 <= KHEAP_SIZE
      requires Word(first) + HEADER + Word(second) < U32_LIMIT
      requires var next := Word(second + 8); next != NULL ==> base <= next && next - base + 16 <= KHEAP_SIZE
      modifies mem
      ensures mem[..] == MergeBytes(old(mem[..]), base, first - base,
                                    old(Word(first)) + HEADER + old(Word(second)), old(Word(second + 8)))
    {
      hide Put, LoadWord;
      var size, next := Word(first) + HEADER + Word(second), Word(second + 8);
      Store(first, size);
      Store(first + 8, next);
      if next != NULL {
        Store(next + 12, first);
      }
    }

    method Absorb(first: u32, second: u32, ghost i: nat)
      requires Linked() && i + 1 < |blocks|
      requires first == base + blocks[i].off && second == base + blocks[i + 1].off
      modifies mem, this`blocks
      ensures Linked() && blocks == Splice(old(blocks), i, i + 2, [Joined(old(blocks), i)])
      ensures KeepsPayloads(Live(old(blocks)), old(mem[..]), mem[..])
    {
      hide LoadWord, MergeBytes, Tiles;
      ghost var m0 := mem[..];
      NextAbuts(m0, base, blocks, i);
      NextAbuts(m0, base, blocks, i + 1);
      assert HeaderAt(m0, base, blocks, i) && HeaderAt(m0, base, blocks, i + 1);
      MergeRep(m0, base, blocks, i);
      MergeKeeps(m0, base, blocks, i);
      StoreMerge(first, second);
      blocks := Splice(blocks, i, i + 2, [Joined(blocks, i)]);
    }

    /** The first half of `coalesce_block`: absorb a free right neighbour. */
    method JoinRight(block: u32, ghost i: nat)
      requires Linked() && i < |blocks| && block == base + blocks[i].off && blocks[i].free
      modifies mem, this`blocks
      ensures Linked() && Live(blocks) == Live(old(blocks))
      ensures i < |blocks| && block == base + blocks[i].off && blocks[i].free
      ensures blocks == RightJoined(old(blocks), i)
      ensures KeepsPayloads(Live(old(blocks)), old(mem[..]), mem[..])
    {
      hide LoadWord, Tiles, KeepsPayloads;
      ghost var bs := blocks;
      KeepsReflexive(Live(bs), mem[..]);
      assert HeaderAt(mem[..], base, bs, i);
      assert i + 1 < |bs| ==> HeaderAt(mem[..], base, bs, i + 1);
      var next := Word(block + 8);
      if next != NULL && Word(next + 4) != 0 {
        Absorb(block, next, i);
        JoinLive(bs, i);
      }
    }

    /** The second half: let a free left neighbour absorb the block. */
    method JoinLeft(block: u32, ghost i: nat)
      requires Linked() && i < |blocks| && block == base + blocks[i].off && blocks[i].free
      modifies mem, this`blocks
      ensures Linked() && Live(blocks) == Live(old(blocks))
      ensures blocks == LeftJoined(old(blocks), i)
      ensures KeepsPayloads(Live(old(blocks)), old(mem[..]), mem[..])
    {
      hide LoadWord, Tiles, KeepsPayloads;
      ghost var bs := blocks;
      KeepsReflexive(Live(bs), mem[..]);
      assert HeaderAt(mem[..], base, bs, i);
      assert i > 0 ==> HeaderAt(mem[..], base, bs, i - 1);
      var prev := Word(block + 12);
      if prev != NULL && Word(prev + 4) != 0 {
        Absorb(prev, block, i - 1);
        JoinLive(bs, i - 1);
      }
    }

    /** `coalesce_block`: join a free block with a free right and a free left neighbour. */
    method CoalesceBlock(block: u32, ghost i: nat)
      requires Linked() && i < |blocks| && block == base + blocks[i].off && blocks[i].free
      modifies mem, this`blocks
      ensures Linked()
      ensures blocks == Coalesce(old(blocks), i) && Live(blocks) == Live(old(blocks))
      ensures KeepsPayloads(Live(old(blocks)), old(mem[..]), mem[..])
    {
      hide Rep, KeepsPayloads, LeftJoined, RightJoined, Live;
      ghost var live, m0 := Live(blocks), mem[..];
      JoinRight(block, i);
      ghost var m1 := mem[..];
      JoinLeft(block, i);
      KeepsChain(live, m0, m1, mem[..]);
    }

    /** The body of the `kmalloc` search: split the fitting block and mark it used. */
    method TakeBlock(block: u32, n: u32, ghost i: nat)
      requires Linked() && i < |blocks| && block == base + blocks[i].off && blocks[i].free
      requires n % 8 == 0 && n <= blocks[i].size
      modifies mem, this`blocks
      ensures Linked() && blocks == AllocAt(old(blocks), i, n)
      ensures KeepsPayloads(Live(old(blocks)), old(mem[..]), mem[..])
    {
      hide LoadWord, Tiles, KeepsPayloads, AllocAt;
      ghost var bs, m0 := blocks, mem[..];
      SplitBlock(block, n, i);
      ghost var split, m1 := blocks, mem[..];
      FlagRep(m1, base, split, i, false);
      FlagKeeps(m1, base, split, i, 0);
      Store(block + 4, 0);
      blocks := split[i := split[i].(free := false)];
      TakenIsAlloc(bs, i, n);
      KeepsChain(Live(bs), m0, m1, mem[..]);
    }

    /** `kmalloc`: first fit over the list from `heap_start`. */
    method Kmalloc(size: u32) returns (p: u32)
      requires Valid()
      modifies mem, this`blocks
      ensures Valid() && unchanged(`initialized)
      ensures !initialized ==> p == NULL && blocks == old(blocks) && mem[..] == old(mem[..])
      ensures initialized ==>
        && blocks == Malloc(old(blocks), size).heap
        && p == Address(Malloc(old(blocks), size).ptr)
      ensures initialized && p != NULL ==> LivePtr(p)
      ensures initialized ==> KeepsPayloads(Live(old(blocks)), old(mem[..]), mem[..])
    {
      hide LoadWord, HeaderAt, Tiles, KeepsPayloads, Malloc, Round8, AllocAt;
      ghost var bs, m0 := blocks, mem[..];
      if !initialized || size == 0 {
        assert initialized ==> Malloc(bs, size) == Grant(bs, None) by { MallocUnfold(bs, size); }
        if initialized { KeepsReflexive(Live(bs), m0); }
        return NULL;
      }
      KeepsReflexive(Live(bs), m0);
      var n := Round8(size);
      Round8Law(size);
      MallocUnfold(bs, size);
      MallocLaw(bs, size);
      var block, k := FindFit(n);
      if block == NULL {
        return NULL;
      }
      NextAbuts(mem[..], base, bs, k);
      TakeBlock(block, n, k);
      return block + HEADER;
    }

    /** The search of `kmalloc`: walk the links to the first free block that is large enough. */
    method FindFit(n: u32) returns (current: u32, ghost k: nat)
      requires Linked()
      ensures k == FirstFit(blocks, n, 0) && current == Link(base, blocks, k)
    {
      hide LoadWord, Tiles;
      FirstBlockAtZero(blocks);
      current := base;
      k := 0;
      while current != NULL
        invariant 0 <= k <= |blocks| && current == Link(base, blocks, k)
        invariant FirstFit(blocks, n, 0) == FirstFit(blocks, n, k)
        decreases |blocks| - k
      {
        assert HeaderAt(mem[..], base, blocks, k);
        if Word(current + 4) != 0 && Word(current) >= n {
          return;
        }
        current := Word(current + 8);
        k := k + 1;
      }
    }

    /** `kfree`: mark the block free and coalesce it with both neighbours. */
    method Kfree(p: u32)
      requires Valid() && (p != NULL ==> initialized && LivePtr(p))
      modifies mem, this`blocks
      ensures Valid() && unchanged(`initialized)
      ensures p == NULL ==> blocks == old(blocks) && mem[..] == old(mem[..])
      ensures p != NULL ==>
        && blocks == Free(old(blocks), p - base)
        && KeepsPayloads(Live(blocks), old(mem[..]), mem[..])
    {
      hide LoadWord, Tiles, KeepsPayloads, FreeAt, Coalesce;
      if p == NULL {
        return;
      }
      var block := p - HEADER;
      ghost var bs, m0, i := blocks, mem[..], IndexOf(blocks, p - base);
      FlagRep(m0, base, bs, i, true);
      FlagKeeps(m0, base, bs, i, 1);
      Store(block + 4, 1);
      ghost var f, m1 := bs[i := bs[i].(free := true)], mem[..];
      blocks := f;
      CoalesceBlock(block, i);
      CoalesceIsFreeAt(bs, i);
      FreeAtValid(bs, i);
      FlaggedLive(bs, i);
      KeepsSubset(Live(bs), Live(f), m0, m1);
      KeepsChain(Live(f), m0, m1, mem[..]);
    }

    /** `memcpy` between two payloads of this heap. */
    method Copy(dst: u32, src: u32, count: u32, ghost b: Block)
      requires Linked() && base <= src && src - base + count <= KHEAP_SIZE
      requires b in blocks && b.Payload() <= dst - base && dst - base + count <= b.End()
      requires dst + count <= src || src + count <= dst
      modifies mem
      ensures Linked()
      ensures SameExcept(old(mem[..]), mem[..], dst - base, dst - base + count)
      ensures mem[..][dst - base..dst - base + count] == old(mem[..])[src - base..src - base + count]
    {
      hide LoadWord, Tiles, HeaderAt;
      ghost var m0 := mem[..];
      HeaderOf(m0, base, blocks, b);
      var d, s := dst - base, src - base;
      for k := 0 to count
        invariant SameExcept(m0, mem[..], d, d + k)
        invariant mem[d..d + k] == m0[s..s + k]
      {
        mem[d + k] := mem[s + k];
      }
      PayloadWriteRep(m0, mem[..], base, blocks, b, d, d + count);
    }

    /** `memcpy` from a caller's buffer into one payload of this heap. */
    method CopyIn(dst: u32, data: seq<u8>, ghost b: Block)
      requires Linked() && b in blocks && b.Payload() <= dst - base && dst - base + |data| <= b.End()
      modifies mem
      ensures Linked()
      ensures SameExcept(old(mem[..]), mem[..], dst - base, dst - base + |data|)
      ensures mem[..][dst - base..dst - base + |data|] == data
    {
      hide LoadWord, Tiles, HeaderAt;
      ghost var m0 := mem[..];
      HeaderOf(m0, base, blocks, b);
      var d := dst - base;
      for k := 0 to |data|
        invariant SameExcept(m0, mem[..], d, d + k)
        invariant mem[d..d + k] == data[..k]
      {
        mem[d + k] := data[k];
      }
      PayloadWriteRep(m0, mem[..], base, blocks, b, d, d + |data|);
    }

    /** `memcpy` from the heap into a caller's buffer. */
    method CopyOut(src: u32, count: nat) returns (out: seq<u8>)
      requires Placed() && base <= src && src - base + count <= KHEAP_SIZE
      ensures out == mem[..][src - base..src - base + count]
    {
      var s := src - base;
      out := [];
      for k := 0 to count
        invariant out == mem[s..s + k]
      {
        out := out + [mem[s + k]];
      }
    }

    /** `krealloc` of a live pointer whose block is too small. */
    method Move(p: u32, newSize: u32) returns (q: u32)
      requires Valid() && initialized && p != NULL && LivePtr(p)
      requires BlockOf(blocks, p - base).size < newSize && CopyFits(blocks, p - base, newSize)
      modifies mem, this`blocks
      ensures Valid() && initialized
      ensures blocks == Realloc(old(blocks), Some(p - base), newSize).heap
      ensures q == Address(Realloc(old(blocks), Some(p - base), newSize).ptr)
      ensures q == NULL ==> KeepsPayloads(Live(old(blocks)), old(mem[..]), mem[..])
      ensures q != NULL ==>
        KeepsPayloads(Live(old(blocks)) - {BlockOf(old(blocks), p - base)}, old(mem[..]), mem[..])
      ensures q != NULL ==> CarriesOver(old(mem[..]), mem[..], BlockOf(old(blocks), p - base), q - base)
    {
      hide LoadWord, HeapBlocks.Valid, HeaderAt, KeepsPayloads, Malloc, Free, Rep, Realloc;
      ghost var bs, m0, was := blocks, mem[..], BlockOf(blocks, p - base);
      MoveFacts(bs, p - base, newSize);
      q := Kmalloc(newSize);
      if q == NULL {
        return;
      }
      ghost var h, m1, now := blocks, mem[..], BlockOf(blocks, q - base);
      HeaderOf(m1, base, h, was);
      Copy(q, p, Word(p - HEADER), now);
      ghost var m2 := mem[..];
      Kfree(p);
      MoveBytes(bs, h, was, now, m0, m1, m2, mem[..]);
    }

    /** `krealloc`. */
    method Krealloc(p: u32, newSize: u32) returns (q: u32)
      requires Valid() && (p != NULL ==> initialized && LivePtr(p) && CopyFits(blocks, p - base, newSize))
      modifies mem, this`blocks
      ensures Valid() && unchanged(`initialized)
      ensures !initialized ==> q == NULL && blocks == old(blocks) && mem[..] == old(mem[..])
      ensures initialized ==>
        var ptr := if p == NULL then None else Some(p - base);
        && blocks == Realloc(old(blocks), ptr, newSize).heap
        && q == Address(Realloc(old(blocks), ptr, newSize).ptr)
      ensures initialized && (p == NULL || (q == NULL && newSize > 0)) ==>
        KeepsPayloads(Live(old(blocks)), old(mem[..]), mem[..])
      ensures p != NULL ==>
        KeepsPayloads(Live(old(blocks)) - {BlockOf(old(blocks), p - base)}, old(mem[..]), mem[..])
      ensures p != NULL && q != NULL ==>
        CarriesOver(old(mem[..]), mem[..], BlockOf(old(blocks), p - base), q - base)
    {
      hide LoadWord, Tiles, HeaderAt, KeepsPayloads, Malloc, Free;
      ghost var bs, m0 := blocks, mem[..];
      KeepsReflexive(Live(bs), m0);
      if p == NULL {
        q := Kmalloc(newSize);
        return;
      }
      ghost var was := BlockOf(bs, p - base);
      KeepsSubset(Live(bs), Live(bs) - {was}, m0, m0);
      HeaderOf(m0, base, bs, was);
      if newSize == 0 {
        Kfree(p);
        FreeLaw(bs, p - base);
        return NULL;
      }
      if Word(p - HEADER) >= newSize {
        return p;
      }
      q := Move(p, newSize);
      if q == NULL {
        KeepsSubset(Live(bs), Live(bs) - {was}, m0, mem[..]);
      }
    }

    /** `kmalloc_aligned`: over-allocate and round the pointer up. */
    method KmallocAligned(size: u32, alignment: u32) returns (q: u32, ghost raw: u32)
      requires Valid()
      modifies mem, this`blocks
      ensures Valid() && unchanged(`initialized)
      ensures !initialized ==> raw == NULL && blocks == old(blocks) && mem[..] == old(mem[..])
      ensures initialized ==>
        && blocks == Malloc(old(blocks), Wrap(size + alignment)).heap
        && raw == Address(Malloc(old(blocks), Wrap(size + alignment)).ptr)
        && KeepsPayloads(Live(old(blocks)), old(mem[..]), mem[..])
      ensures initialized && raw != NULL ==> LivePtr(raw)
      ensures q == if raw == NULL then NULL else AlignUp(raw, alignment)
    {
      hide HeapBlocks.Valid, Tiles, Rep, KeepsPayloads, Malloc, AndNot, LoadWord;
      var p := Kmalloc(Wrap(size + alignment));
      raw := p;
      if p == NULL {
        return NULL, NULL;
      }
      q := AndNot(Wrap(p + alignment - 1), Wrap(alignment - 1));
    }
  }

  /** The payload of `b` before is found again at `at` after. */
  ghost predicate CarriesOver(m: Bytes, m': Bytes, b: Block, at: int) {
    && |m| == |m'| == KHEAP_SIZE && b.End() <= KHEAP_SIZE && 0 <= at && at + b.size <= KHEAP_SIZE
    && m'[at..at + b.size] == m[b.Payload()..b.End()]
  }

  /** The block a moving `krealloc` gets: new, apart from the old one, and larger. */
  lemma MovedFits(bs: Blocks, p: nat, size: u32)
    requires HeapBlocks.Valid(bs) && IsLive(bs, p) && BlockOf(bs, p).size < size && CopyFits(bs, p, size)
    requires Malloc(bs, size).ptr.Some?
    ensures IsLive(Malloc(bs, size).heap, Malloc(bs, size).ptr.value)
    ensures BlockOf(Malloc(bs, size).heap, Malloc(bs, size).ptr.value).size >= BlockOf(bs, p).size
  {
    hide HeapBlocks.Valid, AllocAt, IsLive, BlockOf, Granted, Round8;
    Round8Law(size);
    MallocUnfold(bs, size);
    GrantedIsLive(bs, FirstFit(bs, Round8(size), 0), Round8(size));
  }

  lemma MoveFacts(bs: Blocks, p: nat, size: u32)
    requires HeapBlocks.Valid(bs) && IsLive(bs, p) && BlockOf(bs, p).size < size && CopyFits(bs, p, size)
    ensures var g := Malloc(bs, size);
      if g.ptr.None? then Realloc(bs, Some(p), size) == g
      else
        && HeapBlocks.Valid(g.heap) && IsLive(g.heap, g.ptr.value)
        && IsLive(g.heap, p) && BlockOf(g.heap, p) == BlockOf(bs, p)
        && Realloc(bs, Some(p), size) == Grant(Free(g.heap, p), g.ptr)
        && var was, now := BlockOf(bs, p), BlockOf(g.heap, g.ptr.value);
           && now !in Live(bs) && Live(g.heap) == Live(bs) + {now} && now.size >= was.size
           && was.End() <= KHEAP_SIZE && now.End() <= KHEAP_SIZE && (was.End() <= now.off || now.End() <= was.off)
           && Live(Free(g.heap, p)) == Live(g.heap) - {was}
  {
    hide HeapBlocks.Valid, Malloc, Free;
    MallocLaw(bs, size);
    var g := Malloc(bs, size);
    if g.ptr.Some? {
      var was, now := BlockOf(bs, p), BlockOf(g.heap, g.ptr.value);
      MovedFits(bs, p, size);
      LiveUnique(g.heap, was);
      LiveApart(g.heap, was, now);
      LiveInHeap(g.heap, was);
      LiveInHeap(g.heap, now);
      FreeLaw(g.heap, p);
      NotLiveNow(bs, now);
    }
  }

  lemma NotLiveNow(bs: Blocks, b: Block)
    requires !IsLive(bs, b.Payload())
    ensures b !in Live(bs)
  {
  }

  lemma HeaderOf(m: Bytes, base: u32, bs: Blocks, b: Block)
    requires Rep(m, base, bs) && b in bs
    ensures b.End() <= KHEAP_SIZE && LoadWord(m, b.off) == b.size
  {
    var i :| 0 <= i < |bs| && bs[i] == b;
    assert HeaderAt(m, base, bs, i);
  }

  lemma LiveApart(bs: Blocks, a: Block, b: Block)
    requires HeapBlocks.Valid(bs) && a in Live(bs) && b in Live(bs) && a != b
    ensures a.End() <= b.off || b.End() <= a.off
  {
    var i :| 0 <= i < |bs| && bs[i] == a;
    var j :| 0 <= j < |bs| && bs[j] == b;
  }

  lemma MoveBytes(bs: Blocks, h: Blocks, was: Block, now: Block, m0: Bytes, m1: Bytes, m2: Bytes, m3: Bytes)
    requires HeapBlocks.Valid(h) && Live(h) == Live(bs) + {now} && was in Live(bs) && now !in Live(bs)
    requires now.End() <= KHEAP_SIZE && was.End() <= KHEAP_SIZE && now.size >= was.size
    requires KeepsPayloads(Live(bs), m0, m1)
    requires SameExcept(m1, m2, now.Payload(), now.Payload() + was.size)
    requires m2[now.Payload()..now.Payload() + was.size] == m1[was.Payload()..was.End()]
    requires KeepsPayloads(Live(h) - {was}, m2, m3)
    ensures KeepsPayloads(Live(bs) - {was}, m0, m3)
    ensures CarriesOver(m0, m3, was, now.Payload())
  {
    hide HeapBlocks.Valid;
    forall b, k | b in Live(bs) - {was} && b.Payload() <= k < b.End() && k < KHEAP_SIZE ensures m3[k] == m0[k] {
      LiveApart(h, b, now);
      assert m1[k] == m0[k] && m2[k] == m1[k];
    }
    MovedPayload(Live(bs), Live(h) - {was}, was, now, m0, m1, m2, m3);
  }

  lemma MovedPayload(live: set<Block>, live': set<Block>, was: Block, now: Block,
                     m0: Bytes, m1: Bytes, m2: Bytes, m3: Bytes)
    requires was in live && now in live' && now.size >= was.size
    requires now.End() <= KHEAP_SIZE && was.End() <= KHEAP_SIZE
    requires KeepsPayloads(live, m0, m1) && |m2| == KHEAP_SIZE && KeepsPayloads(live', m2, m3)
    requires m2[now.Payload()..now.Payload() + was.size] == m1[was.Payload()..was.End()]
    ensures CarriesOver(m0, m3, was, now.Payload())
  {
    assert m1[was.Payload()..was.End()] == m0[was.Payload()..was.End()];
    var lo := now.Payload();
    assert m3[lo..lo + was.size] == m2[lo..lo + was.size];
  }

  lemma FlaggedLive(bs: Blocks, i: nat)
    requires i < |bs|
    ensures Live(bs[i := bs[i].(free := true)]) <= Live(bs)
  {
  }

  lemma KeepsSubset(live: set<Block>, live': set<Block>, m: Bytes, m': Bytes)
    requires KeepsPayloads(live, m, m') && live' <= live
    ensures KeepsPayloads(live', m, m')
  {
  }

  lemma FirstBlockAtZero(bs: Blocks)
    requires Tiles(bs, 0, KHEAP_SIZE)
    ensures |bs| > 0 && bs[0].off == 0
  {
  }

  lemma MallocUnfold(bs: Blocks, size: u32)
    ensures size == 0 ==> Malloc(bs, size) == Grant(bs, None)
    ensures size != 0 ==>
      var i := FirstFit(bs, Round8(size), 0);
      Malloc(bs, size) == if i == |bs| then Grant(bs, None)
                          else Grant(AllocAt(bs, i, Round8(size)), Some(bs[i].Payload()))
  {
  }

  /** Cutting a free block if it is large enough and then clearing its flag is `AllocAt`. */
  lemma TakenIsAlloc(bs: Blocks, i: nat, n: nat)
    requires i < |bs| && bs[i].size >= n && bs[i].free
    ensures var split := if Splits(bs[i].size, n) then Splice(bs, i, i + 1, Halves(bs[i], n)) else bs;
      split[i := split[i].(free := false)] == AllocAt(bs, i, n)
  {
  }

  lemma KeepsReflexive(live: set<Block>, m: Bytes)
    requires |m| == KHEAP_SIZE
    ensures KeepsPayloads(live, m, m)
  {
  }

  lemma KeepsChain(live: set<Block>, m: Bytes, m': Bytes, m'': Bytes)
    requires KeepsPayloads(live, m, m') && KeepsPayloads(live, m', m'')
    ensures KeepsPayloads(live, m, m'')
  {
  }

  lemma JoinLive(bs: Blocks, i: nat)
    requires i + 1 < |bs| && bs[i].free && bs[i + 1].free
    ensures Live(Splice(bs, i, i + 2, [Joined(bs, i)])) == Live(bs)
  {
    SpliceLive(bs, i, i + 2, [Joined(bs, i)]);
    assert Live([Joined(bs, i)]) == {} == Live(bs[i..i + 2]);
  }

  lemma HalvesLive(bs: Blocks, i: nat, n: nat)
    requires i < |bs| && bs[i].free && Splits(bs[i].size, n)
    ensures Live(Splice(bs, i, i + 1, Halves(bs[i], n))) == Live(bs)
  {
    SpliceLive(bs, i, i + 1, Halves(bs[i], n));
    assert Live(Halves(bs[i], n)) == {} == Live(bs[i..i + 1]);
  }
}
