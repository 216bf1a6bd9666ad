/** The block list of the kernel heap as a sequence: first fit, splitting and
    two-sided coalescing, and the laws that hold over every run. */
module HeapBlocks {
  import opened Machine

  const KHEAP_SIZE: int := 4 * 1024 * 1024
  const HEADER: int := 16
  const MIN_BLOCK: int := 16

  datatype Block = Block(off: nat, size: nat, free: bool) {
    /** Offset of the first payload byte. */
    function Payload(): nat { off + HEADER }

    /** Offset just past the payload. */
    function End(): nat { off + HEADER + size }
  }

  type Blocks = seq<Block>

  /** `bs` lays blocks of 8-byte multiples end to end from `lo` to `hi`. */
  ghost predicate Tiles(bs: Blocks, lo: nat, hi: nat) {
    && |bs| > 0
    && bs[0].off == lo
    && bs[|bs| - 1].End() == hi
    && (forall i | 0 <= i < |bs| :: bs[i].off % 8 == 0 && bs[i].size % 8 == 0)
    && (forall i, j | 0 <= i < j < |bs| ::
          bs[i].End() <= bs[j].off && (j == i + 1 ==> bs[i].End() == bs[j].off))
  }

  /** No two neighbouring blocks are both free. */
  ghost predicate Coalesced(bs: Blocks) {
    forall i, j | 0 <= i < j < |bs| && j == i + 1 :: !(bs[i].free && bs[j].free)
  }

  /** The whole heap area is tiled and fully coalesced. */
  ghost predicate Valid(bs: Blocks) {
    Tiles(bs, 0, KHEAP_SIZE) && Coalesced(bs)
  }

  /** The blocks handed out and not yet freed. */
  function Live(bs: Blocks): set<Block> {
    set b | b in bs && !b.free
  }

  const Initial: Blocks := [Block(0, KHEAP_SIZE - HEADER, true)]

  // ---------------------------------------------------------------- operations

  /** `(size + 7) & ~7` in 32 bits. */
  function Round8(size: u32): (r: u32) {
    AndNot(Wrap(size + 7), 7)
  }

  /** Index of the first free block of at least `n` bytes from `k` on, or `|bs|`. */
  function FirstFit(bs: Blocks, n: nat, k: nat): (i: nat)
    requires k <= |bs|
    ensures k <= i <= |bs|
    ensures i < |bs| ==> bs[i].free && bs[i].size >= n
    ensures forall j | k <= j < i :: !(bs[j].free && bs[j].size >= n)
    decreases |bs| - k
  {
    if k == |bs| || (bs[k].free && bs[k].size >= n) then k else FirstFit(bs, n, k + 1)
  }

  /** Does a block of `size` bytes leave room for a second block after `n` bytes? */
  predicate Splits(size: nat, n: nat) {
    size >= n + HEADER + MIN_BLOCK
  }

  /** The block that taking `n` bytes out of free block `b` hands out. */
  function Granted(b: Block, n: nat): Block {
    Block(b.off, if Splits(b.size, n) then n else b.size, false)
  }

  /** `bs` with the blocks from `lo` to `hi` replaced by `mid`. */
  function Splice(bs: Blocks, lo: nat, hi: nat, mid: Blocks): Blocks
    requires lo <= hi <= |bs|
  {
    bs[..lo] + mid + bs[hi..]
  }

  /** Take `n` bytes out of the free block at index `i`. */
  function AllocAt(bs: Blocks, i: nat, n: nat): Blocks
    requires i < |bs| && bs[i].size >= n
  {
    Splice(bs, i, i + 1, Parts(bs[i], n))
  }

  /** What taking `n` bytes makes of free block `b`. */
  function Parts(b: Block, n: nat): Blocks
    requires b.size >= n
  {
    if Splits(b.size, n) then
      [Granted(b, n), Block(b.off + HEADER + n, b.size - n - HEADER, true)]
    else [Granted(b, n)]
  }

  /** Index of the first block that releasing block `i` absorbs. */
  function MergeLo(bs: Blocks, i: nat): (lo: nat)
    requires i < |bs|
    ensures lo <= i
  {
    if i > 0 && bs[i - 1].free then i - 1 else i
  }

  /** Index just past the last block that releasing block `i` absorbs. */
  function MergeHi(bs: Blocks, i: nat): (hi: nat)
    requires i < |bs|
    ensures i < hi <= |bs|
  {
    if i + 1 < |bs| && bs[i + 1].free then i + 2 else i + 1
  }

  /** Release the block at index `i` and coalesce it with both neighbours. */
  function FreeAt(bs: Blocks, i: nat): Blocks
    requires i < |bs| && Tiles(bs, 0, KHEAP_SIZE)
  {
    var lo, hi := MergeLo(bs, i), MergeHi(bs, i);
    Splice(bs, lo, hi, [Merged(bs, lo, hi)])
  }

  // ------------------------------------------------------------ invariant steps

  /** Replacing a stretch by blocks that tile the same bytes keeps the tiling. */
  lemma SpliceTiles(bs: Blocks, lo: nat, hi: nat, mid: Blocks)
    requires Tiles(bs, 0, KHEAP_SIZE) && lo < hi <= |bs|
    requires Tiles(mid, bs[lo].off, bs[hi - 1].End())
    ensures Tiles(Splice(bs, lo, hi, mid), 0, KHEAP_SIZE)
  {
    var r := Splice(bs, lo, hi, mid);
    assert hi == |bs| ==> r[|r| - 1] == mid[|mid| - 1];
    forall i, j | 0 <= i < j < |r|
      ensures r[i].End() <= r[j].off && (j == i + 1 ==> r[i].End() == r[j].off)
    {
      SplicePair(bs, lo, hi, mid, i, j);
    }
  }

  lemma SplicePair(bs: Blocks, lo: nat, hi: nat, mid: Blocks, i: nat, j: nat)
    requires Tiles(bs, 0, KHEAP_SIZE) && lo < hi <= |bs|
    requires Tiles(mid, bs[lo].off, bs[hi - 1].End())
    requires i < j < |Splice(bs, lo, hi, mid)|
    ensures var r := Splice(bs, lo, hi, mid);
      r[i].End() <= r[j].off && (j == i + 1 ==> r[i].End() == r[j].off)
  {
    var r, d := Splice(bs, lo, hi, mid), lo + |mid| - hi;
    var first, last := mid[0], mid[|mid| - 1];
    if j < lo {
    } else if j < lo + |mid| {
      assert r[j] == mid[j - lo] && mid[j - lo].off >= first.off;
      if i < lo {
        assert bs[i].End() <= bs[lo].off;
      } else {
        assert r[i] == mid[i - lo];
      }
    } else {
      assert r[j] == bs[j - d];
      assert bs[hi - 1].End() <= bs[j - d].off;
      if i < lo {
        assert bs[i].End() <= bs[j - d].off;
      } else if i < lo + |mid| {
        assert r[i] == mid[i - lo] && mid[i - lo].End() <= last.End();
      } else {
        assert r[i] == bs[i - d];
      }
    }
  }

  lemma LiveConcat(a: Blocks, b: Blocks)
    ensures Live(a + b) == Live(a) + Live(b)
  {
  }

  lemma SpliceLive(bs: Blocks, lo: nat, hi: nat, mid: Blocks)
    requires lo <= hi <= |bs|
    ensures Live(Splice(bs, lo, hi, mid)) == Live(bs[..lo]) + Live(mid) + Live(bs[hi..])
    ensures Live(bs) == Live(bs[..lo]) + Live(bs[lo..hi]) + Live(bs[hi..])
  {
    LiveConcat(bs[..lo] + mid, bs[hi..]);
    LiveConcat(bs[..lo], mid);
    assert bs == bs[..lo] + bs[lo..hi] + bs[hi..];
    LiveConcat(bs[..lo] + bs[lo..hi], bs[hi..]);
    LiveConcat(bs[..lo], bs[lo..hi]);
  }

  /** A replacement that is coalesced inside and at both seams keeps the list coalesced. */
  lemma SpliceCoalesced(bs: Blocks, lo: nat, hi: nat, mid: Blocks)
    requires Coalesced(bs) && lo < hi <= |bs| && |mid| > 0 && Coalesced(mid)
    requires lo > 0 ==> !(bs[lo - 1].free && mid[0].free)
    requires hi < |bs| ==> !(mid[|mid| - 1].free && bs[hi].free)
    ensures Coalesced(Splice(bs, lo, hi, mid))
  {
    var r, d := Splice(bs, lo, hi, mid), lo + |mid| - hi;
    forall i, j | 0 <= i < j < |r| && j == i + 1 ensures !(r[i].free && r[j].free) {
      if i >= lo + |mid| {
        assert r[i] == bs[i - d] && r[j] == bs[j - d];
      }
    }
  }

  lemma PartsTile(b: Block, n: nat)
    requires b.off % 8 == 0 && b.size % 8 == 0 && n % 8 == 0 && b.size >= n
    ensures Tiles(Parts(b, n), b.off, b.End()) && Coalesced(Parts(b, n))
  {
    assert (b.off + HEADER + n) % 8 == 0 && (b.size - n - HEADER) % 8 == 0;
  }

  lemma AllocAtValid(bs: Blocks, i: nat, n: nat)
    requires Valid(bs) && i < |bs| && bs[i].free && bs[i].size >= n && n % 8 == 0
    ensures Valid(AllocAt(bs, i, n))
  {
    PartsTile(bs[i], n);
    SpliceTiles(bs, i, i + 1, Parts(bs[i], n));
    SpliceCoalesced(bs, i, i + 1, Parts(bs[i], n));
  }

  lemma AllocAtLive(bs: Blocks, i: nat, n: nat)
    requires Valid(bs) && i < |bs| && bs[i].free && bs[i].size >= n
    ensures Live(AllocAt(bs, i, n)) == Live(bs) + {Granted(bs[i], n)}
    ensures Granted(bs[i], n) !in Live(bs)
  {
    SpliceLive(bs, i, i + 1, Parts(bs[i], n));
    assert Live(bs[i..i + 1]) == {};
    assert Live(Parts(bs[i], n)) == {Granted(bs[i], n)} by {
      assert Parts(bs[i], n)[0] == Granted(bs[i], n);
    }
    OffsetsDiffer(bs, i);
  }

  /** A block's offset identifies it. */
  lemma OffsetsDiffer(bs: Blocks, i: nat)
    requires Tiles(bs, 0, KHEAP_SIZE) && i < |bs|
    ensures forall j | 0 <= j < |bs| :: bs[j].off == bs[i].off ==> j == i
  {
  }

  /** The block that absorbs everything between indices `lo` and `hi`. */
  function Merged(bs: Blocks, lo: nat, hi: nat): Block
    requires lo < hi <= |bs| && Tiles(bs, 0, KHEAP_SIZE)
  {
    Block(bs[lo].off, bs[hi - 1].End() - bs[lo].off - HEADER, true)
  }

  lemma MergedTile(bs: Blocks, lo: nat, hi: nat)
    requires lo < hi <= |bs| && Tiles(bs, 0, KHEAP_SIZE)
    ensures Tiles([Merged(bs, lo, hi)], bs[lo].off, bs[hi - 1].End())
  {
    var a, b := bs[lo], bs[hi - 1];
    assert a.off <= b.off;
    assert (b.End() - a.off - HEADER) % 8 == 0;
  }

  lemma FreeAtValid(bs: Blocks, i: nat)
    requires Valid(bs) && i < |bs| && !bs[i].free
    ensures Valid(FreeAt(bs, i))
  {
    var lo, hi := MergeLo(bs, i), MergeHi(bs, i);
    MergedTile(bs, lo, hi);
    SpliceTiles(bs, lo, hi, [Merged(bs, lo, hi)]);
    SpliceCoalesced(bs, lo, hi, [Merged(bs, lo, hi)]);
  }

  lemma FreedStretch(bs: Blocks, i: nat)
    requires Valid(bs) && i < |bs| && !bs[i].free
    ensures Live(bs[MergeLo(bs, i)..MergeHi(bs, i)]) == {bs[i]}
    ensures bs[i] !in bs[..MergeLo(bs, i)] && bs[i] !in bs[MergeHi(bs, i)..]
  {
    var mid := bs[MergeLo(bs, i)..MergeHi(bs, i)];
    assert mid[i - MergeLo(bs, i)] == bs[i];
    OffsetsDiffer(bs, i);
  }

  lemma FreeAtLive(bs: Blocks, i: nat)
    requires Valid(bs) && i < |bs| && !bs[i].free
    ensures Live(FreeAt(bs, i)) == Live(bs) - {bs[i]}
  {
    var lo, hi := MergeLo(bs, i), MergeHi(bs, i);
    var mid := [Merged(bs, lo, hi)];
    assert Live(mid) == {};
    assert Live(bs[..lo]) + Live(mid) + Live(bs[hi..]) == Live(bs) - {bs[i]} by {
      SpliceLive(bs, lo, hi, mid);
      FreedStretch(bs, i);
    }
    SpliceLive(bs, lo, hi, mid);
  }

  // ------------------------------------------------------------ canonical form

  /** Two valid lists that agree before index `k` start that block alike. */
  lemma SameOffset(a: Blocks, b: Blocks, k: nat)
    requires Valid(a) && Valid(b) && k < |a| && k < |b| && a[..k] == b[..k]
    ensures a[k].off == b[k].off
  {
    if k > 0 {
      assert a[k - 1] == a[..k][k - 1] == b[..k][k - 1] == b[k - 1];
    }
  }

  lemma LiveAtOffset(a: Blocks, b: Blocks, i: nat, k: nat)
    requires Valid(a) && Valid(b) && Live(a) == Live(b) && i < |a| && k < |b|
    requires !a[i].free && a[i].off == b[k].off
    ensures a[i] == b[k]
  {
    assert a[i] in Live(b);
    OffsetsDiffer(b, k);
  }

  /** A live block of `a` cannot start strictly inside block `k` of `b`. */
  lemma NoLiveInside(a: Blocks, b: Blocks, i: nat, k: nat)
    requires Valid(a) && Valid(b) && Live(a) == Live(b) && i < |a| && k < |b|
    requires !a[i].free
    ensures a[i].off <= b[k].off || a[i].off >= b[k].End()
  {
    assert a[i] in Live(b);
    var j :| 0 <= j < |b| && b[j] == a[i];
  }

  lemma FreeNotShorter(a: Blocks, b: Blocks, k: nat)
    requires Valid(a) && Valid(b) && Live(a) == Live(b) && k < |a| && k < |b|
    requires a[k].off == b[k].off && a[k].free && b[k].free
    ensures a[k].size >= b[k].size
  {
    if k + 1 < |a| {
      NoLiveInside(a, b, k + 1, k);
    } else {
      var last := b[|b| - 1];
    }
  }

  lemma SameBlock(a: Blocks, b: Blocks, k: nat)
    requires Valid(a) && Valid(b) && Live(a) == Live(b) && k < |a| && k < |b|
    requires a[k].off == b[k].off
    ensures a[k] == b[k]
  {
    if !a[k].free {
      LiveAtOffset(a, b, k, k);
    } else if !b[k].free {
      LiveAtOffset(b, a, k, k);
    } else {
      FreeNotShorter(a, b, k);
      FreeNotShorter(b, a, k);
    }
  }

  lemma NoProperPrefix(a: Blocks, b: Blocks)
    requires Valid(a) && Valid(b) && |a| <= |b| && a == b[..|a|]
    ensures a == b
  {
    var k := |a| - 1;
    assert a[k] == b[k];
    var last := b[|b| - 1];
  }

  /** The shape of the heap is a function of its live blocks alone. */
  lemma {:induction false} CanonicalFrom(a: Blocks, b: Blocks, k: nat)
    requires Valid(a) && Valid(b) && Live(a) == Live(b)
    requires k <= |a| && k <= |b| && a[..k] == b[..k]
    ensures a == b
    decreases |a| - k
  {
    if k == |a| {
      NoProperPrefix(a, b);
    } else if k == |b| {
      NoProperPrefix(b, a);
    } else {
      SameOffset(a, b, k);
      SameBlock(a, b, k);
      assert a[..k + 1] == a[..k] + [a[k]] && b[..k + 1] == b[..k] + [b[k]];
      CanonicalFrom(a, b, k + 1);
    }
  }

  lemma Canonical(a: Blocks, b: Blocks)
    requires Valid(a) && Valid(b) && Live(a) == Live(b)
    ensures a == b
  {
    CanonicalFrom(a, b, 0);
  }

  lemma InitialValid()
    ensures Valid(Initial) && Live(Initial) == {}
  {
  }

  // ------------------------------------------------------- the public operations

  /** The heap after a request and the payload offset it returns, if any. */
  datatype Grant = Grant(heap: Blocks, ptr: Option<nat>)

  ghost function Malloc(bs: Blocks, size: u32): Grant {
    var n := Round8(size);
    var i := FirstFit(bs, n, 0);
    if size == 0 || i == |bs| then Grant(bs, None)
    else Grant(AllocAt(bs, i, n), Some(bs[i].Payload()))
  }

  /** Is `p` the payload offset of a live block? */
  ghost predicate IsLive(bs: Blocks, p: nat) {
    exists b :: b in Live(bs) && b.Payload() == p
  }

  ghost function IndexOf(bs: Blocks, p: nat): (i: nat)
    requires IsLive(bs, p)
    ensures i < |bs| && !bs[i].free && bs[i].Payload() == p
  {
    var b :| b in Live(bs) && b.Payload() == p;
    var i :| 0 <= i < |bs| && bs[i] == b;
    i
  }

  ghost function BlockOf(bs: Blocks, p: nat): (b: Block)
    requires IsLive(bs, p)
    ensures b in Live(bs) && b.Payload() == p
  {
    bs[IndexOf(bs, p)]
  }

  ghost function Free(bs: Blocks, p: nat): Blocks
    requires Valid(bs) && IsLive(bs, p)
  {
    FreeAt(bs, IndexOf(bs, p))
  }

  ghost function Realloc(bs: Blocks, p: Option<nat>, size: u32): Grant
    requires Valid(bs) && (p.Some? ==> IsLive(bs, p.value))
  {
    if p.None? then Malloc(bs, size)
    else if size == 0 then Grant(Free(bs, p.value), None)
    else if BlockOf(bs, p.value).size >= size then Grant(bs, p)
    else
      var g := Malloc(bs, size);
      MallocLaw(bs, size);
      if g.ptr.None? then g else Grant(Free(g.heap, p.value), g.ptr)
  }

  /** The `memcpy` of a reallocation stays inside the block that the allocation hands out. */
  ghost predicate CopyFits(bs: Blocks, p: nat, size: u32)
    requires IsLive(bs, p)
  {
    var was, n := BlockOf(bs, p).size, Round8(size);
    var i := FirstFit(bs, n, 0);
    was < size && i < |bs| ==> was <= Granted(bs[i], n).size
  }

  /** It does for every size up to 2^32 - 8. Above, the rounding wraps to 0: the copy fits if and only
      if nothing is moved, or the first free block is too small to be split and holds the old one. */
  lemma CopyFitsLaw(bs: Blocks, p: nat, size: u32)
    requires IsLive(bs, p)
    ensures size <= U32_LIMIT - 8 ==> CopyFits(bs, p, size)
    ensures size > U32_LIMIT - 8 ==>
      var was, i := BlockOf(bs, p).size, FirstFit(bs, 0, 0);
      CopyFits(bs, p, size) <==>
        was >= size || i == |bs| || was <= if bs[i].size >= HEADER + MIN_BLOCK then 0 else bs[i].size
  {
    Round8Law(size);
  }

  /** An allocation takes the first free block that is large enough, in address order: its payload starts
      behind the 16-byte header, and it is cut to the size rounded up to 8 exactly when 32 bytes or more
      would be left. */
  lemma MallocFirst(bs: Blocks, size: u32)
    requires Valid(bs) && 0 < size <= U32_LIMIT - 8 && Malloc(bs, size).ptr.Some?
    ensures IsLive(Malloc(bs, size).heap, Malloc(bs, size).ptr.value)
    ensures var g, n: nat := Malloc(bs, size), (size + 7) / 8 * 8;
      exists i ::
        && 0 <= i < |bs| && bs[i].free && bs[i].size >= n && g.ptr.value == bs[i].off + 16
        && (forall j | 0 <= j < i :: !bs[j].free || bs[j].size < n)
        && BlockOf(g.heap, g.ptr.value).size == if bs[i].size >= n + 32 then n else bs[i].size
  {
    hide Valid, AllocAt, IsLive, BlockOf;
    Round8Law(size);
    Round8Multiple(size);
    var i := FirstFit(bs, Round8(size), 0);
    GrantedIsLive(bs, i, Round8(size));
  }

  lemma Round8Multiple(size: u32)
    requires size <= U32_LIMIT - 8
    ensures Round8(size) == (size + 7) / 8 * 8
  {
    hide AndNot;
    ClearLowBits(Wrap(size + 7));
  }

  /** A request of 2^32 - 1 bytes is granted a block of none. */
  lemma OversizeGranted()
    ensures var g := Malloc(Initial, 0xFFFF_FFFF);
      g.ptr.Some? && IsLive(g.heap, g.ptr.value) && BlockOf(g.heap, g.ptr.value).size < 0xFFFF_FFFF
  {
    InitialValid();
    Round8Law(0xFFFF_FFFF);
    MallocLaw(Initial, 0xFFFF_FFFF);
    assert Initial[0] in Initial;
    GrantCoversRequest(Initial, 0xFFFF_FFFF);
  }

  /** The 32-bit rounding is exact up to 2^32 - 8 and wraps to 0 above. */
  lemma Round8Law(size: u32)
    ensures Round8(size) % 8 == 0
    ensures size <= U32_LIMIT - 8 ==> size <= Round8(size) < size + 8
    ensures size > U32_LIMIT - 8 ==> Round8(size) == 0
  {
    hide AndNot;
    ClearLowBits(Wrap(size + 7));
  }

  /** What an allocation does to the live blocks, and exactly when it fails. */
  lemma MallocLaw(bs: Blocks, size: u32)
    requires Valid(bs)
    ensures var g := Malloc(bs, size);
      && Valid(g.heap)
      && (g.ptr.None? <==> size == 0 || forall b | b in bs :: b.free ==> b.size < Round8(size))
      && (g.ptr.None? ==> g.heap == bs)
      && (g.ptr.Some? ==>
            && !IsLive(bs, g.ptr.value)
            && IsLive(g.heap, g.ptr.value)
            && Live(g.heap) == Live(bs) + {BlockOf(g.heap, g.ptr.value)}
            && BlockOf(g.heap, g.ptr.value).size >= Round8(size))
  {
    Round8Law(size);
    var n := Round8(size);
    var i := FirstFit(bs, n, 0);
    if size != 0 && i < |bs| {
      AllocAtValid(bs, i, n);
      AllocAtLive(bs, i, n);
      GrantedIsLive(bs, i, n);
    }
  }

  lemma GrantedIsLive(bs: Blocks, i: nat, n: nat)
    requires Valid(bs) && i < |bs| && bs[i].free && bs[i].size >= n && n % 8 == 0
    ensures var r, p := AllocAt(bs, i, n), bs[i].Payload();
      && !IsLive(bs, p)
      && IsLive(r, p)
      && BlockOf(r, p) == Granted(bs[i], n)
  {
    var r, g := AllocAt(bs, i, n), Granted(bs[i], n);
    AllocAtValid(bs, i, n);
    AllocAtLive(bs, i, n);
    assert g in Live(r);
    LiveUnique(r, g);
    OffsetsDiffer(bs, i);
  }

  /** A live block is the one its payload offset names. */
  lemma LiveUnique(bs: Blocks, b: Block)
    requires Valid(bs) && b in Live(bs)
    ensures IsLive(bs, b.Payload()) && BlockOf(bs, b.Payload()) == b
  {
    var i :| 0 <= i < |bs| && bs[i] == b;
    assert IsLive(bs, b.Payload());
    OffsetsDiffer(bs, i);
  }

  /** Freeing removes exactly the named block from the live ones. */
  lemma FreeLaw(bs: Blocks, p: nat)
    requires Valid(bs) && IsLive(bs, p)
    ensures Valid(Free(bs, p))
    ensures Live(Free(bs, p)) == Live(bs) - {BlockOf(bs, p)}
    ensures !IsLive(Free(bs, p), p)
  {
    var i := IndexOf(bs, p);
    FreeAtValid(bs, i);
    FreeAtLive(bs, i);
    OffsetsDiffer(bs, i);
  }

  /** `kfree` exactly undoes `kmalloc`. */
  lemma FreeUndoesMalloc(bs: Blocks, size: u32)
    requires Valid(bs) && Malloc(bs, size).ptr.Some?
    ensures var g := Malloc(bs, size);
      Valid(g.heap) && IsLive(g.heap, g.ptr.value) && Free(g.heap, g.ptr.value) == bs
  {
    MallocLaw(bs, size);
    var g := Malloc(bs, size);
    FreeLaw(g.heap, g.ptr.value);
    Canonical(Free(g.heap, g.ptr.value), bs);
  }

  /** The granted payload covers the request exactly when the rounding does not wrap. */
  lemma GrantCoversRequest(bs: Blocks, size: u32)
    requires Valid(bs) && Malloc(bs, size).ptr.Some?
    ensures IsLive(Malloc(bs, size).heap, Malloc(bs, size).ptr.value)
    ensures var g := Malloc(bs, size);
      BlockOf(g.heap, g.ptr.value).size >= size <==> size <= U32_LIMIT - 8
  {
    MallocLaw(bs, size);
    Round8Law(size);
    var g := Malloc(bs, size);
    LiveInHeap(g.heap, BlockOf(g.heap, g.ptr.value));
  }

  lemma LiveInHeap(bs: Blocks, b: Block)
    requires Valid(bs) && b in bs
    ensures b.End() <= KHEAP_SIZE && b.Payload() % 8 == 0
  {
    var i :| 0 <= i < |bs| && bs[i] == b;
    var last := bs[|bs| - 1];
  }
}
