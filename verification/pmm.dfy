/** kernel/memory/pmm.c: the bitmap allocator of physical frames. */
module PhysicalMemory {
  import opened Machine
  import opened Frames
  import opened MemoryMap

  class Pmm {
    const bitmap: array<bv8>
    var total: u32
    var used: u32

    ghost predicate Shaped()
      reads this
    {
      bitmap.Length == BITMAP_SIZE && total <= MAX_FRAMES
    }

    /** The frames whose bit is clear. */
    ghost function Free(): set<nat>
      requires Shaped()
      reads this, bitmap
    {
      FreeSet(bitmap[..], total)
    }

    /** The abstract state. */
    ghost function Abs(): Pool
      requires Shaped()
      reads this, bitmap
    {
      Pool(total, Free())
    }

    /** The counter agrees with the bits, and no bit at or above `total` is clear. */
    ghost predicate Valid()
      reads this, bitmap
    {
      Shaped() && TailUsed(bitmap[..], total) && used == total - |Free()|
    }

    constructor ()
      ensures Valid() && fresh(bitmap) && total == 0
    {
      bitmap := new bv8[BITMAP_SIZE](_ => 0xFF);
      total := 0;
      used := 0;
      new;
      assert TailUsed(bitmap[..], 0) by {
        AllOnes(bitmap[..]);
      }
    }

    method BitmapSet(bit: u32)
      requires bitmap.Length == BITMAP_SIZE && bit < MAX_FRAMES
      modifies bitmap
      ensures bitmap[..] == SetBit(old(bitmap[..]), bit)
    {
      bitmap[bit / 8] := bitmap[bit / 8] | Mask(bit % 8);
    }

    method BitmapClear(bit: u32)
      requires bitmap.Length == BITMAP_SIZE && bit < MAX_FRAMES
      modifies bitmap
      ensures bitmap[..] == ClearBit(old(bitmap[..]), bit)
    {
      bitmap[bit / 8] := bitmap[bit / 8] & !Mask(bit % 8);
    }

    /** `bitmap_find_free`: the lowest clear bit in the first `total / 8` bytes. */
    method FindFree() returns (frame: Option<u32>)
      requires Shaped()
      ensures frame.Some? <==> Abs().CanAlloc()
      ensures frame.Some? ==> Abs().Lowest(frame.value)
      ensures frame.None? <==> forall f | f in Free() :: f / 8 >= total / 8
      ensures frame.Some? ==> frame.value in Free() && forall f | f in Free() :: frame.value <= f
    {
      hide Used;
      for i := 0 to total / 8
        invariant forall f | 0 <= f < 8 * i :: Used(bitmap[..], f)
      {
        ByteBits(bitmap[..], i);
        if bitmap[i] != 0xFF {
          for j := 0 to 8
            invariant forall f | 0 <= f < 8 * i + j :: Used(bitmap[..], f)
          {
            if !Bit(bitmap[i], j) {
              assert Abs().Lowest(8 * i + j);
              LowestUnique(Abs(), 8 * i + j);
              return Some(8 * i + j);
            }
          }
          assert false;
        }
      }
      return None;
    }

    /** Clear the bits of the whole frames of one available region. */
    method ReleaseRegion(e: Entry, ghost done: seq<Entry>)
      requires Shaped() && TailUsed(bitmap[..], total)
      requires Free() == Released(done, total) && used == Wrap(total - Decrements(done, total))
      modifies this`used, bitmap
      ensures TailUsed(bitmap[..], total)
      ensures Free() == Released(done + [e], total) && used == Wrap(total - Decrements(done + [e], total))
    {
      hide Released, Decrements, Wrap, Used;
      ghost var count := total - Decrements(done, total);
      ReleasedStep(done, e, total);
      if e.typ == MULTIBOOT_MEMORY_AVAILABLE {
        ClearRange(FrameStart(e), FrameEnd(e), count);
      } else {
        assert Region(e, total) == {};
      }
    }

    /** The frames from `start` up to `f` have been added to the free ones. */
    ghost predicate Clearing(free: set<nat>, start: nat, f: nat, count: int)
      reads this, bitmap
    {
      && Shaped() && TailUsed(bitmap[..], total) && start <= f
      && Free() == free + Interval(start, f) && used == Wrap(count - (f - start))
    }

    /** The clearing loop over the frames of one region. */
    method ClearRange(start: u32, end: u32, ghost count: int)
      requires Shaped() && TailUsed(bitmap[..], total) && used == Wrap(count)
      modifies this`used, bitmap
      ensures TailUsed(bitmap[..], total)
      ensures Free() == old(Free()) + Interval(start, Min(end, total))
      ensures used == Wrap(count - |Interval(start, Min(end, total))|)
    {
      hide TailUsed, FreeSet, Wrap;
      ghost var free := Free();
      assert Interval(start, start) == {} && free + {} == free;
      var f := start;
      while f < end && f < total
        invariant f == start || f <= Min(end, total)
        invariant Clearing(free, start, f, count)
      {
        ClearFrame(f, free, start, count);
        f := f + 1;
      }
      assert Interval(start, f) == Interval(start, Min(end, total));
      IntervalSize(start, f);
    }

    /** One iteration of the clearing loop. */
    method ClearFrame(f: u32, ghost free: set<nat>, ghost start: nat, ghost count: int)
      requires f < total && Clearing(free, start, f, count)
      modifies this`used, bitmap
      ensures Clearing(free, start, f + 1, count)
    {
      hide TailUsed, FreeSet, Wrap, ClearBit;
      ClearBitFrees(bitmap[..], total, f);
      assert Interval(start, f + 1) == Interval(start, f) + {f};
      BitmapClear(f);
      WrapStep(count - (f - start), -1);
      used := Wrap(used - 1);
    }

    /** Frames below `i` have been taken back out of the released ones. */
    ghost predicate Reserving(i: nat, released: set<nat>, count: int)
      reads this, bitmap
    {
      && Shaped() && TailUsed(bitmap[..], total)
      && Free() == released - Interval(0, i)
      && used == Wrap(count + |released * Interval(0, i)|)
    }

    /** Take frames 0 to 255 back. */
    method ReserveLow(ghost released: set<nat>, ghost count: int)
      requires Reserving(0, released, count)
      modifies this`used, bitmap
      ensures Reserving(256, released, count)
    {
      hide Reserving;
      for i := 0 to 256
        invariant Reserving(i, released, count)
      {
        ReserveFrame(i, released, count);
      }
    }

    /** One iteration: take frame `i` if its bit is clear. */
    method ReserveFrame(i: u32, ghost released: set<nat>, ghost count: int)
      requires i < 256 && Reserving(i, released, count)
      modifies this`used, bitmap
      ensures Reserving(i + 1, released, count)
    {
      hide Bit, SetBit, Wrap;
      ghost var taken := released * Interval(0, i);
      assert Interval(0, i + 1) == Interval(0, i) + {i};
      if !Bit(bitmap[i / 8], i % 8) {
        assert !Used(bitmap[..], i) && i in Free();
        assert released * Interval(0, i + 1) == taken + {i} && i !in taken;
        SetBitFrees(bitmap[..], total, i);
        BitmapSet(i);
        WrapStep(count + |taken|, 1);
        used := Wrap(used + 1);
      } else {
        assert i !in Free();
        assert released * Interval(0, i + 1) == taken;
      }
    }

    /** `pmm_init`. */
    method Init(flags: u32, memUpper: u32, mmap: seq<Entry>)
      requires bitmap.Length == BITMAP_SIZE
      modifies this, bitmap
      ensures Shaped() && TailUsed(bitmap[..], total)
      ensures And(flags, 0x20) == 0 ==>
        && Free() == {} && used == total && total == Min(Wrap(memUpper + 1024) / 4, MAX_FRAMES)
      ensures And(flags, 0x20) != 0 ==>
        && total == Min(MemEnd(mmap) / 4096, MAX_FRAMES) && FrameTotal(mmap, total)
        && Free() == Released(mmap, total) - Interval(0, 256)
        && used == Wrap(total - |Free()| - Excess(mmap, total))
      ensures And(flags, 0x20) != 0 ==>
        && (Valid() <==> Excess(mmap, total) % 0x1_0000_0000 == 0)
        && (|mmap| < 32767 ==> (Valid() <==> Disjoint(mmap, total)))
      ensures And(flags, 0x20) != 0 ==>
        && (FreeExact(mmap, total, Free()) <==> MadeUp(mmap, total))
        && (AllFit(mmap, total) ==> MadeUp(mmap, total))
    {
      hide Used, Wrap, Released, Decrements, MemEnd, And, Disjoint, FreeSet, TailUsed, Excess;
      hide Fits32, Usable, Region, FreeExact, FrameTotal, RegionEnd;
      forall i | 0 <= i < BITMAP_SIZE { bitmap[i] := 0xFF; }
      total, used := 0, 0;
      if And(flags, 0x20) == 0 {
        var memKb := Wrap(memUpper + 1024);
        total := memKb / 4;
        if total > BITMAP_SIZE * 8 {
          total := BITMAP_SIZE * 8;
        }
        used := total;
        NoneFree(bitmap[..], total);
        return;
      }
      var memEnd := FindMemEnd(mmap);
      TotalOfEnd(mmap, memEnd);
      total := memEnd / 4096;
      if total > BITMAP_SIZE * 8 {
        total := BITMAP_SIZE * 8;
      }
      used := total;
      NoneFree(bitmap[..], total);
      FreeMap(mmap);
      CounterExactIff(mmap, total);
      FreeIsUsableIff(mmap, total);
    }

    /** The rest of `pmm_init`: release the map's frames, then take the first megabyte back. */
    method FreeMap(mmap: seq<Entry>)
      requires Shaped() && TailUsed(bitmap[..], total) && Free() == {} && used == total
      modifies this`used, bitmap
      ensures TailUsed(bitmap[..], total)
      ensures Free() == Released(mmap, total) - Interval(0, 256)
      ensures used == Wrap(total - |Free()| - Excess(mmap, total))
    {
      hide Used, Wrap, Released, Decrements, Interval, FreeSet, TailUsed;
      ReleaseMap(mmap);
      ghost var released := Free();
      assert released * Interval(0, 0) == {} && released - Interval(0, 0) == released;
      ReserveLow(released, total - Decrements(mmap, total));
      SplitSize(released, Interval(0, 256));
    }

    /** After `pmm_init` on a map without surplus decrements, made up for where regions are cut: the first
        allocation hands out the lowest usable frame from 1 MB on, and fails if and only if there is none
        in a whole byte of the bitmap. */
    method InitThenAlloc(flags: u32, memUpper: u32, mmap: seq<Entry>) returns (addr: u32)
      requires bitmap.Length == BITMAP_SIZE && And(flags, 0x20) != 0
      requires forall t: nat | t <= MAX_FRAMES && FrameTotal(mmap, t) ::
        Excess(mmap, t) % 0x1_0000_0000 == 0 && MadeUp(mmap, t)
      modifies this, bitmap
      ensures Valid() && FrameTotal(mmap, total)
      ensures addr == 0 <==> !exists f: nat :: 256 <= f < total - total % 8 && Usable(mmap, f)
      ensures addr != 0 ==>
        && addr % 4096 == 0 && Usable(mmap, addr / 4096) && 256 <= addr / 4096 < total
        && forall f: nat | 256 <= f < total && Usable(mmap, f) :: addr / 4096 <= f
    {
      hide Used, And, Excess, FreeSet, TailUsed, MadeUp, FrameTotal, Usable, Released;
      Init(flags, memUpper, mmap);
      ghost var free := Free();
      assert forall f: nat :: f in free <==> 256 <= f < total && Usable(mmap, f);
      addr := AllocFrame();
      WholeBytes(total);
    }

    /** The first pass of `pmm_init` over the map: the highest region end. */
    static method FindMemEnd(mmap: seq<Entry>) returns (memEnd: u32)
      ensures memEnd == MemEnd(mmap)
      ensures forall e | e in mmap :: RegionEnd(e) <= memEnd
      ensures if mmap == [] then memEnd == 0 else exists e :: e in mmap && RegionEnd(e) == memEnd
    {
      memEnd := 0;
      for k := 0 to |mmap|
        invariant memEnd == MemEnd(mmap[..k])
        invariant forall e | e in mmap[..k] :: RegionEnd(e) <= memEnd
        invariant if k == 0 then memEnd == 0 else exists i :: 0 <= i < k && RegionEnd(mmap[i]) == memEnd
      {
        assert mmap[..k + 1] == mmap[..k] + [mmap[k]];
        var regionEnd := RegionEnd(mmap[k]);
        if regionEnd > memEnd {
          memEnd := regionEnd;
        }
        assert k == 0 ==> RegionEnd(mmap[0]) == memEnd;
      }
      assert mmap[..|mmap|] == mmap;
    }

    /** The second pass: release the frames of every available region. */
    method ReleaseMap(mmap: seq<Entry>)
      requires Shaped() && TailUsed(bitmap[..], total) && Free() == {} && used == total
      modifies this`used, bitmap
      ensures TailUsed(bitmap[..], total)
      ensures Free() == Released(mmap, total) && used == Wrap(total - Decrements(mmap, total))
    {
      hide Used, Released, Decrements;
      ReleasedNone(total);
      for k := 0 to |mmap|
        invariant TailUsed(bitmap[..], total)
        invariant Free() == Released(mmap[..k], total)
        invariant used == Wrap(total - Decrements(mmap[..k], total))
      {
        assert mmap[..k + 1] == mmap[..k] + [mmap[k]];
        ReleaseRegion(mmap[k], mmap[..k]);
      }
      assert mmap[..|mmap|] == mmap;
    }

    /** `pmm_alloc_frame`. */
    method AllocFrame() returns (addr: u32)
      requires Valid()
      modifies this`used, bitmap
      ensures Valid()
      ensures addr == old(Abs()).AllocAddress() && Abs() == old(Abs()).AfterAlloc()
      ensures (forall f | f in old(Free()) :: f / 8 >= total / 8) ==>
        addr == 0 && bitmap[..] == old(bitmap[..]) && used == old(used)
      ensures !(forall f | f in old(Free()) :: f / 8 >= total / 8) ==>
        && addr % 4096 == 0 && addr / 4096 in old(Free()) && Free() == old(Free()) - {addr / 4096}
        && (forall f | f in old(Free()) :: addr / 4096 <= f)
        && used == old(used) + 1
    {
      hide Used, SetBit;
      var frame := FindFree();
      if frame.None? {
        return 0;
      }
      ghost var p, bm := Abs(), bitmap[..];
      LowestUnique(p, frame.value);
      SetBitFrees(bm, total, frame.value);
      assert |p.free - {frame.value}| == |p.free| - 1;
      BitmapSet(frame.value);
      used := Wrap(used + 1);
      addr := frame.value * 4096;
    }

    /** `pmm_free_frame`. */
    method FreeFrame(addr: u32)
      requires Valid()
      modifies this`used, bitmap
      ensures Valid()
      ensures Abs() == old(Abs()).AfterFree(addr)
      ensures Free() == old(Free()) + if addr / 4096 < total then {addr / 4096} else {}
    {
      hide SetBit, ClearBit, Bit;
      var frame := addr / 4096;
      ghost var p, bm := Abs(), bitmap[..];
      if frame < total && Bit(bitmap[frame / 8], frame % 8) {
        ClearBitFrees(bm, total, frame);
        assert frame !in p.free;
        SizeBound(bm, total, frame);
        BitmapClear(frame);
        used := Wrap(used - 1);
      } else {
        assert frame < total ==> p.free + {frame} == p.free;
      }
    }

    /** `pmm_mark_used`. */
    method MarkUsed(addr: u32)
      requires Valid()
      modifies this`used, bitmap
      ensures Valid()
      ensures Abs() == old(Abs()).AfterMark(addr)
      ensures Free() == old(Free()) - {addr / 4096}
    {
      hide SetBit, Bit;
      var frame := addr / 4096;
      ghost var p, bm := Abs(), bitmap[..];
      if frame < total && !Bit(bitmap[frame / 8], frame % 8) {
        SetBitFrees(bm, total, frame);
        assert |p.free - {frame}| == |p.free| - 1;
        BitmapSet(frame);
        used := Wrap(used + 1);
      } else {
        assert p.free - {frame} == p.free;
      }
    }
  }

  lemma WholeBytes(total: nat)
    ensures forall f: nat :: f / 8 < total / 8 <==> f < total - total % 8
  {
  }

  lemma SplitSize(a: set<nat>, b: set<nat>)
    ensures |a| == |a - b| + |a * b|
  {
    assert a == (a - b) + (a * b);
  }

  /** A bitmap of ones has no free frame. */
  lemma NoneFree(bm: Bitmap, total: nat)
    requires total <= 8 * |bm| && forall i | 0 <= i < |bm| :: bm[i] == 0xFF
    ensures FreeSet(bm, total) == {} && TailUsed(bm, total)
  {
    hide Used;
    AllOnes(bm);
  }

  lemma AllOnes(bm: Bitmap)
    requires forall i | 0 <= i < |bm| :: bm[i] == 0xFF
    ensures forall f | 0 <= f < 8 * |bm| :: Used(bm, f)
  {
    forall f | 0 <= f < 8 * |bm| ensures Used(bm, f) {
      FullByte(bm[f / 8]);
    }
  }

  /** Byte `i` holds the bits of frames `8 i` to `8 i + 7`. */
  lemma ByteBits(bm: Bitmap, i: nat)
    requires i < |bm|
    ensures forall j | 0 <= j < 8 :: Used(bm, 8 * i + j) == Bit(bm[i], j)
    ensures bm[i] == 0xFF <==> forall j | 0 <= j < 8 :: Bit(bm[i], j)
    ensures bm[i] == 0xFF ==> forall f | 8 * i <= f < 8 * (i + 1) :: Used(bm, f)
  {
    FullByte(bm[i]);
    forall j | 0 <= j < 8 ensures Used(bm, 8 * i + j) == Bit(bm[i], j) {
      assert (8 * i + j) / 8 == i && (8 * i + j) % 8 == j;
    }
    forall f | 8 * i <= f < 8 * (i + 1) ensures bm[i] == 0xFF ==> Used(bm, f) {
      assert f == 8 * i + (f - 8 * i);
    }
  }

  lemma SizeBound(bm: Bitmap, total: nat, f: nat)
    requires total <= 8 * |bm| && f < total && Used(bm, f)
    ensures |FreeSet(bm, total)| < total
  {
    hide Used;
    UsedCount(bm, total);
    var used := set g | 0 <= g < total && Used(bm, g);
    assert f in used;
    assert |used| > 0;
  }
}
