/** The frame bitmap of kernel/memory/pmm.c as a set of free frames, and what a
    run of allocations, frees and marks does to that set. */
module Frames {

  const BITMAP_SIZE: int := 16384
  const MAX_FRAMES: int := 131072

  type Bitmap = seq<bv8>

  // ---------------------------------------------------------------- single bits

  /** `1 << j` in a byte. */
  function Mask(j: nat): bv8
    requires j < 8
  {
    if j == 0 then 0x01 else if j == 1 then 0x02 else if j == 2 then 0x04 else if j == 3 then 0x08
    else if j == 4 then 0x10 else if j == 5 then 0x20 else if j == 6 then 0x40 else 0x80
  }

  predicate Bit(b: bv8, j: nat)
    requires j < 8
  {
    b & Mask(j) != 0
  }

  /** Is the bit of frame `f` set? */
  predicate Used(bm: Bitmap, f: nat)
    requires f < 8 * |bm|
  {
    Bit(bm[f / 8], f % 8)
  }

  function SetBit(bm: Bitmap, f: nat): (r: Bitmap)
    requires f < 8 * |bm|
    ensures |r| == |bm|
  {
    bm[f / 8 := bm[f / 8] | Mask(f % 8)]
  }

  function ClearBit(bm: Bitmap, f: nat): (r: Bitmap)
    requires f < 8 * |bm|
    ensures |r| == |bm|
  {
    bm[f / 8 := bm[f / 8] & !Mask(f % 8)]
  }

  lemma MaskIsShift(j: nat)
    requires j < 8
    ensures Mask(j) == (1 as bv8) << j
  {
  }

  /** Frame `8 * i + j` is bit `j`, counted from the low end, of byte `i`, and no other bit changes with it. */
  lemma BitOrder(bm: Bitmap, i: nat, j: nat)
    requires i < |bm| && j < 8
    ensures SetBit(bm, 8 * i + j) == bm[i := bm[i] | ((1 as bv8) << j)]
    ensures ClearBit(bm, 8 * i + j) == bm[i := bm[i] & !((1 as bv8) << j)]
  {
    hide Mask;
    MaskIsShift(j);
    ByteAndBit(i, j);
  }

  lemma ByteAndBit(i: nat, j: nat)
    requires j < 8
    ensures (8 * i + j) / 8 == i && (8 * i + j) % 8 == j
  {
  }

  lemma ByteSet(b: bv8, j: nat, k: nat)
    requires j < 8 && k < 8
    ensures Bit(b | Mask(j), k) <==> k == j || Bit(b, k)
  {
  }

  lemma ByteClear(b: bv8, j: nat, k: nat)
    requires j < 8 && k < 8
    ensures Bit(b & !Mask(j), k) <==> k != j && Bit(b, k)
  {
  }

  /** A byte is 0xFF exactly when all its bits are set. */
  lemma FullByte(b: bv8)
    ensures (forall j | 0 <= j < 8 :: Bit(b, j)) <==> b == 0xFF
  {
    assert Bit(b, 0) && Bit(b, 1) && Bit(b, 2) && Bit(b, 3) && Bit(b, 4) && Bit(b, 5) && Bit(b, 6) && Bit(b, 7)
      ==> b == 0xFF;
  }

  /** Bytes with equal bits are equal. */
  lemma SameBits(a: bv8, b: bv8)
    requires forall j | 0 <= j < 8 :: Bit(a, j) == Bit(b, j)
    ensures a == b
  {
    assert Bit(a, 0) == Bit(b, 0) && Bit(a, 1) == Bit(b, 1) && Bit(a, 2) == Bit(b, 2) && Bit(a, 3) == Bit(b, 3);
    assert Bit(a, 4) == Bit(b, 4) && Bit(a, 5) == Bit(b, 5) && Bit(a, 6) == Bit(b, 6) && Bit(a, 7) == Bit(b, 7);
  }

  lemma SetBitLaw(bm: Bitmap, f: nat, g: nat)
    requires f < 8 * |bm| && g < 8 * |bm|
    ensures Used(SetBit(bm, f), g) <==> g == f || Used(bm, g)
  {
    hide Bit;
    ByteSet(bm[f / 8], f % 8, g % 8);
  }

  lemma ClearBitLaw(bm: Bitmap, f: nat, g: nat)
    requires f < 8 * |bm| && g < 8 * |bm|
    ensures Used(ClearBit(bm, f), g) <==> g != f && Used(bm, g)
  {
    hide Bit;
    ByteClear(bm[f / 8], f % 8, g % 8);
  }

  // ------------------------------------------------------------- the free set

  /** The frames below `total` whose bit is clear. */
  ghost function FreeSet(bm: Bitmap, total: nat): set<nat>
    requires total <= 8 * |bm|
  {
    set f | 0 <= f < total && !Used(bm, f)
  }

  /** Every bit from `total` on is set. */
  ghost predicate TailUsed(bm: Bitmap, total: nat) {
    forall f | total <= f < 8 * |bm| :: Used(bm, f)
  }

  lemma SetBitFrees(bm: Bitmap, total: nat, f: nat)
    requires total <= 8 * |bm| && f < 8 * |bm| && TailUsed(bm, total)
    ensures FreeSet(SetBit(bm, f), total) == FreeSet(bm, total) - {f} && TailUsed(SetBit(bm, f), total)
  {
    hide Used, SetBit;
    forall g | 0 <= g < 8 * |bm| ensures Used(SetBit(bm, f), g) <==> g == f || Used(bm, g) {
      SetBitLaw(bm, f, g);
    }
  }

  lemma ClearBitFrees(bm: Bitmap, total: nat, f: nat)
    requires total <= 8 * |bm| && f < total && TailUsed(bm, total)
    ensures FreeSet(ClearBit(bm, f), total) == FreeSet(bm, total) + {f} && TailUsed(ClearBit(bm, f), total)
  {
    hide Used, ClearBit;
    forall g | 0 <= g < 8 * |bm| ensures Used(ClearBit(bm, f), g) <==> g != f && Used(bm, g) {
      ClearBitLaw(bm, f, g);
    }
  }

  /** The bitmap is determined by the set of free frames. */
  lemma BitmapDetermined(bm: Bitmap, bm': Bitmap, total: nat)
    requires |bm| == |bm'| && total <= 8 * |bm| && TailUsed(bm, total) && TailUsed(bm', total)
    requires FreeSet(bm, total) == FreeSet(bm', total)
    ensures bm == bm'
  {
    forall i | 0 <= i < |bm| ensures bm[i] == bm'[i] {
      forall j | 0 <= j < 8 ensures Bit(bm[i], j) == Bit(bm'[i], j) {
        var f := 8 * i + j;
        assert f / 8 == i && f % 8 == j;
        assert Used(bm, f) == Used(bm', f) by {
          assert f < total ==> (f in FreeSet(bm, total) <==> !Used(bm, f));
          assert f < total ==> (f in FreeSet(bm', total) <==> !Used(bm', f));
        }
      }
      SameBits(bm[i], bm'[i]);
    }
  }

  /** The set bits below `total` number `total` less the free frames. */
  lemma UsedCount(bm: Bitmap, total: nat)
    requires total <= 8 * |bm|
    ensures |set f | 0 <= f < total && Used(bm, f)| == total - |FreeSet(bm, total)|
  {
    hide Used;
    var used := set f | 0 <= f < total && Used(bm, f);
    var all := Interval(0, total);
    IntervalSize(0, total);
    assert all == used + FreeSet(bm, total);
    assert used !! FreeSet(bm, total);
  }

  predicate Between(lo: nat, f: nat, hi: nat) {
    lo <= f < hi
  }

  /** The numbers from `lo` up to `hi`. */
  ghost function Interval(lo: nat, hi: nat): (r: set<nat>)
    ensures forall f :: f in r <==> lo <= f < hi
  {
    set f: nat | lo <= f < hi && Between(lo, f, hi)
  }

  lemma {:induction false} IntervalSize(lo: nat, hi: nat)
    ensures |Interval(lo, hi)| == if lo <= hi then hi - lo else 0
    decreases hi
  {
    if lo >= hi {
      assert Interval(lo, hi) == {};
    } else {
      IntervalSize(lo, hi - 1);
      assert Interval(lo, hi) == Interval(lo, hi - 1) + {hi - 1};
    }
  }

  // ------------------------------------------------------- allocation as a step

  /** The frame manager: how many frames there are and which are free. */
  datatype Pool = Pool(total: nat, free: set<nat>) {
    ghost predicate Valid() {
      total <= MAX_FRAMES && forall f | f in free :: f < total
    }

    /** The search stops at a byte boundary: up to seven trailing frames are never found. */
    function Limit(): nat { 8 * (total / 8) }

    ghost predicate Lowest(f: nat) {
      f in free && f < Limit() && forall g | g in free :: f <= g
    }

    /** Some frame is free below the search limit. */
    ghost predicate CanAlloc() {
      exists f :: f in free && f < Limit()
    }

    ghost function LowestFree(): (f: nat)
      requires CanAlloc()
      ensures Lowest(f)
    {
      var f :| f in free && f < Limit();
      LeastExists(this, f);
      var least :| Lowest(least);
      least
    }

    /** The state `pmm_alloc_frame` leaves. */
    ghost function AfterAlloc(): Pool {
      if CanAlloc() then Pool(total, free - {LowestFree()}) else this
    }

    /** The address `pmm_alloc_frame` returns: 0 when nothing was found. */
    ghost function AllocAddress(): nat {
      if CanAlloc() then LowestFree() * 4096 else 0
    }

    /** The state `pmm_free_frame` leaves. */
    function AfterFree(addr: nat): Pool {
      if addr / 4096 < total then Pool(total, free + {addr / 4096}) else this
    }

    /** The state `pmm_mark_used` leaves. */
    function AfterMark(addr: nat): Pool {
      Pool(total, free - {addr / 4096})
    }
  }

  lemma {:induction false} LeastExists(p: Pool, f: nat)
    requires f in p.free && f < p.Limit()
    ensures exists least :: p.Lowest(least)
    decreases f
  {
    if g :| g in p.free && g < f {
      LeastExists(p, g);
    } else {
      assert p.Lowest(f);
    }
  }

  /** The lowest free frame is unique. */
  lemma LowestUnique(p: Pool, f: nat)
    requires p.Lowest(f)
    ensures p.CanAlloc() && p.LowestFree() == f
  {
  }

  /** A result of 0 means failure exactly when frame 0 is not the lowest free frame. */
  lemma ZeroMeansFailure(p: Pool)
    requires p.Valid()
    ensures p.AllocAddress() == 0 ==> (p.AfterAlloc() == p <==> !(0 in p.free && p.total >= 8))
  {
    if 0 in p.free && p.total >= 8 {
      LowestUnique(p, 0);
    }
  }

  /** With frame 0 free, the first allocation hands it out under the address that means failure. */
  lemma ZeroHandedOut(p: Pool)
    requires p.Valid() && 0 in p.free && p.total >= 8
    ensures p.AllocAddress() == 0 && p.AfterAlloc() == Pool(p.total, p.free - {0}) && p.AfterAlloc() != p
  {
    LowestUnique(p, 0);
    assert 0 !in p.free - {0};
  }

  /** Allocating a frame and freeing it restores the pool. */
  lemma FreeUndoesAlloc(p: Pool)
    requires p.Valid() && p.CanAlloc()
    ensures p.AfterAlloc().AfterFree(p.AllocAddress()) == p
  {
    var f := p.LowestFree();
    assert f * 4096 / 4096 == f;
    assert p.free - {f} + {f} == p.free;
  }

  // ---------------------------------------------------------------------- runs

  datatype FrameOp = AllocOp | FreeOp(addr: nat) | MarkOp(addr: nat)

  /** The pool, the frames handed out and not freed since, and every frame handed out while
      still outstanding. */
  datatype Ledger = Ledger(pool: Pool, out: set<nat>, clashes: nat)

  ghost function LedgerStep(l: Ledger, op: FrameOp): Ledger {
    match op
    case AllocOp =>
      if l.pool.CanAlloc() then
        var f := l.pool.LowestFree();
        Ledger(l.pool.AfterAlloc(), l.out + {f}, l.clashes + if f in l.out then 1 else 0)
      else l
    case FreeOp(a) => Ledger(l.pool.AfterFree(a), l.out - {a / 4096}, l.clashes)
    case MarkOp(a) => Ledger(l.pool.AfterMark(a), l.out, l.clashes)
  }

  ghost function LedgerRun(l: Ledger, ops: seq<FrameOp>): Ledger
    decreases ops
  {
    if ops == [] then l else LedgerRun(LedgerStep(l, ops[0]), ops[1..])
  }

  /** In every run, no frame is handed out while it is outstanding. */
  lemma {:induction false} OutstandingDistinct(l: Ledger, ops: seq<FrameOp>)
    requires l.pool.Valid() && l.out !! l.pool.free && l.clashes == 0
    ensures var r := LedgerRun(l, ops);
      r.pool.Valid() && r.out !! r.pool.free && r.clashes == 0
    decreases ops
  {
    if ops != [] {
      OutstandingDistinct(LedgerStep(l, ops[0]), ops[1..]);
    }
  }

  /** A run that never frees below frame 256 never makes frame 0 free, so 0 always means failure. */
  lemma {:induction false} ZeroStaysReserved(l: Ledger, ops: seq<FrameOp>)
    requires 0 !in l.pool.free
    requires forall k | 0 <= k < |ops| && ops[k].FreeOp? :: ops[k].addr / 4096 >= 256
    ensures var p := LedgerRun(l, ops).pool;
      0 !in p.free && (p.AllocAddress() == 0 <==> !p.CanAlloc())
    decreases ops
  {
    if ops != [] {
      ZeroStaysReserved(LedgerStep(l, ops[0]), ops[1..]);
    }
  }
}
