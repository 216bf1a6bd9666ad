/** The memory-map arithmetic of `pmm_init`: which frames each map entry releases,
    and how far the used counter drifts when entries overlap. */
module MemoryMap {
  import opened Machine
  import opened Frames

  const MULTIBOOT_MEMORY_AVAILABLE: int := 1

  type u64 = x: int | 0 <= x < 0x1_0000_0000_0000_0000

  datatype Entry = Entry(addr: u64, len: u64, typ: u32)

  /** `(uint32_t)(addr + len)`. */
  function RegionEnd(e: Entry): u32 {
    Wrap(e.addr + e.len)
  }

  /** The number of frames below the highest region end, as far as 32 bits and the bitmap reach. */
  ghost predicate FrameTotal(es: seq<Entry>, total: nat) {
    && (forall e | e in es :: Min((e.addr + e.len) % 0x1_0000_0000 / 4096, 131072) <= total)
    && if es == [] then total == 0
       else exists e :: e in es && total == Min((e.addr + e.len) % 0x1_0000_0000 / 4096, 131072)
  }

  lemma TotalOfEnd(es: seq<Entry>, end: u32)
    requires forall e | e in es :: RegionEnd(e) <= end
    requires if es == [] then end == 0 else exists e :: e in es && RegionEnd(e) == end
    ensures FrameTotal(es, Min(end / 4096, 131072))
  {
    forall e | e in es ensures RegionEnd(e) == (e.addr + e.len) % 0x1_0000_0000 {
      WrapBelow(e.addr + e.len);
    }
  }

  function MemEnd(es: seq<Entry>): u32 {
    if es == [] then 0
    else
      var end, rest := RegionEnd(es[|es| - 1]), MemEnd(es[..|es| - 1]);
      if end > rest then end else rest
  }

  function FrameStart(e: Entry): u32 {
    Wrap(Wrap(e.addr) + 4095) / 4096
  }

  function FrameEnd(e: Entry): u32 {
    Wrap(Wrap(e.addr) + Wrap(e.len)) / 4096
  }

  /** The frames below `total` that the entry's clearing loop visits. */
  ghost function Region(e: Entry, total: nat): set<nat> {
    if e.typ == MULTIBOOT_MEMORY_AVAILABLE then Interval(FrameStart(e), Min(FrameEnd(e), total)) else {}
  }

  /** The frames any entry visits. */
  ghost function Released(es: seq<Entry>, total: nat): set<nat> {
    if es == [] then {} else Released(es[..|es| - 1], total) + Region(es[|es| - 1], total)
  }

  /** How often the clearing loops decrement the counter. */
  ghost function Decrements(es: seq<Entry>, total: nat): nat {
    if es == [] then 0 else Decrements(es[..|es| - 1], total) + |Region(es[|es| - 1], total)|
  }

  /** Decrements beyond the number of frames released. */
  ghost function Excess(es: seq<Entry>, total: nat): int {
    Decrements(es, total) - |Released(es, total)|
  }

  /** No frame is visited by two entries. */
  ghost predicate Disjoint(es: seq<Entry>, total: nat) {
    forall i, j | 0 <= i < j < |es| :: Region(es[i], total) !! Region(es[j], total)
  }

  lemma WrapStep(x: int, d: int)
    requires d == 1 || d == -1
    ensures Wrap(Wrap(x) + d) == Wrap(x + d)
  {
  }

  /** Released frames are the union of the regions. */
  lemma {:induction false} ReleasedIff(es: seq<Entry>, total: nat, f: nat)
    ensures f in Released(es, total) <==> exists i :: 0 <= i < |es| && f in Region(es[i], total)
  {
    if es != [] {
      var init := es[..|es| - 1];
      ReleasedIff(init, total, f);
      assert forall i | 0 <= i < |init| :: init[i] == es[i];
    }
  }

  /** The counter is exact, before 32-bit reduction, exactly for maps without overlap. */
  lemma {:induction false} ExcessZeroIff(es: seq<Entry>, total: nat)
    ensures Excess(es, total) >= 0
    ensures Excess(es, total) == 0 <==> Disjoint(es, total)
  {
    if es != [] {
      var n := |es| - 1;
      var init, last := es[..n], Region(es[n], total);
      var before := Released(init, total);
      ExcessZeroIff(init, total);
      assert |before + last| == |before| + |last| - |before * last|;
      assert Excess(es, total) == Excess(init, total) + |before * last|;
      OverlapIff(es, total);
    }
  }

  lemma OverlapIff(es: seq<Entry>, total: nat)
    requires es != []
    ensures var n := |es| - 1;
      Disjoint(es, total) <==> Disjoint(es[..n], total) && Released(es[..n], total) * Region(es[n], total) == {}
  {
    var n := |es| - 1;
    var init, last := es[..n], Region(es[n], total);
    assert forall i | 0 <= i < n :: init[i] == es[i];
    if Disjoint(init, total) && Released(init, total) * last == {} {
      forall i, j | 0 <= i < j < |es| ensures Region(es[i], total) !! Region(es[j], total) {
        if j == n {
          forall f | f in Region(es[i], total) ensures f !in last {
            ReleasedIff(init, total, f);
            assert f in Region(init[i], total) && f in Released(init, total);
            assert f in last ==> f in Released(init, total) * last;
          }
        } else {
          assert Region(init[i], total) !! Region(init[j], total);
        }
      }
    }
    if Disjoint(es, total) {
      forall f | f in Released(init, total) ensures f !in last {
        ReleasedIff(init, total, f);
        var i :| 0 <= i < |init| && f in Region(init[i], total);
        assert Region(es[i], total) !! Region(es[n], total);
      }
    }
  }

  lemma {:induction false} DecrementsBound(es: seq<Entry>, total: nat)
    requires total <= MAX_FRAMES
    ensures Decrements(es, total) <= 131072 * |es|
  {
    if es != [] {
      DecrementsBound(es[..|es| - 1], total);
      RegionSize(es[|es| - 1], total);
    }
  }

  lemma RegionSize(e: Entry, total: nat)
    ensures |Region(e, total)| <= total
  {
    IntervalSize(FrameStart(e), Min(FrameEnd(e), total));
  }

  lemma WrapExactIff(x: nat, excess: nat)
    requires x <= 131072
    ensures Wrap(x - excess) == x <==> excess % 0x1_0000_0000 == 0
  {
  }

  /** The 32-bit counter is exact if and only if the surplus decrements are a multiple of 2^32. With
      fewer than 32767 entries that means that no two available entries cover a common frame. */
  lemma CounterExactIff(es: seq<Entry>, total: nat)
    requires total <= MAX_FRAMES
    ensures var free := Released(es, total) - Interval(0, 256);
      Wrap(total - |free| - Excess(es, total)) == total - |free| <==> Excess(es, total) % 0x1_0000_0000 == 0
    ensures |es| < 32767 ==> (Excess(es, total) % 0x1_0000_0000 == 0 <==> Disjoint(es, total))
  {
    hide Wrap, Released, Disjoint;
    var free := Released(es, total) - Interval(0, 256);
    ExcessZeroIff(es, total);
    DecrementsBound(es, total);
    FreeBound(es, total);
    WrapExactIff(total - |free|, Excess(es, total));
  }

  /** Two equal entries of two frames each count both frames twice. */
  lemma OverlapMiscounts()
    ensures var e := Entry(0x10_0000, 0x2000, MULTIBOOT_MEMORY_AVAILABLE);
      !Disjoint([e, e], MAX_FRAMES) && Excess([e, e], MAX_FRAMES) % 0x1_0000_0000 != 0
  {
    var e := Entry(0x10_0000, 0x2000, MULTIBOOT_MEMORY_AVAILABLE);
    var es := [e, e];
    assert 256 in Region(es[0], MAX_FRAMES) && 256 in Region(es[1], MAX_FRAMES);
    CounterExactIff(es, MAX_FRAMES);
  }

  lemma ReleasedNone(total: nat)
    ensures Released([], total) == {} && Decrements([], total) == 0
  {
  }

  lemma ReleasedStep(es: seq<Entry>, e: Entry, total: nat)
    ensures Released(es + [e], total) == Released(es, total) + Region(e, total)
    ensures Decrements(es + [e], total) == Decrements(es, total) + |Region(e, total)|
  {
    assert (es + [e])[..|es|] == es;
  }

  lemma FreeBound(es: seq<Entry>, total: nat)
    ensures |Released(es, total) - Interval(0, 256)| <= total
  {
    var free := Released(es, total) - Interval(0, 256);
    forall f | f in free ensures f in Interval(0, total) {
      ReleasedIff(es, total, f);
    }
    IntervalSize(0, total);
    SubsetSize(free, Interval(0, total));
  }

  lemma {:induction false} SubsetSize(a: set<nat>, b: set<nat>)
    requires a <= b
    ensures |a| <= |b|
  {
    if a != {} {
      var x :| x in a;
      SubsetSize(a - {x}, b - {x});
    }
  }

  /** The whole 4 KiB frame `f` lies inside the region. */
  predicate WholeFrame(e: Entry, f: nat) {
    e.addr <= f * 4096 && f * 4096 + 4096 <= e.addr + e.len
  }

  /** The whole frames of an available region below `total`. */
  ghost function Whole(e: Entry, total: nat): set<nat> {
    set f | 0 <= f < total && e.typ == MULTIBOOT_MEMORY_AVAILABLE && WholeFrame(e, f)
  }

  /** What the 32-bit arithmetic needs of a region that starts where rounding up does not wrap: it ends
      below 4 GiB, or what is left of its end still lies above all frames, or it starts above them. A
      region that starts later has no frame below `total`; its truncated bounds must not enclose one. */
  predicate Fits32(e: Entry, total: nat) {
    if e.addr <= 0xFFFF_F000 then
      e.addr + e.len < U32_LIMIT || (e.addr + e.len) % U32_LIMIT >= total * 4096 || e.addr + 4096 > total * 4096
    else
      Wrap(e.addr + 4095) / 4096 >= Min(Wrap(e.addr + e.len) / 4096, total)
  }

  /** Over every 64-bit region: the clearing loop visits exactly its whole frames if and only if its
      bounds survive the truncation to 32 bits. */
  lemma WholeFramesIff(e: Entry, total: nat)
    requires total <= MAX_FRAMES && e.typ == MULTIBOOT_MEMORY_AVAILABLE
    ensures Region(e, total) == Whole(e, total) <==> Fits32(e, total)
  {
    hide Interval, Wrap;
    var start, end: nat := (e.addr + 4095) / 4096, (e.addr + e.len) / 4096;
    Truncated(e);
    WholeInterval(e, total);
    IntervalsEqual(FrameStart(e), Min(FrameEnd(e), total), start, Min(end, total));
    WrapBelow(e.addr + 4095);
    WrapBelow(e.addr + e.len);
  }

  lemma WrapBelow(x: nat)
    ensures Wrap(x) == x % 0x1_0000_0000
    ensures x < 0x1_0000_0000 ==> Wrap(x) == x
  {
  }

  /** Truncating early or late is the same. */
  lemma Truncated(e: Entry)
    ensures FrameStart(e) == Wrap(e.addr + 4095) / 4096 && FrameEnd(e) == Wrap(e.addr + e.len) / 4096
  {
    hide Wrap;
    WrapSum(e.addr, 4095);
    WrapSum(e.addr, Wrap(e.len));
    WrapSum(e.len, e.addr);
  }

  lemma WrapSum(x: nat, y: nat)
    ensures Wrap(Wrap(x) + y) == Wrap(x + y)
  {
    hide Wrap;
    WrapBelow(x);
    WrapBelow(Wrap(x) + y);
    WrapBelow(x + y);
    WholeTurns(Wrap(x) + y, x / 0x1_0000_0000);
  }

  lemma WholeTurns(z: int, q: int)
    ensures (z + q * 0x1_0000_0000) % 0x1_0000_0000 == z % 0x1_0000_0000
  {
  }

  lemma WholeInterval(e: Entry, total: nat)
    requires e.typ == MULTIBOOT_MEMORY_AVAILABLE
    ensures Whole(e, total) == Interval((e.addr + 4095) / 4096, Min((e.addr + e.len) / 4096, total))
  {
  }

  lemma IntervalsEqual(a: nat, b: nat, c: nat, d: nat)
    ensures Interval(a, b) == Interval(c, d) <==> (a >= b && c >= d) || (a == c && b == d)
  {
    var s, t := Interval(a, b), Interval(c, d);
    assert (a in s <==> a < b) && (a in t <==> c <= a < d);
    assert (c in t <==> c < d) && (c in s <==> a <= c < b);
    assert b !in s && (b in t <==> c <= b < d);
    assert d !in t && (d in s <==> a <= d < b);
  }

  /** Frame `f` lies wholly inside some available region. */
  ghost predicate Usable(es: seq<Entry>, f: nat) {
    exists i :: 0 <= i < |es| && es[i].typ == MULTIBOOT_MEMORY_AVAILABLE && WholeFrame(es[i], f)
  }

  /** Where a region does not survive the truncation, others make up for it: what it releases outside its
      whole frames is usable all the same, and what it fails to release is released by another. */
  ghost predicate MadeUp(es: seq<Entry>, total: nat) {
    forall e, f: nat | e in es && e.typ == MULTIBOOT_MEMORY_AVAILABLE && !Fits32(e, total) && 256 <= f < total ::
      (f in Region(e, total) ==> Usable(es, f)) && (WholeFrame(e, f) ==> f in Released(es, total))
  }

  /** The frames left free above the first megabyte are exactly the whole frames of the available regions. */
  ghost predicate FreeExact(es: seq<Entry>, total: nat, free: set<nat>) {
    forall f: nat :: f in free <==> 256 <= f < total && Usable(es, f)
  }

  /** Over every map: the free set is exact if and only if the regions that do not survive the truncation
      are made up for. */
  lemma FreeIsUsableIff(es: seq<Entry>, total: nat)
    requires total <= MAX_FRAMES
    ensures FreeExact(es, total, Released(es, total) - Interval(0, 256)) <==> MadeUp(es, total)
  {
    hide Released, Fits32, Usable, Region, WholeFrame;
    var free := Released(es, total) - Interval(0, 256);
    if FreeExact(es, total, free) {
      forall e, f: nat | e in es && e.typ == MULTIBOOT_MEMORY_AVAILABLE && !Fits32(e, total) && 256 <= f < total
        ensures (f in Region(e, total) ==> Usable(es, f)) && (WholeFrame(e, f) ==> f in Released(es, total))
      {
        assert f in free <==> Usable(es, f);
        OneRegion(es, total, e, f);
      }
    }
    if MadeUp(es, total) {
      forall f: nat ensures f in free <==> 256 <= f < total && Usable(es, f) {
        MadeUpFrame(es, total, f);
      }
    }
  }

  lemma OneRegion(es: seq<Entry>, total: nat, e: Entry, f: nat)
    requires e in es && e.typ == MULTIBOOT_MEMORY_AVAILABLE
    ensures f in Region(e, total) ==> f in Released(es, total)
    ensures WholeFrame(e, f) ==> Usable(es, f)
  {
    hide Released, Region, WholeFrame;
    var i :| 0 <= i < |es| && es[i] == e;
    ReleasedIff(es, total, f);
  }

  lemma MadeUpFrame(es: seq<Entry>, total: nat, f: nat)
    requires total <= MAX_FRAMES && MadeUp(es, total)
    ensures f in Released(es, total) - Interval(0, 256) <==> 256 <= f < total && Usable(es, f)
  {
    hide Released, Fits32, FrameStart, FrameEnd;
    ReleasedIff(es, total, f);
    forall i | 0 <= i < |es| && es[i].typ == MULTIBOOT_MEMORY_AVAILABLE && 256 <= f < total
      ensures f in Region(es[i], total) ==> Usable(es, f)
      ensures WholeFrame(es[i], f) ==> f in Released(es, total)
    {
      assert es[i] in es;
      if Fits32(es[i], total) {
        WholeFramesIff(es[i], total);
        assert f in Whole(es[i], total) <==> WholeFrame(es[i], f);
        assert f in Region(es[i], total) ==> f in Released(es, total);
      }
    }
  }

  predicate AllFit(es: seq<Entry>, total: nat) {
    forall e | e in es && e.typ == MULTIBOOT_MEMORY_AVAILABLE :: Fits32(e, total)
  }

  /** If every available region survives the truncation, the frames left free above the first megabyte
      are exactly the whole frames of the available regions. */
  lemma FreeIsUsable(es: seq<Entry>, total: nat, f: nat)
    requires total <= MAX_FRAMES && AllFit(es, total)
    ensures f in Released(es, total) - Interval(0, 256) <==> 256 <= f < total && Usable(es, f)
  {
    hide Released, Fits32, Usable, Region;
    MadeUpFrame(es, total, f);
  }

  /** A region above 4 GiB is truncated onto low memory: its first gigabyte releases frame 256. */
  lemma HighRegionReleasesLowFrames()
    ensures var high := Entry(U32_LIMIT, 0x4000_0000, MULTIBOOT_MEMORY_AVAILABLE);
      !WholeFrame(high, 256) && 256 in Region(high, MAX_FRAMES)
  {
  }

  /** A region that ends exactly at 4 GiB releases nothing. */
  lemma FullRegionReleasesNothing()
    ensures var full := Entry(0x10_0000, 0xFFF0_0000, MULTIBOOT_MEMORY_AVAILABLE);
      WholeFrame(full, 256) && Region(full, MAX_FRAMES) == {} && RegionEnd(full) == 0
  {
  }
}
