/** Two-level page tables of kernel/memory/vmm.c as a state machine over physical
    frames, directories and tables, and the flat page map they refine. */
module Paging {
  import opened Machine
  import opened Frames

  const PAGE_PRESENT: u32 := 1
  const PAGE_WRITABLE: u32 := 2
  const SLOTS: int := 1024
  /** Number of virtual pages: 2^20. */
  const PAGES: int := 0x10_0000

  // ------------------------------------------------------------- entry words

  predicate Present(e: u32) { And(e, PAGE_PRESENT) != 0 }

  /** `e & 0xFFFFF000`. */
  function BaseOf(e: u32): u32 { AndNot(e, 0xFFF) }

  /** The directory word `get_or_create_table` stores. */
  function DirEntry(table: nat, flags: nat): nat {
    Or(Or(Or(table, flags), PAGE_PRESENT), PAGE_WRITABLE)
  }

  /** The table word `vmm_map_page` stores. */
  function PageEntry(phys: u32, flags: u32): nat {
    Or(Or(BaseOf(phys), And(flags, 0xFFF)), PAGE_PRESENT)
  }

  lemma PresentIsOdd(e: u32)
    ensures Present(e) <==> e % 2 == 1
  {
    assert And(e, 1) == e % 2 by {
      AndOddMask(e, 1);
      AndZero(e / 2);
    }
  }

  lemma AndTwo(x: nat)
    ensures And(x, 2) == if x / 2 % 2 == 1 then 2 else 0
  {
    if x > 0 {
      assert And(x, 2) == 2 * And(x / 2, 1);
      AndOddMask(x / 2, 1);
      AndZero(x / 4);
    }
  }

  /** Or with 1 or 2 stays inside the same page-sized block. */
  lemma OrSmall(x: nat)
    ensures Or(x, 1) == x + 1 - x % 2
    ensures Or(x, 2) == x + (if x / 2 % 2 == 1 then 0 else 2)
  {
    AndOddMask(x, 1);
    AndZero(x / 2);
    AndTwo(x);
  }

  lemma BaseOfLaw(e: u32)
    ensures BaseOf(e) == e - e % 0x1000 && BaseOf(e) % 0x1000 == 0
  {
    ClearLowBits(e);
  }

  /** A page-aligned base and page-offset bits combine without overlap. */
  lemma OrOffset(base: nat, low: nat)
    requires base % 0x1000 == 0 && low < 0x1000
    ensures Or(base, low) == base + low
  {
    assert Pow2(6) == 64 && Pow2(12) == 0x1000;
    AndDisjoint(base / 0x1000, low, 12);
  }

  /** The base and the parity of an address written as base plus offset. */
  lemma BaseSplit(base: u32, low: nat)
    requires base % 0x1000 == 0 && low < 0x1000
    ensures base + low < U32_LIMIT && BaseOf(base + low) == base
    ensures (base + low) % 0x1000 == low && (base + low) % 2 == low % 2
  {
    hide BaseOf;
    var q := base / 0x1000;
    assert base == 0x1000 * q && base + low < U32_LIMIT;
    assert (0x1000 * q + low) % 0x1000 == low;
    assert (0x1000 * q + low) % 2 == low % 2;
    BaseOfLaw(base + low);
  }

  /** A directory word names its table and is present. */
  lemma DirEntryLaw(table: u32, flags: u32)
    requires table % 0x1000 == 0 && flags < 0x1000
    ensures DirEntry(table, flags) < U32_LIMIT
    ensures Present(DirEntry(table, flags)) && BaseOf(DirEntry(table, flags)) == table
    ensures And(DirEntry(table, flags), 1) == 1 && And(DirEntry(table, flags), 2) == 2
    ensures And(DirEntry(table, flags), flags) == flags
    ensures DirEntry(table, flags) % 0x1000 <= flags + 3
  {
    hide Or, BaseOf, Present, And;
    OrOffset(table, flags);
    DirEntryLow(table, flags);
    var low := Or(Or(flags, 1), 2);
    OrChain(table, flags);
    BaseSplit(table, low);
    PresentIsOdd(table + low);
  }

  lemma OrChain(table: nat, flags: nat)
    ensures var e := DirEntry(table, flags);
      And(e, 1) == 1 && And(e, 2) == 2 && And(e, flags) == flags && And(e, table) == table
  {
    hide Or, And;
    var a := Or(table, flags);
    var b := Or(a, 1);
    OrKeeps(table, flags);
    OrKeeps(a, 1);
    OrKeeps(b, 2);
    AndThrough(Or(b, 2), b, 1);
    AndThrough(b, a, flags);
    AndThrough(Or(b, 2), b, flags);
    AndThrough(b, a, table);
    AndThrough(Or(b, 2), b, table);
  }

  ghost predicate NamesTable(table: u32, flags: u32) {
    DirEntry(table, flags) < U32_LIMIT && BaseOf(DirEntry(table, flags)) == table
  }

  /** A page-aligned address of a frame that can be handed out for a table. */
  predicate TableAddress(table: u32) {
    table % 0x1000 == 0 && 0 < table / 0x1000 < MAX_FRAMES
  }

  /** The flags go into the directory word unmasked: it names its table, whichever frame that was given,
      if and only if they fit the low 12 bits. */
  lemma DirEntryIff(flags: u32)
    ensures (forall table | TableAddress(table) :: NamesTable(table, flags)) <==> flags < 0x1000
  {
    hide Or, BaseOf, NamesTable;
    if flags < 0x1000 {
      forall table | TableAddress(table) ensures NamesTable(table, flags) {
        DirEntryLaw(table, flags);
        SeenBase(table, flags);
      }
    } else if flags < 0x2000 {
      assert TableAddress(0x2000);
      OrNextBit(0x2000, 1, flags);
      Misnamed(0x2000, flags);
    } else {
      assert TableAddress(0x1000);
      Misnamed(0x1000, flags);
    }
  }

  lemma SeenBase(table: u32, flags: u32)
    requires DirEntry(table, flags) < U32_LIMIT && BaseOf(DirEntry(table, flags)) == table
    ensures NamesTable(table, flags)
  {
  }

  /** Bit 12 joins a base that does not have it. */
  lemma OrNextBit(base: nat, h: nat, low: nat)
    requires base == h * 0x2000 && low < 0x2000
    ensures Or(base, low) == base + low
  {
    assert Pow2(6) == 64 && Pow2(12) == 0x1000 && Pow2(13) == 0x2000;
    AndDisjoint(h, low, 13);
  }

  /** A word at least a page above its table names another one. */
  lemma Misnamed(table: u32, flags: u32)
    requires Or(table, flags) >= table + 0x1000
    ensures !NamesTable(table, flags)
  {
    hide Or, BaseOf;
    if DirEntry(table, flags) < U32_LIMIT {
      BaseOfLaw(DirEntry(table, flags));
    }
  }

  /** Flag bit 12 at the first frame above 1 MB: the word names the frame behind. */
  lemma WideFlagsMisname()
    ensures var table: u32, flags: u32 := 0x10_0000, 0x1000;
      TableAddress(table) && !NamesTable(table, flags) && DirEntry(table, flags) == 0x10_1003
  {
    hide Or, And, BaseOf, NamesTable;
    OrNextBit(0x10_0000, 128, 0x1000);
    OrSmall(0x10_1000);
    OrSmall(0x10_1001);
    Misnamed(0x10_0000, 0x1000);
  }

  lemma DirEntryLow(table: u32, flags: u32)
    requires table % 0x1000 == 0 && flags < 0x1000
    ensures Or(Or(table + flags, 1), 2) == table + Or(Or(flags, 1), 2)
    ensures Or(Or(flags, 1), 2) < 0x1000 && Or(Or(flags, 1), 2) % 2 == 1
  {
    hide Or;
    var k := table / 0x1000;
    assert table == 4 * (0x400 * k);
    LowBit(0x400 * k, flags);
    SecondBit(0x400 * k, Or(flags, 1));
  }

  lemma LowBit(k: nat, x: nat)
    requires x < 0x1000
    ensures Or(4 * k + x, 1) == 4 * k + Or(x, 1)
    ensures Or(x, 1) < 0x1000 && Or(x, 1) % 2 == 1
  {
    hide Or;
    SameLowBits(k, x);
    OrSmall(x);
    OrSmall(4 * k + x);
  }

  lemma SecondBit(k: nat, x: nat)
    requires x < 0x1000
    ensures Or(4 * k + x, 2) == 4 * k + Or(x, 2)
    ensures Or(x, 2) < 0x1000 && Or(x, 2) % 2 == x % 2
  {
    hide Or;
    SameLowBits(k, x);
    OrSmall(x);
    OrSmall(4 * k + x);
    RoomForTwo(x);
  }

  lemma RoomForTwo(x: nat)
    ensures (x + 2) % 2 == x % 2
    ensures x < 0x1000 && x / 2 % 2 != 1 ==> x + 2 < 0x1000
  {
    var m, r := x / 4, x % 4;
    assert x == 4 * m + r && x / 2 == 2 * m + r / 2;
    assert r >= 2 ==> x / 2 % 2 == 1;
  }

  lemma SameLowBits(k: nat, x: nat)
    ensures (4 * k + x) % 2 == x % 2 && (4 * k + x) / 2 % 2 == x / 2 % 2
  {
    assert (4 * k + x) / 2 == 2 * k + x / 2;
  }

  lemma LowFlags(flags: u32)
    ensures And(flags, 0xFFF) == flags % 0x1000
  {
    assert Pow2(6) == 64 && Pow2(12) == 0x1000;
    AndLowMask(flags, 12);
  }

  lemma PageEntryValue(phys: u32, flags: u32)
    ensures PageEntry(phys, flags) == BaseOf(phys) + Or(flags % 0x1000, 1)
    ensures Or(flags % 0x1000, 1) < 0x1000 && Or(flags % 0x1000, 1) % 2 == 1
  {
    hide Or, BaseOf, And;
    LowFlags(flags);
    var low := flags % 0x1000;
    BaseOfLaw(phys);
    OrOffset(BaseOf(phys), low);
    var k := BaseOf(phys) / 0x1000;
    assert BaseOf(phys) == 4 * (0x400 * k);
    LowBit(0x400 * k, low);
  }

  /** A table word names the page frame, is present and keeps the low flag bits. */
  lemma PageEntryLaw(phys: u32, flags: u32)
    ensures PageEntry(phys, flags) < U32_LIMIT
    ensures Present(PageEntry(phys, flags)) && BaseOf(PageEntry(phys, flags)) == BaseOf(phys)
    ensures PageEntry(phys, flags) % 0x1000 == Or(flags % 0x1000, PAGE_PRESENT)
  {
    hide Or, BaseOf, Present, PageEntry;
    PageEntryValue(phys, flags);
    BaseOfLaw(phys);
    BaseSplit(BaseOf(phys), Or(flags % 0x1000, 1));
    PresentIsOdd(PageEntry(phys, flags));
  }

  // ------------------------------------------------------------------- state

  datatype Directory = Directory(entries: seq<u32>, tablesPhysical: seq<u32>)

  /** Free frames, directories and tables by physical address, and `kernel_directory`. */
  datatype State = State(pool: Pool, dirs: map<u32, Directory>, tables: map<u32, seq<u32>>, kernel: u32)

  /** A frame address owned by a directory or table: aligned, nonzero, allocated. */
  ghost predicate Owned(p: Pool, a: u32) {
    a > 0 && a % 0x1000 == 0 && a / 0x1000 < p.total && a / 0x1000 !in p.free
  }

  ghost predicate Shaped(s: State) {
    && s.pool.Valid() && 0 !in s.pool.free
    && s.kernel in s.dirs
    && s.dirs.Keys !! s.tables.Keys
    && (forall d | d in s.dirs ::
          Owned(s.pool, d) && |s.dirs[d].entries| == SLOTS && |s.dirs[d].tablesPhysical| == SLOTS)
    && (forall t | t in s.tables :: Owned(s.pool, t) && |s.tables[t]| == SLOTS)
  }

  /** Does slot `i` of directory `d` name table `t`? */
  ghost predicate Names(s: State, d: u32, i: nat, t: u32)
    requires Shaped(s)
  {
    d in s.dirs && i < SLOTS && Present(s.dirs[d].entries[i]) && BaseOf(s.dirs[d].entries[i]) == t
  }

  /** Slot `i` of `d` is the kernel directory's own word for that slot. */
  ghost predicate Inherited(s: State, d: u32, i: nat)
    requires Shaped(s) && d in s.dirs && i < SLOTS
  {
    Present(s.dirs[s.kernel].entries[i]) && s.dirs[d].entries[i] == s.dirs[s.kernel].entries[i]
  }

  /** Every named table exists, and a table has one slot and one directory unless it is the
      kernel's and inherited by all who name it. */
  ghost predicate Inv(s: State) {
    && Shaped(s)
    && (forall d, i, t | Names(s, d, i, t) :: t in s.tables)
    && (forall d, i, d', i', t | Names(s, d, i, t) && Names(s, d', i', t) ::
          i == i' && (d == d' || (Inherited(s, d, i) && Inherited(s, d', i))))
  }

  /** What the invariant says of one slot. */
  lemma SlotFacts(s: State, d: u32, i: nat)
    requires Inv(s) && d in s.dirs && i < SLOTS
    ensures Shaped(s) && s.kernel in s.dirs && |s.dirs[s.kernel].entries| == SLOTS
    ensures |s.dirs[d].entries| == SLOTS && |s.dirs[d].tablesPhysical| == SLOTS
    ensures d > 0 && d / 0x1000 < s.pool.total
    ensures var e := s.dirs[d].entries[i]; Present(e) ==>
      BaseOf(e) in s.tables && BaseOf(e) > 0 && BaseOf(e) / 0x1000 < s.pool.total && |s.tables[BaseOf(e)]| == SLOTS
  {
    hide Present, BaseOf;
    if Present(s.dirs[d].entries[i]) {
      assert Names(s, d, i, BaseOf(s.dirs[d].entries[i]));
    }
  }

  // ------------------------------------------------------------ the flat map

  /** The table word that a walk of directory `d` finds for virtual page `page`. */
  ghost function Walk(s: State, d: u32, page: nat): Option<u32>
    requires Inv(s) && d in s.dirs && page < PAGES
  {
    var e := s.dirs[d].entries[page / 1024];
    if !Present(e) then None
    else
      assert Names(s, d, page / 1024, BaseOf(e));
      var w := s.tables[BaseOf(e)][page % 1024];
      if Present(w) then Some(w) else None
  }

  /** Does walking slot `i` of `d'` go through the table that slot `i` of `d` names? */
  ghost predicate SameTable(s: State, d: u32, d': u32, i: nat)
    requires Shaped(s) && d in s.dirs && d' in s.dirs && i < SLOTS
  {
    && Present(s.dirs[d].entries[i]) && Present(s.dirs[d'].entries[i])
    && BaseOf(s.dirs[d].entries[i]) == BaseOf(s.dirs[d'].entries[i])
  }

  // ------------------------------------------------------------------- steps

  /** A table after `memset` to zero. */
  function EmptyTable(): (t: seq<u32>)
    ensures |t| == SLOTS && forall k | 0 <= k < SLOTS :: t[k] == 0
  {
    seq(SLOTS, _ => 0)
  }

  function DirWord(table: u32, flags: u32): (e: u32)
    requires table % 0x1000 == 0 && flags < 0x1000
    ensures Present(e) && BaseOf(e) == table && And(e, 2) == 2 && And(e, flags) == flags
  {
    DirEntryLaw(table, flags);
    DirEntry(table, flags)
  }

  function PageWord(phys: u32, flags: u32): (w: u32)
    ensures Present(w) && BaseOf(w) == BaseOf(phys) && w % 0x1000 == Or(flags % 0x1000, PAGE_PRESENT)
  {
    PageEntryLaw(phys, flags);
    PageEntry(phys, flags)
  }

  function SetSlot(dir: Directory, i: nat, table: u32, e: u32): Directory
    requires i < |dir.entries| && i < |dir.tablesPhysical|
  {
    Directory(dir.entries[i := e], dir.tablesPhysical[i := table])
  }

  /** A new directory word takes the flags unmasked; where none is stored they do not matter. */
  ghost predicate FlagsFit(s: State, d: u32, i: nat, flags: u32) {
    || flags < 0x1000
    || (d in s.dirs && i < |s.dirs[d].entries| && Present(s.dirs[d].entries[i]))
    || !s.pool.CanAlloc()
  }

  /** `get_or_create_table`: the state after, given that the slot is empty. */
  ghost function AddTable(s: State, d: u32, i: nat, flags: u32): State
    requires Shaped(s) && d in s.dirs && i < SLOTS && (s.pool.CanAlloc() ==> flags < 0x1000)
  {
    var t := s.pool.AllocAddress();
    if t == 0 then s.(pool := s.pool.AfterAlloc())
    else
      AllocLaw(s);
      State(s.pool.AfterAlloc(), s.dirs[d := SetSlot(s.dirs[d], i, t, DirWord(t, flags))],
            s.tables[t := EmptyTable()], s.kernel)
  }

  /** What allocation gives in a well-shaped state: a frame nobody owns, or no change. */
  lemma AllocLaw(s: State)
    requires Shaped(s)
    ensures var a := s.pool.AllocAddress();
      && a < U32_LIMIT && a % 0x1000 == 0
      && (a == 0 <==> !s.pool.CanAlloc())
      && (a == 0 ==> s.pool.AfterAlloc() == s.pool)
      && (a != 0 ==>
            && a !in s.dirs && a !in s.tables && a / 0x1000 in s.pool.free && a / 0x1000 < s.pool.total
            && s.pool.AfterAlloc() == Pool(s.pool.total, s.pool.free - {a / 0x1000}))
  {
    if s.pool.CanAlloc() {
      var f := s.pool.LowestFree();
      assert f * 4096 / 0x1000 == f && f * 4096 % 0x1000 == 0;
    }
  }

  function SetWord(table: seq<u32>, k: nat, w: u32): seq<u32>
    requires k < |table|
  {
    table[k := w]
  }

  /** `get_or_create_table`. */
  ghost function EnsureTable(s: State, d: u32, i: nat, flags: u32): (r: State)
    requires Inv(s) && d in s.dirs && i < SLOTS && FlagsFit(s, d, i, flags)
    ensures Inv(r) && d in r.dirs
  {
    AddTableInv(s, d, i, flags);
    if Present(s.dirs[d].entries[i]) then s else AddTable(s, d, i, flags)
  }

  /** Store word `w` for `page` in the table that directory `d` names, if it names one. */
  ghost function StoreWord(s: State, d: u32, page: nat, w: u32): State
    requires Inv(s) && d in s.dirs && page < PAGES
  {
    var e := s.dirs[d].entries[page / 1024];
    if !Present(e) then s
    else
      assert Names(s, d, page / 1024, BaseOf(e));
      s.(tables := s.tables[BaseOf(e) := SetWord(s.tables[BaseOf(e)], page % 1024, w)])
  }

  /** `vmm_map_page`. */
  ghost function MapPage(s: State, d: u32, page: nat, phys: u32, flags: u32): State
    requires Inv(s) && d in s.dirs && page < PAGES && FlagsFit(s, d, page / 1024, flags)
  {
    StoreWord(EnsureTable(s, d, page / 1024, flags), d, page, PageWord(phys, flags))
  }

  /** `vmm_unmap_page`. */
  ghost function UnmapPage(s: State, d: u32, page: nat): State
    requires Inv(s) && d in s.dirs && page < PAGES
  {
    StoreWord(s, d, page, 0)
  }

  lemma AddTableNames(s: State, d: u32, i: nat, flags: u32, d1: u32, i1: nat, t1: u32)
    requires Inv(s) && d in s.dirs && i < SLOTS && flags < 0x1000 && !Present(s.dirs[d].entries[i])
    requires s.pool.AllocAddress() != 0
    ensures Shaped(AddTable(s, d, i, flags))
    ensures Names(AddTable(s, d, i, flags), d1, i1, t1) <==>
      Names(s, d1, i1, t1) || (d1 == d && i1 == i && t1 == s.pool.AllocAddress())
  {
    AllocLaw(s);
    var t := s.pool.AllocAddress();
    var r := AddTable(s, d, i, flags);
    assert r.dirs[d].entries[i] == DirWord(t, flags);
    if d1 in s.dirs && i1 < SLOTS && !(d1 == d && i1 == i) {
      assert r.dirs[d1].entries[i1] == s.dirs[d1].entries[i1];
    }
  }

  lemma AddTablePair(s: State, d: u32, i: nat, flags: u32, d1: u32, i1: nat, d2: u32, i2: nat, t1: u32)
    requires Inv(s) && d in s.dirs && i < SLOTS && flags < 0x1000 && !Present(s.dirs[d].entries[i])
    requires s.pool.AllocAddress() != 0 && Shaped(AddTable(s, d, i, flags))
    requires Names(AddTable(s, d, i, flags), d1, i1, t1) && Names(AddTable(s, d, i, flags), d2, i2, t1)
    ensures var r := AddTable(s, d, i, flags);
      t1 in r.tables && i1 == i2 && (d1 == d2 || (Inherited(r, d1, i1) && Inherited(r, d2, i1)))
  {
    hide Present, BaseOf;
    AllocLaw(s);
    AddTableNames(s, d, i, flags, d1, i1, t1);
    AddTableNames(s, d, i, flags, d2, i2, t1);
    if Names(s, d1, i1, t1) && Names(s, d2, i2, t1) && d1 != d2 {
      assert Inherited(s, d1, i1) && Inherited(s, d2, i1);
    }
  }

  /** Adding a table to an empty slot keeps the invariant. */
  lemma AddTableInv(s: State, d: u32, i: nat, flags: u32)
    requires Inv(s) && d in s.dirs && i < SLOTS && FlagsFit(s, d, i, flags)
    ensures !Present(s.dirs[d].entries[i]) ==> Inv(AddTable(s, d, i, flags))
  {
    hide Present, BaseOf, Inherited;
    AllocLaw(s);
    if s.pool.AllocAddress() != 0 && !Present(s.dirs[d].entries[i]) {
      AddTableNames(s, d, i, flags, d, i, 0);
      var r := AddTable(s, d, i, flags);
      forall d1, i1, d2, i2, t1 | Names(r, d1, i1, t1) && Names(r, d2, i2, t1)
        ensures t1 in r.tables && i1 == i2 && (d1 == d2 || (Inherited(r, d1, i1) && Inherited(r, d2, i1)))
      {
        AddTablePair(s, d, i, flags, d1, i1, d2, i2, t1);
      }
    }
  }

  /** Two words of one table: storing into a table never disturbs who names what. */
  lemma StoreWordInv(s: State, d: u32, page: nat, w: u32)
    requires Inv(s) && d in s.dirs && page < PAGES
    ensures var r := StoreWord(s, d, page, w);
      && Inv(r) && r.dirs == s.dirs && r.pool == s.pool && r.kernel == s.kernel
      && r.tables.Keys == s.tables.Keys
  {
    hide Present, BaseOf;
    var e := s.dirs[d].entries[page / 1024];
    if Present(e) {
      assert Names(s, d, page / 1024, BaseOf(e));
      var r := StoreWord(s, d, page, w);
      assert r.tables.Keys == s.tables.Keys;
      assert Shaped(r);
      forall d1, i1, t1 ensures Names(r, d1, i1, t1) <==> Names(s, d1, i1, t1) {}
      forall d1, i1: nat | d1 in s.dirs && i1 < SLOTS ensures Inherited(r, d1, i1) <==> Inherited(s, d1, i1) {}
    }
  }

  /** Making room for a table changes no walk. */
  lemma EnsureTableWalk(s: State, d: u32, i: nat, flags: u32, d': u32, page': nat)
    requires Inv(s) && d in s.dirs && i < SLOTS && FlagsFit(s, d, i, flags) && d' in s.dirs && page' < PAGES
    ensures var r := EnsureTable(s, d, i, flags);
      && r.dirs.Keys == s.dirs.Keys && r.kernel == s.kernel
      && Walk(r, d', page') == Walk(s, d', page')
      && (Present(r.dirs[d].entries[i]) <==> Present(s.dirs[d].entries[i]) || s.pool.CanAlloc())
      && (!Present(r.dirs[d].entries[i]) ==> r == s)
      && (SameTable(r, d, d', i) <==> SameTable(s, d, d', i) || (d == d' && s.pool.CanAlloc()))
  {
    hide BaseOf, And;
    AllocLaw(s);
    var r := EnsureTable(s, d, i, flags);
    if r != s {
      assert r.dirs.Keys == s.dirs.Keys;
      var e' := s.dirs[d'].entries[page' / 1024];
      if Present(e') {
        assert Names(s, d', page' / 1024, BaseOf(e'));
      }
      if Present(s.dirs[d'].entries[i]) {
        assert Names(s, d', i, BaseOf(s.dirs[d'].entries[i]));
      }
    }
  }

  /** Storing a word changes the walk of that page in exactly the directories that share the table. */
  lemma StoreWordWalk(s: State, d: u32, page: nat, w: u32, d': u32, page': nat)
    requires Inv(s) && d in s.dirs && page < PAGES && d' in s.dirs && page' < PAGES
    ensures Inv(StoreWord(s, d, page, w)) && d' in StoreWord(s, d, page, w).dirs
    ensures Walk(StoreWord(s, d, page, w), d', page') ==
      if page' == page && SameTable(s, d, d', page / 1024) then (if Present(w) then Some(w) else None)
      else Walk(s, d', page')
  {
    hide BaseOf, And;
    StoreWordInv(s, d, page, w);
    var e, e' := s.dirs[d].entries[page / 1024], s.dirs[d'].entries[page' / 1024];
    if Present(e) && Present(e') {
      assert Names(s, d, page / 1024, BaseOf(e)) && Names(s, d', page' / 1024, BaseOf(e'));
    }
  }

  /** `vmm_map_page` sets the walk of that page, in that directory and in every directory
      sharing its table, and of no other; when no table can be allocated nothing changes. */
  lemma MapPageWalk(s: State, d: u32, page: nat, phys: u32, flags: u32, d': u32, page': nat)
    requires Inv(s) && d in s.dirs && page < PAGES && d' in s.dirs && page' < PAGES
    requires FlagsFit(s, d, page / 1024, flags)
    ensures var r, i := MapPage(s, d, page, phys, flags), page / 1024;
      var mapped := Present(s.dirs[d].entries[i]) || s.pool.CanAlloc();
      && Inv(r) && r.dirs.Keys == s.dirs.Keys && r.kernel == s.kernel
      && (!mapped ==> r == s)
      && Walk(r, d', page') ==
           if mapped && page' == page && (d' == d || SameTable(s, d, d', i)) then Some(PageWord(phys, flags))
           else Walk(s, d', page')
  {
    hide BaseOf, And, EnsureTable, StoreWord;
    var i := page / 1024;
    var m := EnsureTable(s, d, i, flags);
    EnsureTableWalk(s, d, i, flags, d', page');
    StoreWordInv(m, d, page, PageWord(phys, flags));
    StoreWordWalk(m, d, page, PageWord(phys, flags), d', page');
    if !Present(m.dirs[d].entries[i]) {
      StoreWordAbsent(m, d, page, PageWord(phys, flags));
    }
  }

  lemma StoreWordAbsent(s: State, d: u32, page: nat, w: u32)
    requires Inv(s) && d in s.dirs && page < PAGES && !Present(s.dirs[d].entries[page / 1024])
    ensures StoreWord(s, d, page, w) == s
  {
  }

  /** `vmm_unmap_page` removes the walk of that page from the sharers of the table, and no other. */
  lemma UnmapPageWalk(s: State, d: u32, page: nat, d': u32, page': nat)
    requires Inv(s) && d in s.dirs && page < PAGES && d' in s.dirs && page' < PAGES
    ensures var r := UnmapPage(s, d, page);
      && Inv(r) && r.dirs == s.dirs
      && Walk(r, d', page') ==
           if page' == page && SameTable(s, d, d', page / 1024) then None else Walk(s, d', page')
  {
    hide BaseOf;
    StoreWordInv(s, d, page, 0);
    StoreWordWalk(s, d, page, 0, d', page');
  }

  // ---------------------------------------------- creating and destroying spaces

  /** The slots a new directory copies: the kernel's present words. */
  function CopiedEntries(kernel: seq<u32>): (r: seq<u32>)
    requires |kernel| == SLOTS
    ensures |r| == SLOTS
    ensures forall i | 0 <= i < SLOTS :: r[i] == if Present(kernel[i]) then kernel[i] else 0
  {
    seq(SLOTS, i requires 0 <= i < SLOTS => if Present(kernel[i]) then kernel[i] else 0)
  }

  /** `vmm_create_address_space`. */
  ghost function CreateSpace(s: State): State
    requires Shaped(s)
  {
    var a := s.pool.AllocAddress();
    if a == 0 then s.(pool := s.pool.AfterAlloc())
    else
      AllocLaw(s);
      State(s.pool.AfterAlloc(),
            s.dirs[a := Directory(CopiedEntries(s.dirs[s.kernel].entries), EmptyTable())], s.tables, s.kernel)
  }

  lemma CreateNames(s: State, d: u32, i: nat, t: u32)
    requires Inv(s) && s.pool.CanAlloc()
    ensures Shaped(CreateSpace(s))
    ensures Names(CreateSpace(s), d, i, t) <==>
      if d == s.pool.AllocAddress() then Names(s, s.kernel, i, t) else Names(s, d, i, t)
  {
    hide BaseOf, And;
    AllocLaw(s);
    var r, a := CreateSpace(s), s.pool.AllocAddress();
    assert forall k | k in s.dirs :: k != a && r.dirs[k] == s.dirs[k];
  }

  lemma AllocLawInv(s: State)
    requires Inv(s)
    ensures Shaped(s) && (s.pool.AllocAddress() == 0 <==> !s.pool.CanAlloc())
    ensures !s.pool.CanAlloc() ==> CreateSpace(s) == s
    ensures s.pool.CanAlloc() ==> 0 < s.pool.AllocAddress() < U32_LIMIT && s.pool.AllocAddress() !in s.dirs
  {
    AllocLaw(s);
  }

  lemma CreateSpaceInv(s: State)
    requires Inv(s)
    ensures Inv(CreateSpace(s))
  {
    hide Present, BaseOf;
    AllocLaw(s);
    if s.pool.CanAlloc() {
      CreateNames(s, s.kernel, 0, 0);
      var r := CreateSpace(s);
      forall d1, i1, d2, i2, t1 | Names(r, d1, i1, t1) && Names(r, d2, i2, t1)
        ensures t1 in r.tables && i1 == i2 && (d1 == d2 || (Inherited(r, d1, i1) && Inherited(r, d2, i1)))
      {
        CreatePair(s, d1, i1, d2, i2, t1);
      }
    }
  }

  lemma CreatePair(s: State, d1: u32, i1: nat, d2: u32, i2: nat, t1: u32)
    requires Inv(s) && s.pool.CanAlloc() && Shaped(CreateSpace(s))
    requires Names(CreateSpace(s), d1, i1, t1) && Names(CreateSpace(s), d2, i2, t1)
    ensures var r := CreateSpace(s);
      t1 in r.tables && i1 == i2 && (d1 == d2 || (Inherited(r, d1, i1) && Inherited(r, d2, i1)))
  {
    hide Present, BaseOf;
    AllocLaw(s);
    var a := s.pool.AllocAddress();
    CreateNames(s, d1, i1, t1);
    CreateNames(s, d2, i2, t1);
    var o1, o2 := if d1 == a then s.kernel else d1, if d2 == a then s.kernel else d2;
    assert Names(s, o1, i1, t1) && Names(s, o2, i2, t1);
    if o1 != o2 {
      assert Inherited(s, o1, i1) && Inherited(s, o2, i1);
    }
  }

  /** A new address space sees exactly the kernel's pages; every other walk is unchanged. */
  lemma CreateSpaceWalk(s: State, d: u32, page: nat)
    requires Inv(s) && page < PAGES && s.pool.CanAlloc()
    requires d in s.dirs || d == s.pool.AllocAddress()
    ensures Inv(CreateSpace(s)) && d in CreateSpace(s).dirs
    ensures Walk(CreateSpace(s), d, page) == Walk(s, if d == s.pool.AllocAddress() then s.kernel else d, page)
  {
    hide BaseOf, And;
    AllocLaw(s);
    CreateSpaceInv(s);
  }

  /** Slot `i` of `d` holds a table and the kernel's slot is empty: what destruction frees. */
  ghost predicate Freed(s: State, d: u32, i: nat)
    requires Shaped(s) && d in s.dirs && i < SLOTS
  {
    Present(s.dirs[d].entries[i]) && !Present(s.dirs[s.kernel].entries[i])
  }

  /** The tables that destroying `d` frees. */
  ghost function FreedTables(s: State, d: u32): set<u32>
    requires Shaped(s) && d in s.dirs
  {
    set i | 0 <= i < SLOTS && Freed(s, d, i) :: BaseOf(s.dirs[d].entries[i])
  }

  ghost function FrameNumbers(addrs: set<u32>): set<nat> {
    set a | a in addrs :: a / 0x1000
  }

  /** `vmm_destroy_address_space`. */
  ghost function DestroySpace(s: State, d: u32): State
    requires Shaped(s) && d in s.dirs
  {
    if d == s.kernel then s
    else
      State(Pool(s.pool.total, s.pool.free + FrameNumbers(FreedTables(s, d) + {d})),
            s.dirs - {d}, s.tables - FreedTables(s, d), s.kernel)
  }

  /** A freed table is named by no directory but the one destroyed. */
  lemma FreedIsPrivate(s: State, d: u32, t: u32, d': u32, i': nat)
    requires Inv(s) && d in s.dirs && t in FreedTables(s, d) && Names(s, d', i', t)
    ensures d' == d && t in s.tables
  {
    hide Present, BaseOf;
    var i :| 0 <= i < SLOTS && Freed(s, d, i) && BaseOf(s.dirs[d].entries[i]) == t;
    assert Names(s, d, i, t);
  }

  lemma FreedOwned(s: State, d: u32, t: u32)
    requires Inv(s) && d in s.dirs && t in FreedTables(s, d)
    ensures t in s.tables && Owned(s.pool, t)
  {
    hide Present, BaseOf;
    var i :| 0 <= i < SLOTS && Freed(s, d, i) && BaseOf(s.dirs[d].entries[i]) == t;
    assert Names(s, d, i, t);
  }

  lemma SamePage(a: u32, b: u32)
    requires a % 0x1000 == 0 && b % 0x1000 == 0 && a / 0x1000 == b / 0x1000
    ensures a == b
  {
  }

  lemma DestroyShaped(s: State, d: u32)
    requires Inv(s) && d in s.dirs
    ensures Shaped(DestroySpace(s, d))
  {
    hide Present, BaseOf;
    if d != s.kernel {
      var gone, r := FreedTables(s, d) + {d}, DestroySpace(s, d);
      forall a | a in gone ensures Owned(s.pool, a) {
        if a != d { FreedOwned(s, d, a); }
      }
      forall a | (a in s.dirs || a in s.tables) && a !in gone ensures Owned(r.pool, a) {
        forall g | g in gone ensures g / 0x1000 != a / 0x1000 {
          if g / 0x1000 == a / 0x1000 { SamePage(g, a); }
        }
      }
      forall t | t in FreedTables(s, d) ensures t in s.tables { FreedOwned(s, d, t); }
    }
  }

  /** Destroying a space keeps the invariant: nothing still named was freed. */
  lemma DestroyInv(s: State, d: u32)
    requires Inv(s) && d in s.dirs
    ensures Inv(DestroySpace(s, d))
  {
    hide Present, BaseOf, FreedTables;
    DestroyShaped(s, d);
    if d != s.kernel {
      var r := DestroySpace(s, d);
      forall d1, i1, t1 | Names(r, d1, i1, t1) ensures Names(s, d1, i1, t1) && t1 in r.tables {
        assert Names(s, d1, i1, t1);
        if t1 in FreedTables(s, d) { FreedIsPrivate(s, d, t1, d1, i1); }
      }
    }
  }

  /** Destroying one space leaves every walk of every other space as it was. */
  lemma DestroyWalk(s: State, d: u32, d': u32, page: nat)
    requires Inv(s) && d in s.dirs && d' in s.dirs && page < PAGES && (d' != d || d == s.kernel)
    ensures Inv(DestroySpace(s, d)) && d' in DestroySpace(s, d).dirs
    ensures Walk(DestroySpace(s, d), d', page) == Walk(s, d', page)
  {
    hide Present, BaseOf, FreedTables;
    DestroyInv(s, d);
    var e := s.dirs[d'].entries[page / 1024];
    if Present(e) && d != s.kernel {
      assert Names(DestroySpace(s, d), d', page / 1024, BaseOf(e));
    }
  }
}
