/** kernel/memory/vmm.c: page directories and tables updated in place. */
module VirtualMemory {
  import opened Machine
  import opened Frames
  import opened Paging
  import opened PagingRuns
  import opened PhysicalMemory

  class Vmm {
    const pmm: Pmm
    /** The directories and tables that live in physical frames, by address. */
    var dirs: map<u32, Directory>
    var tables: map<u32, seq<u32>>
    var kernel: u32

    ghost function Abs(): State
      requires pmm.Shaped()
      reads this, pmm, pmm.bitmap
    {
      State(pmm.Abs(), dirs, tables, kernel)
    }

    ghost predicate Valid()
      reads this, pmm, pmm.bitmap
    {
      pmm.Valid() && Inv(Abs())
    }

    constructor (frames: Pmm)
      requires frames.Valid()
      ensures pmm == frames && dirs == map[] && tables == map[] && kernel == NULL
    {
      pmm := frames;
      dirs, tables, kernel := map[], map[], NULL;
    }

    /** `get_or_create_table`: the address of the table in a slot, or NULL. */
    method GetOrCreateTable(dir: u32, slot: u32, flags: u32) returns (table: u32)
      requires Valid() && dir in dirs && slot < SLOTS && FlagsFit(Abs(), dir, slot, flags)
      modifies this`dirs, this`tables, pmm, pmm.bitmap
      ensures Valid() && Abs() == EnsureTable(old(Abs()), dir, slot, flags)
      ensures |dirs[dir].entries| == SLOTS
      ensures var e := dirs[dir].entries[slot]; table == if Present(e) then BaseOf(e) else NULL
      ensures Present(dirs[dir].entries[slot]) ==> table != NULL
      ensures |old(dirs)[dir].entries| == SLOTS
      ensures var e := old(dirs)[dir].entries[slot];
        if e % 2 == 1 then table == e - e % 0x1000 && dirs == old(dirs) && tables == old(tables)
        else if forall f | f in old(pmm.Free()) :: f / 8 >= old(pmm.total) / 8 then table == NULL
        else table != NULL && NewTable(old(dirs)[dir], old(tables), dirs[dir], tables, slot, table, flags)
    {
      hide Present, BaseOf, And, Or, Inv, Shaped, FreeSet, TailUsed;
      ghost var s := Abs();
      SlotFacts(s, dir, slot);
      PresentIsOdd(dirs[dir].entries[slot]);
      BaseOfLaw(dirs[dir].entries[slot]);
      FreeBelow(s.pool);
      AddTableInv(s, dir, slot, flags);
      if Present(dirs[dir].entries[slot]) {
        return BaseOf(dirs[dir].entries[slot]);
      }
      AllocLaw(s);
      var phys := pmm.AllocFrame();
      if phys == NULL {
        return NULL;
      }
      TableEntered(dirs[dir], tables, slot, phys, flags);
      dirs := dirs[dir := SetSlot(dirs[dir], slot, phys, DirWord(phys, flags))];
      tables := tables[phys := EmptyTable()];
      assert Abs() == EnsureTable(s, dir, slot, flags);
      return phys;
    }

    /** Store one word of the table that a directory slot names. */
    method SetTableWord(table: u32, index: u32, w: u32, ghost dir: u32, ghost page: nat)
      requires Valid() && dir in dirs && page < PAGES && index == page % 1024
      requires |dirs[dir].entries| == SLOTS
      requires Present(dirs[dir].entries[page / 1024]) && BaseOf(dirs[dir].entries[page / 1024]) == table
      modifies this`tables
      ensures Valid() && Abs() == StoreWord(old(Abs()), dir, page, w)
      ensures OnlyWord(old(tables), tables, table, index, w)
    {
      hide Present, BaseOf, Inv, Shaped, FreeSet, TailUsed;
      SlotFacts(Abs(), dir, page / 1024);
      StoreWordInv(Abs(), dir, page, w);
      ghost var s := Abs();
      tables := tables[table := SetWord(tables[table], index, w)];
      assert Abs() == StoreWord(s, dir, page, w);
    }

    /** `vmm_map_page`. */
    method MapPage(dir: u32, virt: u32, phys: u32, flags: u32)
      requires Valid() && dir in dirs && FlagsFit(Abs(), dir, virt / 0x1000 / 1024, flags)
      modifies this`dirs, this`tables, pmm, pmm.bitmap
      ensures Valid() && Abs() == Paging.MapPage(old(Abs()), dir, virt / 0x1000, phys, flags)
      ensures dir in dirs
      ensures HasTable(dirs[dir], virt) <==>
        HasTable(old(dirs)[dir], virt) || exists f :: f in old(pmm.Free()) && f / 8 < old(pmm.total) / 8
      ensures HasTable(dirs[dir], virt) ==> IsMapped(dirs[dir], tables, virt, phys, flags)
    {
      hide Or, And, Present, BaseOf, EnsureTable, StoreWord, Inv, Shaped, FreeSet, TailUsed, PageWord;
      var slot, index := virt / 0x40_0000, virt / 0x1000 % 0x400;
      ghost var page := virt / 0x1000;
      assert page < PAGES && slot == page / 1024 && index == page % 1024;
      var table := GetOrCreateTable(dir, slot, flags);
      PresentIsOdd(dirs[dir].entries[slot]);
      BaseOfLaw(dirs[dir].entries[slot]);
      BaseOfLaw(PageWord(phys, flags));
      BaseOfLaw(phys);
      if table != NULL {
        SetTableWord(table, index, PageWord(phys, flags), dir, page);
      } else {
        StoreWordAbsent(Abs(), dir, page, PageWord(phys, flags));
      }
    }

    /** `vmm_unmap_page`. */
    method UnmapPage(dir: u32, virt: u32)
      requires Valid() && dir in dirs
      modifies this`tables
      ensures Valid() && Abs() == Paging.UnmapPage(old(Abs()), dir, virt / 0x1000)
      ensures !HasTable(dirs[dir], virt) ==> tables == old(tables)
      ensures HasTable(dirs[dir], virt) ==>
        var e := dirs[dir].entries[virt / 0x40_0000];
        OnlyWord(old(tables), tables, e - e % 0x1000, virt / 0x1000 % 0x400, 0)
    {
      hide Or, And, Present, BaseOf, Inv, Shaped, FreeSet, TailUsed;
      var slot, index := virt / 0x40_0000, virt / 0x1000 % 0x400;
      SlotFacts(Abs(), dir, slot);
      PresentIsOdd(dirs[dir].entries[slot]);
      BaseOfLaw(dirs[dir].entries[slot]);
      if !Present(dirs[dir].entries[slot]) {
        return;
      }
      SetTableWord(BaseOf(dirs[dir].entries[slot]), index, 0, dir, virt / 0x1000);
    }

    /** `vmm_get_physical`. */
    method GetPhysical(dir: u32, virt: u32) returns (phys: nat)
      requires Valid() && dir in dirs
      ensures phys == Translate(Abs(), dir, virt)
      ensures |dirs[dir].entries| == 1024
      ensures var e := dirs[dir].entries[virt / 0x40_0000];
        if e % 2 == 0 then phys == 0
        else
          && e - e % 0x1000 in tables && |tables[e - e % 0x1000]| == 1024
          && var w := tables[e - e % 0x1000][virt / 0x1000 % 0x400];
             phys == if w % 2 == 0 then 0 else w - w % 0x1000 + virt % 0x1000
    {
      hide Present, BaseOf, And, Or, Inv, Shaped, FreeSet, TailUsed;
      var slot, index := virt / 0x40_0000, virt / 0x1000 % 0x400;
      SlotFacts(Abs(), dir, slot);
      PresentIsOdd(dirs[dir].entries[slot]);
      BaseOfLaw(dirs[dir].entries[slot]);
      var e := dirs[dir].entries[slot];
      if !Present(e) {
        return 0;
      }
      var w := tables[BaseOf(e)][index];
      PresentIsOdd(w);
      if !Present(w) {
        return 0;
      }
      BaseOfLaw(w);
      LowFlags(virt);
      OrOffset(BaseOf(w), virt % 0x1000);
      phys := Or(BaseOf(w), And(virt, 0xFFF));
    }

    /** `vmm_create_address_space`: the new directory's address, or NULL. */
    method CreateAddressSpace() returns (dir: u32)
      requires Valid()
      modifies this`dirs, pmm, pmm.bitmap
      ensures Valid() && Abs() == CreateSpace(old(Abs()))
      ensures dir == old(Abs()).pool.AllocAddress() && (dir != NULL ==> dir in dirs && dir !in old(dirs))
    {
      hide Present, BaseOf, FreeSet, TailUsed;
      ghost var s := Abs();
      AllocLaw(s);
      CreateSpaceInv(s);
      dir := pmm.AllocFrame();
      if dir == NULL {
        return;
      }
      var entries := CopyKernelSlots();
      dirs := dirs[dir := Directory(entries, EmptyTable())];
      assert Abs() == CreateSpace(s);
    }

    /** The loop of `vmm_create_address_space`. */
    method CopyKernelSlots() returns (entries: seq<u32>)
      requires kernel in dirs && |dirs[kernel].entries| == SLOTS
      ensures entries == CopiedEntries(dirs[kernel].entries)
    {
      hide Present;
      entries := EmptyTable();
      for i := 0 to SLOTS
        invariant |entries| == SLOTS
        invariant forall j | 0 <= j < SLOTS ::
          entries[j] == if j < i && Present(dirs[kernel].entries[j]) then dirs[kernel].entries[j] else 0
      {
        if Present(dirs[kernel].entries[i]) {
          entries := entries[i := dirs[kernel].entries[i]];
        }
      }
    }

    /** `vmm_destroy_address_space`. */
    method DestroyAddressSpace(dir: u32)
      requires Valid() && (dir != NULL ==> dir in dirs)
      modifies this`dirs, this`tables, pmm, pmm.bitmap
      ensures Valid()
      ensures dir == NULL ==> Abs() == old(Abs())
      ensures dir != NULL ==> Shaped(old(Abs())) && Abs() == DestroySpace(old(Abs()), dir)
    {
      hide Present, BaseOf, Inv, Shaped, FreeSet, TailUsed, FreedTables;
      if dir == NULL || dir == kernel {
        if dir != NULL { SlotFacts(Abs(), dir, 0); }
        return;
      }
      ghost var s := Abs();
      SlotFacts(s, dir, 0);
      DestroyInv(s, dir);
      var gone := FreeTables(dir);
      pmm.FreeFrame(dir);
      FrameNumbersAdd(gone, dir);
      tables := tables - gone;
      dirs := dirs - {dir};
      assert pmm.Abs() == DestroySpace(s, dir).pool;
      assert Abs() == DestroySpace(s, dir);
    }

    /** The loop of `vmm_destroy_address_space`: free the tables of slots the kernel lacks. */
    method FreeTables(dir: u32) returns (gone: set<u32>)
      requires Valid() && dir in dirs
      modifies pmm, pmm.bitmap
      ensures Shaped(old(Abs()))
      ensures pmm.Valid() && gone == FreedTables(old(Abs()), dir)
      ensures pmm.Abs() == Pool(old(pmm.total), old(pmm.Free()) + FrameNumbers(gone))
    {
      hide Present, BaseOf, Inv, Shaped, FreeSet, TailUsed, FrameNumbers;
      ghost var s := Abs();
      SlotFacts(s, dir, 0);
      gone := {};
      FrameNumbersEmpty();
      for i := 0 to SLOTS
        invariant pmm.Valid() && gone == FreedBelow(s, dir, i)
        invariant pmm.Abs() == Pool(s.pool.total, s.pool.free + FrameNumbers(gone))
      {
        gone := FreeSlot(dir, i, gone, s);
      }
    }

    /** One round of that loop. */
    method FreeSlot(dir: u32, i: u32, freed: set<u32>, ghost s: State) returns (gone: set<u32>)
      requires Inv(s) && Shaped(s) && dirs == s.dirs && kernel == s.kernel && dir in dirs && i < SLOTS
      requires pmm.Valid() && freed == FreedBelow(s, dir, i)
      requires pmm.Abs() == Pool(s.pool.total, s.pool.free + FrameNumbers(freed))
      modifies pmm, pmm.bitmap
      ensures pmm.Valid() && gone == FreedBelow(s, dir, i + 1)
      ensures pmm.Abs() == Pool(s.pool.total, s.pool.free + FrameNumbers(gone))
    {
      hide Present, BaseOf, Inv, Shaped, FreeSet, TailUsed, FrameNumbers, FreedBelow;
      gone := freed;
      SlotFacts(s, dir, i);
      FreedBelowStep(s, dir, i);
      if Present(dirs[dir].entries[i]) && !Present(dirs[kernel].entries[i]) {
        var table := BaseOf(dirs[dir].entries[i]);
        pmm.FreeFrame(table);
        FrameNumbersAdd(freed, table);
        gone := freed + {table};
      }
    }

    /** `vmm_init`: a fresh kernel directory with the first 4 MiB and the VGA page mapped to
        themselves. The source does not check that the directory's own frame was allocated. */
    method Init()
      requires pmm.Valid() && 0 !in pmm.Free() && pmm.Abs().CanAlloc()
      requires dirs == map[] && tables == map[]
      modifies this, pmm, pmm.bitmap
      ensures Valid() && kernel in dirs && |dirs[kernel].entries| == SLOTS
      ensures forall i | 1 <= i < SLOTS :: !Present(dirs[kernel].entries[i])
      ensures var mapped := old(pmm.Abs()).AfterAlloc().CanAlloc();
        forall page | 0 <= page < PAGES ::
          Walk(Abs(), kernel, page) == if mapped && page < 1024 then Some(PageWord(page * 0x1000, 3)) else None
    {
      hide Present, BaseOf, Inv, Walk, FreeSet, TailUsed, Paging.MapPage, PageWord, HasTable, IsMapped, Or, And;
      ghost var p := pmm.Abs();
      FreeInRange(pmm.bitmap[..], pmm.total);
      FreshKernel(p);
      kernel := pmm.AllocFrame();
      dirs := map[kernel := Directory(EmptyTable(), EmptyTable())];
      assert Abs() == FirstState(p);
      ghost var mapped := p.AfterAlloc().CanAlloc();
      for k := 0 to 1024
        invariant Valid() && kernel in dirs && kernel == p.AllocAddress()
        invariant Identity(Abs(), k, mapped)
      {
        IdentityStep(Abs(), k, k, mapped);
        MapPage(kernel, k * 0x1000, k * 0x1000, 3);
      }
      IdentityStep(Abs(), 1024, 0xB8, mapped);
      MapPage(kernel, 0xB_8000, 0xB_8000, 3);
    }
  }

  /** The directory's word for the 4 MiB around `virt` is present. */
  ghost predicate HasTable(dir: Directory, virt: u32) {
    |dir.entries| == 1024 && dir.entries[virt / 0x40_0000] % 2 == 1
  }

  /** The word for `virt` names the frame of `phys` and carries the flags and the present bit. */
  ghost predicate IsMapped(dir: Directory, tables: map<u32, seq<u32>>, virt: u32, phys: u32, flags: u32)
    requires HasTable(dir, virt)
  {
    var e := dir.entries[virt / 0x40_0000];
    && e - e % 0x1000 in tables && |tables[e - e % 0x1000]| == 1024
    && var w := tables[e - e % 0x1000][virt / 0x1000 % 0x400];
       w - w % 0x1000 == phys - phys % 0x1000 && w % 0x1000 == Or(flags % 0x1000, 1)
  }

  /** One word of one table was stored, and no other changed. */
  ghost predicate OnlyWord(tables: map<u32, seq<u32>>, tables': map<u32, seq<u32>>, table: u32, index: nat, w: u32) {
    && table in tables && table in tables' && tables' == tables[table := tables'[table]]
    && index < 1024 && |tables[table]| == |tables'[table]| == 1024 && tables'[table][index] == w
    && forall k | 0 <= k < 1024 && k != index :: tables'[table][k] == tables[table][k]
  }

  /** A zeroed table at a new address: the directory's word for the slot is that address with the flags,
      present and writable, and the slot's table is noted beside it. */
  ghost predicate NewTable(dir: Directory, tables: map<u32, seq<u32>>, dir': Directory, tables': map<u32, seq<u32>>,
                           slot: nat, table: u32, flags: u32) {
    && slot < |dir.entries| == |dir'.entries| && slot < |dir.tablesPhysical|
    && table !in tables && table in tables' && tables' == tables[table := tables'[table]]
    && |tables'[table]| == 1024 && (forall k | 0 <= k < 1024 :: tables'[table][k] == 0)
    && var e := dir'.entries[slot];
       && e - e % 0x1000 == table && And(e, 1) != 0 && And(e, 2) == 2 && And(e, flags) == flags
       && dir'.entries == dir.entries[slot := e] && dir'.tablesPhysical == dir.tablesPhysical[slot := table]
  }

  lemma TableEntered(dir: Directory, tables: map<u32, seq<u32>>, slot: nat, table: u32, flags: u32)
    requires slot < SLOTS && |dir.entries| == |dir.tablesPhysical| == SLOTS
    requires table % 0x1000 == 0 && flags < 0x1000 && table !in tables
    ensures NewTable(dir, tables, SetSlot(dir, slot, table, DirWord(table, flags)), tables[table := EmptyTable()],
                     slot, table, flags)
  {
    hide And, Or, BaseOf;
    BaseOfLaw(DirWord(table, flags));
  }

  lemma FreeBelow(p: Pool)
    ensures p.CanAlloc() <==> exists f :: f in p.free && f / 8 < p.total / 8
  {
  }

  /** The state with nothing but an empty kernel directory. */
  ghost function FirstState(p: Pool): State
    requires p.AllocAddress() < U32_LIMIT
  {
    State(p.AfterAlloc(), map[p.AllocAddress() := Directory(EmptyTable(), EmptyTable())], map[], p.AllocAddress())
  }

  /** The first `n` pages, and no others, are mapped to themselves, provided a table could be had. */
  ghost predicate Identity(s: State, n: nat, mapped: bool)
    requires Inv(s) && s.kernel in s.dirs
  {
    && |s.dirs[s.kernel].entries| == SLOTS
    && (Present(s.dirs[s.kernel].entries[0]) || s.pool.CanAlloc() <==> mapped)
    && (forall i | 1 <= i < SLOTS :: !Present(s.dirs[s.kernel].entries[i]))
    && forall page | 0 <= page < PAGES ::
         Walk(s, s.kernel, page) == if mapped && page < n then Some(PageWord(page * 0x1000, 3)) else None
  }

  lemma FreeInRange(bm: Bitmap, total: nat)
    requires total <= 8 * |bm|
    ensures forall f | f in FreeSet(bm, total) :: f < total
  {
  }

  lemma FreshKernel(p: Pool)
    requires p.Valid() && 0 !in p.free && p.CanAlloc()
    ensures 0 < p.AllocAddress() < U32_LIMIT
    ensures Inv(FirstState(p)) && Identity(FirstState(p), 0, p.AfterAlloc().CanAlloc())
  {
    hide Present;
    var f := p.LowestFree();
    assert f * 4096 / 0x1000 == f && f * 4096 % 0x1000 == 0;
    ZeroAbsent();
  }

  /** Mapping page `k`, when all pages below `k` are already mapped and `k` is next or done. */
  lemma IdentityStep(s: State, n: nat, k: nat, mapped: bool)
    requires Inv(s) && s.kernel in s.dirs && Identity(s, n, mapped) && k <= n <= 1024 && k < 1024
    ensures var r := Paging.MapPage(s, s.kernel, k, k * 0x1000, 3);
      Inv(r) && r.kernel == s.kernel && r.kernel in r.dirs && Identity(r, if k == n then n + 1 else n, mapped)
  {
    hide Present, BaseOf, Inv, Walk, Paging.MapPage, PageWord;
    var r := Paging.MapPage(s, s.kernel, k, k * 0x1000, 3);
    MapPageWalk(s, s.kernel, k, k * 0x1000, 3, s.kernel, 0);
    MappedSlot(s, s.kernel, k, k * 0x1000, 3);
    forall page | 0 <= page < PAGES
      ensures Walk(r, s.kernel, page) ==
        if mapped && page == k then Some(PageWord(k * 0x1000, 3)) else Walk(s, s.kernel, page)
    {
      MapPageWalk(s, s.kernel, k, k * 0x1000, 3, s.kernel, page);
    }
  }

  lemma EnsureOthers(s: State, d: u32, i: nat, flags: u32)
    requires Inv(s) && d in s.dirs && i < SLOTS && FlagsFit(s, d, i, flags)
    ensures var r := EnsureTable(s, d, i, flags);
      && |r.dirs[d].entries| == SLOTS && |s.dirs[d].entries| == SLOTS
      && (forall j | 0 <= j < SLOTS && j != i :: r.dirs[d].entries[j] == s.dirs[d].entries[j])
  {
    hide BaseOf, Present, Or;
    AllocLaw(s);
  }

  lemma MappedSlot(s: State, d: u32, page: nat, phys: u32, flags: u32)
    requires Inv(s) && d in s.dirs && page < PAGES && FlagsFit(s, d, page / 1024, flags)
    ensures var r, i := Paging.MapPage(s, d, page, phys, flags), page / 1024;
      && Inv(r) && d in r.dirs && |r.dirs[d].entries| == SLOTS
      && (Present(s.dirs[d].entries[i]) || s.pool.CanAlloc() ==> Present(r.dirs[d].entries[i]))
      && (!(Present(s.dirs[d].entries[i]) || s.pool.CanAlloc()) ==> r == s)
      && (forall j | 0 <= j < SLOTS && j != i :: r.dirs[d].entries[j] == s.dirs[d].entries[j])
  {
    hide BaseOf, And, StoreWord, EnsureTable;
    EnsureOthers(s, d, page / 1024, flags);
    EnsureTableWalk(s, d, page / 1024, flags, d, page);
    var m := EnsureTable(s, d, page / 1024, flags);
    StoreWordInv(m, d, page, PageWord(phys, flags));
    if !Present(m.dirs[d].entries[page / 1024]) {
      StoreWordAbsent(m, d, page, PageWord(phys, flags));
    }
  }

  /** The tables freed by the first `n` rounds of the destruction loop. */
  ghost function FreedBelow(s: State, d: u32, n: nat): set<u32>
    requires Shaped(s) && d in s.dirs && n <= SLOTS
  {
    set i | 0 <= i < n && Freed(s, d, i) :: BaseOf(s.dirs[d].entries[i])
  }

  lemma FreedBelowStep(s: State, d: u32, n: nat)
    requires Shaped(s) && d in s.dirs && n < SLOTS
    ensures FreedBelow(s, d, n + 1) ==
      FreedBelow(s, d, n) + if Freed(s, d, n) then {BaseOf(s.dirs[d].entries[n])} else {}
  {
    hide Present, BaseOf;
  }

  lemma FrameNumbersEmpty()
    ensures FrameNumbers({}) == {}
  {
  }

  lemma FrameNumbersAdd(addrs: set<u32>, a: u32)
    ensures FrameNumbers(addrs + {a}) == FrameNumbers(addrs) + {a / 0x1000}
  {
  }
}
