/** Whole runs over address spaces: frame conservation, sharing and leaks. */
module PagingRuns {
  import opened Machine
  import opened Paging

  // ------------------------------------------------------------ translation

  /** `vmm_get_physical`. */
  ghost function Translate(s: State, d: u32, virt: u32): nat
    requires Inv(s) && d in s.dirs
  {
    match Walk(s, d, virt / 0x1000)
    case None => 0
    case Some(w) => Or(BaseOf(w), And(virt, 0xFFF))
  }

  /** The translation joins the mapped frame and the page offset, so 0 is ambiguous only for
      the first byte of a page mapped to frame 0. */
  lemma TranslateLaw(s: State, d: u32, virt: u32)
    requires Inv(s) && d in s.dirs
    ensures match Walk(s, d, virt / 0x1000)
      case None => Translate(s, d, virt) == 0
      case Some(w) =>
        && Translate(s, d, virt) == BaseOf(w) + virt % 0x1000
        && (Translate(s, d, virt) == 0 <==> BaseOf(w) == 0 && virt % 0x1000 == 0)
  {
    hide Or, BaseOf, And, Walk;
    match Walk(s, d, virt / 0x1000)
    case None =>
    case Some(w) =>
      LowFlags(virt);
      BaseOfLaw(w);
      OrOffset(BaseOf(w), virt % 0x1000);
  }

  /** Mapping a page and then translating an address in it gives the mapped frame's byte. */
  lemma MapThenTranslate(s: State, d: u32, virt: u32, phys: u32, flags: u32)
    requires Inv(s) && d in s.dirs && FlagsFit(s, d, virt / 0x1000 / 1024, flags)
    requires Present(s.dirs[d].entries[virt / 0x1000 / 1024]) || s.pool.CanAlloc()
    ensures var r := MapPage(s, d, virt / 0x1000, phys, flags);
      && Inv(r) && d in r.dirs && Translate(r, d, virt) == phys - phys % 0x1000 + virt % 0x1000
  {
    hide BaseOf, Walk, MapPage, Translate;
    var r := MapPage(s, d, virt / 0x1000, phys, flags);
    MapPageWalk(s, d, virt / 0x1000, phys, flags, d, virt / 0x1000);
    TranslateLaw(r, d, virt);
    BaseOfLaw(phys);
  }

  /** Destroying a space just created restores frames, directories and tables exactly. */
  lemma DestroyUndoesCreate(s: State)
    requires Inv(s) && s.pool.CanAlloc()
    ensures Inv(CreateSpace(s)) && 0 < s.pool.AllocAddress() < U32_LIMIT && s.pool.AllocAddress() in CreateSpace(s).dirs
    ensures DestroySpace(CreateSpace(s), s.pool.AllocAddress()) == s
  {
    hide Present, BaseOf;
    AllocLaw(s);
    CreateSpaceInv(s);
    var r, a: u32 := CreateSpace(s), s.pool.AllocAddress();
    assert FreedTables(r, a) == {} by {
      forall i | 0 <= i < SLOTS ensures !Freed(r, a, i) {
        ZeroAbsent();
      }
    }
    assert FrameNumbers({a}) == {a / 0x1000};
    assert s.pool.free - {a / 0x1000} + {a / 0x1000} == s.pool.free;
  }

  lemma ZeroAbsent()
    ensures !Present(0)
  {
  }

  // ------------------------------------------------------------ conservation

  /** Frames held by directories and tables. */
  ghost function Held(s: State): set<nat> {
    FrameNumbers(s.dirs.Keys + s.tables.Keys)
  }

  lemma HeldStep(s: State, r: State, a: u32)
    requires Shaped(s) && s.pool.CanAlloc() && a == s.pool.AllocAddress()
    requires r.pool == s.pool.AfterAlloc() && r.dirs.Keys + r.tables.Keys == s.dirs.Keys + s.tables.Keys + {a}
    ensures r.pool.free + Held(r) == s.pool.free + Held(s)
  {
    AllocLaw(s);
    assert forall x :: x in FrameNumbers(s.dirs.Keys + s.tables.Keys + {a}) <==> x in Held(s) || x == a / 0x1000;
  }

  lemma EnsureTableHolds(s: State, d: u32, i: nat, flags: u32)
    requires Inv(s) && d in s.dirs && i < SLOTS && FlagsFit(s, d, i, flags)
    ensures var r := EnsureTable(s, d, i, flags);
      r.pool.free + Held(r) == s.pool.free + Held(s)
  {
    hide Present, BaseOf;
    AllocLaw(s);
    var r := EnsureTable(s, d, i, flags);
    if r != s {
      assert r.dirs.Keys + r.tables.Keys == s.dirs.Keys + s.tables.Keys + {s.pool.AllocAddress() as u32};
      HeldStep(s, r, s.pool.AllocAddress());
    }
  }

  lemma CreateHolds(s: State)
    requires Inv(s)
    ensures var r := CreateSpace(s); r.pool.free + Held(r) == s.pool.free + Held(s)
  {
    hide Present, BaseOf;
    AllocLaw(s);
    var r := CreateSpace(s);
    if r != s {
      assert r.dirs.Keys + r.tables.Keys == s.dirs.Keys + s.tables.Keys + {s.pool.AllocAddress() as u32};
      HeldStep(s, r, s.pool.AllocAddress());
    }
  }

  lemma DestroyHolds(s: State, d: u32)
    requires Inv(s) && d in s.dirs
    ensures var r := DestroySpace(s, d); r.pool.free + Held(r) == s.pool.free + Held(s)
  {
    hide Present, BaseOf, FreedTables;
    if d != s.kernel {
      var r, gone := DestroySpace(s, d), FreedTables(s, d) + {d};
      forall t | t in FreedTables(s, d) ensures t in s.tables { FreedOwned(s, d, t); }
      assert s.dirs.Keys + s.tables.Keys == r.dirs.Keys + r.tables.Keys + gone;
      assert forall x :: x in Held(s) <==> x in Held(r) || x in FrameNumbers(gone);
    }
  }

  // ------------------------------------------------------------------- leaks

  /** Allocated tables that no live directory names. */
  ghost function Leaked(s: State): set<u32>
    requires Shaped(s)
  {
    set t | t in s.tables && !Named(s, t)
  }

  ghost predicate Named(s: State, t: u32)
    requires Shaped(s)
  {
    exists d, i :: Names(s, d, i, t)
  }

  /** Tables of `d` in slots where the kernel has since put a table of its own. */
  ghost function Overtaken(s: State, d: u32): set<u32>
    requires Shaped(s) && d in s.dirs
  {
    set i | 0 <= i < SLOTS && OvertakenSlot(s, d, i) :: BaseOf(s.dirs[d].entries[i])
  }

  ghost predicate OvertakenSlot(s: State, d: u32, i: nat)
    requires Shaped(s) && d in s.dirs && i < SLOTS
  {
    Present(s.dirs[d].entries[i]) && Present(s.dirs[s.kernel].entries[i]) && !Inherited(s, d, i)
  }

  /** After a destruction the other directories name what they named. */
  lemma DestroyNames(s: State, d: u32)
    requires Inv(s) && d in s.dirs && d != s.kernel && Shaped(DestroySpace(s, d))
    ensures forall d', i: nat, t :: Names(DestroySpace(s, d), d', i, t) <==> Names(s, d', i, t) && d' != d
  {
    hide Present, BaseOf, FreedTables;
  }

  lemma FreedSlot(s: State, d: u32, t: u32)
    requires Inv(s) && d in s.dirs
    ensures t in FreedTables(s, d) <==> exists i: nat :: Names(s, d, i, t) && Freed(s, d, i)
  {
    hide Present, BaseOf;
    if t in FreedTables(s, d) {
      var i :| 0 <= i < SLOTS && Freed(s, d, i) && BaseOf(s.dirs[d].entries[i]) == t;
      assert Names(s, d, i, t);
    }
  }

  lemma OvertakenLeaks(s: State, d: u32, t: u32)
    requires Inv(s) && d in s.dirs && d != s.kernel && t in Overtaken(s, d)
    ensures Inv(DestroySpace(s, d)) && t in Leaked(DestroySpace(s, d))
  {
    hide Present, BaseOf, FreedTables;
    DestroyInv(s, d);
    var i: nat :| i < SLOTS && OvertakenSlot(s, d, i) && BaseOf(s.dirs[d].entries[i]) == t;
    assert Names(s, d, i, t);
    FreedSlot(s, d, t);
    DestroyNames(s, d);
  }

  lemma LeakOrigin(s: State, d: u32, t: u32)
    requires Inv(s) && d in s.dirs && d != s.kernel
    requires Inv(DestroySpace(s, d)) && t in Leaked(DestroySpace(s, d)) && t !in Leaked(s)
    ensures t in Overtaken(s, d)
  {
    hide Present, BaseOf, FreedTables;
    DestroyNames(s, d);
    FreedSlot(s, d, t);
    assert Named(s, t);
    var d', i: nat :| Names(s, d', i, t);
    assert d' == d && !Freed(s, d, i);
    assert Inherited(s, d, i) ==> Names(s, s.kernel, i, t);
    assert OvertakenSlot(s, d, i);
  }

  /** Destruction leaks exactly the tables of the slots the kernel has overtaken. */
  lemma DestroyLeaks(s: State, d: u32)
    requires Inv(s) && d in s.dirs && d != s.kernel
    ensures Inv(DestroySpace(s, d))
    ensures Leaked(DestroySpace(s, d)) == Leaked(s) + Overtaken(s, d)
  {
    hide Present, BaseOf, Overtaken, DestroySpace;
    DestroyInv(s, d);
    var r := DestroySpace(s, d);
    forall t | t in Leaked(r) ensures t in Leaked(s) + Overtaken(s, d) {
      if t !in Leaked(s) { LeakOrigin(s, d, t); }
    }
    forall t | t in Leaked(s) + Overtaken(s, d) ensures t in Leaked(r) {
      if t in Leaked(s) { LeakStays(s, d, t); } else { OvertakenLeaks(s, d, t); }
    }
  }

  lemma LeakStays(s: State, d: u32, t: u32)
    requires Inv(s) && d in s.dirs && d != s.kernel && t in Leaked(s)
    ensures Inv(DestroySpace(s, d)) && t in Leaked(DestroySpace(s, d))
  {
    hide Present, BaseOf, FreedTables;
    DestroyInv(s, d);
    DestroyNames(s, d);
    FreedSlot(s, d, t);
  }

  lemma EnsureTableLeaks(s: State, d: u32, i: nat, flags: u32)
    requires Inv(s) && d in s.dirs && i < SLOTS && FlagsFit(s, d, i, flags)
    ensures Leaked(EnsureTable(s, d, i, flags)) == Leaked(s)
  {
    hide Present, BaseOf;
    AllocLaw(s);
    var r := EnsureTable(s, d, i, flags);
    if r != s {
      var a: u32 := s.pool.AllocAddress();
      forall t ensures Named(r, t) <==> Named(s, t) || t == a {
        NamedAfterAdd(s, d, i, flags, t);
      }
      assert r.tables.Keys == s.tables.Keys + {a};
    }
  }

  lemma NamedAfterAdd(s: State, d: u32, i: nat, flags: u32, t: u32)
    requires Inv(s) && d in s.dirs && i < SLOTS && flags < 0x1000 && !Present(s.dirs[d].entries[i])
    requires s.pool.AllocAddress() != 0 && Shaped(AddTable(s, d, i, flags))
    ensures Named(AddTable(s, d, i, flags), t) <==> Named(s, t) || t == s.pool.AllocAddress()
  {
    hide Present, BaseOf, AddTable;
    var r := AddTable(s, d, i, flags);
    forall d1, i1: nat ensures Names(r, d1, i1, t) <==>
      Names(s, d1, i1, t) || (d1 == d && i1 == i && t == s.pool.AllocAddress())
    {
      AddTableNames(s, d, i, flags, d1, i1, t);
    }
    if t == s.pool.AllocAddress() {
      assert Names(r, d, i, t);
    }
  }

  lemma StoreWordLeaks(s: State, d: u32, page: nat, w: u32)
    requires Inv(s) && d in s.dirs && page < PAGES
    ensures Inv(StoreWord(s, d, page, w)) && Leaked(StoreWord(s, d, page, w)) == Leaked(s)
    ensures Held(StoreWord(s, d, page, w)) == Held(s)
  {
    hide Present, BaseOf, StoreWord;
    StoreWordInv(s, d, page, w);
    var r := StoreWord(s, d, page, w);
    assert forall d1, i1: nat, t :: Names(r, d1, i1, t) <==> Names(s, d1, i1, t);
    forall t ensures Named(r, t) <==> Named(s, t) {}
    assert r.dirs.Keys + r.tables.Keys == s.dirs.Keys + s.tables.Keys;
  }

  lemma CreateLeaks(s: State)
    requires Inv(s)
    ensures Inv(CreateSpace(s)) && Leaked(CreateSpace(s)) == Leaked(s)
  {
    hide Present, BaseOf;
    CreateSpaceInv(s);
    AllocLaw(s);
    var r := CreateSpace(s);
    if r != s {
      forall t ensures Named(r, t) <==> Named(s, t) {
        NamedAfterCreate(s, t);
      }
    }
  }

  lemma NamedAfterCreate(s: State, t: u32)
    requires Inv(s) && s.pool.CanAlloc() && Inv(CreateSpace(s))
    ensures Named(CreateSpace(s), t) <==> Named(s, t)
  {
    hide Present, BaseOf, CreateSpace;
    AllocLaw(s);
    var r, a := CreateSpace(s), s.pool.AllocAddress();
    forall d1, i1: nat ensures Names(r, d1, i1, t) <==>
      if d1 == a then Names(s, s.kernel, i1, t) else Names(s, d1, i1, t)
    {
      CreateNames(s, d1, i1, t);
    }
    if Named(s, t) {
      var d1, i1: nat :| Names(s, d1, i1, t);
      assert Names(r, d1, i1, t);
    }
    if Named(r, t) {
      var d1, i1: nat :| Names(r, d1, i1, t);
      assert Names(s, if d1 == a then s.kernel else d1, i1, t);
    }
  }

  // -------------------------------------------------------------------- runs

  datatype Op =
    | CreateOp
    | MapOp(dir: u32, page: nat, phys: u32, flags: u32)
    | UnmapOp(dir: u32, page: nat)
    | DestroyOp(dir: u32)

  /** What the source demands of a caller: a live directory, a 32-bit address, flag bits only. */
  ghost predicate Legal(s: State, op: Op) {
    match op
    case CreateOp => true
    case MapOp(d, page, _, flags) => d in s.dirs && page < PAGES && FlagsFit(s, d, page / 1024, flags)
    case UnmapOp(d, page) => d in s.dirs && page < PAGES
    case DestroyOp(d) => d in s.dirs
  }

  ghost function Step(s: State, op: Op): State
    requires Inv(s) && Legal(s, op)
  {
    match op
    case CreateOp => CreateSpace(s)
    case MapOp(d, page, phys, flags) => MapPage(s, d, page, phys, flags)
    case UnmapOp(d, page) => UnmapPage(s, d, page)
    case DestroyOp(d) => DestroySpace(s, d)
  }

  /** Destroying this directory would leak no table. */
  ghost predicate Clean(s: State, op: Op)
    requires Inv(s) && Legal(s, op)
  {
    op.DestroyOp? && op.dir != s.kernel ==> Overtaken(s, op.dir) == {}
  }

  /** The kernel's present slots are the same in `r`. */
  ghost predicate KernelGrows(s: State, r: State)
    requires Shaped(s) && Shaped(r)
  {
    && r.kernel == s.kernel
    && forall i | 0 <= i < SLOTS && Present(s.dirs[s.kernel].entries[i]) ::
         r.dirs[r.kernel].entries[i] == s.dirs[s.kernel].entries[i]
  }

  /** One step keeps the invariant, conserves frames, never changes a present kernel slot, and
      adds to the leaked tables exactly when a destruction is not clean. */
  lemma StepLaw(s: State, op: Op)
    requires Inv(s) && Legal(s, op)
    ensures var r := Step(s, op);
      && Inv(r) && KernelGrows(s, r)
      && r.pool.free + Held(r) == s.pool.free + Held(s)
      && Leaked(s) <= Leaked(r)
      && (Leaked(r) == Leaked(s) <==> Clean(s, op))
  {
    hide Present, BaseOf, Held, Leaked, StoreWord, EnsureTable, CreateSpace, DestroySpace, Overtaken;
    match op
    case CreateOp =>
      CreateLeaks(s);
      CreateHolds(s);
      CreateGrows(s);
    case MapOp(d, page, phys, flags) =>
      var m := EnsureTable(s, d, page / 1024, flags);
      EnsureTableLeaks(s, d, page / 1024, flags);
      EnsureTableHolds(s, d, page / 1024, flags);
      EnsureGrows(s, d, page / 1024, flags);
      StoreWordLeaks(m, d, page, PageWord(phys, flags));
      StoreWordInv(m, d, page, PageWord(phys, flags));
    case UnmapOp(d, page) =>
      StoreWordLeaks(s, d, page, 0);
      StoreWordInv(s, d, page, 0);
    case DestroyOp(d) =>
      DestroyStep(s, d);
  }

  lemma CreateGrows(s: State)
    requires Inv(s) && Inv(CreateSpace(s))
    ensures KernelGrows(s, CreateSpace(s))
  {
    hide Present, BaseOf;
    AllocLaw(s);
  }

  lemma EnsureGrows(s: State, d: u32, i: nat, flags: u32)
    requires Inv(s) && d in s.dirs && i < SLOTS && FlagsFit(s, d, i, flags)
    ensures KernelGrows(s, EnsureTable(s, d, i, flags))
  {
    hide Present, BaseOf;
    AllocLaw(s);
  }

  lemma DestroyStep(s: State, d: u32)
    requires Inv(s) && d in s.dirs
    ensures var r := DestroySpace(s, d);
      && Inv(r) && KernelGrows(s, r)
      && r.pool.free + Held(r) == s.pool.free + Held(s)
      && Leaked(s) <= Leaked(r)
      && (Leaked(r) == Leaked(s) <==> d == s.kernel || Overtaken(s, d) == {})
  {
    hide Present, BaseOf, Held, Leaked, Overtaken, FreedTables;
    DestroyHolds(s, d);
    DestroyInv(s, d);
    if d != s.kernel {
      DestroyLeaks(s, d);
      OvertakenNotLeaked(s, d);
    }
  }

  lemma OvertakenNotLeaked(s: State, d: u32)
    requires Inv(s) && d in s.dirs
    ensures Overtaken(s, d) !! Leaked(s)
  {
    hide Present, BaseOf;
    forall t | t in Overtaken(s, d) ensures Named(s, t) {
      var i: nat :| i < SLOTS && OvertakenSlot(s, d, i) && BaseOf(s.dirs[d].entries[i]) == t;
      assert Names(s, d, i, t);
    }
  }

  ghost predicate LegalRun(s: State, ops: seq<Op>)
    requires Inv(s)
    decreases ops
  {
    ops == [] || (Legal(s, ops[0]) && (StepLaw(s, ops[0]); LegalRun(Step(s, ops[0]), ops[1..])))
  }

  ghost predicate CleanRun(s: State, ops: seq<Op>)
    requires Inv(s) && LegalRun(s, ops)
    decreases ops
  {
    ops == [] || (Clean(s, ops[0]) && (StepLaw(s, ops[0]); CleanRun(Step(s, ops[0]), ops[1..])))
  }

  ghost function Run(s: State, ops: seq<Op>): State
    requires Inv(s) && LegalRun(s, ops)
    decreases ops
  {
    if ops == [] then s else StepLaw(s, ops[0]); Run(Step(s, ops[0]), ops[1..])
  }

  /** Over every run: sharing stays safe, frames are conserved, the kernel directory only grows,
      and tables leak if and only if some destruction was not clean. */
  lemma {:induction false} RunLaw(s: State, ops: seq<Op>)
    requires Inv(s) && LegalRun(s, ops)
    ensures var r := Run(s, ops);
      && Inv(r) && KernelGrows(s, r)
      && r.pool.free + Held(r) == s.pool.free + Held(s)
      && Leaked(s) <= Leaked(r)
      && (Leaked(r) == Leaked(s) <==> CleanRun(s, ops))
    decreases ops
  {
    hide Present, BaseOf, Held, Leaked, Step, Clean;
    if ops != [] {
      StepLaw(s, ops[0]);
      RunLaw(Step(s, ops[0]), ops[1..]);
    }
  }

  // -------------------------------------------------------------- a run that leaks

  /** Mapping into an empty slot adds one table there and changes no other slot. */
  lemma MapFresh(s: State, d: u32, page: nat, phys: u32, flags: u32)
    requires Inv(s) && d in s.dirs && page < PAGES && flags < 0x1000
    requires !Present(s.dirs[d].entries[page / 1024]) && s.pool.CanAlloc()
    ensures var r, t := MapPage(s, d, page, phys, flags), s.pool.AllocAddress();
      && Inv(r) && 0 < t < U32_LIMIT && t % 0x1000 == 0 && t !in s.tables
      && r.dirs == s.dirs[d := SetSlot(s.dirs[d], page / 1024, t, DirWord(t, flags))]
      && r.kernel == s.kernel && r.pool == s.pool.AfterAlloc()
  {
    hide Present, BaseOf, Inv, DirEntry, PageWord, SetSlot, DirWord, Walk, StoreWord;
    var i := page / 1024;
    SlotFacts(s, d, i);
    AllocLaw(s);
    AddTableInv(s, d, i, flags);
    StoreWordInv(EnsureTable(s, d, i, flags), d, page, PageWord(phys, flags));
  }

  lemma RunCons(s: State, op: Op, ops: seq<Op>)
    requires Inv(s) && Legal(s, op)
    ensures Inv(Step(s, op))
    ensures LegalRun(Step(s, op), ops) ==>
      && LegalRun(s, [op] + ops)
      && (CleanRun(s, [op] + ops) <==> Clean(s, op) && CleanRun(Step(s, op), ops))
  {
    hide Inv, Step, Clean, Legal;
    StepLaw(s, op);
    assert ([op] + ops)[0] == op && ([op] + ops)[1..] == ops;
  }

  /** From every state with three frames to spare: map a page in a new space, map the same page in the
      kernel directory, whose slot was empty, and destroy the space. Its own table leaks. */
  lemma OvertakingLeaks(s: State, page: nat, phys: u32, flags: u32)
    requires Inv(s) && page < PAGES && flags < 0x1000
    requires |s.dirs[s.kernel].entries| == SLOTS && !Present(s.dirs[s.kernel].entries[page / 1024])
    requires s.pool.CanAlloc() && s.pool.AfterAlloc().CanAlloc() && s.pool.AfterAlloc().AfterAlloc().CanAlloc()
    ensures 0 < s.pool.AllocAddress() < U32_LIMIT
    ensures var d := s.pool.AllocAddress();
      var ops := [CreateOp, MapOp(d, page, phys, flags), MapOp(s.kernel, page, phys, flags), DestroyOp(d)];
      LegalRun(s, ops) && Inv(Run(s, ops)) && Leaked(s) < Leaked(Run(s, ops))
  {
    hide Present, BaseOf, Inv, MapPage, DirWord, Leaked, LegalRun, CleanRun, Run;
    AllocLawInv(s);
    var d, i := s.pool.AllocAddress(), page / 1024;
    CreateSpaceInv(s);
    var s1 := CreateSpace(s);
    ZeroAbsent();
    MapFresh(s1, d, page, phys, flags);
    var s2 := MapPage(s1, d, page, phys, flags);
    MapFresh(s2, s.kernel, page, phys, flags);
    var s3 := MapPage(s2, s.kernel, page, phys, flags);
    OvertakenHere(s3, d, i);
    var last, third := [DestroyOp(d)], [MapOp(s.kernel, page, phys, flags), DestroyOp(d)];
    var second := [MapOp(d, page, phys, flags)] + third;
    RunNil(s3, d);
    RunCons(s3, DestroyOp(d), []);
    RunCons(s2, MapOp(s.kernel, page, phys, flags), last);
    RunCons(s1, MapOp(d, page, phys, flags), third);
    RunCons(s, CreateOp, second);
    assert [DestroyOp(d)] + [] == last;
    assert [MapOp(s.kernel, page, phys, flags)] + last == third;
    var ops := [CreateOp, MapOp(d, page, phys, flags), MapOp(s.kernel, page, phys, flags), DestroyOp(d)];
    assert [CreateOp] + second == ops;
    RunLaw(s, ops);
  }

  lemma RunNil(s: State, d: u32)
    requires Inv(s) && d in s.dirs
    ensures Inv(DestroySpace(s, d)) && LegalRun(DestroySpace(s, d), [])
  {
    DestroyInv(s, d);
  }

  lemma OvertakenHere(s: State, d: u32, i: nat)
    requires Inv(s) && d in s.dirs && i < SLOTS && d != s.kernel
    requires OvertakenSlot(s, d, i)
    ensures !Clean(s, DestroyOp(d))
  {
    assert BaseOf(s.dirs[d].entries[i]) in Overtaken(s, d);
  }
}
