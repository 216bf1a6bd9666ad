/** kernel/process/process.c: the process table, PID search and process creation
    across the heap, the frame allocator and the address spaces. */
module ProcessTable {
  import opened Machine
  import opened HeapBlocks
  import opened HeapMemory
  import opened KernelHeap
  import opened Frames
  import opened Paging
  import opened PagingRuns
  import opened VirtualMemory

  const MAX_PROCESSES: int := 256
  const NAME_MAX: int := 64
  const KERNEL_STACK_SIZE: u32 := 8192
  /** `sizeof(process_t)` on i686. */
  const PROCESS_BYTES: u32 := 168
  const KERNEL_CS: u32 := 0x08
  const KERNEL_DS: u32 := 0x10

  datatype ProcState = Created | Ready | Running | Blocked | Terminated

  datatype Context = Context(eip: u32, esp: u32, ebp: u32, eflags: u32, cs: u32, ds: u32, es: u32, fs: u32,
                             gs: u32, ss: u32, cr3: u32)

  const ZeroContext: Context := Context(0, 0, 0, 0, 0, 0, 0, 0, 0, 0, 0)

  datatype Process = Process(pid: int, parentPid: int, name: seq<u8>, state: ProcState, priority: int,
                             exitCode: int, context: Context, pageDirectory: u32, kernelStack: u32, next: u32)

  /** The first registers of a process: it starts at `entry` on its own stack and directory. */
  function StartContext(entry: u32, stack: u32, directory: u32): Context {
    if entry == NULL then ZeroContext
    else
      Context(entry, stack, stack, 0x202, KERNEL_CS, KERNEL_DS, KERNEL_DS, KERNEL_DS, KERNEL_DS, KERNEL_DS,
              directory)
  }

  /** `r` is the first empty slot of `table`, searching up from `from` and then from 1. */
  ghost predicate FirstEmpty(table: seq<u32>, from: int, r: int)
    requires |table| == MAX_PROCESSES && 1 <= from <= MAX_PROCESSES
  {
    && 1 <= r < MAX_PROCESSES && table[r] == NULL
    && (forall i | 1 <= i < MAX_PROCESSES :: (from <= i < r || (r < from && (from <= i || i < r))) ==> table[i] != NULL)
  }

  ghost predicate Full(table: seq<u32>)
    requires |table| == MAX_PROCESSES
  {
    forall i | 1 <= i < MAX_PROCESSES :: table[i] != NULL
  }

  class ProcessManager {
    const heap: KHeap
    const vmm: Vmm
    /** `process_table`: addresses of process structures. */
    const table: array<u32>
    var current: u32
    var nextPid: int
    /** The process structures that live in heap blocks, by address. */
    var procs: map<u32, Process>

    /** Slot `i` holds the process with pid `i`, except that idle sits in slot 1 with pid 0. */
    static ghost predicate SlotOk(slots: seq<u32>, procs: map<u32, Process>, idle: u32, i: nat)
      requires i < |slots|
    {
      slots[i] != NULL ==>
        slots[i] in procs && (procs[slots[i]].pid == i || (i == 1 && slots[i] == idle && procs[slots[i]].pid == 0))
    }

    ghost predicate TableOk()
      reads this, table
    {
      && table.Length == MAX_PROCESSES && 1 <= nextPid <= MAX_PROCESSES
      && table[0] == NULL
      && (current != NULL ==> current in procs)
      && (forall i | 0 <= i < MAX_PROCESSES :: SlotOk(table[..], procs, current, i))
    }

    /** Every process structure is a live heap block. */
    ghost predicate Valid()
      reads this, table, heap, heap.mem, vmm, vmm.pmm, vmm.pmm.bitmap
    {
      && TableOk()
      && heap.Valid() && heap.initialized && vmm.Valid()
      && (forall p | p in procs :: p != NULL && heap.LivePtr(p))
    }

    /** The state before `process_init`: an empty table and the search starting at 1. */
    constructor (h: KHeap, v: Vmm)
      requires h.Valid() && h.initialized && v.Valid()
      ensures heap == h && vmm == v && fresh(table) && Valid()
      ensures procs == map[] && current == NULL && nextPid == 1 && forall i | 0 <= i < MAX_PROCESSES :: table[i] == NULL
    {
      heap, vmm := h, v;
      table := new u32[MAX_PROCESSES](_ => 0);
      current, nextPid, procs := NULL, 1, map[];
    }

    /** `process_get_next_pid`: next-fit search with wrap-around. */
    method GetNextPid() returns (pid: int)
      requires table.Length == MAX_PROCESSES && 1 <= nextPid <= MAX_PROCESSES
      modifies this`nextPid
      ensures pid == -1 <==> Full(table[..])
      ensures pid == -1 ==> nextPid == old(nextPid)
      ensures pid != -1 ==> FirstEmpty(table[..], old(nextPid), pid) && nextPid == pid + 1
    {
      for i := nextPid to MAX_PROCESSES
        invariant forall j | nextPid <= j < i :: table[j] != NULL
        invariant nextPid == old(nextPid)
      {
        if table[i] == NULL {
          nextPid := i + 1;
          return i;
        }
      }
      for i := 1 to nextPid
        invariant forall j | 1 <= j < i :: table[j] != NULL
        invariant nextPid == old(nextPid)
      {
        if table[i] == NULL {
          nextPid := i + 1;
          return i;
        }
      }
      return -1;
    }

    /** The process structure `process_create` has built when it registers it. */
    static function NewProcess(pid: int, parent: int, name: seq<u8>, entry: u32, priority: int,
                               directory: u32, stack: u32): Process {
      Process(pid, parent, name[..Min(|name|, NAME_MAX - 1)], Ready, priority, 0,
              StartContext(entry, stack, directory), directory, stack, NULL)
    }

    /** Everything a failed creation must leave alone. */
    ghost function Snap(): Snapshot
      requires vmm.pmm.Shaped()
      reads this, table, heap, vmm, vmm.pmm, vmm.pmm.bitmap
    {
      Snapshot(table[..], procs, heap.blocks, vmm.Abs())
    }

    /** The resource side of `process_create`: the structure's block, the address space and the
        stack, each failure undoing what came before it. */
    method Acquire() returns (p: u32, dir: u32, stack: u32)
      requires heap.Valid() && heap.initialized && vmm.Valid()
      modifies heap`blocks, heap.mem, vmm`dirs, vmm`tables, vmm.pmm, vmm.pmm.bitmap
      ensures heap.Valid() && heap.initialized && vmm.Valid()
      ensures KeepsPayloads(Live(old(heap.blocks)), old(heap.mem[..]), heap.mem[..])
      ensures p != NULL <==> Affordable(old(heap.blocks), old(vmm.Abs()))
      ensures p == NULL ==>
        && heap.blocks == old(heap.blocks) && vmm.Abs() == old(vmm.Abs())
        && vmm.pmm.bitmap[..] == old(vmm.pmm.bitmap[..]) && vmm.pmm.used == old(vmm.pmm.used)
      ensures p != NULL ==>
        Takes(old(heap.blocks), old(vmm.Abs()), heap.blocks, vmm.Abs(), heap.base, p, dir, stack)
    {
      hide HeapBlocks.Valid, Rep, KeepsPayloads, Malloc, Free;
      hide Inv, Shaped, CreateSpace, DestroySpace, FreeSet, TailUsed;
      ghost var bs, m0, s := heap.blocks, heap.mem[..], vmm.Abs();
      ghost var g := Malloc(bs, PROCESS_BYTES);
      ghost var bitmap, used := vmm.pmm.bitmap[..], vmm.pmm.used;
      p, dir, stack := NULL, NULL, NULL;
      p := heap.Kmalloc(PROCESS_BYTES);
      MallocLaw(bs, PROCESS_BYTES);
      if p == NULL {
        return;
      }
      FreeUndoesMalloc(bs, PROCESS_BYTES);
      AllocLawInv(s);
      dir := vmm.CreateAddressSpace();
      if dir == NULL {
        ghost var m1 := heap.mem[..];
        heap.Kfree(p);
        KeepsChain(Live(bs), m0, m1, heap.mem[..]);
        BitmapDetermined(bitmap, vmm.pmm.bitmap[..], vmm.pmm.total);
        p := NULL;
        return;
      }
      ghost var m1 := heap.mem[..];
      stack := heap.Kmalloc(KERNEL_STACK_SIZE);
      MallocLaw(g.heap, KERNEL_STACK_SIZE);
      KeepsSubset(Live(g.heap), Live(bs), m1, heap.mem[..]);
      KeepsChain(Live(bs), m0, m1, heap.mem[..]);
      if stack == NULL {
        DestroyUndoesCreate(s);
        vmm.DestroyAddressSpace(dir);
        ghost var m2 := heap.mem[..];
        heap.Kfree(p);
        KeepsChain(Live(bs), m0, m2, heap.mem[..]);
        BitmapDetermined(bitmap, vmm.pmm.bitmap[..], vmm.pmm.total);
        p := NULL;
        return;
      }
    }

    /** `process_create`: all or nothing over the table, the heap and the frames. */
    method Create(name: seq<u8>, entry: u32, priority: int) returns (p: u32)
      requires Valid()
      modifies this`nextPid, this`procs, table, heap`blocks, heap.mem, vmm`dirs, vmm`tables, vmm.pmm, vmm.pmm.bitmap
      ensures Valid()
      ensures p != NULL <==> !Full(old(table[..])) && Affordable(old(heap.blocks), old(vmm.Abs()))
      ensures KeepsPayloads(Live(old(heap.blocks)), old(heap.mem[..]), heap.mem[..])
      ensures p == NULL ==>
        && Snap() == old(Snap())
        && vmm.pmm.bitmap[..] == old(vmm.pmm.bitmap[..]) && vmm.pmm.used == old(vmm.pmm.used)
      ensures p != NULL ==>
        && FirstEmpty(old(table[..]), old(nextPid), nextPid - 1)
        && Registers(old(Snap()), Snap(), heap.base, current, nextPid - 1, p, name, entry, priority)
      ensures p != NULL <==>
        && (exists i :: 1 <= i < 256 && old(table[..])[i] == NULL)
        && Malloc(old(heap.blocks), 168).ptr.Some?
        && (exists f :: f in old(vmm.pmm.Free()) && f / 8 < old(vmm.pmm.total) / 8)
        && Malloc(Malloc(old(heap.blocks), 168).heap, 8192).ptr.Some?
      ensures p != NULL ==> p in procs && Starts(procs[p], name, entry, priority)
      ensures p != NULL ==>
        && procs == old(procs)[p := procs[p]] && p !in old(procs)
        && procs[p].pid == nextPid - 1 && table[..] == old(table[..])[procs[p].pid := p]
        && procs[p].parentPid == (if current != NULL then old(procs)[current].pid else 0)
        && procs[p].pageDirectory in vmm.dirs && procs[p].pageDirectory !in old(vmm.dirs)
      ensures p != NULL ==>
        && procs[p].kernelStack - 8192 >= heap.base
        && NewBlock(old(heap.blocks), heap.blocks, p - heap.base, 168)
        && NewBlock(old(heap.blocks), heap.blocks, procs[p].kernelStack - 8192 - heap.base, 8192)
        && p != procs[p].kernelStack - 8192
    {
      hide HeapBlocks.Valid, Rep, KeepsPayloads, Malloc, Inv, Shaped, CreateSpace, FreeSet, TailUsed;
      hide FirstEmpty, StartContext, Starts, NewBlock;
      ghost var a := Snap();
      p := Build(name, entry, priority);
      FreeBelow(a.space.pool);
      if p != NULL {
        Described(a, Snap(), heap.base, current, nextPid - 1, p, name, entry, priority);
      }
    }

    /** The body of `process_create`. */
    method Build(name: seq<u8>, entry: u32, priority: int) returns (p: u32)
      requires Valid()
      modifies this`nextPid, this`procs, table, heap`blocks, heap.mem, vmm`dirs, vmm`tables, vmm.pmm, vmm.pmm.bitmap
      ensures Valid()
      ensures p != NULL <==> !Full(old(table[..])) && Affordable(old(heap.blocks), old(vmm.Abs()))
      ensures KeepsPayloads(Live(old(heap.blocks)), old(heap.mem[..]), heap.mem[..])
      ensures p == NULL ==>
        && Snap() == old(Snap())
        && vmm.pmm.bitmap[..] == old(vmm.pmm.bitmap[..]) && vmm.pmm.used == old(vmm.pmm.used)
      ensures p != NULL ==>
        && FirstEmpty(old(table[..]), old(nextPid), nextPid - 1)
        && Registers(old(Snap()), Snap(), heap.base, current, nextPid - 1, p, name, entry, priority)
    {
      hide HeapBlocks.Valid, Rep, KeepsPayloads, Malloc, Inv, Shaped, CreateSpace, FreeSet, TailUsed;
      hide Affordable;
      ghost var bs, s := heap.blocks, vmm.Abs();
      KeepsReflexive(Live(bs), heap.mem[..]);
      var pid := GetNextPid();
      if pid < 0 {
        return NULL;
      }
      var dir, stack;
      p, dir, stack := Acquire();
      if p == NULL {
        return NULL;
      }
      TakenBlocks(bs, PROCESS_BYTES, KERNEL_STACK_SIZE);
      var parent := if current != NULL then procs[current].pid else 0;
      Register(pid, p, NewProcess(pid, parent, name, entry, priority, dir, stack + KERNEL_STACK_SIZE));
    }

    /** Fill in the structure and enter it in its slot. */
    method Register(pid: int, p: u32, proc: Process)
      requires TableOk() && 1 <= pid < MAX_PROCESSES && table[pid] == NULL && proc.pid == pid
      requires p != NULL && p !in procs
      modifies this`procs, table
      ensures TableOk() && table[..] == old(table[..])[pid := p] && procs == old(procs)[p := proc]
    {
      procs := procs[p := proc];
      table[pid] := p;
      forall i | 0 <= i < MAX_PROCESSES ensures SlotOk(table[..], procs, current, i) {
        assert SlotOk(old(table[..]), old(procs), current, i);
      }
    }

    /** `process_init`: create idle, give it pid 0 and the kernel directory, and make it current. The
        directory created for it stays allocated. */
    method Init()
      requires Valid() && procs == map[] && nextPid == 1
      modifies this, table, heap`blocks, heap.mem, vmm`dirs, vmm`tables, vmm.pmm, vmm.pmm.bitmap
      ensures Valid()
      ensures current != NULL <==> Affordable(old(heap.blocks), old(vmm.Abs()))
      ensures KeepsPayloads(Live(old(heap.blocks)), old(heap.mem[..]), heap.mem[..])
      ensures current == NULL ==> procs == map[] && vmm.Abs() == old(vmm.Abs()) && heap.blocks == old(heap.blocks)
      ensures current != NULL ==>
        && procs.Keys == {current} && heap.blocks == TakenTwo(old(heap.blocks)).heap
        && heap.Address(Malloc(old(heap.blocks), PROCESS_BYTES).ptr) == current
      ensures current != NULL ==>
        && table[1] == current && current in procs && vmm.Abs() == CreateSpace(old(vmm.Abs()))
        && procs[current].pid == 0 && procs[current].state == Running && procs[current].pageDirectory == vmm.kernel
      ensures forall i | 0 <= i < MAX_PROCESSES && i != 1 :: table[i] == NULL
    {
      hide HeapBlocks.Valid, Rep, KeepsPayloads, Malloc, Inv, Shaped, CreateSpace, FreeSet, TailUsed;
      hide Affordable, Starts, NewBlock, StartContext;
      forall i | 0 <= i < table.Length { table[i] := NULL; }
      assert heap.mem[..] == old(heap.mem[..]);
      current := NULL;
      assert forall i | 0 <= i < MAX_PROCESSES :: SlotOk(table[..], procs, current, i);
      ghost var empty := table[..];
      assert empty[1] == NULL && !Full(empty);
      var idle := Create([0x69, 0x64, 0x6C, 0x65], NULL, 0);
      if idle != NULL {
        procs := procs[idle := procs[idle].(pid := 0, state := Running, pageDirectory := vmm.kernel)];
        current := idle;
        assert nextPid == 2 && table[..] == empty[1 := idle];
      }
    }

    /** `process_terminate`: the structure stays allocated, its slot is cleared by pid. */
    method Terminate(p: u32, exitCode: int)
      requires Valid() && (p != NULL ==> p in procs)
      modifies this`procs, table
      ensures Valid()
      ensures p == NULL ==> procs == old(procs) && table[..] == old(table[..])
      ensures p != NULL ==>
        && procs == old(procs)[p := old(procs)[p].(state := Terminated, exitCode := exitCode)]
        && var pid := old(procs)[p].pid;
           table[..] == if 0 < pid < MAX_PROCESSES then old(table[..])[pid := NULL] else old(table[..])
      ensures p != NULL ==>
        ((forall q | q in old(table[..]) && q != p :: q in table[..]) <==>
           var pid := old(procs)[p].pid; 0 < pid < MAX_PROCESSES ==> old(table[..])[pid] in {p, NULL})
    {
      hide HeapBlocks.Valid, Rep, Inv, FreeSet, TailUsed;
      if p == NULL {
        return;
      }
      var pid := procs[p].pid;
      ClearingLosesIff(table[..], procs, current, pid, p);
      procs := procs[p := procs[p].(state := Terminated, exitCode := exitCode)];
      if pid > 0 && pid < MAX_PROCESSES {
        table[pid] := NULL;
      }
      forall i | 0 <= i < MAX_PROCESSES ensures SlotOk(table[..], procs, current, i) {
        assert SlotOk(old(table[..]), old(procs), current, i);
      }
    }

    /** With a full table: terminate a process, create one, which gets the pid again, and terminate the
        first once more. The new process is ready to run but in no slot. */
    method TerminateTwice(p: u32, name: seq<u8>, entry: u32, priority: int) returns (q: u32)
      requires Valid() && Full(table[..]) && p in procs
      requires 0 < procs[p].pid < MAX_PROCESSES && table[procs[p].pid] == p
      modifies this`nextPid, this`procs, table, heap`blocks, heap.mem, vmm`dirs, vmm`tables, vmm.pmm, vmm.pmm.bitmap
      ensures Valid()
      ensures q != NULL <==> Affordable(old(heap.blocks), old(vmm.Abs()))
      ensures q != NULL ==>
        q in procs && procs[q].state == Ready && procs[q].pid == old(procs)[p].pid && q !in table[..]
    {
      hide HeapBlocks.Valid, Rep, KeepsPayloads, Malloc, Inv, Shaped, CreateSpace, FreeSet, TailUsed;
      hide Affordable;
      hide FirstEmpty, Full, SlotOk, StartContext, Starts, NewBlock;
      ghost var pid, slots, from := procs[p].pid, table[..], nextPid;
      Terminate(p, 0);
      OneEmpty(slots, pid);
      KnownSlots();
      q := Create(name, entry, priority);
      if q != NULL {
        OnlyEmpty(slots, pid, from, nextPid - 1);
        Terminate(p, 0);
      }
    }

    /** Every slot holds a process or nothing. */
    lemma KnownSlots()
      requires TableOk()
      ensures forall x | x in table[..] && x != NULL :: x in procs
    {
      forall x | x in table[..] && x != NULL ensures x in procs {
        var i :| 0 <= i < MAX_PROCESSES && table[i] == x;
        assert SlotOk(table[..], procs, current, i);
      }
    }
  }

  /** Clearing one slot of a full table makes it the first empty one. */
  lemma OneEmpty(slots: seq<u32>, pid: nat)
    requires |slots| == MAX_PROCESSES && 1 <= pid < MAX_PROCESSES
    ensures !Full(slots[pid := NULL])
  {
    assert slots[pid := NULL][pid] == NULL;
  }

  lemma OnlyEmpty(slots: seq<u32>, pid: nat, from: int, r: int)
    requires |slots| == MAX_PROCESSES && 1 <= pid < MAX_PROCESSES && Full(slots) && 1 <= from <= MAX_PROCESSES
    requires FirstEmpty(slots[pid := NULL], from, r)
    ensures r == pid
  {
  }

  /** No process sits in two slots. */
  ghost predicate NoRepeats(slots: seq<u32>) {
    forall i, j | 0 <= i < j < |slots| && slots[i] == slots[j] :: slots[i] == NULL
  }

  /** Clearing slot `pid` takes another process out exactly when one is there. */
  lemma ClearingLosesIff(slots: seq<u32>, procs: map<u32, Process>, idle: u32, pid: int, p: u32)
    requires |slots| == MAX_PROCESSES && slots[0] == NULL
    requires forall i | 0 <= i < |slots| :: ProcessManager.SlotOk(slots, procs, idle, i)
    ensures var slots' := if 0 < pid < MAX_PROCESSES then slots[pid := NULL] else slots;
      (forall q | q in slots && q != p :: q in slots') <==> (0 < pid < MAX_PROCESSES ==> slots[pid] in {p, NULL})
  {
    assert NoRepeats(slots) by {
      forall i, j | 0 <= i < j < |slots| && slots[i] == slots[j] ensures slots[i] == NULL {
        assert ProcessManager.SlotOk(slots, procs, idle, i) && ProcessManager.SlotOk(slots, procs, idle, j);
      }
    }
    if 0 < pid < MAX_PROCESSES {
      var slots' := slots[pid := NULL];
      assert forall i | 0 <= i < |slots| && i != pid :: slots'[i] == slots[i];
      assert slots'[0] == NULL;
      assert slots[pid] in slots;
    }
  }

  /** The process table, the process structures, the heap's block list and the address spaces. */
  datatype Snapshot = Snapshot(slots: seq<u32>, procs: map<u32, Process>, blocks: Blocks, space: State)

  /** From `a` to `b` one process was registered as READY in slot `pid`, and nothing else happened
      but taking its two blocks and its directory. */
  ghost predicate Registers(a: Snapshot, b: Snapshot, base: u32, current: u32, pid: int, p: u32,
                            name: seq<u8>, entry: u32, priority: int) {
    var g := Malloc(a.blocks, PROCESS_BYTES);
    var k := Malloc(g.heap, KERNEL_STACK_SIZE);
    && 0 <= pid < |a.slots| && b.slots == a.slots[pid := p]
    && g.ptr.Some? && k.ptr.Some? && p == base + g.ptr.value && p !in a.procs
    && b.blocks == k.heap
    && Shaped(a.space) && b.space == CreateSpace(a.space)
    && var dir, top := a.space.pool.AllocAddress(), base + k.ptr.value + KERNEL_STACK_SIZE;
       var parent := if current in a.procs then a.procs[current].pid else 0;
       && 0 < dir < U32_LIMIT && top < U32_LIMIT
       && b.procs == a.procs[p := ProcessManager.NewProcess(pid, parent, name, entry, priority, dir, top)]
  }

  /** A process as it was asked for: at its entry, on top of its own stack, in its own directory, with
      interrupts on and the kernel's segments; without an entry the registers are zero. */
  ghost predicate Starts(proc: Process, name: seq<u8>, entry: u32, priority: int) {
    && proc.name == name[..Min(|name|, 63)] && proc.priority == priority && proc.exitCode == 0
    && proc.state == Ready && proc.next == NULL && proc.pageDirectory != NULL
    && var c := proc.context;
       if entry != NULL then
         && c.eip == entry && c.esp == proc.kernelStack && c.ebp == proc.kernelStack && c.eflags == 0x202
         && c.cs == 0x08 && c.ds == 0x10 && c.es == 0x10 && c.fs == 0x10 && c.gs == 0x10 && c.ss == 0x10
         && c.cr3 == proc.pageDirectory
       else
         && c.eip == 0 && c.esp == 0 && c.ebp == 0 && c.eflags == 0 && c.cs == 0 && c.ds == 0 && c.es == 0
         && c.fs == 0 && c.gs == 0 && c.ss == 0 && c.cr3 == 0
  }

  /** The block at `p` has room for `n` bytes and was not live before. */
  ghost predicate NewBlock(bs: Blocks, bs': Blocks, p: int, n: nat) {
    p >= 0 && !IsLive(bs, p) && IsLive(bs', p) && BlockOf(bs', p).size >= n
  }

  /** What a registration says of the process and its blocks. */
  lemma Described(a: Snapshot, b: Snapshot, base: u32, current: u32, pid: int, p: u32, name: seq<u8>, entry: u32,
                  priority: int)
    requires HeapBlocks.Valid(a.blocks) && Inv(a.space) && a.space.pool.CanAlloc()
    requires Registers(a, b, base, current, pid, p, name, entry, priority)
    ensures p in b.procs && b.procs == a.procs[p := b.procs[p]] && p !in a.procs
    ensures Starts(b.procs[p], name, entry, priority) && b.procs[p].pid == pid
    ensures b.procs[p].parentPid == if current in a.procs then a.procs[current].pid else 0
    ensures b.procs[p].pageDirectory in b.space.dirs && b.procs[p].pageDirectory !in a.space.dirs
    ensures var stack := b.procs[p].kernelStack - 8192;
      && stack >= base && p >= base && p != stack
      && NewBlock(a.blocks, b.blocks, p - base, 168) && NewBlock(a.blocks, b.blocks, stack - base, 8192)
  {
    hide HeapBlocks.Valid, Malloc, IsLive, BlockOf, Inv, Shaped;
    AllocLawInv(a.space);
    TwoNewBlocks(a.blocks);
  }

  lemma TwoNewBlocks(bs: Blocks)
    requires HeapBlocks.Valid(bs) && Malloc(bs, PROCESS_BYTES).ptr.Some? && TakenTwo(bs).ptr.Some?
    ensures var g, k := Malloc(bs, PROCESS_BYTES), TakenTwo(bs);
      && NewBlock(bs, k.heap, g.ptr.value, 168) && NewBlock(bs, k.heap, k.ptr.value, 8192)
      && g.ptr.value != k.ptr.value
  {
    hide HeapBlocks.Valid, Malloc;
    var g := Malloc(bs, PROCESS_BYTES);
    var k := TakenTwo(bs);
    MallocLaw(bs, PROCESS_BYTES);
    GrantCoversRequest(bs, PROCESS_BYTES);
    MallocLaw(g.heap, KERNEL_STACK_SIZE);
    GrantCoversRequest(g.heap, KERNEL_STACK_SIZE);
    var b := BlockOf(g.heap, g.ptr.value);
    LiveUnique(k.heap, b);
  }

  /** The heap after a process structure and a stack are taken. */
  ghost function TakenTwo(bs: Blocks): Grant {
    Malloc(Malloc(bs, PROCESS_BYTES).heap, KERNEL_STACK_SIZE)
  }

  /** What was live stays live, and the structure's block was not. */
  lemma TakenTwoLive(bs: Blocks)
    requires HeapBlocks.Valid(bs) && Malloc(bs, PROCESS_BYTES).ptr.Some?
    ensures Live(bs) <= Live(TakenTwo(bs).heap) && !IsLive(bs, Malloc(bs, PROCESS_BYTES).ptr.value)
  {
    hide HeapBlocks.Valid, Malloc;
    MallocLaw(bs, PROCESS_BYTES);
    MallocLaw(Malloc(bs, PROCESS_BYTES).heap, KERNEL_STACK_SIZE);
  }

  /** The blocks, the directory and nothing else were taken. */
  ghost predicate Takes(bs: Blocks, s: State, bs': Blocks, s': State, base: u32, p: u32, dir: u32, stack: u32) {
    var g := Malloc(bs, PROCESS_BYTES);
    var k := Malloc(g.heap, KERNEL_STACK_SIZE);
    && g.ptr.Some? && k.ptr.Some? && p == base + g.ptr.value && stack == base + k.ptr.value
    && bs' == k.heap
    && Shaped(s) && s' == CreateSpace(s) && dir == s.pool.AllocAddress() && dir != NULL
  }

  /** The two blocks taken are new, and nothing that was live is lost. */
  lemma TakenBlocks(bs: Blocks, n: u32, n': u32)
    requires HeapBlocks.Valid(bs) && Malloc(bs, n).ptr.Some? && Malloc(Malloc(bs, n).heap, n').ptr.Some?
    ensures var g := Malloc(bs, n); var k := Malloc(g.heap, n');
      && !IsLive(bs, g.ptr.value)
      && IsLive(k.heap, g.ptr.value)
      && (forall q | IsLive(bs, q) :: IsLive(k.heap, q))
      && (n' <= U32_LIMIT - 8 ==> k.ptr.value + n' <= KHEAP_SIZE)
  {
    hide HeapBlocks.Valid, Malloc;
    MallocLaw(bs, n);
    var h := Malloc(bs, n).heap;
    MallocLaw(h, n');
    GrantCoversRequest(h, n');
    var k := Malloc(h, n');
    LiveInHeap(k.heap, BlockOf(k.heap, k.ptr.value));
  }

  /** Both blocks and a frame can be had, in the order they are asked for. */
  ghost predicate Affordable(bs: Blocks, s: State) {
    var g := Malloc(bs, PROCESS_BYTES);
    g.ptr.Some? && s.pool.CanAlloc() && Malloc(g.heap, KERNEL_STACK_SIZE).ptr.Some?
  }

  /** Distinct slots hold processes with distinct pids. */
  lemma PidsDistinct(m: ProcessManager, i: nat, j: nat)
    requires m.TableOk() && i < j < MAX_PROCESSES && m.table[i] != NULL && m.table[j] != NULL
    ensures m.table[i] in m.procs && m.table[j] in m.procs
    ensures m.table[i] != m.table[j] && m.procs[m.table[i]].pid != m.procs[m.table[j]].pid
  {
    assert ProcessManager.SlotOk(m.table[..], m.procs, m.current, i);
    assert ProcessManager.SlotOk(m.table[..], m.procs, m.current, j);
  }
}
