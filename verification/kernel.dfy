/** kernel/kernel_main.c: file system, mount, processes and scheduler together, from boot through any run of
    requests. */
module Kernel {
  import opened Machine
  import opened HeapBlocks
  import opened HeapMemory
  import opened KernelHeap
  import opened Claims
  import opened FileTree
  import opened TreeHistory
  import opened RamState
  import opened RamFs
  import opened Paths
  import opened Paging
  import opened VirtualMemory
  import opened ProcessTable
  import opened ReadyQueue

  /** A request to the file system, the process manager or the scheduler. */
  datatype Request =
    | FileCall(call: Call)
    | SpawnCall(name: seq<u8>, entry: u32, priority: int)
    | ExitCall(process: u32, code: int)
    | ScheduleCall(turn: QueueCall)

  /** Process structures are no blocks of the file system. */
  ghost predicate Apart(fs: FileSystem, pm: ProcessManager)
    reads fs, pm
  {
    fs.heap == pm.heap && forall p | p in pm.procs :: p !in fs.claims
  }

  /** The invariants of both, side by side. */
  ghost predicate Sound(fs: FileSystem, pm: ProcessManager)
    reads fs, fs.heap, fs.heap.mem, pm, pm.table, pm.heap, pm.heap.mem, pm.vmm, pm.vmm.pmm, pm.vmm.pmm.bitmap
  {
    fs.Valid() && pm.Valid() && Apart(fs, pm)
  }

  /** Everything that boot sets up: both of these, a root directory that hangs nowhere, and a steady queue. */
  ghost predicate Standing(vfs: Vfs, scheduler: Scheduler)
    reads vfs, vfs.fs, vfs.fs.heap, vfs.fs.heap.mem, scheduler, scheduler.pm, scheduler.pm.table
    reads scheduler.pm.heap, scheduler.pm.heap.mem
    reads scheduler.pm.vmm, scheduler.pm.vmm.pmm, scheduler.pm.vmm.pmm.bitmap
  {
    && Sound(vfs.fs, scheduler.pm) && vfs.Valid() && scheduler.Steady()
    && (vfs.root != NULL ==> Rooted(vfs.fs.nodes, vfs.root))
  }

  /** A live block that is not held by the file system is one of the others. */
  lemma UnclaimedIsOther(claims: Ledger, bs: Blocks, base: u32, p: u32)
    requires Balanced(claims, Live(bs), base) && p >= base && IsLive(bs, p - base) && p !in claims
    ensures BlockOf(bs, p - base) in Rest(claims, Live(bs))
  {
    UnclaimedNotHeld(claims, Live(bs), base, p, BlockOf(bs, p - base));
  }

  /** A block among the others is live and not claimed. */
  lemma OtherIsUnclaimed(claims: Ledger, bs: Blocks, base: u32, p: u32, b: Block)
    requires HeapBlocks.Valid(bs) && p >= base && b.Payload() == p - base && b in Rest(claims, Live(bs))
    requires Balanced(claims, Live(bs), base)
    ensures IsLive(bs, p - base) && p !in claims
  {
    hide HeapBlocks.Valid;
    LiveUnique(bs, b);
    if p in claims {
      LiveUnique(bs, claims[p].block);
      assert claims[p].block in Held(claims);
    }
  }

  /** Whatever the file system does with its own blocks, the process structures stay live and apart. */
  lemma OthersStand(procs: set<u32>, claims: Ledger, bs: Blocks, claims': Ledger, bs': Blocks, base: u32)
    requires Balanced(claims, Live(bs), base) && Balanced(claims', Live(bs'), base) && HeapBlocks.Valid(bs')
    requires Rest(claims, Live(bs)) == Rest(claims', Live(bs'))
    requires forall p | p in procs :: p >= base && IsLive(bs, p - base) && p !in claims
    ensures forall p | p in procs :: IsLive(bs', p - base) && p !in claims'
  {
    hide HeapBlocks.Valid, Balanced, Rest, IsLive;
    forall p | p in procs ensures IsLive(bs', p - base) && p !in claims' {
      UnclaimedIsOther(claims, bs, base, p);
      OtherIsUnclaimed(claims', bs', base, p, BlockOf(bs, p - base));
    }
  }

  /** A call of the file system beside the processes. */
  method CallFiles(fs: FileSystem, pm: ProcessManager, call: Call) returns (r: int)
    requires Sound(fs, pm) && call.Proper()
    modifies fs, fs.heap`blocks, fs.heap.mem
    ensures Sound(fs, pm) && KeepsRoots(old(fs.nodes), fs.nodes)
    ensures old(UniqueNames(fs.nodes, fs.kids)) && call.Short() ==> UniqueNames(fs.nodes, fs.kids)
  {
    hide HeapBlocks.Valid, Rep, Balanced, Rest, Threaded, Aged, Counted, NodesOk, FilesOk, UniqueNames;
    hide Inv, ProcessManager.TableOk, KeepsRoots;
    ghost var claims, bs := fs.claims, fs.heap.blocks;
    r := fs.Perform(call);
    OthersStand(pm.procs.Keys, claims, bs, fs.claims, fs.heap.blocks, fs.heap.base);
  }

  /** `process_create` beside the file system: every file keeps its bytes. */
  method Spawn(fs: FileSystem, pm: ProcessManager, name: seq<u8>, entry: u32, priority: int) returns (p: u32)
    requires Sound(fs, pm)
    modifies pm`nextPid, pm`procs, pm.table, pm.heap`blocks, pm.heap.mem
    modifies pm.vmm`dirs, pm.vmm`tables, pm.vmm.pmm, pm.vmm.pmm.bitmap
    ensures Sound(fs, pm) && fs.Contents() == old(fs.Contents())
    ensures forall x | x in old(pm.procs) :: x in pm.procs && pm.procs[x] == old(pm.procs)[x]
  {
    hide HeapBlocks.Valid, Rep, Balanced, Threaded, Aged, Counted, NodesOk, FilesOk, Malloc, KeepsPayloads, Inv;
    hide ProcessManager.TableOk, ProcessManager.SlotOk, Affordable, FirstEmpty, Full, CreateSpace;
    ghost var bs := fs.heap.blocks;
    HeldLive(fs.claims, Live(bs), fs.heap.base);
    p := pm.Create(name, entry, priority);
    if p != NULL {
      TakenTwoLive(bs);
      UnclaimedIsFresh(fs.claims, Live(bs), fs.heap.base, p, bs);
    }
    KeepsSubset(Live(bs), Held(fs.claims), old(fs.heap.mem[..]), fs.heap.mem[..]);
    fs.OthersKeep();
  }

  /** `process_terminate` beside the file system. */
  method Exit(fs: FileSystem, pm: ProcessManager, p: u32, code: int)
    requires Sound(fs, pm) && p in pm.procs
    modifies pm`procs, pm.table
    ensures Sound(fs, pm) && fs.Contents() == old(fs.Contents())
    ensures pm.procs == old(pm.procs)[p := old(pm.procs)[p].(state := Terminated, exitCode := code)]
  {
    hide HeapBlocks.Valid, Rep, Balanced, Threaded, Aged, Counted, NodesOk, FilesOk, Inv;
    pm.Terminate(p, code);
  }

  /** A call of the scheduler beside both. */
  method Schedule(fs: FileSystem, scheduler: Scheduler, call: QueueCall)
    requires Sound(fs, scheduler.pm) && scheduler.Steady()
    modifies scheduler, scheduler.pm`procs
    ensures Sound(fs, scheduler.pm) && fs.Contents() == old(fs.Contents())
    ensures scheduler.Steady() && (old(scheduler.Valid()) ==> scheduler.Valid())
  {
    hide HeapBlocks.Valid, Rep, Balanced, Threaded, Aged, Counted, NodesOk, FilesOk, Inv;
    hide Scheduler.Linked, ReadyQueue.Sound;
    scheduler.Perform(call);
    SlotsStand(scheduler.pm.table[..], old(scheduler.pm.procs), scheduler.pm.procs, scheduler.pm.current);
  }

  /** Slots do not depend on state and link. */
  lemma SlotsStand(slots: seq<u32>, procs: map<u32, Process>, procs': map<u32, Process>, current: u32)
    requires SameButQueue(procs, procs')
    requires forall i | 0 <= i < |slots| :: ProcessManager.SlotOk(slots, procs, current, i)
    ensures procs'.Keys == procs.Keys
    ensures forall i | 0 <= i < |slots| :: ProcessManager.SlotOk(slots, procs', current, i)
  {
    forall i | 0 <= i < |slots| ensures ProcessManager.SlotOk(slots, procs', current, i) {
      assert ProcessManager.SlotOk(slots, procs, current, i);
    }
  }

  /** The queue stands while the structures of its members do. */
  lemma QueueStands(l: Links, q: seq<u32>, procs': map<u32, Process>)
    requires Holds(l, q) && forall x | x in l.procs :: x in procs' && procs'[x] == l.procs[x]
    ensures Holds(l.(procs := procs'), q) && (AllReady(procs', q) <==> AllReady(l.procs, q))
  {
    assert forall x | x in q :: x in l.procs;
  }

  /** A termination leaves the queue a list, and one of READY processes if and only if it was one and the
      process is not in it. */
  lemma EndedStates(l: Links, q: seq<u32>, p: u32, code: int)
    requires Holds(l, q) && p in l.procs
    ensures var procs := l.procs[p := l.procs[p].(state := Terminated, exitCode := code)];
      Holds(l.(procs := procs), q) && (AllReady(procs, q) <==> AllReady(l.procs, q) && p !in q)
  {
    var procs := l.procs[p := l.procs[p].(state := Terminated, exitCode := code)];
    assert forall x | x in q && x != p :: x in l.procs && procs[x] == l.procs[x];
  }

  /** One request. Apart from the scheduler's own calls, the queue stays as it is, and one of READY processes
      unless a queued process is terminated. */
  method Step(vfs: Vfs, scheduler: Scheduler, q: Request)
    requires Standing(vfs, scheduler) && (q.FileCall? ==> q.call.Proper())
    modifies vfs.fs, scheduler, scheduler.pm`nextPid, scheduler.pm`procs, scheduler.pm.table
    modifies scheduler.pm.heap`blocks, scheduler.pm.heap.mem
    modifies scheduler.pm.vmm`dirs, scheduler.pm.vmm`tables, scheduler.pm.vmm.pmm, scheduler.pm.vmm.pmm.bitmap
    ensures Standing(vfs, scheduler)
    ensures old(UniqueNames(vfs.fs.nodes, vfs.fs.kids)) && (q.FileCall? ==> q.call.Short()) ==>
      UniqueNames(vfs.fs.nodes, vfs.fs.kids)
    ensures q.ScheduleCall? ==> (old(scheduler.Valid()) ==> scheduler.Valid())
    ensures !q.ScheduleCall? ==>
      && scheduler.queue == old(scheduler.queue)
      && (scheduler.Valid() <==> old(scheduler.Valid()) && !(q.ExitCall? && q.process in scheduler.queue))
  {
    hide FileSystem.Valid, ProcessManager.Valid, UniqueNames, IsDirectory, Holds, AllReady;
    var fs, pm := vfs.fs, scheduler.pm;
    match q
    case FileCall(call) => var r := CallFiles(fs, pm, call);
    case SpawnCall(name, entry, priority) =>
      ghost var l := scheduler.Mem();
      var p := Spawn(fs, pm, name, entry, priority);
      QueueStands(l, scheduler.queue, pm.procs);
    case ExitCall(p, code) =>
      QueueKnown(scheduler.Mem(), scheduler.queue);
      if p in pm.procs {
        EndedStates(scheduler.Mem(), scheduler.queue, p, code);
        Exit(fs, pm, p, code);
      }
    case ScheduleCall(turn) => Schedule(fs, scheduler, turn);
  }

  lemma QueueKnown(l: Links, q: seq<u32>)
    requires Holds(l, q)
    ensures forall x | x in q :: x in l.procs
  {
  }

  /** No process of `q` is terminated by a request. */
  predicate Spares(requests: seq<Request>, q: seq<u32>) {
    forall r | r in requests && r.ExitCall? :: r.process !in q
  }

  /** Every run of requests, in any order, keeps everything standing that boot set up: file system, mounted
      root, process table and ready queue. With names of at most 127 bytes no directory ever lists a name
      twice. The queue keeps its READY processes if no process is terminated; where the scheduler itself is
      not called, if and only if no queued one is. */
  method Run(vfs: Vfs, scheduler: Scheduler, requests: seq<Request>)
    requires Standing(vfs, scheduler)
    requires forall q | q in requests && q.FileCall? :: q.call.Proper()
    modifies vfs.fs, scheduler, scheduler.pm`nextPid, scheduler.pm`procs, scheduler.pm.table
    modifies scheduler.pm.heap`blocks, scheduler.pm.heap.mem
    modifies scheduler.pm.vmm`dirs, scheduler.pm.vmm`tables, scheduler.pm.vmm.pmm, scheduler.pm.vmm.pmm.bitmap
    ensures Standing(vfs, scheduler)
    ensures old(UniqueNames(vfs.fs.nodes, vfs.fs.kids)) && AllShort(requests) ==>
      UniqueNames(vfs.fs.nodes, vfs.fs.kids)
    ensures (forall q | q in requests :: !q.ScheduleCall?) ==>
      && scheduler.queue == old(scheduler.queue)
      && (scheduler.Valid() <==> old(scheduler.Valid()) && Spares(requests, scheduler.queue))
    ensures (forall q | q in requests :: !q.ExitCall?) && old(scheduler.Valid()) ==> scheduler.Valid()
  {
    hide Standing, UniqueNames, Scheduler.Valid;
    for k := 0 to |requests|
      invariant Standing(vfs, scheduler)
      invariant old(UniqueNames(vfs.fs.nodes, vfs.fs.kids)) && AllShort(requests) ==>
        UniqueNames(vfs.fs.nodes, vfs.fs.kids)
      invariant (forall q | q in requests :: !q.ScheduleCall?) ==>
        && scheduler.queue == old(scheduler.queue)
        && (scheduler.Valid() <==> old(scheduler.Valid()) && Spares(requests[..k], scheduler.queue))
      invariant (forall q | q in requests :: !q.ExitCall?) && old(scheduler.Valid()) ==> scheduler.Valid()
    {
      assert requests[k] in requests;
      assert requests[..k + 1] == requests[..k] + [requests[k]];
      Step(vfs, scheduler, requests[k]);
    }
    assert requests[..|requests|] == requests;
  }

  predicate AllShort(requests: seq<Request>) {
    forall q | q in requests && q.FileCall? :: q.call.Short()
  }

  /** The boot order of `kernel_main` after the heap: file system, root mount, idle process, scheduler.
      Every invariant holds at its end, and there is a root directory if the heap had room for it. */
  method Boot(h: KHeap, v: Vmm) returns (fs: FileSystem, vfs: Vfs, pm: ProcessManager, scheduler: Scheduler)
    requires h.Valid() && h.initialized && v.Valid()
    modifies h`blocks, h.mem, v`dirs, v`tables, v.pmm, v.pmm.bitmap
    ensures fresh(fs) && fresh(vfs) && fresh(pm) && fresh(pm.table) && fresh(scheduler)
    ensures fs.heap == h && vfs.fs == fs && pm.heap == h && pm.vmm == v && scheduler.pm == pm
    ensures Standing(vfs, scheduler) && scheduler.Valid() && UniqueNames(fs.nodes, fs.kids)
    ensures RoomForRoot(old(h.blocks)) <==> vfs.root != NULL
    ensures vfs.root != NULL ==>
      && Rooted(fs.nodes, vfs.root) && fs.kids == map[vfs.root := []]
      && Below(fs.nodes, fs.kids, fs.born, vfs.root, vfs.root)
  {
    hide HeapBlocks.Valid, FileSystem.Valid, ProcessManager.Valid, UniqueNames, Below, Rooted, RoomForRoot;
    hide KHeap.Linked, Inv;
    fs, vfs := StartFiles(h);
    assert h.mem.Length != v.pmm.bitmap.Length;
    pm := new ProcessManager(h, v);
    StartProcesses(fs, pm);
    scheduler := new Scheduler(pm);
    scheduler.ValidSteady();
  }

  /** `process_init` beside the file system. */
  method StartProcesses(fs: FileSystem, pm: ProcessManager)
    requires Sound(fs, pm) && pm.procs == map[] && pm.nextPid == 1
    modifies pm, pm.table, pm.heap`blocks, pm.heap.mem
    modifies pm.vmm`dirs, pm.vmm`tables, pm.vmm.pmm, pm.vmm.pmm.bitmap
    ensures Sound(fs, pm) && fs.Contents() == old(fs.Contents())
    ensures pm.current != NULL ==> pm.current in pm.procs
  {
    hide HeapBlocks.Valid, Rep, Balanced, Threaded, Aged, Counted, NodesOk, FilesOk, Malloc, KeepsPayloads, Inv;
    hide ProcessManager.TableOk, ProcessManager.SlotOk, Affordable, CreateSpace;
    ghost var bs := fs.heap.blocks;
    HeldLive(fs.claims, Live(bs), fs.heap.base);
    pm.Init();
    if pm.current != NULL {
      TakenTwoLive(bs);
      UnclaimedIsFresh(fs.claims, Live(bs), fs.heap.base, pm.current, bs);
    }
    KeepsSubset(Live(bs), Held(fs.claims), old(fs.heap.mem[..]), fs.heap.mem[..]);
    fs.OthersKeep();
  }

  ghost predicate RoomForRoot(bs: Blocks) {
    Malloc(bs, NODE_BYTES).ptr.Some? && Malloc(Malloc(bs, NODE_BYTES).heap, MOUNT_BYTES).ptr.Some?
  }

  /** The heap as `kheap_init` leaves it has that room. */
  lemma RoomAtBoot()
    ensures RoomForRoot(Initial)
  {
    hide Round8, FirstFit;
    Round8Law(NODE_BYTES);
    Round8Law(MOUNT_BYTES);
    InitialValid();
    MallocLaw(Initial, NODE_BYTES);
    assert Initial[0] in Initial;
    var g := Malloc(Initial, NODE_BYTES);
    MallocLaw(g.heap, MOUNT_BYTES);
    assert |g.heap| == 2 && g.heap[1].free && g.heap[1].size > 0x1_0000 by {
      assert FirstFit(Initial, Round8(NODE_BYTES), 0) == 0;
    }
    assert g.heap[1] in g.heap;
  }

  /** `vfs_init`, `ramfs_init` and the mount of "/". */
  method StartFiles(h: KHeap) returns (fs: FileSystem, vfs: Vfs)
    requires h.Valid() && h.initialized
    modifies h`blocks, h.mem
    ensures fresh(fs) && fresh(vfs) && fs.heap == h && vfs.fs == fs && h.Valid() && h.initialized
    ensures vfs.Valid() && UniqueNames(fs.nodes, fs.kids)
    ensures RoomForRoot(old(h.blocks)) <==> vfs.root != NULL
    ensures vfs.root != NULL ==>
      && Rooted(fs.nodes, vfs.root) && fs.kids == map[vfs.root := []]
      && Below(fs.nodes, fs.kids, fs.born, vfs.root, vfs.root)
  {
    hide HeapBlocks.Valid, Rep, Balanced, Threaded, Aged, Counted, NodesOk, FilesOk, Malloc, Rooted, Below;
    fs := new FileSystem(h);
    vfs := new Vfs(fs);
    var root := fs.Init();
    if root != NULL {
      var r := vfs.Mount(Some([SLASH]), Some([0x72, 0x61, 0x6D, 0x66, 0x73]), root);
    }
  }

  /** From boot through any run of requests with short names: everything still stands, and the printed path
      of a node below the root resolves to it if and only if it can be printed. */
  method BootRunResolve(h: KHeap, v: Vmm, requests: seq<Request>, path: Name, stale: u8)
    returns (vfs: Vfs, scheduler: Scheduler, node: u32)
    requires h.Valid() && h.initialized && v.Valid()
    requires forall q | q in requests && q.FileCall? :: q.call.Proper() && q.call.Short()
    requires 0 !in path && (|path| < VFS_PATH_MAX - 1 || stale == 0)
    modifies h`blocks, h.mem, v`dirs, v`tables, v.pmm, v.pmm.bitmap
    ensures Standing(vfs, scheduler) && UniqueNames(vfs.fs.nodes, vfs.fs.kids)
    ensures RoomForRoot(old(h.blocks)) <==> vfs.root != NULL
    ensures Resolved(vfs, path, node)
  {
    hide Standing, UniqueNames, Resolved, RoomForRoot, KHeap.Valid, Vmm.Valid, Below, Rooted, Scheduler.Valid;
    var fs, pm;
    fs, vfs, pm, scheduler := Boot(h, v);
    Run(vfs, scheduler, requests);
    node := Resolve(vfs, scheduler, path, stale);
  }

  /** If `path` is the printed path of a node below the root, it leads to `node` if and only if it can be
      printed. */
  ghost predicate Resolved(vfs: Vfs, path: Name, node: u32)
    reads vfs, vfs.fs
  {
    vfs.root != NULL ==>
      forall x | Below(vfs.fs.nodes, vfs.fs.kids, vfs.fs.born, vfs.root, x) ::
        path == PathText(NamesTo(vfs.fs.nodes, vfs.fs.kids, vfs.fs.born, vfs.root, x)) ==>
          (node == x <==> Printable(NamesTo(vfs.fs.nodes, vfs.fs.kids, vfs.fs.born, vfs.root, x)))
  }

  /** `vfs_resolve_path` in a standing system. */
  method Resolve(vfs: Vfs, scheduler: Scheduler, path: Name, stale: u8) returns (node: u32)
    requires Standing(vfs, scheduler) && UniqueNames(vfs.fs.nodes, vfs.fs.kids)
    requires 0 !in path && (|path| < VFS_PATH_MAX - 1 || stale == 0)
    ensures Resolved(vfs, path, node)
  {
    hide FileSystem.Valid, ProcessManager.Valid, UniqueNames, Below, NamesTo, PathText, Printable, Scheduler.Steady;
    node := vfs.ResolvePath(Some(path), stale);
  }

  /** `process_terminate` leaves the queue alone: it stays a list, and one of READY processes if and only
      if the process is not queued. */
  method TerminateQueued(scheduler: Scheduler, p: u32, code: int)
    requires scheduler.Valid() && scheduler.pm.Valid() && (p != NULL ==> p in scheduler.pm.procs)
    modifies scheduler.pm`procs, scheduler.pm.table
    ensures scheduler.Linked() && scheduler.queue == old(scheduler.queue) && scheduler.pm.Valid()
    ensures scheduler.Valid() <==> p == NULL || p !in scheduler.queue
  {
    hide HeapBlocks.Valid, Rep, Inv, ProcessManager.TableOk, Holds, AllReady;
    if p != NULL {
      EndedStates(scheduler.Mem(), scheduler.queue, p, code);
    }
    scheduler.pm.Terminate(p, code);
  }
}
