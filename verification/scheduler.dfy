/** kernel/process/scheduler.c: the ready queue threaded through the process structures. */
module ReadyQueue {
  import opened Machine
  import opened ProcessTable

  const SCHEDULER_QUANTUM: u32 := 20

  // ------------------------------------------------------------ the linked queue

  /** The queue's memory: process structures by address, first and last. */
  datatype Links = Links(procs: map<u32, Process>, head: u32, tail: u32)

  /** The memory is an acyclic, duplicate-free list holding exactly `q`, with a correct tail. */
  ghost predicate Holds(l: Links, q: seq<u32>) {
    && (forall i | 0 <= i < |q| :: q[i] != NULL && q[i] in l.procs && l.procs[q[i]].next == Next(q, i))
    && (forall i, j | 0 <= i < j < |q| :: q[i] != q[j])
    && l.head == Next(q, -1)
    && l.tail == if q == [] then NULL else q[|q| - 1]
  }

  ghost predicate AllReady(procs: map<u32, Process>, q: seq<u32>) {
    forall p | p in q :: p in procs && procs[p].state == Ready
  }

  /** Process structures may differ in their state and link only. */
  ghost predicate SameButQueue(a: map<u32, Process>, b: map<u32, Process>) {
    a.Keys == b.Keys && forall p | p in a :: b[p] == a[p].(state := b[p].state, next := b[p].next)
  }

  lemma SameReflexive(a: map<u32, Process>)
    ensures SameButQueue(a, a)
  {
  }

  lemma SameKeys(a: map<u32, Process>, b: map<u32, Process>)
    requires SameButQueue(a, b)
    ensures a.Keys == b.Keys
  {
  }

  lemma SameChain(a: map<u32, Process>, b: map<u32, Process>, c: map<u32, Process>)
    requires SameButQueue(a, b) && SameButQueue(b, c)
    ensures SameButQueue(a, c)
  {
  }

  function SetNext(procs: map<u32, Process>, p: u32, next: u32): (r: map<u32, Process>)
    requires p in procs
    ensures r.Keys == procs.Keys && SameButQueue(procs, r)
    ensures forall x | x in procs :: x in r && r[x].state == procs[x].state
    ensures forall x | x in procs :: r[x].next == if x == p then next else procs[x].next
  {
    procs[p := procs[p].(next := next)]
  }

  function SetState(procs: map<u32, Process>, p: u32, state: ProcState): (r: map<u32, Process>)
    requires p in procs
    ensures r.Keys == procs.Keys && SameButQueue(procs, r)
    ensures forall x | x in procs :: x in r && r[x].next == procs[x].next
    ensures forall x | x in procs :: r[x].state == if x == p then state else procs[x].state
  {
    procs[p := procs[p].(state := state)]
  }

  /** The stores of `scheduler_add`. */
  function AddTo(l: Links, p: u32): Links
    requires p in l.procs && (l.head != NULL ==> l.tail in l.procs)
  {
    var cleared := SetNext(l.procs, p, NULL);
    if l.head == NULL then Links(cleared, p, p) else Links(SetNext(cleared, l.tail, p), l.head, p)
  }

  /** What memory says follows the first `k` members. */
  lemma HeldNext(l: Links, q: seq<u32>, k: nat)
    requires Holds(l, q) && k <= |q|
    ensures k > 0 ==> q[k - 1] in l.procs
    ensures (if k == 0 then l.head else l.procs[q[k - 1]].next) == if k < |q| then q[k] else NULL
    ensures k < |q| ==> q[k] != NULL && q[k] in l.procs
  {
  }

  /** A list is determined by its memory. */
  lemma {:induction false} HeldUnique(l: Links, q: seq<u32>, q': seq<u32>, k: nat)
    requires Holds(l, q) && Holds(l, q') && k <= |q| && k <= |q'|
    requires forall i | 0 <= i < k :: q[i] == q'[i]
    ensures q == q'
    decreases |q| - k
  {
    hide Holds;
    HeldNext(l, q, k);
    HeldNext(l, q', k);
    if k < |q| && k < |q'| {
      HeldUnique(l, q, q', k + 1);
    }
  }

  /** The list after adding `p`: `p` at the end, or the list cut after `p` if it was queued already. */
  function Queued(q: seq<u32>, p: u32): (r: seq<u32>)
    ensures forall x | x in r :: x in q || x == p
    ensures p in r
  {
    if q == [] || q[0] == p then [p] else [q[0]] + Queued(q[1..], p)
  }

  predicate IsLast(q: seq<u32>, p: u32) {
    q != [] && q[|q| - 1] == p
  }

  lemma {:induction false} QueuedNew(q: seq<u32>, p: u32)
    requires p !in q
    ensures Queued(q, p) == q + [p]
  {
    if q != [] {
      QueuedNew(q[1..], p);
    }
  }

  lemma {:induction false} QueuedAt(q: seq<u32>, k: nat)
    requires k < |q| && forall i, j | 0 <= i < j < |q| :: q[i] != q[j]
    ensures Queued(q, q[k]) == q[..k + 1]
  {
    if k > 0 {
      QueuedAt(q[1..], k - 1);
      assert q[..k + 1] == [q[0]] + q[1..][..k];
    }
  }

  /** Adding a process that is not queued appends it. */
  lemma AddAppends(l: Links, q: seq<u32>, p: u32)
    requires Holds(l, q) && p != NULL && p in l.procs && p !in q
    ensures Holds(AddTo(l, p), q + [p])
  {
    var l', q' := AddTo(l, p), q + [p];
    forall i | 0 <= i < |q'| ensures q'[i] in l'.procs && l'.procs[q'[i]].next == Next(q', i) {
      if i < |q| {
        assert q'[i] == q[i];
      }
    }
  }

  /** Adding the tail again closes a cycle: the memory holds no list any more. */
  lemma AddTailBreaks(l: Links, q: seq<u32>, q': seq<u32>)
    requires Holds(l, q) && q != []
    ensures !Holds(AddTo(l, l.tail), q')
  {
    var p, l' := q[|q| - 1], AddTo(l, l.tail);
    assert l'.procs[p].next == p;
    if Holds(l', q') {
      CycleNotHeld(l', q', p);
    }
  }

  lemma CycleNotHeld(l: Links, q: seq<u32>, p: u32)
    requires Holds(l, q) && p in l.procs && l.tail == p && p != NULL
    ensures l.procs[p].next == NULL
  {
    assert q != [];
    assert q[|q| - 1] == p;
  }

  lemma AddToNext(l: Links, p: u32, x: u32)
    requires p in l.procs && (l.head != NULL ==> l.tail in l.procs) && x in l.procs
    ensures var l' := AddTo(l, p);
      && x in l'.procs
      && (x != p && (x != l.tail || l.head == NULL) ==> l'.procs[x].next == l.procs[x].next)
      && (p != l.tail || l.head == NULL ==> l'.procs[p].next == NULL)
  {
  }

  /** A memory whose links end after member `k` holds the list up to there. */
  lemma PrefixHolds(l: Links, l': Links, q: seq<u32>, k: nat)
    requires Holds(l, q) && k < |q| && l'.head == l.head && l'.tail == q[k]
    requires forall i | 0 <= i <= k :: q[i] in l'.procs && l'.procs[q[i]].next == Next(q[..k + 1], i)
    ensures Holds(l', q[..k + 1])
  {
    hide Next;
    NextFirst(q, k + 1);
  }

  lemma NextFirst(q: seq<u32>, k: nat)
    requires 0 < k <= |q|
    ensures Next(q[..k], -1) == Next(q, -1)
  {
  }

  /** Adding a queued process that is not the tail drops every process after it. */
  lemma AddMemberTruncates(l: Links, q: seq<u32>, k: nat)
    requires Holds(l, q) && k + 1 < |q|
    ensures q[k] in l.procs && Holds(AddTo(l, q[k]), q[..k + 1])
  {
    hide AddTo, SameButQueue;
    var p := q[k];
    assert q[|q| - 1] == l.tail && l.head != NULL;
    forall i | 0 <= i <= k
      ensures q[i] in AddTo(l, p).procs && AddTo(l, p).procs[q[i]].next == Next(q[..k + 1], i)
    {
      assert q[i] != q[|q| - 1] && q[i] in l.procs && (i < k ==> q[i] != p);
      AddToNext(l, p, q[i]);
    }
    AddToEnds(l, p);
    PrefixHolds(l, AddTo(l, p), q, k);
  }

  lemma AddToEnds(l: Links, p: u32)
    requires p in l.procs && (l.head != NULL ==> l.tail in l.procs)
    ensures AddTo(l, p).tail == p && AddTo(l, p).head == if l.head == NULL then p else l.head
  {
  }

  /** `scheduler_add` appends if and only if the process is not queued already. */
  lemma AddAppendsIff(l: Links, q: seq<u32>, p: u32)
    requires Holds(l, q) && p != NULL && p in l.procs
    ensures (exists q' :: Holds(AddTo(l, p), q') && q < q') <==> p !in q
  {
    if p !in q {
      AddAppends(l, q, p);
    } else {
      var k :| 0 <= k < |q| && q[k] == p;
      forall q' ensures !(Holds(AddTo(l, p), q') && q < q') {
        if Holds(AddTo(l, p), q') {
          if k + 1 < |q| {
            AddMemberTruncates(l, q, k);
            HeldUnique(AddTo(l, p), q[..k + 1], q', 0);
          } else {
            AddTailBreaks(l, q, q');
          }
        }
      }
    }
  }

  /** `scheduler_add` leaves a list, `Queued(q, p)`, if and only if the process is not its tail. */
  lemma AddHoldsIff(l: Links, q: seq<u32>, p: u32)
    requires Holds(l, q) && p != NULL && p in l.procs
    ensures Holds(AddTo(l, p), Queued(q, p)) <==> !IsLast(q, p)
    ensures IsLast(q, p) ==> forall q' :: !Holds(AddTo(l, p), q')
  {
    hide AddTo, Queued;
    if p !in q {
      AddAppends(l, q, p);
      QueuedNew(q, p);
    } else {
      var k :| 0 <= k < |q| && q[k] == p;
      if k + 1 < |q| {
        AddMemberTruncates(l, q, k);
        QueuedAt(q, k);
      } else {
        forall q' ensures !Holds(AddTo(l, p), q') {
          AddTailBreaks(l, q, q');
        }
      }
    }
  }

  // ------------------------------------------------------------- sequence steps

  /** `q` without process `p`. */
  function Without(q: seq<u32>, p: u32): (r: seq<u32>)
    ensures p !in q ==> r == q
    ensures forall x | x in r :: x in q
  {
    if q == [] then [] else if q[0] == p then q[1..] else [q[0]] + Without(q[1..], p)
  }

  lemma {:induction false} WithoutAt(q: seq<u32>, k: nat)
    requires k < |q| && forall i, j | 0 <= i < j < |q| :: q[i] != q[j]
    ensures Without(q, q[k]) == q[..k] + q[k + 1..]
    ensures q[k] !in Without(q, q[k])
  {
    if k > 0 {
      WithoutAt(q[1..], k - 1);
      assert q[..k] == [q[0]] + q[1..][..k - 1];
      assert q[k + 1..] == q[1..][k..];
    }
  }

  /** The queue after a switch: the head leaves, and current rejoins if it was running. */
  function Switched(q: seq<u32>, current: u32, running: bool): seq<u32>
    requires q != []
  {
    if running then Queued(q[1..], current) else q[1..]
  }

  /** The three ways a switch leaves the queue. */
  lemma SwitchedPlain(q: seq<u32>, current: u32, running: bool)
    requires q != [] && forall i, j | 0 <= i < j < |q| :: q[i] != q[j]
    ensures !running ==> Switched(q, current, running) == q[1..]
    ensures running && current !in q[1..] ==> Switched(q, current, running) == q[1..] + [current]
    ensures running ==> forall k | 0 < k < |q| && q[k] == current :: Switched(q, current, running) == q[1..k + 1]
  {
    if running && current !in q[1..] {
      QueuedNew(q[1..], current);
    }
    forall k | running && 0 < k < |q| && q[k] == current ensures Switched(q, current, running) == q[1..k + 1] {
      QueuedAt(q[1..], k - 1);
      assert q[1..][k - 1] == current && q[1..][..k] == q[1..k + 1];
    }
  }

  /** The states after a switch: the popped process runs, current is READY if it was running. */
  ghost predicate HandsOver(a: map<u32, Process>, b: map<u32, Process>, popped: u32, current: u32)
    requires a.Keys == b.Keys
  {
    forall x | x in b ::
      b[x].state == if x == popped then Running
                    else if x == current && a[x].state == Running then Ready else a[x].state
  }

  /** A switch requeues a running current that already is the last waiting process: a cycle. */
  predicate Closes(q: seq<u32>, current: u32, running: bool)
    requires q != []
  {
    running && IsLast(q[1..], current)
  }

  /** When blocking current with state `reason` keeps a queue of READY processes one. */
  predicate StaysReady(q: seq<u32>, current: u32, reason: ProcState) {
    || current !in q
    || reason == Ready
    || (if reason == Running then q[0] != current && !IsLast(q, current) else q[0] == current)
  }

  /** Dropping the head of a held list. */
  lemma PopHolds(l: Links, q: seq<u32>)
    requires Holds(l, q) && q != []
    ensures l.head in l.procs
    ensures var next := l.procs[l.head].next;
      Holds(Links(l.procs, next, if next == NULL then NULL else l.tail), q[1..])
  {
    var q' := q[1..];
    HeldLink(l, q, 0);
    forall i | 0 <= i < |q'| ensures q'[i] != NULL && q'[i] in l.procs && l.procs[q'[i]].next == Next(q', i) {
      hide Holds, Next;
      HeldLink(l, q, i + 1);
      NextOfRest(q, i);
    }
    forall i, j | 0 <= i < j < |q'| ensures q'[i] != q'[j] {
      assert q[i + 1] != q[j + 1];
    }
    if q' != [] {
      HeldLink(l, q, 1);
      assert q'[|q'| - 1] == q[|q| - 1] && q'[0] == q[1];
    }
  }

  lemma NextOfRest(q: seq<u32>, i: nat)
    requires i + 1 < |q|
    ensures q[1..][i] == q[i + 1] && Next(q[1..], i) == Next(q, i + 1)
  {
  }

  /** Unlinking the member after `k`. */
  lemma UnlinkHolds(l: Links, q: seq<u32>, k: nat)
    requires Holds(l, q) && k + 1 < |q|
    ensures q[k] in l.procs && q[k + 1] in l.procs
    ensures var p := q[k + 1];
      var procs := SetNext(SetNext(l.procs, q[k], l.procs[p].next), p, NULL);
      Holds(Links(procs, l.head, if l.tail == p then q[k] else l.tail), q[..k + 1] + q[k + 2..])
  {
    hide SetNext, SameButQueue;
    var p, q' := q[k + 1], q[..k + 1] + q[k + 2..];
    var procs := SetNext(SetNext(l.procs, q[k], l.procs[p].next), p, NULL);
    forall i | 0 <= i < |q'| ensures q'[i] != NULL && q'[i] in procs && procs[q'[i]].next == Next(q', i) {
      UnlinkAt(l, q, k, i);
    }
    RemovedDistinct(q, k + 1);
  }

  lemma UnlinkAt(l: Links, q: seq<u32>, k: nat, i: nat)
    requires Holds(l, q) && k + 1 < |q| && i + 1 < |q|
    ensures q[k] in l.procs && q[k + 1] in l.procs
    ensures var p, q' := q[k + 1], q[..k + 1] + q[k + 2..];
      var procs := SetNext(SetNext(l.procs, q[k], l.procs[p].next), p, NULL);
      q'[i] != NULL && q'[i] in procs && procs[q'[i]].next == Next(q', i)
  {
    hide SetNext, SameButQueue, Holds, Next;
    HeldDistinct(l, q);
    var j := if i <= k then i else i + 1;
    HeldLink(l, q, j);
    HeldLink(l, q, k);
    HeldLink(l, q, k + 1);
    NextWithout(q, k + 1, i);
  }

  lemma HeldLink(l: Links, q: seq<u32>, i: nat)
    requires Holds(l, q) && i < |q|
    ensures q[i] != NULL && q[i] in l.procs && l.procs[q[i]].next == Next(q, i)
  {
  }

  /** Member `i` of a list without its member `k`, and what follows it. */
  lemma NextWithout(q: seq<u32>, k: nat, i: nat)
    requires 0 < k < |q| && i + 1 < |q|
    ensures var q' := q[..k] + q[k + 1..];
      && q'[i] == q[if i < k then i else i + 1]
      && Next(q', i) == Next(q, if i < k - 1 then i else i + 1)
  {
  }

  /** States do not matter to the list. */
  lemma StateHolds(l: Links, q: seq<u32>, p: u32, state: ProcState)
    requires p in l.procs
    ensures Holds(l.(procs := SetState(l.procs, p, state)), q) <==> Holds(l, q)
  {
  }

  // ------------------------------------------------------------ switches as turns

  /** Queue and whether current is running; `process_get_current` never changes. */
  datatype Turn = Turn(queue: seq<u32>, running: bool)

  /** One expired `scheduler_tick` (`tick`) or one `scheduler_yield`. */
  function TurnStep(t: Turn, current: u32, tick: bool): Turn {
    if t.queue == [] || (tick && t.queue[0] == current) then t
    else Turn(Switched(t.queue, current, t.running), t.queue[0] == current)
  }

  function TurnRun(t: Turn, current: u32, ticks: seq<bool>): Turn
    decreases ticks
  {
    if ticks == [] then t else TurnRun(TurnStep(t, current, ticks[0]), current, ticks[1..])
  }

  lemma {:induction false} TurnRunAppend(t: Turn, current: u32, ticks: seq<bool>, tick: bool)
    ensures TurnRun(t, current, ticks + [tick]) == TurnStep(TurnRun(t, current, ticks), current, tick)
    decreases ticks
  {
    hide TurnStep;
    if ticks == [] {
      assert [] + [tick] == [tick];
      assert TurnRun(t, current, [tick]) == TurnRun(TurnStep(t, current, tick), current, [tick][1..]);
    } else {
      TurnRunAppend(TurnStep(t, current, ticks[0]), current, ticks[1..], tick);
      assert (ticks + [tick])[1..] == ticks[1..] + [tick];
    }
  }

  /** A call of the scheduler's interface. */
  datatype QueueCall =
    | TickCall
    | YieldCall
    | AddCall(process: u32)
    | UnblockCall(process: u32)
    | RemoveCall(process: u32)
  {
    /** The call may put `p` into the queue. */
    predicate Enters(p: u32) {
      (AddCall? || UnblockCall?) && process == p
    }
  }

  class Scheduler {
    const pm: ProcessManager
    var head: u32
    var tail: u32
    var ticks: u32
    var enabled: bool
    /** The queued processes, first to last. */
    ghost var queue: seq<u32>

    ghost function Mem(): Links
      reads this, pm
    {
      Links(pm.procs, head, tail)
    }

    ghost predicate Linked()
      reads this, pm
    {
      Holds(Mem(), queue) && (pm.current != NULL ==> pm.current in pm.procs)
    }

    /** A well-formed queue of READY processes. */
    ghost predicate Valid()
      reads this, pm
    {
      Linked() && AllReady(pm.procs, queue)
    }

    /** The queue, and whether current is running. */
    ghost function Now(): Turn
      requires pm.current in pm.procs
      reads this, pm
    {
      Turn(queue, pm.procs[pm.current].state == Running)
    }

    /** A well-formed queue in which a running current does not wait. */
    ghost predicate Steady()
      reads this, pm
    {
      Linked() && (pm.current != NULL ==> Sound(Now(), pm.current))
    }

    /** `scheduler_init`. */
    constructor (processes: ProcessManager)
      requires processes.current != NULL ==> processes.current in processes.procs
      ensures pm == processes && Valid() && queue == [] && ticks == 20 && enabled
    {
      pm := processes;
      head, tail, ticks, enabled, queue := NULL, NULL, SCHEDULER_QUANTUM, true, [];
    }

    /** `scheduler_add`: the memory stays a list if and only if the process was not its tail. */
    method Add(p: u32)
      requires Linked() && (p != NULL ==> p in pm.procs)
      modifies this`head, this`tail, this`queue, pm`procs
      ensures SameButQueue(old(pm.procs), pm.procs)
      ensures forall x | x in pm.procs :: pm.procs[x].state == old(pm.procs)[x].state
      ensures p == NULL ==> queue == old(queue) && Mem() == old(Mem())
      ensures p != NULL ==> queue == Queued(old(queue), p) && Mem() == AddTo(old(Mem()), p)
      ensures Linked() <==> p == NULL || !IsLast(old(queue), p)
      ensures p != NULL && old(Valid()) ==>
        (Valid() <==> !IsLast(old(queue), p) && old(pm.procs)[p].state == Ready)
    {
      if p == NULL {
        return;
      }
      AddHoldsIff(Mem(), queue, p);
      pm.procs := SetNext(pm.procs, p, NULL);
      if head == NULL {
        head := p;
        tail := p;
      } else {
        pm.procs := SetNext(pm.procs, tail, p);
        tail := p;
      }
      queue := Queued(queue, p);
    }

    /** `scheduler_unblock`. */
    method Unblock(p: u32)
      requires Linked() && (p != NULL ==> p in pm.procs)
      modifies this`head, this`tail, this`queue, pm`procs
      ensures SameButQueue(old(pm.procs), pm.procs)
      ensures queue == if p == NULL then old(queue) else Queued(old(queue), p)
      ensures forall x | x in pm.procs :: pm.procs[x].state == if x == p != NULL then Ready else old(pm.procs)[x].state
      ensures Linked() <==> p == NULL || !IsLast(old(queue), p)
      ensures old(Valid()) && Linked() ==> Valid()
    {
      if p == NULL {
        return;
      }
      StateHolds(Mem(), queue, p, Ready);
      pm.procs := SetState(pm.procs, p, Ready);
      Add(p);
    }

    /** `scheduler_remove`: walk to the predecessor and unlink. */
    method Remove(p: u32)
      requires Linked() && (p != NULL ==> p in pm.procs)
      modifies this`head, this`tail, this`queue, pm`procs
      ensures Linked() && (old(Valid()) ==> Valid()) && SameButQueue(old(pm.procs), pm.procs)
      ensures forall x | x in pm.procs :: x in old(pm.procs) && pm.procs[x].state == old(pm.procs)[x].state
      ensures p != NULL ==> queue == Without(old(queue), p)
      ensures p == NULL || p !in old(queue) ==> queue == old(queue) && pm.procs == old(pm.procs)
    {
      hide SetNext, SameButQueue, Holds, Without;
      SameReflexive(pm.procs);
      if p == NULL {
        return;
      }
      HeldNext(Mem(), queue, 0);
      if head == p {
        RemoveHead(p);
        return;
      }
      var prev, k := FindPrev(p);
      if prev != NULL {
        RemoveAfter(prev, p, k);
      }
    }

    /** The head case of `scheduler_remove`. */
    method RemoveHead(p: u32)
      requires Linked() && queue != [] && head == p && queue[0] == p && p in pm.procs
      modifies this`head, this`tail, this`queue, pm`procs
      ensures Linked() && (old(Valid()) ==> Valid()) && SameButQueue(old(pm.procs), pm.procs)
      ensures forall x | x in pm.procs :: x in old(pm.procs) && pm.procs[x].state == old(pm.procs)[x].state
      ensures queue == Without(old(queue), p)
    {
      hide SetNext, SameButQueue, Holds, Without;
      HeldDistinct(Mem(), queue);
      PopHolds(Mem(), queue);
      WithoutAt(queue, 0);
      queue := queue[1..];
      head := pm.procs[p].next;
      if head == NULL {
        tail := NULL;
      }
      ClearHolds(Mem(), queue, p);
      pm.procs := SetNext(pm.procs, p, NULL);
    }

    /** The unlinking stores of `scheduler_remove`. */
    method RemoveAfter(prev: u32, p: u32, ghost k: nat)
      requires Linked() && k + 1 < |queue| && queue[k] == prev && queue[k + 1] == p
      requires prev in pm.procs && p in pm.procs
      modifies this`tail, this`queue, pm`procs
      ensures Linked() && (old(Valid()) ==> Valid()) && SameButQueue(old(pm.procs), pm.procs)
      ensures forall x | x in pm.procs :: x in old(pm.procs) && pm.procs[x].state == old(pm.procs)[x].state
      ensures queue == Without(old(queue), p)
    {
      hide SetNext, SameButQueue, Holds, Without;
      HeldDistinct(Mem(), queue);
      UnlinkHolds(Mem(), queue, k);
      WithoutAt(queue, k + 1);
      ghost var procs := pm.procs;
      pm.procs := SetNext(pm.procs, prev, pm.procs[p].next);
      if tail == p {
        tail := prev;
      }
      SameChain(procs, pm.procs, SetNext(pm.procs, p, NULL));
      pm.procs := SetNext(pm.procs, p, NULL);
      queue := queue[..k + 1] + queue[k + 2..];
    }

    /** The search loop of `scheduler_remove`. */
    method FindPrev(p: u32) returns (prev: u32, ghost k: nat)
      requires Linked() && p != NULL && head != p
      ensures prev == NULL ==> p !in queue
      ensures prev != NULL ==>
        k + 1 < |queue| && queue[k] == prev && queue[k + 1] == p && prev in pm.procs && p in pm.procs && p in queue
    {
      hide Holds;
      prev := head;
      k := 0;
      HeldNext(Mem(), queue, 0);
      while prev != NULL && pm.procs[prev].next != p
        invariant 0 <= k <= |queue| && prev == (if k < |queue| then queue[k] else NULL)
        invariant k < |queue| ==> prev != NULL && prev in pm.procs && prev != p
        invariant p !in queue[..k]
        decreases |queue| - k
      {
        HeldNext(Mem(), queue, k + 1);
        assert queue[..k + 1] == queue[..k] + [queue[k]];
        prev := pm.procs[prev].next;
        k := k + 1;
        if k < |queue| { HeldNext(Mem(), queue, k + 1); }
      }
      if prev != NULL {
        HeldNext(Mem(), queue, k + 1);
      } else {
        assert queue[..k] == queue;
      }
    }

    /** Take the head off the queue. */
    method Pop() returns (next: u32)
      requires Linked() && queue != []
      modifies this`head, this`tail, this`queue
      ensures Linked() && next == old(queue)[0] && next in pm.procs && queue == old(queue)[1..]
    {
      HeldNext(Mem(), queue, 0);
      PopHolds(Mem(), queue);
      next := head;
      queue := queue[1..];
      head := pm.procs[next].next;
      if head == NULL {
        tail := NULL;
      }
    }

    /** The part `scheduler_tick` and `scheduler_yield` share: pop the head, requeue current if it
        was running, and mark the popped process running. */
    method Switch()
      requires Linked() && queue != [] && pm.current != NULL
      modifies this`head, this`tail, this`queue, pm`procs
      ensures SameButQueue(old(pm.procs), pm.procs)
      ensures queue == Switched(old(queue), pm.current, old(pm.procs)[pm.current].state == Running)
      ensures HandsOver(old(pm.procs), pm.procs, old(queue)[0], pm.current)
      ensures Linked() <==> !Closes(old(queue), pm.current, old(pm.procs)[pm.current].state == Running)
    {
      hide Holds, SetState, SameButQueue, AddTo, Queued;
      ghost var before := pm.procs;
      SameReflexive(before);
      var current := pm.current;
      var next := Pop();
      if pm.procs[current].state == Running {
        StateHolds(Mem(), queue, current, Ready);
        pm.procs := SetState(pm.procs, current, Ready);
        ghost var ready := pm.procs;
        Add(current);
        SameChain(before, ready, pm.procs);
      }
      StateHolds(Mem(), queue, next, Running);
      SameChain(before, pm.procs, SetState(pm.procs, next, Running));
      pm.procs := SetState(pm.procs, next, Running);
    }

    /** `scheduler_yield`. */
    method Yield()
      requires Linked()
      modifies this, pm`procs
      ensures SameButQueue(old(pm.procs), pm.procs) && enabled == old(enabled)
      ensures pm.current == NULL || old(queue) == [] ==>
        queue == old(queue) && pm.procs == old(pm.procs) && ticks == old(ticks) && Linked()
      ensures pm.current != NULL && old(queue) != [] ==>
        var running := old(pm.procs)[pm.current].state == Running;
        && ticks == 20
        && queue == Switched(old(queue), pm.current, running)
        && HandsOver(old(pm.procs), pm.procs, old(queue)[0], pm.current)
        && (Linked() <==> !Closes(old(queue), pm.current, running))
      ensures pm.current != NULL && old(queue) != [] ==>
        var running := old(pm.procs)[pm.current].state == Running;
        && (!running ==> queue == old(queue)[1..])
        && (running && pm.current !in old(queue)[1..] ==> queue == old(queue)[1..] + [pm.current])
        && (running ==> forall k | 0 < k < |old(queue)| && old(queue)[k] == pm.current :: queue == old(queue)[1..k + 1])
        && old(queue)[0] in pm.procs && pm.procs[old(queue)[0]].state == Running
        && (running && pm.current != old(queue)[0] ==> pm.procs[pm.current].state == Ready)
        && (forall x | x in pm.procs && x != old(queue)[0] && !(running && x == pm.current) ::
              pm.procs[x].state == old(pm.procs)[x].state)
      ensures pm.current != NULL ==> pm.current in pm.procs && Now() == TurnStep(old(Now()), pm.current, false)
      ensures old(Valid()) ==> Valid()
    {
      hide Holds, Queued, SameButQueue, Switched, IsLast;
      HeldNext(Mem(), queue, 0);
      SameReflexive(pm.procs);
      if pm.current == NULL || head == NULL {
        return;
      }
      ticks := SCHEDULER_QUANTUM;
      HeldDistinct(Mem(), queue);
      SwitchedPlain(queue, pm.current, pm.procs[pm.current].state == Running);
      HeldLink(Mem(), queue, 0);
      Switch();
      SameKeys(old(pm.procs), pm.procs);
      SwitchReady(old(queue), queue, old(pm.procs), pm.procs, pm.current);
    }

    /** This tick switches: the quantum is used up, and another process heads the queue. */
    ghost predicate Expires()
      reads this, pm
    {
      enabled && ticks == 0 && pm.current != NULL && queue != [] && queue[0] != pm.current
    }

    /** `scheduler_tick`. */
    method Tick()
      requires Linked()
      modifies this, pm`procs
      ensures SameButQueue(old(pm.procs), pm.procs) && enabled == old(enabled)
      ensures ticks == if !enabled then old(ticks) else if old(ticks) > 0 then old(ticks) - 1 else 20
      ensures !old(Expires()) ==> queue == old(queue) && pm.procs == old(pm.procs) && Linked()
      ensures old(Expires()) ==>
        var running := old(pm.procs)[pm.current].state == Running;
        && queue == Switched(old(queue), pm.current, running)
        && HandsOver(old(pm.procs), pm.procs, old(queue)[0], pm.current)
        && (Linked() <==> !Closes(old(queue), pm.current, running))
      ensures enabled && old(ticks) == 0 && pm.current != NULL && old(queue) != [] && old(queue)[0] != pm.current ==>
        var running := old(pm.procs)[pm.current].state == Running;
        && (!running ==> queue == old(queue)[1..])
        && (running && pm.current !in old(queue)[1..] ==> queue == old(queue)[1..] + [pm.current])
        && (running ==> forall k | 0 < k < |old(queue)| && old(queue)[k] == pm.current :: queue == old(queue)[1..k + 1])
        && old(queue)[0] in pm.procs && pm.procs[old(queue)[0]].state == Running
        && (running && pm.current != old(queue)[0] ==> pm.procs[pm.current].state == Ready)
        && (forall x | x in pm.procs && x != old(queue)[0] && !(running && x == pm.current) ::
              pm.procs[x].state == old(pm.procs)[x].state)
      ensures !(enabled && old(ticks) == 0 && pm.current != NULL && old(queue) != [] && old(queue)[0] != pm.current) ==>
        queue == old(queue) && pm.procs == old(pm.procs)
      ensures pm.current != NULL ==>
        && pm.current in pm.procs
        && Now() == if enabled && old(ticks) == 0 then TurnStep(old(Now()), pm.current, true) else old(Now())
      ensures old(Valid()) ==> Valid()
    {
      hide Holds, Queued, SameButQueue, Switched, IsLast;
      SameReflexive(pm.procs);
      HeldNext(Mem(), queue, 0);
      if !enabled {
        return;
      }
      if ticks > 0 {
        ticks := ticks - 1;
        return;
      }
      ticks := SCHEDULER_QUANTUM;
      if pm.current == NULL || head == NULL || head == pm.current {
        return;
      }
      HeldDistinct(Mem(), queue);
      SwitchedPlain(queue, pm.current, pm.procs[pm.current].state == Running);
      HeldLink(Mem(), queue, 0);
      Switch();
      SameKeys(old(pm.procs), pm.procs);
      SwitchReady(old(queue), queue, old(pm.procs), pm.procs, pm.current);
    }

    /** `scheduler_block_current`, with exactly when the queue stays a list of READY processes. */
    method BlockCurrent(reason: ProcState)
      requires Valid()
      modifies this, pm`procs
      ensures SameButQueue(old(pm.procs), pm.procs)
      ensures pm.current == NULL ==> queue == old(queue) && pm.procs == old(pm.procs)
      ensures pm.current != NULL && old(queue) != [] ==> queue == Switched(old(queue), pm.current, reason == Running)
      ensures pm.current != NULL && old(queue) == [] ==>
        queue == [] && pm.procs == old(pm.procs)[pm.current := old(pm.procs)[pm.current].(state := reason)]
      ensures pm.current != NULL && old(queue) != [] ==>
        && (reason != Running ==> queue == old(queue)[1..])
        && (reason == Running && pm.current !in old(queue)[1..] ==> queue == old(queue)[1..] + [pm.current])
        && old(queue)[0] in pm.procs && pm.procs[old(queue)[0]].state == Running
        && (pm.current != old(queue)[0] ==>
              pm.current in pm.procs && pm.procs[pm.current].state == if reason == Running then Ready else reason)
        && (forall x | x in pm.procs && x != old(queue)[0] && x != pm.current ::
              pm.procs[x].state == old(pm.procs)[x].state)
      ensures Valid() <==> pm.current == NULL || StaysReady(old(queue), pm.current, reason)
    {
      hide Holds, SameButQueue, Queued, Switched;
      if pm.current == NULL {
        SameReflexive(pm.procs);
        return;
      }
      ghost var before := pm.procs;
      StateHolds(Mem(), queue, pm.current, reason);
      pm.procs := SetState(pm.procs, pm.current, reason);
      ghost var mid := pm.procs;
      HeldDistinct(Mem(), queue);
      Yield();
      SameChain(before, mid, pm.procs);
      if old(queue) != [] {
        BlockedReady(old(queue), before, mid, pm.procs, pm.current, reason);
      }
    }

    /** Any run of ticks (`true`) and yields takes its turns from the front of the queue: the processes
        other than current leave in order, and none is queued again. */
    method Run(calls: seq<bool>) returns (ghost turns: seq<bool>)
      requires Valid() && pm.current != NULL
      modifies this, pm`procs
      ensures Valid() && pm.current in pm.procs && |turns| <= |calls|
      ensures Now() == TurnRun(old(Now()), pm.current, turns)
      ensures exists k ::
        && 0 <= k <= |Others(old(queue), pm.current)|
        && Others(queue, pm.current) == Others(old(queue), pm.current)[k..]
    {
      hide Holds, Queued, SameButQueue, Switched, TurnStep, HandsOver;
      HeldDistinct(Mem(), queue);
      turns := [];
      for i := 0 to |calls|
        invariant Valid() && |turns| <= i
        invariant Now() == TurnRun(old(Now()), pm.current, turns)
      {
        TurnRunAppend(old(Now()), pm.current, turns, calls[i]);
        if calls[i] {
          if enabled && ticks == 0 {
            turns := turns + [true];
          }
          Tick();
        } else {
          turns := turns + [false];
          Yield();
        }
      }
      SwitchesDrain(old(Now()), pm.current, turns);
    }

    /** Is process `p` queued? */
    method Waits(p: u32) returns (waits: bool)
      requires Linked()
      ensures waits <==> p in queue
    {
      HeldNext(Mem(), queue, 0);
      if p == NULL || head == p {
        return p != NULL;
      }
      var prev, k := FindPrev(p);
      return prev != NULL;
    }

    /** One call. Callers add only READY processes, and neither add nor unblock one that is queued. */
    method Perform(call: QueueCall)
      requires Steady()
      modifies this, pm`procs
      ensures Steady() && SameButQueue(old(pm.procs), pm.procs)
      ensures old(Valid()) ==> Valid()
      ensures forall x | x in queue :: x in old(queue) || x == pm.current || call.Enters(x)
    {
      hide Holds, SameButQueue, AddTo, SetState;
      SameReflexive(pm.procs);
      HeldDistinct(Mem(), queue);
      match call
      case TickCall =>
        Turns(true);
        Tick();
      case YieldCall =>
        Turns(false);
        Yield();
      case AddCall(p) =>
        var waits := Waits(p);
        if p in pm.procs && p != NULL && pm.procs[p].state == Ready && !waits {
          QueuedNew(queue, p);
          Add(p);
        }
      case UnblockCall(p) =>
        var waits := Waits(p);
        if p in pm.procs && p != NULL && !waits {
          QueuedNew(queue, p);
          Unblock(p);
        }
      case RemoveCall(p) =>
        if p in pm.procs {
          Remove(p);
          HeldDistinct(Mem(), queue);
        }
    }

    /** A turn keeps a steady queue steady and closes no cycle. */
    lemma Turns(tick: bool)
      requires Steady()
      ensures pm.current != NULL && queue != [] ==> !Closes(queue, pm.current, Now().running)
      ensures pm.current != NULL ==> Sound(TurnStep(Now(), pm.current, tick), pm.current)
      ensures pm.current != NULL ==>
        forall x | x in TurnStep(Now(), pm.current, tick).queue :: x in queue || x == pm.current
    {
      if pm.current != NULL {
        TurnTakesOne(Now(), pm.current, tick);
      }
    }

    /** Every run of calls keeps a steady queue steady and a queue of READY processes one. Only added and
        unblocked processes and current enter it. */
    method RunCalls(calls: seq<QueueCall>)
      requires Steady()
      modifies this, pm`procs
      ensures Steady() && SameButQueue(old(pm.procs), pm.procs)
      ensures old(Valid()) ==> Valid()
      ensures forall x | x in queue :: x in old(queue) || x == pm.current || exists c :: c in calls && c.Enters(x)
    {
      hide Holds, SameButQueue, Sound, Linked, AllReady;
      SameReflexive(pm.procs);
      for i := 0 to |calls|
        invariant Steady() && SameButQueue(old(pm.procs), pm.procs) && (old(Valid()) ==> Valid())
        invariant forall x | x in queue :: x in old(queue) || x == pm.current || exists c :: c in calls && c.Enters(x)
      {
        assert calls[i] in calls;
        ghost var procs := pm.procs;
        Perform(calls[i]);
        SameChain(old(pm.procs), procs, pm.procs);
      }
    }

    /** A queue of READY processes is steady. */
    lemma ValidSteady()
      requires Valid()
      ensures Steady()
    {
      HeldDistinct(Mem(), queue);
    }
  }

  lemma HeldDistinct(l: Links, q: seq<u32>)
    requires Holds(l, q)
    ensures forall i, j | 0 <= i < j < |q| :: q[i] != q[j]
  {
  }

  lemma ClearHolds(l: Links, q: seq<u32>, p: u32)
    requires Holds(l, q) && p in l.procs && p !in q
    ensures Holds(l.(procs := SetNext(l.procs, p, NULL)), q)
  {
  }

  /** A switch keeps every member READY, and never closes a cycle among READY processes. */
  lemma SwitchReady(q: seq<u32>, q': seq<u32>, procs: map<u32, Process>, procs': map<u32, Process>, current: u32)
    requires q != [] && procs.Keys == procs'.Keys && current in procs
    requires q' == Switched(q, current, procs[current].state == Running)
    requires forall i, j | 0 <= i < j < |q| :: q[i] != q[j]
    requires HandsOver(procs, procs', q[0], current)
    ensures AllReady(procs, q) ==> AllReady(procs', q') && !Closes(q, current, procs[current].state == Running)
  {
    if AllReady(procs, q) {
      forall p | p in q' ensures p in procs' && procs'[p].state == Ready {
        if p in q[1..] {
          var i :| 0 <= i < |q[1..]| && q[1..][i] == p;
          assert p == q[i + 1] && p in q;
        } else {
          assert q[0] in q;
        }
      }
    }
  }

  /** `BlockCurrent` on a queue of READY processes, in values. */
  lemma BlockedReady(q: seq<u32>, procs: map<u32, Process>, mid: map<u32, Process>, procs': map<u32, Process>,
                     current: u32, reason: ProcState)
    requires q != [] && current in procs && procs.Keys == mid.Keys == procs'.Keys && AllReady(procs, q)
    requires forall x | x in procs :: mid[x].state == if x == current then reason else procs[x].state
    requires forall i, j | 0 <= i < j < |q| :: q[i] != q[j]
    requires HandsOver(mid, procs', q[0], current)
    ensures StaysReady(q, current, reason) <==>
      AllReady(procs', Switched(q, current, reason == Running)) && !Closes(q, current, reason == Running)
  {
    hide Queued;
    var q' := Switched(q, current, reason == Running);
    assert forall x | x in q[1..] :: x in q && x != q[0];
    assert current in q ==> current == q[0] || current in q[1..];
  }

  // ------------------------------------------------- what a run of switches does

  /** The queued processes other than current, in order. */
  function Others(q: seq<u32>, current: u32): seq<u32> {
    if q == [] then [] else (if q[0] == current then [] else [q[0]]) + Others(q[1..], current)
  }

  /** Blocking current while it waits second in the queue leaves it there, no longer READY. */
  lemma BlockingStrands(procs: map<u32, Process>, mid: map<u32, Process>, procs': map<u32, Process>, a: u32, b: u32)
    requires a != b && {a, b} <= procs.Keys && procs.Keys == mid.Keys == procs'.Keys && AllReady(procs, [a, b])
    requires forall x | x in procs :: mid[x].state == if x == b then Blocked else procs[x].state
    requires HandsOver(mid, procs', a, b)
    ensures Switched([a, b], b, false) == [b] && procs'[b].state == Blocked && !AllReady(procs', [b])
    ensures !StaysReady([a, b], b, Blocked)
  {
    assert [a, b][1..] == [b];
    assert b in [b];
  }

  lemma {:induction false} OthersAppend(q: seq<u32>, current: u32)
    ensures Others(q + [current], current) == Others(q, current)
  {
    if q == [] {
      assert Others([current], current) == Others([current][1..], current);
    } else {
      OthersAppend(q[1..], current);
      assert (q + [current])[1..] == q[1..] + [current];
    }
  }

  /** Queued processes are distinct, and a running current is not queued. */
  predicate Sound(t: Turn, current: u32) {
    (forall i, j | 0 <= i < j < |t.queue| :: t.queue[i] != t.queue[j]) && (t.running ==> current !in t.queue)
  }

  /** One switch keeps that, and takes at most one process other than current off the front. */
  lemma TurnTakesOne(t: Turn, current: u32, tick: bool)
    requires Sound(t, current)
    ensures var t' := TurnStep(t, current, tick);
      var o, o' := Others(t.queue, current), Others(t'.queue, current);
      Sound(t', current) && (o' == o || (o != [] && o' == o[1..]))
  {
    if t.queue != [] && t.running {
      QueuedNew(t.queue[1..], current);
      OthersAppend(t.queue[1..], current);
    }
  }

  /** Because the switched-in process never becomes current, a run of ticks and yields only ever
      takes other processes off the front: none is requeued, and each runs at most once. */
  lemma {:induction false} SwitchesDrain(t: Turn, current: u32, ticks: seq<bool>)
    requires Sound(t, current)
    ensures exists k ::
      && 0 <= k <= |Others(t.queue, current)|
      && Others(TurnRun(t, current, ticks).queue, current) == Others(t.queue, current)[k..]
    decreases ticks
  {
    var o := Others(t.queue, current);
    if ticks == [] {
      assert o[0..] == o;
    } else {
      var t' := TurnStep(t, current, ticks[0]);
      var o' := Others(t'.queue, current);
      TurnTakesOne(t, current, ticks[0]);
      SwitchesDrain(t', current, ticks[1..]);
      var k :| 0 <= k <= |o'| && Others(TurnRun(t, current, ticks).queue, current) == o'[k..];
      if o' != o {
        assert o[1..][k..] == o[k + 1..];
      }
    }
  }
}
