// The preemptive scheduler as a state machine: each call of its interface by the running thread, and
// each timer tick, is one step. What holds in every state of every run is proved here.
module SchedulerModel {
  const KTHREAD_MAX: nat := 32
  const CLEANUP_POOL_MAX: nat := 32
  const SCHED_INTERVAL: nat := 10

  datatype ThreadState = Unused | Ready | Running | Sleeping | Zombie

  /** A thread control block; stack is 0 for NULL. */
  datatype Tcb = Tcb(state: ThreadState, stack: nat, stackSize: nat, esp: nat, sleepUntil: nat)

  /** A stack waiting in the cleanup pool to be freed, and the slot that goes with it. */
  datatype Entry = Entry(stack: nat, tid: nat)

  /** inUse holds the stacks obtained from kmalloc and not yet given to kfree. */
  datatype State = State(threads: seq<Tcb>, current: nat, counter: nat, tick: nat, pool: seq<Entry>, inUse: set<nat>)

  datatype Event =
    | Create(stack: nat, stackSize: nat, esp: nat)   // kcreate_thread, with what kmalloc returned
    | Exit                                           // kthread_exit
    | Sleep(ms: nat)                                 // kthread_sleep
    | ExitProcess(tids: seq<nat>)                    // kprocess_exit, with the process's thread list
    | Tick(esp: nat)                                 // the timer interrupt

  const EMPTY: Tcb := Tcb(Unused, 0, 0, 0, 0)

  function Initial(tick: nat): State {
    State(seq(KTHREAD_MAX, i => if i == 0 then Tcb(Running, 0, 0, 0, 0) else EMPTY), 0, 0, tick, [], {})
  }

  // ---- The calls

  /** The first unused slot at or after i, or KTHREAD_MAX. */
  function FreeSlot(threads: seq<Tcb>, i: nat): (r: nat)
    requires i <= |threads|
    ensures i <= r <= |threads| && (r < |threads| ==> threads[r].state.Unused?)
    ensures forall j :: i <= j < r ==> !threads[j].state.Unused?
    decreases |threads| - i
  {
    if i == |threads| || threads[i].state.Unused? then i else FreeSlot(threads, i + 1)
  }

  function Created(s: State, stack: nat, stackSize: nat, esp: nat): State {
    var slot := FreeSlot(s.threads, 0);
    if slot == |s.threads| || stack == 0 then s
    else s.(threads := s.threads[slot := Tcb(Ready, stack, stackSize, esp, 0)], inUse := s.inUse + {stack})
  }

  /** A thread made a zombie, its stack moved to the cleanup pool if there is one and there is room. */
  function Killed(s: State, tid: nat): State
    requires tid < |s.threads|
  {
    var t := s.threads[tid].(state := Zombie);
    if t.stack != 0 && |s.pool| < CLEANUP_POOL_MAX then
      s.(threads := s.threads[tid := t.(stack := 0)], pool := s.pool + [Entry(t.stack, tid)])
    else s.(threads := s.threads[tid := t])
  }

  /** kprocess_exit over the list, which may be stale, repeat itself or hold numbers out of range. */
  function AllKilled(s: State, tids: seq<nat>): State
    decreases |tids|
  {
    if tids == [] then s
    else
      var tid := tids[0];
      if tid >= |s.threads| || s.threads[tid].state.Unused? then AllKilled(s, tids[1..])
      else AllKilled(Killed(s, tid), tids[1..])
  }

  function Slept(s: State, ms: nat): State
    requires s.current < |s.threads|
  {
    if ms == 0 then s
    else s.(threads := s.threads[s.current := s.threads[s.current].(state := Sleeping, sleepUntil := s.tick + ms)])
  }

  // ---- The tick

  function Woken(t: Tcb, tick: nat): Tcb {
    if t.state.Sleeping? && tick >= t.sleepUntil then t.(state := Ready) else t
  }

  function AllWoken(threads: seq<Tcb>, tick: nat): (r: seq<Tcb>)
    ensures |r| == |threads| && forall i :: 0 <= i < |r| ==> r[i] == Woken(threads[i], tick)
  {
    seq(|threads|, i requires 0 <= i < |threads| => Woken(threads[i], tick))
  }

  predicate Runnable(t: Tcb) { t.state.Ready? || t.state.Running? }

  /** The slot k places behind slot i, in a circle. */
  function Slot(i: nat, k: nat): nat {
    (i + k) % KTHREAD_MAX
  }

  lemma SlotZero(i: nat)
    requires i < KTHREAD_MAX
    ensures Slot(i, 0) == i
  {
  }

  lemma HopsStep(threads: seq<Tcb>, current: nat, k: nat)
    requires |threads| == KTHREAD_MAX && k <= KTHREAD_MAX
    ensures Hops(threads, current, k) == if Runnable(threads[Slot(current, k)]) then k else Hops(threads, current, k + 1)
  {
  }

  lemma HopsEnd(threads: seq<Tcb>, current: nat)
    requires |threads| == KTHREAD_MAX
    ensures Hops(threads, current, KTHREAD_MAX + 1) == KTHREAD_MAX + 1
  {
  }

  lemma SlotIs(i: nat, k: nat)
    requires i < KTHREAD_MAX && i + k < 2 * KTHREAD_MAX + 1
    ensures Slot(i, k) == if i + k < KTHREAD_MAX then i + k else if i + k < 2 * KTHREAD_MAX then i + k - KTHREAD_MAX else 0
  {
  }

  lemma SlotNext(i: nat, k: nat)
    ensures Slot(i, k + 1) == (Slot(i, k) + 1) % KTHREAD_MAX && Slot(i, k) < KTHREAD_MAX
  {
  }

  /** The number of places from current to the next runnable slot, from k on; beyond KTHREAD_MAX if there is none. */
  function Hops(threads: seq<Tcb>, current: nat, k: nat): (r: nat)
    requires |threads| == KTHREAD_MAX && k <= KTHREAD_MAX + 1
    ensures k <= r <= KTHREAD_MAX + 1 && (r <= KTHREAD_MAX ==> Runnable(threads[Slot(current, r)]))
    ensures forall j :: k <= j < r ==> !Runnable(threads[Slot(current, j)])
    decreases KTHREAD_MAX + 1 - k
  {
    if k == KTHREAD_MAX + 1 || Runnable(threads[Slot(current, k)]) then k else Hops(threads, current, k + 1)
  }

  /** cleanup_dead_threads: every pooled stack is freed and its slot reset, but for the slot skip. */
  function Cleaned(s: State, skip: nat): State {
    s.(threads := seq(|s.threads|, i requires 0 <= i < |s.threads| => if i != skip && Pooled(s.pool, i) then Reset(s.threads[i]) else s.threads[i]),
       pool := Kept(s.pool, skip), inUse := s.inUse - Freed(s.pool, skip))
  }

  function Reset(t: Tcb): Tcb { Tcb(Unused, 0, 0, 0, t.sleepUntil) }

  predicate Pooled(pool: seq<Entry>, tid: nat) {
    exists i :: 0 <= i < |pool| && pool[i].tid == tid
  }

  function Kept(pool: seq<Entry>, skip: nat): seq<Entry>
    decreases |pool|
  {
    if pool == [] then []
    else Kept(pool[..|pool| - 1], skip) + if pool[|pool| - 1].tid == skip then [pool[|pool| - 1]] else []
  }

  function Freed(pool: seq<Entry>, skip: nat): set<nat> {
    set i | 0 <= i < |pool| && pool[i].tid != skip :: pool[i].stack
  }

  /** The threads after the choice of slot next: it runs, and the thread it replaces is ready again. */
  function Switched(threads: seq<Tcb>, current: nat, next: nat): (r: seq<Tcb>)
    requires current < |threads| && next < |threads|
    ensures |r| == |threads|
  {
    var t := if next != current && threads[current].state.Running? then threads[current := threads[current].(state := Ready)] else threads;
    t[next := t[next].(state := Running)]
  }

  /** The state a scheduling round goes through before the cleanup. */
  function Chosen(s: State, esp: nat): State
    requires |s.threads| == KTHREAD_MAX && s.current < KTHREAD_MAX
  {
    var woken := AllWoken(s.threads, s.tick + 1);
    var threads := woken[s.current := woken[s.current].(esp := esp)];
    var k := Hops(threads, s.current, 1);
    var t := s.(tick := s.tick + 1, counter := 0);
    if k > KTHREAD_MAX then t.(threads := threads)
    else t.(threads := Switched(threads, s.current, Slot(s.current, k)), current := Slot(s.current, k))
  }

  predicate IsRound(s: State) { s.counter + 1 >= SCHED_INTERVAL }

  function Ticked(s: State, esp: nat): State
    requires |s.threads| == KTHREAD_MAX && s.current < KTHREAD_MAX
  {
    if !IsRound(s) then s.(tick := s.tick + 1, counter := s.counter + 1)
    else Cleaned(Chosen(s, esp), s.current)
  }

  function Next(s: State, e: Event): State
    requires |s.threads| == KTHREAD_MAX && s.current < KTHREAD_MAX
  {
    match e
    case Create(stack, stackSize, esp) => Created(s, stack, stackSize, esp)
    case Exit => Killed(s, s.current)
    case Sleep(ms) => Slept(s, ms)
    case ExitProcess(tids) => AllKilled(s, tids)
    case Tick(esp) => Ticked(s, esp)
  }

  /** Calls are made by a thread that is running; kmalloc returns NULL or memory that is not in use. */
  predicate CanHappen(s: State, e: Event)
    requires s.current < |s.threads|
  {
    (e.Tick? || s.threads[s.current].state.Running?) && (e.Create? ==> e.stack !in s.inUse)
  }

  // ---- The invariant

  /** At most the current thread is running, and it is not on the ready list. */
  ghost predicate StatesOk(s: State) {
    && |s.threads| == KTHREAD_MAX && s.current < KTHREAD_MAX && s.counter < SCHED_INTERVAL
    && (forall i :: 0 <= i < KTHREAD_MAX && s.threads[i].state.Running? ==> i == s.current)
    && !s.threads[s.current].state.Ready? && !s.threads[s.current].state.Unused?
  }

  /** A zombie or an unused slot holds no stack. */
  ghost predicate TcbOk(t: Tcb) {
    t.state.Zombie? || t.state.Unused? ==> t.stack == 0
  }

  /** A pooled stack belongs to a zombie. */
  ghost predicate EntryOk(threads: seq<Tcb>, e: Entry) {
    e.stack != 0 && e.tid < |threads| && threads[e.tid].state.Zombie?
  }

  ghost predicate PoolOk(threads: seq<Tcb>, pool: seq<Entry>) {
    && (forall t :: 0 <= t < |threads| ==> TcbOk(threads[t]))
    && (forall i :: 0 <= i < |pool| ==> EntryOk(threads, pool[i]))
    && forall i, j :: 0 <= i < j < |pool| ==> pool[i].tid != pool[j].tid
  }

  /** No stack has two owners. */
  ghost predicate OwnersOk(threads: seq<Tcb>, pool: seq<Entry>) {
    && (forall i, j :: 0 <= i < j < |threads| && threads[i].stack != 0 ==> threads[i].stack != threads[j].stack)
    && (forall i, j :: 0 <= i < j < |pool| ==> pool[i].stack != pool[j].stack)
    && forall i, j :: 0 <= i < |threads| && 0 <= j < |pool| ==> threads[i].stack != pool[j].stack
  }

  /** The stacks that a control block or the pool still knows. */
  function Owned(threads: seq<Tcb>, pool: seq<Entry>): set<nat> {
    ThreadStacks(threads) + PoolStacks(pool)
  }

  function ThreadStacks(threads: seq<Tcb>): set<nat> {
    set i | 0 <= i < |threads| && threads[i].stack != 0 :: threads[i].stack
  }

  function PoolStacks(pool: seq<Entry>): set<nat> {
    set i | 0 <= i < |pool| :: pool[i].stack
  }

  /** A thread that sleeps was not due at the last round. */
  ghost predicate SleepOk(s: State) {
    s.counter <= s.tick && forall i :: 0 <= i < |s.threads| && s.threads[i].state.Sleeping? ==> s.tick - s.counter < s.threads[i].sleepUntil
  }

  ghost predicate Ok(s: State) {
    && StatesOk(s) && PoolOk(s.threads, s.pool) && OwnersOk(s.threads, s.pool)
    && s.inUse == Owned(s.threads, s.pool) && SleepOk(s)
  }

  lemma InitialOk(tick: nat)
    ensures Ok(Initial(tick))
  {
  }

  // ---- The pool is never full when a stack has to go there

  lemma {:induction false} TidsAreFew(pool: seq<Entry>, bound: nat)
    requires forall i :: 0 <= i < |pool| ==> pool[i].tid < bound
    requires forall i, j :: 0 <= i < j < |pool| ==> pool[i].tid != pool[j].tid
    ensures |pool| <= bound
  {
    var tids := set i | 0 <= i < |pool| :: pool[i].tid;
    DistinctTids(pool, |pool|);
    assert pool[..|pool|] == pool;
    BelowIsSmall(tids, bound);
  }

  lemma {:induction false} DistinctTids(pool: seq<Entry>, n: nat)
    requires n <= |pool| && forall i, j :: 0 <= i < j < |pool| ==> pool[i].tid != pool[j].tid
    ensures |set i | 0 <= i < n :: pool[i].tid| == n
  {
    if n > 0 {
      DistinctTids(pool, n - 1);
      var before := set i | 0 <= i < n - 1 :: pool[i].tid;
      assert (set i | 0 <= i < n :: pool[i].tid) == before + {pool[n - 1].tid};
    }
  }

  lemma {:induction false} BelowIsSmall(s: set<nat>, bound: nat)
    requires forall x :: x in s ==> x < bound
    ensures |s| <= bound
  {
    if bound == 0 {
      assert s == {};
    } else {
      BelowIsSmall(s - {bound - 1}, bound - 1);
      assert |s| <= |s - {bound - 1}| + 1;
    }
  }

  /** So the pool-full branches of the two exits never lose a stack. */
  lemma RoomInPool(threads: seq<Tcb>, pool: seq<Entry>, tid: nat)
    requires |threads| == KTHREAD_MAX && PoolOk(threads, pool) && tid < KTHREAD_MAX && threads[tid].stack != 0
    ensures |pool| < CLEANUP_POOL_MAX
  {
    var more := pool + [Entry(threads[tid].stack, tid)];
    assert TcbOk(threads[tid]);
    forall i | 0 <= i < |pool|
      ensures pool[i].tid < KTHREAD_MAX && pool[i].tid != tid
    {
      assert EntryOk(threads, pool[i]);
    }
    TidsAreFew(more, KTHREAD_MAX);
  }

  // ---- Every step keeps the invariant

  lemma KilledKeepsOk(s: State, tid: nat)
    requires Ok(s) && tid < KTHREAD_MAX && !s.threads[tid].state.Unused?
    ensures Ok(Killed(s, tid)) && Killed(s, tid).inUse == s.inUse
  {
    var t := s.threads[tid];
    assert TcbOk(t);
    if t.stack != 0 {
      RoomInPool(s.threads, s.pool, tid);
    }
    var r := Killed(s, tid);
    forall i | 0 <= i < |r.pool|
      ensures EntryOk(r.threads, r.pool[i])
    {
      assert i < |s.pool| ==> EntryOk(s.threads, s.pool[i]);
    }
    forall i | 0 <= i < |r.threads|
      ensures TcbOk(r.threads[i])
    {
      assert TcbOk(s.threads[i]);
    }
    forall i, j | 0 <= i < j < |r.pool|
      ensures r.pool[i].tid != r.pool[j].tid
    {
      assert EntryOk(s.threads, s.pool[i]);
    }
    KilledOwners(s, tid);
  }

  lemma KilledOwners(s: State, tid: nat)
    requires Ok(s) && tid < KTHREAD_MAX && (s.threads[tid].stack != 0 ==> |s.pool| < CLEANUP_POOL_MAX)
    ensures var r := Killed(s, tid);
      OwnersOk(r.threads, r.pool) && Owned(r.threads, r.pool) == s.inUse
  {
    hide SleepOk;
    var r, t := Killed(s, tid), s.threads[tid];
    if t.stack == 0 {
      assert forall i :: 0 <= i < |r.threads| ==> r.threads[i].stack == s.threads[i].stack;
      assert ThreadStacks(r.threads) == ThreadStacks(s.threads);
    } else {
      ReplaceStack(s.threads, tid, t.(state := Zombie, stack := 0));
      AddEntry(s.pool, Entry(t.stack, tid));
      assert s.threads[tid].stack in ThreadStacks(s.threads);
      forall i | 0 <= i < |s.pool|
        ensures s.pool[i].stack != 0
      {
        assert EntryOk(s.threads, s.pool[i]);
      }
    }
  }

  /** A control block that gives up its stack, or gets one. */
  lemma ReplaceStack(threads: seq<Tcb>, i: nat, t: Tcb)
    requires i < |threads| && forall j, k :: 0 <= j < k < |threads| && threads[j].stack != 0 ==> threads[j].stack != threads[k].stack
    ensures ThreadStacks(threads[i := t]) == ThreadStacks(threads) - {threads[i].stack} + if t.stack == 0 then {} else {t.stack}
  {
    var r := threads[i := t];
    forall x | x in ThreadStacks(threads) && x != threads[i].stack
      ensures x in ThreadStacks(r)
    {
      var j :| 0 <= j < |threads| && threads[j].stack == x && x != 0;
      assert r[j].stack == x;
    }
    assert t.stack != 0 ==> r[i].stack == t.stack;
  }

  lemma AddEntry(pool: seq<Entry>, e: Entry)
    ensures PoolStacks(pool + [e]) == PoolStacks(pool) + {e.stack}
  {
    var r := pool + [e];
    forall x | x in PoolStacks(pool)
      ensures x in PoolStacks(r)
    {
      var j :| 0 <= j < |pool| && pool[j].stack == x;
      assert r[j].stack == x;
    }
    assert r[|pool|].stack == e.stack;
  }

  lemma {:induction false} AllKilledKeepsOk(s: State, tids: seq<nat>)
    requires Ok(s)
    ensures Ok(AllKilled(s, tids)) && AllKilled(s, tids).inUse == s.inUse
    decreases |tids|
  {
    if tids != [] {
      var tid := tids[0];
      if tid >= |s.threads| || s.threads[tid].state.Unused? {
        AllKilledKeepsOk(s, tids[1..]);
      } else {
        KilledKeepsOk(s, tid);
        AllKilledKeepsOk(Killed(s, tid), tids[1..]);
      }
    }
  }

  lemma CreatedKeepsOk(s: State, stack: nat, stackSize: nat, esp: nat)
    requires Ok(s) && stack !in s.inUse
    ensures Ok(Created(s, stack, stackSize, esp))
  {
    var slot, r := FreeSlot(s.threads, 0), Created(s, stack, stackSize, esp);
    if slot < |s.threads| && stack != 0 {
      assert TcbOk(s.threads[slot]);
      forall i | 0 <= i < |r.threads|
        ensures TcbOk(r.threads[i])
      {
        assert TcbOk(s.threads[i]);
      }
      forall i | 0 <= i < |r.pool|
        ensures EntryOk(r.threads, r.pool[i])
      {
        assert EntryOk(s.threads, s.pool[i]);
      }
      CreatedOwners(s, slot, Tcb(Ready, stack, stackSize, esp, 0));
    }
  }

  lemma CreatedOwners(s: State, slot: nat, t: Tcb)
    requires Ok(s) && slot < |s.threads| && s.threads[slot].stack == 0 && t.stack != 0 && t.stack !in s.inUse
    ensures var r := s.threads[slot := t];
      OwnersOk(r, s.pool) && Owned(r, s.pool) == s.inUse + {t.stack}
  {
    hide PoolOk, StatesOk, SleepOk;
    ReplaceStack(s.threads, slot, t);
    assert forall i :: 0 <= i < |s.threads| && s.threads[i].stack != 0 ==> s.threads[i].stack in ThreadStacks(s.threads);
    assert forall i :: 0 <= i < |s.pool| ==> s.pool[i].stack in PoolStacks(s.pool);
    assert 0 !in ThreadStacks(s.threads);
  }

  lemma SleptKeepsOk(s: State, ms: nat)
    requires Ok(s) && s.threads[s.current].state.Running?
    ensures Ok(Slept(s, ms))
  {
    if ms > 0 {
      SameStacks(s, Slept(s, ms));
    }
  }

  /** Steps that neither move a stack nor touch a zombie or an unused slot. */
  lemma SameStacks(s: State, r: State)
    requires Ok(s) && |r.threads| == KTHREAD_MAX && r.pool == s.pool && r.inUse == s.inUse
    requires forall i :: 0 <= i < KTHREAD_MAX ==> SameStack(s.threads[i], r.threads[i])
    ensures PoolOk(r.threads, r.pool) && OwnersOk(r.threads, r.pool) && r.inUse == Owned(r.threads, r.pool)
  {
    hide SleepOk;
    forall i | 0 <= i < |r.threads|
      ensures TcbOk(r.threads[i])
    {
      assert TcbOk(s.threads[i]) && SameStack(s.threads[i], r.threads[i]);
    }
    forall i | 0 <= i < |r.pool|
      ensures EntryOk(r.threads, r.pool[i])
    {
      assert EntryOk(s.threads, s.pool[i]) && SameStack(s.threads[s.pool[i].tid], r.threads[s.pool[i].tid]);
    }
    assert forall i :: 0 <= i < KTHREAD_MAX ==> SameStack(s.threads[i], r.threads[i]) && r.threads[i].stack == s.threads[i].stack;
    assert Owned(r.threads, r.pool) == Owned(s.threads, s.pool);
  }

  ghost predicate SameStack(t: Tcb, r: Tcb) {
    r.stack == t.stack && (r.state.Zombie? <==> t.state.Zombie?) && (r.state.Unused? <==> t.state.Unused?)
  }

  // ---- Rounds

  lemma ChosenKeepsOk(s: State, esp: nat)
    requires Ok(s)
    ensures Ok(Chosen(s, esp))
  {
    var r := Chosen(s, esp);
    ChosenIs(s, esp);
    SameStacks(s, r);
    assert SleepOk(r) by {
      forall i | 0 <= i < |r.threads| && r.threads[i].state.Sleeping?
        ensures r.tick - r.counter < r.threads[i].sleepUntil
      {
        ChosenThread(s, esp, i);
      }
    }
  }

  /** The places of the circle, reached from slot i. */
  lemma SlotsCover(i: nat, j: nat)
    requires i < KTHREAD_MAX && j < KTHREAD_MAX
    ensures var k := Distance(i, j); 1 <= k <= KTHREAD_MAX && Slot(i, k) == j
  {
  }

  /** The number of places from slot i forward to slot j, a full circle from i to itself. */
  function Distance(i: nat, j: nat): nat
    requires i < KTHREAD_MAX && j < KTHREAD_MAX
  {
    if i < j then j - i else j + KTHREAD_MAX - i
  }

  /** What a round makes of one thread before the cleanup. */
  lemma ChosenThread(s: State, esp: nat, i: nat)
    requires |s.threads| == KTHREAD_MAX && s.current < KTHREAD_MAX && i < KTHREAD_MAX
    ensures var r := Chosen(s, esp);
      var t, t' := s.threads[i], r.threads[i];
      && |r.threads| == KTHREAD_MAX && r.current < KTHREAD_MAX
      && t'.stack == t.stack && t'.sleepUntil == t.sleepUntil && t'.esp == (if i == s.current then esp else t.esp)
      && (t.state.Zombie? <==> t'.state.Zombie?) && (t.state.Unused? <==> t'.state.Unused?)
      && (t'.state.Sleeping? <==> t.state.Sleeping? && s.tick + 1 < t.sleepUntil)
      && (i == r.current && t'.state.Running? ==> Runnable(Woken(t, s.tick + 1)))
      && (i != r.current && i != s.current ==> t'.state == Woken(t, s.tick + 1).state)
      && (i != r.current && i == s.current ==> !t'.state.Running?)
  {
  }

  /** The slot a round chooses, and who runs afterwards. */
  lemma ChosenIs(s: State, esp: nat)
    requires Ok(s)
    ensures var r := Chosen(s, esp);
      && StatesOk(r) && r.pool == s.pool && r.inUse == s.inUse
      && (forall i :: 0 <= i < KTHREAD_MAX ==> SameStack(s.threads[i], r.threads[i]))
      && (r.current != s.current ==> r.threads[r.current].state.Running?)
  {
    var r := Chosen(s, esp);
    forall i | 0 <= i < KTHREAD_MAX
      ensures SameStack(s.threads[i], r.threads[i])
    {
      ChosenThread(s, esp, i);
    }
    var woken := AllWoken(s.threads, s.tick + 1);
    var threads := woken[s.current := woken[s.current].(esp := esp)];
    SlotsCover(s.current, s.current);
    assert Slot(s.current, KTHREAD_MAX) == s.current;
    forall i | 0 <= i < KTHREAD_MAX && r.threads[i].state.Running?
      ensures i == r.current
    {
      ChosenThread(s, esp, i);
    }
  }

  // ---- The cleanup

  lemma {:induction false} KeptIs(pool: seq<Entry>, skip: nat)
    requires forall i, j :: 0 <= i < j < |pool| ==> pool[i].tid != pool[j].tid
    ensures |Kept(pool, skip)| <= 1
    ensures |Kept(pool, skip)| == 1 ==> Kept(pool, skip)[0].tid == skip && Kept(pool, skip)[0] in pool
    ensures forall i :: 0 <= i < |pool| && pool[i].tid == skip ==> Kept(pool, skip) == [pool[i]]
    decreases |pool|
  {
    if pool != [] {
      var last := |pool| - 1;
      KeptIs(pool[..last], skip);
    }
  }

  /** What the cleanup makes of one thread: a pooled one has no stack left to lose. */
  lemma CleanedThread(s: State, skip: nat, i: nat)
    requires |s.threads| == KTHREAD_MAX && PoolOk(s.threads, s.pool) && i < KTHREAD_MAX
    ensures var t, t' := s.threads[i], Cleaned(s, skip).threads[i];
      && t'.stack == t.stack && TcbOk(t')
      && if t.state.Zombie? && i != skip && Pooled(s.pool, i) then t'.state.Unused? else t' == t
  {
    assert TcbOk(s.threads[i]);
    if Pooled(s.pool, i) {
      var j :| 0 <= j < |s.pool| && s.pool[j].tid == i;
      assert EntryOk(s.threads, s.pool[j]);
    }
  }

  lemma CleanedKeepsOk(s: State, skip: nat)
    requires Ok(s) && skip < KTHREAD_MAX && (s.current != skip ==> s.threads[s.current].state.Running?)
    ensures Ok(Cleaned(s, skip))
  {
    hide OwnersOk, TcbOk, Pooled, Freed, Kept, Owned, Reset;
    var r := Cleaned(s, skip);
    KeptIs(s.pool, skip);
    forall i | 0 <= i < KTHREAD_MAX
      ensures r.threads[i].stack == s.threads[i].stack && TcbOk(r.threads[i])
      ensures r.threads[i] == s.threads[i] || (s.threads[i].state.Zombie? && i != skip && r.threads[i].state.Unused?)
    {
      CleanedThread(s, skip, i);
    }
    forall i | 0 <= i < |r.pool|
      ensures EntryOk(r.threads, r.pool[i])
    {
      var j :| 0 <= j < |s.pool| && s.pool[j] == r.pool[i];
      assert EntryOk(s.threads, s.pool[j]);
    }
    CleanedOwners(s, skip);
  }

  lemma CleanedOwners(s: State, skip: nat)
    requires Ok(s) && skip < KTHREAD_MAX && |Cleaned(s, skip).threads| == KTHREAD_MAX
    requires forall i :: 0 <= i < KTHREAD_MAX ==> Cleaned(s, skip).threads[i].stack == s.threads[i].stack
    ensures var r := Cleaned(s, skip);
      OwnersOk(r.threads, r.pool) && r.inUse == Owned(r.threads, r.pool)
  {
    hide SleepOk;
    var r := Cleaned(s, skip);
    KeptIs(s.pool, skip);
    KeptStacks(s.pool, skip);
    assert forall i :: 0 <= i < |r.pool| ==> r.pool[i] in s.pool;
    assert ThreadStacks(r.threads) == ThreadStacks(s.threads);
    assert ThreadStacks(s.threads) !! Freed(s.pool, skip);
  }

  lemma KeptStacks(pool: seq<Entry>, skip: nat)
    requires forall i, j :: 0 <= i < j < |pool| ==> pool[i].tid != pool[j].tid && pool[i].stack != pool[j].stack
    ensures PoolStacks(Kept(pool, skip)) == PoolStacks(pool) - Freed(pool, skip)
  {
    KeptIs(pool, skip);
    var kept := Kept(pool, skip);
    forall x | x in PoolStacks(pool)
      ensures x in PoolStacks(kept) <==> x !in Freed(pool, skip)
    {
      var i :| 0 <= i < |pool| && pool[i].stack == x;
      if pool[i].tid == skip {
        assert kept[0].stack == x;
      }
    }
  }

  // ---- The cleanup, entry by entry

  lemma CleanupStart(pool: seq<Entry>, skip: nat)
    ensures Kept(pool[..0], skip) == [] && Freed(pool[..0], skip) == {} && forall t :: !Pooled(pool[..0], t)
  {
  }

  lemma CleanupStep(s: State, skip: nat, i: nat)
    requires Ok(s) && i < |s.pool|
    ensures var before, after, e := s.pool[..i], s.pool[..i + 1], s.pool[i];
      && Kept(after, skip) == Kept(before, skip) + (if e.tid == skip then [e] else [])
      && Freed(after, skip) == Freed(before, skip) + (if e.tid == skip then {} else {e.stack})
      && (forall t :: Pooled(after, t) <==> Pooled(before, t) || t == e.tid)
      && e.tid < KTHREAD_MAX && e.stack in s.inUse && e.stack !in Freed(before, skip)
  {
    hide SleepOk;
    var before, after, e := s.pool[..i], s.pool[..i + 1], s.pool[i];
    assert EntryOk(s.threads, e) && e.stack in PoolStacks(s.pool);
    assert after[..i] == before && after[i] == e;
    forall x
      ensures x in Freed(after, skip) <==> x in Freed(before, skip) || (e.tid != skip && x == e.stack)
    {
      if x in Freed(before, skip) {
        var j :| 0 <= j < i && before[j].tid != skip && before[j].stack == x;
        assert after[j] == before[j];
      }
    }
    forall t
      ensures Pooled(after, t) <==> Pooled(before, t) || t == e.tid
    {
      if Pooled(before, t) {
        var j :| 0 <= j < i && before[j].tid == t;
        assert after[j] == before[j];
      }
    }
  }

  lemma StatesOf(s: State)
    requires Ok(s)
    ensures StatesOk(s)
  {
  }

  lemma CleanedRunner(s: State, skip: nat)
    requires Ok(s) && s.threads[s.current].state.Running?
    ensures Cleaned(s, skip).threads[s.current] == s.threads[s.current]
  {
    CleanedThread(s, skip, s.current);
  }

  lemma TickedKeepsOk(s: State, esp: nat)
    requires Ok(s)
    ensures Ok(Ticked(s, esp))
  {
    if IsRound(s) {
      ChosenKeepsOk(s, esp);
      ChosenIs(s, esp);
      CleanedKeepsOk(Chosen(s, esp), s.current);
    }
  }

  /** The invariant of every run. */
  lemma NextKeepsOk(s: State, e: Event)
    requires Ok(s) && CanHappen(s, e)
    ensures Ok(Next(s, e))
  {
    match e
    case Create(stack, stackSize, esp) => CreatedKeepsOk(s, stack, stackSize, esp);
    case Exit => KilledKeepsOk(s, s.current);
    case Sleep(ms) => SleptKeepsOk(s, ms);
    case ExitProcess(tids) => AllKilledKeepsOk(s, tids);
    case Tick(esp) => TickedKeepsOk(s, esp);
  }

  // ---- What a step does to the stacks

  /** The stacks a step gives to kfree. */
  function FreedBy(s: State, e: Event): set<nat> {
    if e.Tick? && IsRound(s) then Freed(s.pool, s.current) else {}
  }

  /** The stacks a step gets from kmalloc. */
  function GotBy(s: State, e: Event): set<nat> {
    if e.Create? && e.stack != 0 && FreeSlot(s.threads, 0) < |s.threads| then {e.stack} else {}
  }

  /** Every stack that is freed was in use, is not the one of the thread the tick interrupted, and is no longer in use. */
  lemma FreesAreSafe(s: State, e: Event)
    requires Ok(s) && CanHappen(s, e)
    ensures FreedBy(s, e) <= s.inUse && Next(s, e).inUse == s.inUse + GotBy(s, e) - FreedBy(s, e)
    ensures GotBy(s, e) !! s.inUse
    ensures forall i :: 0 <= i < |s.pool| && s.pool[i].tid == s.current ==> s.pool[i].stack !in FreedBy(s, e) && s.pool[i].stack in Next(s, e).inUse
    ensures forall i :: 0 <= i < KTHREAD_MAX && s.threads[i].stack != 0 ==> s.threads[i].stack !in FreedBy(s, e) && s.threads[i].stack in Next(s, e).inUse
  {
    hide SleepOk, PoolOk, Hops;
    assert forall i :: 0 <= i < |s.pool| ==> s.pool[i].stack in PoolStacks(s.pool);
    assert forall i :: 0 <= i < |s.threads| && s.threads[i].stack != 0 ==> s.threads[i].stack in ThreadStacks(s.threads);
    match e
    case Create(_, _, _) =>
    case Exit =>
    case Sleep(_) =>
    case ExitProcess(tids) => AllKilledKeepsOk(s, tids);
    case Tick(esp) =>
  }

  /** A pooled thread other than the one interrupted has its slot and its stack reclaimed by the round. */
  lemma RoundReclaims(s: State, esp: nat, i: nat)
    requires Ok(s) && IsRound(s) && i < |s.pool| && s.pool[i].tid != s.current
    ensures var r := Next(s, Tick(esp));
      r.threads[s.pool[i].tid].state.Unused? && s.pool[i].stack in FreedBy(s, Tick(esp)) && s.pool[i].stack !in r.inUse
      && forall j :: 0 <= j < |r.pool| ==> r.pool[j].tid == s.current
  {
    hide Hops, Owned, SleepOk, OwnersOk, Chosen, Kept;
    ChosenKeepsOk(s, esp);
    ChosenIs(s, esp);
    KeptIs(s.pool, s.current);
    var c := Chosen(s, esp);
    assert EntryOk(c.threads, c.pool[i]) && Pooled(c.pool, s.pool[i].tid);
    CleanedThread(c, s.current, s.pool[i].tid);
  }

  /** A zombie is never switched to: whoever runs after a tick could run before it. */
  lemma NoZombieRuns(s: State, esp: nat)
    requires Ok(s)
    ensures var r := Next(s, Tick(esp));
      && (r.current != s.current ==> Runnable(Woken(s.threads[r.current], s.tick + 1)) && r.threads[r.current].state.Running?)
      && (s.threads[s.current].state.Zombie? && r.current == s.current ==> r.threads[s.current] == s.threads[s.current].(esp := r.threads[s.current].esp))
      && forall i :: 0 <= i < KTHREAD_MAX && i != s.current && s.threads[i].state.Zombie? ==> i != r.current
  {
    if IsRound(s) {
      ChosenIs(s, esp);
      ChosenKeepsOk(s, esp);
      var c := Chosen(s, esp);
      ChosenThread(s, esp, c.current);
      CleanedThread(c, s.current, c.current);
      ChosenThread(s, esp, s.current);
      CleanedThread(c, s.current, s.current);
    }
  }

  // ---- Runs

  ghost predicate Run(states: seq<State>, events: seq<Event>) {
    && |states| == |events| + 1 && Ok(states[0])
    && forall i {:trigger Step(states, events, i)} :: 0 <= i < |events| ==> Step(states, events, i)
  }

  ghost predicate Step(states: seq<State>, events: seq<Event>, i: nat) {
    i + 1 < |states| && i < |events| && Ok(states[i]) && CanHappen(states[i], events[i]) && states[i + 1] == Next(states[i], events[i])
  }

  /** Rest of a run after its first step. */
  lemma RunRest(states: seq<State>, events: seq<Event>)
    requires Run(states, events) && 0 < |events|
    ensures Run(states[1..], events[1..]) && Step(states, events, 0)
  {
    assert Step(states, events, 0);
    NextKeepsOk(states[0], events[0]);
    forall i | 0 <= i < |events[1..]|
      ensures Step(states[1..], events[1..], i)
    {
      assert Step(states, events, i + 1);
    }
  }

  /** The stacks got and freed over a run, each counted as often as it happens. */
  function GotIn(states: seq<State>, events: seq<Event>): nat
    requires |states| == |events| + 1
  {
    if events == [] then 0 else |GotBy(states[0], events[0])| + GotIn(states[1..], events[1..])
  }

  function FreedIn(states: seq<State>, events: seq<Event>): nat
    requires |states| == |events| + 1
  {
    if events == [] then 0 else |FreedBy(states[0], events[0])| + FreedIn(states[1..], events[1..])
  }

  /** Conservation: what was in use at the start or got since has been freed once or is still owned by one thread or pool entry. */
  lemma {:induction false} StacksAreConserved(states: seq<State>, events: seq<Event>)
    requires Run(states, events)
    ensures var last := states[|events|];
      Ok(last) && |states[0].inUse| + GotIn(states, events) == |last.inUse| + FreedIn(states, events)
      && last.inUse == Owned(last.threads, last.pool)
    decreases |events|
  {
    if events != [] {
      RunRest(states, events);
      var s, e := states[0], events[0];
      FreesAreSafe(s, e);
      StepCounts(s.inUse, GotBy(s, e), FreedBy(s, e));
      StacksAreConserved(states[1..], events[1..]);
    }
  }

  lemma StepCounts(s: set<nat>, got: set<nat>, freed: set<nat>)
    requires freed <= s && got !! s
    ensures |s| + |got| == |s + got - freed| + |freed|
  {
    assert s + got - freed == (s - freed) + got;
  }

  // ---- Waiting

  function Ticks(events: seq<Event>): nat {
    if events == [] then 0 else (if events[0].Tick? then 1 else 0) + Ticks(events[1..])
  }

  /** A ready thread that is not killed stays ready and moves no further back; a round brings it nearer or runs it. */
  lemma StepTowards(s: State, e: Event, t: nat)
    requires Ok(s) && CanHappen(s, e) && t < KTHREAD_MAX && s.threads[t].state.Ready?
    ensures var r := Next(s, e);
      && Ok(r) && r.counter == (if !e.Tick? then s.counter else if IsRound(s) then 0 else s.counter + 1)
      && (!r.threads[t].state.Zombie? ==>
      if e.Tick? && IsRound(s) then
        (r.current == t && r.threads[t].state.Running?)
        || (r.threads[t].state.Ready? && r.current != t && Distance(r.current, t) < Distance(s.current, t))
      else r.current == s.current && r.threads[t].state.Ready?)
  {
    NextKeepsOk(s, e);
    match e
    case Create(_, _, _) =>
    case Exit =>
    case Sleep(_) =>
    case ExitProcess(tids) => KilledOrSame(s, tids, t);
    case Tick(esp) =>
      if IsRound(s) {
        RoundTowards(s, esp, t);
      }
  }

  lemma {:induction false} KilledOrSame(s: State, tids: seq<nat>, t: nat)
    requires t < |s.threads|
    ensures var r := AllKilled(s, tids);
      r.current == s.current && |r.threads| == |s.threads| && r.tick == s.tick && r.counter == s.counter
      && (r.threads[t] == s.threads[t] || r.threads[t].state.Zombie?)
    decreases |tids|
  {
    if tids != [] {
      var tid := tids[0];
      if tid >= |s.threads| || s.threads[tid].state.Unused? {
        KilledOrSame(s, tids[1..], t);
      } else {
        KilledOrSame(Killed(s, tid), tids[1..], t);
      }
    }
  }

  /** The search stops at a runnable slot at the latest, and at an earlier one it comes nearer. */
  lemma HopsTowards(threads: seq<Tcb>, current: nat, t: nat)
    requires |threads| == KTHREAD_MAX && current < KTHREAD_MAX && t < KTHREAD_MAX && t != current && Runnable(threads[t])
    ensures var k := Hops(threads, current, 1);
      var next := Slot(current, k);
      k <= Distance(current, t) && (next == t || Distance(next, t) < Distance(current, t))
  {
    hide Slot;
    SlotsCover(current, t);
    SlotIs(current, Distance(current, t));
    SlotIs(current, Hops(threads, current, 1));
  }

  lemma ChosenTowards(s: State, esp: nat, t: nat)
    requires Ok(s) && t < KTHREAD_MAX && s.threads[t].state.Ready?
    ensures var c := Chosen(s, esp);
      (c.current == t || Distance(c.current, t) < Distance(s.current, t)) && c.threads[t].state == if c.current == t then Running else Ready
  {
    hide Hops, SleepOk, OwnersOk, PoolOk;
    var woken := AllWoken(s.threads, s.tick + 1);
    HopsTowards(woken[s.current := woken[s.current].(esp := esp)], s.current, t);
  }

  lemma RoundTowards(s: State, esp: nat, t: nat)
    requires Ok(s) && IsRound(s) && t < KTHREAD_MAX && s.threads[t].state.Ready?
    ensures var r := Ticked(s, esp);
      (r.current == t && r.threads[t].state.Running?)
      || (r.threads[t].state.Ready? && r.current != t && Distance(r.current, t) < Distance(s.current, t))
  {
    hide Hops, Pooled, Kept, Freed, Switched, SleepOk, OwnersOk, PoolOk;
    ChosenTowards(s, esp, t);
    ChosenKeepsOk(s, esp);
    CleanedThread(Chosen(s, esp), s.current, t);
  }

  /** Bounded waiting: a ready thread that is not killed runs before ten ticks for each place between it and the current one are over. */
  lemma {:induction false} ReadyThreadRuns(states: seq<State>, events: seq<Event>, t: nat)
    requires Run(states, events) && t < KTHREAD_MAX && states[0].threads[t].state.Ready?
    requires forall i :: 0 <= i < |states| ==> Alive(states[i], t)
    requires Ticks(events) + states[0].counter >= 10 * Distance(states[0].current, t)
    ensures exists i :: 0 <= i < |states| && Runs(states[i], t)
    decreases |events|
  {
    var s := states[0];
    if events != [] {
      RunRest(states, events);
      StepTowards(s, events[0], t);
      var r := states[1];
      assert Alive(states[1], t);
      if !Runs(r, t) {
        ReadyThreadRuns(states[1..], events[1..], t);
        var i :| 0 <= i < |states[1..]| && Runs(states[1..][i], t);
        assert Runs(states[i + 1], t);
      }
    }
  }

  /** Whatever the slots, 310 ticks are enough. */
  lemma ReadyThreadRunsSoon(states: seq<State>, events: seq<Event>, t: nat)
    requires Run(states, events) && t < KTHREAD_MAX && states[0].threads[t].state.Ready?
    requires forall i :: 0 <= i < |states| ==> Alive(states[i], t)
    requires Ticks(events) >= 310
    ensures exists i :: 0 <= i < |states| && Runs(states[i], t)
  {
    ReadyThreadRuns(states, events, t);
  }

  ghost predicate Alive(s: State, t: nat) {
    t < |s.threads| && !s.threads[t].state.Zombie?
  }

  ghost predicate Runs(s: State, t: nat) {
    t < |s.threads| && s.current == t && s.threads[t].state.Running?
  }

  /** In every state of every run a sleeper has less than one interval to go past its deadline, and none wakes early. */
  lemma SleepersWakeOnTime(s: State, e: Event, t: nat)
    requires Ok(s) && CanHappen(s, e) && t < KTHREAD_MAX && s.threads[t].state.Sleeping?
    ensures s.tick < s.threads[t].sleepUntil + SCHED_INTERVAL - 1
    ensures var r := Next(s, e);
      |r.threads| == KTHREAD_MAX &&
      (r.threads[t].state.Ready? || r.threads[t].state.Running? ==> r.tick >= s.threads[t].sleepUntil)
  {
    NextKeepsOk(s, e);
    match e
    case Create(_, _, _) =>
    case Exit =>
    case Sleep(_) =>
    case ExitProcess(tids) => KilledOrSame(s, tids, t);
    case Tick(esp) =>
      if IsRound(s) {
        ChosenKeepsOk(s, esp);
        ChosenIs(s, esp);
        ChosenThread(s, esp, t);
        CleanedThread(Chosen(s, esp), s.current, t);
      }
  }

  // ---- Saved contexts

  /** The stack pointer of a thread that is off the processor stays as saved, until its slot is reset. */
  lemma StepKeepsContext(s: State, e: Event, t: nat)
    requires Ok(s) && CanHappen(s, e) && t < KTHREAD_MAX && t != s.current && !s.threads[t].state.Unused?
    ensures var r := Next(s, e); |r.threads| == KTHREAD_MAX && (r.threads[t].esp == s.threads[t].esp || r.threads[t].state.Unused?)
  {
    hide Hops, Switched, SleepOk, OwnersOk, Kept, Freed;
    match e
    case Create(_, _, _) =>
    case Exit =>
    case Sleep(_) =>
    case ExitProcess(tids) => KilledKeepsContext(s, tids, t);
    case Tick(esp) =>
      if IsRound(s) {
        ChosenKeepsOk(s, esp);
        ChosenThread(s, esp, t);
        CleanedThread(Chosen(s, esp), s.current, t);
      }
  }

  lemma {:induction false} KilledKeepsContext(s: State, tids: seq<nat>, t: nat)
    requires t < |s.threads|
    ensures |AllKilled(s, tids).threads| == |s.threads| && AllKilled(s, tids).threads[t].esp == s.threads[t].esp
    decreases |tids|
  {
    if tids != [] {
      var tid := tids[0];
      if tid >= |s.threads| || s.threads[tid].state.Unused? {
        KilledKeepsContext(s, tids[1..], t);
      } else {
        KilledKeepsContext(Killed(s, tid), tids[1..], t);
      }
    }
  }

  ghost predicate Parked(s: State, t: nat) {
    t < |s.threads| && !s.threads[t].state.Unused?
  }

  lemma {:induction false} ContextKept(states: seq<State>, events: seq<Event>, t: nat)
    requires Run(states, events) && t < KTHREAD_MAX
    requires forall i :: 0 <= i < |states| ==> Parked(states[i], t)
    requires forall i :: 0 <= i < |events| ==> states[i].current != t
    ensures Parked(states[|events|], t) && states[|events|].threads[t].esp == states[0].threads[t].esp
    decreases |events|
  {
    if events != [] {
      RunRest(states, events);
      assert Parked(states[0], t) && Parked(states[1], t);
      StepKeepsContext(states[0], events[0], t);
      ContextKept(states[1..], events[1..], t);
    }
  }

  /** A thread switched out by the first step resumes, when it is next chosen, with the stack pointer it was interrupted with. */
  lemma ContextRoundTrip(states: seq<State>, events: seq<Event>, esp: nat, t: nat)
    requires Run(states, events) && 0 < |events| && events[0] == Tick(esp) && states[0].current == t
    requires forall i :: 0 <= i < |states| ==> Parked(states[i], t)
    requires forall i :: 0 < i < |events| ==> states[i].current != t
    requires states[1].current != t
    ensures Parked(states[|events|], t) && states[|events|].threads[t].esp == esp
  {
    var s := states[0];
    RunRest(states, events);
    assert Parked(states[0], t) && Parked(states[1], t);
    ChosenKeepsOk(s, esp);
    ChosenThread(s, esp, t);
    CleanedThread(Chosen(s, esp), s.current, t);
    ContextKept(states[1..], events[1..], t);
  }
}
