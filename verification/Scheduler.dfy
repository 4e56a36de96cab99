// The scheduler's tables, rewritten in place by its calls and by the timer interrupt. Each method is
// proved to make the step of SchedulerModel that it stands for.
module Scheduler {
  import opened SchedulerModel

  const DEFAULT_STACK_SIZE: nat := 8192
  const FRAME_SIZE: nat := 60

  /** Where setup_initial_stack leaves the stack pointer: fifteen words below the top, in 32-bit arithmetic. */
  function InitialEsp(stack: nat, stackSize: nat): nat {
    (stack + stackSize + 0x1_0000_0000 - FRAME_SIZE) % 0x1_0000_0000
  }

  class Tables {
    const threads: array<Tcb>
    const cleanupPool: array<Entry>
    var cleanupCount: nat
    var currentTid: nat
    var schedCounter: nat
    var tick: nat
    ghost var inUse: set<nat>   // what kmalloc has given and kfree has not taken back

    ghost function View(): State
      requires cleanupCount <= cleanupPool.Length
      reads this, threads, cleanupPool
    {
      State(threads[..], currentTid, schedCounter, tick, cleanupPool[..cleanupCount], inUse)
    }

    ghost predicate Valid()
      reads this, threads, cleanupPool
    {
      threads.Length == KTHREAD_MAX && cleanupPool.Length == CLEANUP_POOL_MAX && cleanupCount <= CLEANUP_POOL_MAX && Ok(View())
    }

    /** init_multitasking, at a time when the timer stands at now. */
    constructor (now: nat)
      ensures Valid() && View() == Initial(now) && fresh(threads) && fresh(cleanupPool)
    {
      threads := new Tcb[KTHREAD_MAX](_ => EMPTY);
      cleanupPool := new Entry[CLEANUP_POOL_MAX](_ => Entry(0, 0));
      cleanupCount, currentTid, schedCounter, tick, inUse := 0, 0, 0, now, {};
      new;
      threads[0] := Tcb(Running, 0, 0, 0, 0);
      assert threads[..] == Initial(now).threads;
      InitialOk(now);
    }

    method AllocThreadSlot() returns (slot: int)
      requires Valid()
      ensures slot == if FreeSlot(threads[..], 0) == KTHREAD_MAX then -1 else FreeSlot(threads[..], 0)
    {
      for i := 0 to KTHREAD_MAX
        invariant FreeSlot(threads[..], 0) == FreeSlot(threads[..], i)
      {
        if threads[i].state.Unused? {
          return i;
        }
      }
      return -1;
    }

    /** stack is what kmalloc returns, 0 for NULL. */
    method CreateThread(entryIsNull: bool, stackSize: nat, stack: nat) returns (tid: int)
      requires Valid() && threads[currentTid].state.Running? && stack !in inUse
      modifies this`inUse, threads
      ensures Valid()
      ensures var size := if stackSize == 0 then DEFAULT_STACK_SIZE else stackSize;
        View() == if entryIsNull then old(View()) else Next(old(View()), Create(stack, size, InitialEsp(stack, size)))
      ensures tid != -1 ==> 0 <= tid < KTHREAD_MAX && old(threads[tid].state.Unused?) && threads[tid].state.Ready? && threads[tid].stack == stack
      ensures tid == -1 <==> entryIsNull || stack == 0 || forall i :: 0 <= i < KTHREAD_MAX ==> !old(threads[i].state.Unused?)
    {
      if entryIsNull {
        return -1;
      }
      var size := if stackSize == 0 then DEFAULT_STACK_SIZE else stackSize;
      ghost var s := View();
      NextKeepsOk(s, Create(stack, size, InitialEsp(stack, size)));
      var slot := AllocThreadSlot();
      if slot < 0 || stack == 0 {
        return -1;
      }
      inUse := inUse + {stack};
      threads[slot] := Tcb(Ready, stack, size, InitialEsp(stack, size), 0);
      assert View() == Created(s, stack, size, InitialEsp(stack, size));
      return slot;
    }

    /** Marks a thread as a zombie and leaves its stack to the cleanup pool. */
    method Kill(tid: nat)
      requires Valid() && tid < KTHREAD_MAX && !threads[tid].state.Unused?
      modifies this`cleanupCount, threads, cleanupPool
      ensures Valid() && View() == Killed(old(View()), tid)
    {
      KilledKeepsOk(View(), tid);
      threads[tid] := threads[tid].(state := Zombie);
      if threads[tid].stack != 0 && cleanupCount < CLEANUP_POOL_MAX {
        cleanupPool[cleanupCount] := Entry(threads[tid].stack, tid);
        cleanupCount := cleanupCount + 1;
        threads[tid] := threads[tid].(stack := 0);
      }
      assert View() == Killed(old(View()), tid);
    }

    method ThreadExit()
      requires Valid() && threads[currentTid].state.Running?
      modifies this`cleanupCount, threads, cleanupPool
      ensures Valid() && View() == Next(old(View()), Exit)
    {
      Kill(currentTid);
    }

    method ThreadSleep(ms: nat)
      requires Valid() && threads[currentTid].state.Running?
      modifies threads
      ensures Valid() && View() == Next(old(View()), Sleep(ms))
    {
      SleptKeepsOk(View(), ms);
      if ms == 0 {
        return;
      }
      threads[currentTid] := threads[currentTid].(state := Sleeping, sleepUntil := tick + ms);
      assert View() == Slept(old(View()), ms);
    }

    /** tids is the thread list of the current process. */
    method ProcessExit(tids: seq<nat>)
      requires Valid() && threads[currentTid].state.Running?
      modifies this`cleanupCount, threads, cleanupPool
      ensures Valid() && View() == Next(old(View()), ExitProcess(tids))
    {
      ghost var s := View();
      assert tids[0..] == tids;
      for i := 0 to |tids|
        invariant Valid() && AllKilled(View(), tids[i..]) == AllKilled(s, tids)
      {
        var tid := tids[i];
        assert tids[i..][1..] == tids[i + 1..];
        if tid >= KTHREAD_MAX || threads[tid].state.Unused? {
          continue;
        }
        Kill(tid);
      }
    }

    /** The call to kfree: only a stack in use may be freed. */
    ghost method Kfree(stack: nat)
      requires stack in inUse
      modifies this`inUse
      ensures inUse == old(inUse) - {stack}
    {
      inUse := inUse - {stack};
    }

    method CleanupDeadThreads(skipTid: nat)
      requires Valid() && skipTid < KTHREAD_MAX && (currentTid != skipTid ==> threads[currentTid].state.Running?)
      modifies this`cleanupCount, this`inUse, threads, cleanupPool
      ensures Valid() && View() == Cleaned(old(View()), skipTid)
    {
      hide Ok, Kept, Freed;
      ghost var s := View();
      ghost var t, p := s.threads, s.pool;
      StatesOf(s);
      CleanedKeepsOk(s, skipTid);
      var newCount: nat := 0;
      CleanupStart(p, skipTid);
      for i := 0 to cleanupCount
        invariant newCount <= i && cleanupCount == |p| && cleanupPool[..newCount] == Kept(p[..i], skipTid)
        invariant cleanupPool[i..cleanupCount] == p[i..]
        invariant forall k :: 0 <= k < KTHREAD_MAX ==> threads[k] == if k != skipTid && Pooled(p[..i], k) then Reset(t[k]) else t[k]
        invariant inUse == s.inUse - Freed(p[..i], skipTid)
      {
        CleanupStep(s, skipTid, i);
        assert cleanupPool[i] == cleanupPool[i..cleanupCount][0] == p[i];
        assert cleanupPool[i..cleanupCount][1..] == cleanupPool[i + 1..cleanupCount];
        if cleanupPool[i].tid == skipTid {
          if i != newCount {
            cleanupPool[newCount] := cleanupPool[i];
          }
          newCount := newCount + 1;
          assert cleanupPool[..newCount] == cleanupPool[..newCount - 1] + [p[i]];
          continue;
        }
        Kfree(cleanupPool[i].stack);
        var tid := cleanupPool[i].tid;
        if tid < KTHREAD_MAX {
          threads[tid] := threads[tid].(stack := 0, stackSize := 0, esp := 0, state := Unused);
        }
      }
      assert p[..|p|] == p;
      cleanupCount := newCount;
      assert View() == Cleaned(s, skipTid);
    }

    /** Wakes the sleepers that are due. */
    method WakeSleepers()
      requires threads.Length == KTHREAD_MAX
      modifies threads
      ensures threads[..] == AllWoken(old(threads[..]), tick)
    {
      for i := 0 to KTHREAD_MAX
        invariant forall k :: 0 <= k < KTHREAD_MAX ==> threads[k] == if k < i then Woken(old(threads[k]), tick) else old(threads[k])
      {
        if threads[i].state.Sleeping? && tick >= threads[i].sleepUntil {
          threads[i] := threads[i].(state := Ready);
        }
      }
    }

    /** Round robin from the slot behind the current one; searched is KTHREAD_MAX if nothing can run. */
    method FindNext() returns (next: nat, searched: nat)
      requires threads.Length == KTHREAD_MAX && currentTid < KTHREAD_MAX
      ensures searched + 1 == Hops(threads[..], currentTid, 1) && next == Slot(currentTid, searched + 1) && next < KTHREAD_MAX
    {
      hide Slot, Hops;
      ghost var t := threads[..];
      next := (currentTid + 1) % KTHREAD_MAX;
      searched := 0;
      SlotNext(currentTid, 0);
      SlotZero(currentTid);
      while searched < KTHREAD_MAX
        invariant searched <= KTHREAD_MAX && next == Slot(currentTid, searched + 1) && next < KTHREAD_MAX
        invariant Hops(t, currentTid, 1) == Hops(t, currentTid, searched + 1)
      {
        HopsStep(t, currentTid, searched + 1);
        if threads[next].state.Ready? || threads[next].state.Running? {
          return;
        }
        SlotNext(currentTid, searched + 1);
        next := (next + 1) % KTHREAD_MAX;
        searched := searched + 1;
      }
      HopsEnd(t, currentTid);
    }

    /** The part of a round before the cleanup, for a tick that came in state s. */
    method Choose(currentEsp: nat, ghost s: State)
      requires threads.Length == KTHREAD_MAX && cleanupCount <= cleanupPool.Length && currentTid < KTHREAD_MAX
      requires View() == s.(tick := s.tick + 1, counter := 0)
      modifies this`currentTid, threads
      ensures View() == Chosen(s, currentEsp)
      ensures currentTid < KTHREAD_MAX && (currentTid != old(currentTid) ==> threads[currentTid].state.Running? && threads[currentTid].esp == old(threads[..])[currentTid].esp)
    {
      hide Hops, Slot;
      WakeSleepers();
      threads[currentTid] := threads[currentTid].(esp := currentEsp);
      assert threads[..] == AllWoken(s.threads, s.tick + 1)[s.current := AllWoken(s.threads, s.tick + 1)[s.current].(esp := currentEsp)];
      var next, searched := FindNext();
      if searched >= KTHREAD_MAX {
        return;
      }
      if next == currentTid {
        threads[currentTid] := threads[currentTid].(state := Running);
        return;
      }
      if threads[currentTid].state.Running? {
        threads[currentTid] := threads[currentTid].(state := Ready);
      }
      threads[next] := threads[next].(state := Running);
      currentTid := next;
      ChosenThread(s, currentEsp, next);
    }

    /** The timer interrupt: takes the interrupted thread's stack pointer, returns the one to resume. */
    method SchedulerTick(currentEsp: nat) returns (esp: nat)
      requires Valid()
      modifies this, threads, cleanupPool
      ensures Valid() && View() == Next(old(View()), Tick(currentEsp))
      ensures esp == if currentTid == old(currentTid) then currentEsp else old(threads[..])[currentTid].esp
    {
      hide Ok, Hops, Chosen, Cleaned;
      ghost var s := View();
      TickedKeepsOk(s, currentEsp);
      StatesOf(s);
      tick := tick + 1;
      schedCounter := schedCounter + 1;
      if schedCounter < SCHED_INTERVAL {
        return currentEsp;
      }
      schedCounter := 0;
      var oldTid := currentTid;
      ChosenKeepsOk(s, currentEsp);
      Choose(currentEsp, s);
      ghost var c := View();
      CleanupDeadThreads(oldTid);
      if currentTid == oldTid {
        return currentEsp;
      }
      CleanedRunner(c, oldTid);
      return threads[currentTid].esp;
    }
  }
}
