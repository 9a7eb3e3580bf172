/** A thread that uses one mutex and holds nothing else: where it can be, and how the calls move it. */
module MutexClients {
  import opened Util
  import opened Scheduling
  import opened SchedulingInvariant
  import opened SchedulingRuns

  ghost predicate MutexOk(s: Sched, m: nat) { InUse(s, m) && !Live(s, m) }

  /** Thread `t` holds at most its own slot and mutex `m`, waits for nothing but `m`, and its slot ranks below `m`. */
  ghost predicate Base(s: Sched, m: nat, t: Tid)
    requires Shape(s)
  {
    && t != 0 && Live(s, t) && t < |s.table| && m < |s.table|
    && s.rank[t] < s.rank[m]
    && (forall k :: 0 <= k < |s.table| && s.owner[k] == Some(t) ==> k == t || k == m)
    && (t in s.wait ==> s.mu[t] == m)
  }

  /** Outside its critical section. */
  ghost predicate Out(s: Sched, m: nat, t: Tid)
    requires Shape(s)
  {
    Base(s, m, t) && t !in s.wait && s.owner[m] != Some(t)
  }

  /** Past the lock call: queued for the mutex or already its owner. */
  ghost predicate Queued(s: Sched, m: nat, t: Tid)
    requires Shape(s)
  {
    Base(s, m, t) && Claims(s, t, m)
  }

  /** Inside its critical section. */
  ghost predicate Inside(s: Sched, m: nat, t: Tid)
    requires Shape(s)
  {
    Base(s, m, t) && t !in s.wait && s.owner[m] == Some(t)
  }

  lemma MutexKept(s: Sched, e: Event, m: nat)
    requires Inv(s) && Legal(s, e) && MutexOk(s, m) && e != DestroyMutex(m)
    ensures MutexOk(Step(s, e), m)
  {
    LiveAfter(s, e);
    assert s.cur != Some(m);
    SlotStays(s, e, m);
  }

  lemma BaseKept(s: Sched, e: Event, m: nat, t: Tid)
    requires Inv(s) && Legal(s, e) && MutexOk(s, m) && Base(s, m, t) && s.cur != Some(t)
    ensures Shape(Step(s, e)) && Base(Step(s, e), m, t)
  {
    StepKeepsShape(s, e);
    OthersEffect(s, e, t, m);
    OthersEffect(s, e, t, t);
    assert InUse(s, t);
    forall k | 0 <= k < |s.table| && Step(s, e).owner[k] == Some(t)
      ensures k == t || k == m
    {
      OthersEffect(s, e, t, k);
    }
  }

  /** No call of another thread moves a thread in or out of its critical section. */
  lemma OthersCallsKeepSeat(s: Sched, e: Event, m: nat, t: Tid)
    requires Inv(s) && Legal(s, e) && MutexOk(s, m) && Base(s, m, t) && s.cur != Some(t)
    ensures Shape(Step(s, e))
    ensures Out(s, m, t) ==> Out(Step(s, e), m, t)
    ensures Queued(s, m, t) ==> Queued(Step(s, e), m, t)
    ensures Inside(s, m, t) ==> Inside(Step(s, e), m, t)
  {
    BaseKept(s, e, m, t);
    OthersEffect(s, e, t, m);
    if Claims(s, t, m) {
      StepKeepsClaim(s, e, t, m);
    }
  }

  lemma TickKeepsSeat(s: Sched, m: nat, t: Tid)
    requires Inv(s) && Legal(s, Tick) && Base(s, m, t)
    ensures Shape(Step(s, Tick))
    ensures Out(s, m, t) ==> Out(Step(s, Tick), m, t)
    ensures Queued(s, m, t) ==> Queued(Step(s, Tick), m, t)
    ensures Inside(s, m, t) ==> Inside(Step(s, Tick), m, t)
  {
    StepKeepsShape(s, Tick);
    LiveAfter(s, Tick);
  }

  /** A thread that runs after its lock call is inside: it is the one owner. */
  lemma RunningIsInside(s: Sched, m: nat, t: Tid)
    requires Inv(s) && Queued(s, m, t) && s.cur == Some(t)
    ensures Inside(s, m, t)
  {
  }

  /** The lock call of a thread that is outside is always in the locking order. */
  lemma LockMovesIn(s: Sched, m: nat, t: Tid)
    requires Inv(s) && MutexOk(s, m) && Out(s, m, t) && s.cur == Some(t)
    ensures Legal(s, Acquire(m))
    ensures Shape(Step(s, Acquire(m))) && Queued(Step(s, Acquire(m)), m, t)
  {
    AcquireClaims(s, m);
    StepKeepsShape(s, Acquire(m));
    LiveAfter(s, Acquire(m));
    if Blocks(s, Acquire(m), m) {
      BlockedCall(s, Acquire(m), m);
      ContendMoves(s, m);
    }
  }

  lemma UnlockMovesOut(s: Sched, m: nat, t: Tid)
    requires Inv(s) && MutexOk(s, m) && Inside(s, m, t) && s.cur == Some(t)
    ensures Legal(s, Unlocked(m))
    ensures Shape(Step(s, Unlocked(m))) && Out(Step(s, Unlocked(m)), m, t)
  {
    StepKeepsShape(s, Unlocked(m));
    LiveAfter(s, Unlocked(m));
    CountsAreExact(s, m);
    if s.table[m].count > 1 {
      HandOverMoves(s, m);
      ReleaseMoves(s, m);
      assert Waiters(s, m)[0] in Waiters(s, m);
    }
  }

  /** A thread that is outside may end. */
  lemma OutMayQuit(s: Sched, m: nat, t: Tid)
    requires Inv(s) && Out(s, m, t) && s.cur == Some(t)
    ensures Legal(s, Quit)
  {
  }

  /** A created thread starts outside. */
  lemma SpawnedIsOut(s: Sched, m: nat, r: int)
    requires Inv(s) && MutexOk(s, m) && Legal(s, Spawn(r)) && r < s.rank[m]
    ensures Shape(Step(s, Spawn(r))) && Out(Step(s, Spawn(r)), m, FreeSlot(s))
  {
    StepKeepsShape(s, Spawn(r));
    SpawnKeeps(s, r);
    SpawnedSlotIsIdle(s);
    assert FreeSlot(s) != m;
    assert !Live(s, FreeSlot(s));
    assert forall k :: 0 <= k < |s.table| ==> s.owner[k] != Some(FreeSlot(s));
  }
}
