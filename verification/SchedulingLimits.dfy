/** Where my_pthread.c does less than it promises: exactly when, and a run that shows it. */
module SchedulingLimits {
  import opened Util
  import opened Scheduling
  import opened SchedulingInvariant
  import opened SchedulingRuns

  // ---- runs by hand ----

  lemma {:induction false} RunLast(s: Sched, es: seq<Event>, e: Event)
    requires Shape(s) && DefinedRun(s, es) && Defined(Run(s, es), e)
    ensures DefinedRun(s, es + [e]) && Run(s, es + [e]) == Step(Run(s, es), e)
    ensures LegalRun(s, es) && Legal(Run(s, es), e) ==> LegalRun(s, es + [e])
    decreases |es|
  {
    if es == [] {
      assert [] + [e] == [e] && [e][1..] == [];
      StepKeepsShape(s, e);
    } else {
      assert (es + [e])[0] == es[0] && (es + [e])[1..] == es[1..] + [e];
      StepKeepsShape(s, es[0]);
      RunLast(Step(s, es[0]), es[1..], e);
    }
  }

  /** `s` is what the calls `es` make of the initial state with `n` slots; with `legal` they follow the discipline. */
  ghost predicate Reached(n: nat, es: seq<Event>, s: Sched, legal: bool)
    ensures Reached(n, es, s, legal) ==> Shape(s) && |s.table| == n
  {
    && n >= 1 && DefinedRun(Init(n), es) && Run(Init(n), es) == s && Shape(s) && |s.table| == n
    && (legal ==> LegalRun(Init(n), es) && Inv(s))
  }

  lemma Begin(n: nat)
    requires n >= 1
    ensures Reached(n, [], Init(n), true)
  {
    InitOk(n);
  }

  lemma Next(n: nat, es: seq<Event>, s: Sched, legal: bool, e: Event) returns (s': Sched)
    requires Reached(n, es, s, legal) && Defined(s, e)
    ensures s' == Step(s, e) && Shape(s') && Reached(n, es + [e], s', legal && Legal(s, e))
  {
    s' := Step(s, e);
    RunLast(Init(n), es, e);
    StepKeepsShape(s, e);
    if legal && Legal(s, e) {
      StepKeeps(s, e);
    }
  }

  lemma NextNewMutex(n: nat, es: seq<Event>, s: Sched, legal: bool, rank: int, i: nat) returns (s': Sched)
    requires Reached(n, es, s, legal) && s.cur.Some? && 1 <= i < |s.table| && !s.table[i].used
    requires forall k :: 1 <= k < i ==> s.table[k].used
    ensures Reached(n, es + [NewMutex(rank)], s', legal)
    ensures s' == s.(table := s.table[i := Slot(true, 0)], owner := s.owner[i := None], rank := s.rank[i := rank])
  {
    FindFromIs(s.table, IsUnused, 1, i);
    s' := Next(n, es, s, legal, NewMutex(rank));
  }

  lemma NextSpawn(n: nat, es: seq<Event>, s: Sched, legal: bool, rank: int, i: nat) returns (s': Sched)
    requires Reached(n, es, s, legal) && s.cur.Some? && 1 <= i < |s.table| && !s.table[i].used
    requires forall k :: 1 <= k < i ==> s.table[k].used
    ensures Reached(n, es + [Spawn(rank)], s', legal)
    ensures s' == s.(table := s.table[i := Slot(true, 1)], owner := s.owner[i := Some(i)], rank := s.rank[i := rank],
                     mu := s.mu[i := 0], ready := s.ready + [i])
  {
    FindFromIs(s.table, IsUnused, 1, i);
    s' := Next(n, es, s, legal, Spawn(rank));
  }

  // ---- a contended lock with no ready thread ----

  /** A contended lock keeps the count exact if and only if another thread is ready: with none, the caller goes on
      counted as a waiter and queued nowhere, and the owner is as before. */
  lemma ContendedLockIsExact(s: Sched, m: nat)
    requires Inv(s) && s.cur.Some? && InUse(s, m) && s.table[m].count > 0
    ensures Lock(s, m).1 == 0 && Shape(Lock(s, m).0)
    ensures Accounted(Lock(s, m).0, m) <==> s.ready != []
    ensures s.ready == [] ==> Lock(s, m).0.cur == s.cur && Lock(s, m).0.owner == s.owner
  {
    StepKeepsShape(s, Acquire(m));
    assert Step(s, Acquire(m)) == Lock(s, m).0;
    assert Accounted(s, m);
    if s.ready != [] {
      WaitersAfterContend(s, m, m);
    } else {
      FilterCongruence(s.wait, WaitsOn(s.mu[s.cur.value := m], m), WaitsOn(s.mu, m));
    }
  }

  /** A thread locks a mutex that it holds: the second lock returns 0 with count 2 and nobody queued. */
  lemma SecondLockGoesOn(n: nat, r: int) returns (s: Sched)
    requires n >= 2
    ensures Reached(n, [NewMutex(r), Acquire(1)], s, true)
    ensures s.cur == Some(0) && s.owner[1] == Some(0) && s.table[1].count == 1
    ensures var (s', result) := Lock(s, 1);
            && Shape(s') && result == 0 && !Accounted(s', 1)
            && s'.cur == Some(0) && s'.wait == [] && s'.table[1].count == 2
  {
    hide Reached, Inv;
    Begin(n);
    var es: seq<Event> := [];
    s := NextNewMutex(n, es, Init(n), true, r, 1);
    es := es + [NewMutex(r)];
    assert Legal(s, Acquire(1));
    s := Next(n, es, s, true, Acquire(1));
    assert es + [Acquire(1)] == [NewMutex(r), Acquire(1)];
    ContendedLockIsExact(s, 1);
  }

  /** Two threads lock two mutexes in opposite orders: instead of waiting for thread 3, which owns mutex 1 and is itself
      blocked, the main thread goes on as if it had locked it. */
  lemma OppositeLocksGoOn(n: nat, r: int) returns (s: Sched)
    requires n >= 4
    ensures Reached(n, [NewMutex(r), NewMutex(r + 1), Spawn(r - 1), Acquire(2), Tick, Acquire(1), Acquire(2)], s, true)
    ensures s.cur == Some(0) && s.owner[1] == Some(3) && s.wait == [3]
    ensures var (s', result) := Lock(s, 1);
            Shape(s') && result == 0 && s'.cur == Some(0) && s'.owner[1] == Some(3) && !Accounted(s', 1)
  {
    hide Reached, Inv;
    Begin(n);
    var es: seq<Event> := [];
    s := NextNewMutex(n, es, Init(n), true, r, 1);
    es := es + [NewMutex(r)];
    s := NextNewMutex(n, es, s, true, r + 1, 2);
    es := es + [NewMutex(r + 1)];
    s := NextSpawn(n, es, s, true, r - 1, 3);
    es := es + [Spawn(r - 1)];
    s := Next(n, es, s, true, Acquire(2));
    es := es + [Acquire(2)];
    s := Next(n, es, s, true, Tick);
    es := es + [Tick];
    assert s.cur == Some(3) && s.ready == [0];
    s := Next(n, es, s, true, Acquire(1));
    es := es + [Acquire(1)];
    s := Next(n, es, s, true, Acquire(2));
    es := es + [Acquire(2)];
    assert es == [NewMutex(r), NewMutex(r + 1), Spawn(r - 1), Acquire(2), Tick, Acquire(1), Acquire(2)];
    ContendedLockIsExact(s, 1);
  }

  // ---- destroying a mutex that is held ----

  /** Destroy, which does not look at the count, takes the mutex from a thread that owns it or is queued for it if and
      only if the count is above 0. Nobody has a claim to it afterwards; who was queued stays queued, and an unlock,
      which alone could take it off, fails. */
  lemma DestroyIsExact(s: Sched, m: nat)
    requires Inv(s) && InUse(s, m) && !Live(s, m)
    ensures Destroy(s, m).1 == 0
    ensures (exists t :: Claims(s, t, m)) <==> s.table[m].count > 0
    ensures s.owner[m].Some? <==> s.table[m].count > 0
    ensures forall t :: !Claims(Destroy(s, m).0, t, m)
    ensures Destroy(s, m).0.wait == s.wait && Destroy(s, m).0.mu == s.mu && Unlock(Destroy(s, m).0, m).1 == -1
  {
    assert Accounted(s, m);
    if s.owner[m].Some? {
      assert Claims(s, s.owner[m].value, m);
    }
    forall t | Claims(s, t, m)
      ensures s.table[m].count > 0
    {
      assert s.owner[m] != Some(t) ==> t in Waiters(s, m);
    }
  }

  /** The main thread holds mutex 1 and destroys it. The slot is handed out again, and thread 2 locks it while the main
      thread has not unlocked. */
  lemma DestroyedWhileHeld(n: nat, r: int) returns (s: Sched, s': Sched)
    requires n >= 3
    ensures Reached(n, [NewMutex(r), Spawn(r - 1), Acquire(1)], s, true) && Claims(s, 0, 1)
    ensures Destroy(s, 1).1 == 0 && !Claims(Destroy(s, 1).0, 0, 1)
    ensures var again := [DestroyMutex(1), NewMutex(r), Tick, Acquire(1)];
            Reached(n, [NewMutex(r), Spawn(r - 1), Acquire(1)] + again, s', false)
    ensures s'.cur == Some(2) && s'.owner[1] == Some(2) && s'.ready == [0]
  {
    hide Reached, Inv;
    Begin(n);
    var es: seq<Event> := [];
    s := NextNewMutex(n, es, Init(n), true, r, 1);
    es := es + [NewMutex(r)];
    s := NextSpawn(n, es, s, true, r - 1, 2);
    es := es + [Spawn(r - 1)];
    s := Next(n, es, s, true, Acquire(1));
    es := es + [Acquire(1)];
    assert es == [NewMutex(r), Spawn(r - 1), Acquire(1)];
    s' := Next(n, es, s, false, DestroyMutex(1));
    es := es + [DestroyMutex(1)];
    s' := NextNewMutex(n, es, s', false, r, 1);
    es := es + [NewMutex(r)];
    s' := Next(n, es, s', false, Tick);
    es := es + [Tick];
    s' := Next(n, es, s', false, Acquire(1));
    assert es + [Acquire(1)] ==
           [NewMutex(r), Spawn(r - 1), Acquire(1)] + [DestroyMutex(1), NewMutex(r), Tick, Acquire(1)];
  }

  // ---- an exit with several joiners ----

  /** An exit wakes everyone who joined the thread if and only if at most one did. */
  lemma ExitWakesAllIffOneJoiner(s: Sched)
    requires Shape(s) && s.cur.Some?
    ensures Waiters(Leave(s), s.cur.value) == [] <==> |Waiters(s, s.cur.value)| <= 1
  {
    WaitersAfterRelease(s, s.cur.value, s.cur.value);
    assert Waiters(Leave(s), s.cur.value) == Waiters(Release(s, s.cur.value), s.cur.value);
  }

  /** Threads 0 and 2 join thread 1; its exit wakes thread 0 alone, and thread 2 waits on a slot that is free. */
  lemma SecondJoinerIsLeft(n: nat, r: int) returns (s: Sched)
    requires n >= 3
    ensures Reached(n, [Spawn(r), Spawn(r + 1), JoinThread(1), Tick, JoinThread(1), Quit], s, false)
    ensures s.cur == Some(0) && s.wait == [2] && s.mu[2] == 1 && !s.table[1].used
  {
    hide Reached, Inv;
    Begin(n);
    var es: seq<Event> := [];
    s := NextSpawn(n, es, Init(n), true, r, 1);
    es := es + [Spawn(r)];
    s := NextSpawn(n, es, s, true, r + 1, 2);
    es := es + [Spawn(r + 1)];
    s := Next(n, es, s, false, JoinThread(1));
    es := es + [JoinThread(1)];
    s := Next(n, es, s, false, Tick);
    es := es + [Tick];
    s := Next(n, es, s, false, JoinThread(1));
    es := es + [JoinThread(1)];
    assert s.cur == Some(1) && s.wait == [0, 2];
    s := Next(n, es, s, false, Quit);
    assert es + [Quit] == [Spawn(r), Spawn(r + 1), JoinThread(1), Tick, JoinThread(1), Quit];
  }

  // ---- the table runs out ----

  function NewMutexes(k: nat, rank: int): (es: seq<Event>) { seq(k, _ => NewMutex(rank)) }

  /** Inits hand out 1, 2, 3 and so on, up to the last slot of the table. */
  lemma {:induction false} HandlesCountUp(n: nat, k: nat, rank: int) returns (s: Sched)
    requires k < n
    ensures Reached(n, NewMutexes(k, rank), s, true) && s.cur.Some?
    ensures forall m :: 1 <= m < n ==> (s.table[m].used <==> m <= k)
    ensures FreeSlot(s) == k + 1
    decreases k
  {
    hide Reached, Inv;
    if k == 0 {
      Begin(n);
      s := Init(n);
      assert NewMutexes(0, rank) == [];
    } else {
      s := HandlesCountUp(n, k - 1, rank);
      s := NextNewMutex(n, NewMutexes(k - 1, rank), s, true, rank, k);
      assert NewMutexes(k - 1, rank) + [NewMutex(rank)] == NewMutexes(k, rank);
    }
    FindFromIs(s.table, IsUnused, 1, k + 1);
  }

  /** With the table of my_pthread.c there are 31 handles for mutexes and threads together; the next call finds none. */
  lemma HandlesRunOut(rank: int) returns (s: Sched)
    ensures Reached(32, NewMutexes(31, rank), s, true) && MAX_MUTEX_NUM == |s.table| == 32
    ensures FreeSlot(s) == |s.table|
  {
    s := HandlesCountUp(32, 31, rank);
  }
}
