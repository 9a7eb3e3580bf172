/** Whole runs of the library: who runs when, who gets a mutex when, when a join returns. */
module SchedulingRuns {
  import opened Util
  import opened Scheduling
  import opened SchedulingInvariant

  lemma DispatchKeepsShape(s: Sched)
    requires Shape(s)
    ensures Shape(Schedule(s))
    ensures s.cur.Some? ==> Shape(BlockCurrent(s))
  {
    if s.ready != [] {
      assert s.ready[0] in s.ready;
      assert forall t :: t in s.ready[1..] ==> t in s.ready;
    }
  }

  lemma ReleaseKeepsShape(s: Sched, m: nat)
    requires Shape(s)
    ensures Shape(Release(s, m))
  {
    var i := Find(s.wait, WaitsOn(s.mu, m));
    if i < |s.wait| {
      assert forall t :: t in Without(s.wait, i) ==> t in s.wait;
    }
  }

  lemma StepKeepsShape(s: Sched, e: Event)
    requires Shape(s) && Defined(s, e)
    ensures Shape(Step(s, e)) && |Step(s, e).table| == |s.table|
  {
    match e
    case Tick => DispatchKeepsShape(s);
    case Quit =>
      ReleaseKeepsShape(s, s.cur.value);
      assert Shape(Leave(s));
      DispatchKeepsShape(Leave(s));
    case JoinThread(m) => DispatchKeepsShape(s);
    case Acquire(m) => DispatchKeepsShape(s);
    case Unlocked(m) => ReleaseKeepsShape(s, m);
    case _ =>
  }

  /** A run of any calls: all that is asked is that somebody runs and that new threads and mutexes find a slot. */
  ghost predicate DefinedRun(s: Sched, es: seq<Event>)
    requires Shape(s)
    decreases |es|
  {
    es == [] || (Defined(s, es[0]) && (StepKeepsShape(s, es[0]); DefinedRun(Step(s, es[0]), es[1..])))
  }

  ghost function Run(s: Sched, es: seq<Event>): (s': Sched)
    requires Shape(s) && DefinedRun(s, es)
    ensures Shape(s')
    decreases |es|
  {
    if es == [] then s
    else
      StepKeepsShape(s, es[0]);
      Run(Step(s, es[0]), es[1..])
  }

  /** A run under the discipline. */
  ghost predicate LegalRun(s: Sched, es: seq<Event>)
    requires Shape(s)
    ensures LegalRun(s, es) ==> DefinedRun(s, es)
    decreases |es|
  {
    es == [] || (Legal(s, es[0]) && (StepKeepsShape(s, es[0]); LegalRun(Step(s, es[0]), es[1..])))
  }

  /** Every state of a run under the discipline satisfies the invariant. */
  lemma {:induction false} RunKeeps(s: Sched, es: seq<Event>)
    requires Inv(s) && LegalRun(s, es)
    ensures Inv(Run(s, es))
    decreases |es|
  {
    if es != [] {
      StepKeeps(s, es[0]);
      RunKeeps(Step(s, es[0]), es[1..]);
    }
  }

  /** The state after my_pthread_init satisfies the invariant, so every reachable state does. */
  lemma InitOk(n: nat)
    requires n >= 1
    ensures Inv(Init(n))
  {
    var s := Init(n);
    forall m: nat
      ensures Waiters(s, m) == []
    {
      FilterNone(s.wait, WaitsOn(s.mu, m));
    }
  }

  // ---- mutual exclusion ----

  /** In every state of a run, a mutex that is waited for has an owner, who is live and not waiting for it, its count
      is that owner plus the queued waiters, and it cannot outgrow its unsigned field. */
  lemma CountsAreExact(s: Sched, m: nat)
    requires Inv(s) && m < |s.table|
    ensures s.table[m].count == (if s.owner[m].Some? then 1 else 0) + |Waiters(s, m)|
    ensures Waiters(s, m) != [] ==> s.owner[m].Some?
    ensures s.owner[m].Some? ==> Live(s, s.owner[m].value) && s.owner[m].value !in Waiters(s, m)
    ensures s.table[m].count <= |s.table|
  {
    assert Accounted(s, m);
    var w := Waiters(s, m);
    FilterNoDuplicates(s.wait, WaitsOn(s.mu, m));
    if s.owner[m].Some? {
      var o := s.owner[m].value;
      assert Live(s, o);
      assert o !in w;
      NoDuplicatesSnoc(w, o);
      DistinctBelow(w + [o], |s.table|);
    } else {
      DistinctBelow(w, |s.table|);
    }
  }

  lemma DistinctBelow(w: seq<Tid>, n: nat)
    requires NoDuplicates(w) && forall t :: t in w ==> t < n
    ensures |w| <= n
  {
    SeqSetCardinality(w);
    BoundedCardinality((set t | t in w), n);
  }

  /** `t` has called lock on mutex `m` and has not unlocked it since: it is queued for it or owns it. */
  ghost predicate Claims(s: Sched, t: Tid, m: nat)
  {
    && InUse(s, m) && m < |s.owner| && !Live(s, m)
    && ((t in s.wait && t < |s.mu| && s.mu[t] == m) || s.owner[m] == Some(t))
  }

  lemma AcquireClaims(s: Sched, m: nat)
    requires Inv(s) && Legal(s, Acquire(m)) && InUse(s, m)
    ensures Claims(Step(s, Acquire(m)), s.cur.value, m)
  {
    assert Accounted(s, m);
    if s.table[m].count > 0 {
      ContendKeeps(s, m);
      ContendMoves(s, m);
    }
  }

  ghost predicate UnlocksIn(s: Sched, es: seq<Event>, t: Tid, m: nat)
    requires Shape(s) && DefinedRun(s, es)
    decreases |es|
  {
    es != [] &&
    ((es[0] == Unlocked(m) && s.cur == Some(t)) ||
     (StepKeepsShape(s, es[0]); UnlocksIn(Step(s, es[0]), es[1..], t, m)))
  }

  lemma UnlockKeepsClaim(s: Sched, k: nat, t: Tid, m: nat)
    requires Inv(s) && Legal(s, Unlocked(k)) && Claims(s, t, m) && !(k == m && s.cur == Some(t))
    ensures var s' := Unlock(s, k).0;
            (t in s'.wait && s'.mu[t] == m) || s'.owner[m] == Some(t)
  {
    if InUse(s, k) && s.table[k].count >= 1 {
      assert Accounted(s, k);
      if s.table[k].count > 1 {
        HandOverMoves(s, k);
      } else {
        assert Waiters(s, k) == [];
        assert t in s.wait && s.mu[t] == k ==> t in Waiters(s, k);
      }
    }
  }

  /** A hand-over takes the first waiter off the queue and makes it the owner. */
  lemma HandOverMoves(s: Sched, k: nat)
    requires Inv(s) && InUse(s, k) && s.table[k].count > 1 && s.owner[k].Some?
    ensures var s' := Unlock(s, k).0;
            && Waiters(s, k) != [] && s'.owner == s.owner[k := Some(Waiters(s, k)[0])] && s'.mu == s.mu
            && s.mu[Waiters(s, k)[0]] == k
            && (forall t :: t in s.wait && t != Waiters(s, k)[0] ==> t in s'.wait)
            && Waiters(s, k)[0] in s'.ready
            && Waiters(s', k) == Waiters(s, k)[1..]
  {
    assert Accounted(s, k);
    ReleaseMoves(s, k);
    WaitersAfterRelease(s, k, k);
    assert Waiters(s, k)[0] in Waiters(s, k);
    assert Waiters(Unlock(s, k).0, k) == Waiters(Release(s, k), k);
  }

  lemma QuitKeepsClaim(s: Sched, t: Tid, m: nat)
    requires Inv(s) && Legal(s, Quit) && Claims(s, t, m)
    ensures var s' := Exit(s);
            (t in s'.wait && s'.mu[t] == m) || s'.owner[m] == Some(t)
  {
    var c := s.cur.value;
    assert Live(s, c);
    ReleaseMoves(s, c);
    WaitersAfterRelease(s, c, c);
    assert Released(s, c) == Some(t) ==> t in Waiters(s, c);
  }

  /** A lock or a join that has to wait. */
  ghost predicate Blocks(s: Sched, e: Event, m: nat) {
    (e == Acquire(m) || e == JoinThread(m)) && InUse(s, m) && s.table[m].count > 0
  }

  lemma BlockedCall(s: Sched, e: Event, m: nat)
    requires Inv(s) && Legal(s, e) && Blocks(s, e, m)
    ensures s.ready != [] && Step(s, e) == Contend(s, m)
    ensures var s' := Step(s, e);
            && s'.wait == s.wait + [s.cur.value] && s'.mu == s.mu[s.cur.value := m]
            && s'.owner == s.owner && s'.table == s.table[m := Slot(true, s.table[m].count + 1)]
            && s.cur.value !in s.wait
    ensures Waiters(Step(s, e), m) == Waiters(s, m) + [s.cur.value]
    ensures forall k :: k != m ==> Waiters(Step(s, e), k) == Waiters(s, k)
  {
    ContentionFindsReadyThread(s, m);
    ContendMoves(s, m);
    WaitersAfterContend(s, m, m);
    forall k | k != m
      ensures Waiters(Step(s, e), k) == Waiters(s, k)
    {
      WaitersAfterContend(s, m, k);
    }
  }

  /** Only destroying a slot and the exit of its thread free it. */
  lemma SlotStays(s: Sched, e: Event, m: nat)
    requires Shape(s) && Defined(s, e) && InUse(s, m)
    requires e != DestroyMutex(m) && !(e == Quit && s.cur == Some(m))
    ensures InUse(Step(s, e), m)
  {
  }

  /** A mutex that is held or waited for stays allocated, and stays a mutex. */
  lemma MutexStays(s: Sched, e: Event, m: nat)
    requires Inv(s) && Legal(s, e) && InUse(s, m) && !Live(s, m) && s.table[m].count > 0
    ensures InUse(Step(s, e), m) && !Live(Step(s, e), m)
  {
    LiveAfter(s, e);
    SlotStays(s, e, m);
  }

  lemma SpawnedSlotIsIdle(s: Sched)
    requires Inv(s) && FreeSlot(s) < |s.table|
    ensures s.table[FreeSlot(s)].count == 0 && FreeSlot(s) !in s.wait
  {
    assert Accounted(s, FreeSlot(s));
    assert !Live(s, FreeSlot(s));
  }

  lemma SpawnedSlotEffect(s: Sched, e: Event)
    requires Inv(s) && Legal(s, e) && (e.Spawn? || e.NewMutex?)
    ensures var s', i := Step(s, e), FreeSlot(s);
            && s'.wait == s.wait && s'.cur == s.cur && i !in s.wait && s.table[i].count == 0
            && (s'.mu == s.mu || s'.mu == s.mu[i := 0])
            && |s'.owner| == |s.owner| && forall m :: 0 <= m < |s.owner| && m != i ==> s'.owner[m] == s.owner[m]
  {
    SpawnedSlotIsIdle(s);
  }

  lemma OtherEffect(s: Sched, e: Event)
    requires Shape(s) && Defined(s, e) && !e.Unlocked? && !e.Quit? && !e.Spawn? && !e.NewMutex?
    requires (e.Acquire? || e.JoinThread?) ==> !Blocks(s, e, e.m)
    ensures var s' := Step(s, e);
            && s'.wait == s.wait && s'.mu == s.mu && |s'.owner| == |s.owner|
            && forall m :: 0 <= m < |s.table| && s.table[m].count > 0 && e != DestroyMutex(m) ==>
                 s'.owner[m] == s.owner[m]
  {
  }

  /** The calls that take nobody off the wait queue leave the waiters and the owners of busy slots alone. */
  lemma QuietEffect(s: Sched, e: Event, t: Tid, m: nat)
    requires Inv(s) && Legal(s, e) && !e.Unlocked? && !e.Quit? && InUse(s, m) && s.table[m].count > 0
    ensures var s' := Step(s, e);
            && |s'.mu| == |s.mu| && |s'.owner| == |s.owner|
            && (t in s.wait ==> t in s'.wait && s'.mu[t] == s.mu[t])
            && s'.owner[m] == s.owner[m]
  {
    if e.Spawn? || e.NewMutex? {
      SpawnedSlotEffect(s, e);
    } else if (e.Acquire? || e.JoinThread?) && Blocks(s, e, e.m) {
      BlockedCall(s, e, e.m);
    } else {
      OtherEffect(s, e);
    }
  }

  lemma StepKeepsClaim(s: Sched, e: Event, t: Tid, m: nat)
    requires Inv(s) && Legal(s, e) && Claims(s, t, m)
    requires !(e == Unlocked(m) && s.cur == Some(t))
    ensures Claims(Step(s, e), t, m)
  {
    assert s.table[m].count > 0 by {
      assert Accounted(s, m);
      assert t in s.wait && s.mu[t] == m ==> t in Waiters(s, m);
    }
    hide Partitioned, OrderOk, JoinersOk, CountsOk, OwnersOk;
    MutexStays(s, e, m);
    if e.Unlocked? {
      UnlockKeepsClaim(s, e.m, t, m);
    } else if e.Quit? {
      QuitKeepsClaim(s, t, m);
    } else {
      QuietEffect(s, e, t, m);
    }
  }

  /** Mutual exclusion as the callers see it: from a lock call to the matching unlock, the thread is out of the wait
      queue, and so can run, only while it is the one owner. */
  lemma {:induction false} LockReturnsToTheOwner(s: Sched, es: seq<Event>, t: Tid, m: nat)
    requires Inv(s) && LegalRun(s, es) && Claims(s, t, m) && !UnlocksIn(s, es, t, m)
    ensures Claims(Run(s, es), t, m)
    ensures Run(s, es).cur == Some(t) ==> Run(s, es).owner[m] == Some(t)
    decreases |es|
  {
    if es != [] {
      StepKeeps(s, es[0]);
      StepKeepsClaim(s, es[0], t, m);
      LockReturnsToTheOwner(Step(s, es[0]), es[1..], t, m);
    }
  }

  // ---- conservation of threads ----

  /** A spawn adds the one thread it names, an exit removes the one that runs, no other call changes who is live. */
  lemma LiveAfter(s: Sched, e: Event)
    requires Inv(s) && Legal(s, e)
    ensures forall t: Tid :: Live(Step(s, e), t) <==>
              (Live(s, t) && !(e.Quit? && s.cur == Some(t))) || (e.Spawn? && t == FreeSlot(s))
    ensures e.Spawn? ==> !Live(s, FreeSlot(s)) && !InUse(s, FreeSlot(s))
  {
    match e
    case Tick => if s.ready != [] { DispatchMoves(s); }
    case Spawn(r) => SpawnKeeps(s, r);
    case Quit =>
      LeaveKeeps(s);
      if Leave(s).ready != [] { DispatchMoves(Leave(s)); }
    case JoinThread(m) =>
      if InUse(s, m) {
        assert Accounted(s, m);
        ContendKeeps(s, m);
        ContendMoves(s, m);
      }
    case NewMutex(_) =>
    case Acquire(m) =>
      if InUse(s, m) && s.table[m].count > 0 {
        ContendKeeps(s, m);
        ContendMoves(s, m);
      }
    case Unlocked(m) =>
      if InUse(s, m) && s.table[m].count > 1 { ReleaseMoves(s, m); }
    case DestroyMutex(_) =>
  }

  // ---- bounded waiting ----

  /** The calls that make the head of the ready queue run. */
  ghost predicate Dispatches(s: Sched, e: Event)
    requires Shape(s) && Defined(s, e)
  {
    match e
    case Tick => s.ready != []
    case Quit => Leave(s).ready != []
    case Acquire(m) => InUse(s, m) && s.table[m].count > 0 && s.ready != []
    case JoinThread(m) => InUse(s, m) && s.table[m].count > 0 && s.ready != []
    case _ => false
  }

  ghost predicate QueuedAt(s: Sched, i: int, t: Tid) { 0 <= i < |s.ready| && s.ready[i] == t }

  /** A dispatch takes the head off the ready queue; every other call leaves the queue as a prefix and CURRENT in
      place. */
  lemma ReadyQueueMoves(s: Sched, e: Event, k: nat, t: Tid)
    requires Shape(s) && Defined(s, e) && QueuedAt(s, k, t)
    ensures var s' := Step(s, e);
            if !Dispatches(s, e) then QueuedAt(s', k, t) && s'.cur == s.cur
            else if k == 0 then s'.cur == Some(t)
            else QueuedAt(s', k - 1, t)
  {
    assert e.Quit? ==> QueuedAt(Leave(s), k, t);
  }

  ghost function DispatchesIn(s: Sched, es: seq<Event>): nat
    requires Shape(s) && DefinedRun(s, es)
    decreases |es|
  {
    if es == [] then 0
    else
      StepKeepsShape(s, es[0]);
      (if Dispatches(s, es[0]) then 1 else 0) + DispatchesIn(Step(s, es[0]), es[1..])
  }

  /** A thread at index k of the ready queue is still in the queue after up to k dispatches, one place nearer for each,
      whatever calls there were. */
  lemma {:induction false} ReadyThreadAdvances(s: Sched, es: seq<Event>, k: nat, t: Tid)
    requires Shape(s) && DefinedRun(s, es) && QueuedAt(s, k, t) && DispatchesIn(s, es) <= k
    ensures QueuedAt(Run(s, es), k - DispatchesIn(s, es), t)
    decreases |es|
  {
    if es != [] {
      StepKeepsShape(s, es[0]);
      ReadyQueueMoves(s, es[0], k, t);
      ReadyThreadAdvances(Step(s, es[0]), es[1..], if Dispatches(s, es[0]) then k - 1 else k, t);
    }
  }

  /** Bounded waiting: the thread at index k becomes CURRENT at exactly the (k + 1)st dispatch. */
  lemma ReadyThreadRunsAfterItsIndex(s: Sched, es: seq<Event>, k: nat, e: Event)
    requires Shape(s) && DefinedRun(s, es) && k < |s.ready| && DispatchesIn(s, es) == k
    requires Defined(Run(s, es), e) && Dispatches(Run(s, es), e)
    ensures Step(Run(s, es), e).cur == Some(s.ready[k])
  {
    ReadyThreadAdvances(s, es, k, s.ready[k]);
    ReadyQueueMoves(Run(s, es), e, 0, s.ready[k]);
  }

  // ---- FIFO hand-over ----

  ghost function UnlocksOf(es: seq<Event>, m: nat): nat {
    if es == [] then 0 else (if es[0] == Unlocked(m) then 1 else 0) + UnlocksOf(es[1..], m)
  }

  /** An unlock takes the head off the waiters of its mutex; every other call leaves them as a prefix. */
  lemma WaitersMove(s: Sched, e: Event, m: nat, k: nat)
    requires Inv(s) && Legal(s, e) && InUse(s, m) && !Live(s, m) && k < |Waiters(s, m)|
    ensures var s' := Step(s, e);
            && InUse(s', m) && !Live(s', m)
            && if e != Unlocked(m) then k < |Waiters(s', m)| && Waiters(s', m)[k] == Waiters(s, m)[k]
               else if k == 0 then s'.owner[m] == Some(Waiters(s, m)[0]) && Waiters(s, m)[0] in s'.ready
               else k - 1 < |Waiters(s', m)| && Waiters(s', m)[k - 1] == Waiters(s, m)[k]
  {
    assert Accounted(s, m);
    hide Partitioned, OrderOk, JoinersOk, CountsOk, OwnersOk;
    MutexStays(s, e, m);
    if e.Unlocked? {
      UnlockMovesWaiters(s, e.m, m);
    } else {
      OtherCallsKeepWaiters(s, e, m);
    }
  }

  lemma OtherCallsKeepWaiters(s: Sched, e: Event, m: nat)
    requires Inv(s) && Legal(s, e) && InUse(s, m) && !Live(s, m) && !e.Unlocked?
    ensures Waiters(s, m) <= Waiters(Step(s, e), m)
  {
    hide Partitioned, OrderOk, JoinersOk, CountsOk;
    if e.Quit? {
      assert Live(s, s.cur.value);
      WaitersAfterRelease(s, s.cur.value, m);
      assert Waiters(Step(s, e), m) == Waiters(Release(s, s.cur.value), m);
    } else if j :| Blocks(s, e, j) {
      BlockedCall(s, e, j);
    } else if e.Spawn? {
      SpawnedSlotIsIdle(s);
      FilterCongruence(s.wait, WaitsOn(Step(s, e).mu, m), WaitsOn(s.mu, m));
    } else {
      QuietWaiters(s, e, m);
    }
  }

  /** The calls that touch neither the wait queue nor what anyone waits for. */
  lemma QuietWaiters(s: Sched, e: Event, m: nat)
    requires Inv(s) && Legal(s, e) && (e.Tick? || e.NewMutex? || e.Acquire? || e.JoinThread? || e.DestroyMutex?)
    requires !exists j :: Blocks(s, e, j)
    ensures Waiters(Step(s, e), m) == Waiters(s, m)
  {
    if e.Acquire? {
      assert !Blocks(s, e, e.m);
    } else if e.JoinThread? {
      assert !Blocks(s, e, e.m);
    }
  }

  lemma UnlockMovesWaiters(s: Sched, k: nat, m: nat)
    requires Inv(s) && Legal(s, Unlocked(k)) && InUse(s, m) && Waiters(s, m) != []
    ensures var s' := Unlock(s, k).0;
            if k == m then
              && s'.owner[m] == Some(Waiters(s, m)[0]) && Waiters(s, m)[0] in s'.ready
              && Waiters(s', m) == Waiters(s, m)[1..]
            else Waiters(s', m) == Waiters(s, m)
  {
    assert Accounted(s, m);
    if InUse(s, k) {
      assert Accounted(s, k);
      if s.table[k].count > 1 {
        HandOverMoves(s, k);
        WaitersAfterRelease(s, k, m);
        assert Waiters(Unlock(s, k).0, m) == Waiters(Release(s, k), m);
      }
    }
  }

  /** One call of a run, seen from index k of the waiters of mutex `m`. */
  lemma FirstCallMovesWaiters(s: Sched, es: seq<Event>, m: nat, k: nat) returns (s1: Sched, k1: nat)
    requires Inv(s) && LegalRun(s, es) && InUse(s, m) && !Live(s, m) && es != []
    requires k < |Waiters(s, m)| && UnlocksOf(es, m) <= k
    ensures Inv(s1) && LegalRun(s1, es[1..]) && Run(s1, es[1..]) == Run(s, es)
    ensures InUse(s1, m) && !Live(s1, m) && k1 < |Waiters(s1, m)| && Waiters(s1, m)[k1] == Waiters(s, m)[k]
    ensures k1 - UnlocksOf(es[1..], m) == k - UnlocksOf(es, m)
  {
    StepKeeps(s, es[0]);
    WaitersMove(s, es[0], m, k);
    s1 := Step(s, es[0]);
    k1 := if es[0] == Unlocked(m) then k - 1 else k;
  }

  /** A waiter with k waiters before it in the queue of its mutex still has k - n before it after n <= k unlocks of that
      mutex, whatever happens elsewhere. */
  lemma {:induction false} WaiterAdvances(s: Sched, es: seq<Event>, m: nat, k: nat)
    requires Inv(s) && LegalRun(s, es) && InUse(s, m) && !Live(s, m)
    requires k < |Waiters(s, m)| && UnlocksOf(es, m) <= k
    ensures var s', i := Run(s, es), k - UnlocksOf(es, m);
            InUse(s', m) && !Live(s', m) && i < |Waiters(s', m)| && Waiters(s', m)[i] == Waiters(s, m)[k]
    decreases |es|
  {
    hide Inv, Legal, LegalRun, Step;
    if es != [] {
      var s1, k1 := FirstCallMovesWaiters(s, es, m, k);
      WaiterAdvances(s1, es[1..], m, k1);
    }
  }

  /** FIFO hand-over: it becomes the owner, and ready, at exactly the (k + 1)st unlock. */
  lemma WaiterOwnsAfterItsIndex(s: Sched, es: seq<Event>, m: nat, k: nat)
    requires Inv(s) && LegalRun(s, es) && InUse(s, m) && !Live(s, m)
    requires k < |Waiters(s, m)| && UnlocksOf(es, m) == k && Legal(Run(s, es), Unlocked(m))
    ensures Gets(Step(Run(s, es), Unlocked(m)), m, Waiters(s, m)[k])
  {
    WaiterAdvances(s, es, m, k);
    RunKeeps(s, es);
    NextUnlock(Run(s, es), m);
  }

  ghost predicate Gets(s: Sched, m: nat, t: Tid) { m < |s.owner| && s.owner[m] == Some(t) && t in s.ready }

  lemma NextUnlock(s: Sched, m: nat)
    requires Inv(s) && Legal(s, Unlocked(m)) && InUse(s, m) && Waiters(s, m) != []
    ensures Gets(Step(s, Unlocked(m)), m, Waiters(s, m)[0])
  {
    UnlockMovesWaiters(s, m, m);
  }

  // ---- join ----

  /** Thread `t` has joined thread `u` and is queued for it. */
  ghost predicate Joining(s: Sched, t: Tid, u: Tid) {
    t in s.wait && t < |s.mu| && s.mu[t] == u && Live(s, u)
  }

  lemma JoinQueues(s: Sched, u: Tid)
    requires Inv(s) && Legal(s, JoinThread(u)) && InUse(s, u)
    ensures Joining(Step(s, JoinThread(u)), s.cur.value, u)
  {
    assert Accounted(s, u);
    BlockedCall(s, JoinThread(u), u);
    LiveAfter(s, JoinThread(u));
  }

  ghost predicate QuitsIn(s: Sched, es: seq<Event>, u: Tid)
    requires Shape(s) && DefinedRun(s, es)
    decreases |es|
  {
    es != [] &&
    ((es[0] == Quit && s.cur == Some(u)) || (StepKeepsShape(s, es[0]); QuitsIn(Step(s, es[0]), es[1..], u)))
  }

  lemma StepKeepsJoining(s: Sched, e: Event, t: Tid, u: Tid)
    requires Inv(s) && Legal(s, e) && Joining(s, t, u) && !(e == Quit && s.cur == Some(u))
    ensures Joining(Step(s, e), t, u)
  {
    LiveAfter(s, e);
    assert t in Waiters(s, u);
    if e.Unlocked? {
      if InUse(s, e.m) && s.table[e.m].count > 1 {
        assert Accounted(s, e.m);
        HandOverMoves(s, e.m);
      }
    } else if e.Quit? {
      ReleaseMoves(s, s.cur.value);
      WaitersAfterRelease(s, s.cur.value, s.cur.value);
      var r := Released(s, s.cur.value);
      assert r.Some? ==> r.value in Waiters(s, s.cur.value);
    } else {
      assert Accounted(s, u);
      QuietEffect(s, e, t, u);
    }
  }

  /** A join that blocked returns only after its target has exited: while the target has not, the caller stays queued
      and the target stays live. */
  lemma {:induction false} JoinReturnsAfterExit(s: Sched, es: seq<Event>, t: Tid, u: Tid)
    requires Inv(s) && LegalRun(s, es) && Joining(s, t, u)
    ensures QuitsIn(s, es, u) || Joining(Run(s, es), t, u)
    decreases |es|
  {
    if es != [] && !QuitsIn(s, es, u) {
      StepKeeps(s, es[0]);
      StepKeepsJoining(s, es[0], t, u);
      JoinReturnsAfterExit(Step(s, es[0]), es[1..], t, u);
    }
  }

  /** The exit that it waits for makes the joiner ready. */
  lemma ExitWakesTheJoiner(s: Sched, t: Tid)
    requires Inv(s) && Legal(s, Quit) && Joining(s, t, s.cur.value)
    ensures t in Leave(s).ready && !Live(Step(s, Quit), s.cur.value)
    ensures s.cur.value != 0 && !Step(s, Quit).table[s.cur.value].used
  {
    var c := s.cur.value;
    assert t in Waiters(s, c);
    assert Live(s, c);
    WaitersAfterRelease(s, c, c);
    ReleaseMoves(s, c);
    LiveAfter(s, Quit);
    assert Accounted(s, c);
  }

  // ---- what a call does to a thread that does not make it ----

  lemma UnlockSparesOthers(s: Sched, m: nat, t: Tid, k: nat)
    requires Inv(s) && Legal(s, Unlocked(m)) && k < |s.table|
    ensures var s' := Unlock(s, m).0;
            && s'.mu == s.mu && s'.rank == s.rank
            && (t in s'.wait ==> t in s.wait)
            && (s'.owner[k] == Some(t) ==> s.owner[k] == Some(t) || (t in s.wait && s.mu[t] == k && t !in s'.wait))
            && (t in s.wait && t !in s'.wait ==> s'.owner[s.mu[t]] == Some(t))
  {
    if InUse(s, m) && s.table[m].count > 1 {
      assert Accounted(s, m);
      HandOverMoves(s, m);
      assert Waiters(s, m)[0] in Waiters(s, m);
      ReleaseMoves(s, m);
    }
  }

  lemma QuitSparesOthers(s: Sched, t: Tid, k: nat)
    requires Inv(s) && Legal(s, Quit) && k < |s.table|
    ensures var s' := Exit(s);
            && s'.mu == s.mu && s'.rank == s.rank
            && (t in s'.wait ==> t in s.wait)
            && (s'.owner[k] == Some(t) ==> s.owner[k] == Some(t))
            && (t in s.wait && t !in s'.wait ==> s.cur == Some(s.mu[t]))
  {
    hide Partitioned, CountsOk, OrderOk, JoinersOk;
    var c := s.cur.value;
    assert Live(s, c);
    ReleaseMoves(s, c);
    WaitersAfterRelease(s, c, c);
    var r := Released(s, c);
    assert r.Some? ==> r.value in Waiters(s, c);
  }

  lemma BlockSparesOthers(s: Sched, e: Event, m: nat, t: Tid)
    requires Inv(s) && Legal(s, e) && Blocks(s, e, m) && s.cur != Some(t)
    ensures var s' := Step(s, e);
            && s'.owner == s.owner && s'.rank == s.rank
            && (t in s'.wait <==> t in s.wait) && (t < |s.mu| ==> s'.mu[t] == s.mu[t])
  {
    BlockedCall(s, e, m);
    ContendMoves(s, m);
  }

  /** A thread that does not make the call keeps its place in what it waits for, and comes to own a slot only by being
      taken off the queue of that slot; ranks of slots in use do not change. */
  lemma OthersEffect(s: Sched, e: Event, t: Tid, k: nat)
    requires Inv(s) && Legal(s, e) && Live(s, t) && s.cur != Some(t) && k < |s.table|
    ensures var s' := Step(s, e);
            && Live(s', t) && |s'.mu| == |s'.owner| == |s'.rank| == |s.table|
            && s'.mu[t] == s.mu[t]
            && (t in s'.wait ==> t in s.wait)
            && (s'.owner[k] == Some(t) ==> s.owner[k] == Some(t) || (t in s.wait && s.mu[t] == k && t !in s'.wait))
            && (t in s.wait && t !in s'.wait ==> s'.owner[s.mu[t]] == Some(t) || (e == Quit && s.cur == Some(s.mu[t])))
            && (InUse(s, k) ==> s'.rank[k] == s.rank[k])
  {
    hide Partitioned, OwnersOk, CountsOk, OrderOk, JoinersOk;
    LiveAfter(s, e);
    StepKeepsShape(s, e);
    if e.Unlocked? {
      UnlockSparesOthers(s, e.m, t, k);
    } else if e.Quit? {
      QuitSparesOthers(s, t, k);
    } else if e.Spawn? || e.NewMutex? {
      SpawnedSlotEffect(s, e);
    } else if (e.Acquire? || e.JoinThread?) && Blocks(s, e, e.m) {
      BlockSparesOthers(s, e, e.m, t);
    }
  }
}
