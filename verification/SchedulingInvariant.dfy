/** What every library call keeps: the threads are partitioned, every slot's count is exact, and blocked threads wait
    above everything they hold. */
module SchedulingInvariant {
  import opened Util
  import opened Scheduling

  /** Each live thread is in one place: running, in the ready queue once, or in the wait queue once. */
  ghost predicate Partitioned(cur: Option<Tid>, ready: seq<Tid>, wait: seq<Tid>) {
    && NoDuplicates(ready) && NoDuplicates(wait)
    && (forall t :: t in ready ==> t !in wait)
    && (cur.Some? ==> cur.value !in ready && cur.value !in wait)
  }

  /** Every live thread but the main one holds its own slot; slot 0 is in nobody's hands; owners are live. */
  ghost predicate OwnersOk(s: Sched)
    requires Shape(s)
  {
    && !s.table[0].used
    && (forall t: Tid :: Live(s, t) && t != 0 ==> s.table[t].used && s.owner[t] == Some(t))
    && (forall m :: 0 <= m < |s.table| && s.owner[m].Some? ==> s.table[m].used && Live(s, s.owner[m].value))
  }

  /** The count of a slot is its owner plus its waiters, and waiters imply an owner. */
  ghost predicate Accounted(s: Sched, m: nat)
    requires Shape(s) && m < |s.table|
  {
    && s.table[m].count == (if s.owner[m].Some? then 1 else 0) + |Waiters(s, m)|
    && (Waiters(s, m) != [] ==> s.owner[m].Some?)
    && (!s.table[m].used ==> s.table[m].count == 0)
  }

  ghost predicate CountsOk(s: Sched)
    requires Shape(s)
  {
    forall m :: 0 <= m < |s.table| ==> Accounted(s, m)
  }

  /** A blocked thread waits on a slot of the table that is above every slot it holds. */
  ghost predicate OrderOk(s: Sched)
    requires Shape(s)
  {
    forall t :: t in s.wait ==>
      && s.mu[t] < |s.table|
      && forall k :: 0 <= k < |s.table| && s.owner[k] == Some(t) ==> s.rank[k] < s.rank[s.mu[t]]
  }

  /** At most one thread is joining each thread. */
  ghost predicate JoinersOk(s: Sched) {
    forall t: Tid :: Live(s, t) ==> |Waiters(s, t)| <= 1
  }

  ghost predicate Inv(s: Sched) {
    && Shape(s)
    && Partitioned(s.cur, s.ready, s.wait)
    && OwnersOk(s)
    && CountsOk(s)
    && OrderOk(s)
    && JoinersOk(s)
  }

  // ---- no deadlock ----

  /** Some waiter waits on a slot of the highest rank. */
  lemma {:induction false} HighestWaiter(s: Sched, q: seq<Tid>) returns (w: Tid)
    requires Shape(s) && q != []
    requires forall t :: t in q ==> t < |s.table| && s.mu[t] < |s.table|
    ensures w in q && forall t :: t in q ==> s.rank[s.mu[t]] <= s.rank[s.mu[w]]
  {
    w := q[0];
    assert w in q;
    if |q| > 1 {
      assert forall t :: t in q[1..] ==> t in q;
      var v := HighestWaiter(s, q[1..]);
      if s.rank[s.mu[w]] < s.rank[s.mu[v]] {
        w := v;
      }
      assert forall t :: t in q ==> t == q[0] || t in q[1..];
    }
  }

  /** The slot of the highest waiter is held by a thread that is not waiting. */
  lemma HighestSlotIsHeldByARunnable(s: Sched) returns (w: Tid, p: Tid)
    requires Inv(s) && s.wait != []
    ensures w in s.wait && s.mu[w] < |s.table| && s.owner[s.mu[w]] == Some(p)
    ensures forall t :: t in s.wait ==> s.rank[s.mu[t]] <= s.rank[s.mu[w]]
    ensures s.cur == Some(p) || p in s.ready
  {
    assert forall t :: t in s.wait ==> Live(s, t);
    w := HighestWaiter(s, s.wait);
    assert w in Waiters(s, s.mu[w]);
    assert Accounted(s, s.mu[w]);
    p := s.owner[s.mu[w]].value;
    assert Live(s, p);
  }

  /** Whenever CURRENT would have to wait in the locking order, another thread is ready, so the case "no other thread
      to schedule" of schedule_swap_current_to_wait never happens. */
  lemma ContentionFindsReadyThread(s: Sched, m: nat)
    requires Inv(s) && s.cur.Some? && m < |s.table| && s.table[m].count > 0 && InOrder(s, m)
    ensures s.ready != []
  {
    assert Accounted(s, m);
    var o := s.owner[m].value;
    assert Live(s, o);
    if s.ready == [] {
      var w, p := HighestSlotIsHeldByARunnable(s);
    }
  }

  /** With no CURRENT, some thread is ready as long as any is live. */
  lemma SomeThreadIsReady(s: Sched)
    requires Inv(s) && s.cur.None?
    ensures s.ready != [] || s.wait == []
  {
    if s.wait != [] {
      var w, p := HighestSlotIsHeldByARunnable(s);
    }
  }

  // ---- the waiters of a slot ----

  /** CURRENT joins the tail of the wait queue: it is the last waiter of `m`, and no other slot's waiters change. */
  lemma WaitersAfterContend(s: Sched, m: nat, k: nat)
    requires Shape(s) && s.cur.Some? && s.cur.value !in s.wait && m < |s.table| && s.ready != []
    ensures Waiters(Contend(s, m), k) == if k == m then Waiters(s, k) + [s.cur.value] else Waiters(s, k)
  {
    var c := s.cur.value;
    var mu' := s.mu[c := m];
    FilterConcat(s.wait, [c], WaitsOn(mu', k));
    FilterCongruence(s.wait, WaitsOn(mu', k), WaitsOn(s.mu, k));
    assert [c][1..] == [];
  }

  /** Releasing a slot takes its first waiter, and no other slot's waiters change. */
  lemma WaitersAfterRelease(s: Sched, m: nat, k: nat)
    ensures Released(s, m).None? <==> Waiters(s, m) == []
    ensures Released(s, m).Some? ==> Waiters(s, m)[0] == Released(s, m).value
    ensures Waiters(Release(s, m), k) == if k == m && Waiters(s, m) != [] then Waiters(s, m)[1..] else Waiters(s, k)
  {
    var p := WaitsOn(s.mu, m);
    var i := Find(s.wait, p);
    if i < |s.wait| {
      FilterWithoutFirst(s.wait, p, i);
      if k != m {
        FilterWithoutOther(s.wait, WaitsOn(s.mu, k), i);
      }
    } else {
      FilterNone(s.wait, p);
    }
  }

  lemma ReleaseMoves(s: Sched, m: nat)
    requires Partitioned(s.cur, s.ready, s.wait)
    ensures var s' := Release(s, m);
            && Partitioned(s'.cur, s'.ready, s'.wait)
            && (forall t: Tid :: Live(s', t) <==> Live(s, t))
            && (forall t :: t in s'.wait ==> t in s.wait)
            && (forall t :: t in s.wait && Released(s, m) != Some(t) ==> t in s'.wait)
            && (Released(s, m).Some? ==> Released(s, m).value !in s'.wait && Released(s, m).value in s'.ready)
  {
    var i := Find(s.wait, WaitsOn(s.mu, m));
    if i < |s.wait| {
      NoDuplicatesWithout(s.wait, i);
      NoDuplicatesSnoc(s.ready, s.wait[i]);
    }
  }

  /** The head of the ready queue runs; the old CURRENT, if any, goes to the tail of the ready or of the wait queue. */
  lemma DispatchMoves(s: Sched)
    requires Partitioned(s.cur, s.ready, s.wait) && s.ready != []
    ensures Partitioned(Schedule(s).cur, Schedule(s).ready, Schedule(s).wait)
    ensures forall t: Tid :: Live(Schedule(s), t) <==> Live(s, t)
    ensures s.cur.Some? ==> var s' := BlockCurrent(s);
                            Partitioned(s'.cur, s'.ready, s'.wait) && forall t: Tid :: Live(s', t) <==> Live(s, t)
  {
    NoDuplicatesTail(s.ready);
    if s.cur.Some? {
      NoDuplicatesSnoc(s.ready[1..], s.cur.value);
      NoDuplicatesSnoc(s.wait, s.cur.value);
    }
  }

  // ---- what each call keeps ----

  lemma ScheduleKeeps(s: Sched)
    requires Inv(s)
    ensures Inv(Schedule(s))
  {
    if s.ready != [] {
      DispatchMoves(s);
      SameSlotsKeep(s, Schedule(s));
    }
  }

  /** Nothing that concerns the slots depends on who is running and who is ready. */
  lemma SameSlotsKeep(s: Sched, s': Sched)
    requires Inv(s) && Partitioned(s'.cur, s'.ready, s'.wait)
    requires s' == s.(cur := s'.cur, ready := s'.ready)
    requires forall t: Tid :: Live(s', t) <==> Live(s, t)
    ensures Inv(s')
  {
    assert forall t: Tid :: Live(s, t) ==> t < |s.table|;
    assert forall t: Tid :: t in s'.ready ==> Live(s', t);
    assert s'.cur.Some? ==> Live(s', s'.cur.value);
    forall m | 0 <= m < |s.table|
      ensures Accounted(s', m)
    {
      assert Accounted(s, m);
    }
    forall t: Tid | Live(s', t)
      ensures |Waiters(s', t)| <= 1
    {
      assert Live(s, t);
    }
  }

  /** A slot that changes hands without touching the queues or the order. */
  lemma SetSlotKeeps(s: Sched, m: nat, slot: Slot, owner: Option<Tid>)
    requires Inv(s) && m < |s.table| && m >= 1
    requires var s' := SetSlot(s, m, slot, owner); Accounted(s', m)
    requires !Live(s, m) && (owner.Some? ==> slot.used && Live(s, owner.value) && owner.value !in s.wait)
    ensures Inv(SetSlot(s, m, slot, owner))
  {
    var s' := SetSlot(s, m, slot, owner);
    forall k | 0 <= k < |s.table|
      ensures Accounted(s', k)
    {
      assert Accounted(s, k);
      assert Waiters(s', k) == Waiters(s, k);
    }
    forall t: Tid | Live(s', t)
      ensures |Waiters(s', t)| <= 1
    {
      assert Live(s, t);
      assert Waiters(s', t) == Waiters(s, t);
    }
  }

  lemma MutexInitKeeps(s: Sched, rank: int)
    requires Inv(s) && FreeSlot(s) < |s.table|
    ensures Inv(MutexInit(s, rank))
  {
    var i := FreeSlot(s);
    assert Accounted(s, i);
    assert !Live(s, i);
    assert s.owner[i].None?;
    SetSlotKeeps(s, i, Slot(true, 0), None);
    RankKeeps(SetSlot(s, i, Slot(true, 0), None), i, rank);
  }

  /** The rank of a slot that nobody holds and nobody waits on is free to choose. */
  lemma RankKeeps(s: Sched, i: nat, r: int)
    requires Inv(s) && i < |s.table| && s.owner[i].None? && Waiters(s, i) == []
    ensures Inv(s.(rank := s.rank[i := r]))
  {
    var s' := s.(rank := s.rank[i := r]);
    forall t | t in s'.wait
      ensures s'.mu[t] != i
    {
      assert t in s.wait;
      assert s.mu[t] != i || t in Waiters(s, i);
    }
    forall k | 0 <= k < |s.table|
      ensures Accounted(s', k)
    {
      assert Accounted(s, k);
    }
    forall t: Tid | Live(s', t)
      ensures |Waiters(s', t)| <= 1
    {
      assert Live(s, t);
    }
  }

  lemma AcquireFreeKeeps(s: Sched, m: nat)
    requires Inv(s) && s.cur.Some? && InUse(s, m) && !Live(s, m) && s.table[m].count == 0
    ensures Inv(Lock(s, m).0)
  {
    assert Accounted(s, m);
    assert m != 0;
    SetSlotKeeps(s, m, Slot(true, 1), s.cur);
  }

  lemma ContendMoves(s: Sched, m: nat)
    requires Inv(s) && s.cur.Some? && m < |s.table| && s.ready != []
    ensures var s' := Contend(s, m);
            && Shape(s') && Partitioned(s'.cur, s'.ready, s'.wait)
            && (forall t: Tid :: Live(s', t) <==> Live(s, t))
            && s'.wait == s.wait + [s.cur.value] && s'.mu == s.mu[s.cur.value := m]
            && s'.owner == s.owner && s'.rank == s.rank
            && s'.table == s.table[m := Slot(true, s.table[m].count + 1)]
  {
    DispatchMoves(s);
    var s', b := Contend(s, m), BlockCurrent(s);
    assert s' == b.(table := s'.table, owner := s'.owner, mu := s'.mu);
    assert forall t: Tid :: Live(s', t) <==> Live(b, t);
    LiveBound(s, s');
  }

  lemma LiveBound(s: Sched, s': Sched)
    requires Shape(s) && forall t: Tid :: Live(s', t) ==> Live(s, t)
    ensures s'.cur.Some? ==> s'.cur.value < |s.table|
    ensures forall t :: t in s'.ready ==> t < |s.table|
    ensures forall t :: t in s'.wait ==> t < |s.table|
  {
    assert s'.cur.Some? ==> Live(s', s'.cur.value);
    assert forall t: Tid :: t in s'.ready || t in s'.wait ==> Live(s', t);
    assert forall t: Tid :: Live(s, t) ==> t < |s.table|;
  }

  lemma ContendAccounts(s: Sched, m: nat, k: nat)
    requires Inv(s) && s.cur.Some? && InUse(s, m) && s.table[m].count > 0 && s.ready != [] && k < |s.table|
    requires Shape(Contend(s, m))
    ensures Accounted(Contend(s, m), k)
  {
    assert Accounted(s, k);
    WaitersAfterContend(s, m, k);
  }

  lemma ContendOrdered(s: Sched, m: nat)
    requires Inv(s) && s.cur.Some? && InUse(s, m) && InOrder(s, m) && s.ready != []
    requires Shape(Contend(s, m))
    ensures OrderOk(Contend(s, m))
  {
    var s' := Contend(s, m);
    forall t | t in s'.wait
      ensures s'.mu[t] < |s.table|
      ensures forall k :: 0 <= k < |s.table| && s'.owner[k] == Some(t) ==> s'.rank[k] < s'.rank[s'.mu[t]]
    {
      assert t in s.wait || t == s.cur.value;
    }
  }

  /** A call that blocks, in the locking order, on a slot that is a mutex or that nobody else is joining. */
  lemma ContendKeeps(s: Sched, m: nat)
    requires Inv(s) && s.cur.Some? && InUse(s, m) && s.table[m].count > 0 && InOrder(s, m)
    requires !Live(s, m) || Waiters(s, m) == []
    ensures s.ready != [] && Inv(Contend(s, m))
  {
    ContentionFindsReadyThread(s, m);
    ContendMoves(s, m);
    var s' := Contend(s, m);
    forall k | 0 <= k < |s.table|
      ensures Accounted(s', k)
    {
      ContendAccounts(s, m, k);
    }
    ContendOrdered(s, m);
    forall t: Tid | Live(s', t)
      ensures |Waiters(s', t)| <= 1
    {
      assert Live(s, t);
      WaitersAfterContend(s, m, t);
    }
  }

  lemma SpawnAccounts(s: Sched, rank: int, k: nat)
    requires Inv(s) && FreeSlot(s) < |s.table| && k < |s.table| && Shape(Create(s, rank))
    ensures Accounted(Create(s, rank), k) && Waiters(Create(s, rank), k) == Waiters(s, k)
  {
    hide Partitioned, OrderOk, JoinersOk;
    var i := FreeSlot(s);
    var s' := Create(s, rank);
    assert Accounted(s, i) && Accounted(s, k);
    assert !Live(s, i);
    FilterCongruence(s.wait, WaitsOn(s'.mu, k), WaitsOn(s.mu, k));
  }

  lemma SpawnOwners(s: Sched, rank: int)
    requires Inv(s) && FreeSlot(s) < |s.table|
    ensures !Live(s, FreeSlot(s))
    ensures Shape(Create(s, rank)) && OwnersOk(Create(s, rank)) && OrderOk(Create(s, rank))
    ensures Partitioned(Create(s, rank).cur, Create(s, rank).ready, Create(s, rank).wait)
  {
    hide JoinersOk;
    var i := FreeSlot(s);
    var s' := Create(s, rank);
    assert Accounted(s, i);
    assert !Live(s, i);
    NoDuplicatesSnoc(s.ready, i);
    forall t | t in s'.wait
      ensures s'.mu[t] < |s.table| && s'.mu[t] != i
      ensures forall k :: 0 <= k < |s.table| && s'.owner[k] == Some(t) ==> s'.rank[k] < s'.rank[s'.mu[t]]
    {
      assert t in s.wait && t != i;
      assert s.mu[t] != i || t in Waiters(s, i);
    }
  }

  lemma SpawnKeeps(s: Sched, rank: int)
    requires Inv(s) && FreeSlot(s) < |s.table|
    ensures Inv(Create(s, rank))
    ensures !Live(s, FreeSlot(s))
    ensures forall t: Tid :: Live(Create(s, rank), t) <==> Live(s, t) || t == FreeSlot(s)
  {
    var i := FreeSlot(s);
    var s' := Create(s, rank);
    SpawnOwners(s, rank);
    assert Accounted(s, i);
    hide OwnersOk, OrderOk, Partitioned;
    assert forall t: Tid :: Live(s', t) <==> Live(s, t) || t == i;
    forall k | 0 <= k < |s.table|
      ensures Accounted(s', k) && Waiters(s', k) == Waiters(s, k)
    {
      SpawnAccounts(s, rank, k);
    }
    forall t: Tid | Live(s', t)
      ensures |Waiters(s', t)| <= 1
    {
      assert t == i || Live(s, t);
    }
  }

  /** Unlocking a mutex that is waited for hands it to the first waiter. */
  lemma UnlockHandsOver(s: Sched, m: nat)
    requires Inv(s) && s.cur.Some? && InUse(s, m) && !Live(s, m) && s.owner[m] == s.cur && s.table[m].count > 1
    ensures Waiters(s, m) != []
    ensures Released(s, m) == Some(Waiters(s, m)[0])
  {
    assert Accounted(s, m);
    WaitersAfterRelease(s, m, m);
  }

  lemma UnlockKeeps(s: Sched, m: nat)
    requires Inv(s) && s.cur.Some? && InUse(s, m) && !Live(s, m)
    requires s.table[m].count > 0 ==> s.owner[m] == s.cur
    ensures Inv(Unlock(s, m).0)
  {
    assert Accounted(s, m);
    if s.table[m].count == 1 {
      SetSlotKeeps(s, m, Slot(true, 0), None);
    } else if s.table[m].count > 1 {
      UnlockHandsOver(s, m);
      ReleaseMoves(s, m);
      ReleaseKeeps(s, m, Released(s, m).value);
    }
  }

  lemma HandOverAccounts(s: Sched, m: nat, w: Tid, k: nat)
    requires Inv(s) && InUse(s, m) && s.table[m].count > 1 && Released(s, m) == Some(w) && k < |s.table|
    requires Shape(Unlock(s, m).0)
    ensures Accounted(Unlock(s, m).0, k)
  {
    assert Accounted(s, k);
    WaitersAfterRelease(s, m, k);
    assert Waiters(Unlock(s, m).0, k) == Waiters(Release(s, m), k);
  }

  /** The state after a hand-over. */
  lemma ReleaseOwners(s: Sched, m: nat, w: Tid)
    requires Inv(s) && InUse(s, m) && !Live(s, m) && s.table[m].count > 1 && Released(s, m) == Some(w)
    ensures Shape(Unlock(s, m).0) && OwnersOk(Unlock(s, m).0) && OrderOk(Unlock(s, m).0)
  {
    hide CountsOk, JoinersOk;
    ReleaseMoves(s, m);
    assert forall t: Tid :: Live(Unlock(s, m).0, t) <==> Live(Release(s, m), t);
    LiveBound(s, Unlock(s, m).0);
  }

  lemma ReleaseKeeps(s: Sched, m: nat, w: Tid)
    requires Inv(s) && InUse(s, m) && !Live(s, m) && s.table[m].count > 1 && Released(s, m) == Some(w)
    ensures Inv(Unlock(s, m).0)
  {
    var s' := Unlock(s, m).0;
    ReleaseOwners(s, m, w);
    hide OwnersOk, OrderOk;
    ReleaseMoves(s, m);
    assert forall t: Tid :: Live(s', t) <==> Live(Release(s, m), t);
    LiveBound(s, s');
    forall k | 0 <= k < |s.table|
      ensures Accounted(s', k)
    {
      HandOverAccounts(s, m, w, k);
    }
    forall t: Tid | Live(s', t)
      ensures |Waiters(s', t)| <= 1
    {
      assert Live(s, t);
      WaitersAfterRelease(s, m, t);
      assert Waiters(s', t) == Waiters(Release(s, m), t);
    }
  }

  lemma DestroyKeeps(s: Sched, m: nat)
    requires Inv(s) && InUse(s, m) && s.table[m].count == 0
    ensures Inv(Destroy(s, m).0)
  {
    assert Accounted(s, m);
    assert !Live(s, m);
    SetSlotKeeps(s, m, Slot(false, 0), None);
  }

  lemma LeaveAccounts(s: Sched, k: nat)
    requires Inv(s) && Legal(s, Quit) && k < |s.table| && Shape(Leave(s))
    ensures Accounted(Leave(s), k)
    ensures k == s.cur.value ==> Waiters(Leave(s), k) == []
  {
    var c := s.cur.value;
    assert Live(s, c);
    assert Accounted(s, k);
    WaitersAfterRelease(s, c, k);
    assert Waiters(Leave(s), k) == Waiters(Release(s, c), k);
  }

  lemma LeaveOwners(s: Sched)
    requires Inv(s) && Legal(s, Quit)
    ensures Shape(Leave(s)) && OwnersOk(Leave(s)) && OrderOk(Leave(s))
  {
    hide CountsOk, JoinersOk;
    var c := s.cur.value;
    ReleaseMoves(s, c);
    assert forall t: Tid :: Live(Leave(s), t) <==> Live(Release(s, c), t) && t != c;
    LiveBound(s, Leave(s));
  }

  /** The exiting thread's slot is freed and its joiner, if any, is ready. */
  lemma LeaveKeeps(s: Sched)
    requires Inv(s) && Legal(s, Quit)
    ensures Inv(Leave(s))
    ensures forall t: Tid :: Live(Leave(s), t) <==> Live(s, t) && s.cur != Some(t)
  {
    var c := s.cur.value;
    var s' := Leave(s);
    LeaveOwners(s);
    hide OwnersOk, OrderOk;
    ReleaseMoves(s, c);
    assert forall t: Tid :: Live(s', t) <==> Live(Release(s, c), t) && t != c;
    LiveBound(s, s');
    forall k | 0 <= k < |s.table|
      ensures Accounted(s', k)
    {
      LeaveAccounts(s, k);
    }
    forall t: Tid | Live(s', t)
      ensures |Waiters(s', t)| <= 1
    {
      assert Live(s, t);
      WaitersAfterRelease(s, c, t);
      assert Waiters(s', t) == Waiters(Release(s, c), t);
    }
  }

  lemma QuitKeeps(s: Sched)
    requires Inv(s) && Legal(s, Quit)
    ensures Inv(Exit(s))
    ensures Exit(s).cur.None? ==> forall t: Tid :: !Live(Exit(s), t)
  {
    LeaveKeeps(s);
    SomeThreadIsReady(Leave(s));
    ScheduleKeeps(Leave(s));
  }

  /** Every call made under the discipline keeps the invariant, and a call that has to wait really waits. */
  lemma StepKeeps(s: Sched, e: Event)
    requires Inv(s) && Legal(s, e)
    ensures Inv(Step(s, e))
  {
    match e
    case Tick => ScheduleKeeps(s);
    case Spawn(r) => SpawnKeeps(s, r);
    case Quit => QuitKeeps(s);
    case JoinThread(m) =>
      if InUse(s, m) {
        assert Accounted(s, m);
        ContendKeeps(s, m);
      }
    case NewMutex(r) => MutexInitKeeps(s, r);
    case Acquire(m) =>
      if InUse(s, m) {
        if s.table[m].count == 0 {
          AcquireFreeKeeps(s, m);
        } else {
          ContendKeeps(s, m);
        }
      }
    case Unlocked(m) =>
      if InUse(s, m) {
        UnlockKeeps(s, m);
      }
    case DestroyMutex(m) =>
      if InUse(s, m) {
        DestroyKeeps(s, m);
      }
  }
}
