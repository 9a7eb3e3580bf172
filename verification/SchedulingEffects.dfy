/** What each library call of my_pthread.c returns and changes, queue by queue and slot by slot, in any state. */
module SchedulingEffects {
  import opened Util
  import opened Scheduling
  import opened SchedulingInvariant
  import opened SchedulingRuns

  // ---- relations ----

  /** Slot `m` holds `used`, `count` and `owner`; no other slot changes. */
  ghost predicate SlotChanged(s: Sched, s': Sched, m: nat, used: bool, count: int, owner: Option<Tid>) {
    && m < |s.table| == |s'.table| && |s.owner| == |s'.owner| == |s.table|
    && s'.table[m].used == used && s'.table[m].count == count && s'.owner[m] == owner
    && forall k :: 0 <= k < |s.table| && k != m ==> s'.table[k] == s.table[k] && s'.owner[k] == s.owner[k]
  }

  ghost predicate SameSlots(s: Sched, s': Sched) { s'.table == s.table && s'.owner == s.owner && s'.rank == s.rank }

  ghost predicate SameQueues(s: Sched, s': Sched) { s'.cur == s.cur && s'.ready == s.ready && s'.wait == s.wait }

  /** `b` is `a` without its first element and with `xs` at the end. */
  ghost predicate Advanced<T(!new)>(a: seq<T>, b: seq<T>, xs: seq<T>) {
    && a != [] && |b| == |a| - 1 + |xs|
    && (forall k :: 0 <= k < |a| - 1 ==> b[k] == a[k + 1]) && (forall k :: 0 <= k < |xs| ==> b[|a| - 1 + k] == xs[k])
  }

  /** The head of the ready queue runs and the old CURRENT is last there; nothing happens with nobody ready. */
  ghost predicate Dispatched(s: Sched, s': Sched) {
    if s.ready == [] then SameQueues(s, s')
    else
      && s'.cur == Some(s.ready[0]) && s'.wait == s.wait
      && Advanced(s.ready, s'.ready, if s.cur.Some? then [s.cur.value] else [])
  }

  /** The head of the ready queue runs and the old CURRENT is last in the wait queue; nothing happens with nobody
      ready. */
  ghost predicate Blocked(s: Sched, s': Sched) {
    if s.ready == [] then SameQueues(s, s')
    else
      && s.cur.Some? && s'.cur == Some(s.ready[0]) && s'.wait == s.wait + [s.cur.value]
      && Advanced(s.ready, s'.ready, [])
  }

  /** Place `i` of the wait queue is the first of a thread that waits for `m`. */
  ghost predicate FirstWaiting(s: Sched, m: nat, i: nat) {
    i < |s.wait| && s.wait[i] < |s.mu| && s.mu[s.wait[i]] == m &&
    forall k :: 0 <= k < i ==> !(s.wait[k] < |s.mu| && s.mu[s.wait[k]] == m)
  }

  /** The first thread that waits for `m`, if any, goes from its place in the wait queue to the tail of the ready queue;
      no other thread moves. */
  ghost predicate FirstReleased(s: Sched, s': Sched, m: nat) {
    if exists i :: FirstWaiting(s, m, i) then
      exists i: nat :: && FirstWaiting(s, m, i) && s'.ready == s.ready + [s.wait[i]] && |s'.wait| == |s.wait| - 1
                  && (forall k :: 0 <= k < i ==> s'.wait[k] == s.wait[k])
                  && (forall k :: i <= k < |s'.wait| ==> s'.wait[k] == s.wait[k + 1])
    else s'.ready == s.ready && s'.wait == s.wait
  }

  // ---- the queues ----

  lemma ScheduleEffect(s: Sched)
    ensures Dispatched(s, Schedule(s)) && SameSlots(s, Schedule(s)) && Schedule(s).mu == s.mu
  {
  }

  lemma BlockCurrentEffect(s: Sched)
    requires s.cur.Some?
    ensures Blocked(s, BlockCurrent(s)) && SameSlots(s, BlockCurrent(s)) && BlockCurrent(s).mu == s.mu
  {
  }

  /** Release moves the first waiter and no other, although release_all_thread is meant for all. */
  lemma ReleaseEffect(s: Sched, m: nat)
    ensures FirstReleased(s, Release(s, m), m) && SameSlots(s, Release(s, m))
    ensures Release(s, m).mu == s.mu && Release(s, m).cur == s.cur
  {
    var i := Find(s.wait, WaitsOn(s.mu, m));
    if i < |s.wait| {
      assert FirstWaiting(s, m, i);
    }
  }

  // ---- handles ----

  /** The handle given out is the lowest from 1 on that is not in use. */
  lemma FreeSlotIsLowest(s: Sched)
    requires Shape(s)
    ensures 1 <= FreeSlot(s) <= |s.table|
    ensures forall k :: 1 <= k < FreeSlot(s) ==> InUse(s, k)
    ensures FreeSlot(s) < |s.table| ==> !InUse(s, FreeSlot(s))
  {
  }

  /** A mutex init takes the lowest free handle, which nobody holds, and changes nothing else. */
  lemma MutexInitEffect(s: Sched, rank: int)
    requires Shape(s) && FreeSlot(s) < |s.table|
    ensures var s', i := MutexInit(s, rank), FreeSlot(s);
            && SlotChanged(s, s', i, true, 0, None) && SameQueues(s, s') && s'.mu == s.mu
            && |s'.rank| == |s.rank| && s'.rank[i] == rank
            && forall k :: 0 <= k < |s.rank| && k != i ==> s'.rank[k] == s.rank[k]
  {
  }

  /** A create takes the lowest free handle as the new thread's id, with count 1, and puts the thread last in the ready
      queue. */
  lemma CreateEffect(s: Sched, rank: int)
    requires Shape(s) && FreeSlot(s) < |s.table|
    ensures var s', i := Create(s, rank), FreeSlot(s);
            && SlotChanged(s, s', i, true, 1, Some(i)) && s'.cur == s.cur && s'.wait == s.wait
            && s'.ready == s.ready + [i] && |s'.mu| == |s.mu| && |s'.rank| == |s.rank|
            && s'.mu[i] == 0 && s'.rank[i] == rank
            && forall k :: 0 <= k < |s.table| && k != i ==> s'.mu[k] == s.mu[k] && s'.rank[k] == s.rank[k]
  {
  }

  // ---- lock, join, unlock, destroy ----

  /** The tail of a contended lock or join: CURRENT is counted on `m`, remembers it and blocks. */
  ghost predicate Contended(s: Sched, s': Sched, m: nat) {
    && s.cur.Some? && s.cur.value < |s.mu| == |s'.mu| && m < |s.table| == |s.owner|
    && SlotChanged(s, s', m, true, s.table[m].count + 1, s.owner[m]) && s'.rank == s.rank
    && s'.mu[s.cur.value] == m && (forall t :: 0 <= t < |s.mu| && t != s.cur.value ==> s'.mu[t] == s.mu[t])
    && Blocked(s, s')
  }

  lemma ContendEffect(s: Sched, m: nat)
    requires Shape(s) && s.cur.Some? && m < |s.table|
    ensures Contended(s, Contend(s, m), m)
  {
  }

  /** lock fails exactly on a handle that is not in use, and then does nothing. On a free mutex it makes the caller the
      owner, with count 1, and the caller goes on; else the caller contends. */
  lemma LockEffect(s: Sched, m: nat)
    requires Shape(s) && s.cur.Some?
    ensures var (s', r) := Lock(s, m);
            && r == (if InUse(s, m) then 0 else -1)
            && (!InUse(s, m) ==> s' == s)
            && (InUse(s, m) && s.table[m].count == 0 ==>
                  SlotChanged(s, s', m, true, 1, s.cur) && SameQueues(s, s') && s'.mu == s.mu && s'.rank == s.rank)
            && (InUse(s, m) && s.table[m].count > 0 ==> Contended(s, s', m))
  {
    if m < |s.table| {
      ContendEffect(s, m);
    }
  }

  /** join is lock but for the owner, which it leaves. */
  lemma JoinEffect(s: Sched, m: nat)
    requires Shape(s) && s.cur.Some?
    ensures var (s', r) := Join(s, m);
            && r == (if InUse(s, m) then 0 else -1)
            && (!InUse(s, m) ==> s' == s)
            && (InUse(s, m) && s.table[m].count == 0 ==>
                  SlotChanged(s, s', m, true, 1, s.owner[m]) && SameQueues(s, s') && s'.mu == s.mu && s'.rank == s.rank)
            && (InUse(s, m) && s.table[m].count > 0 ==> Contended(s, s', m))
  {
    if m < |s.table| {
      ContendEffect(s, m);
    }
  }

  /** unlock fails exactly on a handle that is not in use or not held, and then does nothing. Else the count drops
      by one, and with a count above 1 the first waiter is made ready and is the new owner. */
  lemma UnlockEffect(s: Sched, m: nat)
    requires Shape(s)
    ensures var (s', r) := Unlock(s, m);
            && r == (if InUse(s, m) && s.table[m].count > 0 then 0 else -1)
            && (r == -1 ==> s' == s)
            && (r == 0 ==> s'.cur == s.cur && s'.mu == s.mu && s'.rank == s.rank)
            && (r == 0 && s.table[m].count == 1 ==> SlotChanged(s, s', m, true, 0, None) && SameQueues(s, s'))
            && (r == 0 && s.table[m].count > 1 ==>
                  && FirstReleased(s, s', m)
                  && var woken := if |s'.ready| > |s.ready| then Some(s'.ready[|s.ready|]) else None;
                     SlotChanged(s, s', m, true, s.table[m].count - 1, woken))
  {
    if m < |s.table| && s.table[m].count > 1 {
      var s1 := SetSlot(s, m, Slot(true, s.table[m].count - 1), Released(s, m));
      ReleaseEffect(s1, m);
      SameWaiting(s, s1, m);
    }
  }

  /** Who waits for a slot depends on the wait queue and the mu fields alone. */
  lemma SameWaiting(s: Sched, s1: Sched, m: nat)
    requires s1.wait == s.wait && s1.mu == s.mu
    ensures forall i :: FirstWaiting(s1, m, i) <==> FirstWaiting(s, m, i)
  {
  }

  /** destroy fails exactly on a handle that is not in use. Else the handle is free again, whoever held it, and the next
      init or create gives it out unless a lower one is free. */
  lemma DestroyEffect(s: Sched, m: nat)
    requires Shape(s)
    ensures var (s', r) := Destroy(s, m);
            && r == (if InUse(s, m) then 0 else -1)
            && (!InUse(s, m) ==> s' == s)
            && (InUse(s, m) ==>
                  SlotChanged(s, s', m, false, 0, None) && SameQueues(s, s') && s'.mu == s.mu && s'.rank == s.rank)
            && !InUse(s', m)
            && Shape(s') && (InUse(s, m) && m >= 1 ==> FreeSlot(s') == if FreeSlot(s) < m then FreeSlot(s) else m)
  {
    var s' := Destroy(s, m).0;
    if InUse(s, m) && m >= 1 {
      var i := if FreeSlot(s) < m then FreeSlot(s) else m;
      FreeSlotIsLowest(s);
      FindFromIs(s'.table, IsUnused, 1, i);
    }
  }

  /** A mutex that was initialised and destroyed leaves the table as it was, so handles do not run out. */
  lemma InitThenDestroy(s: Sched, rank: int)
    requires Shape(s) && FreeSlot(s) < |s.table| && Accounted(s, FreeSlot(s)) && s.owner[FreeSlot(s)].None?
    ensures var s', r := Destroy(MutexInit(s, rank), FreeSlot(s)).0, Destroy(MutexInit(s, rank), FreeSlot(s)).1;
            r == 0 && s'.table == s.table && s'.owner == s.owner && SameQueues(s, s') && s'.mu == s.mu
  {
    var i := FreeSlot(s);
    assert s.table[i] == Slot(false, 0);
  }

  // ---- the end of a thread ----

  /** An exit frees the thread's id, makes its first joiner ready and lets the next ready thread run. */
  lemma ExitEffect(s: Sched)
    requires Shape(s) && s.cur.Some?
    ensures var c, s1, s' := s.cur.value, Leave(s), Exit(s);
            && s1.cur == None && FirstReleased(s, s1, c) && SlotChanged(s, s1, c, false, 0, None)
            && s1.mu == s.mu && s1.rank == s.rank
            && Dispatched(s1, s') && SameSlots(s1, s') && s'.mu == s.mu
  {
    ReleaseEffect(s, s.cur.value);
    ScheduleEffect(Leave(s));
  }

  /** Main runs alone and no handle is in use. */
  lemma InitEffect(n: nat)
    requires n >= 1
    ensures var s := Init(n);
            && s.cur == Some(0) && s.ready == [] && s.wait == []
            && |s.table| == |s.owner| == |s.mu| == |s.rank| == n
            && forall m :: 0 <= m < n ==>
                 !s.table[m].used && s.table[m].count == 0 && s.owner[m] == None && s.mu[m] == 0
  {
  }
}
