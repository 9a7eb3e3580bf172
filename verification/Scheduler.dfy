/** my_pthread.c: the queues, CURRENT and the mutex table, updated in place. */
module Schedulers {
  import opened Util
  import S = Scheduling
  import R = SchedulingRuns

  class Scheduler {
    var cur: Option<Tid>          // CURRENT
    var ready: seq<Tid>           // g_queue_ready
    var wait: seq<Tid>            // g_queue_wait
    const mu: array<nat>          // the mu field of each thread
    const table: array<S.Slot>    // g_mutex_table
    ghost var owner: seq<Option<Tid>>
    ghost var rank: seq<int>

    ghost predicate Valid()
      reads this, mu, table
    {
      S.Shape(State())
    }

    ghost function State(): (s: S.Sched)
      reads this, mu, table
    {
      S.Sched(cur, ready, wait, mu[..], table[..], owner, rank)
    }

    /** my_pthread_init, with the main thread running. */
    constructor ()
      ensures Valid() && fresh(mu) && fresh(table) && State() == S.Init(S.MAX_MUTEX_NUM)
    {
      cur := Some(0);
      ready, wait := [], [];
      mu := new nat[S.MAX_MUTEX_NUM](_ => 0);
      table := new S.Slot[S.MAX_MUTEX_NUM](_ => S.Slot(false, 0));
      owner := seq(S.MAX_MUTEX_NUM, _ => None);
      rank := seq(S.MAX_MUTEX_NUM, _ => 0);
    }

    /** schedule, also what a yield and a timer tick do. */
    method Schedule()
      requires Valid()
      modifies this`cur, this`ready
      ensures Valid() && State() == S.Schedule(old(State()))
    {
      R.DispatchKeepsShape(State());
      if ready == [] {
        return;
      }
      if cur.None? {
        cur := Some(ready[0]);
        ready := ready[1..];
      } else {
        var tmp := cur.value;
        cur := Some(ready[0]);
        ready := ready[1..];
        ready := ready + [tmp];
      }
    }

    method ScheduleSwapCurrentToWait()
      requires Valid() && cur.Some?
      modifies this`cur, this`ready, this`wait
      ensures Valid() && State() == S.BlockCurrent(old(State()))
    {
      R.DispatchKeepsShape(State());
      if ready == [] {
        return;
      }
      var tmp := cur.value;
      cur := Some(ready[0]);
      ready := ready[1..];
      wait := wait + [tmp];
    }

    /** release_thread */
    method ReleaseThread(m: nat)
      requires Valid()
      modifies this`ready, this`wait
      ensures Valid() && State() == S.Release(old(State()), m)
    {
      R.ReleaseKeepsShape(State(), m);
      var i := 0;
      while i < |wait|
        invariant i <= |wait|
        invariant forall k :: 0 <= k < i ==> wait[k] < mu.Length && mu[wait[k]] != m
        invariant ready == old(ready) && wait == old(wait)
      {
        assert wait[i] in wait;
        if mu[wait[i]] == m {
          break;
        }
        i := i + 1;
      }
      FindIs(wait, S.WaitsOn(mu[..], m), i);
      if i < |wait| {
        var ti := wait[i];
        wait := Without(wait, i);
        ready := ready + [ti];
      }
    }

    /** release_all_thread. STAILQ_FOREACH goes on from the link of the element it holds; an element that has just been
        moved to the tail of the ready queue has a null link (TailQueues), so the walk ends after the first match. */
    method ReleaseAllThread(m: nat)
      requires Valid()
      modifies this`ready, this`wait
      ensures Valid() && State() == S.Release(old(State()), m)
    {
      R.ReleaseKeepsShape(State(), m);
      ghost var queue: seq<Tid> := wait;
      ghost var seen := 0;
      var held := if wait == [] then None else Some(0);   // where in `wait` the element held is, None at a null link
      while held.Some?
        invariant seen <= |queue| && forall k :: 0 <= k < seen ==> queue[k] < mu.Length && mu[queue[k]] != m
        invariant held.Some? ==> held.value == seen < |queue|
        invariant held.Some? || seen == |queue| ==> wait == queue && ready == old(ready)
        invariant held.None? && seen < |queue| ==>
                    && queue[seen] < mu.Length && mu[queue[seen]] == m
                    && wait == Without(queue, seen) && ready == old(ready) + [queue[seen]]
        decreases |queue| - seen, held.Some?
      {
        var i := held.value;
        assert wait[i] in wait;
        if mu[wait[i]] == m {
          var ti := wait[i];
          wait := Without(wait, i);
          ready := ready + [ti];
          held := None;
        } else {
          seen := seen + 1;
          held := if i + 1 < |wait| then Some(i + 1) else None;
        }
      }
      FindIs(queue, S.WaitsOn(mu[..], m), seen);
    }

    /** alloc_mutex; None for -1. */
    method AllocMutex() returns (r: Option<nat>)
      requires Valid()
      modifies table, this`owner
      ensures r.None? <==> S.FreeSlot(old(State())) == table.Length
      ensures r.None? ==> State() == old(State())
      ensures r.Some? ==> r.value == S.FreeSlot(old(State()))
                          && State() == S.SetSlot(old(State()), r.value, S.Slot(true, 0), None)
      ensures Valid()
    {
      var i := 1;
      while i < table.Length
        invariant 1 <= i <= table.Length
        invariant forall k :: 1 <= k < i ==> table[k].used
        invariant table[..] == old(table[..]) && owner == old(owner)
      {
        if !table[i].used {
          break;
        }
        i := i + 1;
      }
      assert i == S.FreeSlot(old(State())) by {
        FindFromIs(table[..], S.IsUnused, 1, i);
      }
      if i == table.Length {
        return None;
      }
      table[i] := S.Slot(true, 0);
      owner := owner[i := None];
      return Some(i);
    }

    /** free_mutex */
    method FreeMutex(m: nat)
      requires Valid() && m < table.Length
      modifies table, this`owner
      ensures Valid() && State() == S.SetSlot(old(State()), m, S.Slot(false, 0), None)
    {
      table[m] := S.Slot(false, 0);
      owner := owner[m := None];
    }

    /** my_pthread_mutex_init; None when the process stops for want of a slot. */
    method MutexInit(ghost order: int) returns (m: Option<nat>)
      requires Valid()
      modifies table, this`owner, this`rank
      ensures Valid()
      ensures m.None? <==> S.FreeSlot(old(State())) == table.Length
      ensures m.Some? ==> m.value == S.FreeSlot(old(State())) && State() == S.MutexInit(old(State()), order)
    {
      m := AllocMutex();
      if m.Some? {
        rank := rank[m.value := order];
      }
    }

    /** my_pthread_create; None when no slot is free: the tid is then -1, and the store that follows is outside the
        table. */
    method Create(ghost order: int) returns (r: Option<Tid>)
      requires Valid()
      modifies mu, table, this`ready, this`owner, this`rank
      ensures Valid()
      ensures r.None? <==> S.FreeSlot(old(State())) == table.Length
      ensures r.Some? ==> r.value == S.FreeSlot(old(State())) && State() == S.Create(old(State()), order)
    {
      r := AllocMutex();
      if r.None? {
        return;
      }
      var t := r.value;
      mu[t] := 0;
      table[t] := table[t].(count := 1);
      owner := owner[t := Some(t)];
      rank := rank[t := order];
      ready := ready + [t];
    }

    /** The contended tail shared by lock and join. */
    method Contend(m: nat)
      requires Valid() && cur.Some? && m < table.Length && table[m].used
      modifies mu, table, this`cur, this`ready, this`wait
      ensures Valid() && State() == S.Contend(old(State()), m)
    {
      table[m] := table[m].(count := table[m].count + 1);
      mu[cur.value] := m;
      ScheduleSwapCurrentToWait();
    }

    /** my_pthread_mutex_lock */
    method Lock(m: nat) returns (r: int)
      requires Valid() && cur.Some?
      modifies mu, table, this`cur, this`ready, this`wait, this`owner
      ensures Valid() && (State(), r) == S.Lock(old(State()), m)
    {
      if m >= table.Length {
        return -1;
      }
      if !table[m].used {
        return -1;
      }
      if table[m].count == 0 {
        table[m] := table[m].(count := table[m].count + 1);
        owner := owner[m := cur];
        return 0;
      }
      Contend(m);
      return 0;
    }

    /** my_pthread_join */
    method Join(m: nat) returns (r: int)
      requires Valid() && cur.Some?
      modifies mu, table, this`cur, this`ready, this`wait
      ensures Valid() && (State(), r) == S.Join(old(State()), m)
    {
      if m >= table.Length {
        return -1;
      }
      if !table[m].used {
        return -1;
      }
      if table[m].count == 0 {
        table[m] := table[m].(count := table[m].count + 1);
        assert owner == owner[m := owner[m]];
        return 0;
      }
      Contend(m);
      return 0;
    }

    /** my_pthread_mutex_unlock */
    method Unlock(m: nat) returns (r: int)
      requires Valid()
      modifies table, this`ready, this`wait, this`owner
      ensures Valid() && (State(), r) == S.Unlock(old(State()), m)
    {
      if m >= table.Length {
        return -1;
      }
      if !table[m].used {
        return -1;
      }
      if table[m].count == 0 {
        return -1;
      }
      if table[m].count == 1 {
        table[m] := table[m].(count := table[m].count - 1);
        owner := owner[m := None];
        return 0;
      }
      table[m] := table[m].(count := table[m].count - 1);
      owner := owner[m := S.Released(State(), m)];
      ReleaseThread(m);
      return 0;
    }

    /** my_pthread_mutex_destroy: the count is not looked at. */
    method Destroy(m: nat) returns (r: int)
      requires Valid()
      modifies table, this`owner
      ensures Valid() && (State(), r) == S.Destroy(old(State()), m)
    {
      if m >= table.Length {
        return -1;
      }
      if !table[m].used {
        return -1;
      }
      FreeMutex(m);
      return 0;
    }

    /** The end of thread_stub and my_pthread_exit. */
    method Exit()
      requires Valid() && cur.Some?
      modifies table, this`cur, this`ready, this`wait, this`owner
      ensures Valid() && State() == S.Exit(old(State()))
    {
      ReleaseAllThread(cur.value);
      FreeMutex(cur.value);
      cur := None;
      assert State() == S.Leave(old(State()));
      Schedule();
    }
  }
}
