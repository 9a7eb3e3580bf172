/** The scheduler, the mutexes and join of my_pthread.c as a value, and what each library call makes of it.

    A thread is named by its tid, which is also the index of its slot in the mutex table; the main thread is 0. Each
    library call is one atomic step, and timer ticks fall between calls. */
module Scheduling {
  import opened Util

  const MAX_MUTEX_NUM := 32

  /** mutex_t */
  datatype Slot = Slot(used: bool, count: nat)

  datatype Sched = Sched(
    cur: Option<Tid>,          // CURRENT
    ready: seq<Tid>,           // g_queue_ready
    wait: seq<Tid>,            // g_queue_wait
    mu: seq<nat>,              // the mu field of each thread
    table: seq<Slot>,          // g_mutex_table
    owner: seq<Option<Tid>>,   // who holds each slot (history, not in the program)
    rank: seq<int>             // the place of each slot in the locking order (chosen when it is allocated)
  )

  const IsUnused: Slot -> bool := (x: Slot) => !x.used

  function WaitsOn(mu: seq<nat>, m: nat): Tid -> bool { (t: Tid) => t < |mu| && mu[t] == m }

  /** The queued threads whose `mu` is `m`, in queue order. */
  function Waiters(s: Sched, m: nat): (r: seq<Tid>) { Filter(s.wait, WaitsOn(s.mu, m)) }

  ghost predicate Live(s: Sched, t: Tid) { s.cur == Some(t) || t in s.ready || t in s.wait }

  ghost predicate Shape(s: Sched) {
    && |s.table| == |s.owner| == |s.rank| == |s.mu| && |s.table| >= 1
    && (s.cur.Some? ==> s.cur.value < |s.table|)
    && (forall t :: t in s.ready ==> t < |s.table|)
    && (forall t :: t in s.wait ==> t < |s.table|)
  }

  // ---- the queues ----

  /** schedule */
  function Schedule(s: Sched): (s': Sched) {
    if s.ready == [] then s
    else if s.cur.None? then s.(cur := Some(s.ready[0]), ready := s.ready[1..])
    else s.(cur := Some(s.ready[0]), ready := s.ready[1..] + [s.cur.value])
  }

  /** schedule_swap_current_to_wait: with no ready thread the caller goes on as if it had what it asked for. */
  function BlockCurrent(s: Sched): (s': Sched)
    requires s.cur.Some?
  {
    if s.ready == [] then s
    else s.(cur := Some(s.ready[0]), ready := s.ready[1..], wait := s.wait + [s.cur.value])
  }

  /** release_thread, and release_all_thread too: after STAILQ_INSERT_TAIL the moved thread is last in the ready queue,
      its link is null, and STAILQ_FOREACH ends there. */
  function Release(s: Sched, m: nat): (s': Sched) {
    var i := Find(s.wait, WaitsOn(s.mu, m));
    if i == |s.wait| then s else s.(wait := Without(s.wait, i), ready := s.ready + [s.wait[i]])
  }

  /** The thread that Release moves. */
  function Released(s: Sched, m: nat): (t: Option<Tid>) {
    var i := Find(s.wait, WaitsOn(s.mu, m));
    if i == |s.wait| then None else Some(s.wait[i])
  }

  // ---- the table ----

  function SetSlot(s: Sched, m: nat, slot: Slot, owner: Option<Tid>): (s': Sched)
    requires Shape(s) && m < |s.table|
  {
    s.(table := s.table[m := slot], owner := s.owner[m := owner])
  }

  /** alloc_mutex; slot 0 is never given out. */
  function FreeSlot(s: Sched): (i: nat)
    requires Shape(s)
    ensures 1 <= i <= |s.table|
  {
    Find(s.table, IsUnused, 1)
  }

  /** my_pthread_mutex_init, with a free slot; `rank` places the new mutex in the locking order. */
  function MutexInit(s: Sched, rank: int): (s': Sched)
    requires Shape(s) && FreeSlot(s) < |s.table|
  {
    var i := FreeSlot(s);
    SetSlot(s, i, Slot(true, 0), None).(rank := s.rank[i := rank])
  }

  /** my_pthread_create, with a free slot: the slot is the tid and starts with count 1. */
  function Create(s: Sched, rank: int): (s': Sched)
    requires Shape(s) && FreeSlot(s) < |s.table|
  {
    var i := FreeSlot(s);
    SetSlot(s, i, Slot(true, 1), Some(i)).(rank := s.rank[i := rank], mu := s.mu[i := 0], ready := s.ready + [i])
  }

  /** The end of a contended my_pthread_mutex_lock or my_pthread_join. */
  function Contend(s: Sched, m: nat): (s': Sched)
    requires Shape(s) && s.cur.Some? && m < |s.table|
  {
    BlockCurrent(SetSlot(s, m, Slot(true, s.table[m].count + 1), s.owner[m]).(mu := s.mu[s.cur.value := m]))
  }

  /** my_pthread_mutex_lock, with its return value. */
  function Lock(s: Sched, m: nat): (r: (Sched, int))
    requires Shape(s) && s.cur.Some?
  {
    if m >= |s.table| || !s.table[m].used then (s, -1)
    else if s.table[m].count == 0 then (SetSlot(s, m, Slot(true, 1), s.cur), 0)
    else (Contend(s, m), 0)
  }

  /** my_pthread_join, with its return value. */
  function Join(s: Sched, m: nat): (r: (Sched, int))
    requires Shape(s) && s.cur.Some?
  {
    if m >= |s.table| || !s.table[m].used then (s, -1)
    else if s.table[m].count == 0 then (SetSlot(s, m, Slot(true, 1), s.owner[m]), 0)
    else (Contend(s, m), 0)
  }

  /** my_pthread_mutex_unlock, with its return value: the count drops and the first waiter becomes the owner. */
  function Unlock(s: Sched, m: nat): (r: (Sched, int))
    requires Shape(s)
  {
    if m >= |s.table| || !s.table[m].used then (s, -1)
    else if s.table[m].count == 0 then (s, -1)
    else if s.table[m].count == 1 then (SetSlot(s, m, Slot(true, 0), None), 0)
    else (Release(SetSlot(s, m, Slot(true, s.table[m].count - 1), Released(s, m)), m), 0)
  }

  /** my_pthread_mutex_destroy, with its return value: the slot is freed whatever its count. */
  function Destroy(s: Sched, m: nat): (r: (Sched, int))
    requires Shape(s)
  {
    if m >= |s.table| || !s.table[m].used then (s, -1)
    else (SetSlot(s, m, Slot(false, 0), None), 0)
  }

  /** thread_stub's end and my_pthread_exit up to the dispatch. */
  function Leave(s: Sched): (s': Sched)
    requires Shape(s) && s.cur.Some?
  {
    SetSlot(s, s.cur.value, Slot(false, 0), None).(
      cur := None, ready := Release(s, s.cur.value).ready, wait := Release(s, s.cur.value).wait)
  }

  function Exit(s: Sched): (s': Sched)
    requires Shape(s) && s.cur.Some?
  {
    Schedule(Leave(s))
  }

  /** The state after my_pthread_init with `n` slots. */
  function Init(n: nat): (s: Sched)
    requires n >= 1
  {
    Sched(Some(0), [], [], seq(n, _ => 0), seq(n, _ => Slot(false, 0)), seq(n, _ => None), seq(n, _ => 0))
  }

  // ---- calls as events ----

  /** What CURRENT can do; Tick is a yield or a timer interrupt. */
  datatype Event =
    | Tick
    | Spawn(rank: int)
    | Quit
    | JoinThread(m: nat)
    | NewMutex(rank: int)
    | Acquire(m: nat)
    | Unlocked(m: nat)
    | DestroyMutex(m: nat)

  /** Somebody runs, and a call that needs a slot of the table finds one. */
  ghost predicate Defined(s: Sched, e: Event)
    requires Shape(s)
  {
    s.cur.Some? && (e.Spawn? || e.NewMutex? ==> FreeSlot(s) < |s.table|)
  }

  function Step(s: Sched, e: Event): (s': Sched)
    requires Shape(s) && Defined(s, e)
  {
    match e
    case Tick => Schedule(s)
    case Spawn(r) => Create(s, r)
    case Quit => Exit(s)
    case JoinThread(m) => Join(s, m).0
    case NewMutex(r) => MutexInit(s, r)
    case Acquire(m) => Lock(s, m).0
    case Unlocked(m) => Unlock(s, m).0
    case DestroyMutex(m) => Destroy(s, m).0
  }

  /** Slot `m` is above every slot that CURRENT holds, its own tid slot included. */
  ghost predicate InOrder(s: Sched, m: nat)
    requires Shape(s) && m < |s.table|
  {
    forall k :: 0 <= k < |s.table| && s.owner[k].Some? && s.owner[k] == s.cur ==> s.rank[k] < s.rank[m]
  }

  ghost predicate InUse(s: Sched, m: nat) { m < |s.table| && s.table[m].used }

  /** The discipline of the clients: a call that may block names a slot above all that the caller holds; lock is for
      mutexes, join for threads that nobody else is joining; only the owner unlocks a mutex, only a free mutex is
      destroyed, and a thread holds no mutex when it ends. */
  ghost predicate Legal(s: Sched, e: Event)
    requires Shape(s)
  {
    && Defined(s, e)
    && match e
       case Tick => true
       case Spawn(_) => true
       case NewMutex(_) => true
       case Quit => forall k :: 0 <= k < |s.table| && s.owner[k] == s.cur ==> k == s.cur.value
       case JoinThread(m) => InUse(s, m) ==> Live(s, m) && Waiters(s, m) == [] && InOrder(s, m)
       case Acquire(m) => InUse(s, m) ==> !Live(s, m) && (s.table[m].count > 0 ==> InOrder(s, m))
       case Unlocked(m) => InUse(s, m) ==> !Live(s, m) && (s.table[m].count > 0 ==> s.owner[m] == s.cur)
       case DestroyMutex(m) => InUse(s, m) ==> s.table[m].count == 0
  }
}
