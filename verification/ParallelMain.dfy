/** parallelCal.c from the mutex init to the print, as a closed program: main creates the workers, joins them in
    order and prints sum. Nothing is assumed of the threads but their code, and timer ticks fall anywhere. */
module ParallelMain {
  import opened Util
  import opened MutexClients
  import opened ParallelCal
  import opened ParallelProgress
  import R = ParallelRuns
  import S = Scheduling
  import SI = SchedulingInvariant
  import SR = SchedulingRuns

  /** Where main is: at the head of the loop that creates, at the head of the loop that joins, or past the print. */
  datatype MainPc = Creating(i: nat) | Joining(i: nat) | Printed(sum: nat)

  /** The main thread is thread 0; `p.workers[i].tid` is thread[i], the handle that create stored. */
  datatype Program = Program(p: R.Par, main: MainPc)

  datatype Event = Main | Work(n: nat) | Tick

  /** The library call or the step of a worker in an event. */
  function Inner(j: R.Job, g: Program, e: Event): (c: Option<R.Event>) {
    match e
    case Main =>
      (match g.main
       case Creating(i) => if i < j.threads then Some(R.Start(0)) else None
       case Joining(i) =>
         if i < j.threads && i < |g.p.workers| then Some(R.Call(S.JoinThread(g.p.workers[i].tid))) else None
       case Printed(_) => None)
    case Work(n) => Some(R.Act(n))
    case Tick => Some(R.Call(S.Tick))
  }

  function NextMain(j: R.Job, g: Program): (pc: MainPc) {
    match g.main
    case Creating(i) => if i < j.threads then Creating(i + 1) else Joining(0)
    case Joining(i) => if i < j.threads then Joining(i + 1) else Printed(g.p.sum)
    case Printed(v) => Printed(v)
  }

  /** CURRENT makes the step: nothing else is asked. */
  ghost predicate Possible(g: Program, e: Event) {
    match e
    case Main => g.p.s.cur == Some(0) && !g.main.Printed?
    case Work(n) => R.Runs(g.p, n)
    case Tick => g.p.s.cur.Some?
  }

  // ---- the invariant ----

  /** Thread `t` is a worker that has not returned. */
  ghost predicate Working(ws: seq<R.Worker>, t: Tid) {
    exists n :: 0 <= n < |ws| && ws[n].pc != R.Done && ws[n].tid == t
  }

  /** The live threads are main, which holds nothing, and the workers that have not returned; the slots in use are the
      mutex and theirs. */
  ghost predicate Layout(j: R.Job, s: S.Sched, ws: seq<R.Worker>) {
    && S.Shape(s) && j.mutex < |s.table| && j.threads + 2 <= |s.table| && s.rank[j.mutex] > 0
    && s.cur.Some? && S.Live(s, 0)
    && (forall k :: 0 <= k < |s.table| ==> s.owner[k] != Some(0))
    && (forall t: Tid :: S.Live(s, t) && t != 0 ==> Working(ws, t))
    && (forall k :: S.InUse(s, k) ==> k == j.mutex || S.Live(s, k))
    && (forall n :: 0 <= n < |ws| ==> ws[n].tid != 0 && ws[n].tid != j.mutex && ws[n].tid < |s.table|)
  }

  ghost predicate AllDone(ws: seq<R.Worker>, n: nat) { n <= |ws| && forall k :: 0 <= k < n ==> ws[k].pc == R.Done }

  /** Main is queued for the thread whose id is handle `i`. */
  ghost predicate JoinedTo(s: S.Sched, ws: seq<R.Worker>, i: nat) { i < |ws| && SR.Joining(s, 0, ws[i].tid) }

  /** Before its `i`th join main is either past all earlier ones, with their workers returned, or in the last of
      them. */
  ghost predicate MainOk(j: R.Job, s: S.Sched, ws: seq<R.Worker>, main: MainPc) {
    match main
    case Creating(i) => i == |ws| <= j.threads && 0 !in s.wait
    case Joining(i) =>
      && i <= j.threads == |ws|
      && if 0 in s.wait then i >= 1 && AllDone(ws, i - 1) && JoinedTo(s, ws, i - 1) else AllDone(ws, i)
    case Printed(_) => |ws| == j.threads && AllDone(ws, j.threads) && 0 !in s.wait
  }

  ghost predicate Inv(j: R.Job, g: Program) {
    && R.Inv(j, g.p) && Layout(j, g.p.s, g.p.workers) && MainOk(j, g.p.s, g.p.workers, g.main)
    && (g.main.Printed? ==> g.main.sum == g.p.sum)
  }

  // ---- every call is in order ----

  lemma {:induction false} HandleCount(ws: seq<R.Worker>)
    ensures |set n | 0 <= n < |ws| :: ws[n].tid| <= |ws|
  {
    var tids := set n | 0 <= n < |ws| :: ws[n].tid;
    if ws != [] {
      var rest := ws[..|ws| - 1];
      HandleCount(rest);
      var before := set n | 0 <= n < |rest| :: rest[n].tid;
      assert tids <= before + {ws[|ws| - 1].tid};
      SubsetCardinality(tids, before + {ws[|ws| - 1].tid});
    } else {
      assert tids == {};
    }
  }

  /** A table with two slots more than there are workers has a free one for each of them. */
  lemma SlotIsFree(j: R.Job, s: S.Sched, ws: seq<R.Worker>)
    requires Layout(j, s, ws) && |ws| < j.threads
    ensures S.FreeSlot(s) < |s.table|
  {
    if S.FreeSlot(s) == |s.table| {
      var tids: set<nat> := set n | 0 <= n < |ws| :: ws[n].tid;
      HandleCount(ws);
      var all := tids + {0, j.mutex};
      forall k | 0 <= k < |s.table|
        ensures k in all
      {
        if k != 0 && k != j.mutex {
          assert S.InUse(s, k);
          assert Working(ws, k);
        }
      }
      RangeCardinality(|s.table|, all);
    }
  }

  /** The only threads that wait are workers, for the mutex, and main, when it is in a join. */
  lemma NobodyElseJoins(j: R.Job, g: Program, u: Tid)
    requires Inv(j, g) && 0 !in g.p.s.wait && u != j.mutex
    ensures S.Waiters(g.p.s, u) == []
  {
    var s, ws := g.p.s, g.p.workers;
    forall t | t in s.wait
      ensures s.mu[t] == j.mutex
    {
      assert S.Live(s, t) && Working(ws, t);
      var n :| 0 <= n < |ws| && ws[n].pc != R.Done && ws[n].tid == t;
      assert R.Seat(s, j.mutex, ws[n]);
    }
    FilterNone(s.wait, S.WaitsOn(s.mu, u));
  }

  lemma JoinIsLegal(j: R.Job, g: Program, i: nat)
    requires Inv(j, g) && g.p.s.cur == Some(0) && i < |g.p.workers|
    ensures S.Legal(g.p.s, S.JoinThread(g.p.workers[i].tid))
  {
    NobodyElseJoins(j, g, g.p.workers[i].tid);
  }

  lemma NoWorkerIsMain(j: R.Job, g: Program)
    requires Inv(j, g) && g.p.s.cur == Some(0)
    ensures forall n :: 0 <= n < |g.p.workers| ==> !R.Runs(g.p, n)
  {
  }

  /** Whatever the interleaving, every library call of main and of the workers is in order: a create finds a free slot,
      a join names a live thread that nobody else joins or a free slot. */
  lemma CallsAreLegal(j: R.Job, g: Program, e: Event)
    requires Inv(j, g) && Possible(g, e)
    ensures Inner(j, g, e).Some? ==> R.Legal(j, g.p, Inner(j, g, e).value)
  {
    match e
    case Main =>
      NoWorkerIsMain(j, g);
      if g.main.Creating? && g.main.i < j.threads {
        SlotIsFree(j, g.p.s, g.p.workers);
      } else if g.main.Joining? && g.main.i < j.threads {
        JoinIsLegal(j, g, g.main.i);
      }
    case _ =>
  }

  function Step(j: R.Job, g: Program, e: Event): (g': Program)
    requires Inner(j, g, e).Some? ==> R.Possible(j, g.p, Inner(j, g, e).value)
  {
    var p' := if Inner(j, g, e).Some? then R.Step(j, g.p, Inner(j, g, e).value) else g.p;
    Program(p', if e == Main then NextMain(j, g) else g.main)
  }

  // ---- the layout ----

  /** Only a spawn or a new mutex takes a slot into use, and an exit frees the thread's own. */
  lemma SlotsAfter(s: S.Sched, c: S.Event, k: nat)
    requires S.Shape(s) && S.Defined(s, c) && S.InUse(S.Step(s, c), k)
    ensures S.InUse(s, k) || ((c.Spawn? || c.NewMutex?) && k == S.FreeSlot(s))
    ensures !(c.Quit? && s.cur == Some(k))
  {
  }

  /** What a call of another thread does to main: only the exit that it is waiting for wakes it, and nothing makes it an
      owner. */
  lemma MainIsSpared(j: R.Job, s: S.Sched, c: S.Event)
    requires SI.Inv(s) && S.Legal(s, c) && S.Live(s, 0) && s.cur != Some(0) && !c.Spawn? && !c.NewMutex?
    requires forall k :: 0 <= k < |s.table| ==> s.owner[k] != Some(0)
    requires 0 in s.wait ==> S.Live(s, s.mu[0])
    ensures forall k :: 0 <= k < |s.table| ==> |S.Step(s, c).owner| == |s.table| && S.Step(s, c).owner[k] != Some(0)
    ensures 0 !in s.wait ==> 0 !in S.Step(s, c).wait
    ensures 0 in s.wait && !(c == S.Quit && s.cur == Some(s.mu[0])) ==> SR.Joining(S.Step(s, c), 0, s.mu[0])
    ensures 0 in s.wait && c == S.Quit && s.cur == Some(s.mu[0]) ==> 0 !in S.Step(s, c).wait
  {
    SR.OthersEffect(s, c, 0, 0);
    if 0 in s.wait {
      var u := s.mu[0];
      if c == S.Quit && s.cur == Some(u) {
        SR.ExitWakesTheJoiner(s, 0);
        SI.LeaveKeeps(s);
      } else {
        SR.StepKeepsJoining(s, c, 0, u);
      }
    }
    forall k | 0 <= k < |s.table|
      ensures S.Step(s, c).owner[k] != Some(0)
    {
      SR.OthersEffect(s, c, 0, k);
      if c.Quit? {
        SR.QuitSparesOthers(s, 0, k);
      }
    }
  }

  lemma SomebodyRuns(s: S.Sched, c: S.Event)
    requires SI.Inv(s) && S.Legal(s, c) && S.Live(S.Step(s, c), 0)
    ensures S.Step(s, c).cur.Some?
  {
    if c.Quit? {
      SI.QuitKeeps(s);
    }
  }

  /** The workers are the same, and none returns but by its exit. */
  ghost predicate SameWorkers(s: S.Sched, c: S.Event, ws: seq<R.Worker>, ws': seq<R.Worker>) {
    && |ws'| == |ws| && (forall k :: 0 <= k < |ws| ==> ws'[k].tid == ws[k].tid)
    && (forall k :: 0 <= k < |ws| && ws[k].pc != R.Done && !(c == S.Quit && s.cur == Some(ws[k].tid)) ==>
          ws'[k].pc != R.Done)
  }

  lemma WorkingStays(s: S.Sched, c: S.Event, ws: seq<R.Worker>, ws': seq<R.Worker>, t: Tid)
    requires SameWorkers(s, c, ws, ws') && Working(ws, t) && !(c == S.Quit && s.cur == Some(t))
    ensures Working(ws', t)
  {
    var n :| 0 <= n < |ws| && ws[n].pc != R.Done && ws[n].tid == t;
    assert ws'[n].tid == t && ws'[n].pc != R.Done;
  }

  /** A call of a worker keeps the layout. */
  lemma OthersKeepLayout(j: R.Job, s: S.Sched, ws: seq<R.Worker>, c: S.Event, ws': seq<R.Worker>)
    requires SI.Inv(s) && S.Legal(s, c) && Layout(j, s, ws) && MutexOk(s, j.mutex) && SameWorkers(s, c, ws, ws')
    requires s.cur != Some(0) && !c.Spawn? && !c.NewMutex? && !c.DestroyMutex?
    requires 0 in s.wait ==> S.Live(s, s.mu[0])
    ensures Layout(j, S.Step(s, c), ws')
  {
    var s' := S.Step(s, c);
    MainIsSpared(j, s, c);
    SR.LiveAfter(s, c);
    SR.StepKeepsShape(s, c);
    SomebodyRuns(s, c);
    SR.OthersEffect(s, c, 0, j.mutex);
    hide SI.Inv, S.Legal, S.Step, S.Live, Working;
    forall t: Tid | S.Live(s', t) && t != 0
      ensures Working(ws', t)
    {
      WorkingStays(s, c, ws, ws', t);
    }
    forall k | S.InUse(s', k)
      ensures k == j.mutex || S.Live(s', k)
    {
      SlotsAfter(s, c, k);
    }
  }

  /** So does a tick or a join of main. */
  lemma MainKeepsLayout(j: R.Job, s: S.Sched, ws: seq<R.Worker>, c: S.Event)
    requires SI.Inv(s) && S.Legal(s, c) && Layout(j, s, ws) && s.cur == Some(0) && (c.Tick? || c.JoinThread?)
    ensures Layout(j, S.Step(s, c), ws)
  {
    var s' := S.Step(s, c);
    SR.LiveAfter(s, c);
    SR.StepKeepsShape(s, c);
    SomebodyRuns(s, c);
    MainsCallKeepsSlots(s, c);
    hide SI.Inv, S.Legal, S.Step, S.Live, Working;
    forall k | S.InUse(s', k)
      ensures k == j.mutex || S.Live(s', k)
    {
      SlotsAfter(s, c, k);
    }
  }

  lemma MainsCallKeepsSlots(s: S.Sched, c: S.Event)
    requires SI.Inv(s) && S.Legal(s, c) && (c.Tick? || c.JoinThread?)
    ensures S.Step(s, c).owner == s.owner && S.Step(s, c).rank == s.rank
  {
    if c.JoinThread? && S.InUse(s, c.m) {
      assert SI.Accounted(s, c.m);
      SR.BlockedCall(s, c, c.m);
      SI.ContendMoves(s, c.m);
    }
  }

  /** And the creation of a worker. */
  lemma StartKeepsLayout(j: R.Job, s: S.Sched, ws: seq<R.Worker>, r: int, w: R.Worker)
    requires SI.Inv(s) && S.Legal(s, S.Spawn(r)) && Layout(j, s, ws) && MutexOk(s, j.mutex)
    requires w.tid == S.FreeSlot(s) && w.pc != R.Done
    ensures Layout(j, S.Step(s, S.Spawn(r)), ws + [w])
  {
    var s', ws' := S.Step(s, S.Spawn(r)), ws + [w];
    SR.LiveAfter(s, S.Spawn(r));
    SR.StepKeepsShape(s, S.Spawn(r));
    forall t: Tid | S.Live(s', t) && t != 0
      ensures Working(ws', t)
    {
      if t == w.tid {
        assert ws'[|ws|] == w;
      } else {
        assert Working(ws, t);
        var n :| 0 <= n < |ws| && ws[n].pc != R.Done && ws[n].tid == t;
        assert ws'[n] == ws[n];
      }
    }
    hide SI.Inv;
    forall k | S.InUse(s', k)
      ensures k == j.mutex || S.Live(s', k)
    {
      SlotsAfter(s, S.Spawn(r), k);
    }
  }

  // ---- what every step keeps ----

  /** A blocked main waits for a live thread. */
  lemma BlockedMain(j: R.Job, s: S.Sched, ws: seq<R.Worker>, main: MainPc)
    requires S.Shape(s) && MainOk(j, s, ws, main) && 0 in s.wait
    ensures S.Live(s, s.mu[0])
  {
  }

  /** A worker's step that is no exit leaves main where it is. */
  lemma WorkKeepsMain(j: R.Job, s: S.Sched, ws: seq<R.Worker>, main: MainPc, n: nat, s': S.Sched, w: R.Worker)
    requires MainOk(j, s, ws, main) && n < |ws| && ws[n].pc != R.Done && w.tid == ws[n].tid
    requires 0 !in s.wait ==> 0 !in s'.wait
    requires 0 in s.wait ==> |s.mu| > 0 && SR.Joining(s', 0, s.mu[0])
    ensures MainOk(j, s', ws[n := w], main) && !main.Printed?
  {
  }

  /** The exit of the worker that main waits for lets main go on, and then worker `i - 1` has returned. */
  lemma ExitFreesMain(j: R.Job, s: S.Sched, ws: seq<R.Worker>, main: MainPc, n: nat, s': S.Sched, w: R.Worker)
    requires MainOk(j, s, ws, main) && n < |ws| && w == R.Worker(ws[n].tid, R.Done)
    requires forall k :: 0 <= k < |ws| && ws[k].pc != R.Done && ws[k].tid == w.tid ==> k == n
    requires 0 in s.wait && |s.mu| > 0 && s.mu[0] == w.tid && 0 !in s'.wait
    ensures MainOk(j, s', ws[n := w], main) && !main.Printed?
  {
  }

  /** The scheduler's side of worker n's step: it is the only worker with its id, and it returns by an exit. */
  ghost predicate WorkersCall(j: R.Job, s: S.Sched, ws: seq<R.Worker>, n: nat, c: S.Event, w: R.Worker) {
    && SI.Inv(s) && S.Legal(s, c) && !c.Spawn? && !c.NewMutex? && !c.DestroyMutex?
    && n < |ws| && ws[n].pc != R.Done && s.cur == Some(ws[n].tid) && ws[n].tid != 0
    && w.tid == ws[n].tid && (w.pc == R.Done <==> c == S.Quit)
    && (forall k :: 0 <= k < |ws| && ws[k].pc != R.Done && ws[k].tid == w.tid ==> k == n)
  }

  lemma CallMovesMain(j: R.Job, s: S.Sched, ws: seq<R.Worker>, main: MainPc, n: nat, c: S.Event, w: R.Worker)
    requires WorkersCall(j, s, ws, n, c, w) && Layout(j, s, ws) && MainOk(j, s, ws, main)
    ensures MainOk(j, S.Step(s, c), ws[n := w], main) && !main.Printed?
  {
    if 0 in s.wait {
      BlockedMain(j, s, ws, main);
    }
    MainIsSpared(j, s, c);
    hide SI.Inv, S.Legal, S.Step, S.Shape, MainOk, SR.Joining;
    if c == S.Quit && 0 in s.wait && s.cur == Some(s.mu[0]) {
      ExitFreesMain(j, s, ws, main, n, S.Step(s, c), w);
    } else {
      WorkKeepsMain(j, s, ws, main, n, S.Step(s, c), w);
    }
  }

  lemma CallMovesLayout(j: R.Job, s: S.Sched, ws: seq<R.Worker>, main: MainPc, n: nat, c: S.Event, w: R.Worker)
    requires WorkersCall(j, s, ws, n, c, w) && Layout(j, s, ws) && MainOk(j, s, ws, main) && MutexOk(s, j.mutex)
    ensures Layout(j, S.Step(s, c), ws[n := w])
  {
    if 0 in s.wait {
      BlockedMain(j, s, ws, main);
    }
    hide SI.Inv, S.Legal, S.Step, Layout, MainOk;
    OthersKeepLayout(j, s, ws, c, ws[n := w]);
  }

  /** The call in a worker's step, and the worker after it. */
  lemma WorkIs(j: R.Job, g: Program, n: nat)
    requires Inv(j, g) && R.Runs(g.p, n) && R.Possible(j, g.p, R.Act(n))
    ensures var p, c, w := g.p, R.WorkerCall(j, g.p.workers[n].pc), R.Step(j, g.p, R.Act(n)).workers[n];
            && n < |p.workers| && p.workers[n].pc != R.Done && MutexOk(p.s, j.mutex)
            && w.tid == p.workers[n].tid && R.Step(j, p, R.Act(n)).workers == p.workers[n := w]
            && R.Step(j, p, R.Act(n)).s == (if c.Some? then S.Step(p.s, c.value) else p.s)
            && if c.Some? then WorkersCall(j, p.s, p.workers, n, c.value, w) else w.pc != R.Done
  {
    R.WorkerMovesItsSeat(j, g.p, n);
    hide SI.Inv, S.Legal, S.Step;
  }

  lemma WorkKeeps(j: R.Job, g: Program, n: nat)
    requires Inv(j, g) && R.Runs(g.p, n) && R.Possible(j, g.p, R.Act(n))
    ensures Inv(j, Step(j, g, Work(n)))
  {
    hide R.Inv, Layout, MainOk, WorkersCall;
    WorkIs(j, g, n);
    R.StepKeeps(j, g.p, R.Act(n));
    hide R.Step, R.Possible, R.Runs;
    var s, ws, c, w := g.p.s, g.p.workers, R.WorkerCall(j, g.p.workers[n].pc), R.Step(j, g.p, R.Act(n)).workers[n];
    if c.Some? {
      CallMovesLayout(j, s, ws, g.main, n, c.value, w);
      CallMovesMain(j, s, ws, g.main, n, c.value, w);
    } else {
      InnerWorkKeepsLayout(j, s, ws, n, w);
      InnerWorkKeepsMain(j, s, ws, g.main, n, w);
    }
  }

  lemma InnerWorkKeepsMain(j: R.Job, s: S.Sched, ws: seq<R.Worker>, main: MainPc, n: nat, w: R.Worker)
    requires S.Shape(s) && MainOk(j, s, ws, main) && n < |ws| && ws[n].pc != R.Done && w.tid == ws[n].tid
    ensures MainOk(j, s, ws[n := w], main) && !main.Printed?
  {
  }

  lemma InnerWorkKeepsLayout(j: R.Job, s: S.Sched, ws: seq<R.Worker>, n: nat, w: R.Worker)
    requires Layout(j, s, ws) && n < |ws| && w.tid == ws[n].tid && w.pc != R.Done
    ensures Layout(j, s, ws[n := w])
  {
    forall t: Tid | S.Live(s, t) && t != 0
      ensures Working(ws[n := w], t)
    {
      assert Working(ws, t);
      WorkingStays(s, S.Tick, ws, ws[n := w], t);
    }
  }

  lemma TickKeeps(j: R.Job, g: Program)
    requires Inv(j, g) && R.Possible(j, g.p, R.Call(S.Tick))
    ensures Inv(j, Step(j, g, Tick))
  {
    var s, ws := g.p.s, g.p.workers;
    R.StepKeeps(j, g.p, R.Call(S.Tick));
    TickMovesMain(j, s, ws, g.main);
    hide R.Inv, R.Legal, S.Legal, S.Step, Layout, MainOk;
    if s.cur == Some(0) {
      MainKeepsLayout(j, s, ws, S.Tick);
    } else {
      if 0 in s.wait {
        BlockedMain(j, s, ws, g.main);
      }
      OthersKeepLayout(j, s, ws, S.Tick, ws);
    }
  }

  lemma TickMovesMain(j: R.Job, s: S.Sched, ws: seq<R.Worker>, main: MainPc)
    requires SI.Inv(s) && S.Legal(s, S.Tick) && MainOk(j, s, ws, main)
    ensures MainOk(j, S.Step(s, S.Tick), ws, main)
  {
    SR.LiveAfter(s, S.Tick);
    hide SI.Inv;
  }

  /** A create that succeeds, or the end of the first loop. */
  lemma CreatingKeeps(j: R.Job, g: Program)
    requires Inv(j, g) && Possible(g, Main) && g.main.Creating?
    ensures Inner(j, g, Main).Some? ==> R.Possible(j, g.p, Inner(j, g, Main).value)
    ensures Inv(j, Step(j, g, Main))
  {
    CallsAreLegal(j, g, Main);
    if g.main.i < j.threads {
      var s := g.p.s;
      var w := R.Worker(S.FreeSlot(s), R.Calc(|g.p.workers|, 0));
      R.StepKeeps(j, g.p, R.Start(0));
      StartKeepsLayout(j, s, g.p.workers, 0, w);
      SR.SpawnedSlotEffect(s, S.Spawn(0));
    }
  }

  /** A join blocks on the thread that has the handle as its id, or returns at once because the worker has returned and
      no later worker has its slot. */
  lemma JoiningKeeps(j: R.Job, g: Program)
    requires Inv(j, g) && Possible(g, Main) && g.main.Joining?
    ensures Inner(j, g, Main).Some? ==> R.Possible(j, g.p, Inner(j, g, Main).value)
    ensures Inv(j, Step(j, g, Main))
  {
    CallsAreLegal(j, g, Main);
    var i, s, ws := g.main.i, g.p.s, g.p.workers;
    if i < j.threads {
      JoinMovesMain(j, g);
      JoinIsLegal(j, g, i);
      JoinerIsMain(j, g);
      hide R.Inv, SI.Inv, S.Legal, S.Step, R.Legal, Layout, MainOk;
      R.StepKeeps(j, g.p, R.Call(S.JoinThread(ws[i].tid)));
      MainKeepsLayout(j, s, ws, S.JoinThread(ws[i].tid));
    } else {
      JoinerIsMain(j, g);
    }
  }

  lemma JoinerIsMain(j: R.Job, g: Program)
    requires Inv(j, g) && g.p.s.cur == Some(0) && g.main.Joining?
    ensures SI.Inv(g.p.s) && 0 !in g.p.s.wait
    ensures g.main.i <= j.threads == |g.p.workers| && AllDone(g.p.workers, g.main.i)
  {
  }

  /** Join `i` either queues main for the live thread with that id, or fails, and then worker `i` has returned. */
  lemma JoinMovesMain(j: R.Job, g: Program)
    requires Inv(j, g) && g.p.s.cur == Some(0) && g.main.Joining? && g.main.i < j.threads
    ensures g.main.i < |g.p.workers|
    ensures S.Defined(g.p.s, S.JoinThread(g.p.workers[g.main.i].tid))
    ensures MainOk(j, S.Step(g.p.s, S.JoinThread(g.p.workers[g.main.i].tid)), g.p.workers, Joining(g.main.i + 1))
  {
    var i, s, ws := g.main.i, g.p.s, g.p.workers;
    JoinIsLegal(j, g, i);
    JoinerIsMain(j, g);
    hide R.Inv, Layout, S.Legal, SI.Inv, MainOk, S.Step;
    if ws[i].pc != R.Done {
      R.JoinBlocks(j, g.p, i);
    }
    JoinQueuesMain(j, s, ws, i);
  }

  lemma JoinQueuesMain(j: R.Job, s: S.Sched, ws: seq<R.Worker>, i: nat)
    requires i < |ws| == j.threads && AllDone(ws, i) && s.cur == Some(0) && 0 !in s.wait
    requires SI.Inv(s) && S.Legal(s, S.JoinThread(ws[i].tid)) && (ws[i].pc != R.Done ==> S.InUse(s, ws[i].tid))
    ensures MainOk(j, S.Step(s, S.JoinThread(ws[i].tid)), ws, Joining(i + 1))
  {
    if S.InUse(s, ws[i].tid) {
      SR.JoinQueues(s, ws[i].tid);
    }
    hide SI.Inv, S.Legal;
  }

  /** What a join does: it queues main for worker `i`, or for a later worker that has got the id of a returned
      worker `i`, or it fails and leaves everything, when no thread has the id. */
  lemma JoinCases(j: R.Job, g: Program)
    requires Inv(j, g) && g.p.s.cur == Some(0) && g.main.Joining? && g.main.i < j.threads
    ensures g.main.i < |g.p.workers|
    ensures var s, ws, i := g.p.s, g.p.workers, g.main.i;
            var (s', r) := S.Join(s, ws[i].tid);
            && (ws[i].pc != R.Done ==> Working(ws, ws[i].tid))
            && if Working(ws, ws[i].tid) then r == 0 && JoinedTo(s', ws, i) else r == -1 && s' == s
  {
    var i, s, ws := g.main.i, g.p.s, g.p.workers;
    JoinIsLegal(j, g, i);
    if Working(ws, ws[i].tid) {
      var n :| 0 <= n < |ws| && ws[n].pc != R.Done && ws[n].tid == ws[i].tid;
      R.JoinBlocks(j, g.p, n);
      SR.JoinQueues(s, ws[i].tid);
    }
  }

  /** Every step keeps the invariant. */
  lemma StepKeeps(j: R.Job, g: Program, e: Event)
    requires Inv(j, g) && Possible(g, e)
    ensures Inner(j, g, e).Some? ==> R.Possible(j, g.p, Inner(j, g, e).value)
    ensures Inv(j, Step(j, g, e))
  {
    CallsAreLegal(j, g, e);
    match e
    case Main =>
      if g.main.Creating? {
        CreatingKeeps(j, g);
      } else {
        JoiningKeeps(j, g);
      }
    case Work(n) => WorkKeeps(j, g, n);
    case Tick => TickKeeps(j, g);
  }

  // ---- runs ----

  /** Any sequence of steps of CURRENT and timer ticks. */
  ghost predicate Runs(j: R.Job, g: Program, es: seq<Event>)
    requires Inv(j, g)
    decreases |es|
  {
    es == [] || (Possible(g, es[0]) && (StepKeeps(j, g, es[0]); Runs(j, Step(j, g, es[0]), es[1..])))
  }

  ghost function Run(j: R.Job, g: Program, es: seq<Event>): (g': Program)
    requires Inv(j, g) && Runs(j, g, es)
    ensures Inv(j, g')
    decreases |es|
  {
    if es == [] then g else StepKeeps(j, g, es[0]); Run(j, Step(j, g, es[0]), es[1..])
  }

  /** Main alone, after its mutex init in an empty table of `n` slots. */
  ghost function Begin(j: R.Job, n: nat): (g: Program)
    requires n >= 2
  {
    Program(R.Init(j, S.MutexInit(S.Init(n), 1)), Creating(0))
  }

  /** The mutex has handle 1, and the table has a slot for it, for each worker and the unused slot 0. */
  predicate Fits(j: R.Job, n: nat) { 1 <= j.threads && j.threads + 2 <= n && j.mutex == 1 }

  lemma BeginOk(j: R.Job, n: nat)
    requires Fits(j, n)
    ensures Inv(j, Begin(j, n))
  {
    SR.InitOk(n);
    assert S.FreeSlot(S.Init(n)) == 1;
    SI.MutexInitKeeps(S.Init(n), 1);
    R.InitOk(j, S.MutexInit(S.Init(n), 1));
  }

  /** Every run of the program is a run of the workers among other threads, with nothing assumed of it. */
  lemma {:induction false} RunsAreLegal(j: R.Job, g: Program, es: seq<Event>) returns (rs: seq<R.Event>)
    requires Inv(j, g) && Runs(j, g, es)
    ensures R.LegalRun(j, g.p, rs) && R.Run(j, g.p, rs) == Run(j, g, es).p
    decreases |es|
  {
    rs := [];
    if es != [] {
      StepKeeps(j, g, es[0]);
      CallsAreLegal(j, g, es[0]);
      hide Inv, R.Legal, R.Step, Possible;
      rs := RunsAreLegal(j, Step(j, g, es[0]), es[1..]);
      var c := Inner(j, g, es[0]);
      if c.Some? {
        RunFrom(j, g.p, c.value, rs);
        rs := [c.value] + rs;
      }
    }
  }

  lemma FreeMutex(j: R.Job, g: Program)
    requires Inv(j, g) && g.main.Printed?
    ensures g.p.s.table[j.mutex].count == 0 && g.p.s.cur == Some(0)
  {
    var s, ws := g.p.s, g.p.workers;
    assert forall t: Tid :: S.Live(s, t) ==> t == 0;
    assert SI.Accounted(s, j.mutex);
    assert S.Live(s, s.cur.value);
  }

  /** For every matrix, every number of workers that the table holds and every interleaving: what main prints is
      verify's sum, the exact sum modulo 2 to the 32; all workers have returned, and the mutex that main then
      destroys is free. */
  lemma PrintedIsVerified(j: R.Job, n: nat, es: seq<Event>)
    requires Fits(j, n) && Inv(j, Begin(j, n)) && Runs(j, Begin(j, n), es) && Run(j, Begin(j, n), es).main.Printed?
    ensures var g := Run(j, Begin(j, n), es);
            && g.main.sum == VerifySum(j.rows, |j.rows|) == Wrap(ExactSum(j.rows, |j.rows|))
            && R.Finished(j, g.p) && g.p.s.table[j.mutex].count == 0
  {
    var g := Run(j, Begin(j, n), es);
    FreeMutex(j, g);
    R.FinishedSum(j, g.p);
    VerifySumIsExact(j.rows, |j.rows|);
  }

  // ---- the end is reached ----

  /** The steps that worker `k` has left, created or not. */
  function WorkerSteps(j: R.Job, ws: seq<R.Worker>, k: nat): (n: nat)
    requires j.threads >= 1 && forall i :: 0 <= i < |ws| ==> R.PcInRange(j, ws[i].pc)
  {
    Steps(j, k, if k < |ws| then ws[k].pc else R.Calc(k, 0))
  }

  /** The steps that the first `n` workers have left. */
  function WorkLeft(j: R.Job, ws: seq<R.Worker>, n: nat): (left: nat)
    requires j.threads >= 1 && forall i :: 0 <= i < |ws| ==> R.PcInRange(j, ws[i].pc)
  {
    if n == 0 then 0 else WorkLeft(j, ws, n - 1) + WorkerSteps(j, ws, n - 1)
  }

  function MainLeft(j: R.Job, main: MainPc): (left: int) {
    match main
    case Creating(i) => (j.threads - i) + 1 + j.threads + 1
    case Joining(i) => j.threads - i + 1
    case Printed(_) => 0
  }

  ghost function Left(j: R.Job, g: Program): (left: nat)
    requires Inv(j, g)
  {
    MainLeft(j, g.main) + WorkLeft(j, g.p.workers, j.threads)
  }

  lemma {:induction false} WorkLeftDrops(j: R.Job, ws: seq<R.Worker>, k: nat, w: R.Worker, n: nat)
    requires j.threads >= 1 && (forall i :: 0 <= i < |ws| ==> R.PcInRange(j, ws[i].pc)) && k < |ws|
    requires R.PcInRange(j, w.pc) && Steps(j, k, w.pc) == Steps(j, k, ws[k].pc) - 1
    ensures WorkLeft(j, ws[k := w], n) == WorkLeft(j, ws, n) - if k < n then 1 else 0
  {
    if n > 0 {
      WorkLeftDrops(j, ws, k, w, n - 1);
    }
  }

  lemma {:induction false} WorkLeftStays(j: R.Job, ws: seq<R.Worker>, w: R.Worker, n: nat)
    requires j.threads >= 1 && (forall i :: 0 <= i < |ws| ==> R.PcInRange(j, ws[i].pc))
    requires w.pc == R.Calc(|ws|, 0) && R.PcInRange(j, w.pc)
    ensures WorkLeft(j, ws + [w], n) == WorkLeft(j, ws, n)
  {
    if n > 0 {
      WorkLeftStays(j, ws, w, n - 1);
    }
  }

  lemma {:induction false} NoWorkLeft(j: R.Job, ws: seq<R.Worker>, n: nat)
    requires j.threads >= 1 && (forall i :: 0 <= i < |ws| ==> R.PcInRange(j, ws[i].pc)) && AllDone(ws, n)
    ensures WorkLeft(j, ws, n) == 0
  {
    if n > 0 {
      NoWorkLeft(j, ws, n - 1);
    }
  }

  /** Every step but a tick brings the print exactly one step nearer, and only the printed program has none left. */
  lemma StepDrops(j: R.Job, g: Program, e: Event)
    requires Inv(j, g) && Possible(g, e)
    ensures Inner(j, g, e).Some? ==> R.Possible(j, g.p, Inner(j, g, e).value)
    ensures Inv(j, Step(j, g, e)) && Left(j, Step(j, g, e)) == Left(j, g) - if e == Tick then 0 else 1
  {
    StepKeeps(j, g, e);
    hide R.Seats, Layout, S.Step, MainOk, Steps;
    match e
    case Main => MainDrops(j, g);
    case Work(n) => WorkDrops(j, g, n);
    case Tick =>
  }

  lemma WorkDrops(j: R.Job, g: Program, n: nat)
    requires Inv(j, g) && R.Runs(g.p, n) && R.Possible(j, g.p, R.Act(n))
    ensures Inv(j, Step(j, g, Work(n))) && Left(j, Step(j, g, Work(n))) == Left(j, g) - 1
  {
    WorkKeeps(j, g, n);
    hide R.Seats, Layout, S.Step, Steps;
    StepsDrop(j, n, g.p.sum, g.p.workers[n].pc);
    WorkLeftDrops(j, g.p.workers, n, Step(j, g, Work(n)).p.workers[n], j.threads);
  }

  lemma MainDrops(j: R.Job, g: Program)
    requires Inv(j, g) && Possible(g, Main)
    requires Inner(j, g, Main).Some? ==> R.Possible(j, g.p, Inner(j, g, Main).value)
    requires Inv(j, Step(j, g, Main))
    ensures Left(j, Step(j, g, Main)) == Left(j, g) - 1
  {
    hide R.Seats, Layout, S.Step, Steps;
    if g.main.Creating? && g.main.i < j.threads {
      WorkLeftStays(j, g.p.workers, Step(j, g, Main).p.workers[|g.p.workers|], j.threads);
    }
  }

  lemma NothingLeft(j: R.Job, g: Program)
    requires Inv(j, g)
    ensures Left(j, g) == 0 <==> g.main.Printed?
  {
    if g.main.Printed? {
      NoWorkLeft(j, g.p.workers, j.threads);
    }
  }

  /** Until the print, CURRENT has a step to make: no reachable state is a deadlock. */
  lemma SomebodyCanStep(j: R.Job, g: Program) returns (e: Event)
    requires Inv(j, g) && !g.main.Printed?
    ensures Possible(g, e) && e != Tick
  {
    var t := g.p.s.cur.value;
    if t == 0 {
      e := Main;
    } else {
      assert S.Live(g.p.s, t) && Working(g.p.workers, t);
      var n :| 0 <= n < |g.p.workers| && g.p.workers[n].pc != R.Done && g.p.workers[n].tid == t;
      e := Work(n);
    }
  }

  function NonTicks(es: seq<Event>): (n: nat) {
    if es == [] then 0 else (if es[0] == Tick then 0 else 1) + NonTicks(es[1..])
  }

  /** So the steps left after any run are the steps left before it less those that were made: however ticks fall, the
      program prints at exactly its `Left`th step, and there is no step after that. */
  lemma {:induction false} RunDrops(j: R.Job, g: Program, es: seq<Event>)
    requires Inv(j, g) && Runs(j, g, es)
    ensures Left(j, Run(j, g, es)) == Left(j, g) - NonTicks(es)
    ensures Run(j, g, es).main.Printed? <==> NonTicks(es) == Left(j, g)
    decreases |es|
  {
    NothingLeft(j, g);
    hide Inv, Possible, Step, Left;
    if es != [] {
      StepDrops(j, g, es[0]);
      RunDrops(j, Step(j, g, es[0]), es[1..]);
    }
  }

  /** From every reachable state the program can go on to the print, ticks or no ticks. */
  lemma {:induction false} PrintIsReached(j: R.Job, g: Program) returns (es: seq<Event>)
    requires Inv(j, g)
    ensures Runs(j, g, es) && Run(j, g, es).main.Printed? && Tick !in es && |es| == Left(j, g)
    decreases Left(j, g)
  {
    NothingLeft(j, g);
    es := [];
    if !g.main.Printed? {
      var e := SomebodyCanStep(j, g);
      hide Inv, Possible, Step, Left;
      StepDrops(j, g, e);
      var rest := PrintIsReached(j, Step(j, g, e));
      es := [e] + rest;
      assert es[1..] == rest;
    }
  }

  /** For every matrix, every number of workers and every table that holds them there is a run to the end. */
  lemma FinishedRunsExist(j: R.Job, n: nat) returns (es: seq<Event>, rs: seq<R.Event>)
    requires Fits(j, n)
    ensures Inv(j, Begin(j, n)) && Runs(j, Begin(j, n), es) && Run(j, Begin(j, n), es).main.Printed?
    ensures R.LegalRun(j, Begin(j, n).p, rs) && R.Finished(j, R.Run(j, Begin(j, n).p, rs))
  {
    BeginOk(j, n);
    es := PrintIsReached(j, Begin(j, n));
    PrintedIsVerified(j, n, es);
    rs := RunsAreLegal(j, Begin(j, n), es);
  }

  // ---- the order of main's calls ----

  /** The calls that main has made when it is at `main`: one create for each worker, and joins of the handles in the
      order in which the creates returned them. */
  function CallsSoFar(j: R.Job, ws: seq<R.Worker>, main: MainPc): (cs: seq<R.Event>) {
    match main
    case Creating(i) => seq(i, _ => R.Start(0))
    case Joining(i) => seq(j.threads, _ => R.Start(0)) + Joins(ws, i)
    case Printed(_) => seq(j.threads, _ => R.Start(0)) + Joins(ws, j.threads)
  }

  function Joins(ws: seq<R.Worker>, n: nat): (cs: seq<R.Event>) {
    if n > |ws| then [] else seq(n, k requires 0 <= k < n => R.Call(S.JoinThread(ws[k].tid)))
  }

  /** The calls of main in a run. */
  ghost function MainCalls(j: R.Job, g: Program, es: seq<Event>): (cs: seq<R.Event>)
    requires Inv(j, g) && Runs(j, g, es)
    decreases |es|
  {
    if es == [] then []
    else StepKeeps(j, g, es[0]); MainCall(j, g, es[0]) + MainCalls(j, Step(j, g, es[0]), es[1..])
  }

  function MainCall(j: R.Job, g: Program, e: Event): (cs: seq<R.Event>) {
    if e == Main && Inner(j, g, Main).Some? then [Inner(j, g, Main).value] else []
  }

  /** Handles do not change. */
  lemma HandlesStay(j: R.Job, g: Program, e: Event)
    requires Inner(j, g, e).Some? ==> R.Possible(j, g.p, Inner(j, g, e).value)
    ensures var ws, ws' := g.p.workers, Step(j, g, e).p.workers;
            && |ws| <= |ws'| && forall k :: 0 <= k < |ws| ==> ws'[k].tid == ws[k].tid
    ensures forall n :: 0 <= n <= |g.p.workers| ==> Joins(Step(j, g, e).p.workers, n) == Joins(g.p.workers, n)
  {
    hide S.Step;
  }

  lemma HandlesMade(j: R.Job, g: Program)
    requires Inv(j, g)
    ensures g.main.Joining? ==> g.main.i <= j.threads == |g.p.workers|
    ensures g.main.Printed? ==> j.threads == |g.p.workers|
    ensures g.main.Creating? ==> g.main.i <= j.threads
  {
  }

  lemma CallsGrow(j: R.Job, g: Program, e: Event)
    requires Inv(j, g) && Possible(g, e) && (Inner(j, g, e).Some? ==> R.Possible(j, g.p, Inner(j, g, e).value))
    ensures CallsSoFar(j, Step(j, g, e).p.workers, Step(j, g, e).main) ==
            CallsSoFar(j, g.p.workers, g.main) + MainCall(j, g, e)
  {
    hide R.Inv, Layout, R.Possible, R.Step, MainOk, Joins;
    HandlesMade(j, g);
    HandlesStay(j, g, e);
    if e == Main {
      NextCall(j, g);
    }
  }

  lemma NextCall(j: R.Job, g: Program)
    requires g.main.Joining? ==> g.main.i <= j.threads == |g.p.workers|
    requires !g.main.Printed? && (g.main.Creating? ==> g.main.i <= j.threads)
    ensures CallsSoFar(j, g.p.workers, NextMain(j, g)) == CallsSoFar(j, g.p.workers, g.main) + MainCall(j, g, Main)
  {
    var ws, i, starts := g.p.workers, g.main.i, seq(j.threads, _ => R.Start(0));
    if g.main.Creating? {
      assert Joins(ws, 0) == [];
    } else if i < j.threads {
      assert Joins(ws, i + 1) == Joins(ws, i) + MainCall(j, g, Main);
      assert starts + Joins(ws, i + 1) == (starts + Joins(ws, i)) + MainCall(j, g, Main);
    }
  }

  /** Over every run main has called create for each worker and then joined the handles in order, and called nothing
      else. */
  lemma {:induction false} MainCallsInOrder(j: R.Job, g: Program, es: seq<Event>)
    requires Inv(j, g) && Runs(j, g, es)
    ensures var g' := Run(j, g, es);
            CallsSoFar(j, g'.p.workers, g'.main) == CallsSoFar(j, g.p.workers, g.main) + MainCalls(j, g, es)
    decreases |es|
  {
    hide Inv, Possible, Step, CallsSoFar;
    if es != [] {
      StepKeeps(j, g, es[0]);
      CallsGrow(j, g, es[0]);
      MainCallsInOrder(j, Step(j, g, es[0]), es[1..]);
    }
  }
}
