/** Every interleaving of the workers of parallelCal.c under the scheduler, with whatever the other threads do.

    The lock-protected addition is three steps, a read, a write and the unlock call, and a timer tick may fall between
    any two. */
module ParallelRuns {
  import opened Util
  import opened MutexClients
  import opened ParallelCal
  import S = Scheduling
  import SI = SchedulingInvariant
  import SR = SchedulingRuns

  /** What does not change: the matrix, the handle of the mutex and thread_num. */
  datatype Job = Job(rows: Rows, mutex: nat, threads: nat)

  /** Where a worker is in parallel_calculate; `row` is its j and `col` its i. */
  datatype Pc =
    | Calc(row: nat, col: nat)          // in the first loop
    | Want(row: nat)                    // at the head of the second loop
    | Entered(row: nat)                 // has called lock
    | Loaded(row: nat, seen: nat)       // has read sum
    | Stored(row: nat)                  // has written sum
    | Done                              // has returned

  datatype Worker = Worker(tid: Tid, pc: Pc)

  /** `workers[n]` is the thread whose argument is n; `added` marks the rows that were added (history). */
  datatype Par = Par(s: S.Sched, pSum: seq<nat>, sum: nat, workers: seq<Worker>, added: seq<bool>)

  datatype Event =
    | Act(n: nat)                // worker n does its next step
    | Start(rank: int)           // another thread creates the next worker
    | Call(e: S.Event)           // a library call of another thread, or a timer tick in any

  ghost predicate Sized(j: Job, p: Par) {
    && j.threads >= 1 && |j.rows| == |p.pSum| == |p.added| && S.Shape(p.s)
    && forall n :: 0 <= n < |p.workers| ==> PcInRange(j, p.workers[n].pc)
  }

  ghost predicate PcInRange(j: Job, pc: Pc) {
    match pc
    case Calc(row, col) => if row < |j.rows| then col <= |j.rows[row]| else col == 0
    case Want(_) => true
    case Entered(row) => row < |j.rows|
    case Loaded(row, _) => row < |j.rows|
    case Stored(row) => row < |j.rows|
    case Done => true
  }

  /** The library call in worker n's next step. */
  function WorkerCall(j: Job, pc: Pc): (c: Option<S.Event>) {
    match pc
    case Want(row) => if row < |j.rows| then Some(S.Acquire(j.mutex)) else Some(S.Quit)
    case Stored(_) => Some(S.Unlocked(j.mutex))
    case _ => None
  }

  function NextPc(j: Job, n: nat, sum: nat, pc: Pc): (pc': Pc) {
    match pc
    case Calc(row, col) =>
      if row >= |j.rows| then Want(n)
      else if col < |j.rows[row]| then Calc(row, col + 1)
      else Calc(row + j.threads, 0)
    case Want(row) => if row < |j.rows| then Entered(row) else Done
    case Entered(row) => Loaded(row, sum)
    case Loaded(row, _) => Stored(row)
    case Stored(row) => Want(row + j.threads)
    case Done => Done
  }

  function NextPSum(j: Job, pc: Pc, pSum: seq<nat>): (r: seq<nat>)
    requires |pSum| == |j.rows|
  {
    match pc
    case Calc(row, col) =>
      if row < |j.rows| && col < |j.rows[row]| then pSum[row := Wrap(pSum[row] + j.rows[row][col] * col)] else pSum
    case _ => pSum
  }

  function NextSum(pc: Pc, pSum: seq<nat>, sum: nat): (r: nat) {
    match pc
    case Loaded(row, seen) => if row < |pSum| then Wrap(seen + pSum[row]) else sum
    case _ => sum
  }

  function NextAdded(pc: Pc, added: seq<bool>): (r: seq<bool>) {
    match pc
    case Loaded(row, _) => if row < |added| then added[row := true] else added
    case _ => added
  }

  /** The library call that a step makes. */
  function LibCall(j: Job, p: Par, e: Event): (c: Option<S.Event>)
    requires e.Act? ==> e.n < |p.workers|
  {
    match e
    case Act(n) => WorkerCall(j, p.workers[n].pc)
    case Start(r) => Some(S.Spawn(r))
    case Call(c) => Some(c)
  }

  ghost predicate Runs(p: Par, n: nat) {
    n < |p.workers| && p.workers[n].pc != Done && p.s.cur == Some(p.workers[n].tid)
  }

  ghost predicate Possible(j: Job, p: Par, e: Event) {
    && Sized(j, p)
    && (e.Act? ==> Runs(p, e.n))
    && (LibCall(j, p, e).Some? ==> S.Defined(p.s, LibCall(j, p, e).value))
  }

  function Step(j: Job, p: Par, e: Event): (p': Par)
    requires Possible(j, p, e)
  {
    var c := LibCall(j, p, e);
    var s' := if c.Some? then S.Step(p.s, c.value) else p.s;
    match e
    case Act(n) =>
      var w := p.workers[n];
      Par(s', NextPSum(j, w.pc, p.pSum), NextSum(w.pc, p.pSum, p.sum),
          p.workers[n := Worker(w.tid, NextPc(j, n, p.sum, w.pc))], NextAdded(w.pc, p.added))
    case Start(_) => p.(s := s', workers := p.workers + [Worker(S.FreeSlot(p.s), Calc(|p.workers|, 0))])
    case Call(_) => p.(s := s')
  }

  /** The discipline of the other threads: workers are created below the mutex and at most thread_num of them, the
      mutex is not destroyed, and their own calls are in order. Nothing is asked of the workers. */
  ghost predicate Legal(j: Job, p: Par, e: Event) {
    && Possible(j, p, e)
    && match e
       case Act(_) => true
       case Start(r) =>
         && S.Legal(p.s, S.Spawn(r)) && (forall n :: 0 <= n < |p.workers| ==> !Runs(p, n))
         && |p.workers| < j.threads && j.mutex < |p.s.rank| && r < p.s.rank[j.mutex]
       case Call(c) =>
         && S.Legal(p.s, c) && c != S.DestroyMutex(j.mutex)
         && (c == S.Tick || forall n :: 0 <= n < |p.workers| ==> !Runs(p, n))
  }

  // ---- the invariant ----

  /** What the scheduler knows of a worker. */
  ghost predicate Seat(s: S.Sched, m: nat, w: Worker)
    requires S.Shape(s)
  {
    match w.pc
    case Calc(_, _) => Out(s, m, w.tid)
    case Want(_) => Out(s, m, w.tid)
    case Entered(_) => Queued(s, m, w.tid)
    case Loaded(_, _) => Inside(s, m, w.tid)
    case Stored(_) => Inside(s, m, w.tid)
    case Done => true
  }

  ghost predicate Seats(s: S.Sched, m: nat, ws: seq<Worker>)
    requires S.Shape(s)
  {
    && SI.Inv(s) && MutexOk(s, m)
    && (forall n :: 0 <= n < |ws| ==> Seat(s, m, ws[n]))
    && (forall a, b :: 0 <= a < b < |ws| && ws[a].pc != Done && ws[b].pc != Done ==> ws[a].tid != ws[b].tid)
  }

  /** Worker n stays in its stride. */
  ghost predicate InStride(j: Job, n: nat, pc: Pc)
    requires j.threads >= 1
  {
    pc != Done ==> pc.row % j.threads == n
  }

  /** How many columns of row `r` the worker of its stride has added into pSum. */
  ghost function Columns(j: Job, pc: Pc, r: nat): (i: nat)
    requires r < |j.rows| && PcInRange(j, pc)
    ensures i <= |j.rows[r]|
  {
    match pc
    case Calc(row, col) => if r < row then |j.rows[r]| else if r == row then col else 0
    case _ => |j.rows[r]|
  }

  /** The worker of the stride of row `r` has added it into sum. */
  ghost predicate Passed(pc: Pc, r: nat) {
    match pc
    case Calc(_, _) => false
    case Want(row) => r < row
    case Entered(row) => r < row
    case Loaded(row, _) => r < row
    case Stored(row) => r <= row
    case Done => true
  }

  /** What the worker of row `r` has made of its pSum entry and its mark. */
  ghost predicate RowIs(j: Job, pc: Pc, r: nat, v: nat, a: bool)
    requires r < |j.rows| && PcInRange(j, pc)
  {
    v == AddRow(0, j.rows[r], Columns(j, pc, r)) && (a <==> Passed(pc, r))
  }

  ghost predicate RowOk(j: Job, p: Par, r: nat)
    requires Sized(j, p) && r < |j.rows|
  {
    var n := r % j.threads;
    if n < |p.workers| then RowIs(j, p.workers[n].pc, r, p.pSum[r], p.added[r]) else p.pSum[r] == 0 && !p.added[r]
  }

  ghost predicate Inv(j: Job, p: Par) {
    && Sized(j, p) && |p.workers| <= j.threads
    && Seats(p.s, j.mutex, p.workers)
    && (forall n :: 0 <= n < |p.workers| ==> InStride(j, n, p.workers[n].pc))
    && (forall n :: 0 <= n < |p.workers| ==> p.workers[n].pc.Loaded? ==> p.workers[n].pc.seen == p.sum)
    && (forall r :: 0 <= r < |j.rows| ==> RowOk(j, p, r))
    && p.sum == SumOf(j.rows, p.added, |j.rows|)
  }

  // ---- the scheduler's side ----

  /** The step of one worker moves only its own seat. */
  lemma WorkerMovesItsSeat(j: Job, p: Par, n: nat)
    requires Inv(j, p) && Possible(j, p, Act(n))
    ensures var c := WorkerCall(j, p.workers[n].pc);
            && (c.Some? ==> S.Legal(p.s, c.value))
            && S.Shape(Step(j, p, Act(n)).s)
            && Seat(Step(j, p, Act(n)).s, j.mutex, Step(j, p, Act(n)).workers[n])
  {
    var w := p.workers[n];
    assert Seat(p.s, j.mutex, w);
    match w.pc
    case Want(row) =>
      if row < |j.rows| {
        LockMovesIn(p.s, j.mutex, w.tid);
      } else {
        OutMayQuit(p.s, j.mutex, w.tid);
        SR.StepKeepsShape(p.s, S.Quit);
      }
    case Entered(_) => RunningIsInside(p.s, j.mutex, w.tid);
    case Stored(_) => UnlockMovesOut(p.s, j.mutex, w.tid);
    case _ =>
  }

  lemma OthersKeepTheirSeats(s: S.Sched, c: S.Event, m: nat, w: Worker)
    requires SI.Inv(s) && S.Legal(s, c) && MutexOk(s, m) && Seat(s, m, w)
    requires w.pc != Done ==> c == S.Tick || s.cur != Some(w.tid)
    ensures S.Shape(S.Step(s, c)) && Seat(S.Step(s, c), m, w)
  {
    SR.StepKeepsShape(s, c);
    if w.pc != Done {
      if c == S.Tick {
        TickKeepsSeat(s, m, w.tid);
      } else {
        OthersCallsKeepSeat(s, c, m, w.tid);
      }
    }
  }

  lemma ActKeepsSeats(j: Job, p: Par, n: nat)
    requires Inv(j, p) && Possible(j, p, Act(n))
    ensures S.Shape(Step(j, p, Act(n)).s) && Seats(Step(j, p, Act(n)).s, j.mutex, Step(j, p, Act(n)).workers)
  {
    var c, p' := WorkerCall(j, p.workers[n].pc), Step(j, p, Act(n));
    WorkerMovesItsSeat(j, p, n);
    if c.Some? {
      SI.StepKeeps(p.s, c.value);
      MutexKept(p.s, c.value, j.mutex);
      forall k | 0 <= k < |p.workers| && k != n
        ensures Seat(p'.s, j.mutex, p'.workers[k])
      {
        OthersKeepTheirSeats(p.s, c.value, j.mutex, p.workers[k]);
      }
    }
  }

  lemma CallKeepsSeats(j: Job, p: Par, c: S.Event)
    requires Inv(j, p) && Legal(j, p, Call(c))
    ensures S.Shape(S.Step(p.s, c)) && Seats(S.Step(p.s, c), j.mutex, p.workers)
  {
    SI.StepKeeps(p.s, c);
    MutexKept(p.s, c, j.mutex);
    forall k | 0 <= k < |p.workers|
      ensures Seat(S.Step(p.s, c), j.mutex, p.workers[k])
    {
      assert Seat(p.s, j.mutex, p.workers[k]);
      assert c != S.Tick ==> !Runs(p, k);
      OthersKeepTheirSeats(p.s, c, j.mutex, p.workers[k]);
    }
  }

  lemma StartSparesWorker(s: S.Sched, m: nat, r: int, w: Worker)
    requires SI.Inv(s) && S.Legal(s, S.Spawn(r)) && MutexOk(s, m) && Seat(s, m, w)
    requires w.pc != Done ==> s.cur != Some(w.tid)
    ensures S.Shape(S.Create(s, r)) && Seat(S.Create(s, r), m, w)
    ensures w.pc != Done ==> w.tid != S.FreeSlot(s)
  {
    OthersKeepTheirSeats(s, S.Spawn(r), m, w);
    SR.LiveAfter(s, S.Spawn(r));
  }

  lemma StartKeepsSeats(j: Job, p: Par, r: int)
    requires Inv(j, p) && Legal(j, p, Start(r))
    ensures S.Shape(Step(j, p, Start(r)).s) && Seats(Step(j, p, Start(r)).s, j.mutex, Step(j, p, Start(r)).workers)
  {
    var c, p' := S.Spawn(r), Step(j, p, Start(r));
    SI.StepKeeps(p.s, c);
    MutexKept(p.s, c, j.mutex);
    SpawnedIsOut(p.s, j.mutex, r);
    hide SI.Inv, Out, Queued, Inside;
    forall k | 0 <= k < |p.workers|
      ensures Seat(p'.s, j.mutex, p.workers[k])
      ensures p.workers[k].pc != Done ==> p.workers[k].tid != S.FreeSlot(p.s)
    {
      assert Seat(p.s, j.mutex, p.workers[k]);
      assert !Runs(p, k);
      StartSparesWorker(p.s, j.mutex, r, p.workers[k]);
    }
  }

  // ---- the data ----

  lemma NextPcStays(j: Job, n: nat, sum: nat, pc: Pc)
    requires j.threads >= 1 && n < j.threads && PcInRange(j, pc) && InStride(j, n, pc)
    ensures PcInRange(j, NextPc(j, n, sum, pc)) && InStride(j, n, NextPc(j, n, sum, pc))
  {
    Residue(n, j.threads);
    if pc != Done {
      StrideStep(pc.row, j.threads);
    }
  }

  lemma Residue(n: nat, t: nat)
    requires n < t
    ensures n % t == n
  {
  }

  /** The rows of a stride, seen by its worker: those that the step neither calculates nor adds keep their state. */
  lemma StepMovesOneRow(j: Job, n: nat, sum: nat, pc: Pc, r: nat)
    requires j.threads >= 1 && n < j.threads && PcInRange(j, pc) && InStride(j, n, pc)
    requires r < |j.rows| && r % j.threads == n
    ensures PcInRange(j, NextPc(j, n, sum, pc))
    ensures var pc' := NextPc(j, n, sum, pc);
            && Columns(j, pc', r) == (if pc.Calc? && pc.row == r && pc.col < |j.rows[r]| then pc.col + 1
                                      else Columns(j, pc, r))
            && (Passed(pc', r) <==> Passed(pc, r) || (pc.Loaded? && pc.row == r))
  {
    NextPcStays(j, n, sum, pc);
    if pc != Done {
      StrideHasNoGap(r, pc.row, j.threads);
    }
    NothingBelow(r, n, j.threads);
  }

  lemma NothingBelow(r: nat, n: nat, t: nat)
    requires n < t && r % t == n
    ensures r >= n
  {
  }

  lemma ActKeepsRow(j: Job, p: Par, n: nat, r: nat)
    requires Inv(j, p) && Possible(j, p, Act(n)) && r < |j.rows| && Sized(j, Step(j, p, Act(n)))
    ensures RowOk(j, Step(j, p, Act(n)), r)
  {
    var pc := p.workers[n].pc;
    assert RowOk(j, p, r) && InStride(j, n, pc);
    if r % j.threads == n {
      OwnRow(j, n, p.sum, pc, r, p.pSum, p.added);
    } else {
      OtherRow(j, n, pc, r, p.pSum, p.added);
    }
  }

  lemma OwnRow(j: Job, n: nat, sum: nat, pc: Pc, r: nat, pSum: seq<nat>, added: seq<bool>)
    requires j.threads >= 1 && n < j.threads && PcInRange(j, pc) && InStride(j, n, pc)
    requires r < |j.rows| == |pSum| == |added| && r % j.threads == n && RowIs(j, pc, r, pSum[r], added[r])
    ensures PcInRange(j, NextPc(j, n, sum, pc))
    ensures RowIs(j, NextPc(j, n, sum, pc), r, NextPSum(j, pc, pSum)[r], NextAdded(pc, added)[r])
  {
    StepMovesOneRow(j, n, sum, pc, r);
  }

  /** A worker writes nothing outside its stride. */
  lemma OtherRow(j: Job, n: nat, pc: Pc, r: nat, pSum: seq<nat>, added: seq<bool>)
    requires j.threads >= 1 && InStride(j, n, pc)
    requires r < |j.rows| == |pSum| == |added| && r % j.threads != n
    ensures NextPSum(j, pc, pSum)[r] == pSum[r] && NextAdded(pc, added)[r] == added[r]
  {
  }

  /** A worker about to write sum has read its present value, and its row is not yet in it. */
  lemma ActKeepsSum(j: Job, p: Par, n: nat)
    requires Inv(j, p) && Possible(j, p, Act(n))
    ensures var p' := Step(j, p, Act(n));
            && |p'.added| == |j.rows| && p'.sum == SumOf(j.rows, p'.added, |j.rows|)
  {
    hide Seats;
    var pc := p.workers[n].pc;
    if pc.Loaded? {
      assert RowOk(j, p, pc.row) && InStride(j, n, pc);
      MarkAdds(j.rows, p.added, pc.row, |j.rows|);
    }
  }

  /** No other worker has read sum when one writes it: that worker would own the mutex too. */
  lemma ActKeepsReads(j: Job, p: Par, n: nat, k: nat)
    requires Inv(j, p) && Possible(j, p, Act(n)) && k < |p.workers|
    ensures var p' := Step(j, p, Act(n)); p'.workers[k].pc.Loaded? ==> p'.workers[k].pc.seen == p'.sum
  {
    assert Seat(p.s, j.mutex, p.workers[n]) && Seat(p.s, j.mutex, p.workers[k]);
  }

  lemma ActKeeps(j: Job, p: Par, n: nat)
    requires Inv(j, p) && Possible(j, p, Act(n))
    ensures Inv(j, Step(j, p, Act(n)))
  {
    var p' := Step(j, p, Act(n));
    ActKeepsSeats(j, p, n);
    ActKeepsSum(j, p, n);
    NextPcStays(j, n, p.sum, p.workers[n].pc);
    forall r | 0 <= r < |j.rows|
      ensures RowOk(j, p', r)
    {
      ActKeepsRow(j, p, n, r);
    }
    forall k | 0 <= k < |p'.workers| && p'.workers[k].pc.Loaded?
      ensures p'.workers[k].pc.seen == p'.sum
    {
      ActKeepsReads(j, p, n, k);
    }
  }

  lemma StartKeeps(j: Job, p: Par, r: int)
    requires Inv(j, p) && Legal(j, p, Start(r))
    ensures Inv(j, Step(j, p, Start(r)))
  {
    var n, p' := |p.workers|, Step(j, p, Start(r));
    StartKeepsSeats(j, p, r);
    Residue(n, j.threads);
    forall k | 0 <= k < |j.rows|
      ensures RowOk(j, p', k)
    {
      assert RowOk(j, p, k);
      StartedRow(j, n, k);
    }
  }

  lemma StartedRow(j: Job, n: nat, r: nat)
    requires j.threads >= 1 && r < |j.rows|
    ensures r % j.threads == n ==> PcInRange(j, Calc(n, 0)) && RowIs(j, Calc(n, 0), r, 0, false)
  {
    NothingBelow(r, r % j.threads, j.threads);
  }

  /** Every step keeps the invariant. */
  lemma StepKeeps(j: Job, p: Par, e: Event)
    requires Inv(j, p) && Legal(j, p, e)
    ensures Inv(j, Step(j, p, e))
  {
    match e
    case Act(n) => ActKeeps(j, p, n);
    case Start(r) => StartKeeps(j, p, r);
    case Call(c) =>
      CallKeepsSeats(j, p, c);
      forall r | 0 <= r < |j.rows|
        ensures RowOk(j, Step(j, p, e), r)
      {
        assert RowOk(j, p, r);
      }
  }

  // ---- runs ----

  ghost predicate LegalRun(j: Job, p: Par, es: seq<Event>)
    decreases |es|
  {
    es == [] || (Legal(j, p, es[0]) && LegalRun(j, Step(j, p, es[0]), es[1..]))
  }

  ghost function Run(j: Job, p: Par, es: seq<Event>): (p': Par)
    requires LegalRun(j, p, es)
    decreases |es|
  {
    if es == [] then p else Run(j, Step(j, p, es[0]), es[1..])
  }

  /** Before the first worker, with sum and pSum cleared and the mutex made. */
  ghost function Init(j: Job, s: S.Sched): (p: Par) {
    Par(s, seq(|j.rows|, _ => 0), 0, [], seq(|j.rows|, _ => false))
  }

  lemma InitOk(j: Job, s: S.Sched)
    requires j.threads >= 1 && SI.Inv(s) && MutexOk(s, j.mutex)
    ensures Inv(j, Init(j, s))
  {
    NoneMarked(j.rows, Init(j, s).added, |j.rows|);
  }

  lemma {:induction false} RunKeeps(j: Job, p: Par, es: seq<Event>)
    requires Inv(j, p) && LegalRun(j, p, es)
    ensures Inv(j, Run(j, p, es))
    decreases |es|
  {
    if es != [] {
      StepKeeps(j, p, es[0]);
      RunKeeps(j, Step(j, p, es[0]), es[1..]);
    }
  }

  ghost predicate Finished(j: Job, p: Par) {
    |p.workers| == j.threads && forall n :: 0 <= n < |p.workers| ==> p.workers[n].pc == Done
  }

  /** When every worker has returned, sum is what verify computes. */
  lemma FinishedSum(j: Job, p: Par)
    requires Inv(j, p) && Finished(j, p)
    ensures p.sum == VerifySum(j.rows, |j.rows|)
    ensures forall r :: 0 <= r < |j.rows| ==> p.pSum[r] == RowSum(j.rows[r])
  {
    forall r | 0 <= r < |j.rows|
      ensures p.added[r] && p.pSum[r] == RowSum(j.rows[r])
    {
      assert RowOk(j, p, r);
    }
    AllMarked(j.rows, p.added, |j.rows|);
  }

  /** Whatever the interleaving, the number of threads and the other threads' calls: the parallel sum is verify's sum,
      the exact sum modulo 2 to the 32. */
  lemma ParallelSumIsVerified(j: Job, s: S.Sched, es: seq<Event>)
    requires j.threads >= 1 && SI.Inv(s) && MutexOk(s, j.mutex)
    requires LegalRun(j, Init(j, s), es) && Finished(j, Run(j, Init(j, s), es))
    ensures Run(j, Init(j, s), es).sum == VerifySum(j.rows, |j.rows|) == Wrap(ExactSum(j.rows, |j.rows|))
  {
    InitOk(j, s);
    RunKeeps(j, Init(j, s), es);
    FinishedSum(j, Run(j, Init(j, s), es));
    VerifySumIsExact(j.rows, |j.rows|);
  }

  // ---- the joins ----

  /** Joining a worker that has not returned blocks. */
  lemma JoinBlocks(j: Job, p: Par, n: nat)
    requires Inv(j, p) && n < |p.workers| && p.workers[n].pc != Done
    ensures SR.Blocks(p.s, S.JoinThread(p.workers[n].tid), p.workers[n].tid)
  {
    assert Seat(p.s, j.mutex, p.workers[n]);
    assert SI.Accounted(p.s, p.workers[n].tid);
  }

  /** While a thread is joined to a worker, a step either makes that worker return or leaves the thread joined. */
  lemma StepKeepsJoined(j: Job, p: Par, e: Event, t: Tid, n: nat)
    requires Inv(j, p) && Legal(j, p, e) && n < |p.workers| && p.workers[n].pc != Done
    requires SR.Joining(p.s, t, p.workers[n].tid)
    ensures var p' := Step(j, p, e);
            && n < |p'.workers| && p'.workers[n].tid == p.workers[n].tid
            && (p'.workers[n].pc == Done || SR.Joining(p'.s, t, p.workers[n].tid))
  {
    var c, u := LibCall(j, p, e), p.workers[n].tid;
    if e.Act? {
      WorkerMovesItsSeat(j, p, e.n);
    }
    assert Seat(p.s, j.mutex, p.workers[n]);
    if c.Some? {
      assert c.value == S.Quit && p.s.cur == Some(u) ==> Runs(p, n);
      if !(c.value == S.Quit && p.s.cur == Some(u)) {
        SR.StepKeepsJoining(p.s, c.value, t, u);
      }
    }
  }

  /** So the thread that created the workers gets past its join of one only when that worker has returned. */
  lemma {:induction false} JoinedUntilDone(j: Job, p: Par, es: seq<Event>, t: Tid, n: nat)
    requires Inv(j, p) && LegalRun(j, p, es) && n < |p.workers|
    requires p.workers[n].pc == Done || SR.Joining(p.s, t, p.workers[n].tid)
    ensures var p' := Run(j, p, es);
            n < |p'.workers| && (p'.workers[n].pc == Done || SR.Joining(p'.s, t, p.workers[n].tid))
    decreases |es|
  {
    if es != [] {
      StepKeeps(j, p, es[0]);
      if p.workers[n].pc != Done {
        StepKeepsJoined(j, p, es[0], t, n);
      }
      JoinedUntilDone(j, Step(j, p, es[0]), es[1..], t, n);
    }
  }
}
