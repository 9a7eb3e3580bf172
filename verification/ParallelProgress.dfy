/** How many steps a worker of parallelCal.c has left, and that with the mutex to itself it takes them. */
module ParallelProgress {
  import opened Util
  import opened MutexClients
  import opened ParallelCal
  import opened ParallelRuns
  import S = Scheduling
  import SI = SchedulingInvariant
  import SR = SchedulingRuns

  /** Steps from the head of the second loop at `row`: four for each row left and one to return. */
  function AddingSteps(j: Job, row: nat): (k: nat)
    requires j.threads >= 1
    decreases |j.rows| - row
  {
    if row < |j.rows| then 4 + AddingSteps(j, row + j.threads) else 1
  }

  /** Steps from column `col` of row `row` in the first loop of worker `n`. */
  function CalculatingSteps(j: Job, n: nat, row: nat, col: nat): (k: nat)
    requires j.threads >= 1 && PcInRange(j, Calc(row, col))
    decreases |j.rows| - row
  {
    if row < |j.rows| then |j.rows[row]| - col + 1 + CalculatingSteps(j, n, row + j.threads, 0)
    else 1 + AddingSteps(j, n)
  }

  function Steps(j: Job, n: nat, pc: Pc): (k: nat)
    requires j.threads >= 1 && PcInRange(j, pc)
  {
    match pc
    case Calc(row, col) => CalculatingSteps(j, n, row, col)
    case Want(row) => AddingSteps(j, row)
    case Entered(row) => 3 + AddingSteps(j, row + j.threads)
    case Loaded(row, _) => 2 + AddingSteps(j, row + j.threads)
    case Stored(row) => 1 + AddingSteps(j, row + j.threads)
    case Done => 0
  }

  /** Every step of a worker brings its return one step nearer, and only a worker that has returned has none left. */
  lemma StepsDrop(j: Job, n: nat, sum: nat, pc: Pc)
    requires j.threads >= 1 && n < j.threads && PcInRange(j, pc) && InStride(j, n, pc)
    ensures PcInRange(j, NextPc(j, n, sum, pc))
    ensures pc != Done ==> Steps(j, n, NextPc(j, n, sum, pc)) == Steps(j, n, pc) - 1
    ensures Steps(j, n, pc) == 0 <==> pc == Done
  {
    NextPcStays(j, n, sum, pc);
  }

  /** A lock and an unlock for each of the rows. */
  function Locks(j: Job, rows: seq<nat>): (cs: seq<S.Event>) {
    if rows == [] then [] else [S.Acquire(j.mutex), S.Unlocked(j.mutex)] + Locks(j, rows[1..])
  }

  /** The library calls that worker `n` has left: one critical section for each row of its stride, and then its end. */
  function CallsLeft(j: Job, n: nat, pc: Pc): (cs: seq<S.Event>)
    requires j.threads >= 1
  {
    match pc
    case Calc(_, _) => Locks(j, Stride(n, j.threads, |j.rows|)) + [S.Quit]
    case Want(row) => Locks(j, Stride(row, j.threads, |j.rows|)) + [S.Quit]
    case Entered(row) => [S.Unlocked(j.mutex)] + Locks(j, Stride(row + j.threads, j.threads, |j.rows|)) + [S.Quit]
    case Loaded(row, _) => [S.Unlocked(j.mutex)] + Locks(j, Stride(row + j.threads, j.threads, |j.rows|)) + [S.Quit]
    case Stored(row) => [S.Unlocked(j.mutex)] + Locks(j, Stride(row + j.threads, j.threads, |j.rows|)) + [S.Quit]
    case Done => []
  }

  /** Every step of a worker makes the first of the calls left, or none. */
  lemma StepCalls(j: Job, n: nat, sum: nat, pc: Pc)
    requires j.threads >= 1
    ensures var c := WorkerCall(j, pc);
            CallsLeft(j, n, pc) == (if c.Some? then [c.value] else []) + CallsLeft(j, n, NextPc(j, n, sum, pc))
  {
    if pc.Want? && pc.row < |j.rows| {
      var rest := Stride(pc.row + j.threads, j.threads, |j.rows|);
      assert Stride(pc.row, j.threads, |j.rows|) == [pc.row] + rest;
      assert ([pc.row] + rest)[1..] == rest;
    }
  }

  /** The mutex is free, or worker `t` holds it and nobody waits. */
  ghost predicate Uncontended(s: S.Sched, m: nat, t: Tid)
    requires S.Shape(s) && m < |s.table|
  {
    s.table[m].count == 0 || (s.table[m].count == 1 && s.owner[m] == Some(t))
  }

  lemma UncontendedStays(j: Job, p: Par, n: nat)
    requires Inv(j, p) && Runs(p, n) && Uncontended(p.s, j.mutex, p.workers[n].tid) && Possible(j, p, Act(n))
    ensures var p', t := Step(j, p, Act(n)), p.workers[n].tid;
            && S.Shape(p'.s) && p'.workers[n].tid == t
            && (p'.workers[n].pc != Done ==> Runs(p', n) && j.mutex < |p'.s.table| && Uncontended(p'.s, j.mutex, t))
  {
    WorkerMovesItsSeat(j, p, n);
    assert Seat(p.s, j.mutex, p.workers[n]);
    assert SI.Accounted(p.s, j.mutex);
  }

  /** A worker that is not interrupted and has the mutex to itself returns after exactly its number of steps. */
  lemma {:induction false} UninterruptedWorkerReturns(j: Job, p: Par, n: nat) returns (es: seq<Event>)
    requires Inv(j, p) && Runs(p, n) && Uncontended(p.s, j.mutex, p.workers[n].tid)
    ensures LegalRun(j, p, es) && |es| == Steps(j, n, p.workers[n].pc) && forall e :: e in es ==> e == Act(n)
    ensures |Run(j, p, es).workers| == |p.workers| && Run(j, p, es).workers[n].pc == Done
    decreases Steps(j, n, p.workers[n].pc)
  {
    var p1 := Step(j, p, Act(n));
    assert Legal(j, p, Act(n));
    StepKeeps(j, p, Act(n));
    UncontendedStays(j, p, n);
    StepsDrop(j, n, p.sum, p.workers[n].pc);
    var rest := [];
    if p1.workers[n].pc != Done {
      rest := UninterruptedWorkerReturns(j, p1, n);
    }
    es := [Act(n)] + rest;
    RunFrom(j, p, Act(n), rest);
  }

  lemma RunFrom(j: Job, p: Par, e: Event, rest: seq<Event>)
    requires Legal(j, p, e) && LegalRun(j, Step(j, p, e), rest)
    ensures LegalRun(j, p, [e] + rest) && Run(j, p, [e] + rest) == Run(j, Step(j, p, e), rest)
  {
    hide Legal, Step;
    assert ([e] + rest)[1..] == rest;
  }
}
