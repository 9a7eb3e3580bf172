/** The library as a whole: scheduler, pager and allocators, with every page in a frame, in the window or in the swap
    file. */
module Kernels {
  import opened Util
  import P = Paging
  import PI = PagingInvariant
  import PR = PagingRefinement
  import R = PagingRuns
  import S = Scheduling
  import SI = SchedulingInvariant
  import SR = SchedulingRuns
  import H = Heaps
  import HP = HeapProofs
  import HB = HeapBytes
  import opened HeapMemory
  import V = KernelViews

  /** `control` is heap_init and heap_trunk_count of each live thread; the records are bytes of the pages in `vm`. */
  datatype Kernel = Kernel(s: S.Sched, vm: P.Vm, control: V.Controls)

  /** The library over private memories that the kernel stands for. */
  ghost function ViewOf(k: Kernel): (x: V.View)
    requires P.Shape(k.vm)
  {
    V.View(k.s, PR.Abs(k.vm), k.control)
  }

  ghost predicate Inv(k: Kernel) { PI.Inv(k.vm) && V.Inv(ViewOf(k), |k.vm.window|) }

  // ---- accesses never reach the end of the window ----

  lemma TouchesAreHandled(ops: seq<HB.Op>, v: nat)
    requires v >= 2 && HB.InPage(ops)
    ensures forall ev :: ev in Touches(ops) ==> !R.TouchesLastByte(ev, v)
  {
  }

  lemma TryInPage(r: H.Record, k: nat, size: nat)
    requires |r| == 4 && k < H.MAX_TRUNKS
    ensures HB.InPage(HB.TryOps(r, k, size))
  {
  }

  lemma {:induction false} ScanInPage(rs: seq<H.Record>, size: nat, n: nat)
    requires n <= |rs| <= H.MAX_TRUNKS && forall k :: 0 <= k < |rs| ==> |rs[k]| == 4
    ensures HB.InPage(ScanOps(rs, size, n))
  {
    hide HB.TryOps;
    if n > 0 {
      ScanInPage(rs, size, n - 1);
      TryInPage(rs[n - 1], n - 1, size);
    }
  }

  lemma MallocIsHandled(h: H.Heap, size: nat, v: nat)
    requires |h.records| == H.MAX_TRUNKS && H.Records(H.Initialised(h)) && H.HasRoom(H.Initialised(h), size) && v >= 2
    ensures forall ev :: ev in MallocEvents(h, size) ==> !R.TouchesLastByte(ev, v)
  {
    hide HB.TryOps, ScanOps, Touches, H.TryMalloc;
    var h1 := H.Initialised(h);
    var k := H.FirstFit(h1, size, 0);
    if k < h1.trunks {
      ScanInPage(h1.records, size, k + 1);
      TouchesAreHandled(ScanOps(h1.records, size, k + 1), v);
    } else {
      ScanInPage(h1.records, size, k);
      TryInPage(h1.records[k], k, size);
      TouchesAreHandled(ScanOps(h1.records, size, k), v);
      TouchesAreHandled(HB.TryOps(h1.records[k], k, size), v);
    }
  }

  lemma FreeIsHandled(h: H.Heap, p: nat, v: nat)
    requires |h.records| == H.MAX_TRUNKS && H.Records(h) && p < H.MAX_TRUNKS * 0x1000 && v >= 2
    ensures forall ev :: ev in FreeEvents(h, p) ==> !R.TouchesLastByte(ev, v)
  {
    TouchesAreHandled(HB.FreeOps(h.records[p / 0x1000], p / 0x1000, p % 0x1000), v);
  }

  lemma CallIsHandled(s: S.Sched, c: S.Event, v: nat)
    requires S.Shape(s) && S.Defined(s, c)
    ensures forall ev :: ev in V.CallEvents(s, c) ==> !R.TouchesLastByte(ev, v)
  {
  }

  lemma AccessIsHandled(m: PR.Memories, c: Control, j: nat, off: nat, v: nat)
    requires m.cur.Some? && m.cur.value in m.mem && UsesFirst(m.mem[m.cur.value], HeapPages(c))
    requires R.Has(m, j) && off < 0x1000 && c.trunks <= H.MAX_TRUNKS && v > H.MAX_TRUNKS + 1
    ensures !R.TouchesLastByte(R.Read(j, off), v) && forall b :: !R.TouchesLastByte(R.Write(j, off, b), v)
  {
  }

  /** The heap never reaches the last page of the window, so no access is to its last byte. */
  lemma AccessesAreHandled(x: V.View, v: nat, e: V.Event)
    requires S.Shape(x.s) && V.LegalEvent(x, e) && v > H.MAX_TRUNKS + 1
    requires UsesFirst(x.m.mem[x.s.cur.value], HeapPages(x.control[x.s.cur.value]))
    ensures forall ev :: ev in V.Accesses(x, e) ==> !R.TouchesLastByte(ev, v)
  {
    hide MallocEvents, FreeEvents, V.CallEvents, R.TouchesLastByte;
    var t := x.s.cur.value;
    match e
    case Malloc(size) => MallocIsHandled(V.HeapAt(x.m, x.control, t), size, v);
    case Free(p) => FreeIsHandled(V.HeapAt(x.m, x.control, t), p, v);
    case Call(c) => CallIsHandled(x.s, c, v);
    case Read(j, off) => AccessIsHandled(x.m, x.control[t], j, off, v);
    case Write(j, off, _) => AccessIsHandled(x.m, x.control[t], j, off, v);
  }

  // ---- steps and runs ----

  /** The kernel and the replies of the pager after one event; the process may stop on the way. */
  datatype Result = Next(k: Kernel, replies: seq<R.Reply>) | Stopped(at: P.Vm, event: R.Event)

  ghost function Step(k: Kernel, e: V.Event): (r: Result)
    requires Inv(k) && V.LegalEvent(ViewOf(k), e)
  {
    V.StepKeeps(ViewOf(k), e, |k.vm.window|);
    match R.Run(k.vm, V.Accesses(ViewOf(k), e))
    case Completed(vm, rs) =>
      Next(Kernel(V.SchedAfter(k.s, e), vm, V.ControlAfter(k.s, PR.Abs(k.vm), k.control, e)), rs)
    case Halted(at, ev) => Stopped(at, ev)
  }

  /** Every event of the paged kernel is the same event over private memories, with the same replies, and keeps the
      invariant of the whole; the process stops only where all frames and all swap slots are taken. */
  lemma StepKeeps(k: Kernel, e: V.Event)
    requires Inv(k) && V.LegalEvent(ViewOf(k), e)
    ensures match Step(k, e)
            case Next(k', rs) =>
              && Inv(k') && |k'.vm.window| == |k.vm.window|
              && ViewOf(k') == V.Step(ViewOf(k), e, |k.vm.window|)
              && rs == V.Replies(ViewOf(k), e, |k.vm.window|)
            case Stopped(at, _) => PI.Inv(at) && R.Full(at)
  {
    hide V.Inv, V.LegalEvent, V.Accesses, V.SchedAfter, V.ControlAfter, V.Effect;
    hide R.LegalRun, R.SpecRun, R.Run, R.Full, PI.FramesOk, PI.SlotsOk;
    AccessesRun(k, e);
    V.StepKeeps(ViewOf(k), e, |k.vm.window|);
  }

  /** The pager serves all of the event's accesses, or stops where everything is full. */
  lemma AccessesRun(k: Kernel, e: V.Event)
    requires Inv(k) && V.LegalEvent(ViewOf(k), e)
    ensures R.LegalRun(PR.Abs(k.vm), V.Accesses(ViewOf(k), e), |k.vm.window|)
    ensures match R.Run(k.vm, V.Accesses(ViewOf(k), e))
            case Completed(vm, rs) =>
              && PI.Inv(vm) && |vm.window| == |k.vm.window|
              && R.SpecRun(PR.Abs(k.vm), V.Accesses(ViewOf(k), e), |k.vm.window|) == (PR.Abs(vm), rs)
            case Halted(at, _) => PI.Inv(at) && R.Full(at)
  {
    hide V.LegalEvent, V.Accesses, V.SchedAfter, V.ControlAfter, V.Effect, PI.FramesOk, PI.SlotsOk, R.SpecRun, R.Run;
    hide R.LegalRun, R.Full, R.TouchesLastByte;
    V.StepKeeps(ViewOf(k), e, |k.vm.window|);
    NotTheLastByte(ViewOf(k), |k.vm.window|, e);
    R.Transparency(k.vm, V.Accesses(ViewOf(k), e));
  }

  lemma NotTheLastByte(x: V.View, v: nat, e: V.Event)
    requires V.Inv(x, v) && V.LegalEvent(x, e)
    ensures forall ev :: ev in V.Accesses(x, e) ==> !R.TouchesLastByte(ev, v)
  {
    hide V.Accesses, R.TouchesLastByte;
    assert Owns(x.control[x.s.cur.value], x.m.mem[x.s.cur.value]);
    AccessesAreHandled(x, v, e);
  }

  ghost predicate LegalRun(k: Kernel, es: seq<V.Event>)
    requires Inv(k)
  {
    V.LegalRun(ViewOf(k), es, |k.vm.window|)
  }

  /** The kernel after a run, or the pager's state where the process stopped. */
  datatype Finish = Completed(k: Kernel) | Halted(at: P.Vm)

  ghost function Run(k: Kernel, es: seq<V.Event>): (f: Finish)
    requires Inv(k) && LegalRun(k, es)
    decreases |es|
  {
    if es == [] then Completed(k)
    else
      StepKeeps(k, es[0]);
      match Step(k, es[0])
      case Next(k1, _) => Run(k1, es[1..])
      case Stopped(at, _) => Halted(at)
  }

  /** Every run of the paged kernel is the run over private memories: what is proved of those holds of it, through all
      evictions, faults and switches. It can end early only where all frames and all swap slots are taken. */
  lemma {:induction false} RunKeeps(k: Kernel, es: seq<V.Event>)
    requires Inv(k) && LegalRun(k, es)
    ensures match Run(k, es)
            case Completed(k') => Inv(k') && ViewOf(k') == V.Run(ViewOf(k), es, |k.vm.window|)
            case Halted(at) => PI.Inv(at) && R.Full(at)
    decreases |es|
  {
    hide PI.InvHole, V.Inv, Step, V.Step;
    if es != [] {
      StepKeeps(k, es[0]);
      if Step(k, es[0]).Next? {
        RunKeeps(Step(k, es[0]).k, es[1..]);
      }
    }
  }

  /** The state after my_pthread_init: the main thread alone, with no page and no heap. */
  lemma InitOk(v: nat, p: nat, n: nat, slots: nat)
    requires H.MAX_TRUNKS + 1 < v <= p && slots >= 1
    ensures Inv(Kernel(S.Init(slots), P.Init(v, p, n, 0), map[0 := Control(false, 0)]))
  {
    SR.InitOk(slots);
    R.InitRefines(v, p, n, 0);
    NewOwnsNothing(v);
  }

  lemma ContentOfUsedEntries(vm: P.Vm, t: Tid, j: nat)
    requires PI.Inv(vm) && t in vm.tables && j < |vm.window|
    ensures PI.Content(vm, t, j).Some? <==> !vm.tables[t][j].Zero?
  {
    assert PI.Entry(vm.tables, t, j);
  }

  /** Between events, the non-zero entries of a thread's page table are the metadata page and its trunks, resident or
      swapped out, and no others. */
  lemma HeapPagesAreThePrefix(k: Kernel, t: Tid, j: nat)
    requires Inv(k) && t in k.control && j < |k.vm.window|
    ensures t in k.vm.tables && (k.vm.tables[t][j].Zero? <==> j >= HeapPages(k.control[t]))
  {
    var m := PR.Abs(k.vm);
    assert t in m.mem && m.mem[t] == PR.PrivateMemory(k.vm, t) && Owns(k.control[t], m.mem[t]);
    ContentOfUsedEntries(k.vm, t, j);
  }

  /** In every state the records of a thread are in the bytes of its first page, and those are where the page is: in the
      window, in its frame or in its slot of the swap file. */
  lemma RecordsAreBytes(k: Kernel, t: Tid)
    requires Inv(k) && t in k.control && k.control[t].init
    ensures t in k.vm.tables && PI.Content(k.vm, t, 0).Some?
    ensures HB.Clean(PI.Content(k.vm, t, 0).value)
    ensures H.Inv(H.Heap(true, k.control[t].trunks, HB.Decode(PI.Content(k.vm, t, 0).value)))
  {
    var m := PR.Abs(k.vm);
    assert t in m.mem && m.mem[t] == PR.PrivateMemory(k.vm, t) && Owns(k.control[t], m.mem[t]);
  }

  lemma HasMemory(k: Kernel, t: Tid)
    requires Inv(k) && t in k.control
    ensures t in ViewOf(k).m.mem
  {
  }

  /** The bytes of a thread in the view are in its frames, in the window or in the swap file. */
  lemma BytesAreContent(k: Kernel, t: Tid, j: nat, off: nat)
    requires Inv(k) && V.HasByte(ViewOf(k), t, j, off)
    ensures t in k.vm.tables && PI.Content(k.vm, t, j) == Some(ViewOf(k).m.mem[t][j].value)
    ensures V.ByteAt(ViewOf(k), t, j, off) == PI.Content(k.vm, t, j).value[off]
  {
    hide V.Inv, PI.FramesOk, PI.SlotsOk;
  }

  /** The heap of thread `t`, read from its page 0 wherever that page is. */
  ghost function HeapIn(k: Kernel, t: Tid): (h: H.Heap)
    requires Inv(k) && t in k.control
  {
    V.Heap(ViewOf(k), t)
  }

  /** Over every run, through all evictions and switches, the bytes of a thread's metadata page read as the heap
      that its own requests and releases make of the one it had. */
  lemma RecordsFollowCalls(k: Kernel, es: seq<V.Event>, t: Tid, given: HP.Given)
    requires Inv(k) && LegalRun(k, es) && Run(k, es).Completed? && t in k.control
    requires !V.EndsIn(ViewOf(k), es, |k.vm.window|, t)
    requires H.Inv(HeapIn(k, t)) && HP.Tracks(HeapIn(k, t), given)
    ensures var k', calls := Run(k, es).k, V.CallsIn(ViewOf(k), es, |k.vm.window|, t);
            && Inv(k') && t in k'.control && HP.LegalCalls(HeapIn(k, t), given, calls)
            && HP.ServeAll(HeapIn(k, t), given, calls).0 == HeapIn(k', t)
  {
    HasMemory(k, t);
    hide V.Inv, V.LegalRun, V.Run, V.EndsIn, V.CallsIn, HP.Tracks, HP.LegalCalls, HP.ServeAll, H.Inv, Run, LegalRun;
    hide PI.FramesOk, PI.SlotsOk;
    RunKeeps(k, es);
    V.HeapFollowsCalls(ViewOf(k), es, |k.vm.window|, t, given);
  }

  /** Over every run a byte of a thread's trunks, wherever its page is, changes only by the thread's own writes. */
  lemma ClientBytesStay(k: Kernel, es: seq<V.Event>, t: Tid, j: nat, off: nat)
    requires Inv(k) && LegalRun(k, es) && Run(k, es).Completed? && V.HasByte(ViewOf(k), t, j, off)
    requires !V.EndsIn(ViewOf(k), es, |k.vm.window|, t) && !V.WritesIn(ViewOf(k), es, |k.vm.window|, t, j, off)
    ensures var k' := Run(k, es).k;
            && Inv(k') && V.HasByte(ViewOf(k'), t, j, off)
            && V.ByteAt(ViewOf(k'), t, j, off) == V.ByteAt(ViewOf(k), t, j, off)
  {
    hide V.Inv, V.LegalRun, V.Run, V.EndsIn, V.WritesIn, Run;
    RunKeeps(k, es);
    V.BytesStay(ViewOf(k), es, |k.vm.window|, t, j, off);
  }
}
