/** The library over private memories: the scheduler decides who runs, and each thread's allocator keeps its records
    in the first page of its thread's memory. This is what the paged kernel is to look like. */
module KernelViews {
  import opened Util
  import P = Paging
  import PR = PagingRefinement
  import R = PagingRuns
  import S = Scheduling
  import SI = SchedulingInvariant
  import SR = SchedulingRuns
  import H = Heaps
  import HP = HeapProofs
  import HB = HeapBytes
  import opened HeapMemory

  type Controls = map<Tid, Control>

  /** The threads, their memories, and heap_init and heap_trunk_count of each. */
  datatype View = View(s: S.Sched, m: PR.Memories, control: Controls)

  /** What CURRENT does: a library call, an access to one of its pages, an allocation or a release. */
  datatype Event =
    | Call(call: S.Event)
    | Read(page: nat, offset: nat)
    | Write(page: nat, offset: nat, value: P.byte)
    | Malloc(size: nat)
    | Free(p: nat)

  /** The scheduler and the pager agree on CURRENT and on who is live. */
  ghost predicate Agree(s: S.Sched, m: PR.Memories, control: Controls, v: nat) {
    && m.cur == s.cur
    && (forall t: Tid :: t in m.mem <==> S.Live(s, t))
    && control.Keys == m.mem.Keys
    && (forall t :: t in m.mem ==> |m.mem[t]| == v)
  }

  /** Every thread's pages are its allocator's. */
  ghost predicate AllOwn(m: PR.Memories, control: Controls) {
    forall t :: t in control ==> t in m.mem && Owns(control[t], m.mem[t])
  }

  /** The invariant, for memories of `v` pages. */
  ghost predicate Inv(x: View, v: nat) {
    SI.Inv(x.s) && v > H.MAX_TRUNKS + 1 && Agree(x.s, x.m, x.control, v) && AllOwn(x.m, x.control)
  }

  /** The heap of thread `t`, as the bytes of its first page say, wherever that page is. */
  ghost function HeapAt(m: PR.Memories, control: Controls, t: Tid): (h: H.Heap)
    requires t in control && t in m.mem
  {
    HeapOf(control[t], m.mem[t])
  }

  /** Calls follow the discipline of the mutexes, accesses stay in allocated pages past the metadata, requests stay
      within 53 trunks, and releases are of pointers into the trunks of an initialised heap. */
  ghost predicate Legal(s: S.Sched, m: PR.Memories, control: Controls, e: Event)
    requires S.Shape(s)
  {
    && s.cur.Some? && s.cur.value in control && s.cur.value in m.mem && m.cur == s.cur
    && control[s.cur.value].trunks <= H.MAX_TRUNKS
    && match e
       case Call(c) => S.Legal(s, c)
       case Read(j, off) => j >= 1 && R.Legal(m, R.Read(j, off))
       case Write(j, off, b) => j >= 1 && R.Legal(m, R.Write(j, off, b))
       case Malloc(size) => H.HasRoom(H.Initialised(HeapAt(m, control, s.cur.value)), size)
       case Free(p) => control[s.cur.value].init && p < H.MAX_TRUNKS * 0x1000
  }

  // ---- what the pager is asked to do ----

  /** A context switch when the call changes CURRENT; a creation and an exit bring and take a page table. */
  ghost function CallEvents(s: S.Sched, c: S.Event): (es: seq<R.Event>)
    requires S.Shape(s) && S.Defined(s, c)
  {
    var s' := S.Step(s, c);
    match c
    case Spawn(_) => [R.Create(S.FreeSlot(s))]
    case Quit => [R.Exit] + (if s'.cur.Some? then [R.Dispatch(s'.cur.value)] else [])
    case _ => if s'.cur.Some? && s'.cur != s.cur then [R.Switch(s'.cur.value)] else []
  }

  ghost function PagerEvents(s: S.Sched, m: PR.Memories, control: Controls, e: Event): (es: seq<R.Event>)
    requires S.Shape(s) && Legal(s, m, control, e)
  {
    match e
    case Call(c) => CallEvents(s, c)
    case Read(j, off) => [R.Read(j, off)]
    case Write(j, off, b) => [R.Write(j, off, b)]
    case Malloc(size) => MallocEvents(HeapAt(m, control, s.cur.value), size)
    case Free(p) => FreeEvents(HeapAt(m, control, s.cur.value), p)
  }

  ghost function ControlAfter(s: S.Sched, m: PR.Memories, control: Controls, e: Event): Controls
    requires S.Shape(s) && Legal(s, m, control, e)
  {
    var t := s.cur.value;
    match e
    case Call(c) =>
      if c.Spawn? then control[S.FreeSlot(s) := Control(false, 0)]
      else if c.Quit? then control - {t}
      else control
    case Malloc(size) => control[t := Control(true, H.Malloc(HeapAt(m, control, t), size).0.trunks)]
    case _ => control
  }

  ghost function SchedAfter(s: S.Sched, e: Event): S.Sched
    requires S.Shape(s) && (e.Call? ==> S.Defined(s, e.call))
  {
    if e.Call? then S.Step(s, e.call) else s
  }

  // ---- the library calls ----

  lemma QuitPages(m: PR.Memories, next: Option<Tid>, v: nat)
    requires m.cur.Some? && m.cur.value in m.mem
    requires next.Some? ==> next.value in m.mem && next != m.cur
    ensures var es := [R.Exit] + (if next.Some? then [R.Dispatch(next.value)] else []);
            R.LegalRun(m, es, v) && R.SpecRun(m, es, v).0 == PR.Memories(next, m.mem - {m.cur.value})
  {
    R.OneEventRun(m, R.Exit, v);
    var rest := if next.Some? then [R.Dispatch(next.value)] else [];
    if next.Some? {
      R.OneEventRun(R.SpecStep(m, R.Exit, v).0, R.Dispatch(next.value), v);
    }
    R.RunsConcatenate(m, [R.Exit], rest, v);
  }

  /** A library call is one or two events of the pager, legal because the two sides agree on who runs and who lives. */
  lemma CallPages(s: S.Sched, m: PR.Memories, c: S.Event, v: nat)
    requires SI.Inv(s) && S.Legal(s, c)
    requires m.cur == s.cur && forall t: Tid :: t in m.mem <==> S.Live(s, t)
    ensures R.LegalRun(m, CallEvents(s, c), v)
    ensures R.SpecRun(m, CallEvents(s, c), v).0 == MemoriesAfter(s, m, c, v)
  {
    SR.LiveAfter(s, c);
    var s' := S.Step(s, c);
    assert S.Live(s, s.cur.value);
    assert s'.cur.Some? ==> S.Live(s', s'.cur.value);
    if c.Spawn? {
      R.OneEventRun(m, R.Create(S.FreeSlot(s)), v);
    } else if c.Quit? {
      QuitPages(m, s'.cur, v);
    } else if s'.cur.Some? && s'.cur != s.cur {
      R.OneEventRun(m, R.Switch(s'.cur.value), v);
    }
  }

  /** The memories after a library call: a spawn brings an empty one, an exit takes its own, and CURRENT follows. */
  ghost function MemoriesAfter(s: S.Sched, m: PR.Memories, c: S.Event, v: nat): PR.Memories
    requires S.Shape(s) && S.Defined(s, c)
  {
    var cur := S.Step(s, c).cur;
    match c
    case Spawn(_) => PR.Memories(m.cur, m.mem[S.FreeSlot(s) := seq(v, _ => None)])
    case Quit => PR.Memories(cur, m.mem - {s.cur.value})
    case _ => PR.Memories(if cur.Some? then cur else m.cur, m.mem)
  }

  /** A create makes one page table, for the lowest free id. An exit frees CURRENT's, and then the next thread, if there
      is one, is dispatched. Any other call switches pages exactly when CURRENT changes. */
  lemma CallAccesses(s: S.Sched, c: S.Event)
    requires S.Shape(s) && S.Defined(s, c)
    ensures var es, cur := CallEvents(s, c), S.Step(s, c).cur;
            && (c.Spawn? ==>
                  && |es| == 1 && es[0].Create? && 1 <= es[0].thread < |s.table| && !s.table[es[0].thread].used
                  && forall k :: 1 <= k < es[0].thread ==> s.table[k].used)
            && (c.Quit? ==>
                  && |es| >= 1 && es[0] == R.Exit
                  && (cur.Some? ==> |es| == 2 && es[1] == R.Dispatch(cur.value)) && (cur.None? ==> |es| == 1))
            && (!c.Spawn? && !c.Quit? ==>
                  && (cur == s.cur ==> es == [])
                  && (cur != s.cur ==> cur.Some? && |es| == 1 && es[0] == R.Switch(cur.value)))
  {
    CurrentAfter(s, c);
  }

  // ---- what each event does ----

  /** A thread that is there before and after keeps its memory and its heap. */
  ghost predicate Kept(t: Tid, m: PR.Memories, control: Controls, m': PR.Memories, control': Controls) {
    t in m.mem && t in m'.mem ==> t in control && t in control' && m'.mem[t] == m.mem[t] && control'[t] == control[t]
  }

  /** What the running thread's own event does to it: a write changes one byte past the metadata, malloc and free change
      the heap as specified and no byte of a page that is in use past the metadata. */
  ghost predicate MineAfter(t: Tid, m: PR.Memories, control: Controls, e: Event, m': PR.Memories, control': Controls)
    requires t in m.mem && t in control
  {
    && t in m'.mem && t in control' && Mine(m, m') && m.cur == Some(t)
    && match e
       case Call(_) => true
       case Read(_, _) => m'.mem[t] == m.mem[t] && control'[t] == control[t]
       case Write(j, off, b) =>
         && control'[t] == control[t] && off < 0x1000 && 1 <= j < |m.mem[t]| && m.mem[t][j].Some?
         && m'.mem[t] == m.mem[t][j := Some(P.WithByte(m.mem[t][j].value, off, b))]
       case Malloc(size) =>
         && SamePages(m, m', 1, HeapPages(control[t])) && control[t].trunks <= H.MAX_TRUNKS
         && H.HasRoom(H.Initialised(HeapAt(m, control, t)), size)
         && HeapAt(m', control', t) == H.Malloc(HeapAt(m, control, t), size).0
       case Free(p) =>
         && SamePages(m, m', 1, HeapPages(control[t])) && control[t].trunks <= H.MAX_TRUNKS && p < H.MAX_TRUNKS * 0x1000
         && HeapAt(m', control', t) == H.Free(HeapAt(m, control, t), p)
  }

  /** Only the running thread's own write changes a byte past the metadata, and only its own malloc and free change its
      heap. */
  ghost predicate Effect(cur: Tid, m: PR.Memories, control: Controls, e: Event, m': PR.Memories, control': Controls) {
    && (forall t :: t != cur || e.Call? ==> Kept(t, m, control, m', control'))
    && (!e.Call? ==> cur in m.mem && cur in control && MineAfter(cur, m, control, e, m', control'))
  }

  /** The pager's events are legal, the two sides agree again afterwards, and the memories are as they should be. */
  ghost predicate Keeps(s: S.Sched, m: PR.Memories, control: Controls, v: nat, e: Event)
    requires S.Shape(s) && Legal(s, m, control, e)
  {
    && R.LegalRun(m, PagerEvents(s, m, control, e), v)
    && var m' := R.SpecRun(m, PagerEvents(s, m, control, e), v).0;
       && Agree(SchedAfter(s, e), m', ControlAfter(s, m, control, e), v) && AllOwn(m', ControlAfter(s, m, control, e))
       && Effect(s.cur.value, m, control, e, m', ControlAfter(s, m, control, e))
  }

  /** Only an exit can leave no CURRENT, and a spawn does not change it. */
  lemma CurrentAfter(s: S.Sched, c: S.Event)
    requires S.Shape(s) && S.Defined(s, c)
    ensures !c.Quit? ==> S.Step(s, c).cur.Some?
    ensures c.Spawn? ==> S.Step(s, c).cur == s.cur
  {
  }

  lemma SpawnAgrees(s: S.Sched, m: PR.Memories, control: Controls, v: nat, s': S.Sched, t: Tid)
    requires Agree(s, m, control, v) && !S.Live(s, t)
    requires s'.cur == s.cur && forall u: Tid :: S.Live(s', u) <==> S.Live(s, u) || u == t
    ensures Agree(s', PR.Memories(m.cur, m.mem[t := seq(v, _ => None)]), control[t := Control(false, 0)], v)
  {
  }

  lemma QuitAgrees(s: S.Sched, m: PR.Memories, control: Controls, v: nat, s': S.Sched)
    requires Agree(s, m, control, v) && s.cur.Some?
    requires forall u: Tid :: S.Live(s', u) <==> S.Live(s, u) && s.cur != Some(u)
    ensures Agree(s', PR.Memories(s'.cur, m.mem - {s.cur.value}), control - {s.cur.value}, v)
  {
  }

  lemma SwitchAgrees(s: S.Sched, m: PR.Memories, control: Controls, v: nat, s': S.Sched)
    requires Agree(s, m, control, v) && s'.cur.Some? && forall u: Tid :: S.Live(s', u) <==> S.Live(s, u)
    ensures Agree(s', PR.Memories(s'.cur, m.mem), control, v)
  {
  }

  lemma CallAgrees(s: S.Sched, m: PR.Memories, control: Controls, v: nat, c: S.Event)
    requires SI.Inv(s) && Agree(s, m, control, v) && Legal(s, m, control, Call(c))
    ensures Agree(S.Step(s, c), MemoriesAfter(s, m, c, v), ControlAfter(s, m, control, Call(c)), v)
  {
    var s' := S.Step(s, c);
    SR.LiveAfter(s, c);
    CurrentAfter(s, c);
    hide SI.Inv, S.Legal, S.Step, S.Live, Agree;
    if c.Spawn? {
      SpawnAgrees(s, m, control, v, s', S.FreeSlot(s));
    } else if c.Quit? {
      QuitAgrees(s, m, control, v, s');
    } else {
      SwitchAgrees(s, m, control, v, s');
    }
  }

  /** A call changes no thread's bytes. */
  lemma CallEffect(s: S.Sched, m: PR.Memories, control: Controls, v: nat, c: S.Event)
    requires SI.Inv(s) && Agree(s, m, control, v) && Legal(s, m, control, Call(c))
    ensures Effect(s.cur.value, m, control, Call(c), MemoriesAfter(s, m, c, v), ControlAfter(s, m, control, Call(c)))
  {
    var m', control' := MemoriesAfter(s, m, c, v), ControlAfter(s, m, control, Call(c));
    SR.LiveAfter(s, c);
    assert c.Spawn? ==> S.FreeSlot(s) !in m.mem;
    OthersAreKept(m, control, m', control');
    hide SI.Inv, S.Step, S.Legal, S.Live, MineAfter, Kept;
  }

  lemma OthersAreKept(m: PR.Memories, control: Controls, m': PR.Memories, control': Controls)
    requires control.Keys == m.mem.Keys
    requires forall t :: t in m.mem && t in m'.mem ==> m'.mem[t] == m.mem[t]
    requires forall t :: t in m.mem && t in m'.mem ==> t in control' && control'[t] == control[t]
    ensures forall t: Tid :: Kept(t, m, control, m', control')
  {
  }

  lemma CallOwns(s: S.Sched, m: PR.Memories, control: Controls, v: nat, c: S.Event)
    requires S.Shape(s) && AllOwn(m, control) && Legal(s, m, control, Call(c))
    requires Effect(s.cur.value, m, control, Call(c), MemoriesAfter(s, m, c, v), ControlAfter(s, m, control, Call(c)))
    ensures AllOwn(MemoriesAfter(s, m, c, v), ControlAfter(s, m, control, Call(c)))
  {
    hide Owns, S.Step;
    NewOwnsNothing(v);
    var m', control' := MemoriesAfter(s, m, c, v), ControlAfter(s, m, control, Call(c));
    forall t | t in control'
      ensures t in m'.mem && Owns(control'[t], m'.mem[t])
    {
      assert Kept(t, m, control, m', control');
    }
  }

  lemma CallKeeps(s: S.Sched, m: PR.Memories, control: Controls, v: nat, c: S.Event)
    requires SI.Inv(s) && Agree(s, m, control, v) && AllOwn(m, control) && Legal(s, m, control, Call(c))
    ensures Keeps(s, m, control, v, Call(c))
  {
    CallPages(s, m, c, v);
    CallAgrees(s, m, control, v, c);
    CallEffect(s, m, control, v, c);
    CallOwns(s, m, control, v, c);
    hide AllOwn, S.Legal, S.Step, Effect, Agree, ControlAfter, MemoriesAfter;
  }

  /** When only CURRENT's pages and heap change, the two sides still agree, and the others keep theirs. */
  lemma MineAgrees(s: S.Sched, m: PR.Memories, control: Controls, v: nat, m': PR.Memories, c: Control)
    requires Agree(s, m, control, v) && Mine(m, m')
    ensures Agree(s, m', control[m.cur.value := c], v)
    ensures var control' := control[m.cur.value := c];
            forall t :: t != m.cur.value ==> Kept(t, m, control, m', control')
  {
    assert control[m.cur.value := c].Keys == control.Keys;
  }

  lemma MineOwns(m: PR.Memories, control: Controls, m': PR.Memories, c: Control)
    requires AllOwn(m, control) && Mine(m, m') && Owns(c, m'.mem[m.cur.value])
    ensures AllOwn(m', control[m.cur.value := c])
  {
    hide Owns;
  }

  lemma ReadKeeps(s: S.Sched, m: PR.Memories, control: Controls, v: nat, j: nat, off: nat)
    requires S.Shape(s) && Agree(s, m, control, v) && AllOwn(m, control) && Legal(s, m, control, Read(j, off))
    ensures Keeps(s, m, control, v, Read(j, off))
  {
    hide AllOwn;
    R.OneEventRun(m, R.Read(j, off), v);
  }

  /** A write past the metadata page leaves the thread its heap. */
  lemma WrittenOwns(c: Control, mem: Memory, j: nat, page: P.Page)
    requires Owns(c, mem) && 1 <= j < |mem| && mem[j].Some?
    ensures Owns(c, mem[j := Some(page)])
  {
    assert HeapOf(c, mem[j := Some(page)]) == HeapOf(c, mem);
  }

  lemma WriteKeeps(s: S.Sched, m: PR.Memories, control: Controls, v: nat, j: nat, off: nat, b: P.byte)
    requires S.Shape(s) && Agree(s, m, control, v) && AllOwn(m, control) && Legal(s, m, control, Write(j, off, b))
    ensures Keeps(s, m, control, v, Write(j, off, b))
  {
    hide Owns;
    var t := s.cur.value;
    WrittenOwns(control[t], m.mem[t], j, P.WithByte(m.mem[t][j].value, off, b));
    R.OneEventRun(m, R.Write(j, off, b), v);
    var m' := R.SpecStep(m, R.Write(j, off, b), v).0;
    MineAgrees(s, m, control, v, m', control[t]);
    MineOwns(m, control, m', control[t]);
    assert control[t := control[t]] == control;
    hide Agree, AllOwn, Kept, R.LegalRun, R.SpecRun;
  }

  /** What my_malloc and my_free leave is a state that agrees. */
  lemma LeftAgrees(s: S.Sched, m: PR.Memories, control: Controls, v: nat, m': PR.Memories, h': H.Heap)
    requires Agree(s, m, control, v) && AllOwn(m, control) && m.cur.Some? && m.cur.value in control
    requires Left(m, m', control[m.cur.value], h')
    ensures Mine(m, m') && SamePages(m, m', 1, HeapPages(control[m.cur.value]))
    ensures var control' := control[m.cur.value := Control(true, h'.trunks)];
            && Agree(s, m', control', v) && AllOwn(m', control') && HeapAt(m', control', m.cur.value) == h'
            && forall t: Tid :: t != m.cur.value ==> Kept(t, m, control, m', control')
  {
    hide Owns, H.Inv;
    MineAgrees(s, m, control, v, m', Control(true, h'.trunks));
    MineOwns(m, control, m', Control(true, h'.trunks));
  }

  lemma MallocLeaves(s: S.Sched, m: PR.Memories, control: Controls, v: nat, size: nat, m': PR.Memories)
    requires S.Shape(s) && Legal(s, m, control, Malloc(size))
    requires Left(m, m', control[s.cur.value], H.Malloc(HeapAt(m, control, s.cur.value), size).0)
    requires Agree(s, m, control, v) && AllOwn(m, control)
    ensures var control' := ControlAfter(s, m, control, Malloc(size));
            && Agree(s, m', control', v) && AllOwn(m', control')
            && Effect(s.cur.value, m, control, Malloc(size), m', control')
  {
    hide Owns, H.Malloc, H.Inv, H.HasRoom;
    LeftAgrees(s, m, control, v, m', H.Malloc(HeapAt(m, control, s.cur.value), size).0);
  }

  lemma OwnsHere(s: S.Sched, m: PR.Memories, control: Controls, v: nat)
    requires Agree(s, m, control, v) && AllOwn(m, control) && m.cur.Some? && m.cur.value in control
    ensures m.cur.value in m.mem && |m.mem[m.cur.value]| == v && Owns(control[m.cur.value], m.mem[m.cur.value])
  {
  }

  lemma LegalMalloc(s: S.Sched, m: PR.Memories, control: Controls, size: nat)
    requires S.Shape(s) && Legal(s, m, control, Malloc(size))
    ensures s.cur.Some? && m.cur == s.cur && s.cur.value in control && s.cur.value in m.mem
    ensures H.Records(H.Initialised(HeapAt(m, control, s.cur.value)))
    ensures H.HasRoom(H.Initialised(HeapAt(m, control, s.cur.value)), size)
  {
  }

  lemma MallocKeeps(s: S.Sched, m: PR.Memories, control: Controls, v: nat, size: nat)
    requires S.Shape(s) && Agree(s, m, control, v) && AllOwn(m, control) && Legal(s, m, control, Malloc(size))
    requires v > H.MAX_TRUNKS + 1
    ensures Keeps(s, m, control, v, Malloc(size))
  {
    var h := HeapAt(m, control, s.cur.value);
    hide R.LegalRun, R.SpecRun, MallocEvents, H.Malloc, Owns, Left, Effect, ControlAfter, S.Legal, Agree, AllOwn, H.Inv;
    OwnsHere(s, m, control, v);
    hide H.HasRoom, H.Records, H.Initialised;
    LegalMalloc(s, m, control, size);
    hide Legal, Keeps;
    MallocRuns(m, control[s.cur.value], size, v);
    MallocLeaves(s, m, control, v, size, R.SpecRun(m, MallocEvents(h, size), v).0);
  }

  lemma FreeEffect(t: Tid, m: PR.Memories, control: Controls, p: nat, m': PR.Memories, h': H.Heap)
    requires t in control && t in m.mem && m.cur == Some(t) && control[t].trunks <= H.MAX_TRUNKS
    requires p < H.MAX_TRUNKS * 0x1000 && h' == H.Free(HeapAt(m, control, t), p)
    requires Mine(m, m') && SamePages(m, m', 1, HeapPages(control[t])) && HeapAt(m', control, t) == h'
    requires forall u :: u != t ==> Kept(u, m, control, m', control)
    ensures Effect(t, m, control, Free(p), m', control)
  {
  }

  lemma FreeKeeps(s: S.Sched, m: PR.Memories, control: Controls, v: nat, p: nat)
    requires S.Shape(s) && Agree(s, m, control, v) && AllOwn(m, control) && Legal(s, m, control, Free(p))
    requires v > H.MAX_TRUNKS + 1
    ensures Keeps(s, m, control, v, Free(p))
  {
    hide R.LegalRun, R.SpecRun, FreeEvents, Owns, Left, Effect, H.Free, H.Inv, S.Legal;
    var t := s.cur.value;
    var h := HeapAt(m, control, t);
    FreeControl(h, p);
    FreeRuns(m, control[t], p, v);
    FreeLeaves(s, m, control, v, p, R.SpecRun(m, FreeEvents(h, p), v).0);
  }

  lemma FreeControl(h: H.Heap, p: nat)
    requires H.Records(h) && p < |h.records| * 0x1000
    ensures H.Free(h, p).trunks == h.trunks && H.Free(h, p).init == h.init
  {
  }

  lemma FreeLeaves(s: S.Sched, m: PR.Memories, control: Controls, v: nat, p: nat, m': PR.Memories)
    requires S.Shape(s) && Legal(s, m, control, Free(p))
    requires Left(m, m', control[s.cur.value], H.Free(HeapAt(m, control, s.cur.value), p))
    requires Agree(s, m, control, v) && AllOwn(m, control)
    ensures Agree(s, m', control, v) && AllOwn(m', control)
    ensures Effect(s.cur.value, m, control, Free(p), m', control)
  {
    hide Owns, Effect, H.Free, H.Inv, S.Legal;
    var t := s.cur.value;
    var h := HeapAt(m, control, t);
    FreeControl(h, p);
    LeftAgrees(s, m, control, v, m', H.Free(h, p));
    assert control[t := Control(true, h.trunks)] == control;
    FreeEffect(t, m, control, p, m', H.Free(h, p));
  }

  /** Every event is a legal run of the pager, and scheduler, pager and allocators agree again after it. */
  lemma EventKeeps(s: S.Sched, m: PR.Memories, control: Controls, v: nat, e: Event)
    requires SI.Inv(s) && Agree(s, m, control, v) && AllOwn(m, control) && Legal(s, m, control, e)
    requires v > H.MAX_TRUNKS + 1
    ensures Keeps(s, m, control, v, e)
  {
    hide Keeps, Legal, Agree, AllOwn;
    match e
    case Call(c) => CallKeeps(s, m, control, v, c);
    case Read(j, off) => ReadKeeps(s, m, control, v, j, off);
    case Write(j, off, b) => WriteKeeps(s, m, control, v, j, off, b);
    case Malloc(size) => MallocKeeps(s, m, control, v, size);
    case Free(p) => FreeKeeps(s, m, control, v, p);
  }

  // ---- runs ----

  ghost predicate LegalEvent(x: View, e: Event)
    requires S.Shape(x.s)
  {
    Legal(x.s, x.m, x.control, e)
  }

  ghost function Accesses(x: View, e: Event): (es: seq<R.Event>)
    requires S.Shape(x.s) && LegalEvent(x, e)
  {
    PagerEvents(x.s, x.m, x.control, e)
  }

  ghost function Step(x: View, e: Event, v: nat): (x': View)
    requires Inv(x, v) && LegalEvent(x, e)
  {
    EventKeeps(x.s, x.m, x.control, v, e);
    View(SchedAfter(x.s, e), R.SpecRun(x.m, Accesses(x, e), v).0, ControlAfter(x.s, x.m, x.control, e))
  }

  /** What CURRENT and the allocator see in the memories during the event. */
  ghost function Replies(x: View, e: Event, v: nat): (rs: seq<R.Reply>)
    requires Inv(x, v) && LegalEvent(x, e)
  {
    EventKeeps(x.s, x.m, x.control, v, e);
    R.SpecRun(x.m, Accesses(x, e), v).1
  }

  lemma StepKeeps(x: View, e: Event, v: nat)
    requires Inv(x, v) && LegalEvent(x, e)
    ensures Inv(Step(x, e, v), v) && R.LegalRun(x.m, Accesses(x, e), v)
    ensures Effect(x.s.cur.value, x.m, x.control, e, Step(x, e, v).m, Step(x, e, v).control)
  {
    hide Agree, AllOwn, Effect, R.LegalRun, R.SpecRun;
    EventKeeps(x.s, x.m, x.control, v, e);
    if e.Call? {
      SI.StepKeeps(x.s, e.call);
    }
  }

  ghost predicate LegalRun(x: View, es: seq<Event>, v: nat)
    requires Inv(x, v)
    decreases |es|
  {
    es == [] || (LegalEvent(x, es[0]) && (StepKeeps(x, es[0], v); LegalRun(Step(x, es[0], v), es[1..], v)))
  }

  ghost function Run(x: View, es: seq<Event>, v: nat): (x': View)
    requires Inv(x, v) && LegalRun(x, es, v)
    ensures Inv(x', v)
    decreases |es|
  {
    if es == [] then x else StepKeeps(x, es[0], v); Run(Step(x, es[0], v), es[1..], v)
  }

  // ---- the heap and the bytes of a thread over runs ----

  ghost function Heap(x: View, t: Tid): (h: H.Heap)
    requires t in x.control && t in x.m.mem
  {
    HeapAt(x.m, x.control, t)
  }

  ghost predicate Runs(x: View, t: Tid) { x.s.cur == Some(t) }

  /** Thread `t` ends in this event. */
  ghost predicate Ends(x: View, e: Event, t: Tid) { e == Call(S.Quit) && Runs(x, t) }

  /** Thread `t` writes byte `off` of its page `j` in this event. */
  ghost predicate Writes(x: View, e: Event, t: Tid, j: nat, off: nat) {
    e.Write? && e.page == j && e.offset == off && Runs(x, t)
  }

  function CallOf(e: Event): (c: seq<HP.Call>) {
    match e
    case Malloc(size) => [HP.Request(size)]
    case Free(p) => [HP.Release(p)]
    case _ => []
  }

  ghost predicate EndsIn(x: View, es: seq<Event>, v: nat, t: Tid)
    requires Inv(x, v) && LegalRun(x, es, v)
    decreases |es|
  {
    es != [] && (Ends(x, es[0], t) || (StepKeeps(x, es[0], v); EndsIn(Step(x, es[0], v), es[1..], v, t)))
  }

  ghost predicate WritesIn(x: View, es: seq<Event>, v: nat, t: Tid, j: nat, off: nat)
    requires Inv(x, v) && LegalRun(x, es, v)
    decreases |es|
  {
    es != [] &&
    (Writes(x, es[0], t, j, off) || (StepKeeps(x, es[0], v); WritesIn(Step(x, es[0], v), es[1..], v, t, j, off)))
  }

  /** The requests and releases of thread `t` in the run. */
  ghost function CallsIn(x: View, es: seq<Event>, v: nat, t: Tid): (cs: seq<HP.Call>)
    requires Inv(x, v) && LegalRun(x, es, v)
    decreases |es|
  {
    if es == [] then []
    else
      StepKeeps(x, es[0], v);
      (if Runs(x, t) then CallOf(es[0]) else []) + CallsIn(Step(x, es[0], v), es[1..], v, t)
  }

  /** The effect of an event on one thread that is there before and after. */
  ghost predicate EffectOn(x: View, e: Event, x': View, t: Tid) {
    && t in x.m.mem && t in x'.m.mem && t in x.control && t in x'.control
    && if !Runs(x, t) || e.Call? then Kept(t, x.m, x.control, x'.m, x'.control)
       else MineAfter(t, x.m, x.control, e, x'.m, x'.control)
  }

  lemma ControlStays(s: S.Sched, m: PR.Memories, control: Controls, e: Event, t: Tid)
    requires S.Shape(s) && Legal(s, m, control, e) && t in control && !(e == Call(S.Quit) && s.cur == Some(t))
    ensures t in ControlAfter(s, m, control, e)
  {
    hide S.Legal, H.HasRoom, R.Legal;
  }

  /** A thread that does not end in this event is there after it, and the event has its effect on it. */
  lemma StepAffects(x: View, e: Event, v: nat, t: Tid) returns (x': View)
    requires Inv(x, v) && LegalEvent(x, e) && t in x.control && !Ends(x, e, t)
    ensures x' == Step(x, e, v) && Inv(x', v) && EffectOn(x, e, x', t) && t in x'.control && t in x'.m.mem
  {
    hide AllOwn;
    StepKeeps(x, e, v);
    ControlStays(x.s, x.m, x.control, e, t);
    x' := Step(x, e, v);
    assert !Runs(x, t) || e.Call? ==> Kept(t, x.m, x.control, x'.m, x'.control);
  }

  /** What an event does to a heap: its own requests and releases do what the allocator is specified to do, and nothing
      else does anything. */
  lemma EffectServes(x: View, e: Event, x': View, t: Tid, given: HP.Given)
    requires EffectOn(x, e, x', t) && H.Inv(Heap(x, t))
    ensures var h, h' := Heap(x, t), Heap(x', t);
            if Runs(x, t) && (e.Malloc? || e.Free?) then
              HP.LegalCall(h, CallOf(e)[0]) && h' == HP.Serve(h, given, CallOf(e)[0]).0
            else h' == h
  {
    hide H.Inv, H.Malloc, H.Free, H.HasRoom, H.Records, Mine, SamePages;
  }

  lemma NoCalls(h: H.Heap, given: HP.Given)
    requires H.Inv(h) && HP.Tracks(h, given)
    ensures HP.LegalCalls(h, given, []) && HP.ServeAll(h, given, []) == (h, given)
  {
  }

  /** Over every run the bytes of a thread's metadata page read as the heap that its own requests and releases make. */
  lemma {:induction false} HeapFollowsCalls(x: View, es: seq<Event>, v: nat, t: Tid, given: HP.Given)
    requires Inv(x, v) && LegalRun(x, es, v) && t in x.control && t in x.m.mem && !EndsIn(x, es, v, t)
    requires H.Inv(Heap(x, t)) && HP.Tracks(Heap(x, t), given)
    ensures t in Run(x, es, v).control && t in Run(x, es, v).m.mem
    ensures HP.LegalCalls(Heap(x, t), given, CallsIn(x, es, v, t))
    ensures HP.ServeAll(Heap(x, t), given, CallsIn(x, es, v, t)).0 == Heap(Run(x, es, v), t)
    decreases |es|
  {
    hide Inv, LegalEvent, Step, EffectOn, H.Inv, HP.Tracks, HP.Serve, HP.LegalCall, HP.LegalCalls, HP.ServeAll;
    NoCalls(Heap(x, t), given);
    if es != [] {
      var x1 := StepAffects(x, es[0], v, t);
      EffectServes(x, es[0], x1, t, given);
      if Runs(x, t) && (es[0].Malloc? || es[0].Free?) {
        var c := CallOf(es[0])[0];
        var given1 := HP.Serve(Heap(x, t), given, c).1;
        HP.ServeTracks(Heap(x, t), given, c);
        HeapFollowsCalls(x1, es[1..], v, t, given1);
        HP.ServeAllStarts(Heap(x, t), given, c, CallsIn(x1, es[1..], v, t), Heap(x1, t), given1);
      } else {
        HeapFollowsCalls(x1, es[1..], v, t, given);
        assert [] + CallsIn(x1, es[1..], v, t) == CallsIn(x1, es[1..], v, t);
      }
    }
  }

  /** Byte `off` of page `j` of thread `t`, if the page is one of its heap's past the metadata. */
  ghost predicate HasByte(x: View, t: Tid, j: nat, off: nat) {
    && t in x.control && t in x.m.mem && 1 <= j < HeapPages(x.control[t]) && off < 0x1000
    && j < |x.m.mem[t]| && x.m.mem[t][j].Some?
  }

  ghost function ByteAt(x: View, t: Tid, j: nat, off: nat): (b: P.byte)
    requires HasByte(x, t, j, off)
  {
    x.m.mem[t][j].value[off]
  }

  lemma HeapHasItsBytes(x: View, v: nat, t: Tid, j: nat, off: nat)
    requires Inv(x, v) && t in x.control && 1 <= j < HeapPages(x.control[t]) && off < 0x1000
    ensures HasByte(x, t, j, off)
  {
    assert Owns(x.control[t], x.m.mem[t]);
  }

  lemma EffectKeepsByte(x: View, e: Event, x': View, t: Tid, j: nat, off: nat)
    requires EffectOn(x, e, x', t) && HasByte(x, t, j, off) && !Writes(x, e, t, j, off)
    ensures HasByte(x', t, j, off) && ByteAt(x', t, j, off) == ByteAt(x, t, j, off)
  {
    EffectKeepsTrunks(x, e, x', t);
  }

  /** Trunks are never given back. */
  lemma EffectKeepsTrunks(x: View, e: Event, x': View, t: Tid)
    requires EffectOn(x, e, x', t)
    ensures HeapPages(x'.control[t]) >= HeapPages(x.control[t])
  {
  }

  /** Over every run a byte past the metadata changes only by its owner's writes. */
  lemma {:induction false} BytesStay(x: View, es: seq<Event>, v: nat, t: Tid, j: nat, off: nat)
    requires Inv(x, v) && LegalRun(x, es, v) && HasByte(x, t, j, off)
    requires !EndsIn(x, es, v, t) && !WritesIn(x, es, v, t, j, off)
    ensures HasByte(Run(x, es, v), t, j, off) && ByteAt(Run(x, es, v), t, j, off) == ByteAt(x, t, j, off)
    decreases |es|
  {
    hide Inv, LegalEvent, Step, EffectOn;
    if es != [] {
      var x1 := StepAffects(x, es[0], v, t);
      EffectKeepsByte(x, es[0], x1, t, j, off);
      BytesStay(x1, es[1..], v, t, j, off);
    }
  }

  /** A block that its owner does not release stays its own, whatever the other threads do. */
  lemma LiveBlockIsKept(x: View, es: seq<Event>, v: nat, t: Tid, given: HP.Given, p: nat)
    requires Inv(x, v) && LegalRun(x, es, v) && t in x.control && t in x.m.mem && !EndsIn(x, es, v, t)
    requires H.Inv(Heap(x, t)) && HP.Tracks(Heap(x, t), given) && p in given
    requires HP.Release(p) !in CallsIn(x, es, v, t)
    ensures HP.LegalCalls(Heap(x, t), given, CallsIn(x, es, v, t))
    ensures var given' := HP.ServeAll(Heap(x, t), given, CallsIn(x, es, v, t)).1;
            p in given' && given'[p] == given[p]
  {
    hide LegalRun, Run, EndsIn, CallsIn, HP.Tracks, HP.LegalCalls, HP.ServeAll;
    HeapFollowsCalls(x, es, v, t, given);
    HP.UnreleasedStays(Heap(x, t), given, CallsIn(x, es, v, t), p);
  }

  /** The bytes of a live block are bytes of its owner's heap past the metadata, so they stay as BytesStay says. */
  lemma LiveBlockHasItsBytes(x: View, v: nat, t: Tid, given: HP.Given, p: nat, i: nat)
    requires Inv(x, v) && t in x.control && t in x.m.mem
    requires H.Inv(Heap(x, t)) && HP.Tracks(Heap(x, t), given) && p in given && i < given[p]
    ensures HasByte(x, t, p / 0x1000 + 1, p % 0x1000 + i)
  {
    HP.GivenBytes(Heap(x, t), given, p, i);
    hide HP.Tracks, H.Inv;
    HeapHasItsBytes(x, v, t, p / 0x1000 + 1, p % 0x1000 + i);
  }
}
