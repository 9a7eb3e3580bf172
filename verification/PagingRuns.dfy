/** Whole runs of the paged machine against runs of private memories. */
module PagingRuns {
  import opened Util
  import opened PteWords
  import opened Paging
  import opened PagingInvariant
  import opened PagingRefinement

  /** What can happen: CURRENT allocates a page, reads or writes one of its bytes, or creates a thread, another thread
      is switched in, CURRENT exits, and after an exit a thread is dispatched. */
  datatype Event =
    | Allocate
    | Read(page: nat, offset: nat)
    | Write(page: nat, offset: nat, value: byte)
    | Create(thread: Tid)
    | Switch(thread: Tid)
    | Exit
    | Dispatch(thread: Tid)

  /** What CURRENT sees of it. */
  datatype Reply = Silent | Value(value: byte) | Address(page: Option<nat>)

  // ---- private memories ----

  ghost predicate Has(m: Memories, j: nat) {
    m.cur.Some? && m.cur.value in m.mem && j < |m.mem[m.cur.value]| && m.mem[m.cur.value][j].Some?
  }

  /** Threads use only pages they allocated, and only live threads are switched to. */
  ghost predicate Legal(m: Memories, e: Event) {
    match e
    case Allocate => m.cur.Some? && m.cur.value in m.mem
    case Read(j, off) => Has(m, j) && off < 0x1000
    case Write(j, off, _) => Has(m, j) && off < 0x1000
    case Create(t) => t !in m.mem
    case Switch(t) => m.cur.Some? && m.cur.value in m.mem && t in m.mem
    case Exit => m.cur.Some? && m.cur.value in m.mem
    case Dispatch(t) => m.cur.None? && t in m.mem
  }

  const IsUnallocated: Option<Page> -> bool := (x: Option<Page>) => x.None?

  /** The reference: each thread has a memory of `v` pages of its own; allocation takes the first page not in use. */
  ghost function SpecStep(m: Memories, e: Event, v: nat): (Memories, Reply)
    requires Legal(m, e)
  {
    match e
    case Allocate =>
      var mine := m.mem[m.cur.value];
      var j := Find(mine, IsUnallocated);
      if j == |mine| then (m, Address(None))
      else (Memories(m.cur, m.mem[m.cur.value := mine[j := Some(ZeroPage())]]), Address(Some(j)))
    case Read(j, off) => (m, Value(m.mem[m.cur.value][j].value[off]))
    case Write(j, off, b) =>
      var mine := m.mem[m.cur.value];
      var page: Page := mine[j].value[off := b];
      (Memories(m.cur, m.mem[m.cur.value := mine[j := Some(page)]]), Silent)
    case Create(t) => (Memories(m.cur, m.mem[t := seq(v, _ => None)]), Silent)
    case Switch(t) => (Memories(Some(t), m.mem), Silent)
    case Exit => (Memories(None, m.mem - {m.cur.value}), Silent)
    case Dispatch(t) => (Memories(Some(t), m.mem), Silent)
  }

  // ---- the paged machine ----

  datatype Result = Next(vm: Vm, reply: Reply) | Stopped | Crashed

  function Store(s: Vm, j: nat, off: nat, b: byte): Vm
    requires j < |s.window| && off < 0x1000
  {
    var page: Page := s.window[j][off := b];
    s.(window := s.window[j := page])
  }

  ghost function Step(s: Vm, e: Event): (r: Result)
    requires Shape(s) && Legal(Abs(s), e)
  {
    match e
    case Allocate =>
      (match AllocatePage(s)
       case None => Stopped
       case Some((s1, j)) => Next(s1, Address(j)))
    case Read(j, off) =>
      (match Touch(s, j, off)
       case Panic => Stopped
       case Segv => Crashed
       case Done(s1) => if j < |s1.window| then Next(s1, Value(s1.window[j][off])) else Crashed)
    case Write(j, off, b) =>
      (match Touch(s, j, off)
       case Panic => Stopped
       case Segv => Crashed
       case Done(s1) => if j < |s1.window| then Next(Store(s1, j, off, b), Silent) else Crashed)
    case Create(t) => Next(Paging.Create(s, t), Silent)
    case Switch(t) => Next(Paging.Switch(s, t), Silent)
    case Exit => Next(Paging.Exit(s), Silent)
    case Dispatch(t) => Next(Resume(s, t), Silent)
  }

  /** All frames and all swap slots are taken. */
  ghost predicate Full(s: Vm) { s.pfnCount >= |s.pfn| && s.swapCount >= |s.marks| }

  /** The events that enter allocate_physical_page: an allocation that finds a free entry, a touch of a page that is
      swapped out, at any byte but the last of the heap. */
  ghost predicate NeedsFrame(s: Vm, e: Event)
    requires Shape(s) && Legal(Abs(s), e)
  {
    match e
    case Allocate => Zero in Table(s)
    case Read(j, off) => Table(s)[j].Swapped? && BelowHeapEnd(|s.window|, j, off)
    case Write(j, off, _) => Table(s)[j].Swapped? && BelowHeapEnd(|s.window|, j, off)
    case _ => false
  }

  /** An access to the last byte of a heap of `v` pages. */
  predicate TouchesLastByte(e: Event, v: nat) { (e.Read? || e.Write?) && !BelowHeapEnd(v, e.page, e.offset) }

  /** An access to the last byte of the heap while its page is swapped out. */
  ghost predicate Unhandled(s: Vm, e: Event)
    requires Shape(s) && Legal(Abs(s), e)
  {
    TouchesLastByte(e, |s.window|) && Table(s)[e.page].Swapped?
  }

  ghost predicate SameSizes(s: Vm, s': Vm) {
    |s'.pfn| == |s.pfn| && |s'.marks| == |s.marks| && |s'.window| == |s.window|
  }

  // ---- one step ----

  /** The first zero entry is the first page not in use. */
  lemma FirstFreePage(s: Vm)
    requires Inv(s) && Running(s)
    ensures Find(Abs(s).mem[s.cur.value], IsUnallocated) == Find(Table(s), IsZero)
  {
    var mine := Abs(s).mem[s.cur.value];
    forall j | 0 <= j < |s.window|
      ensures IsUnallocated(mine[j]) <==> IsZero(Table(s)[j])
    {
      assert Entry(s.tables, s.cur.value, j);
    }
  }

  lemma AllocateStep(s: Vm)
    requires Inv(s) && Legal(Abs(s), Allocate)
    ensures Step(s, Allocate).Stopped? <==> NeedsFrame(s, Allocate) && Full(s)
    ensures Step(s, Allocate).Next? || Step(s, Allocate).Stopped?
    ensures Step(s, Allocate).Next? ==>
              var Next(s', r) := Step(s, Allocate);
              Inv(s') && SameSizes(s, s') && (Abs(s'), r) == SpecStep(Abs(s), Allocate, |s.window|)
  {
    AllocatePageRefines(s);
    if AllocatePage(s).Some? {
      FirstFreePage(s);
      var (s', j) := AllocatePage(s).value;
      if j.Some? {
        OnePageChangedMemories(s, s', s.cur.value, j.value, Some(ZeroPage()));
      }
    }
  }

  /** A touch of an allocated page lets the access through with all bytes as they were, or ends the process: by a stop
      exactly when the page is swapped out and everything is full, by a SIGSEGV exactly when the page is swapped out and
      the byte is the last of the heap. */
  lemma TouchRefines(s: Vm, j: nat, off: nat)
    requires Inv(s) && Has(Abs(s), j)
    ensures Touch(s, j, off).Panic? <==> Table(s)[j].Swapped? && BelowHeapEnd(|s.window|, j, off) && Full(s)
    ensures Touch(s, j, off).Segv? <==> Table(s)[j].Swapped? && !BelowHeapEnd(|s.window|, j, off)
    ensures Touch(s, j, off).Done? ==>
              var s' := Touch(s, j, off).vm;
              && Inv(s') && SameSizes(s, s') && s'.cur == s.cur && Abs(s') == Abs(s)
              && s'.open[j] && Table(s')[j].Valid?
              && Abs(s).mem[s.cur.value][j] == Some(s'.window[j])
  {
    assert Entry(s.tables, s.cur.value, j);
    assert Content(s, s.cur.value, j).Some?;
    if Table(s)[j].Swapped? && BelowHeapEnd(|s.window|, j, off) {
      FaultRefines(s, j, off);
      if Fault(s, j, off).Done? {
        SameContentSameMemories(s, Fault(s, j, off).vm);
        assert Content(Fault(s, j, off).vm, s.cur.value, j) == Content(s, s.cur.value, j);
      }
    }
  }

  lemma StoreRefines(s: Vm, j: nat, off: nat, b: byte)
    requires Inv(s) && Running(s) && j < |s.window| && off < 0x1000 && Table(s)[j].Valid?
    ensures var page: Page := s.window[j][off := b];
            var s' := Store(s, j, off, b);
            && Inv(s')
            && Abs(s') == Memories(s.cur, Abs(s).mem[s.cur.value := Abs(s).mem[s.cur.value][j := Some(page)]])
  {
    var page: Page := s.window[j][off := b];
    OnePageChangedMemories(s, Store(s, j, off, b), s.cur.value, j, Some(page));
  }

  lemma SwitchStep(s: Vm, t: Tid)
    requires Inv(s) && Running(s) && t in s.tables
    ensures Inv(Paging.Switch(s, t)) && Abs(Paging.Switch(s, t)) == Memories(Some(t), Abs(s).mem)
  {
    var s1 := StoreBack(s);
    StoreBackKeepsInv(s);
    StoreBackSyncs(s);
    SameContentSameMemories(s, s1);
    DispatchStep(s1, t);
  }

  lemma DispatchStep(s: Vm, t: Tid)
    requires Inv(s) && Synced(s) && t in s.tables
    ensures Inv(Resume(s, t)) && Abs(Resume(s, t)) == Memories(Some(t), Abs(s).mem)
  {
    ResumeKeepsInv(s, t);
    ResumeContent(s, t);
    SameContentSameMemories(s, Resume(s, t));
  }

  /** One event on the paged machine is the same event on the private memories, with the same reply. The only other
      outcomes are the stop of the process, exactly when a frame is needed and everything is full, and a crash, exactly
      at an access to the last byte of the heap while its page is swapped out. */
  lemma StepRefines(s: Vm, e: Event)
    requires Inv(s) && Legal(Abs(s), e)
    ensures Step(s, e).Stopped? <==> NeedsFrame(s, e) && Full(s)
    ensures Step(s, e).Crashed? <==> Unhandled(s, e)
    ensures Step(s, e).Next? ==>
              var Next(s', r) := Step(s, e);
              Inv(s') && SameSizes(s, s') && (Abs(s'), r) == SpecStep(Abs(s), e, |s.window|)
  {
    hide FramesOk, SlotsOk, AllocatePage, Fault;
    match e
    case Allocate => AllocateStep(s);
    case Read(j, off) => TouchRefines(s, j, off);
    case Write(j, off, b) =>
      TouchRefines(s, j, off);
      if Touch(s, j, off).Done? {
        StoreRefines(Touch(s, j, off).vm, j, off, b);
      }
    case Create(t) => CreateRefines(s, t);
    case Switch(t) => SwitchStep(s, t);
    case Exit => ExitRefines(s);
    case Dispatch(t) => DispatchStep(s, t);
  }

  // ---- runs ----

  ghost predicate LegalRun(m: Memories, es: seq<Event>, v: nat)
    decreases |es|
  {
    es == [] || (Legal(m, es[0]) && LegalRun(SpecStep(m, es[0], v).0, es[1..], v))
  }

  ghost function SpecRun(m: Memories, es: seq<Event>, v: nat): (Memories, seq<Reply>)
    requires LegalRun(m, es, v)
    decreases |es|
  {
    if es == [] then (m, [])
    else
      var (m1, r) := SpecStep(m, es[0], v);
      var (m2, rs) := SpecRun(m1, es[1..], v);
      (m2, [r] + rs)
  }

  lemma {:induction false} RunsConcatenate(m: Memories, a: seq<Event>, b: seq<Event>, v: nat)
    requires LegalRun(m, a, v) && LegalRun(SpecRun(m, a, v).0, b, v)
    ensures LegalRun(m, a + b, v)
    ensures SpecRun(m, a + b, v) == (SpecRun(SpecRun(m, a, v).0, b, v).0,
                                     SpecRun(m, a, v).1 + SpecRun(SpecRun(m, a, v).0, b, v).1)
    decreases |a|
  {
    if a == [] {
      assert a + b == b;
      assert [] + SpecRun(m, b, v).1 == SpecRun(m, b, v).1;
    } else {
      assert (a + b)[0] == a[0] && (a + b)[1..] == a[1..] + b;
      var (m1, r) := SpecStep(m, a[0], v);
      RunsConcatenate(m1, a[1..], b, v);
      var (m2, rs) := SpecRun(m1, a[1..], v);
      assert [r] + (rs + SpecRun(m2, b, v).1) == ([r] + rs) + SpecRun(m2, b, v).1;
    }
  }

  lemma OneEventRun(m: Memories, e: Event, v: nat)
    requires Legal(m, e)
    ensures LegalRun(m, [e], v) && SpecRun(m, [e], v) == (SpecStep(m, e, v).0, [SpecStep(m, e, v).1])
  {
    assert [e][1..] == [];
    assert [SpecStep(m, e, v).1] + [] == [SpecStep(m, e, v).1];
  }

  /** A run ends in a state with all replies, or with the state in which the process stopped and the event it
      stopped at. */
  datatype Finish = Completed(vm: Vm, replies: seq<Reply>) | Halted(at: Vm, event: Event)

  ghost function Run(s: Vm, es: seq<Event>): (f: Finish)
    requires Inv(s) && LegalRun(Abs(s), es, |s.window|)
    decreases |es|
  {
    if es == [] then Completed(s, [])
    else
      StepRefines(s, es[0]);
      match Step(s, es[0])
      case Next(s1, r) =>
        (match Run(s1, es[1..])
         case Completed(s2, rs) => Completed(s2, [r] + rs)
         case Halted(at, e) => Halted(at, e))
      case _ => Halted(s, es[0])
  }

  /** Transparency: whatever the interleaving of allocations, accesses, evictions, faults, switches, creations and
      exits, each thread reads the bytes it last wrote to its own zero-initialised memory. The only escapes are a
      stop in a state where everything is full, at an event that needs a frame, and an access to the last byte of
      the heap while its page is swapped out. */
  lemma {:induction false} Transparency(s: Vm, es: seq<Event>)
    requires Inv(s) && LegalRun(Abs(s), es, |s.window|)
    ensures match Run(s, es)
            case Completed(s', rs) => Inv(s') && SameSizes(s, s') && (Abs(s'), rs) == SpecRun(Abs(s), es, |s.window|)
            case Halted(at, e) =>
              && Inv(at) && SameSizes(s, at) && e in es && Legal(Abs(at), e)
              && ((NeedsFrame(at, e) && Full(at)) || Unhandled(at, e))
    decreases |es|
  {
    if es != [] {
      StepRefines(s, es[0]);
      if Step(s, es[0]).Next? {
        Transparency(Step(s, es[0]).vm, es[1..]);
      }
    }
  }

  lemma EmptyTables(tables: Tables, pfn: seq<Frame>, marks: seq<bool>)
    requires forall t :: t in tables ==> Untouched(tables[t])
    requires forall f :: 0 <= f < |pfn| ==> !pfn[f].used
    requires forall o :: 0 <= o < |marks| ==> !marks[o]
    ensures FramesOk(tables, pfn, None) && SlotsOk(tables, marks, {})
    ensures Count(pfn, IsUsed) == 0 && Count(marks, IsMarked) == 0
  {
    CountNone(pfn, IsUsed);
    CountNone(marks, IsMarked);
  }

  lemma InitKeepsInv(v: nat, p: nat, n: nat, main: Tid)
    requires v <= p
    ensures Inv(Init(v, p, n, main))
  {
    var s := Init(v, p, n, main);
    EmptyTables(s.tables, s.pfn, s.marks);
  }

  /** The first state satisfies the invariant and stands for one empty memory. */
  lemma InitRefines(v: nat, p: nat, n: nat, main: Tid)
    requires v <= p
    ensures Inv(Init(v, p, n, main))
    ensures Abs(Init(v, p, n, main)) == Memories(Some(main), map[main := seq(v, _ => None)])
  {
    InitKeepsInv(v, p, n, main);
    assert PrivateMemory(Init(v, p, n, main), main) == seq(v, _ => None);
  }

  // ---- runs in pieces ----

  /** Where legal events lead: to a state, or to the end of the process on the way. */
  datatype End = To(vm: Vm) | Dies | Illegal

  ghost function After(s: Vm, es: seq<Event>): (e: End) {
    if Inv(s) && LegalRun(Abs(s), es, |s.window|) then
      match Run(s, es)
      case Completed(s', _) => To(s')
      case Halted(_, _) => Dies
    else Illegal
  }

  /** The invariant holds. */
  ghost predicate Sound(s: Vm) { After(s, []) == To(s) }

  lemma SoundIsInv(s: Vm)
    ensures Sound(s) <==> Inv(s)
  {
  }

  lemma AfterKeeps(s: Vm, es: seq<Event>, s': Vm)
    requires After(s, es) == To(s')
    ensures Inv(s') && SameSizes(s, s') && Abs(s') == SpecRun(Abs(s), es, |s.window|).0
  {
    Transparency(s, es);
  }

  lemma AfterNothing(s: Vm)
    requires Inv(s)
    ensures After(s, []) == To(s)
  {
  }

  lemma AfterOne(s: Vm, e: Event)
    requires Inv(s) && Legal(Abs(s), e)
    ensures match Step(s, e)
            case Next(s', _) => After(s, [e]) == To(s')
            case _ => After(s, [e]) == Dies
  {
    StepRefines(s, e);
    OneEventRun(Abs(s), e, |s.window|);
    assert [e][1..] == [];
    if Step(s, e).Next? {
      assert Run(Step(s, e).vm, []) == Completed(Step(s, e).vm, []);
    }
  }

  lemma {:induction false} LegalRunSplits(m: Memories, a: seq<Event>, b: seq<Event>, v: nat)
    requires LegalRun(m, a + b, v)
    ensures LegalRun(m, a, v) && LegalRun(SpecRun(m, a, v).0, b, v)
    decreases |a|
  {
    if a == [] {
      assert a + b == b;
    } else {
      assert (a + b)[0] == a[0] && (a + b)[1..] == a[1..] + b;
      LegalRunSplits(SpecStep(m, a[0], v).0, a[1..], b, v);
    }
  }

  /** A run of two parts is the first part and then, if that completes, the second. */
  lemma {:induction false} RunSplits(s: Vm, a: seq<Event>, b: seq<Event>)
    requires Inv(s) && LegalRun(Abs(s), a + b, |s.window|)
    ensures LegalRun(Abs(s), a, |s.window|)
    ensures match Run(s, a)
            case Halted(at, e) => Run(s, a + b) == Halted(at, e)
            case Completed(s1, _) =>
              && Inv(s1) && LegalRun(Abs(s1), b, |s1.window|)
              && match Run(s1, b)
                 case Halted(at, e) => Run(s, a + b) == Halted(at, e)
                 case Completed(s2, _) => Run(s, a + b).Completed? && Run(s, a + b).vm == s2
    decreases |a|
  {
    hide FramesOk, SlotsOk;
    LegalRunSplits(Abs(s), a, b, |s.window|);
    if a == [] {
      assert a + b == b;
    } else {
      assert (a + b)[0] == a[0] && (a + b)[1..] == a[1..] + b;
      StepRefines(s, a[0]);
      if Step(s, a[0]).Next? {
        RunSplits(Step(s, a[0]).vm, a[1..], b);
      }
    }
  }

  lemma AfterThen(s: Vm, a: seq<Event>, s1: Vm, b: seq<Event>, s2: Vm)
    requires After(s, a) == To(s1) && After(s1, b) == To(s2)
    ensures After(s, a + b) == To(s2)
  {
    AfterKeeps(s, a, s1);
    RunsConcatenate(Abs(s), a, b, |s.window|);
    RunSplits(s, a, b);
  }

  lemma AfterThenDies(s: Vm, a: seq<Event>, s1: Vm, b: seq<Event>)
    requires After(s, a) == To(s1) && After(s1, b) == Dies
    ensures After(s, a + b) == Dies && Run(s, a + b) == Run(s1, b)
  {
    AfterKeeps(s, a, s1);
    RunsConcatenate(Abs(s), a, b, |s.window|);
    RunSplits(s, a, b);
  }

  lemma DiesBefore(s: Vm, a: seq<Event>, b: seq<Event>)
    requires After(s, a) == Dies && LegalRun(Abs(s), a + b, |s.window|)
    ensures After(s, a + b) == Dies
  {
    RunSplits(s, a, b);
  }
}
