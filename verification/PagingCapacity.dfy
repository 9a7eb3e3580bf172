/** How many pages the frames and the swap file hold, and what exits leave behind. */
module PagingCapacity {
  import opened Util
  import opened PteWords
  import opened Paging
  import opened PagingInvariant
  import opened PagingRefinement
  import opened PagingRuns

  ghost function ValidEntries(tables: Tables): set<(Tid, nat)> {
    set t, j: nat | t in tables && 0 <= j < |tables[t]| && tables[t][j].Valid? :: (t, j)
  }

  ghost function SwappedEntries(tables: Tables): set<(Tid, nat)> {
    set t, j: nat | t in tables && 0 <= j < |tables[t]| && tables[t][j].Swapped? :: (t, j)
  }

  ghost function FrameOf(tables: Tables): (m: map<(Tid, nat), nat>) {
    map e | e in ValidEntries(tables) :: tables[e.0][e.1].pfn
  }

  ghost function SlotOf(tables: Tables): (m: map<(Tid, nat), nat>) {
    map e | e in SwappedEntries(tables) :: tables[e.0][e.1].slot
  }

  lemma FrameOfIsInjective(tables: Tables, pfn: seq<Frame>)
    requires EntriesOwnFrames(tables, pfn, None) && EntriesDistinct(tables)
    ensures |ValidEntries(tables)| == |FrameOf(tables).Values|
  {
    var m := FrameOf(tables);
    forall a, b | a in m && b in m && m[a] == m[b]
      ensures a == b
    {
      assert Entry(tables, a.0, a.1) && Entry(tables, b.0, b.1);
    }
    InjectiveCardinality(m);
    assert m.Keys == ValidEntries(tables);
  }

  lemma FrameOfIsOnto(tables: Tables, pfn: seq<Frame>)
    requires FramesOk(tables, pfn, None)
    ensures FrameOf(tables).Values == Where(pfn, IsUsed)
  {
    var m := FrameOf(tables);
    forall f | 0 <= f < |pfn| && pfn[f].used
      ensures f in m.Values
    {
      var t := pfn[f].thread;
      var j: nat :| j < |tables[t]| && tables[t][j] == Valid(f);
      assert (t, j) in m;
    }
    forall e | e in m
      ensures 0 <= m[e] < |pfn| && pfn[m[e]].used
    {
      assert Entry(tables, e.0, e.1);
    }
  }

  /** g_pfn_count is the number of used frames and the number of valid entries of all live threads. */
  lemma FrameCountIsExact(s: Vm)
    requires Inv(s)
    ensures s.pfnCount == |Where(s.pfn, IsUsed)|
    ensures s.pfnCount == |ValidEntries(s.tables)|
  {
    CountIsCardinality(s.pfn, IsUsed);
    FrameOfIsInjective(s.tables, s.pfn);
    FrameOfIsOnto(s.tables, s.pfn);
  }

  lemma SlotOfIsInjective(tables: Tables)
    requires SlotsDistinct(tables)
    ensures |SwappedEntries(tables)| == |SlotOf(tables).Values|
  {
    var m := SlotOf(tables);
    forall a, b | a in m && b in m && m[a] == m[b]
      ensures a == b
    {
      assert Entry(tables, a.0, a.1) && Entry(tables, b.0, b.1);
    }
    InjectiveCardinality(m);
    assert m.Keys == SwappedEntries(tables);
  }

  lemma SlotOfIsOnto(tables: Tables, marks: seq<bool>, leaked: set<nat>)
    requires SlotsOk(tables, marks, leaked)
    ensures SlotOf(tables).Values + leaked == Where(marks, IsMarked)
    ensures SlotOf(tables).Values !! leaked
  {
    var m := SlotOf(tables);
    forall o | 0 <= o < |marks| && marks[o] && o !in leaked
      ensures o in m.Values
    {
      var t :| t in tables && Swapped(o) in tables[t];
      var j: nat :| j < |tables[t]| && tables[t][j] == Swapped(o);
      assert (t, j) in m;
    }
    forall e | e in m
      ensures 0 <= m[e] < |marks| && marks[m[e]] && m[e] !in leaked
    {
      assert Entry(tables, e.0, e.1);
    }
  }

  /** g_swap_count is the number of marked slots, which are the swapped-out entries of live threads and the slots that
      exited threads leaked. */
  lemma SlotCountIsExact(s: Vm)
    requires Inv(s)
    ensures s.swapCount == |Where(s.marks, IsMarked)|
    ensures s.swapCount == |SwappedEntries(s.tables)| + |s.leaked|
  {
    CountIsCardinality(s.marks, IsMarked);
    SlotOfIsInjective(s.tables);
    SlotOfIsOnto(s.tables, s.marks, s.leaked);
  }

  /** The bound is tight: an allocation or a fault stops the process exactly when the live pages and the leaked slots
      together number P + S, and they never number more. */
  lemma CapacityIsExact(s: Vm)
    requires Inv(s)
    ensures var pages := |ValidEntries(s.tables)| + |SwappedEntries(s.tables)| + |s.leaked|;
            && pages <= |s.pfn| + |s.marks|
            && (Full(s) <==> pages == |s.pfn| + |s.marks|)
  {
    FrameCountIsExact(s);
    SlotCountIsExact(s);
  }

  ghost function Pages(s: Vm): int { s.pfnCount + s.swapCount }

  lemma AllocateFramePages(s: Vm)
    requires Running(s) && AllocateFrame(s).Some?
    ensures Pages(AllocateFrame(s).value.0) <= Pages(s) + 1
  {
  }

  lemma FaultPages(s: Vm, j: nat, off: nat)
    requires Running(s) && j < |s.window| && Fault(s, j, off).Done?
    ensures Pages(Fault(s, j, off).vm) <= Pages(s)
  {
    AllocateFramePages(s);
  }

  /** Only an allocation adds a page; a fault trades a slot for a frame. */
  lemma StepPages(s: Vm, e: Event)
    requires Inv(s) && Legal(Abs(s), e) && Step(s, e).Next?
    ensures Pages(Step(s, e).vm) <= Pages(s) + (if e.Allocate? then 1 else 0)
  {
    match e
    case Allocate =>
      if AllocateFrame(s).Some? {
        AllocateFramePages(s);
      }
    case Read(j, off) =>
      if !s.open[j] {
        FaultPages(s, j, off);
      }
    case Write(j, off, _) =>
      if !s.open[j] {
        FaultPages(s, j, off);
      }
    case _ =>
  }

  ghost function Allocations(es: seq<Event>): nat {
    if es == [] then 0 else (if es[0].Allocate? then 1 else 0) + Allocations(es[1..])
  }

  /** A run that allocates too few pages to fill the frames and the slots, and stays off the last byte of the heap,
      always completes, whatever else it does. */
  lemma {:induction false} FewAllocationsComplete(s: Vm, es: seq<Event>)
    requires Inv(s) && LegalRun(Abs(s), es, |s.window|)
    requires Pages(s) + Allocations(es) < |s.pfn| + |s.marks|
    requires forall e :: e in es ==> !TouchesLastByte(e, |s.window|)
    ensures Run(s, es).Completed?
    decreases |es|
  {
    if es != [] {
      StepRefines(s, es[0]);
      if Step(s, es[0]).Next? {
        StepPages(s, es[0]);
        FewAllocationsComplete(Step(s, es[0]).vm, es[1..]);
      }
    }
  }

  /** The shipped sizes: from the initial state, fewer than 6144 page allocations in all never meet the panic. */
  lemma ShippedSizesComplete(main: Tid, es: seq<Event>)
    requires LegalRun(Memories(Some(main), map[main := seq(MAX_VIRTUAL_PAGES, _ => None)]), es, MAX_VIRTUAL_PAGES)
    requires Allocations(es) < 6144
    requires forall e :: e in es ==> !TouchesLastByte(e, MAX_VIRTUAL_PAGES)
    ensures MAX_VIRTUAL_PAGES <= MAX_PHYSICAL_PAGES
    ensures var s := Init(MAX_VIRTUAL_PAGES, MAX_PHYSICAL_PAGES, MAX_SWAP_SLOTS, main);
            && Inv(s) && LegalRun(Abs(s), es, |s.window|)
            && Run(s, es).Completed? && Inv(Run(s, es).vm)
            && (Abs(Run(s, es).vm), Run(s, es).replies) == SpecRun(Abs(s), es, |s.window|)
  {
    PageCounts();
    InitRefines(MAX_VIRTUAL_PAGES, MAX_PHYSICAL_PAGES, MAX_SWAP_SLOTS, main);
    var s := Init(MAX_VIRTUAL_PAGES, MAX_PHYSICAL_PAGES, MAX_SWAP_SLOTS, main);
    FewAllocationsComplete(s, es);
    Transparency(s, es);
  }

  // ---- what an exit leaves behind ----

  const IsResident: Pte -> bool := (p: Pte) => p.Valid?
  const IsOut: Pte -> bool := (p: Pte) => p.Swapped?
  const IsInUse: Pte -> bool := (p: Pte) => p != Zero

  /** An exit adds the slots of its thread to the leaked ones, and nothing else ever changes them. */
  lemma StepLeaks(s: Vm, e: Event)
    requires Inv(s) && Legal(Abs(s), e) && Step(s, e).Next?
    ensures var s' := Step(s, e).vm;
            s'.leaked == if e.Exit? then s.leaked + SwappedSlots(Table(s)) else s.leaked
  {
    hide FramesOk, SlotsOk, AllocatePage, Fault;
    match e
    case Allocate => AllocatePageRefines(s);
    case Read(j, off) => TouchLeaksNothing(s, j, off);
    case Write(j, off, _) => TouchLeaksNothing(s, j, off);
    case _ =>
  }

  lemma TouchLeaksNothing(s: Vm, j: nat, off: nat)
    requires Inv(s) && Has(Abs(s), j) && Touch(s, j, off).Done?
    ensures Touch(s, j, off).vm.leaked == s.leaked
  {
    hide FramesOk, SlotsOk;
    TouchRefines(s, j, off);
    assert Entry(s.tables, s.cur.value, j);
    assert Content(s, s.cur.value, j).Some?;
    if Table(s)[j].Swapped? && BelowHeapEnd(|s.window|, j, off) {
      FaultRefines(s, j, off);
    }
  }

  /** A leaked slot stays leaked, and marked, over every run. */
  lemma {:induction false} LeaksStay(s: Vm, es: seq<Event>)
    requires Inv(s) && LegalRun(Abs(s), es, |s.window|)
    ensures var s' := match Run(s, es)
                      case Completed(s1, _) => s1
                      case Halted(at, _) => at;
            s.leaked <= s'.leaked && forall o :: o in s.leaked ==> o < |s'.marks| && s'.marks[o]
    decreases |es|
  {
    if es != [] {
      StepRefines(s, es[0]);
      if Step(s, es[0]).Next? {
        StepLeaks(s, es[0]);
        LeaksStay(Step(s, es[0]).vm, es[1..]);
      }
    }
  }

  lemma {:induction false} CountInUse(table: seq<Pte>)
    ensures Count(table, IsInUse) == Count(table, IsResident) + Count(table, IsOut)
  {
    if table != [] {
      CountInUse(table[..|table| - 1]);
    }
  }

  /** free_thread_pages gives back one frame for each resident entry. */
  lemma {:induction false} FreedCount(table: seq<Pte>, pfn: seq<Frame>, count: int, n: nat)
    requires n <= |table|
    requires forall j :: 0 <= j < |table| && table[j].Valid? ==> table[j].pfn < |pfn| && pfn[table[j].pfn].used
    requires forall j, k :: 0 <= j < |table| && 0 <= k < |table| && table[j].Valid? && table[j] == table[k] ==> j == k
    ensures FreedFrames(table, pfn, count, n).1 == count - Count(table[..n], IsResident)
  {
    if n > 0 {
      FreedCount(table, pfn, count, n - 1);
      FreedFramesAt(table, pfn, count, n - 1);
      assert table[..n][..n - 1] == table[..n - 1];
      assert table[n - 1].Valid? ==> table[n - 1] !in table[..n - 1];
    }
  }

  lemma SwappedSlotsCount(table: seq<Pte>)
    requires forall j, k :: 0 <= j < |table| && 0 <= k < |table| && table[j].Swapped? && table[j] == table[k] ==> j == k
    ensures |SwappedSlots(table)| == Count(table, IsOut)
  {
    CountIsCardinality(table, IsOut);
    var m := map j | j in Where(table, IsOut) :: table[j].slot;
    InjectiveCardinality(m);
    assert m.Keys == Where(table, IsOut);
    assert forall j :: 0 <= j < |table| && table[j].Swapped? ==> j in m && m[j] == table[j].slot;
    assert m.Values == SwappedSlots(table);
  }

  /** An exit frees the frames of its thread and leaks one slot for each page that is swapped out. */
  lemma ExitReturns(s: Vm)
    requires Inv(s) && Running(s)
    ensures Pages(Paging.Exit(s)) == Pages(s) - Count(Table(s), IsResident)
    ensures |Paging.Exit(s).leaked| == |s.leaked| + Count(Table(s), IsOut)
  {
    var table := Table(s);
    assert forall j :: 0 <= j < |table| ==> Entry(s.tables, s.cur.value, j);
    FreedCount(table, s.pfn, s.pfnCount, |table|);
    assert table[..|table|] == table;
    SwappedSlotsCount(table);
    assert s.leaked !! SwappedSlots(table);
  }

  /** An exit gives back all that its thread used if and only if none of the thread's pages is swapped out. */
  lemma ExitReturnsAllIff(s: Vm)
    requires Inv(s) && Running(s)
    ensures Pages(Paging.Exit(s)) == Pages(s) - Count(Table(s), IsInUse) <==>
            forall j :: 0 <= j < |s.window| ==> !Table(s)[j].Swapped?
  {
    ExitReturns(s);
    CountInUse(Table(s));
    CountNone(Table(s), IsOut);
  }
}
