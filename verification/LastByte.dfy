/** Two runs of the pager at every size: one that dies on the last byte of the heap, one that leaks a slot. */
module LastByte {
  import opened Util
  import opened PteWords
  import opened Paging
  import opened PagingInvariant
  import opened PagingRefinement
  import opened PagingRuns
  import opened PagingCapacity

  function Allocates(k: nat): (es: seq<Event>) { if k == 0 then [] else [Allocate] + Allocates(k - 1) }

  /** The first `a` pages of a table are in use. */
  ghost predicate Holds(table: seq<Pte>, a: int) { forall j :: 0 <= j < |table| ==> (table[j] == Zero <==> j >= a) }

  /** `t` runs with its first `a` pages in use. */
  ghost predicate At(s: Vm, t: Tid, a: nat) {
    s.cur == Some(t) && t in s.tables && |s.tables[t]| == |s.window| && a <= |s.window| && Holds(s.tables[t], a)
  }

  ghost predicate Same(s: Vm, s': Vm) { SameSizes(s, s') && s'.leaked == s.leaked && s'.tables.Keys == s.tables.Keys }

  /** `t` has taken `k` more pages with nothing evicted. */
  ghost predicate Took(s: Vm, s': Vm, t: Tid, a: nat, k: nat) {
    && At(s', t, a + k) && Same(s, s')
    && (forall u :: u in s.tables && u != t ==> s'.tables[u] == s.tables[u])
    && s'.pfnCount == s.pfnCount + k && s'.swapCount == s.swapCount
    && |s.pfn| > 0 && (if s.pfn[0].used then s'.pfn[0] == s.pfn[0] else k == 1 ==> s'.pfn[0] == Frame(true, t))
  }

  /** The state after mm_allocate_page found frame `f` free. */
  function Given(s: Vm, t: Tid, a: nat, f: nat): (s': Vm)
    requires Running(s) && t == s.cur.value && a < |s.window| && f < |s.pfn|
  {
    Clear(Map(s.(pfn := s.pfn[f := Frame(true, t)], pfnCount := s.pfnCount + 1), a, f), a)
  }

  lemma FreeAllocationIs(s: Vm, t: Tid, a: nat) returns (f: nat)
    requires Sound(s) && At(s, t, a) && a < |s.window| && s.pfnCount < |s.pfn|
    ensures f < |s.pfn| && !s.pfn[f].used && (forall i :: 0 <= i < f ==> s.pfn[i].used) && Running(s)
    ensures AllocatePage(s) == Some((Given(s, t, a, f), Some(a)))
  {
    SoundIsInv(s);
    hide FramesOk, SlotsOk, After;
    CountFull(s.pfn, IsUsed);
    FindIs(Table(s), IsZero, a);
    f := Find(s.pfn, IsFree);
  }

  lemma GivenTook(s: Vm, t: Tid, a: nat, f: nat)
    requires Running(s) && At(s, t, a) && a < |s.window| && f < |s.pfn|
    requires !s.pfn[f].used && forall i :: 0 <= i < f ==> s.pfn[i].used
    ensures Took(s, Given(s, t, a, f), t, a, 1)
  {
  }

  lemma Allocated(s: Vm, t: Tid) returns (s': Vm)
    requires Sound(s) && s.cur == Some(t) && Running(s) && AllocatePage(s).Some?
    ensures After(s, [Allocate]) == To(s') && Sound(s') && s' == AllocatePage(s).value.0
  {
    SoundIsInv(s);
    hide FramesOk, SlotsOk, AllocatePage;
    AfterOne(s, Allocate);
    StepRefines(s, Allocate);
    s' := AllocatePage(s).value.0;
    SoundIsInv(s');
  }

  /** An allocation while a frame is free. */
  lemma FreeAllocation(s: Vm, t: Tid, a: nat) returns (s': Vm)
    requires Sound(s) && At(s, t, a) && a < |s.window| && s.pfnCount < |s.pfn|
    ensures After(s, [Allocate]) == To(s') && Sound(s') && Took(s, s', t, a, 1)
  {
    var f := FreeAllocationIs(s, t, a);
    s' := Allocated(s, t);
    GivenTook(s, t, a, f);
  }

  lemma {:induction false} FreeAllocations(s: Vm, t: Tid, a: nat, k: nat) returns (s': Vm)
    requires Sound(s) && At(s, t, a) && a + k <= |s.window| && s.pfnCount + k <= |s.pfn|
    requires |s.pfn| > 0 && s.pfn[0].used
    ensures After(s, Allocates(k)) == To(s') && Sound(s') && Took(s, s', t, a, k)
    decreases k
  {
    hide After, Holds;
    if k == 0 {
      s' := s;
    } else {
      var s1 := FreeAllocation(s, t, a);
      s' := FreeAllocations(s1, t, a + 1, k - 1);
      TookThen(s, s1, s', t, a, k);
      AfterThen(s, [Allocate], s1, Allocates(k - 1), s');
    }
  }

  lemma TookThen(s: Vm, s1: Vm, s': Vm, t: Tid, a: nat, k: nat)
    requires k > 0 && |s.pfn| > 0 && s.pfn[0].used && Took(s, s1, t, a, 1) && Took(s1, s', t, a + 1, k - 1)
    ensures Took(s, s', t, a, k)
  {
  }

  /** `t` has taken one more page, in frame 0, which `u` had. */
  ghost predicate Stole(s: Vm, s': Vm, t: Tid, a: nat, u: Tid) {
    && At(s', t, a + 1) && Same(s, s') && a < |s'.tables[t]| && s'.tables[t][a] == Valid(0)
    && (forall w :: w in s.tables && w != t && w != u ==> s'.tables[w] == s.tables[w])
    && u in s.tables && u in s'.tables && |s'.tables[u]| == |s.tables[u]|
    && (forall k :: 0 <= k < |s.tables[u]| && s.tables[u][k] == Valid(0) ==> s'.tables[u][k].Swapped?)
    && s'.pfnCount == s.pfnCount && s'.swapCount == s.swapCount + 1
    && |s'.pfn| > 0 && s'.pfn[0] == Frame(true, t)
  }

  /** Every frame is taken, frame 0 by thread `u`, and a slot is free. */
  ghost predicate MaySteal(s: Vm, t: Tid, a: nat, u: Tid) {
    && At(s, t, a) && a < |s.window|
    && s.pfnCount >= |s.pfn| > 0 && s.swapCount < |s.marks| && s.pfn[0] == Frame(true, u) && u != t
  }

  lemma EvictingAllocationIs(s: Vm, t: Tid, a: nat, u: Tid) returns (k: nat, o: nat)
    requires Sound(s) && MaySteal(s, t, a, u)
    ensures Running(s) && u in s.tables && k < |s.tables[u]| && o < |s.marks|
    ensures forall m :: 0 <= m < |s.tables[u]| && s.tables[u][m] == Valid(0) ==> m == k
    ensures Running(Evicted(s, 0, u, k, o))
    ensures AllocatePage(s) == Some((Clear(Map(Evicted(s, 0, u, k, o), a, 0), a), Some(a)))
  {
    SoundIsInv(s);
    hide After;
    FindIs(s.pfn, IsForeign(t), 0);
    FindIs(Table(s), IsZero, a);
    var i, u1;
    i, u1, k, o := EvictPageResult(s, a);
    assert i == 0 && u1 == u;
    forall m | 0 <= m < |s.tables[u]| && s.tables[u][m] == Valid(0)
      ensures m == k
    {
      assert Entry(s.tables, u, m) && Entry(s.tables, u, k);
    }
  }

  lemma EvictedStole(s: Vm, t: Tid, a: nat, u: Tid, k: nat, o: nat)
    requires Running(s) && MaySteal(s, t, a, u) && u in s.tables && k < |s.tables[u]| && o < |s.marks|
    requires forall m :: 0 <= m < |s.tables[u]| && s.tables[u][m] == Valid(0) ==> m == k
    requires Running(Evicted(s, 0, u, k, o))
    ensures Stole(s, Clear(Map(Evicted(s, 0, u, k, o), a, 0), a), t, a, u)
  {
  }

  /** An allocation with every frame taken, frame 0 by thread `u`. */
  lemma EvictingAllocation(s: Vm, t: Tid, a: nat, u: Tid) returns (s': Vm)
    requires Sound(s) && MaySteal(s, t, a, u)
    ensures After(s, [Allocate]) == To(s') && Sound(s') && Stole(s, s', t, a, u)
  {
    var k, o := EvictingAllocationIs(s, t, a, u);
    s' := Allocated(s, t);
    EvictedStole(s, t, a, u, k, o);
  }

  /** A thread is created and runs at once. */
  lemma CreatedAndSwitched(s: Vm, t: Tid) returns (s': Vm)
    requires Sound(s) && s.cur.Some? && t !in s.tables
    ensures After(s, [Event.Create(t), Event.Switch(t)]) == To(s') && Sound(s')
    ensures SameSizes(s, s') && s'.cur == Some(t) && s'.tables == s.tables[t := ZeroTable(|s.window|)] && At(s', t, 0)
    ensures s'.pfn == s.pfn && s'.pfnCount == s.pfnCount && s'.swapCount == s.swapCount && s'.leaked == s.leaked
  {
    SoundIsInv(s);
    hide FramesOk, SlotsOk;
    var s1 := Paging.Create(s, t);
    AfterOne(s, Event.Create(t));
    StepRefines(s, Event.Create(t));
    SoundIsInv(s1);
    s' := Switched(s1, t);
    AfterThen(s, [Event.Create(t)], s1, [Event.Switch(t)], s');
    assert [Event.Create(t)] + [Event.Switch(t)] == [Event.Create(t), Event.Switch(t)];
  }

  lemma Switched(s: Vm, t: Tid) returns (s': Vm)
    requires Sound(s) && s.cur.Some? && t in s.tables
    ensures After(s, [Event.Switch(t)]) == To(s') && Sound(s') && Same(s, s') && s'.cur == Some(t)
    ensures s'.tables == s.tables && s'.pfn == s.pfn && s'.pfnCount == s.pfnCount && s'.swapCount == s.swapCount
  {
    SoundIsInv(s);
    hide FramesOk, SlotsOk;
    s' := Paging.Switch(s, t);
    AfterOne(s, Event.Switch(t));
    StepRefines(s, Event.Switch(t));
    SoundIsInv(s');
  }

  // ---- the run ----

  function Part1(): seq<Event> { [Event.Create(1), Event.Switch(1)] + ([Allocate] + [Event.Switch(0)]) }

  function Part2(v: nat): seq<Event>
    requires v >= 1
  {
    Allocates(v - 1) + [Event.Create(2), Event.Switch(2)]
  }

  function Part3(v: nat, p: nat): seq<Event>
    requires v <= p
  {
    (Allocates(p - v) + [Event.Switch(0)]) + ([Allocate] + ([Event.Switch(2)] + ([Allocate] + [Event.Switch(0)])))
  }

  /** Thread 1 takes frame 0, main takes all but its last page, thread 2 fills the pool; main's last page takes frame 0
      from thread 1, and a page of thread 2 takes it from main; main runs again. */
  function UntilEvicted(v: nat, p: nat): (es: seq<Event>)
    requires 1 <= v <= p
  {
    Part1() + Part2(v) + Part3(v, p)
  }

  /** The sizes, and no slot leaked. */
  ghost predicate Sizes(s: Vm, v: nat, p: nat, n: nat) {
    |s.window| == v && |s.pfn| == p && |s.marks| == n && s.leaked == {}
  }

  /** What the first part leaves. */
  ghost predicate After1(s: Vm, v: nat, p: nat, n: nat) {
    && Sound(s) && At(s, 0, 0) && Sizes(s, v, p, n) && s.tables.Keys == {0, 1}
    && s.pfnCount == 1 && s.swapCount == 0 && p > 0 && s.pfn[0] == Frame(true, 1)
  }

  lemma DoPart1(v: nat, p: nat, n: nat) returns (s: Vm)
    requires 1 <= v <= p
    ensures After(Init(v, p, n, 0), Part1()) == To(s) && After1(s, v, p, n)
  {
    var s0 := Init(v, p, n, 0);
    InitRefines(v, p, n, 0);
    SoundIsInv(s0);
    var s2 := CreatedAndSwitched(s0, 1);
    s := FirstSteps(s2, v, p, n);
    AfterThen(s0, [Event.Create(1), Event.Switch(1)], s2, [Allocate] + [Event.Switch(0)], s);
  }

  /** Thread 1 takes the first frame. */
  lemma FirstSteps(s: Vm, v: nat, p: nat, n: nat) returns (s': Vm)
    requires 1 <= v <= p && Sound(s) && At(s, 1, 0) && Sizes(s, v, p, n) && s.tables.Keys == {0, 1}
    requires |s.tables[0]| == v && Holds(s.tables[0], 0) && !s.pfn[0].used && s.pfnCount == 0 && s.swapCount == 0
    ensures After(s, [Allocate] + [Event.Switch(0)]) == To(s') && After1(s', v, p, n)
  {
    hide After, Inv, LegalRun, Run;
    var s3 := FreeAllocation(s, 1, 0);
    s' := Switched(s3, 0);
    AfterThen(s, [Allocate], s3, [Event.Switch(0)], s');
  }

  ghost predicate After2(s: Vm, v: nat, p: nat, n: nat) {
    && Sound(s) && At(s, 2, 0) && Sizes(s, v, p, n) && 0 in s.tables && 1 in s.tables
    && |s.tables[0]| == v && Holds(s.tables[0], v - 1)
    && s.pfnCount == v && s.swapCount == 0 && p > 0 && s.pfn[0] == Frame(true, 1)
  }

  lemma DoPart2(s: Vm, v: nat, p: nat, n: nat) returns (s': Vm)
    requires 1 <= v <= p && After1(s, v, p, n)
    ensures After(s, Part2(v)) == To(s') && After2(s', v, p, n)
  {
    hide After, Inv, LegalRun, Run;
    var s1 := FreeAllocations(s, 0, 0, v - 1);
    s' := CreatedAndSwitched(s1, 2);
    AfterThen(s, Allocates(v - 1), s1, [Event.Create(2), Event.Switch(2)], s');
  }

  /** Main's last page is swapped out and main runs. */
  ghost predicate After3(s: Vm, v: nat, p: nat, n: nat) {
    && Sound(s) && Sizes(s, v, p, n) && s.cur == Some(0)
    && v >= 1 && 0 in s.tables && |s.tables[0]| == v && s.tables[0][v - 1].Swapped?
  }

  lemma DoPart3(s: Vm, v: nat, p: nat, n: nat) returns (s': Vm)
    requires 1 <= v <= p < 2 * v && n >= 2 && After2(s, v, p, n)
    ensures After(s, Part3(v, p)) == To(s') && After3(s', v, p, n)
  {
    hide After, Inv, LegalRun, Run;
    var s2 := FillPool(s, v, p, n);
    s' := BothSteals(s2, v, p, n);
    AfterThen(s, Allocates(p - v) + [Event.Switch(0)], s2,
              [Allocate] + ([Event.Switch(2)] + ([Allocate] + [Event.Switch(0)])), s');
  }

  /** Main runs, all but its last page in use, with every frame taken. */
  ghost predicate Filled(s: Vm, v: nat, p: nat, n: nat) {
    && Sound(s) && v > 0 && MaySteal(s, 0, v - 1, 1) && Sizes(s, v, p, n) && s.pfnCount == p && s.swapCount == 0
    && 2 in s.tables && |s.tables[2]| == v && Holds(s.tables[2], p - v)
  }

  lemma FillPool(s: Vm, v: nat, p: nat, n: nat) returns (s': Vm)
    requires 1 <= v <= p < 2 * v && n >= 2 && After2(s, v, p, n)
    ensures After(s, Allocates(p - v) + [Event.Switch(0)]) == To(s') && Filled(s', v, p, n)
  {
    hide After, Inv, LegalRun, Run;
    var s1 := FreeAllocations(s, 2, 0, p - v);
    s' := Switched(s1, 0);
    AfterThen(s, Allocates(p - v), s1, [Event.Switch(0)], s');
  }

  /** Main takes frame 0 from thread 1, then thread 2 takes it from main. */
  lemma BothSteals(s: Vm, v: nat, p: nat, n: nat) returns (s': Vm)
    requires 1 <= v <= p < 2 * v && n >= 2 && Filled(s, v, p, n)
    ensures After(s, [Allocate] + ([Event.Switch(2)] + ([Allocate] + [Event.Switch(0)]))) == To(s')
    ensures After3(s', v, p, n)
  {
    hide After, Inv, LegalRun, Run;
    var s3 := EvictingAllocation(s, 0, v - 1, 1);
    s' := LastSteal(s3, v, p, n);
    AfterThen(s, [Allocate], s3, [Event.Switch(2)] + ([Allocate] + [Event.Switch(0)]), s');
  }

  /** Main has just got its last page, in frame 0. */
  ghost predicate MainHasFrame0(s: Vm, v: nat, p: nat, n: nat) {
    && Sound(s) && At(s, 0, v) && Sizes(s, v, p, n) && s.pfnCount == p && s.swapCount == 1 && p > 0 && v > 0
    && s.pfn[0] == Frame(true, 0) && s.tables[0][v - 1] == Valid(0)
    && 2 in s.tables && |s.tables[2]| == v && Holds(s.tables[2], p - v)
  }

  lemma LastSteal(s: Vm, v: nat, p: nat, n: nat) returns (s': Vm)
    requires 1 <= v <= p < 2 * v && n >= 2 && MainHasFrame0(s, v, p, n)
    ensures After(s, [Event.Switch(2)] + ([Allocate] + [Event.Switch(0)])) == To(s') && After3(s', v, p, n)
  {
    hide After, Inv, LegalRun, Run;
    var s4 := Switched(s, 2);
    s' := ThreadTwoSteals(s4, v, p, n);
    AfterThen(s, [Event.Switch(2)], s4, [Allocate] + [Event.Switch(0)], s');
  }

  lemma ThreadTwoSteals(s: Vm, v: nat, p: nat, n: nat) returns (s': Vm)
    requires 1 <= v <= p < 2 * v && Sound(s) && MaySteal(s, 2, p - v, 0) && Sizes(s, v, p, n)
    requires 0 in s.tables && |s.tables[0]| == v && s.tables[0][v - 1] == Valid(0)
    ensures After(s, [Allocate] + [Event.Switch(0)]) == To(s') && After3(s', v, p, n)
  {
    hide After, Inv, LegalRun, Run;
    var s5 := EvictingAllocation(s, 2, p - v, 0);
    s' := Switched(s5, 0);
    AfterThen(s, [Allocate], s5, [Event.Switch(0)], s');
  }

  lemma MainsLastPageIsEvicted(v: nat, p: nat, n: nat) returns (s: Vm)
    requires 1 <= v <= p < 2 * v && n >= 2
    ensures After(Init(v, p, n, 0), UntilEvicted(v, p)) == To(s) && After3(s, v, p, n)
  {
    var s1 := DoPart1(v, p, n);
    var s2 := DoPart2(s1, v, p, n);
    s := DoPart3(s2, v, p, n);
    AfterThen(Init(v, p, n, 0), Part1(), s1, Part2(v), s2);
    AfterThen(Init(v, p, n, 0), Part1() + Part2(v), s2, Part3(v, p), s);
  }

  /** The last byte is lost: after that run main reads the last byte of its own last page, and the handler refuses. */
  lemma LastByteIsLost(v: nat, p: nat, n: nat) returns (at: Vm)
    requires 1 <= v <= p < 2 * v && n >= 2
    ensures var s, es, e := Init(v, p, n, 0), UntilEvicted(v, p) + [Read(v - 1, 0xFFF)], Read(v - 1, 0xFFF);
            && Sound(s) && LegalRun(Abs(s), es, v) && Run(s, es) == Halted(at, e)
            && Inv(at) && Legal(Abs(at), e) && Unhandled(at, e)
  {
    at := MainsLastPageIsEvicted(v, p, n);
    var e := Read(v - 1, 0xFFF);
    assert Entry(at.tables, 0, v - 1);
    assert Content(at, 0, v - 1).Some?;
    StepRefines(at, e);
    AfterOne(at, e);
    AfterThenDies(Init(v, p, n, 0), UntilEvicted(v, p), at, [e]);
  }

  /** At the sizes of virt.h and swap.c. */
  lemma LastByteIsLostAsShipped() returns (at: Vm)
    ensures var s := Init(MAX_VIRTUAL_PAGES, MAX_PHYSICAL_PAGES, MAX_SWAP_SLOTS, 0);
            var e := Read(2043, 0xFFF);
            var es := UntilEvicted(2044, 2048) + [e];
            && Sound(s) && LegalRun(Abs(s), es, |s.window|) && Run(s, es) == Halted(at, e)
            && Inv(at) && Legal(Abs(at), e) && Unhandled(at, e)
  {
    PageCounts();
    at := LastByteIsLost(2044, 2048, 4096);
  }

  /** Slots leak: when main ends there instead, its slot stays marked and nobody's. */
  lemma ExitLeaks(v: nat, p: nat, n: nat) returns (s': Vm)
    requires 1 <= v <= p < 2 * v && n >= 2
    ensures After(Init(v, p, n, 0), UntilEvicted(v, p) + [Event.Exit]) == To(s')
    ensures Init(v, p, n, 0).leaked == {} && s'.leaked != {}
  {
    var s := MainsLastPageIsEvicted(v, p, n);
    AfterOne(s, Event.Exit);
    StepRefines(s, Event.Exit);
    s' := Paging.Exit(s);
    AfterThen(Init(v, p, n, 0), UntilEvicted(v, p), s, [Event.Exit], s');
    assert s.tables[0][v - 1].slot in SwappedSlots(Table(s));
  }
}
