/** What each routine of virt.c and swap.c changes, place by place, and that it changes nothing else. */
module PagingEffects {
  import opened Util
  import opened PteWords
  import opened Paging
  import opened PagingInvariant
  import opened PagingRefinement
  import R = PagingRuns

  // ---- relations ----

  /** `b` is `a` with `x` in place `i`. */
  ghost predicate OneChanged<T(!new)>(a: seq<T>, b: seq<T>, i: nat, x: T) {
    i < |a| == |b| && b[i] == x && forall k :: 0 <= k < |a| && k != i ==> b[k] == a[k]
  }

  /** Entry `j` of thread `t` becomes `p`, and no other entry of any thread changes. */
  ghost predicate EntryChanged(a: Tables, b: Tables, t: Tid, j: nat, p: Pte) {
    && b.Keys == a.Keys && t in a && OneChanged(a[t], b[t], j, p)
    && forall u :: u in a && u != t ==> b[u] == a[u]
  }

  ghost predicate Foreign(s: Vm, i: nat)
    requires Running(s) && i < |s.pfn|
  {
    s.pfn[i].used && s.pfn[i].thread != s.cur.value
  }

  /** Slot `o` is the first that is clear. */
  ghost predicate FirstClear(marks: seq<bool>, o: nat) {
    o < |marks| && !marks[o] && forall i :: 0 <= i < o ==> marks[i]
  }

  /** No slot can be taken: the count says so, or the map. */
  ghost predicate NoSlot(s: Vm) { s.swapCount >= |s.marks| || forall i :: 0 <= i < |s.marks| ==> s.marks[i] }

  /** The first clear slot `o` is marked and counted and holds `page`. */
  ghost predicate TookSlot(s: Vm, s': Vm, o: nat, page: Page) {
    && FirstClear(s.marks, o) && OneChanged(s.marks, s'.marks, o, true) && OneChanged(s.file, s'.file, o, page)
    && s'.swapCount == s.swapCount + 1
  }

  /** Entry `k` is the first of `table` that names frame `i`. */
  ghost predicate FirstNaming(table: seq<Pte>, i: nat, k: nat) {
    k < |table| && table[k] == Valid(i) && forall j :: 0 <= j < k ==> table[j] != Valid(i)
  }

  /** The entry that names frame `i` of thread `u` now names slot `o`, and the frame is CURRENT's. */
  ghost predicate HandedOver(s: Vm, s': Vm, i: nat, u: Tid, o: nat)
    requires Running(s) && u in s.tables
  {
    if exists k :: FirstNaming(s.tables[u], i, k) then
      && OneChanged(s.pfn, s'.pfn, i, Frame(true, s.cur.value))
      && exists k :: FirstNaming(s.tables[u], i, k) && EntryChanged(s.tables, s'.tables, u, k, Swapped(o))
    else s'.pfn == s.pfn && s'.tables == s.tables
  }

  /** The outcome of evict_page: the first used frame of another thread is written to the first clear slot and handed to
      CURRENT; with no such frame nothing changes and P is returned. */
  ghost predicate EvictsFirstForeign(s: Vm, r: Option<(Vm, nat)>)
    requires Running(s)
  {
    match r
    case None => NoSlot(s) && exists i :: 0 <= i < |s.pfn| && Foreign(s, i)
    case Some((s', i)) =>
      && i <= |s.pfn| && (forall m :: 0 <= m < i ==> !Foreign(s, m))
      && if i == |s.pfn| then s' == s
         else
           && Foreign(s, i) && !NoSlot(s)
           && (exists o :: TookSlot(s, s', o, s.phys[i]) && HandedOver(s, s', i, s.pfn[i].thread, o))
           && s' == s.(tables := s'.tables, pfn := s'.pfn, marks := s'.marks, swapCount := s'.swapCount,
                       file := s'.file)
  }

  // ---- the swap file ----

  /** swap_out takes the first clear slot and no other, and fails exactly when there is none. */
  lemma SwapOutEffect(s: Vm, page: Page)
    requires |s.file| == |s.marks|
    ensures SwapOut(s, page).None? <==> NoSlot(s)
    ensures SwapOut(s, page).Some? ==>
              var (s', o) := SwapOut(s, page).value;
              && TookSlot(s, s', o, page)
              && s' == s.(marks := s'.marks, swapCount := s'.swapCount, file := s'.file)
  {
  }

  /** swap_in reads a marked slot into the window and clears its mark. */
  lemma SwapInEffect(s: Vm, o: nat, j: nat)
    requires |s.file| == |s.marks| && j < |s.window|
    ensures SwapIn(s, o, j).Some? <==> o < |s.marks| && s.marks[o]
    ensures SwapIn(s, o, j).Some? ==>
              var s' := SwapIn(s, o, j).value;
              && OneChanged(s.marks, s'.marks, o, false) && OneChanged(s.window, s'.window, j, s.file[o])
              && s'.swapCount == s.swapCount - 1
              && s' == s.(marks := s'.marks, swapCount := s'.swapCount, window := s'.window)
  {
  }

  // ---- frames ----

  lemma DisplaceEffect(s: Vm, i: nat, o: nat)
    requires Running(s) && i < |s.pfn| && s.pfn[i].used
    ensures HandedOver(s, Displace(s, i, o), i, s.pfn[i].thread, o)
    ensures Displace(s, i, o) == s.(tables := Displace(s, i, o).tables, pfn := Displace(s, i, o).pfn)
  {
    var u := s.pfn[i].thread;
    var k := Find(s.tables[u], IsFrame(i));
    if k < |s.tables[u]| {
      assert FirstNaming(s.tables[u], i, k);
      assert EntryChanged(s.tables, Displace(s, i, o).tables, u, k, Swapped(o));
    }
  }

  /** evict_page takes the first foreign frame, whatever the state. */
  lemma EvictPageEffect(s: Vm)
    requires Running(s)
    ensures EvictsFirstForeign(s, EvictPage(s))
  {
    var i := Find(s.pfn, IsForeign(s.cur.value));
    if i < |s.pfn| {
      assert Foreign(s, i);
      SwapOutEffect(s, s.phys[i]);
      if SwapOut(s, s.phys[i]).Some? {
        var (s1, o) := SwapOut(s, s.phys[i]).value;
        DisplaceEffect(s1, i, o);
        var s' := Displace(s1, i, o);
        assert TookSlot(s, s', o, s.phys[i]);
        assert HandedOver(s, s', i, s.pfn[i].thread, o);
      }
    }
  }

  /** allocate_physical_page takes the first frame that is not used, and evicts only when the count says that all
      are. */
  lemma AllocateFrameEffect(s: Vm)
    requires Running(s)
    ensures s.pfnCount >= |s.pfn| ==> EvictsFirstForeign(s, AllocateFrame(s))
    ensures s.pfnCount < |s.pfn| ==>
              match AllocateFrame(s)
              case None => forall f :: 0 <= f < |s.pfn| ==> s.pfn[f].used
              case Some((s', f)) =>
                && f < |s.pfn| && !s.pfn[f].used && (forall m :: 0 <= m < f ==> s.pfn[m].used)
                && OneChanged(s.pfn, s'.pfn, f, Frame(true, s.cur.value)) && s'.pfnCount == s.pfnCount + 1
                && s' == s.(pfn := s'.pfn, pfnCount := s'.pfnCount)
  {
    EvictPageEffect(s);
  }

  // ---- pages ----

  /** CURRENT's page `j` is entered in frame `f` and open, with `page` in the window. */
  ghost predicate Entered(s: Vm, s': Vm, j: nat, f: nat, page: Page)
    requires Running(s)
  {
    && EntryChanged(s.tables, s'.tables, s.cur.value, j, Valid(f))
    && OneChanged(s.open, s'.open, j, true) && OneChanged(s.window, s'.window, j, page)
  }

  /** mm_allocate_page gives the first page never allocated, in the frame it was allocated, zeroed and open. */
  lemma AllocatePageEffect(s: Vm)
    requires Running(s)
    ensures match AllocatePage(s)
            case None => AllocateFrame(s).None? && exists j :: 0 <= j < |s.window| && Table(s)[j] == Zero
            case Some((s', None)) => s' == s && forall j :: 0 <= j < |s.window| ==> Table(s)[j] != Zero
            case Some((s', Some(j))) =>
              && j < |s.window| && Table(s)[j] == Zero && (forall i :: 0 <= i < j ==> Table(s)[i] != Zero)
              && AllocateFrame(s).Some?
              && var (s1, f) := AllocateFrame(s).value;
                 && Entered(s1, s', j, f, ZeroPage())
                 && s' == s1.(tables := s'.tables, open := s'.open, window := s'.window)
  {
    var j := Find(Table(s), IsZero);
    if j < |Table(s)| && AllocateFrame(s).Some? {
      var (s1, f) := AllocateFrame(s).value;
      MapEffect(s1, j, f);
    }
  }

  lemma MapEffect(s: Vm, j: nat, f: nat)
    requires Running(s) && j < |s.window|
    ensures EntryChanged(s.tables, Map(s, j, f).tables, s.cur.value, j, Valid(f))
    ensures OneChanged(s.open, Map(s, j, f).open, j, true)
    ensures Map(s, j, f) == s.(tables := Map(s, j, f).tables, open := Map(s, j, f).open)
  {
  }

  /** The only address of the window that the handler's bound excludes is its last byte. */
  lemma HeapEndIsLastByte(v: nat, j: nat, off: nat)
    requires j < v && off < 0x1000
    ensures BelowHeapEnd(v, j, off) <==> !(j == v - 1 && off == 0xFFF)
    ensures v == MAX_VIRTUAL_PAGES ==>
              (BelowHeapEnd(v, j, off) <==> VIRTUAL_HEAP_START + j * 0x1000 + off < VIRTUAL_HEAP_END)
  {
    PageCounts();
  }

  /** pagefault_handler: only a swapped-out page below the end gets a frame; it then holds what its slot held, and the
      slot is clear. */
  lemma FaultEffect(s: Vm, j: nat, off: nat)
    requires Running(s) && j < |s.window|
    ensures match Fault(s, j, off)
            case Segv => !BelowHeapEnd(|s.window|, j, off) || Table(s)[j] == Zero
            case Panic =>
              && BelowHeapEnd(|s.window|, j, off) && Table(s)[j] != Zero
              && (Table(s)[j].Valid? || AllocateFrame(s).None?
                  || SwapPageIn(AllocateFrame(s).value.0, j, AllocateFrame(s).value.1).Panic?)
            case Done(s') =>
              && BelowHeapEnd(|s.window|, j, off) && Table(s)[j].Swapped? && AllocateFrame(s).Some?
              && var (s1, f) := AllocateFrame(s).value;
                 BroughtIn(s1, s', j, f)
  {
    if BelowHeapEnd(|s.window|, j, off) && Table(s)[j].Swapped? && AllocateFrame(s).Some? {
      var (s1, f) := AllocateFrame(s).value;
      AllocateFrameKeepsTable(s);
      SwapPageInEffect(s1, j, f);
    }
  }

  /** The page in CURRENT's swapped-out entry `j` is read into the window, in frame `f`, and its slot is cleared. */
  ghost predicate BroughtIn(s: Vm, s': Vm, j: nat, f: nat) {
    && Running(s) && j < |s.window| && Table(s)[j].Swapped?
    && var o := Table(s)[j].slot;
       && o < |s.marks| && s.marks[o] && Entered(s, s', j, f, s.file[o])
       && OneChanged(s.marks, s'.marks, o, false) && s'.swapCount == s.swapCount - 1
       && s' == s.(tables := s'.tables, open := s'.open, window := s'.window, marks := s'.marks,
                   swapCount := s'.swapCount)
  }

  lemma AllocateFrameKeepsTable(s: Vm)
    requires Running(s) && AllocateFrame(s).Some?
    ensures Table(AllocateFrame(s).value.0) == Table(s)
  {
  }

  /** The swap-in succeeds exactly on a swapped-out entry whose slot is marked. */
  lemma SwapPageInEffect(s: Vm, j: nat, f: nat)
    requires Running(s) && j < |s.window|
    ensures !SwapPageIn(s, j, f).Segv?
    ensures SwapPageIn(s, j, f).Done? <==>
              Table(s)[j].Swapped? && Table(s)[j].slot < |s.marks| && s.marks[Table(s)[j].slot]
    ensures SwapPageIn(s, j, f).Done? ==> BroughtIn(s, SwapPageIn(s, j, f).vm, j, f)
  {
    MapEffect(s, j, f);
  }

  /** An access to an open page, allocated or not, goes through and changes nothing; any other enters the handler. */
  lemma TouchEffect(s: Vm, j: nat, off: nat)
    requires Running(s) && j < |s.window|
    ensures s.open[j] ==> Touch(s, j, off) == Done(s)
    ensures !s.open[j] ==> Touch(s, j, off) == Fault(s, j, off)
  {
  }

  // ---- context switches ----

  /** mm_store_virtual_pages_back copies the resident pages into their frames, and writes nothing else. */
  lemma StoreBackEffect(s: Vm)
    requires Inv(s) && Running(s)
    ensures var s' := StoreBack(s);
            && |s'.phys| == |s.phys| && s' == s.(phys := s'.phys)
            && (forall j :: 0 <= j < |s.window| && Table(s)[j].Valid? ==>
                  Table(s)[j].pfn < |s.phys| && s'.phys[Table(s)[j].pfn] == s.window[j])
            && (forall f :: 0 <= f < |s.phys| && Valid(f) !in Table(s) ==> s'.phys[f] == s.phys[f])
  {
    var table := Table(s);
    assert forall j :: 0 <= j < |table| ==> Entry(s.tables, s.cur.value, j);
    StoredBackAt(table, s.window, s.phys, |s.window|);
    assert table[..|s.window|] == table;
  }

  /** A thread that is resumed runs. An unstarted one finds the window and the protections as they are; one that was
      switched out finds its resident pages, open, and everything else closed, with the bytes that were there. */
  lemma ResumeEffect(s: Vm, t: Tid)
    requires Shape(s) && t in s.tables
    ensures var s' := Resume(s, t);
            && s'.cur == Some(t) && (forall u :: u in s'.unstarted <==> u in s.unstarted && u != t)
            && s' == s.(cur := s'.cur, unstarted := s'.unstarted, window := s'.window, open := s'.open)
            && (t in s.unstarted ==> s'.window == s.window && s'.open == s.open)
            && (t !in s.unstarted ==>
                  && |s'.window| == |s'.open| == |s.window|
                  && forall j :: 0 <= j < |s.window| ==>
                       && (s'.open[j] <==> s.tables[t][j].Valid?)
                       && (s.tables[t][j].Valid? && s.tables[t][j].pfn < |s.phys| ==>
                             s'.window[j] == s.phys[s.tables[t][j].pfn])
                       && (!s.tables[t][j].Valid? ==> s'.window[j] == s.window[j]))
  {
  }

  /** The same over a whole switch; the first dispatch of a thread leaves it the window that was there before. */
  lemma SwitchEffect(s: Vm, t: Tid)
    requires Inv(s) && Running(s) && t in s.tables
    ensures var s' := Switch(s, t);
            && s'.cur == Some(t) && s'.phys == StoreBack(s).phys
            && s' == s.(cur := s'.cur, unstarted := s'.unstarted, window := s'.window, open := s'.open, phys := s'.phys)
            && (t in s.unstarted ==> s'.window == s.window && s'.open == s.open)
            && (t !in s.unstarted ==>
                  forall j :: 0 <= j < |s.window| ==>
                    && (s'.open[j] <==> s.tables[t][j].Valid?)
                    && (s.tables[t][j].Valid? ==> s'.window[j] == StoreBack(s).phys[s.tables[t][j].pfn])
                    && (!s.tables[t][j].Valid? ==> s'.window[j] == s.window[j]))
  {
    ResumeEffect(StoreBack(s), t);
    assert forall j :: 0 <= j < |s.window| ==> Entry(s.tables, t, j);
  }

  /** Main in the initial state creates a thread and is switched to it: page 0, which the thread never allocated, is
      accessible to it. */
  lemma FirstDispatchLeavesPagesOpen(v: nat, p: nat, n: nat, main: Tid, t: Tid, j: nat, off: nat)
    requires t != main && j < v <= p
    ensures var s := Create(Init(v, p, n, main), t);
            Inv(s) && Touch(Switch(s, t), j, off) == Done(Switch(s, t)) && Table(Switch(s, t))[j] == Zero
  {
    R.InitRefines(v, p, n, main);
    CreateKeepsInv(Init(v, p, n, main), t);
    SwitchEffect(Create(Init(v, p, n, main), t), t);
  }

  // ---- threads ----

  /** A new thread has an entry for every page, all zero, and has not started. */
  lemma CreateEffect(s: Vm, t: Tid)
    requires Shape(s) && t !in s.tables
    ensures var s' := Create(s, t);
            && s' == s.(tables := s'.tables, unstarted := s'.unstarted)
            && (forall u :: u in s'.unstarted <==> u in s.unstarted || u == t)
            && (forall u :: u in s'.tables <==> u in s.tables || u == t)
            && |s'.tables[t]| == |s.window| && (forall j :: 0 <= j < |s.window| ==> s'.tables[t][j] == Zero)
            && (forall u :: u in s.tables ==> s'.tables[u] == s.tables[u])
  {
  }

  /** free_physical_page frees a frame that is used, once. */
  lemma FreeFrameEffect(pfn: seq<Frame>, count: int, f: nat)
    ensures var (p, c) := FreeFrame(pfn, count, f);
            if f < |pfn| && pfn[f].used then OneChanged(pfn, p, f, Frame(false, pfn[f].thread)) && c == count - 1
            else p == pfn && c == count
  {
  }

  /** An exit frees the frames that CURRENT's table names, and only those; the window, the frames' bytes, the swap file
      and its map stay as they are. */
  lemma ExitEffect(s: Vm)
    requires Inv(s) && Running(s)
    ensures var s' := Exit(s);
            && s'.cur == None && s'.tables == s.tables - {s.cur.value} && |s'.pfn| == |s.pfn|
            && (forall f :: 0 <= f < |s.pfn| ==>
                  s'.pfn[f] == if Valid(f) in Table(s) then Frame(false, s.pfn[f].thread) else s.pfn[f])
            && s.pfnCount - s'.pfnCount == Count(s.pfn, IsUsed) - Count(s'.pfn, IsUsed)
            && (forall o :: o in s'.leaked <==> o in s.leaked || Swapped(o) in Table(s))
            && s' == s.(cur := s'.cur, tables := s'.tables, pfn := s'.pfn, pfnCount := s'.pfnCount, leaked := s'.leaked)
  {
    var table := Table(s);
    assert forall j :: 0 <= j < |table| ==> Entry(s.tables, s.cur.value, j);
    FreedFramesAt(table, s.pfn, s.pfnCount, |table|);
    assert table[..|table|] == table;
  }

  /** The state after mm_init: everything free, zeroed and open. */
  lemma InitEffect(v: nat, p: nat, n: nat, main: Tid)
    ensures var s := Init(v, p, n, main);
            && s.cur == Some(main) && s.tables.Keys == {main} && |s.tables[main]| == |s.window| == |s.open| == v
            && (forall j :: 0 <= j < v ==> s.tables[main][j] == Zero && s.window[j] == ZeroPage() && s.open[j])
            && |s.pfn| == |s.phys| == p
            && (forall f :: 0 <= f < p ==> !s.pfn[f].used && s.phys[f] == ZeroPage()) && s.pfnCount == 0
            && |s.marks| == |s.file| == n
            && (forall o :: 0 <= o < n ==> !s.marks[o] && s.file[o] == ZeroPage()) && s.swapCount == 0
            && s.unstarted == {} && s.leaked == {}
  {
  }
}
