/** Paging is transparent: every kernel routine acts on the bytes of the threads as if each thread had its own
    zero-initialised memory. */
module PagingRefinement {
  import opened Util
  import opened PteWords
  import opened Paging
  import opened PagingInvariant

  /** One private memory per live thread: the bytes of each of its pages, None for a page never allocated. */
  datatype Memories = Memories(cur: Option<Tid>, mem: map<Tid, seq<Option<Page>>>)

  ghost function PrivateMemory(s: Vm, t: Tid): (m: seq<Option<Page>>)
    requires Shape(s) && t in s.tables
    ensures |m| == |s.window|
    ensures forall j :: 0 <= j < |m| ==> m[j] == Content(s, t, j)
  {
    seq(|s.window|, j requires 0 <= j < |s.window| => Content(s, t, j))
  }

  /** The memories that a paging state stands for. */
  ghost function Abs(s: Vm): Memories
    requires Shape(s)
  {
    Memories(s.cur, map t | t in s.tables :: PrivateMemory(s, t))
  }

  lemma SameContentSameMemories(s: Vm, s': Vm)
    requires Shape(s) && Shape(s') && SameContent(s, s')
    ensures Abs(s').mem == Abs(s).mem
  {
    forall t | t in s.tables
      ensures PrivateMemory(s', t) == PrivateMemory(s, t)
    {
    }
  }

  /** `s'` holds what `s` holds except that page `j` of thread `t` holds `x`. */
  ghost predicate OnePageChanged(s: Vm, s': Vm, t: Tid, j: nat, x: Option<Page>)
    requires Shape(s) && Shape(s') && t in s.tables && j < |s.window|
  {
    && s'.tables.Keys == s.tables.Keys
    && |s'.window| == |s.window|
    && Content(s', t, j) == x
    && forall u, k :: u in s.tables && 0 <= k < |s.window| && !(u == t && k == j) ==>
         Content(s', u, k) == Content(s, u, k)
  }

  lemma OnePageChangedMemories(s: Vm, s': Vm, t: Tid, j: nat, x: Option<Page>)
    requires Shape(s) && Shape(s') && t in s.tables && j < |s.window|
    requires OnePageChanged(s, s', t, j, x)
    ensures Abs(s').mem == Abs(s).mem[t := Abs(s).mem[t][j := x]]
  {
    forall u | u in s.tables
      ensures PrivateMemory(s', u) == if u == t then PrivateMemory(s, u)[j := x] else PrivateMemory(s, u)
    {
    }
  }

  // ---- allocation ----

  lemma MapZeroEntryKeepsInv(s: Vm, j: nat, f: nat)
    requires Running(s) && InvHole(s, Some(f)) && j < |s.window| && Table(s)[j] == Zero
    requires forall i :: 0 <= i < j ==> Table(s)[i] != Zero
    ensures Inv(Clear(Map(s, j, f), j))
  {
    hide FramesOk, SlotsOk;
    FillHole(s.tables, s.pfn, s.cur.value, j, f);
    AllocateEntry(s.tables, s.marks, s.leaked, s.cur.value, j, f);
    assert Prefix(Put(s.tables, s.cur.value, j, Valid(f))[s.cur.value]);
  }

  lemma MapZeroEntryContent(s: Vm, j: nat, f: nat)
    requires Running(s) && InvHole(s, Some(f)) && j < |s.window| && Table(s)[j] == Zero
    requires Inv(Clear(Map(s, j, f), j))
    ensures OnePageChanged(s, Clear(Map(s, j, f), j), s.cur.value, j, Some(ZeroPage()))
  {
    hide FramesOk, SlotsOk;
    var s' := Clear(Map(s, j, f), j);
    var t := s.cur.value;
    forall u, k | u in s.tables && 0 <= k < |s.window| && !(u == t && k == j)
      ensures Content(s', u, k) == Content(s, u, k)
    {
      assert s'.tables[u][k] == s.tables[u][k];
    }
  }

  /** mm_allocate_page gives the running thread its first page not in use, full of zeros, or NULL when there is none;
      it stops the process exactly when it needs a frame and the frames and swap slots are all taken. */
  lemma AllocatePageRefines(s: Vm)
    requires Inv(s) && Running(s)
    ensures AllocatePage(s).None? <==>
              Find(Table(s), IsZero) < |s.window| && s.pfnCount >= |s.pfn| && s.swapCount >= |s.marks|
    ensures AllocatePage(s).Some? ==>
              var (s', j) := AllocatePage(s).value;
              && Inv(s') && s'.cur == s.cur && s'.leaked == s.leaked
              && |s'.pfn| == |s.pfn| && |s'.marks| == |s.marks| && |s'.window| == |s.window|
              && s'.tables.Keys == s.tables.Keys && s'.unstarted == s.unstarted
              && match j
                 case None => s' == s && Untouchable(Table(s))
                 case Some(k) =>
                   k < |s.window| && Table(s)[k] == Zero && (forall i :: 0 <= i < k ==> Table(s)[i] != Zero) &&
                   OnePageChanged(s, s', s.cur.value, k, Some(ZeroPage()))
  {
    var j := Find(Table(s), IsZero);
    if j < |s.window| {
      AllocateFrameKeeps(s, j);
      if AllocateFrame(s).Some? {
        var (s1, f) := AllocateFrame(s).value;
        MapZeroEntryKeepsInv(s1, j, f);
        MapZeroEntryContent(s1, j, f);
      }
    }
  }

  ghost predicate Untouchable(table: seq<Pte>) { forall j :: 0 <= j < |table| ==> table[j] != Zero }

  // ---- page faults ----

  lemma SwapPageInKeepsInv(s: Vm, j: nat, f: nat)
    requires Running(s) && InvHole(s, Some(f)) && j < |s.window| && Table(s)[j].Swapped?
    ensures SwapPageIn(s, j, f).Done? && Inv(SwapPageIn(s, j, f).vm)
  {
    hide FramesOk, SlotsOk;
    var o := Table(s)[j].slot;
    FillHole(s.tables, s.pfn, s.cur.value, j, f);
    ClearSlot(s.tables, s.marks, s.leaked, s.cur.value, j, o, f);
    CountUpdate(s.marks, IsMarked, o, false);
    assert Prefix(Put(s.tables, s.cur.value, j, Valid(f))[s.cur.value]);
  }

  /** The slot that is read is the one the page was written to, and no other page is in it. */
  lemma SwapPageInContent(s: Vm, j: nat, f: nat)
    requires Running(s) && InvHole(s, Some(f)) && j < |s.window| && Table(s)[j].Swapped?
    requires SwapPageIn(s, j, f).Done? && Inv(SwapPageIn(s, j, f).vm)
    ensures SameContent(s, SwapPageIn(s, j, f).vm)
  {
    hide FramesOk;
    var s' := SwapPageIn(s, j, f).vm;
    assert Entry(s.tables, s.cur.value, j);
    forall u, k | u in s.tables && 0 <= k < |s.window|
      ensures Content(s', u, k) == Content(s, u, k)
    {
      if !(u == s.cur.value && k == j) {
        assert s'.tables[u][k] == s.tables[u][k];
      }
    }
  }

  /** pagefault_handler on a page that the thread has, at any byte but the last of the heap: the only way not to come
      back with the page accessible and all bytes as they were is that the frames and the swap slots are all taken. */
  lemma FaultRefines(s: Vm, j: nat, off: nat)
    requires Inv(s) && Running(s) && j < |s.window| && Table(s)[j].Swapped? && BelowHeapEnd(|s.window|, j, off)
    ensures Fault(s, j, off).Panic? <==> s.pfnCount >= |s.pfn| && s.swapCount >= |s.marks|
    ensures !Fault(s, j, off).Segv?
    ensures Fault(s, j, off).Done? ==>
              var s' := Fault(s, j, off).vm;
              && Inv(s') && SameContent(s, s') && s'.cur == s.cur && s'.leaked == s.leaked
              && |s'.pfn| == |s.pfn| && |s'.marks| == |s.marks| && s'.unstarted == s.unstarted
              && s'.open[j] && Table(s')[j].Valid?
  {
    AllocateFrameKeeps(s, j);
    if AllocateFrame(s).Some? {
      var (s1, f) := AllocateFrame(s).value;
      SwapPageInKeepsInv(s1, j, f);
      SwapPageInContent(s1, j, f);
    }
  }

  // ---- context switches ----

  /** mm_store_virtual_pages_back puts each resident page in its own frame and touches no other frame. */
  lemma {:induction false} StoredBackAt(table: seq<Pte>, window: seq<Page>, phys: seq<Page>, n: nat)
    requires n <= |table| <= |window|
    requires forall j :: 0 <= j < |table| && table[j].Valid? ==> table[j].pfn < |phys|
    requires forall j, k :: 0 <= j < |table| && 0 <= k < |table| && table[j].Valid? && table[j] == table[k] ==> j == k
    ensures forall j :: 0 <= j < n && table[j].Valid? ==>
              StoredBack(table, window, phys, n)[table[j].pfn] == window[j]
    ensures forall f :: 0 <= f < |phys| && Valid(f) !in table[..n] ==> StoredBack(table, window, phys, n)[f] == phys[f]
  {
    if n > 0 {
      StoredBackAt(table, window, phys, n - 1);
      assert forall p :: p in table[..n] <==> p in table[..n - 1] || p == table[n - 1];
    }
  }

  /** The frames of the running thread hold what the window holds. */
  ghost predicate Synced(s: Vm)
    requires Shape(s)
  {
    s.cur.Some? ==> forall j :: 0 <= j < |s.window| && Table(s)[j].Valid? ==>
      Table(s)[j].pfn < |s.phys| && s.phys[Table(s)[j].pfn] == s.window[j]
  }

  lemma StoreBackKeepsInv(s: Vm)
    requires Inv(s) && Running(s)
    ensures Inv(StoreBack(s))
  {
  }

  lemma StoreBackSyncs(s: Vm)
    requires Running(s) && EntriesOwnFrames(s.tables, s.pfn, None) && EntriesDistinct(s.tables)
    requires Shape(StoreBack(s))
    ensures Synced(StoreBack(s)) && SameContent(s, StoreBack(s))
  {
    var s' := StoreBack(s);
    var table := Table(s);
    assert forall j :: 0 <= j < |table| ==> Entry(s.tables, s.cur.value, j);
    StoredBackAt(table, s.window, s.phys, |s.window|);
    assert table[..|s.window|] == table;
    forall u, k | u in s.tables && 0 <= k < |s.window|
      ensures Content(s', u, k) == Content(s, u, k)
    {
      assert Entry(s.tables, u, k);
    }
  }

  lemma ResumeKeepsInv(s: Vm, t: Tid)
    requires Inv(s) && t in s.tables
    ensures Inv(Resume(s, t))
  {
  }

  /** Resuming a thread, fresh or not, moves no bytes as long as the old thread's frames are up to date. */
  lemma ResumeContent(s: Vm, t: Tid)
    requires Inv(s) && Synced(s) && t in s.tables
    requires Inv(Resume(s, t))
    ensures SameContent(s, Resume(s, t))
  {
    var s' := Resume(s, t);
    forall u, k | u in s.tables && 0 <= k < |s.window|
      ensures Content(s', u, k) == Content(s, u, k)
    {
      assert Entry(s.tables, u, k);
    }
  }

  /** Once a thread has been switched in by mm_switch_virtual_pages, its resident pages are the only accessible ones. */
  lemma SwitchedInPagesAreExact(s: Vm, t: Tid, j: nat)
    requires Shape(s) && t in s.tables && t !in s.unstarted && j < |s.window|
    ensures Resume(s, t).open[j] <==> s.tables[t][j].Valid?
    ensures s.tables[t][j] == Zero ==> forall off: nat :: Touch(Resume(s, t), j, off) == Segv
  {
  }

  // ---- creation and exit ----

  lemma AddZeroTable(tables: Tables, pfn: seq<Frame>, marks: seq<bool>, leaked: set<nat>, t: Tid, v: nat)
    requires FramesOk(tables, pfn, None) && SlotsOk(tables, marks, leaked) && t !in tables
    ensures FramesOk(tables[t := ZeroTable(v)], pfn, None) && SlotsOk(tables[t := ZeroTable(v)], marks, leaked)
  {
    var tables' := tables[t := ZeroTable(v)];
    assert forall u, j :: Entry(tables', u, j) && tables'[u][j] != Zero ==> Entry(tables, u, j);
    forall o | 0 <= o < |marks| && marks[o] && o !in leaked
      ensures InSlot(tables', o)
    {
      var u :| u in tables && Swapped(o) in tables[u];
      assert u in tables' && Swapped(o) in tables'[u];
    }
  }

  lemma CreateKeepsInv(s: Vm, t: Tid)
    requires Inv(s) && t !in s.tables
    ensures Inv(Create(s, t))
  {
    AddZeroTable(s.tables, s.pfn, s.marks, s.leaked, t, |s.window|);
  }

  /** A created thread starts with an empty memory; nobody else's changes. */
  lemma CreateRefines(s: Vm, t: Tid)
    requires Inv(s) && t !in s.tables
    ensures Inv(Create(s, t))
    ensures Abs(Create(s, t)) == Memories(s.cur, Abs(s).mem[t := seq(|s.window|, _ => None)])
  {
    hide FramesOk, SlotsOk;
    CreateKeepsInv(s, t);
    var s' := Create(s, t);
    assert s.cur != Some(t);
    forall u | u in s'.tables
      ensures PrivateMemory(s', u) == if u == t then seq(|s.window|, _ => None) else PrivateMemory(s, u)
    {
    }
  }

  /** free_thread_pages frees exactly the frames that the table names, and the count follows. */
  lemma {:induction false} FreedFramesAt(table: seq<Pte>, pfn: seq<Frame>, count: int, n: nat)
    requires n <= |table|
    requires forall j :: 0 <= j < |table| && table[j].Valid? ==> table[j].pfn < |pfn| && pfn[table[j].pfn].used
    requires forall j, k :: 0 <= j < |table| && 0 <= k < |table| && table[j].Valid? && table[j] == table[k] ==> j == k
    ensures var (p, c) := FreedFrames(table, pfn, count, n);
            && (forall f :: 0 <= f < |pfn| ==>
                  p[f] == if Valid(f) in table[..n] then Frame(false, pfn[f].thread) else pfn[f])
            && c - Count(p, IsUsed) == count - Count(pfn, IsUsed)
  {
    if n > 0 {
      FreedFramesAt(table, pfn, count, n - 1);
      var (p, c) := FreedFrames(table, pfn, count, n - 1);
      assert forall q :: q in table[..n] <==> q in table[..n - 1] || q == table[n - 1];
      if table[n - 1].Valid? {
        var f := table[n - 1].pfn;
        assert Valid(f) !in table[..n - 1];
        CountUpdate(p, IsUsed, f, p[f].(used := false));
      }
    }
  }

  lemma RemoveTable(tables: Tables, pfn: seq<Frame>, pfn': seq<Frame>, t: Tid)
    requires FramesOk(tables, pfn, None) && t in tables && |pfn'| == |pfn|
    requires forall f :: 0 <= f < |pfn| ==>
      pfn'[f] == if Valid(f) in tables[t] then Frame(false, pfn[f].thread) else pfn[f]
    ensures FramesOk(tables - {t}, pfn', None)
    ensures forall f :: 0 <= f < |pfn| && pfn'[f].used ==> pfn'[f].thread in tables - {t}
  {
    var tables' := tables - {t};
    forall u, j | Entry(tables', u, j) && tables'[u][j].Valid?
      ensures var f := tables'[u][j].pfn;
              f < |pfn'| && pfn'[f] == Frame(true, u)
    {
      assert Entry(tables, u, j);
      var f := tables[u][j].pfn;
      forall k | 0 <= k < |tables[t]|
        ensures tables[t][k] != Valid(f)
      {
        assert Entry(tables, t, k);
      }
    }
    assert forall u, j :: Entry(tables', u, j) ==> Entry(tables, u, j);
  }

  lemma ExitKeepsFrames(s: Vm)
    requires Inv(s) && Running(s)
    ensures var s' := Exit(s);
            Shape(s') && FramesOk(s'.tables, s'.pfn, None) && s'.pfnCount == Count(s'.pfn, IsUsed)
  {
    var table := Table(s);
    assert forall j :: 0 <= j < |table| ==> Entry(s.tables, s.cur.value, j);
    FreedFramesAt(table, s.pfn, s.pfnCount, |table|);
    assert table[..|table|] == table;
    RemoveTable(s.tables, s.pfn, Exit(s).pfn, s.cur.value);
  }

  /** The slots of the exiting thread stay marked: they join the leaked ones. */
  lemma ExitKeepsSlots(s: Vm)
    requires Inv(s) && Running(s)
    ensures var s' := Exit(s);
            SlotsOk(s'.tables, s'.marks, s'.leaked)
  {
    var s' := Exit(s);
    var t := s.cur.value;
    assert forall u, j :: Entry(s'.tables, u, j) ==> Entry(s.tables, u, j) && u != t;
    forall u, j | Entry(s'.tables, u, j) && s'.tables[u][j].Swapped?
      ensures s'.tables[u][j].slot !in s'.leaked
    {
      assert Entry(s.tables, u, j);
      forall k | 0 <= k < |Table(s)| && Table(s)[k].Swapped?
        ensures Table(s)[k].slot != s.tables[u][j].slot
      {
        assert Entry(s.tables, t, k);
      }
    }
    forall o | o in s'.leaked
      ensures o < |s'.marks| && s'.marks[o]
    {
      if o !in s.leaked {
        var k :| 0 <= k < |Table(s)| && Table(s)[k] == Swapped(o);
        assert Entry(s.tables, t, k);
      }
    }
    forall o | 0 <= o < |s'.marks| && s'.marks[o] && o !in s'.leaked
      ensures InSlot(s'.tables, o)
    {
      var u :| u in s.tables && Swapped(o) in s.tables[u];
      var k :| 0 <= k < |s.tables[u]| && s.tables[u][k] == Swapped(o);
      assert u in s'.tables;
    }
  }

  lemma ExitKeepsInv(s: Vm)
    requires Inv(s) && Running(s)
    ensures Inv(Exit(s))
  {
    ExitKeepsFrames(s);
    ExitKeepsSlots(s);
  }

  /** An exiting thread takes its own memory with it and nobody else's. */
  lemma ExitRefines(s: Vm)
    requires Inv(s) && Running(s)
    ensures Inv(Exit(s))
    ensures Abs(Exit(s)) == Memories(None, Abs(s).mem - {s.cur.value})
  {
    ExitKeepsInv(s);
    var s' := Exit(s);
    forall u | u in s'.tables
      ensures PrivateMemory(s', u) == PrivateMemory(s, u)
    {
    }
  }
}
