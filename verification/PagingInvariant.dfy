/** The invariant of the paging state: who names which frame and which slot. */
module PagingInvariant {
  import opened Util
  import opened PteWords
  import opened Paging

  type Tables = map<Tid, seq<Pte>>

  ghost predicate Entry(tables: Tables, t: Tid, j: int) {
    t in tables && 0 <= j < |tables[t]|
  }

  function Put(tables: Tables, t: Tid, j: nat, p: Pte): (r: Tables)
    requires t in tables && j < |tables[t]|
    ensures r.Keys == tables.Keys
    ensures forall u :: u in tables ==> |r[u]| == |tables[u]|
  {
    tables[t := tables[t][j := p]]
  }

  // ---- frames ----

  /** A valid entry of thread t names a used frame of t. */
  ghost predicate EntriesOwnFrames(tables: Tables, pfn: seq<Frame>, hole: Option<nat>) {
    forall t, j :: Entry(tables, t, j) && tables[t][j].Valid? ==>
      var f := tables[t][j].pfn;
      f < |pfn| && pfn[f] == Frame(true, t) && hole != Some(f)
  }

  /** No two entries of a thread name the same frame. */
  ghost predicate EntriesDistinct(tables: Tables) {
    forall t, j, k :: Entry(tables, t, j) && Entry(tables, t, k) && tables[t][j].Valid? && tables[t][j] == tables[t][k]
      ==> j == k
  }

  /** Every used frame is named by an entry of its thread. */
  ghost predicate FramesNamed(tables: Tables, pfn: seq<Frame>, hole: Option<nat>) {
    forall f :: 0 <= f < |pfn| && pfn[f].used && hole != Some(f) ==>
      pfn[f].thread in tables && Valid(f) in tables[pfn[f].thread]
  }

  /** Frames and valid entries name each other one to one. `hole` is a frame that has been handed out and not entered
      in a table yet. */
  ghost predicate FramesOk(tables: Tables, pfn: seq<Frame>, hole: Option<nat>) {
    EntriesOwnFrames(tables, pfn, hole) && EntriesDistinct(tables) && FramesNamed(tables, pfn, hole)
  }

  lemma TakeFreeFrame(tables: Tables, pfn: seq<Frame>, i: nat, t: Tid)
    requires FramesOk(tables, pfn, None) && i < |pfn| && !pfn[i].used
    ensures FramesOk(tables, pfn[i := Frame(true, t)], Some(i))
  {
  }

  /** Whatever is named elsewhere stays named when one entry changes. */
  lemma PutKeepsNames(tables: Tables, t: Tid, k: nat, p: Pte, u: Tid, q: Pte)
    requires Entry(tables, t, k) && u in tables && q in tables[u] && q != tables[t][k]
    ensures q in Put(tables, t, k, p)[u]
  {
    var m :| 0 <= m < |tables[u]| && tables[u][m] == q;
    assert Put(tables, t, k, p)[u][m] == q;
  }

  lemma StealFrame(tables: Tables, pfn: seq<Frame>, t: Tid, k: nat, i: nat, p: Pte, cur: Tid)
    requires FramesOk(tables, pfn, None)
    requires Entry(tables, t, k) && tables[t][k] == Valid(i) && !p.Valid?
    ensures FramesOk(Put(tables, t, k, p), pfn[i := Frame(true, cur)], Some(i))
  {
    var tables', pfn' := Put(tables, t, k, p), pfn[i := Frame(true, cur)];
    forall f | 0 <= f < |pfn'| && pfn'[f].used && f != i
      ensures pfn'[f].thread in tables' && Valid(f) in tables'[pfn'[f].thread]
    {
      PutKeepsNames(tables, t, k, p, pfn[f].thread, Valid(f));
    }
  }

  lemma FillHole(tables: Tables, pfn: seq<Frame>, t: Tid, k: nat, f: nat)
    requires FramesOk(tables, pfn, Some(f)) && f < |pfn| && pfn[f] == Frame(true, t)
    requires Entry(tables, t, k) && !tables[t][k].Valid?
    ensures FramesOk(Put(tables, t, k, Valid(f)), pfn, None)
  {
    var tables' := Put(tables, t, k, Valid(f));
    assert tables'[t][k] == Valid(f);
    forall g | 0 <= g < |pfn| && pfn[g].used
      ensures pfn[g].thread in tables' && Valid(g) in tables'[pfn[g].thread]
    {
      if g != f {
        PutKeepsNames(tables, t, k, Valid(f), pfn[g].thread, Valid(g));
      }
    }
  }

  // ---- slots ----

  /** A swapped-out entry names a marked slot that is not leaked. */
  ghost predicate EntriesOwnSlots(tables: Tables, marks: seq<bool>, leaked: set<nat>) {
    forall t, j :: Entry(tables, t, j) && tables[t][j].Swapped? ==>
      var o := tables[t][j].slot;
      o < |marks| && marks[o] && o !in leaked
  }

  /** No two entries, of whatever threads, name the same slot. */
  ghost predicate SlotsDistinct(tables: Tables) {
    forall t, j, u, k ::
      Entry(tables, t, j) && Entry(tables, u, k) && tables[t][j].Swapped? && tables[t][j] == tables[u][k]
      ==> t == u && j == k
  }

  ghost predicate InSlot(tables: Tables, o: nat) {
    exists t :: t in tables && Swapped(o) in tables[t]
  }

  /** Every marked slot is leaked or named by an entry. */
  ghost predicate SlotsNamed(tables: Tables, marks: seq<bool>, leaked: set<nat>) {
    && (forall o :: o in leaked ==> o < |marks| && marks[o])
    && (forall o :: 0 <= o < |marks| && marks[o] ==> o in leaked || InSlot(tables, o))
  }

  /** The marked slots are exactly the leaked ones and those named by one swapped-out entry. */
  ghost predicate SlotsOk(tables: Tables, marks: seq<bool>, leaked: set<nat>) {
    EntriesOwnSlots(tables, marks, leaked) && SlotsDistinct(tables) && SlotsNamed(tables, marks, leaked)
  }

  lemma PutKeepsSlots(tables: Tables, t: Tid, k: nat, p: Pte, o: nat)
    requires Entry(tables, t, k) && InSlot(tables, o) && tables[t][k] != Swapped(o)
    ensures InSlot(Put(tables, t, k, p), o)
  {
    var u :| u in tables && Swapped(o) in tables[u];
    PutKeepsNames(tables, t, k, p, u, Swapped(o));
  }

  /** A slot stays in at most one entry when an entry stops naming one or names one that no entry names. */
  lemma PutKeepsSlotsDistinct(tables: Tables, t: Tid, k: nat, p: Pte)
    requires SlotsDistinct(tables) && Entry(tables, t, k)
    requires p.Swapped? ==> !InSlot(tables, p.slot)
    ensures SlotsDistinct(Put(tables, t, k, p))
  {
    var tables' := Put(tables, t, k, p);
    assert forall u, j :: Entry(tables', u, j) <==> Entry(tables, u, j);
    assert forall u, j :: Entry(tables, u, j) && p.Swapped? ==> tables[u][j] != p;
  }

  lemma MarkSlot(tables: Tables, marks: seq<bool>, leaked: set<nat>, t: Tid, k: nat, o: nat)
    requires SlotsOk(tables, marks, leaked) && o < |marks| && !marks[o]
    requires Entry(tables, t, k) && !tables[t][k].Swapped?
    ensures SlotsOk(Put(tables, t, k, Swapped(o)), marks[o := true], leaked)
  {
    var tables', marks' := Put(tables, t, k, Swapped(o)), marks[o := true];
    forall u | u in tables
      ensures Swapped(o) !in tables[u]
    {
      assert forall j :: 0 <= j < |tables[u]| ==> Entry(tables, u, j);
    }
    PutKeepsSlotsDistinct(tables, t, k, Swapped(o));
    hide SlotsDistinct;
    assert tables'[t][k] == Swapped(o);
    forall q | 0 <= q < |marks'| && marks'[q] && q !in leaked
      ensures InSlot(tables', q)
    {
      if q != o {
        PutKeepsSlots(tables, t, k, Swapped(o), q);
      }
    }
  }

  lemma ClearSlot(tables: Tables, marks: seq<bool>, leaked: set<nat>, t: Tid, k: nat, o: nat, f: nat)
    requires SlotsOk(tables, marks, leaked)
    requires Entry(tables, t, k) && tables[t][k] == Swapped(o)
    ensures o < |marks| && marks[o]
    ensures SlotsOk(Put(tables, t, k, Valid(f)), marks[o := false], leaked)
  {
    var tables', marks' := Put(tables, t, k, Valid(f)), marks[o := false];
    PutKeepsSlotsDistinct(tables, t, k, Valid(f));
    forall q | 0 <= q < |marks'| && marks'[q] && q !in leaked
      ensures InSlot(tables', q)
    {
      PutKeepsSlots(tables, t, k, Valid(f), q);
    }
  }

  lemma AllocateEntry(tables: Tables, marks: seq<bool>, leaked: set<nat>, t: Tid, k: nat, f: nat)
    requires SlotsOk(tables, marks, leaked)
    requires Entry(tables, t, k) && !tables[t][k].Swapped?
    ensures SlotsOk(Put(tables, t, k, Valid(f)), marks, leaked)
  {
    var tables' := Put(tables, t, k, Valid(f));
    PutKeepsSlotsDistinct(tables, t, k, Valid(f));
    hide SlotsDistinct;
    forall q | 0 <= q < |marks| && marks[q] && q !in leaked
      ensures InSlot(tables', q)
    {
      PutKeepsSlots(tables, t, k, Valid(f), q);
    }
  }

  // ---- the invariant ----

  /** A page that the running thread has is accessible exactly when it is resident. */
  ghost predicate WindowOk(table: seq<Pte>, open: seq<bool>) {
    forall j :: 0 <= j < |table| && j < |open| && table[j] != Zero ==> (open[j] <==> table[j].Valid?)
  }

  /** The entries in use are a prefix of the table. */
  ghost predicate Prefix(table: seq<Pte>) {
    forall i, j :: 0 <= i < j < |table| && table[j] != Zero ==> table[i] != Zero
  }

  ghost predicate Untouched(table: seq<Pte>) {
    forall j :: 0 <= j < |table| ==> table[j] == Zero
  }

  ghost predicate InvHole(s: Vm, hole: Option<nat>) {
    && Shape(s)
    && |s.window| <= |s.pfn|
    && FramesOk(s.tables, s.pfn, hole)
    && s.pfnCount == Count(s.pfn, IsUsed)
    && (hole.Some? ==> hole.value < |s.pfn| && s.cur.Some? && s.pfn[hole.value] == Frame(true, s.cur.value))
    && SlotsOk(s.tables, s.marks, s.leaked)
    && s.swapCount == Count(s.marks, IsMarked)
    && (s.cur.Some? ==> WindowOk(s.tables[s.cur.value], s.open))
    && (forall t :: t in s.tables ==> Prefix(s.tables[t]))
    && s.unstarted <= s.tables.Keys
    && (s.cur.Some? ==> s.cur.value !in s.unstarted)
    && (forall t :: t in s.unstarted ==> Untouched(s.tables[t]))
  }

  ghost predicate Inv(s: Vm) { InvHole(s, None) }

  /** Entry `j` of thread `t` reads `p`. */
  ghost predicate Named(s: Vm, t: Tid, j: int, p: Pte) { Entry(s.tables, t, j) && s.tables[t][j] == p }

  /** A frame is in use exactly when a valid entry of a live thread names it; then one entry does, of the frame's
      thread. */
  lemma FrameIsNamedOnce(s: Vm, f: nat)
    requires Inv(s) && f < |s.pfn|
    ensures s.pfn[f].used <==> exists t, j :: Named(s, t, j, Valid(f))
    ensures forall t, j, u, k ::
              Named(s, t, j, Valid(f)) && Named(s, u, k, Valid(f)) ==> t == u == s.pfn[f].thread && j == k
  {
    if s.pfn[f].used {
      var t := s.pfn[f].thread;
      var j :| 0 <= j < |s.tables[t]| && s.tables[t][j] == Valid(f);
      assert Named(s, t, j, Valid(f));
    }
  }

  /** A slot is marked exactly when an exited thread leaked it or a swapped-out entry of a live thread names it, never
      both, and then one entry does. */
  lemma SlotIsNamedOnce(s: Vm, o: nat)
    requires Inv(s) && o < |s.marks|
    ensures s.marks[o] <==> o in s.leaked || exists t, j :: Named(s, t, j, Swapped(o))
    ensures forall t, j :: Named(s, t, j, Swapped(o)) ==> o !in s.leaked
    ensures forall t, j, u, k :: Named(s, t, j, Swapped(o)) && Named(s, u, k, Swapped(o)) ==> t == u && j == k
  {
    if s.marks[o] && o !in s.leaked {
      var t :| t in s.tables && Swapped(o) in s.tables[t];
      var j :| 0 <= j < |s.tables[t]| && s.tables[t][j] == Swapped(o);
      assert Named(s, t, j, Swapped(o));
    }
  }

  // ---- what a page holds ----

  /** The bytes of page `j` of thread `t`, wherever they are; None for a page never allocated. */
  ghost function Content(s: Vm, t: Tid, j: nat): Option<Page>
    requires t in s.tables && j < |s.tables[t]|
  {
    match s.tables[t][j]
    case Zero => None
    case Valid(f) =>
      if s.cur == Some(t) then (if j < |s.window| then Some(s.window[j]) else None)
      else if f < |s.phys| then Some(s.phys[f]) else None
    case Swapped(o) => if o < |s.file| then Some(s.file[o]) else None
  }

  /** Both states hold the same bytes for the same threads. */
  ghost predicate SameContent(s: Vm, s': Vm)
    requires Shape(s) && Shape(s')
  {
    && s'.tables.Keys == s.tables.Keys
    && |s'.window| == |s.window|
    && forall t, j :: t in s.tables && 0 <= j < |s.window| ==> Content(s', t, j) == Content(s, t, j)
  }

  // ---- allocating a frame ----

  lemma ClearSlotExists(s: Vm)
    requires s.swapCount == Count(s.marks, IsMarked)
    ensures s.swapCount <= |s.marks|
    ensures s.swapCount < |s.marks| <==> Find(s.marks, IsClear) < |s.marks|
  {
    CountFull(s.marks, IsMarked);
  }

  /** A table of V entries that names all P >= V frames has no entry to spare. */
  lemma OwningAllFramesFillsTheTable(table: seq<Pte>, frames: nat, j: nat)
    requires forall f :: 0 <= f < frames ==> Valid(f) in table
    requires |table| <= frames && j < |table|
    ensures table[j].Valid?
  {
    if !table[j].Valid? {
      var pages := EntriesNaming(table, frames);
      BoundedCardinality(pages + {j}, |table|);
    }
  }

  /** Distinct frames are named by distinct entries. */
  lemma {:induction false} EntriesNaming(table: seq<Pte>, frames: nat) returns (pages: set<nat>)
    requires forall f :: 0 <= f < frames ==> Valid(f) in table
    ensures |pages| == frames
    ensures forall j :: j in pages ==> j < |table| && table[j].Valid? && table[j].pfn < frames
  {
    if frames == 0 {
      pages := {};
    } else {
      pages := EntriesNaming(table, frames - 1);
      var j: nat :| j < |table| && table[j] == Valid(frames - 1);
      pages := pages + {j};
    }
  }

  /** With all frames in use the running thread cannot own them all, so evict_page finds a foreign frame. */
  lemma EvictionFindsForeignFrame(s: Vm, j: nat)
    requires Inv(s) && Running(s) && s.pfnCount >= |s.pfn|
    requires j < |s.window| && !Table(s)[j].Valid?
    ensures Find(s.pfn, IsForeign(s.cur.value)) < |s.pfn|
  {
    if Find(s.pfn, IsForeign(s.cur.value)) == |s.pfn| {
      CountFull(s.pfn, IsUsed);
      OwningAllFramesFillsTheTable(Table(s), |s.pfn|, j);
    }
  }

  /** What allocating a frame leaves: a hole for the running thread, everything else untouched. */
  ghost predicate GotFrame(s: Vm, s': Vm, f: nat)
    requires Running(s)
  {
    && InvHole(s', Some(f))
    && s'.cur == s.cur && s'.window == s.window && s'.open == s.open
    && s'.unstarted == s.unstarted && s'.leaked == s.leaked
    && |s'.pfn| == |s.pfn| && |s'.marks| == |s.marks|
    && SameContent(s, s')
    && Table(s') == Table(s)
  }

  /** The state after a successful evict_page: frame `i` of thread `t`, its entry `k`, slot `o`. */
  function Evicted(s: Vm, i: nat, t: Tid, k: nat, o: nat): Vm
    requires Running(s) && i < |s.pfn| && o < |s.marks| && t in s.tables && k < |s.tables[t]|
  {
    s.(marks := s.marks[o := true], swapCount := s.swapCount + 1, file := s.file[o := s.phys[i]],
       tables := Put(s.tables, t, k, Swapped(o)), pfn := s.pfn[i := Frame(true, s.cur.value)])
  }

  /** The scans of evict_page find the frame, the one entry that names it, and a clear slot. */
  lemma EvictPageResult(s: Vm, j: nat) returns (i: nat, t: Tid, k: nat, o: nat)
    requires Inv(s) && Running(s) && s.pfnCount >= |s.pfn| && s.swapCount < |s.marks|
    requires j < |s.window| && !Table(s)[j].Valid?
    ensures i < |s.pfn| && s.pfn[i] == Frame(true, t) && t != s.cur.value && Entry(s.tables, t, k)
    ensures s.tables[t][k] == Valid(i) && o < |s.marks| && !s.marks[o]
    ensures EvictPage(s) == Some((Evicted(s, i, t, k, o), i))
  {
    EvictionFindsForeignFrame(s, j);
    ClearSlotExists(s);
    i := Find(s.pfn, IsForeign(s.cur.value));
    o := Find(s.marks, IsClear);
    t := s.pfn[i].thread;
    k := Find(s.tables[t], IsFrame(i));
  }

  lemma EvictedKeepsInv(s: Vm, i: nat, t: Tid, k: nat, o: nat)
    requires Inv(s) && Running(s)
    requires i < |s.pfn| && s.pfn[i] == Frame(true, t) && t != s.cur.value && Entry(s.tables, t, k)
    requires s.tables[t][k] == Valid(i) && o < |s.marks| && !s.marks[o]
    ensures InvHole(Evicted(s, i, t, k, o), Some(i))
  {
    StealFrame(s.tables, s.pfn, t, k, i, Swapped(o), s.cur.value);
    CountUpdate(s.pfn, IsUsed, i, Frame(true, s.cur.value));
    MarkSlot(s.tables, s.marks, s.leaked, t, k, o);
    CountUpdate(s.marks, IsMarked, o, true);
    assert Prefix(Put(s.tables, t, k, Swapped(o))[t]);
    assert t !in s.unstarted;
  }

  /** The evicted page moves from its frame to its slot; no other page is in either. */
  lemma EvictedKeepsContent(s: Vm, i: nat, t: Tid, k: nat, o: nat)
    requires Running(s) && i < |s.pfn| && s.pfn[i] == Frame(true, t) && t != s.cur.value && Entry(s.tables, t, k)
    requires s.tables[t][k] == Valid(i) && o < |s.marks| && !s.marks[o]
    requires EntriesOwnFrames(s.tables, s.pfn, None) && EntriesOwnSlots(s.tables, s.marks, s.leaked)
    requires Shape(Evicted(s, i, t, k, o))
    ensures SameContent(s, Evicted(s, i, t, k, o))
  {
    var s' := Evicted(s, i, t, k, o);
    forall u, j | u in s.tables && 0 <= j < |s.window|
      ensures Content(s', u, j) == Content(s, u, j)
    {
      assert Entry(s.tables, u, j);
      if u == t && j == k {
        assert s'.tables[u][j] == Swapped(o);
      } else {
        assert s'.tables[u][j] == s.tables[u][j];
      }
    }
  }

  lemma TakenKeeps(s: Vm, i: nat)
    requires Inv(s) && Running(s) && i < |s.pfn| && !s.pfn[i].used
    ensures GotFrame(s, s.(pfn := s.pfn[i := Frame(true, s.cur.value)], pfnCount := s.pfnCount + 1), i)
  {
    TakeFreeFrame(s.tables, s.pfn, i, s.cur.value);
    CountUpdate(s.pfn, IsUsed, i, Frame(true, s.cur.value));
  }

  /** allocate_physical_page stops the process exactly when the frames and the swap slots are all taken; otherwise the
      frame it returns is entered in no table and nobody's bytes have changed. */
  lemma AllocateFrameKeeps(s: Vm, j: nat)
    requires Inv(s) && Running(s)
    requires j < |s.window| && !Table(s)[j].Valid?
    ensures AllocateFrame(s).None? <==> s.pfnCount >= |s.pfn| && s.swapCount >= |s.marks|
    ensures AllocateFrame(s).Some? ==> GotFrame(s, AllocateFrame(s).value.0, AllocateFrame(s).value.1)
  {
    if s.pfnCount < |s.pfn| {
      CountFull(s.pfn, IsUsed);
      TakenKeeps(s, Find(s.pfn, IsFree));
    } else if s.swapCount < |s.marks| {
      var i, t, k, o := EvictPageResult(s, j);
      EvictedKeepsInv(s, i, t, k, o);
      EvictedKeepsContent(s, i, t, k, o);
    } else {
      EvictionFindsForeignFrame(s, j);
    }
  }
}
