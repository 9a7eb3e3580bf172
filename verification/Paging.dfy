/** The paging state of virt.c and swap.c as a value, and what each kernel routine makes of it.

    The sizes are symbolic: V = |window| pages of a thread, P = |pfn| frames, S = |marks| swap slots.
    `None` as the result of a routine is a stop of the process (panic or a failed assert). */
module Paging {
  import opened Util
  import opened PteWords

  newtype byte = b: int | 0 <= b < 256

  type Page = p: seq<byte> | |p| == 0x1000 witness seq(0x1000, _ => 0)
  function ZeroPage(): Page { seq(0x1000, _ => 0) }

  /** A page with one byte stored. */
  function WithByte(page: Page, off: nat, b: byte): (r: Page)
    requires off < 0x1000
  {
    page[off := b]
  }

  /** pfn_t */
  datatype Frame = Frame(used: bool, thread: Tid)

  datatype Vm = Vm(
    cur: Option<Tid>,             // CURRENT
    tables: map<Tid, seq<Pte>>,   // the page table of every live thread
    unstarted: set<Tid>,          // threads whose saved context is still the entry of thread_stub
    pfn: seq<Frame>,              // g_pfn
    pfnCount: int,                // g_pfn_count
    phys: seq<Page>,              // g_physical_memory
    marks: seq<bool>,             // g_swap
    swapCount: int,               // g_swap_count
    file: seq<Page>,              // the swap file
    window: seq<Page>,            // the virtual heap
    open: seq<bool>,              // which pages of the window mprotect leaves accessible
    leaked: set<nat>              // slots of exited threads (history, not in the program)
  )

  const IsUsed: Frame -> bool := (f: Frame) => f.used
  const IsFree: Frame -> bool := (f: Frame) => !f.used
  const IsZero: Pte -> bool := (p: Pte) => p == Zero

  function IsForeign(t: Tid): Frame -> bool { (f: Frame) => f.used && f.thread != t }
  function IsFrame(i: nat): Pte -> bool { (p: Pte) => p == Valid(i) }

  /** What the routines need in order to index the tables at all. */
  ghost predicate Shape(s: Vm) {
    && |s.phys| == |s.pfn|
    && |s.file| == |s.marks|
    && |s.open| == |s.window|
    && (forall t :: t in s.tables ==> |s.tables[t]| == |s.window|)
    && (forall f :: 0 <= f < |s.pfn| && s.pfn[f].used ==> s.pfn[f].thread in s.tables)
    && (s.cur.Some? ==> s.cur.value in s.tables)
  }

  ghost predicate Running(s: Vm) { Shape(s) && s.cur.Some? }

  function Table(s: Vm): (table: seq<Pte>)
    requires Running(s)
  {
    s.tables[s.cur.value]
  }

  function SetPte(s: Vm, j: nat, p: Pte): (s': Vm)
    requires Running(s) && j < |s.window|
    ensures Running(s')
  {
    s.(tables := s.tables[s.cur.value := Table(s)[j := p]])
  }

  // ---- swap.c ----

  /** swap_out: the page goes to the first clear slot. */
  function SwapOut(s: Vm, page: Page): (r: Option<(Vm, nat)>)
    requires |s.file| == |s.marks|
  {
    if s.swapCount >= |s.marks| then None
    else
      var i := Find(s.marks, IsClear);
      if i == |s.marks| then None
      else Some((s.(marks := s.marks[i := true], swapCount := s.swapCount + 1, file := s.file[i := page]), i))
  }

  /** swap_in: the slot is read into page `j` of the window and cleared. */
  function SwapIn(s: Vm, slot: nat, j: nat): (r: Option<Vm>)
    requires |s.file| == |s.marks| && j < |s.window|
  {
    if slot >= |s.marks| || !s.marks[slot] then None
    else Some(s.(marks := s.marks[slot := false], swapCount := s.swapCount - 1,
                 window := s.window[j := s.file[slot]]))
  }

  // ---- virt.c ----

  /** The inner scan of evict_page: the owner's entry for frame `i` now names `slot`, and the frame is CURRENT's. */
  function Displace(s: Vm, i: nat, slot: nat): (s': Vm)
    requires Running(s) && i < |s.pfn| && s.pfn[i].used
    ensures Running(s') && s'.cur == s.cur && s'.window == s.window
  {
    var t := s.pfn[i].thread;
    var j := Find(s.tables[t], IsFrame(i));
    if j == |s.tables[t]| then s
    else
      var table := s.tables[t][j := Swapped(slot)];
      s.(tables := s.tables[t := table], pfn := s.pfn[i := Frame(true, s.cur.value)])
  }

  /** evict_page: the first used frame of another thread is written to the swap file and given to CURRENT. The frame
      number returned is P when there is no such frame. */
  function EvictPage(s: Vm): (r: Option<(Vm, nat)>)
    requires Running(s)
    ensures r.Some? ==> Running(r.value.0) && r.value.0.cur == s.cur && |r.value.0.window| == |s.window|
  {
    var i := Find(s.pfn, IsForeign(s.cur.value));
    if i == |s.pfn| then Some((s, i))
    else
      match SwapOut(s, s.phys[i])
      case None => None
      case Some((s1, slot)) => Some((Displace(s1, i, slot), i))
  }

  /** allocate_physical_page */
  function AllocateFrame(s: Vm): (r: Option<(Vm, nat)>)
    requires Running(s)
    ensures r.Some? ==> Running(r.value.0) && r.value.0.cur == s.cur && |r.value.0.window| == |s.window|
  {
    if s.pfnCount >= |s.pfn| then EvictPage(s)
    else
      var i := Find(s.pfn, IsFree);
      if i == |s.pfn| then None
      else Some((s.(pfn := s.pfn[i := Frame(true, s.cur.value)], pfnCount := s.pfnCount + 1), i))
  }

  /** Frame `f` is entered in CURRENT's table for page `j`, and the page becomes accessible. */
  function Map(s: Vm, j: nat, f: nat): (s': Vm)
    requires Running(s) && j < |s.window|
    ensures Running(s') && |s'.window| == |s.window|
  {
    SetPte(s, j, Valid(f)).(open := s.open[j := true])
  }

  /** The page handed out by mm_allocate_page is filled with zeros. */
  function Clear(s: Vm, j: nat): (s': Vm)
    requires j < |s.window|
  {
    s.(window := s.window[j := ZeroPage()])
  }

  /** mm_allocate_page; the second result is the page number, None for NULL. */
  function AllocatePage(s: Vm): (r: Option<(Vm, Option<nat>)>)
    requires Running(s)
  {
    var j := Find(Table(s), IsZero);
    if j == |Table(s)| then Some((s, None))
    else
      match AllocateFrame(s)
      case None => None
      case Some((s1, f)) => Some((Clear(Map(s1, j, f), j), Some(j)))
  }

  datatype Outcome = Done(vm: Vm) | Panic | Segv

  /** The swap-in half of pagefault_handler, with frame `f` allocated. */
  function SwapPageIn(s: Vm, j: nat, f: nat): (r: Outcome)
    requires Running(s) && j < |s.window|
  {
    var p := Table(s)[j];
    if !p.Swapped? then Panic
    else
      match SwapIn(Map(s, j, f), p.slot, j)
      case None => Panic
      case Some(s1) => Done(s1)
  }

  /** The address check of pagefault_handler for byte `off` of page `j`. It is `< VIRTUAL_HEAP_END`, and that
      constant is the address of the last byte of the heap, so the last byte counts as an address outside. */
  predicate BelowHeapEnd(v: nat, j: nat, off: nat) { j * 0x1000 + off < v * 0x1000 - 1 }

  /** pagefault_handler for byte `off` of page `j`. */
  function Fault(s: Vm, j: nat, off: nat): (r: Outcome)
    requires Running(s) && j < |s.window|
  {
    if !BelowHeapEnd(|s.window|, j, off) then Segv
    else if Table(s)[j].Valid? then Panic
    else if Table(s)[j].Zero? then Segv
    else
      match AllocateFrame(s)
      case None => Panic
      case Some((s1, f)) => SwapPageIn(s1, j, f)
  }

  /** A user access to byte `off` of page `j`: straight through when the page is accessible, else through the
      handler. */
  function Touch(s: Vm, j: nat, off: nat): (r: Outcome)
    requires Running(s) && j < |s.window|
  {
    if s.open[j] then Done(s) else Fault(s, j, off)
  }

  /** The first `n` rounds of mm_store_virtual_pages_back. */
  function StoredBack(table: seq<Pte>, window: seq<Page>, phys: seq<Page>, n: nat): (r: seq<Page>)
    requires n <= |table| <= |window|
    ensures |r| == |phys|
  {
    if n == 0 then phys
    else
      var r := StoredBack(table, window, phys, n - 1);
      if table[n - 1].Valid? && table[n - 1].pfn < |r| then r[table[n - 1].pfn := window[n - 1]] else r
  }

  function StoreBack(s: Vm): (s': Vm)
    requires Running(s)
  {
    s.(phys := StoredBack(Table(s), s.window, s.phys, |s.window|))
  }

  /** The window after mm_switch_virtual_pages: resident pages are copied in, the others keep their old bytes. */
  function LoadedWindow(table: seq<Pte>, window: seq<Page>, phys: seq<Page>): (r: seq<Page>)
    requires |table| == |window|
    ensures |r| == |window|
  {
    seq(|window|, j requires 0 <= j < |window| =>
      if table[j].Valid? && table[j].pfn < |phys| then phys[table[j].pfn] else window[j])
  }

  /** The pages that mm_switch_virtual_pages leaves accessible. */
  function ResidentPages(table: seq<Pte>): (r: seq<bool>)
    ensures |r| == |table|
  {
    seq(|table|, j requires 0 <= j < |table| => table[j].Valid?)
  }

  /** mm_switch_virtual_pages */
  function SwitchPages(s: Vm): (s': Vm)
    requires Running(s)
  {
    s.(window := LoadedWindow(Table(s), s.window, s.phys), open := ResidentPages(Table(s)))
  }

  /** A saved context is resumed: a switched-out thread comes back inside schedule and runs mm_switch_virtual_pages,
      an unstarted one begins in thread_stub, which does not. */
  function Resume(s: Vm, t: Tid): (s': Vm)
    requires Shape(s) && t in s.tables
  {
    var s1 := s.(cur := Some(t), unstarted := s.unstarted - {t});
    if t in s.unstarted then s1 else SwitchPages(s1)
  }

  /** The paging side of schedule and schedule_swap_current_to_wait when they pick thread `t`. */
  function Switch(s: Vm, t: Tid): (s': Vm)
    requires Running(s) && t in s.tables
  {
    Resume(StoreBack(s), t)
  }

  function ZeroTable(v: nat): seq<Pte> { seq(v, _ => Zero) }

  /** The paging side of my_pthread_create. */
  function Create(s: Vm, t: Tid): (s': Vm)
    requires Shape(s)
  {
    s.(tables := s.tables[t := ZeroTable(|s.window|)], unstarted := s.unstarted + {t})
  }

  /** free_physical_page */
  function FreeFrame(pfn: seq<Frame>, count: int, f: nat): (r: (seq<Frame>, int))
    ensures |r.0| == |pfn|
  {
    if f >= |pfn| || !pfn[f].used then (pfn, count) else (pfn[f := pfn[f].(used := false)], count - 1)
  }

  /** The first `n` rounds of free_thread_pages on the frames. */
  function FreedFrames(table: seq<Pte>, pfn: seq<Frame>, count: int, n: nat): (r: (seq<Frame>, int))
    requires n <= |table|
    ensures |r.0| == |pfn| && r.1 <= count
  {
    if n == 0 then (pfn, count)
    else
      var (p, c) := FreedFrames(table, pfn, count, n - 1);
      if table[n - 1].Valid? then FreeFrame(p, c, table[n - 1].pfn) else (p, c)
  }

  function SwappedSlots(table: seq<Pte>): set<nat> {
    set j | 0 <= j < |table| && table[j].Swapped? :: table[j].slot
  }

  /** The paging side of thread_stub's exit and of my_pthread_exit: the control block is freed, so its swapped-out
      entries are forgotten while their slots stay marked. */
  function Exit(s: Vm): (s': Vm)
    requires Running(s)
  {
    var (p, c) := FreedFrames(Table(s), s.pfn, s.pfnCount, |Table(s)|);
    s.(cur := None, tables := s.tables - {s.cur.value}, pfn := p, pfnCount := c,
       leaked := s.leaked + SwappedSlots(Table(s)))
  }

  /** The state after mm_init with the main thread running. */
  function Init(v: nat, p: nat, s: nat, main: Tid): (vm: Vm) {
    Vm(Some(main), map[main := ZeroTable(v)], {}, seq(p, _ => Frame(false, main)), 0, seq(p, _ => ZeroPage()),
       seq(s, _ => false), 0, seq(s, _ => ZeroPage()), seq(v, _ => ZeroPage()), seq(v, _ => true), {})
  }
}
