/** virt.c: the frame table, the physical memory, the window and the page tables, updated in place. */
module VirtualMemories {
  import opened Util
  import opened PteWords
  import opened Paging
  import opened PagingInvariant
  import opened PagingRefinement
  import opened SwapFiles

  type WordTables = map<Tid, seq<Word>>

  /** The words of every page table say what the entries say. */
  ghost predicate Encodes(words: WordTables, ptes: Tables) {
    && words.Keys == ptes.Keys
    && forall t :: t in words ==> |words[t]| == |ptes[t]| && EncodesTable(words[t], ptes[t])
  }

  ghost predicate EncodesTable(words: seq<Word>, ptes: seq<Pte>) {
    |words| == |ptes| && forall j :: 0 <= j < |ptes| ==> Representable(ptes[j]) && words[j] == WordOf(ptes[j])
  }

  lemma EncodesPut(words: WordTables, ptes: Tables, t: Tid, k: nat, w: Word, p: Pte)
    requires Encodes(words, ptes) && t in ptes && k < |ptes[t]| && Representable(p) && w == WordOf(p)
    ensures Encodes(words[t := words[t][k := w]], Put(ptes, t, k, p))
  {
  }

  lemma EncodesRemove(words: WordTables, ptes: Tables, t: Tid)
    requires Encodes(words, ptes)
    ensures Encodes(words - {t}, ptes - {t})
  {
  }

  lemma EncodesNewTable(words: WordTables, ptes: Tables, t: Tid, v: nat)
    requires Encodes(words, ptes)
    ensures Encodes(words[t := seq(v, _ => ZERO_WORD)], ptes[t := ZeroTable(v)])
  {
  }

  class VirtualMemory {
    var cur: Option<Tid>           // CURRENT
    var tables: WordTables         // the pagetables field of every live thread
    var unstarted: set<Tid>
    const pfn: array<Frame>        // g_pfn
    var pfnCount: int              // g_pfn_count
    const phys: array<Page>        // g_physical_memory
    const window: array<Page>      // the virtual heap
    const open: array<bool>        // its protection
    const swap: SwapFile
    ghost var ptes: Tables
    ghost var leaked: set<nat>

    ghost function Repr(): set<object> {
      {this, pfn, phys, window, open, swap, swap.marks, swap.file}
    }

    /** The objects are laid out apart, the words encode the entries, and the numbers fit the bit fields. */
    ghost predicate Valid()
      reads Repr()
    {
      && phys != window && phys != swap.file && window != swap.file && open != swap.marks
      && swap.Valid()
      && pfn.Length <= FRAME_LIMIT && swap.marks.Length <= SLOT_LIMIT
      && Shape(State())
      && Encodes(tables, ptes)
    }

    ghost function State(): Vm
      reads Repr()
    {
      Vm(cur, ptes, unstarted, pfn[..], pfnCount, phys[..], swap.marks[..], swap.count, swap.file[..],
         window[..], open[..], leaked)
    }

    /** mm_init, run by the main thread: the whole window is mapped accessible and full of zeros. */
    constructor (v: nat, p: nat, n: nat, main: Tid)
      requires p <= FRAME_LIMIT && n <= SLOT_LIMIT
      ensures Valid() && fresh(Repr()) && State() == Init(v, p, n, main)
    {
      cur := Some(main);
      tables := map[main := seq(v, _ => ZERO_WORD)];
      unstarted := {};
      pfn := new Frame[p](_ => Frame(false, main));
      pfnCount := 0;
      phys := new Page[p](_ => ZeroPage());
      window := new Page[v](_ => ZeroPage());
      open := new bool[v](_ => true);
      swap := new SwapFile(n);
      ptes := map[main := ZeroTable(v)];
      leaked := {};
      new;
      InitialTables(v, p, n, main);
      hide Encodes, Shape;
      assert pfn[..] == seq(p, _ => Frame(false, main));
      assert phys[..] == seq(p, _ => ZeroPage());
      assert window[..] == seq(v, _ => ZeroPage());
      assert open[..] == seq(v, _ => true);
      assert State() == Paging.Init(v, p, n, main);
    }

    /** The outer scan of evict_page. */
    method ScanForeign() returns (i: nat)
      requires cur.Some?
      ensures i == Find(pfn[..], IsForeign(cur.value))
    {
      i := 0;
      while i < pfn.Length
        invariant i <= pfn.Length
        invariant forall m :: 0 <= m < i ==> !(pfn[m].used && pfn[m].thread != cur.value)
      {
        if pfn[i].used && pfn[i].thread != cur.value {
          break;
        }
        i := i + 1;
      }
      FindIs(pfn[..], IsForeign(cur.value), i);
    }

    /** The inner scan of evict_page, over the table of thread `t`. */
    method ScanEntry(t: Tid, i: nat) returns (k: nat)
      requires Valid() && t in tables
      ensures k == Find(ptes[t], IsFrame(i))
    {
      k := 0;
      while k < |tables[t]|
        invariant k <= |ptes[t]|
        invariant forall m :: 0 <= m < k ==> ptes[t][m] != Pte.Valid(i)
      {
        DecodedFields(ptes[t][k]);
        if tables[t][k].GetValid() == 1 && tables[t][k].GetFrame() == i {
          break;
        }
        k := k + 1;
      }
      FindIs(ptes[t], IsFrame(i), k);
    }

    /** The scan of allocate_physical_page. */
    method ScanUnused() returns (i: nat)
      ensures i == Find(pfn[..], IsFree)
    {
      i := 0;
      while i < pfn.Length
        invariant i <= pfn.Length
        invariant forall m :: 0 <= m < i ==> pfn[m].used
      {
        if !pfn[i].used {
          break;
        }
        i := i + 1;
      }
      FindIs(pfn[..], IsFree, i);
    }

    method EntryIsZero(j: nat) returns (zero: bool)
      requires Valid() && cur.Some? && j < window.Length
      ensures zero <==> ptes[cur.value][j] == Zero
    {
      ZeroWord(ptes[cur.value][j]);
      zero := tables[cur.value][j].Long() == 0;
    }

    /** The scan of mm_allocate_page. */
    method ScanZero() returns (j: nat)
      requires Valid() && cur.Some?
      ensures j == Find(ptes[cur.value], IsZero)
    {
      j := 0;
      while j < window.Length
        invariant j <= window.Length
        invariant forall m :: 0 <= m < j ==> ptes[cur.value][m] != Zero
      {
        var zero := EntryIsZero(j);
        if zero {
          break;
        }
        j := j + 1;
      }
      FindIs(ptes[cur.value], IsZero, j);
    }

    /** The inner scan of evict_page and its stores. */
    method Displace(i: nat, offset: nat)
      requires Valid() && cur.Some? && i < pfn.Length && pfn[i].used
      requires offset % 0x1000 == 0 && offset / 0x1000 < SLOT_LIMIT
      modifies this`tables, this`ptes, pfn
      ensures Valid() && State() == Paging.Displace(old(State()), i, offset / 0x1000)
    {
      var t := pfn[i].thread;
      var k := ScanEntry(t, i);
      if k < |tables[t]| {
        ghost var o := offset / 0x1000;
        TransitionsKeepWords(i, o);
        EncodesPut(tables, ptes, t, k, EvictStores(tables[t][k], offset), Swapped(o));
        tables := tables[t := tables[t][k := EvictStores(tables[t][k], offset)]];
        ptes := Put(ptes, t, k, Swapped(o));
        pfn[i] := Frame(true, cur.value);
      }
    }

    /** evict_page; None when the swap file is full and the process stops. With no frame of another thread it
        returns the number of frames. */
    method EvictPage() returns (r: Option<nat>)
      requires Valid() && cur.Some?
      modifies Repr()
      ensures match Paging.EvictPage(old(State()))
              case None => r.None?
              case Some((s, i)) => r == Some(i) && Valid() && State() == s
    {
      hide Encodes;
      var i := ScanForeign();
      if i == pfn.Length {
        return Some(i);
      }
      var offset := SwapFrameOut(i);
      if offset.None? {
        return None;
      }
      Displace(i, offset.value);
      return Some(i);
    }

    /** The call of swap_out for frame `i`. */
    method SwapFrameOut(i: nat) returns (offset: Option<nat>)
      requires Valid() && i < phys.Length
      modifies swap, swap.marks, swap.file
      ensures match Paging.SwapOut(old(State()), phys[i])
              case None => offset.None?
              case Some((s, slot)) => offset == Some(slot * 0x1000) && slot < SLOT_LIMIT && Valid() && State() == s
    {
      CountFull(swap.marks[..], IsMarked);
      offset := swap.SwapOut(phys[i]);
    }

    /** allocate_physical_page, called while page `j` of CURRENT is not resident. */
    method AllocateFrame(ghost j: nat) returns (r: Option<nat>)
      requires Valid() && Inv(State()) && cur.Some? && j < window.Length && !Table(State())[j].Valid?
      modifies Repr()
      ensures match Paging.AllocateFrame(old(State()))
              case None => r.None?
              case Some((s, i)) => r == Some(i) && Valid() && State() == s
    {
      hide Encodes, FramesOk, SlotsOk;
      if pfnCount >= pfn.Length {
        EvictionFindsForeignFrame(State(), j);
        r := EvictPage();
        return;
      }
      CountFull(pfn[..], IsUsed);
      var i := ScanUnused();
      assert i < pfn.Length;
      pfn[i] := Frame(true, cur.value);
      pfnCount := pfnCount + 1;
      return Some(i);
    }

    /** Storing the word of a resident page in CURRENT's table and opening the page. */
    method EnterPage(j: nat, f: nat, w: Word)
      requires Valid() && cur.Some? && j < window.Length && f < FRAME_LIMIT && w == WordOf(Pte.Valid(f))
      modifies this`tables, this`ptes, open
      ensures Valid() && State() == Map(old(State()), j, f)
    {
      EncodesPut(tables, ptes, cur.value, j, w, Pte.Valid(f));
      tables := tables[cur.value := tables[cur.value][j := w]];
      ptes := Put(ptes, cur.value, j, Pte.Valid(f));
      open[j] := true;
    }

    /** The stores of mm_allocate_page once it has a frame. */
    method GivePage(j: nat, f: nat)
      requires Valid() && cur.Some? && j < window.Length && f < FRAME_LIMIT && ptes[cur.value][j] == Zero
      modifies this`tables, this`ptes, open, window
      ensures Valid() && State() == Clear(Map(old(State()), j, f), j)
    {
      TransitionsKeepWords(f, 0);
      EnterPage(j, f, AllocateStores(tables[cur.value][j], f));
      window[j] := ZeroPage();
    }

    /** mm_allocate_page: None when the process stops, Some(None) for NULL, else the page whose address is returned. */
    method AllocatePage() returns (r: Option<Option<nat>>)
      requires Valid() && Inv(State()) && cur.Some?
      modifies Repr()
      ensures match Paging.AllocatePage(old(State()))
              case None => r.None?
              case Some((s, page)) => r == Some(page) && Valid() && State() == s
    {
      var j := ScanZero();
      if j == window.Length {
        return Some(None);
      }
      AllocateFrameKeeps(State(), j);
      var f := AllocateFrame(j);
      if f.None? {
        return None;
      }
      GivePage(j, f.value);
      return Some(Some(j));
    }

    /** The file offset in the word of a swapped-out page. */
    method OffsetOf(j: nat) returns (offset: nat)
      requires Valid() && cur.Some? && j < window.Length && Table(State())[j].Swapped?
      ensures offset == Table(State())[j].slot * 0x1000
    {
      DecodedFields(ptes[cur.value][j]);
      offset := tables[cur.value][j].GetFilePos();
    }

    /** The stores of pagefault_handler once it has a frame, and the call of swap_in, whose slot is a marked one. */
    method SwapPageIn(j: nat, f: nat)
      requires Valid() && cur.Some? && j < window.Length
      requires InvHole(State(), Some(f)) && Table(State())[j].Swapped?
      modifies Repr()
      ensures Valid() && Paging.SwapPageIn(old(State()), j, f) == Done(State())
    {
      hide InvHole, Encodes;
      SwapPageInIsDone(State(), j, f);
      var offset := OffsetOf(j);
      TransitionsKeepWords(f, 0);
      EnterPage(j, f, SwapInStores(f));
      swap.SwapIn(offset, window, j);
    }

    /** pagefault_handler for byte `off` of page `j` of the heap. */
    method HandleFault(j: nat, off: nat) returns (r: Handled)
      requires Valid() && Inv(State()) && cur.Some? && j < window.Length
      modifies Repr()
      ensures match Fault(old(State()), j, off)
              case Panic => r == Panicked
              case Segv => r == Killed && Valid() && State() == old(State())
              case Done(s) => r == Resumed && Valid() && State() == s
    {
      if j * 0x1000 + off >= window.Length * 0x1000 - 1 {
        return Killed;
      }
      DecodedFields(ptes[cur.value][j]);
      if tables[cur.value][j].GetValid() == 1 {
        return Panicked;
      }
      if tables[cur.value][j].GetSwapout() != 1 {
        return Killed;
      }
      AllocateFrameKeeps(State(), j);
      hide InvHole, Inv;
      var f := AllocateFrame(j);
      if f.None? {
        return Panicked;
      }
      SwapPageIn(j, f.value);
      return Resumed;
    }

    /** A user store to byte `off` of page `j` of the window. */
    method StoreByte(j: nat, off: nat, b: byte)
      requires Valid() && j < window.Length && off < 0x1000
      modifies window
      ensures Valid() && State() == old(State()).(window := old(State().window)[j := WithByte(old(window[j]), off, b)])
    {
      window[j] := WithByte(window[j], off, b);
    }

    /** mm_store_virtual_pages_back */
    method StoreVirtualPagesBack()
      requires Valid() && cur.Some?
      modifies phys
      ensures Valid() && State() == StoreBack(old(State()))
    {
      TablesFit(State(), tables);
      hide Encodes, Shape;
      var i := 0;
      while i < window.Length
        invariant 0 <= i <= window.Length
        invariant phys[..] == StoredBack(ptes[cur.value], window[..], old(phys[..]), i)
      {
        EncodedEntry(tables, ptes, cur.value, i);
        if tables[cur.value][i].GetValid() == 1 {
          var f := tables[cur.value][i].GetFrame();
          if f < phys.Length {
            phys[f] := window[i];
          }
        }
        i := i + 1;
      }
    }

    /** mm_switch_virtual_pages */
    method SwitchVirtualPages()
      requires Valid() && cur.Some?
      modifies window, open
      ensures Valid() && State() == SwitchPages(old(State()))
    {
      var i := 0;
      while i < window.Length
        invariant 0 <= i <= window.Length
        invariant forall j :: 0 <= j < i ==>
          && window[j] == LoadedWindow(ptes[cur.value], old(window[..]), phys[..])[j]
          && open[j] == ResidentPages(ptes[cur.value])[j]
        invariant forall j :: i <= j < window.Length ==> window[j] == old(window[j]) && open[j] == old(open[j])
      {
        RoundTrip(ptes[cur.value][i]);
        DecodedFields(ptes[cur.value][i]);
        if tables[cur.value][i].GetValid() == 1 {
          var f := tables[cur.value][i].GetFrame();
          open[i] := true;
          if f < phys.Length {
            window[i] := phys[f];
          }
        } else {
          open[i] := false;
        }
        i := i + 1;
      }
      assert window[..] == LoadedWindow(ptes[cur.value], old(window[..]), phys[..]);
      assert open[..] == ResidentPages(ptes[cur.value]);
    }

    /** The paging half of schedule: CURRENT's pages are stored back, and the next thread resumes inside schedule, where
        it loads its own, or at the entry of thread_stub, where it does not. */
    method SwitchTo(t: Tid)
      requires Valid() && Inv(State()) && cur.Some? && t in tables
      modifies this`cur, this`unstarted, phys, window, open
      ensures Valid() && State() == Paging.Switch(old(State()), t)
    {
      StoreVirtualPagesBack();
      var first := t in unstarted;
      cur := Some(t);
      unstarted := unstarted - {t};
      if !first {
        SwitchVirtualPages();
      }
    }

    /** The dispatch after an exit, when there is no CURRENT to store back. */
    method DispatchTo(t: Tid)
      requires Valid() && cur.None? && t in tables
      modifies this`cur, this`unstarted, window, open
      ensures Valid() && State() == Resume(old(State()), t)
    {
      var first := t in unstarted;
      cur := Some(t);
      unstarted := unstarted - {t};
      if !first {
        SwitchVirtualPages();
      }
    }

    /** The paging half of my_pthread_create: the new control block is zeroed. */
    method CreateThread(t: Tid)
      requires Valid() && t !in tables
      modifies this`tables, this`ptes, this`unstarted
      ensures Valid() && State() == Paging.Create(old(State()), t)
    {
      tables := tables[t := seq(window.Length, _ => ZERO_WORD)];
      ptes := ptes[t := ZeroTable(window.Length)];
      unstarted := unstarted + {t};
    }

    /** free_physical_page */
    method FreePhysicalPage(f: nat)
      modifies this`pfnCount, pfn
      ensures (pfn[..], pfnCount) == FreeFrame(old(pfn[..]), old(pfnCount), f)
    {
      if f >= pfn.Length {
        return;
      }
      if !pfn[f].used {
        return;
      }
      pfn[f] := pfn[f].(used := false);
      pfnCount := pfnCount - 1;
    }

    /** free_thread_pages(CURRENT): the resident entries are freed and zeroed, the swapped-out ones stay. */
    method FreeThreadPages()
      requires Valid() && cur.Some?
      modifies this`tables, this`ptes, this`pfnCount, pfn
      ensures Encodes(tables, ptes)
      ensures (pfn[..], pfnCount) == FreedFrames(old(ptes[cur.value]), old(pfn[..]), old(pfnCount), window.Length)
      ensures ptes == old(ptes)[cur.value := WithoutResident(old(ptes[cur.value]), window.Length)]
    {
      ghost var table := ptes[cur.value];
      ghost var others := ptes;
      assert ptes == others[cur.value := WithoutResident(table, 0)];
      var i := 0;
      while i < window.Length
        invariant 0 <= i <= window.Length == |table|
        invariant Encodes(tables, ptes) && cur.value in others
        invariant (pfn[..], pfnCount) == FreedFrames(table, old(pfn[..]), old(pfnCount), i)
        invariant ptes == others[cur.value := WithoutResident(table, i)]
      {
        assert ptes[cur.value][i] == table[i];
        DecodedFields(table[i]);
        if tables[cur.value][i].GetValid() == 1 {
          FreePhysicalPage(tables[cur.value][i].GetFrame());
          EncodesPut(tables, ptes, cur.value, i, ZERO_WORD, Zero);
          tables := tables[cur.value := tables[cur.value][i := ZERO_WORD]];
          ptes := Put(ptes, cur.value, i, Zero);
        }
        WithoutResidentStep(table, i);
        i := i + 1;
      }
    }

    /** The paging half of thread_stub's end and of my_pthread_exit: the pages are freed, then the control block. */
    method ExitThread()
      requires Valid() && Inv(State()) && cur.Some?
      modifies this, pfn
      ensures Valid() && State() == Paging.Exit(old(State()))
    {
      ExitKeepsFrames(State());
      DropThread();
    }

    method DropThread()
      requires Valid() && cur.Some? && Shape(Paging.Exit(State()))
      modifies this, pfn
      ensures Valid() && State() == Paging.Exit(old(State()))
    {
      ghost var table := ptes[cur.value];
      hide Encodes, Shape, FreedFrames, WithoutResident;
      FreeThreadPages();
      RemoveTable(table);
      assert ptes == old(ptes) - {old(cur.value)};
    }

    /** The release of CURRENT's control block: the slots that its entries still name are out of reach. */
    method RemoveTable(ghost table: seq<Pte>)
      requires Encodes(tables, ptes) && cur.Some?
      modifies this`tables, this`ptes, this`leaked, this`cur
      ensures Encodes(tables, ptes) && ptes == old(ptes) - {old(cur.value)}
      ensures cur == None && leaked == old(leaked) + SwappedSlots(table)
    {
      EncodesRemove(tables, ptes, cur.value);
      leaked := leaked + SwappedSlots(table);
      tables := tables - {cur.value};
      ptes := ptes - {cur.value};
      cur := None;
    }
  }

  lemma SwapPageInIsDone(s: Vm, j: nat, f: nat)
    requires Running(s) && InvHole(s, Some(f)) && j < |s.window| && Table(s)[j].Swapped?
    ensures Paging.SwapPageIn(s, j, f).Done? && f < |s.pfn|
  {
    SwapPageInKeepsInv(s, j, f);
  }

  lemma InitialTables(v: nat, p: nat, n: nat, main: Tid)
    ensures Shape(Paging.Init(v, p, n, main))
    ensures Encodes(map[main := seq(v, _ => ZERO_WORD)], map[main := ZeroTable(v)])
  {
    EncodesNewTable(map[], map[], main, v);
  }

  /** A table whose first `n` entries have been through free_thread_pages. */
  ghost function WithoutResident(table: seq<Pte>, n: nat): (r: seq<Pte>)
    ensures |r| == |table|
    ensures n == 0 ==> r == table
  {
    seq(|table|, j requires 0 <= j < |table| => if j < n && table[j].Valid? then Zero else table[j])
  }

  lemma WithoutResidentStep(table: seq<Pte>, n: nat)
    requires n < |table|
    ensures WithoutResident(table, n + 1) ==
            if table[n].Valid? then WithoutResident(table, n)[n := Zero] else WithoutResident(table, n)
  {
  }

  datatype Handled = Resumed | Panicked | Killed

  lemma ZeroWord(p: Pte)
    requires Representable(p)
    ensures WordOf(p).Long() == 0 <==> p.Zero?
  {
    RoundTrip(p);
  }

  lemma TablesFit(s: Vm, words: WordTables)
    requires Shape(s) && s.cur.Some? && Encodes(words, s.tables)
    ensures s.cur.value in s.tables && s.cur.value in words
    ensures |s.tables[s.cur.value]| == |words[s.cur.value]| == |s.window|
    ensures forall phys: seq<Page> :: |phys| == |s.phys| ==> Shape(s.(phys := phys))
  {
  }

  lemma EncodedEntry(words: WordTables, ptes: Tables, t: Tid, i: nat)
    requires Encodes(words, ptes) && t in ptes && i < |ptes[t]|
    ensures t in words && i < |words[t]|
    ensures words[t][i].GetValid() == 1 <==> ptes[t][i].Valid?
    ensures ptes[t][i].Valid? ==> words[t][i].GetFrame() == ptes[t][i].pfn
  {
    DecodedFields(ptes[t][i]);
  }

  /** What the handler and the scans read off a word. */
  lemma DecodedFields(p: Pte)
    requires Representable(p)
    ensures WordOf(p).GetValid() == 1 <==> p.Valid?
    ensures p.Valid? ==> WordOf(p).GetFrame() == p.pfn
    ensures WordOf(p).GetSwapout() == 1 <==> p.Swapped?
    ensures p.Swapped? ==> WordOf(p).GetFilePos() == p.slot * 0x1000
  {
  }
}
