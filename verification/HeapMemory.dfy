/** my_malloc and my_free as what they do to the private memory of a thread: the pages they ask for and the loads and
    stores in the metadata page. */
module HeapMemory {
  import opened Util
  import P = Paging
  import PR = PagingRefinement
  import R = PagingRuns
  import H = Heaps
  import HP = HeapProofs
  import HB = HeapBytes

  type Memory = seq<Option<P.Page>>

  /** heap_init and heap_trunk_count of a thread. */
  datatype Control = Control(init: bool, trunks: nat)

  /** The pages that an allocator uses: one for the metadata and one per trunk. */
  function HeapPages(c: Control): nat { if c.init then c.trunks + 1 else 0 }

  /** The pages in use are exactly the first `n`. */
  ghost predicate UsesFirst(m: Memory, n: nat) {
    n <= |m| && forall j :: 0 <= j < |m| ==> (m[j].Some? <==> j < n)
  }

  /** The heap that the bytes of the first page say. */
  function HeapOf(c: Control, m: Memory): (h: H.Heap)
    ensures h.init == c.init && h.trunks == c.trunks && |h.records| == H.MAX_TRUNKS
    ensures c.trunks <= H.MAX_TRUNKS ==> H.Records(h)
  {
    H.Heap(c.init, c.trunks, if |m| > 0 && m[0].Some? then HB.Decode(m[0].value) else H.NewHeap().records)
  }

  /** The pages in use are the heap's, and the bytes of the first are its records. */
  ghost predicate Owns(c: Control, m: Memory) {
    && UsesFirst(m, HeapPages(c)) && H.Inv(HeapOf(c, m))
    && (|m| > 0 && m[0].Some? ==> HB.Clean(m[0].value))
  }

  lemma NewOwnsNothing(v: nat)
    ensures Owns(Control(false, 0), seq(v, _ => None)) && HeapOf(Control(false, 0), seq(v, _ => None)) == H.NewHeap()
  {
    HP.NewHeapOk();
  }

  // ---- loads and stores as accesses to page 0 ----

  function Touch(o: HB.Op): R.Event {
    match o
    case Get(off) => R.Read(0, off)
    case Put(off, b) => R.Write(0, off, b)
  }

  function Touches(ops: seq<HB.Op>): (es: seq<R.Event>) { seq(|ops|, i requires 0 <= i < |ops| => Touch(ops[i])) }

  lemma TouchesConcat(a: seq<HB.Op>, b: seq<HB.Op>)
    ensures Touches(a + b) == Touches(a) + Touches(b)
  {
  }

  /** Only CURRENT's pages differ. */
  ghost predicate Mine(m: PR.Memories, m': PR.Memories) {
    && m.cur.Some? && m.cur.value in m.mem
    && m'.cur == m.cur && m'.mem.Keys == m.mem.Keys && |m'.mem[m.cur.value]| == |m.mem[m.cur.value]|
    && forall t :: t in m.mem && t != m.cur.value ==> m'.mem[t] == m.mem[t]
  }

  /** CURRENT's pages but for page 0 are the same. */
  ghost predicate SamePages(m: PR.Memories, m': PR.Memories, from: nat, to: nat)
    requires Mine(m, m')
  {
    forall j :: from <= j < to && j < |m.mem[m.cur.value]| ==> m'.mem[m.cur.value][j] == m.mem[m.cur.value][j]
  }

  function WithMetadata(m: PR.Memories, page: P.Page): (m': PR.Memories)
    requires m.cur.Some? && m.cur.value in m.mem && |m.mem[m.cur.value]| > 0
  {
    PR.Memories(m.cur, m.mem[m.cur.value := m.mem[m.cur.value][0 := Some(page)]])
  }

  function Metadata(m: PR.Memories): (page: P.Page)
    requires R.Has(m, 0)
  {
    m.mem[m.cur.value][0].value
  }

  /** The accesses are legal and leave the page that the stores make. */
  lemma {:induction false} TouchesRun(m: PR.Memories, ops: seq<HB.Op>, v: nat)
    requires R.Has(m, 0) && HB.InPage(ops)
    ensures R.LegalRun(m, Touches(ops), v)
    ensures R.SpecRun(m, Touches(ops), v).0 == WithMetadata(m, HB.Apply(Metadata(m), ops))
    decreases |ops|
  {
    var t := m.cur.value;
    if ops == [] {
      assert m.mem[t][0 := Some(Metadata(m))] == m.mem[t];
    } else {
      assert Touches(ops)[1..] == Touches(ops[1..]);
      var m1 := R.SpecStep(m, Touch(ops[0]), v).0;
      TouchesRun(m1, ops[1..], v);
      var page, page' := Metadata(m1), HB.Apply(Metadata(m), ops);
      if ops[0].Put? {
        assert m1 == WithMetadata(m, page);
        assert m.mem[t][0 := Some(page)][0 := Some(page')] == m.mem[t][0 := Some(page')];
        assert WithMetadata(m1, page') == WithMetadata(m, page');
      }
    }
  }

  // ---- allocations of pages ----

  lemma FirstUnused(m: Memory, n: nat)
    requires UsesFirst(m, n)
    ensures Find(m, R.IsUnallocated) == n
  {
    FindIs(m, R.IsUnallocated, n);
  }

  /** The page that mm_allocate_page returns is the next one, and it is full of zeros. */
  lemma AllocateIsNext(m: PR.Memories, v: nat, n: nat)
    requires R.Legal(m, R.Allocate) && UsesFirst(m.mem[m.cur.value], n) && n < |m.mem[m.cur.value]|
    ensures var (m', r) := R.SpecStep(m, R.Allocate, v);
            && r == R.Address(Some(n)) && Mine(m, m')
            && m'.mem[m.cur.value] == m.mem[m.cur.value][n := Some(P.ZeroPage())]
            && UsesFirst(m'.mem[m.cur.value], n + 1)
  {
    FirstUnused(m.mem[m.cur.value], n);
  }

  lemma OneAllocation(m: PR.Memories, v: nat, n: nat) returns (m': PR.Memories)
    requires R.Legal(m, R.Allocate) && UsesFirst(m.mem[m.cur.value], n) && n < |m.mem[m.cur.value]|
    ensures R.LegalRun(m, [R.Allocate], v) && R.SpecRun(m, [R.Allocate], v) == (m', [R.Address(Some(n))])
    ensures Mine(m, m') && UsesFirst(m'.mem[m.cur.value], n + 1)
    ensures m'.mem[m.cur.value] == m.mem[m.cur.value][n := Some(P.ZeroPage())]
  {
    AllocateIsNext(m, v, n);
    R.OneEventRun(m, R.Allocate, v);
    m' := R.SpecStep(m, R.Allocate, v).0;
  }

  /** my_malloc_init: the metadata page reads as 53 fresh records. */
  lemma InitRuns(m: PR.Memories, v: nat) returns (m': PR.Memories)
    requires m.cur.Some? && m.cur.value in m.mem && Owns(Control(false, 0), m.mem[m.cur.value])
    requires |m.mem[m.cur.value]| >= 2
    ensures R.LegalRun(m, [R.Allocate, R.Allocate], v) && R.SpecRun(m, [R.Allocate, R.Allocate], v).0 == m'
    ensures Mine(m, m') && Owns(Control(true, 1), m'.mem[m.cur.value])
    ensures var mine, mine' := m.mem[m.cur.value], m'.mem[m.cur.value];
            HeapOf(Control(true, 1), mine') == H.Initialised(HeapOf(Control(false, 0), mine))
  {
    var m1 := OneAllocation(m, v, 0);
    m' := OneAllocation(m1, v, 1);
    R.RunsConcatenate(m, [R.Allocate], [R.Allocate], v);
    assert [R.Allocate] + [R.Allocate] == [R.Allocate, R.Allocate];
    HB.ZeroPageDecodes();
    HP.NewHeapOk();
    HP.InitialisedKeeps(H.NewHeap());
  }

  // ---- my_malloc ----

  /** What the walk over the first `n` trunks loads and stores. */
  function ScanOps(rs: seq<H.Record>, size: nat, n: nat): (ops: seq<HB.Op>)
    requires n <= |rs| <= H.MAX_TRUNKS && forall k :: 0 <= k < |rs| ==> |rs[k]| == 4
  {
    if n == 0 then [] else ScanOps(rs, size, n - 1) + HB.TryOps(rs[n - 1], n - 1, size)
  }

  /** A page for one more trunk, and a try there. */
  function GrowEvents(h: H.Heap, size: nat): (es: seq<R.Event>)
    requires H.Records(h) && h.trunks < |h.records| == H.MAX_TRUNKS
  {
    [R.Allocate] + Touches(HB.TryOps(h.records[h.trunks], h.trunks, size))
  }

  /** The pager's events in my_malloc on an initialised heap: the walk over the trunks in use, and a page and a try
      there when none of them served the request. */
  function MallocRest(h: H.Heap, size: nat): (es: seq<R.Event>)
    requires |h.records| == H.MAX_TRUNKS && H.Records(h) && H.HasRoom(h, size)
  {
    var k := H.FirstFit(h, size, 0);
    if k < h.trunks then Touches(ScanOps(h.records, size, k + 1))
    else Touches(ScanOps(h.records, size, k)) + GrowEvents(h, size)
  }

  /** All of my_malloc's: a new heap takes two pages first. */
  function MallocEvents(h: H.Heap, size: nat): (es: seq<R.Event>)
    requires |h.records| == H.MAX_TRUNKS && H.Records(H.Initialised(h)) && H.HasRoom(H.Initialised(h), size)
  {
    (if h.init then [] else [R.Allocate, R.Allocate]) + MallocRest(H.Initialised(h), size)
  }

  /** Trunks that cannot serve the request are only read. */
  lemma {:induction false} FailedScan(page: P.Page, size: nat, n: nat)
    requires n <= H.MAX_TRUNKS && HB.Clean(page)
    requires forall k :: 0 <= k < H.MAX_TRUNKS ==> H.RecordOk(HB.DecodeRecord(page, k))
    requires forall k :: 0 <= k < n ==> H.TryMalloc(HB.DecodeRecord(page, k), size).1.None?
    ensures HB.InPage(ScanOps(HB.Decode(page), size, n)) && HB.Apply(page, ScanOps(HB.Decode(page), size, n)) == page
  {
    hide HB.TryOps, H.TryMalloc, H.RecordOk, HB.Clean, HB.DecodeRecord;
    if n > 0 {
      FailedScan(page, size, n - 1);
      HB.TryDecodes(page, n - 1, size);
      HB.ApplyConcat(page, ScanOps(HB.Decode(page), size, n - 1), HB.TryOps(HB.Decode(page)[n - 1], n - 1, size));
    }
  }

  /** The walk up to the first trunk `k` that can serve the request, or a try in the trunk just added. */
  lemma TryAfterScan(page: P.Page, size: nat, k: nat)
    requires k < H.MAX_TRUNKS && HB.Clean(page)
    requires forall i :: 0 <= i < H.MAX_TRUNKS ==> H.RecordOk(HB.DecodeRecord(page, i))
    requires forall i :: 0 <= i < k ==> H.TryMalloc(HB.DecodeRecord(page, i), size).1.None?
    ensures var ops := ScanOps(HB.Decode(page), size, k + 1);
            && HB.InPage(ops) && HB.Clean(HB.Apply(page, ops))
            && HB.Decode(HB.Apply(page, ops)) ==
               HB.Decode(page)[k := H.TryMalloc(HB.DecodeRecord(page, k), size).0]
  {
    FailedScan(page, size, k);
    HB.TryDecodes(page, k, size);
    HB.ApplyConcat(page, ScanOps(HB.Decode(page), size, k), HB.TryOps(HB.Decode(page)[k], k, size));
  }

  /** A thread with an initialised heap, as the rest of my_malloc finds it. */
  ghost predicate Ready(m: PR.Memories, c: Control, h: H.Heap, size: nat) {
    && m.cur.Some? && m.cur.value in m.mem && |m.mem[m.cur.value]| > H.MAX_TRUNKS
    && c.init && Owns(c, m.mem[m.cur.value]) && HeapOf(c, m.mem[m.cur.value]) == h
    && H.Inv(h) && H.Records(h) && H.HasRoom(h, size)
  }

  lemma ReadyMetadata(m: PR.Memories, c: Control, h: H.Heap, size: nat)
    requires Ready(m, c, h, size)
    ensures R.Has(m, 0) && HB.Decode(Metadata(m)) == h.records && HB.Clean(Metadata(m))
    ensures forall k :: 0 <= k < H.MAX_TRUNKS ==> H.RecordOk(HB.DecodeRecord(Metadata(m), k))
    ensures c == Control(true, h.trunks) && UsesFirst(m.mem[m.cur.value], h.trunks + 1)
  {
    HP.InitialisedKeeps(h);
    assert forall k :: 0 <= k < H.MAX_TRUNKS ==> h.records[k] == HB.DecodeRecord(Metadata(m), k);
  }

  /** What an event of the allocator leaves: the heap it is specified to leave, in the bytes of the first page; the
      other pages in use and the other threads keep their bytes. */
  ghost predicate Left(m: PR.Memories, m': PR.Memories, c: Control, h': H.Heap) {
    && Mine(m, m') && H.Inv(h') && h'.init
    && Owns(Control(true, h'.trunks), m'.mem[m.cur.value])
    && HeapOf(Control(true, h'.trunks), m'.mem[m.cur.value]) == h'
    && SamePages(m, m', 1, HeapPages(c))
  }

  lemma MetadataLeft(m: PR.Memories, c: Control, page: P.Page, h': H.Heap)
    requires m.cur.Some? && m.cur.value in m.mem && c.init && UsesFirst(m.mem[m.cur.value], HeapPages(c))
    requires HB.Clean(page) && h' == H.Heap(true, c.trunks, HB.Decode(page)) && H.Inv(h')
    ensures Left(m, WithMetadata(m, page), c, h')
  {
  }

  lemma MallocInTrunk(h: H.Heap, size: nat)
    requires H.Inv(h) && h.init && H.Records(h) && H.HasRoom(h, size) && H.FirstFit(h, size, 0) < h.trunks
    ensures var k := H.FirstFit(h, size, 0);
            && k < H.MAX_TRUNKS && |h.records[k]| == 4
            && H.Malloc(h, size).0 == H.Heap(true, h.trunks, h.records[k := H.TryMalloc(h.records[k], size).0])
  {
  }

  /** Some trunk in use serves the request. */
  lemma FitRuns(m: PR.Memories, c: Control, h: H.Heap, size: nat, v: nat)
    requires Ready(m, c, h, size) && H.FirstFit(h, size, 0) < h.trunks && H.Inv(H.Malloc(h, size).0)
    ensures var es := Touches(ScanOps(h.records, size, H.FirstFit(h, size, 0) + 1));
            R.LegalRun(m, es, v) && Left(m, R.SpecRun(m, es, v).0, c, H.Malloc(h, size).0)
  {
    hide R.LegalRun, R.SpecRun, H.Malloc, H.Inv, H.FirstFit, ScanOps, HB.Decode, HB.Apply, HB.Clean, Left;
    FitScans(m, c, h, size);
    var ops := ScanOps(h.records, size, H.FirstFit(h, size, 0) + 1);
    TouchesRun(m, ops, v);
    MetadataLeft(m, c, HB.Apply(Metadata(m), ops), H.Malloc(h, size).0);
  }

  lemma FitScans(m: PR.Memories, c: Control, h: H.Heap, size: nat)
    requires Ready(m, c, h, size) && H.FirstFit(h, size, 0) < h.trunks
    ensures R.Has(m, 0) && h.trunks <= H.MAX_TRUNKS
    ensures var ops := ScanOps(h.records, size, H.FirstFit(h, size, 0) + 1);
            && HB.InPage(ops) && HB.Clean(HB.Apply(Metadata(m), ops))
            && H.Malloc(h, size).0 == H.Heap(true, c.trunks, HB.Decode(HB.Apply(Metadata(m), ops)))
  {
    hide H.FirstFit, H.TryMalloc, H.RecordOk, HB.Decode, HB.DecodeRecord, HB.TryOps, HB.Apply, HB.Clean, ScanOps;
    ReadyMetadata(m, c, h, size);
    MallocInTrunk(h, size);
    TryAfterScan(Metadata(m), size, H.FirstFit(h, size, 0));
    DecodeAt(Metadata(m), h.records, H.FirstFit(h, size, 0));
  }

  lemma DecodeAt(page: P.Page, records: seq<H.Record>, k: nat)
    requires k < H.MAX_TRUNKS && HB.Decode(page) == records
    ensures |records| == H.MAX_TRUNKS && records[k] == HB.DecodeRecord(page, k)
  {
  }

  /** No trunk in use does: the walk changes nothing. */
  lemma WalkRuns(m: PR.Memories, c: Control, h: H.Heap, size: nat, v: nat)
    requires Ready(m, c, h, size) && H.FirstFit(h, size, 0) == h.trunks
    ensures var es := Touches(ScanOps(h.records, size, h.trunks));
            R.LegalRun(m, es, v) && R.SpecRun(m, es, v).0 == m
  {
    ReadyMetadata(m, c, h, size);
    hide R.LegalRun, R.SpecRun, H.Inv, H.HasRoom;
    FailedScan(Metadata(m), size, h.trunks);
    hide ScanOps, HB.Apply, HB.Decode, HB.Clean, H.FirstFit, H.TryMalloc;
    TouchesReadOnly(m, ScanOps(h.records, size, h.trunks), v);
  }

  lemma TouchesReadOnly(m: PR.Memories, ops: seq<HB.Op>, v: nat)
    requires R.Has(m, 0) && HB.InPage(ops) && HB.Apply(Metadata(m), ops) == Metadata(m)
    ensures R.LegalRun(m, Touches(ops), v) && R.SpecRun(m, Touches(ops), v).0 == m
  {
    TouchesRun(m, ops, v);
    assert m.mem[m.cur.value][0 := Some(Metadata(m))] == m.mem[m.cur.value];
    assert WithMetadata(m, Metadata(m)) == m;
  }

  /** An offset in trunk `k`, counted from the first trunk. */
  function InTrunk(k: nat, offset: Option<nat>): (p: Option<nat>) {
    if offset.None? then None else Some(k * 0x1000 + offset.value)
  }

  lemma MallocInNewTrunk(h: H.Heap, size: nat)
    requires H.Inv(h) && h.init && H.Records(h) && H.HasRoom(h, size) && H.FirstFit(h, size, 0) == h.trunks
    ensures h.trunks < H.MAX_TRUNKS && |h.records[h.trunks]| == 4
    ensures H.Malloc(h, size).0 ==
            H.Heap(true, h.trunks + 1, h.records[h.trunks := H.TryMalloc(h.records[h.trunks], size).0])
    ensures H.Malloc(h, size).1 == InTrunk(h.trunks, H.TryMalloc(h.records[h.trunks], size).1)
  {
  }

  /** The try in the trunk just added. */
  lemma NewTrunkTouches(m: PR.Memories, c: Control, page: P.Page, size: nat, v: nat)
    requires R.Has(m, 0) && Metadata(m) == page && HB.Clean(page) && c.init && 1 <= c.trunks <= H.MAX_TRUNKS
    requires UsesFirst(m.mem[m.cur.value], HeapPages(c)) && H.RecordOk(HB.DecodeRecord(page, c.trunks - 1))
    requires var k := c.trunks - 1;
             H.Inv(H.Heap(true, c.trunks, HB.Decode(page)[k := H.TryMalloc(HB.Decode(page)[k], size).0]))
    ensures var k := c.trunks - 1;
            var es := Touches(HB.TryOps(HB.Decode(page)[k], k, size));
            var h' := H.Heap(true, c.trunks, HB.Decode(page)[k := H.TryMalloc(HB.Decode(page)[k], size).0]);
            R.LegalRun(m, es, v) && Left(m, R.SpecRun(m, es, v).0, c, h')
  {
    var k := c.trunks - 1;
    HB.TryDecodes(page, k, size);
    var ops := HB.TryOps(HB.Decode(page)[k], k, size);
    TouchesRun(m, ops, v);
    MetadataLeft(m, c, HB.Apply(page, ops),
                 H.Heap(true, c.trunks, HB.Decode(page)[k := H.TryMalloc(HB.Decode(page)[k], size).0]));
  }

  /** The next page of the window is the new trunk's, and its record serves the request if any does. */
  lemma NewTrunkRuns(m: PR.Memories, c: Control, h: H.Heap, size: nat, v: nat)
    requires Ready(m, c, h, size) && H.FirstFit(h, size, 0) == h.trunks && H.Inv(H.Malloc(h, size).0)
    ensures var es := GrowEvents(h, size);
            && R.LegalRun(m, es, v) && Left(m, R.SpecRun(m, es, v).0, c, H.Malloc(h, size).0)
            && R.Address(Some(h.trunks + 1)) in R.SpecRun(m, es, v).1
  {
    var k := h.trunks;
    ReadyMetadata(m, c, h, size);
    MallocInNewTrunk(h, size);
    hide R.LegalRun, R.SpecRun, H.Malloc, H.FirstFit, H.TryMalloc, H.HasRoom, H.Inv, HB.Decode, HB.Clean, HB.TryOps;
    var m1 := OneAllocation(m, v, k + 1);
    NewTrunkTouches(m1, Control(true, k + 1), Metadata(m), size, v);
    R.RunsConcatenate(m, [R.Allocate], Touches(HB.TryOps(h.records[k], k, size)), v);
  }

  lemma GrowRuns(m: PR.Memories, c: Control, h: H.Heap, size: nat, v: nat)
    requires Ready(m, c, h, size) && H.FirstFit(h, size, 0) == h.trunks && H.Inv(H.Malloc(h, size).0)
    ensures var es := Touches(ScanOps(h.records, size, h.trunks)) + GrowEvents(h, size);
            && R.LegalRun(m, es, v) && Left(m, R.SpecRun(m, es, v).0, c, H.Malloc(h, size).0)
            && R.Address(Some(h.trunks + 1)) in R.SpecRun(m, es, v).1
  {
    WalkRuns(m, c, h, size, v);
    NewTrunkRuns(m, c, h, size, v);
    R.RunsConcatenate(m, Touches(ScanOps(h.records, size, h.trunks)), GrowEvents(h, size), v);
  }

  /** The events are legal and leave heap `h'`, and the page of a trunk added to `h` is where my_malloc computes it, one
      after its index. */
  ghost predicate Leaves(m: PR.Memories, c: Control, h: H.Heap, es: seq<R.Event>, h': H.Heap, v: nat) {
    && R.LegalRun(m, es, v) && Left(m, R.SpecRun(m, es, v).0, c, h')
    && (h'.trunks > h.trunks ==> R.Address(Some(h.trunks + 1)) in R.SpecRun(m, es, v).1)
  }

  /** my_malloc on an initialised heap. */
  lemma RestRuns(m: PR.Memories, c: Control, h: H.Heap, size: nat, v: nat)
    requires Ready(m, c, h, size) && H.Inv(H.Malloc(h, size).0)
    ensures Leaves(m, c, h, MallocRest(h, size), H.Malloc(h, size).0, v)
  {
    hide R.LegalRun, R.SpecRun, Left, H.Malloc, H.TryMalloc;
    if H.FirstFit(h, size, 0) < h.trunks {
      MallocInTrunk(h, size);
      FitRuns(m, c, h, size, v);
    } else {
      GrowRuns(m, c, h, size, v);
    }
  }

  lemma MallocKeeps(h: H.Heap, size: nat)
    requires H.Inv(h) && H.HasRoom(H.Initialised(h), size)
    ensures H.Inv(H.Malloc(h, size).0)
    ensures H.Malloc(H.Initialised(h), size) == H.Malloc(h, size)
  {
    if 1 <= size <= 512 {
      var b := HP.MallocSpec(h, size);
    } else {
      HP.UnservedRequestGrows(h, size);
    }
  }

  /** my_malloc as the pager sees it: every access is legal, and afterwards the bytes of the metadata page read as the
      heap that my_malloc is specified to leave. */
  lemma MallocRuns(m: PR.Memories, c: Control, size: nat, v: nat)
    requires m.cur.Some? && m.cur.value in m.mem && |m.mem[m.cur.value]| > H.MAX_TRUNKS
    requires Owns(c, m.mem[m.cur.value]) && H.HasRoom(H.Initialised(HeapOf(c, m.mem[m.cur.value])), size)
    ensures var h := HeapOf(c, m.mem[m.cur.value]);
            && H.Records(H.Initialised(h))
            && Leaves(m, c, H.Initialised(h), MallocEvents(h, size), H.Malloc(h, size).0, v)
  {
    var h := HeapOf(c, m.mem[m.cur.value]);
    hide Leaves, MallocRest, H.Malloc, H.FirstFit, H.HasRoom, H.RecordOk, UsesFirst;
    HP.InitialisedKeeps(h);
    MallocKeeps(h, size);
    var h1 := H.Initialised(h);
    if h.init {
      RestRuns(m, c, h, size, v);
      assert [] + MallocRest(h, size) == MallocRest(h, size);
    } else {
      FirstMallocRuns(m, c, size, v);
    }
  }

  /** The first my_malloc of a thread. */
  lemma FirstMallocRuns(m: PR.Memories, c: Control, size: nat, v: nat)
    requires m.cur.Some? && m.cur.value in m.mem && |m.mem[m.cur.value]| > H.MAX_TRUNKS
    requires c == Control(false, 0) && Owns(c, m.mem[m.cur.value])
    requires var h1 := H.Initialised(HeapOf(c, m.mem[m.cur.value]));
             H.Inv(h1) && H.Records(h1) && H.HasRoom(h1, size) && H.Inv(H.Malloc(h1, size).0)
    ensures var h1 := H.Initialised(HeapOf(c, m.mem[m.cur.value]));
            var es := [R.Allocate, R.Allocate] + MallocRest(h1, size);
            Leaves(m, c, h1, es, H.Malloc(h1, size).0, v)
  {
    var h1 := H.Initialised(HeapOf(c, m.mem[m.cur.value]));
    var m1 := InitRuns(m, v);
    RestRuns(m1, Control(true, 1), h1, size, v);
    hide R.LegalRun, R.SpecRun, H.Malloc, MallocRest, H.Inv;
    R.RunsConcatenate(m, [R.Allocate, R.Allocate], MallocRest(h1, size), v);
  }

  // ---- my_free ----

  function FreeEvents(h: H.Heap, p: nat): (es: seq<R.Event>)
    requires |h.records| == H.MAX_TRUNKS && H.Records(h) && p < H.MAX_TRUNKS * 0x1000
  {
    Touches(HB.FreeOps(h.records[p / 0x1000], p / 0x1000, p % 0x1000))
  }

  /** my_free as the pager sees it. */
  lemma FreeRuns(m: PR.Memories, c: Control, p: nat, v: nat)
    requires m.cur.Some? && m.cur.value in m.mem && |m.mem[m.cur.value]| > H.MAX_TRUNKS
    requires c.init && Owns(c, m.mem[m.cur.value]) && p < H.MAX_TRUNKS * 0x1000
    ensures var h := HeapOf(c, m.mem[m.cur.value]);
            && H.Records(h) && R.LegalRun(m, FreeEvents(h, p), v)
            && Left(m, R.SpecRun(m, FreeEvents(h, p), v).0, c, H.Free(h, p))
  {
    var h := HeapOf(c, m.mem[m.cur.value]);
    HP.InitialisedKeeps(h);
    HP.FreeSpec(h, p);
    var page, k := Metadata(m), p / 0x1000;
    assert h.records[k] == HB.DecodeRecord(page, k);
    HB.FreeDecodes(page, k, p % 0x1000);
    var ops := HB.FreeOps(h.records[k], k, p % 0x1000);
    TouchesRun(m, ops, v);
    MetadataLeft(m, c, HB.Apply(page, ops), H.Free(h, p));
  }
}
