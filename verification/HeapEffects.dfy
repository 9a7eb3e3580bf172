/** The allocator against the numbers of my_malloc.c: the four regions, where every mark and count is, which block a
    request gets, and which bytes each call loads and stores, in which order. */
module HeapEffects {
  import opened Util
  import P = Paging
  import R = PagingRuns
  import opened Heaps
  import opened HeapProofs
  import opened HeapBytes
  import opened HeapMemory

  /** The four regions of a trunk, as the header of my_malloc.c lists them: MAX_REGION32_NUM and so on. */
  const SIZES: seq<nat> := [32, 64, 128, 512]
  const NUMBERS: seq<nat> := [32, 16, 8, 2]
  const BASES: seq<nat> := [0, 0x400, 0x800, 0xC00]

  // ---- the regions ----

  /** A class serves the sizes above those of the class before it. */
  lemma ClassIs(size: nat, c: nat)
    requires c < 4
    ensures SlotSize(c) == SIZES[c] && Slots(c) == NUMBERS[c] && c * 0x400 == BASES[c]
    ensures ClassOf(size) == Some(c) <==> (if c == 0 then 0 else SIZES[c - 1]) < size <= SIZES[c]
    ensures ClassOf(size) == None <==> size == 0 || size > 512
  {
  }

  /** A block is at its trunk's page, its region's base and its slot's multiple of the region's size. */
  lemma BlockAddress(b: Block)
    requires IsBlock(b)
    ensures Addr(b) == 0x1000 * b.trunk + BASES[b.kind] + SIZES[b.kind] * b.slot
  {
    ClassIs(0, b.kind);
  }

  /** malloc is first fit: every earlier trunk has all slots of the class taken, and so have the earlier slots of the
      trunk. */
  lemma MallocIsFirstFit(h: Heap, size: nat) returns (b: Block)
    requires Inv(h) && 1 <= size <= 512 && HasRoom(Initialised(h), size)
    ensures IsBlock(b) && Malloc(h, size).1 == Some(Addr(b)) && Some(b.kind) == ClassOf(size)
    ensures Marks(h, Malloc(h, size).0, b)
    ensures forall k, i :: 0 <= k < b.trunk && 0 <= i < Slots(b.kind) ==> Marked(h, k, b.kind, i)
    ensures forall i :: 0 <= i < b.slot ==> Marked(h, b.trunk, b.kind, i)
    ensures b.trunk <= Initialised(h).trunks
  {
    hide Malloc, TryMalloc, FirstFit, HasRoom;
    b := MallocMarks(h, size);
    InitialisedKeeps(h);
    var h1, c := Initialised(h), ClassOf(size).value;
    forall k, i | 0 <= k < b.trunk && 0 <= i < Slots(c)
      ensures Marked(h, k, c, i)
    {
      TryMallocSpec(h1.records[k], size);
      assert RegionOk(h.records[k][c], c);
    }
    assert RegionOk(h.records[b.trunk][c], c);
  }

  ghost predicate Marked(h: Heap, k: nat, c: nat, i: int) {
    && k < |h.records| && c < |h.records[k]| && 0 <= i < |h.records[k][c].marks|
    && h.records[k][c].marks[i]
  }

  // ---- the layout ----

  /** The fields of heap_metadata_t follow one another, each int at the next multiple of 4, and record follows
      record. */
  lemma LayoutIsTheStruct(k: nat, c: nat, i: nat)
    requires k < MAX_TRUNKS && c < 4 && i < Slots(c)
    ensures MarkAt(k, 0, 0) == RECORD_SIZE * k
    ensures MarkAt(k, c, i) == MarkAt(k, c, 0) + i
    ensures CountAt(k, c) == MarkAt(k, c, 0) + (NUMBERS[c] + 3) / 4 * 4
    ensures c < 3 ==> MarkAt(k, c + 1, 0) == CountAt(k, c) + 4
    ensures CountAt(k, 3) + 4 == RECORD_SIZE * (k + 1)
    ensures CountAt(k, c) % 4 == 0
  {
  }

  /** An int is stored with its low byte first, in two's complement, and a load reads any four bytes so. */
  lemma IntIsLittleEndian(page: P.Page, off: nat, v: int)
    requires off + 4 <= 0x1000 && -0x8000_0000 <= v < 0x8000_0000
    ensures Number(WriteInt(page, off, v), off) == if v >= 0 then v else v + 0x1_0000_0000
    ensures -0x8000_0000 <= ReadInt(page, off) < 0x8000_0000
    ensures var r := ReadInt(page, off); Number(page, off) == if r >= 0 then r else r + 0x1_0000_0000
  {
    IntDigits(v);
  }

  /** Four bytes as an unsigned number. */
  function Number(page: P.Page, off: nat): (n: nat)
    requires off + 4 <= 0x1000
  {
    page[off] as nat + 0x100 * (page[off + 1] as nat + 0x100 * (page[off + 2] as nat + 0x100 * page[off + 3] as nat))
  }

  // ---- the order of the loads and stores ----

  /** From place `n` on: a load of the int at `off`. */
  ghost predicate LoadsInt(ops: seq<Op>, n: nat, off: nat) {
    && n + 4 <= |ops|
    && ops[n] == Get(off) && ops[n + 1] == Get(off + 1) && ops[n + 2] == Get(off + 2) && ops[n + 3] == Get(off + 3)
  }

  /** From place `n` on: a store of the mark of slot `i`, a load of the count and a store of `count` there. */
  ghost predicate Stores(ops: seq<Op>, n: nat, k: nat, c: nat, i: nat, mark: P.byte, count: int)
    requires k < MAX_TRUNKS && c < 4 && i < Slots(c)
  {
    && n + 9 == |ops| && ops[n] == Put(MarkAt(k, c, i), mark) && LoadsInt(ops, n + 1, CountAt(k, c))
    && forall p :: n + 5 <= p < n + 9 ==> ops[p] == Put(CountAt(k, c) + p - n - 5, IntByte(count, p - n - 5))
  }

  /** _malloc loads the count; if it is below the number of slots, it loads the marks one after the other up to the
      first that is clear, sets that mark and adds 1 to the count. */
  lemma TryAccesses(r: Record, k: nat, size: nat) returns (i: nat)
    requires RecordOk(r) && k < MAX_TRUNKS
    ensures var ops := TryOps(r, k, size);
            match ClassOf(size)
            case None => ops == []
            case Some(c) =>
              && LoadsInt(ops, 0, CountAt(k, c)) && |r[c].marks| == Slots(c)
              && if r[c].count >= Slots(c) then |ops| == 4
                 else
                   && i < Slots(c) && !r[c].marks[i] && (forall m :: 0 <= m < i ==> r[c].marks[m])
                   && LooksThenStores(ops, k, c, i, r[c].count + 1)
  {
    hide LoadsInt, LooksThenStores;
    i := 0;
    if ClassOf(size).Some? {
      var c := ClassOf(size).value;
      CountBounds(r, c);
      CountCheckAgrees(r, c);
      i := Find(r[c].marks, IsClear);
      TryParts(k, c, if i < Slots(c) then i else 0, r[c].count + 1);
    }
  }

  /** From place 4 on: loads of the marks up to slot `i`, and the stores that take it. */
  ghost predicate LooksThenStores(ops: seq<Op>, k: nat, c: nat, i: nat, count: int)
    requires k < MAX_TRUNKS && c < 4 && i < Slots(c)
  {
    && |ops| == 14 + i && (forall p :: 4 <= p <= 4 + i ==> ops[p] == Get(MarkAt(k, c, p - 4)))
    && Stores(ops, 5 + i, k, c, i, 1, count)
  }

  lemma TryParts(k: nat, c: nat, i: nat, count: int)
    requires k < MAX_TRUNKS && c < 4 && i < Slots(c)
    ensures LoadsInt(IntGets(CountAt(k, c)), 0, CountAt(k, c))
    ensures var ops := IntGets(CountAt(k, c)) + MarkGets(k, c, i + 1) + StoreOps(k, c, i, 1, count);
            LoadsInt(ops, 0, CountAt(k, c)) && LooksThenStores(ops, k, c, i, count)
  {
    hide MarkAt, CountAt, Slots;
  }

  /** _free touches nothing on an offset that is not aligned; else it loads the count, and unless that is 0 the
      mark, and if the mark is set it clears it and takes 1 from the count. */
  lemma FreeAccesses(r: Record, k: nat, offset: nat)
    requires RecordOk(r) && k < MAX_TRUNKS && offset < 0x1000
    ensures var ops, c := FreeOps(r, k, offset), offset / 0x400;
            var i := (offset - BASES[c]) / SIZES[c];
            && i < Slots(c) == |r[c].marks|
            && if offset % SIZES[c] != 0 then ops == []
               else
                 && LoadsInt(ops, 0, CountAt(k, c))
                 && if r[c].count == 0 then |ops| == 4
                    else
                      && |ops| >= 5 && ops[4] == Get(MarkAt(k, c, i))
                      && if r[c].marks[i] then Stores(ops, 5, k, c, i, 0, r[c].count - 1) else |ops| == 5
  {
    var c := offset / 0x400;
    ClassIs(0, c);
    CountBounds(r, c);
    OffsetInRegion(c, offset - c * 0x400);
  }

  // ---- the calls of the pager ----

  lemma {:induction false} WalkIsInOrder(rs: seq<Record>, size: nat, i: nat, n: nat)
    requires i < n <= |rs| <= MAX_TRUNKS && forall k :: 0 <= k < |rs| ==> |rs[k]| == 4
    ensures ScanOps(rs, size, 0) == [] && ScanOps(rs, size, i + 1) == ScanOps(rs, size, i) + TryOps(rs[i], i, size)
    ensures ScanOps(rs, size, i + 1) <= ScanOps(rs, size, n)
    decreases n
  {
    hide TryOps;
    if i + 1 < n {
      WalkIsInOrder(rs, size, i, n - 1);
    }
  }

  /** my_malloc calls mm_allocate_page twice at first, then tries the trunks in use in order, and calls it again
      after the last of them only if none served the request; then it tries the new trunk, and nothing more. */
  lemma MallocAccesses(h: Heap, size: nat)
    requires |h.records| == MAX_TRUNKS && Records(Initialised(h)) && HasRoom(Initialised(h), size)
    ensures var h1, es := Initialised(h), MallocEvents(h, size);
            var k, n := FirstFit(h1, size, 0), if h.init then 0 else 2;
            var tried := if k < h1.trunks then k + 1 else k;
            var walk := ScanOps(h1.records, size, tried);
            && |es| >= n + |walk| && (forall i :: 0 <= i < n ==> es[i] == R.Allocate)
            && (forall i :: 0 <= i < |walk| ==> es[n + i] == Touch(walk[i]))
            && if k < h1.trunks then |es| == n + |walk|
               else
                 var rest := TryOps(h1.records[k], k, size);
                 && |es| == n + |walk| + 1 + |rest| && es[n + |walk|] == R.Allocate
                 && forall i :: 0 <= i < |rest| ==> es[n + |walk| + 1 + i] == Touch(rest[i])
  {
    hide TryOps, FirstFit, TryMalloc, ScanOps;
  }
}
