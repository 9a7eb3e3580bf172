/** The slab allocator of my_malloc.c as a value: one metadata record per trunk, four size classes per record. */
module Heaps {
  import opened Util

  /** The marks and the count of one size class of one trunk. */
  datatype Region = Region(marks: seq<bool>, count: int)

  /** heap_metadata_t: region32, region64, region128 and region512. */
  type Record = seq<Region>

  /** heap_init and heap_trunk_count of a thread, and the records that fit the first page of its heap. */
  datatype Heap = Heap(init: bool, trunks: nat, records: seq<Record>)

  const RECORD_SIZE := 32 + 4 + 16 + 4 + 8 + 4 + (2 + 2) + 4   // two bytes pad region512 up to its count
  const MAX_TRUNKS := 53

  function SlotSize(c: nat): (n: nat)
    requires c < 4
  {
    if c == 0 then 32 else if c == 1 then 64 else if c == 2 then 128 else 512
  }

  function Slots(c: nat): (n: nat)
    requires c < 4
    ensures n * SlotSize(c) == 0x400
  {
    if c == 0 then 32 else if c == 1 then 16 else if c == 2 then 8 else 2
  }

  /** The size class that serves a request; none for 0 and for more than 512 bytes. */
  function ClassOf(size: nat): (c: Option<nat>)
    ensures c.Some? <==> 1 <= size <= 512
    ensures c.Some? ==> c.value < 4 && size <= SlotSize(c.value) && (c.value > 0 ==> SlotSize(c.value - 1) < size)
  {
    if size == 0 then None
    else if size <= 32 then Some(0)
    else if size <= 64 then Some(1)
    else if size <= 128 then Some(2)
    else if size <= 512 then Some(3)
    else None
  }

  ghost predicate RegionOk(r: Region, c: nat)
    requires c < 4
  {
    |r.marks| == Slots(c) && r.count == Count(r.marks, IsMarked)
  }

  ghost predicate RecordOk(r: Record) {
    |r| == 4 && forall c :: 0 <= c < 4 ==> RegionOk(r[c], c)
  }

  function FreshRegion(n: nat): Region { Region(seq(n, _ => false), 0) }

  /** A record of a zeroed page. */
  function FreshRecord(): (r: Record) { [FreshRegion(32), FreshRegion(16), FreshRegion(8), FreshRegion(2)] }

  /** Every count is the number of marks of its region, and the records of trunks not in use are zero. */
  ghost predicate Inv(h: Heap) {
    && |h.records| == MAX_TRUNKS && h.trunks <= MAX_TRUNKS
    && (h.init <==> h.trunks >= 1)
    && (forall k :: 0 <= k < MAX_TRUNKS ==> RecordOk(h.records[k]))
    && (forall k :: h.trunks <= k < MAX_TRUNKS ==> h.records[k] == FreshRecord())
  }

  function NewHeap(): (h: Heap) { Heap(false, 0, seq(MAX_TRUNKS, _ => FreshRecord())) }

  // ---- allocation ----

  /** _malloc: the record afterwards and the offset of the block in its trunk. */
  function TryMalloc(r: Record, size: nat): (res: (Record, Option<nat>))
    requires |r| == 4
  {
    if ClassOf(size).None? then (r, None)
    else
      var c := ClassOf(size).value;
      if r[c].count >= Slots(c) then (r, None)
      else
        var i := Find(r[c].marks, IsClear);
        if i == |r[c].marks| then (r, None)
        else (r[c := Region(r[c].marks[i := true], r[c].count + 1)], Some(c * 0x400 + i * SlotSize(c)))
  }

  ghost predicate Records(h: Heap) {
    h.trunks <= |h.records| && forall k :: 0 <= k < |h.records| ==> |h.records[k]| == 4
  }

  /** The first trunk from `k` on that can serve the request, or the number of trunks. */
  function FirstFit(h: Heap, size: nat, k: nat): (i: nat)
    requires Records(h) && k <= h.trunks
    ensures k <= i <= h.trunks
    ensures i < h.trunks ==> TryMalloc(h.records[i], size).1.Some?
    ensures forall m :: k <= m < i ==> TryMalloc(h.records[m], size).1.None?
    decreases h.trunks - k
  {
    if k == h.trunks || TryMalloc(h.records[k], size).1.Some? then k else FirstFit(h, size, k + 1)
  }

  /** my_malloc_init when the heap is not initialised yet: the metadata page and one trunk. */
  function Initialised(h: Heap): (h': Heap) { if h.init then h else Heap(true, 1, h.records) }

  ghost predicate HasRoom(h: Heap, size: nat)
    requires Records(h)
  {
    h.trunks < |h.records| || FirstFit(h, size, 0) < h.trunks
  }

  /** my_malloc: the heap afterwards and the address of the block, counted from the first trunk; None for NULL. */
  function Malloc(h: Heap, size: nat): (res: (Heap, Option<nat>))
    requires |h.records| >= 1 && Records(h) && HasRoom(Initialised(h), size)
  {
    var h1 := Initialised(h);
    var k := FirstFit(h1, size, 0);
    var (r, offset) := TryMalloc(h1.records[k], size);
    (Heap(true, if k == h1.trunks then k + 1 else h1.trunks, h1.records[k := r]),
     if offset.None? then None else Some(k * 0x1000 + offset.value))
  }

  // ---- release ----

  /** _free for an offset inside the trunk. */
  function FreeAt(r: Record, offset: nat): (r': Record)
    requires |r| == 4 && offset < 0x1000
  {
    var c := offset / 0x400;
    if offset % SlotSize(c) != 0 then r
    else if r[c].count == 0 then r
    else
      var slot := (offset - c * 0x400) / SlotSize(c);
      if slot < |r[c].marks| && r[c].marks[slot] then
        r[c := Region(r[c].marks[slot := false], r[c].count - 1)]
      else r
  }

  /** my_free for an address counted from the first trunk. */
  function Free(h: Heap, p: int): (h': Heap)
    requires Records(h) && p < |h.records| * 0x1000
  {
    if p < 0 then h
    else
      var k := p / 0x1000;
      h.(records := h.records[k := FreeAt(h.records[k], p % 0x1000)])
  }
}
