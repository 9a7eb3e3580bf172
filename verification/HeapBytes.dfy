/** The metadata records of my_malloc.c as bytes of the first page of a heap, and the loads and stores of _malloc and
    _free on them. */
module HeapBytes {
  import opened Util
  import P = Paging
  import opened Heaps
  import opened HeapProofs

  // ---- the layout of heap_metadata_t ----

  function MarksStart(c: nat): nat
    requires c < 4
  {
    if c == 0 then 0 else if c == 1 then 36 else if c == 2 then 56 else 68
  }

  function CountStart(c: nat): nat
    requires c < 4
  {
    if c == 0 then 32 else if c == 1 then 52 else if c == 2 then 64 else 72
  }

  /** Where the mark of slot `i` of class `c` of record `k` is. */
  function MarkAt(k: nat, c: nat, i: nat): (off: nat)
    requires k < MAX_TRUNKS && c < 4 && i < Slots(c)
    ensures off < 0xFBC
  {
    76 * k + MarksStart(c) + i
  }

  /** Where the count of class `c` of record `k` is. */
  function CountAt(k: nat, c: nat): (off: nat)
    requires k < MAX_TRUNKS && c < 4
    ensures off + 4 <= 0xFBC
  {
    76 * k + CountStart(c)
  }

  /** The marks and the counts lie apart. */
  lemma LayoutIsApart(k: nat, c: nat, i: nat, l: nat, d: nat, j: nat)
    requires k < MAX_TRUNKS && c < 4 && i < Slots(c) && l < MAX_TRUNKS && d < 4 && j < Slots(d)
    ensures MarkAt(k, c, i) == MarkAt(l, d, j) ==> k == l && c == d && i == j
    ensures MarkAt(k, c, i) < CountAt(l, d) || CountAt(l, d) + 4 <= MarkAt(k, c, i)
    ensures CountAt(k, c) == CountAt(l, d) || CountAt(k, c) + 4 <= CountAt(l, d) || CountAt(l, d) + 4 <= CountAt(k, c)
    ensures CountAt(k, c) == CountAt(l, d) ==> k == l && c == d
  {
    if k < l {
      assert 76 * k + 76 <= 76 * l;
    } else if l < k {
      assert 76 * l + 76 <= 76 * k;
    }
  }

  // ---- an int in memory: four bytes, the low one first, in two's complement ----

  function ReadInt(page: P.Page, off: nat): (v: int)
    requires off + 4 <= 0x1000
  {
    var u := page[off] as int + 0x100 * page[off + 1] as int + 0x1_0000 * page[off + 2] as int
             + 0x100_0000 * page[off + 3] as int;
    if u < 0x8000_0000 then u else u - 0x1_0000_0000
  }

  function IntByte(v: int, i: nat): (b: P.byte)
    requires i < 4
  {
    (if i == 0 then v % 0x100
     else if i == 1 then v / 0x100 % 0x100
     else if i == 2 then v / 0x1_0000 % 0x100
     else v / 0x100_0000 % 0x100) as P.byte
  }

  function WriteInt(page: P.Page, off: nat, v: int): (r: P.Page)
    requires off + 4 <= 0x1000
  {
    var r: P.Page :=
      page[off := IntByte(v, 0)][off + 1 := IntByte(v, 1)][off + 2 := IntByte(v, 2)][off + 3 := IntByte(v, 3)];
    r
  }

  lemma IntDigits(v: int)
    requires -0x8000_0000 <= v < 0x8000_0000
    ensures var u := IntByte(v, 0) as int + 0x100 * IntByte(v, 1) as int + 0x1_0000 * IntByte(v, 2) as int
                     + 0x100_0000 * IntByte(v, 3) as int;
            u == if v >= 0 then v else v + 0x1_0000_0000
  {
    var a, b, c := v / 0x100, v / 0x1_0000, v / 0x100_0000;
    assert v == 0x100 * a + v % 0x100;
    assert a / 0x100 == b && a == 0x100 * b + a % 0x100;
    assert b / 0x100 == c && b == 0x100 * c + b % 0x100;
    assert -0x80 <= c < 0x80;
    assert c % 0x100 == if v >= 0 then c else c + 0x100;
  }

  /** What an int store leaves is what a load finds, and no other byte changes. */
  lemma IntRoundTrip(page: P.Page, off: nat, v: int)
    requires off + 4 <= 0x1000 && -0x8000_0000 <= v < 0x8000_0000
    ensures ReadInt(WriteInt(page, off, v), off) == v
    ensures forall i :: 0 <= i < 0x1000 && !(off <= i < off + 4) ==> WriteInt(page, off, v)[i] == page[i]
  {
    IntDigits(v);
  }

  // ---- the records ----

  function DecodeRegion(page: P.Page, k: nat, c: nat): (r: Region)
    requires k < MAX_TRUNKS && c < 4
  {
    Region(seq(Slots(c), i requires 0 <= i < Slots(c) => page[MarkAt(k, c, i)] != 0), ReadInt(page, CountAt(k, c)))
  }

  function DecodeRecord(page: P.Page, k: nat): (r: Record)
    requires k < MAX_TRUNKS
    ensures |r| == 4
  {
    [DecodeRegion(page, k, 0), DecodeRegion(page, k, 1), DecodeRegion(page, k, 2), DecodeRegion(page, k, 3)]
  }

  lemma RecordRegion(page: P.Page, k: nat, c: nat)
    requires k < MAX_TRUNKS && c < 4
    ensures DecodeRecord(page, k)[c] == DecodeRegion(page, k, c)
  {
  }

  /** The 53 records in a page. */
  function Decode(page: P.Page): (rs: seq<Record>)
    ensures |rs| == MAX_TRUNKS && forall k :: 0 <= k < MAX_TRUNKS ==> rs[k] == DecodeRecord(page, k)
  {
    seq(MAX_TRUNKS, k requires 0 <= k < MAX_TRUNKS => DecodeRecord(page, k))
  }

  /** Every mark is 0 or 1, so that the test for 0 in _malloc and the test for 1 in _free agree. */
  ghost predicate Clean(page: P.Page) {
    forall k, c, i :: 0 <= k < MAX_TRUNKS && 0 <= c < 4 && 0 <= i < Slots(c) ==> page[MarkAt(k, c, i)] <= 1
  }

  /** The records of a page of zeros are those of a heap with nothing allocated. */
  lemma ZeroPageDecodes()
    ensures Decode(P.ZeroPage()) == NewHeap().records && Clean(P.ZeroPage())
  {
    forall k | 0 <= k < MAX_TRUNKS
      ensures DecodeRecord(P.ZeroPage(), k) == FreshRecord()
    {
      forall c | 0 <= c < 4
        ensures DecodeRegion(P.ZeroPage(), k, c) == FreshRecord()[c]
      {
        assert DecodeRegion(P.ZeroPage(), k, c).marks == FreshRecord()[c].marks;
      }
    }
  }

  // ---- loads and stores ----

  datatype Op = Get(off: nat) | Put(off: nat, value: P.byte)

  ghost predicate InPage(ops: seq<Op>) { forall o :: o in ops ==> o.off < 0xFBC }

  /** The page after the stores. */
  function Apply(page: P.Page, ops: seq<Op>): (r: P.Page)
    requires forall o :: o in ops ==> o.off < 0xFBC
    decreases |ops|
  {
    if ops == [] then page
    else if ops[0].Get? then Apply(page, ops[1..])
    else
      var r: P.Page := page[ops[0].off := ops[0].value];
      Apply(r, ops[1..])
  }

  lemma {:induction false} ApplyConcat(page: P.Page, a: seq<Op>, b: seq<Op>)
    requires InPage(a) && InPage(b)
    ensures InPage(a + b) && Apply(page, a + b) == Apply(Apply(page, a), b)
    decreases |a|
  {
    if a == [] {
      assert a + b == b;
    } else {
      assert (a + b)[1..] == a[1..] + b && (a + b)[0] == a[0];
      var r: P.Page := if a[0].Get? then page else page[a[0].off := a[0].value];
      ApplyConcat(r, a[1..], b);
    }
  }

  lemma {:induction false} ApplyGets(page: P.Page, ops: seq<Op>)
    requires InPage(ops) && forall o :: o in ops ==> o.Get?
    ensures Apply(page, ops) == page
    decreases |ops|
  {
    if ops != [] {
      ApplyGets(page, ops[1..]);
    }
  }

  /** An int load. */
  function IntGets(off: nat): (ops: seq<Op>) { [Get(off), Get(off + 1), Get(off + 2), Get(off + 3)] }

  /** An int store. */
  function IntPuts(off: nat, v: int): (ops: seq<Op>) {
    [Put(off, IntByte(v, 0)), Put(off + 1, IntByte(v, 1)), Put(off + 2, IntByte(v, 2)), Put(off + 3, IntByte(v, 3))]
  }

  lemma ApplyIntPuts(page: P.Page, off: nat, v: int)
    requires off + 4 <= 0xFBC
    ensures InPage(IntPuts(off, v)) && Apply(page, IntPuts(off, v)) == WriteInt(page, off, v)
  {
    var ops := IntPuts(off, v);
    var p1: P.Page := page[off := IntByte(v, 0)];
    var p2: P.Page := p1[off + 1 := IntByte(v, 1)];
    var p3: P.Page := p2[off + 2 := IntByte(v, 2)];
    assert Apply(page, ops) == Apply(p1, ops[1..]) && ops[1..][0] == ops[1];
    assert Apply(p1, ops[1..]) == Apply(p2, ops[2..]) by { assert ops[1..][1..] == ops[2..]; }
    assert Apply(p2, ops[2..]) == Apply(p3, ops[3..]) by { assert ops[2..][1..] == ops[3..]; }
    var p4: P.Page := p3[off + 3 := IntByte(v, 3)];
    assert Apply(p3, ops[3..]) == p4 by { assert ops[3..][0] == ops[3] && ops[3..][1..] == []; }
    assert p4 == WriteInt(page, off, v);
  }

  /** The scan of the first `n` marks of class `c` of record `k`. */
  function MarkGets(k: nat, c: nat, n: nat): (ops: seq<Op>)
    requires k < MAX_TRUNKS && c < 4 && n <= Slots(c)
  {
    seq(n, i requires 0 <= i < n => Get(MarkAt(k, c, i)))
  }

  /** Setting a mark and then the count, which is loaded first. */
  function StoreOps(k: nat, c: nat, i: nat, mark: P.byte, count: int): (ops: seq<Op>)
    requires k < MAX_TRUNKS && c < 4 && i < Slots(c)
  {
    [Put(MarkAt(k, c, i), mark)] + IntGets(CountAt(k, c)) + IntPuts(CountAt(k, c), count)
  }

  function Stored(page: P.Page, k: nat, c: nat, i: nat, mark: P.byte, count: int): (r: P.Page)
    requires k < MAX_TRUNKS && c < 4 && i < Slots(c)
  {
    var marked: P.Page := page[MarkAt(k, c, i) := mark];
    WriteInt(marked, CountAt(k, c), count)
  }

  lemma StoreApplies(page: P.Page, k: nat, c: nat, i: nat, mark: P.byte, count: int)
    requires k < MAX_TRUNKS && c < 4 && i < Slots(c)
    ensures InPage(StoreOps(k, c, i, mark, count))
    ensures Apply(page, StoreOps(k, c, i, mark, count)) == Stored(page, k, c, i, mark, count)
  {
    var a, b, d := [Put(MarkAt(k, c, i), mark)], IntGets(CountAt(k, c)), IntPuts(CountAt(k, c), count);
    var marked: P.Page := page[MarkAt(k, c, i) := mark];
    assert a[1..] == [];
    assert Apply(page, a) == marked;
    ApplyGets(marked, b);
    ApplyConcat(page, a, b);
    ApplyIntPuts(marked, CountAt(k, c), count);
    ApplyConcat(page, a + b, d);
  }

  lemma StoredBytes(page: P.Page, k: nat, c: nat, i: nat, mark: P.byte, count: int, l: nat, d: nat)
    requires k < MAX_TRUNKS && c < 4 && i < Slots(c) && -0x8000_0000 <= count < 0x8000_0000
    requires l < MAX_TRUNKS && d < 4
    ensures var r := DecodeRegion(Stored(page, k, c, i, mark, count), l, d);
            && |r.marks| == Slots(d)
            && r.count == (if l == k && d == c then count else DecodeRegion(page, l, d).count)
            && forall j :: 0 <= j < Slots(d) ==>
                 r.marks[j] == if l == k && d == c && j == i then mark != 0 else DecodeRegion(page, l, d).marks[j]
  {
    var marked: P.Page := page[MarkAt(k, c, i) := mark];
    IntRoundTrip(marked, CountAt(k, c), count);
    LayoutIsApart(k, c, i, l, d, 0);
    forall j | 0 <= j < Slots(d)
      ensures Stored(page, k, c, i, mark, count)[MarkAt(l, d, j)] ==
              if l == k && d == c && j == i then mark else page[MarkAt(l, d, j)]
    {
      LayoutIsApart(k, c, i, l, d, j);
      LayoutIsApart(l, d, j, k, c, i);
    }
  }

  /** The two stores change one region of one record and nothing else of the records. */
  lemma StoreDecodes(page: P.Page, k: nat, c: nat, i: nat, mark: P.byte, count: int)
    requires k < MAX_TRUNKS && c < 4 && i < Slots(c) && -0x8000_0000 <= count < 0x8000_0000
    ensures var r := DecodeRecord(page, k);
            Decode(Stored(page, k, c, i, mark, count)) ==
            Decode(page)[k := r[c := Region(r[c].marks[i := mark != 0], count)]]
  {
    var r, page' := DecodeRecord(page, k), Stored(page, k, c, i, mark, count);
    var region := Region(r[c].marks[i := mark != 0], count);
    forall l, d | 0 <= l < MAX_TRUNKS && 0 <= d < 4
      ensures DecodeRegion(page', l, d) == if l == k && d == c then region else DecodeRegion(page, l, d)
    {
      StoredBytes(page, k, c, i, mark, count, l, d);
      assert DecodeRegion(page', l, d).marks ==
             if l == k && d == c then region.marks else DecodeRegion(page, l, d).marks;
    }
    forall l | 0 <= l < MAX_TRUNKS
      ensures DecodeRecord(page', l) == if l == k then r[c := region] else DecodeRecord(page, l)
    {
    }
  }

  lemma StoreKeepsClean(page: P.Page, k: nat, c: nat, i: nat, mark: P.byte, count: int)
    requires k < MAX_TRUNKS && c < 4 && i < Slots(c) && -0x8000_0000 <= count < 0x8000_0000
    requires Clean(page) && mark <= 1
    ensures Clean(Stored(page, k, c, i, mark, count))
  {
    var marked: P.Page := page[MarkAt(k, c, i) := mark];
    IntRoundTrip(marked, CountAt(k, c), count);
    forall l, d, j | 0 <= l < MAX_TRUNKS && 0 <= d < 4 && 0 <= j < Slots(d)
      ensures Stored(page, k, c, i, mark, count)[MarkAt(l, d, j)] <= 1
    {
      LayoutIsApart(l, d, j, k, c, i);
    }
  }

  // ---- _malloc and _free ----

  /** What _malloc loads and stores for a request, on record `k` that reads `r`. */
  function TryOps(r: Record, k: nat, size: nat): (ops: seq<Op>)
    requires |r| == 4 && k < MAX_TRUNKS
  {
    if ClassOf(size).None? then []
    else
      var c := ClassOf(size).value;
      if r[c].count >= Slots(c) then IntGets(CountAt(k, c))
      else
        var i := Find(r[c].marks, IsClear);
        if i >= Slots(c) then IntGets(CountAt(k, c)) + MarkGets(k, c, Slots(c))
        else IntGets(CountAt(k, c)) + MarkGets(k, c, i + 1) + StoreOps(k, c, i, 1, r[c].count + 1)
  }

  /** What _free loads and stores for an offset inside trunk `k`, whose record reads `r`. */
  function FreeOps(r: Record, k: nat, offset: nat): (ops: seq<Op>)
    requires |r| == 4 && k < MAX_TRUNKS && offset < 0x1000
  {
    var c := offset / 0x400;
    if offset % SlotSize(c) != 0 then []
    else if r[c].count == 0 then IntGets(CountAt(k, c))
    else
      var slot := (offset - c * 0x400) / SlotSize(c);
      if slot >= Slots(c) || slot >= |r[c].marks| then []
      else if !r[c].marks[slot] then IntGets(CountAt(k, c)) + [Get(MarkAt(k, c, slot))]
      else IntGets(CountAt(k, c)) + [Get(MarkAt(k, c, slot))] + StoreOps(k, c, slot, 0, r[c].count - 1)
  }

  lemma LoadsThenStore(page: P.Page, loads: seq<Op>, k: nat, c: nat, i: nat, mark: P.byte, count: int)
    requires InPage(loads) && forall o :: o in loads ==> o.Get?
    requires k < MAX_TRUNKS && c < 4 && i < Slots(c) && -0x8000_0000 <= count < 0x8000_0000
    requires Clean(page) && mark <= 1
    ensures var ops := loads + StoreOps(k, c, i, mark, count);
            var r := DecodeRecord(page, k);
            && InPage(ops) && Clean(Apply(page, ops))
            && Decode(Apply(page, ops)) == Decode(page)[k := r[c := Region(r[c].marks[i := mark != 0], count)]]
  {
    ApplyGets(page, loads);
    StoreApplies(page, k, c, i, mark, count);
    ApplyConcat(page, loads, StoreOps(k, c, i, mark, count));
    StoreDecodes(page, k, c, i, mark, count);
    StoreKeepsClean(page, k, c, i, mark, count);
  }

  lemma LoadsOnly(page: P.Page, loads: seq<Op>, k: nat)
    requires InPage(loads) && (forall o :: o in loads ==> o.Get?) && k < MAX_TRUNKS
    ensures Apply(page, loads) == page && Decode(page)[k := DecodeRecord(page, k)] == Decode(page)
  {
    ApplyGets(page, loads);
  }

  lemma CountBounds(r: Record, c: nat)
    requires RecordOk(r) && c < 4
    ensures 0 <= r[c].count <= Slots(c) && |r[c].marks| == Slots(c)
  {
    assert RegionOk(r[c], c);
  }

  /** The bytes `page'` read as the records that _malloc is specified to leave. */
  ghost predicate TryLeaves(page: P.Page, k: nat, size: nat, page': P.Page)
    requires k < MAX_TRUNKS
  {
    && Clean(page')
    && Decode(page') == Decode(page)[k := TryMalloc(DecodeRecord(page, k), size).0]
    && (TryMalloc(DecodeRecord(page, k), size).1.None? ==> page' == page)
  }

  /** On the bytes _malloc does to the records what it is specified to do. */
  lemma TryDecodes(page: P.Page, k: nat, size: nat)
    requires k < MAX_TRUNKS && Clean(page) && RecordOk(DecodeRecord(page, k))
    ensures var ops := TryOps(DecodeRecord(page, k), k, size);
            InPage(ops) && TryLeaves(page, k, size, Apply(page, ops))
  {
    if TryMalloc(DecodeRecord(page, k), size).1.Some? {
      TryServes(page, k, size);
    } else {
      TryFails(DecodeRecord(page, k), k, size);
      hide TryOps, TryMalloc, Clean, RecordOk;
      LoadsOnly(page, TryOps(DecodeRecord(page, k), k, size), k);
    }
  }

  lemma TryServes(page: P.Page, k: nat, size: nat)
    requires k < MAX_TRUNKS && Clean(page) && RecordOk(DecodeRecord(page, k))
    requires TryMalloc(DecodeRecord(page, k), size).1.Some?
    ensures var ops := TryOps(DecodeRecord(page, k), k, size);
            InPage(ops) && TryLeaves(page, k, size, Apply(page, ops))
  {
    hide Clean, RecordOk, StoreOps, Decode, DecodeRecord, Apply, MarkGets, IntGets, InPage;
    var c, i := TryIs(DecodeRecord(page, k), k, size);
    hide TryOps, TryMalloc;
    ServedDecodes(page, k, c, i);
  }

  lemma TryIs(r: Record, k: nat, size: nat) returns (c: nat, i: nat)
    requires k < MAX_TRUNKS && RecordOk(r) && TryMalloc(r, size).1.Some?
    ensures c < 4 && i < |r[c].marks| == Slots(c) && r[c].count < Slots(c)
    ensures TryOps(r, k, size) ==
            IntGets(CountAt(k, c)) + MarkGets(k, c, i + 1) + StoreOps(k, c, i, 1, r[c].count + 1)
    ensures TryMalloc(r, size).0 == r[c := Region(r[c].marks[i := true], r[c].count + 1)]
  {
    c := ClassOf(size).value;
    i := Find(r[c].marks, IsClear);
    CountBounds(r, c);
  }

  /** A try that fails only loads. */
  lemma TryFails(r: Record, k: nat, size: nat)
    requires RecordOk(r) && k < MAX_TRUNKS && TryMalloc(r, size).1.None?
    ensures TryMalloc(r, size).0 == r && InPage(TryOps(r, k, size)) && forall o :: o in TryOps(r, k, size) ==> o.Get?
  {
    if ClassOf(size).Some? {
      CountBounds(r, ClassOf(size).value);
    }
  }

  /** A free slot is found and marked. */
  lemma ServedDecodes(page: P.Page, k: nat, c: nat, i: nat)
    requires k < MAX_TRUNKS && c < 4 && Clean(page) && RecordOk(DecodeRecord(page, k))
    requires i < |DecodeRecord(page, k)[c].marks| && DecodeRecord(page, k)[c].count < Slots(c)
    ensures var r := DecodeRecord(page, k);
            && i < Slots(c)
            && var ops := IntGets(CountAt(k, c)) + MarkGets(k, c, i + 1) + StoreOps(k, c, i, 1, r[c].count + 1);
               && InPage(ops) && Clean(Apply(page, ops))
               && Decode(Apply(page, ops)) ==
                  Decode(page)[k := r[c := Region(r[c].marks[i := true], r[c].count + 1)]]
  {
    hide Clean, StoreOps, Decode, Apply;
    CountBounds(DecodeRecord(page, k), c);
    var loads := IntGets(CountAt(k, c)) + MarkGets(k, c, i + 1);
    LoadsThenStore(page, loads, k, c, i, 1, DecodeRecord(page, k)[c].count + 1);
  }

  /** On the bytes _free does to the records what it is specified to do. */
  lemma FreeDecodes(page: P.Page, k: nat, offset: nat)
    requires k < MAX_TRUNKS && offset < 0x1000 && Clean(page) && RecordOk(DecodeRecord(page, k))
    ensures var r := DecodeRecord(page, k);
            && InPage(FreeOps(r, k, offset)) && Clean(Apply(page, FreeOps(r, k, offset)))
            && Decode(Apply(page, FreeOps(r, k, offset))) == Decode(page)[k := FreeAt(r, offset)]
  {
    hide Clean, RecordOk, StoreOps, Decode, DecodeRecord, Apply, IntGets;
    var r := DecodeRecord(page, k);
    var ops := FreeOps(r, k, offset);
    if FreeAt(r, offset) != r {
      var c, i := FreeIs(r, k, offset);
      hide FreeOps, FreeAt;
      LoadsThenStore(page, IntGets(CountAt(k, c)) + [Get(MarkAt(k, c, i))], k, c, i, 0, r[c].count - 1);
    } else {
      FreeIgnores(r, k, offset);
      hide FreeOps, FreeAt;
      LoadsOnly(page, ops, k);
    }
  }

  lemma FreeIs(r: Record, k: nat, offset: nat) returns (c: nat, i: nat)
    requires k < MAX_TRUNKS && offset < 0x1000 && RecordOk(r) && FreeAt(r, offset) != r
    ensures c < 4 && i < |r[c].marks| == Slots(c) && 0 <= r[c].count <= Slots(c)
    ensures InPage(IntGets(CountAt(k, c)) + [Get(MarkAt(k, c, i))])
    ensures forall o :: o in IntGets(CountAt(k, c)) + [Get(MarkAt(k, c, i))] ==> o.Get?
    ensures FreeOps(r, k, offset) ==
            IntGets(CountAt(k, c)) + [Get(MarkAt(k, c, i))] + StoreOps(k, c, i, 0, r[c].count - 1)
    ensures FreeAt(r, offset) == r[c := Region(r[c].marks[i := false], r[c].count - 1)]
  {
    c := offset / 0x400;
    i := (offset - c * 0x400) / SlotSize(c);
    CountBounds(r, c);
    OffsetInRegion(c, offset - c * 0x400);
  }

  /** A release that changes nothing only loads. */
  lemma FreeIgnores(r: Record, k: nat, offset: nat)
    requires k < MAX_TRUNKS && offset < 0x1000 && RecordOk(r) && FreeAt(r, offset) == r
    ensures InPage(FreeOps(r, k, offset)) && forall o :: o in FreeOps(r, k, offset) ==> o.Get?
  {
    var c := offset / 0x400;
    var i := (offset - c * 0x400) / SlotSize(c);
    CountBounds(r, c);
    OffsetInRegion(c, offset - c * 0x400);
    assert r[c] != Region(r[c].marks[i := false], r[c].count - 1);
  }
}
