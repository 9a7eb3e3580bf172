/** What the allocator promises its callers. */
module HeapProofs {
  import opened Util
  import opened Heaps

  /** A slot of a size class of a trunk. */
  datatype Block = Block(trunk: nat, kind: nat, slot: nat)

  ghost predicate IsBlock(b: Block) { b.trunk < MAX_TRUNKS && b.kind < 4 && b.slot < Slots(b.kind) }

  /** The address of a block, counted from the first trunk. */
  function Addr(b: Block): (p: nat)
    requires IsBlock(b)
  {
    b.trunk * 0x1000 + b.kind * 0x400 + b.slot * SlotSize(b.kind)
  }

  ghost predicate Live(h: Heap, b: Block)
    requires Inv(h)
  {
    IsBlock(b) && h.records[b.trunk][b.kind].marks[b.slot]
  }

  // ---- layout ----

  /** A block lies inside the quarter of the trunk that belongs to its class. */
  lemma BlockInRegion(b: Block)
    requires IsBlock(b)
    ensures b.trunk * 0x1000 + b.kind * 0x400 <= Addr(b)
    ensures Addr(b) + SlotSize(b.kind) <= b.trunk * 0x1000 + (b.kind + 1) * 0x400 <= (b.trunk + 1) * 0x1000
  {
  }

  /** Distinct blocks never overlap. */
  lemma BlocksAreDisjoint(a: Block, b: Block)
    requires IsBlock(a) && IsBlock(b) && a != b
    ensures Addr(a) + SlotSize(a.kind) <= Addr(b) || Addr(b) + SlotSize(b.kind) <= Addr(a)
  {
    BlockInRegion(a);
    BlockInRegion(b);
    if a.trunk == b.trunk && a.kind == b.kind {
      SlotsApart(a.kind, a.slot, b.slot);
    }
    hide SlotSize, Slots;
  }

  lemma SlotsApart(c: nat, i: nat, k: nat)
    requires c < 4 && i != k
    ensures (i + 1) * SlotSize(c) <= k * SlotSize(c) || (k + 1) * SlotSize(c) <= i * SlotSize(c)
    ensures (i + 1) * SlotSize(c) == i * SlotSize(c) + SlotSize(c)
    ensures (k + 1) * SlotSize(c) == k * SlotSize(c) + SlotSize(c)
  {
  }

  lemma SlotDecodes(c: nat, i: nat)
    requires c < 4 && i < Slots(c)
    ensures 0 <= i * SlotSize(c) < 0x400 && i * SlotSize(c) / SlotSize(c) == i
    ensures (c * 0x400 + i * SlotSize(c)) % SlotSize(c) == 0
  {
  }

  /** The div and mod of my_free and _free recover the trunk, the class and the slot. */
  lemma AddrDecodes(b: Block)
    requires IsBlock(b)
    ensures Addr(b) / 0x1000 == b.trunk
    ensures Addr(b) % 0x1000 / 0x400 == b.kind
    ensures Addr(b) % 0x1000 % SlotSize(b.kind) == 0
    ensures (Addr(b) % 0x1000 - b.kind * 0x400) / SlotSize(b.kind) == b.slot
  {
    var offset := b.kind * 0x400 + b.slot * SlotSize(b.kind);
    SlotDecodes(b.kind, b.slot);
    hide SlotSize, Slots;
    assert Addr(b) == b.trunk * 0x1000 + offset && 0 <= offset < 0x1000;
    assert Addr(b) / 0x1000 == b.trunk && Addr(b) % 0x1000 == offset;
  }

  /** The slot that an address falls in, by the arithmetic of my_free and _free. */
  function BlockAt(p: nat): (b: Block) {
    var c := p % 0x1000 / 0x400;
    Block(p / 0x1000, c, (p % 0x1000 - c * 0x400) / SlotSize(c))
  }

  /** An address is that of a block exactly when it is aligned to the slots of its class. */
  lemma AlignedAddrIsBlock(p: nat)
    requires p < MAX_TRUNKS * 0x1000
    ensures IsBlock(BlockAt(p))
    ensures Addr(BlockAt(p)) == p <==> p % 0x1000 % SlotSize(BlockAt(p).kind) == 0
  {
    var c := p % 0x1000 / 0x400;
    var d := p % 0x1000 - c * 0x400;
    assert p == p / 0x1000 * 0x1000 + c * 0x400 + d && 0 <= d < 0x400;
    OffsetInRegion(c, d);
  }

  /** The start of a region is aligned for its class. */
  lemma OffsetInRegion(c: nat, d: nat)
    requires c < 4 && d < 0x400
    ensures d / SlotSize(c) < Slots(c)
    ensures (c * 0x400 + d) % SlotSize(c) == 0 <==> d / SlotSize(c) * SlotSize(c) == d
  {
    if c == 0 {
    } else if c == 1 {
    } else if c == 2 {
    } else {
    }
  }

  /** The records of 53 trunks fill the metadata page without reaching the first trunk; a 54th would. */
  lemma MetadataFitsOnePage(k: nat)
    ensures RECORD_SIZE == 76
    ensures (k + 1) * RECORD_SIZE <= 0x1000 <==> k < MAX_TRUNKS
  {
  }

  // ---- malloc ----

  /** The count check of _malloc agrees with its scan, so the return after the scan is never reached. */
  lemma CountCheckAgrees(r: Record, c: nat)
    requires RecordOk(r) && c < 4
    ensures r[c].count >= Slots(c) <==> Find(r[c].marks, IsClear) == |r[c].marks|
  {
    assert RegionOk(r[c], c);
    CountFull(r[c].marks, IsMarked);
  }

  /** _malloc fails exactly when every slot of the class is taken, and then changes nothing; else it marks one clear
      slot. */
  lemma TryMallocSpec(r: Record, size: nat)
    requires RecordOk(r) && 1 <= size <= 512
    ensures var c := ClassOf(size).value;
            var (r', offset) := TryMalloc(r, size);
            && RecordOk(r')
            && (offset.None? <==> forall i :: 0 <= i < Slots(c) ==> r[c].marks[i])
            && (offset.None? ==> r' == r)
            && (offset.Some? ==>
                  var i := Find(r[c].marks, IsClear);
                  && i < Slots(c) && !r[c].marks[i] && offset.value == c * 0x400 + i * SlotSize(c)
                  && r' == r[c := Region(r[c].marks[i := true], r[c].count + 1)])
  {
    var c := ClassOf(size).value;
    assert RegionOk(r[c], c);
    CountCheckAgrees(r, c);
    var i := Find(r[c].marks, IsClear);
    if i < |r[c].marks| {
      CountUpdate(r[c].marks, IsMarked, i, true);
    }
  }

  lemma FreshRecordOk()
    ensures RecordOk(FreshRecord())
    ensures forall c, i :: 0 <= c < 4 && 0 <= i < Slots(c) ==> !FreshRecord()[c].marks[i]
  {
    var r := FreshRecord();
    forall c | 0 <= c < 4
      ensures RegionOk(r[c], c)
    {
      CountNone(r[c].marks, IsMarked);
    }
  }

  lemma NewHeapOk()
    ensures Inv(NewHeap())
    ensures forall b :: !Live(NewHeap(), b)
  {
    FreshRecordOk();
  }

  lemma InitialisedKeeps(h: Heap)
    requires Inv(h)
    ensures Inv(Initialised(h)) && Records(Initialised(h))
    ensures forall b :: Live(Initialised(h), b) <==> Live(h, b)
  {
  }

  /** Slot `b` of trunk `b.trunk` goes from clear to marked. */
  ghost predicate Marks(h: Heap, h': Heap, b: Block) {
    && IsBlock(b) && |h.records| == MAX_TRUNKS && |h.records[b.trunk]| == 4
    && var r := h.records[b.trunk][b.kind];
       && b.slot < |r.marks| && !r.marks[b.slot]
       && h'.records == h.records[b.trunk := h.records[b.trunk][b.kind := Region(r.marks[b.slot := true], r.count + 1)]]
  }

  lemma MarksOneBlock(h: Heap, h': Heap, b: Block)
    requires Inv(h) && Inv(h') && Marks(h, h', b)
    ensures !Live(h, b) && forall x :: Live(h', x) <==> Live(h, x) || x == b
  {
    forall x
      ensures Live(h', x) <==> Live(h, x) || x == b
    {
    }
  }

  /** The trunk that my_malloc ends up in can serve the request. */
  lemma FittingTrunk(h: Heap, size: nat)
    requires Inv(h) && h.init && 1 <= size <= 512 && HasRoom(h, size)
    ensures var k := FirstFit(h, size, 0);
            k < MAX_TRUNKS && TryMalloc(h.records[k], size).1.Some?
  {
    var k := FirstFit(h, size, 0);
    if k == h.trunks {
      FreshRecordOk();
      TryMallocSpec(h.records[k], size);
    }
  }

  /** Malloc is complete: with room left it never returns NULL, it marks one block that was free and is large enough,
      and it takes a new trunk only when no trunk in use has a free slot of the class. */
  lemma MallocSpec(h: Heap, size: nat) returns (b: Block)
    requires Inv(h) && 1 <= size <= 512 && HasRoom(Initialised(h), size)
    ensures var (h', p) := Malloc(h, size);
            && Inv(h') && IsBlock(b) && p == Some(Addr(b)) && Some(b.kind) == ClassOf(size) && size <= SlotSize(b.kind)
            && b.trunk < h'.trunks && Marks(h, h', b)
            && h'.trunks == Initialised(h).trunks +
                 (if exists k, i :: 0 <= k < Initialised(h).trunks && 0 <= i < Slots(b.kind) &&
                                    !h.records[k][b.kind].marks[i]
                  then 0 else 1)
  {
    InitialisedKeeps(h);
    TrunkIsNeeded(Initialised(h), size);
    b := MallocMarks(h, size);
    hide Inv, Malloc, FirstFit, Marks, HasRoom;
  }

  lemma MallocMarks(h: Heap, size: nat) returns (b: Block)
    requires Inv(h) && 1 <= size <= 512 && HasRoom(Initialised(h), size)
    ensures var (h', p) := Malloc(h, size);
            && Inv(h') && IsBlock(b) && p == Some(Addr(b)) && Some(b.kind) == ClassOf(size) && size <= SlotSize(b.kind)
            && b.trunk < h'.trunks && Marks(h, h', b)
            && h'.trunks == Initialised(h).trunks +
                 if FirstFit(Initialised(h), size, 0) < Initialised(h).trunks then 0 else 1
    ensures b.trunk == FirstFit(Initialised(h), size, 0)
    ensures forall i :: 0 <= i < b.slot ==> h.records[b.trunk][b.kind].marks[i]
  {
    hide Malloc, TryMalloc, RegionOk, FirstFit, HasRoom;
    InitialisedKeeps(h);
    b := MallocIs(h, size);
  }

  /** The record that my_malloc changes, and how. */
  lemma MallocIs(h: Heap, size: nat) returns (b: Block)
    requires Inv(h) && 1 <= size <= 512 && HasRoom(Initialised(h), size)
    ensures b.trunk == FirstFit(Initialised(h), size, 0) < MAX_TRUNKS && Some(b.kind) == ClassOf(size) && b.kind < 4
    ensures |h.records| == MAX_TRUNKS && |h.records[b.trunk]| == 4
    ensures var r := h.records[b.trunk];
            && b.slot < |r[b.kind].marks| == Slots(b.kind) && !r[b.kind].marks[b.slot]
            && (forall i :: 0 <= i < b.slot ==> r[b.kind].marks[i])
    ensures var r := h.records[b.trunk];
            var r' := r[b.kind := Region(r[b.kind].marks[b.slot := true], r[b.kind].count + 1)];
            var trunks := Initialised(h).trunks;
            && RecordOk(r') && Malloc(h, size).1 == Some(Addr(b))
            && Malloc(h, size).0 ==
               Heap(true, if b.trunk == trunks then trunks + 1 else trunks, h.records[b.trunk := r'])
  {
    hide FirstFit, TryMalloc;
    InitialisedKeeps(h);
    FittingTrunk(Initialised(h), size);
    var k, c := FirstFit(Initialised(h), size, 0), ClassOf(size).value;
    TryMallocSpec(h.records[k], size);
    b := Block(k, c, Find(h.records[k][c].marks, IsClear));
    assert RegionOk(h.records[k][c], c);
  }

  /** my_malloc takes a new trunk if and only if no trunk in use has a free slot of the class. */
  lemma TrunkIsNeeded(h: Heap, size: nat)
    requires Inv(h) && Records(h) && 1 <= size <= 512
    ensures var c := ClassOf(size).value;
            && (forall k :: 0 <= k < h.trunks ==> |h.records[k][c].marks| == Slots(c))
            && (FirstFit(h, size, 0) < h.trunks <==>
                exists k, i :: 0 <= k < h.trunks && 0 <= i < Slots(c) && !h.records[k][c].marks[i])
  {
    var k, c := FirstFit(h, size, 0), ClassOf(size).value;
    forall m | 0 <= m < h.trunks
      ensures |h.records[m][c].marks| == Slots(c)
    {
      TryMallocSpec(h.records[m], size);
    }
    if k < h.trunks {
      TryMallocSpec(h.records[k], size);
      assert !h.records[k][c].marks[Find(h.records[k][c].marks, IsClear)];
    } else {
      forall m, i | 0 <= m < h.trunks && 0 <= i < Slots(c)
        ensures h.records[m][c].marks[i]
      {
        TryMallocSpec(h.records[m], size);
      }
    }
  }

  /** A request that no class serves fails in every trunk, and my_malloc still adds a trunk for it before it returns
      NULL. */
  lemma UnservedRequestGrows(h: Heap, size: nat)
    requires Inv(h) && (size == 0 || size > 512) && HasRoom(Initialised(h), size)
    ensures Malloc(h, size) == (Heap(true, Initialised(h).trunks + 1, h.records), None)
    ensures Inv(Malloc(h, size).0)
  {
    var h1 := Initialised(h);
    var k := FirstFit(h1, size, 0);
    assert k == h1.trunks && h1.records[k := h1.records[k]] == h1.records;
  }

  // ---- free ----

  /** _free on an offset: it clears the one slot that starts there and is marked, and otherwise changes nothing. */
  lemma FreeAtSpec(r: Record, offset: nat)
    requires RecordOk(r) && offset < 0x1000
    ensures RecordOk(FreeAt(r, offset))
    ensures var c := offset / 0x400;
            var i := (offset - c * 0x400) / SlotSize(c);
            && i < Slots(c)
            && FreeAt(r, offset) ==
                 if offset % SlotSize(c) == 0 && r[c].marks[i] then
                   r[c := Region(r[c].marks[i := false], r[c].count - 1)]
                 else r
  {
    var c := offset / 0x400;
    var i := (offset - c * 0x400) / SlotSize(c);
    assert RegionOk(r[c], c);
    CountNone(r[c].marks, IsMarked);
    CountUpdate(r[c].marks, IsMarked, i, false);
  }

  /** Free is exact: it clears the block whose address it is given, if that block is live, and on any other pointer into
      the trunks, a second free included, it changes nothing. */
  lemma FreeSpec(h: Heap, p: nat)
    requires Inv(h) && p < MAX_TRUNKS * 0x1000
    ensures var h' := Free(h, p);
            var b := BlockAt(p);
            && Inv(h') && h'.init == h.init && h'.trunks == h.trunks
            && (if IsBlock(b) && Addr(b) == p && Live(h, b) then Marks(h', h, b) else h' == h)
  {
    var b := BlockAt(p);
    var r := h.records[b.trunk];
    AlignedAddrIsBlock(p);
    FreeAtSpec(r, p % 0x1000);
    hide FreeAt, Slots, SlotSize;
    FreshRecordOk();
    if Addr(b) == p && Live(h, b) {
      assert r[b.kind].marks[b.slot := false][b.slot := true] == r[b.kind].marks;
      assert Free(h, p).records[b.trunk] == r[b.kind := Region(r[b.kind].marks[b.slot := false], r[b.kind].count - 1)];
      assert Free(h, p).records[b.trunk][b.kind := r[b.kind]] == r;
    } else {
      assert h.records[b.trunk := r] == h.records;
    }
  }

  // ---- malloc and free together ----

  lemma MarksInjective(h1: Heap, h2: Heap, h: Heap, b: Block)
    requires Marks(h1, h, b) && Marks(h2, h, b)
    ensures h1.records == h2.records
  {
    var r1, r2 := h1.records[b.trunk][b.kind], h2.records[b.trunk][b.kind];
    assert h.records[b.trunk][b.kind] == Region(r1.marks[b.slot := true], r1.count + 1);
    assert r1.marks == r2.marks by {
      assert r1.marks == r1.marks[b.slot := true][b.slot := false];
      assert r2.marks == r2.marks[b.slot := true][b.slot := false];
    }
    assert forall c :: 0 <= c < 4 && c != b.kind ==>
      h1.records[b.trunk][c] == h.records[b.trunk][c] == h2.records[b.trunk][c];
    assert h1.records[b.trunk] == h2.records[b.trunk];
    assert forall k :: 0 <= k < |h.records| && k != b.trunk ==> h1.records[k] == h.records[k] == h2.records[k];
  }

  /** Free undoes malloc: the metadata is as before the call, up to a trunk that the call may have added. */
  lemma FreeUndoesMalloc(h: Heap, size: nat)
    requires Inv(h) && 1 <= size <= 512 && HasRoom(Initialised(h), size)
    ensures var (h', p) := Malloc(h, size);
            && p.Some? && p.value < MAX_TRUNKS * 0x1000
            && Free(h', p.value) == Initialised(h).(trunks := h'.trunks)
            && (h.init && h'.trunks == h.trunks ==> Free(h', p.value) == h)
  {
    var b := MallocSpec(h, size);
    var h' := Malloc(h, size).0;
    AddrDecodes(b);
    assert BlockAt(Addr(b)) == b;
    BlockInRegion(b);
    assert Live(h', b);
    FreeSpec(h', Addr(b));
    MarksInjective(h, Free(h', Addr(b)), h', b);
  }

  /** A second free of the same pointer changes nothing. */
  lemma SecondFreeIsIgnored(h: Heap, p: nat)
    requires Inv(h) && p < MAX_TRUNKS * 0x1000
    ensures Free(Free(h, p), p) == Free(h, p)
  {
    FreeSpec(h, p);
    FreeSpec(Free(h, p), p);
    if Free(h, p) != h {
      MarksOneBlock(Free(h, p), h, BlockAt(p));
    }
  }

  // ---- runs of a client ----

  datatype Call = Request(size: nat) | Release(p: nat)

  /** Requests stay within 53 trunks; any pointer into the trunks may be released. */
  ghost predicate LegalCall(h: Heap, e: Call)
    requires Inv(h)
  {
    match e
    case Request(size) => HasRoom(Initialised(h), size)
    case Release(p) => p < MAX_TRUNKS * 0x1000
  }

  /** The blocks the client was given and has not released: address and size asked for. */
  type Given = map<nat, nat>

  ghost function Serve(h: Heap, given: Given, e: Call): (Heap, Given)
    requires Inv(h) && LegalCall(h, e)
  {
    match e
    case Request(size) =>
      var (h', p) := Malloc(h, size);
      (h', if p.Some? then given[p.value := size] else given)
    case Release(p) => (Free(h, p), given - {p})
  }

  /** The client's blocks are exactly the live ones, and each is as large as was asked for. */
  ghost predicate Tracks(h: Heap, given: Given)
    requires Inv(h)
  {
    && (forall p :: p in given ==>
          var b := BlockAt(p);
          p < MAX_TRUNKS * 0x1000 && Live(h, b) && Addr(b) == p && given[p] <= SlotSize(b.kind) && b.trunk < h.trunks)
    && (forall b :: Live(h, b) ==> Addr(b) in given)
  }

  lemma RequestTracks(h: Heap, given: Given, size: nat)
    requires Inv(h) && Tracks(h, given) && LegalCall(h, Request(size)) && 1 <= size <= 512
    ensures var (h', given') := Serve(h, given, Request(size));
            && Inv(h') && Tracks(h', given')
            && Malloc(h, size).1.Some? && Malloc(h, size).1.value !in given
  {
    var b := MallocSpec(h, size);
    var h' := Malloc(h, size).0;
    MarksOneBlock(h, h', b);
    AddrDecodes(b);
    BlockInRegion(b);
    assert BlockAt(Addr(b)) == b;
  }

  lemma ReleaseTracks(h: Heap, given: Given, p: nat)
    requires Inv(h) && Tracks(h, given) && LegalCall(h, Release(p))
    ensures var (h', given') := Serve(h, given, Release(p));
            Inv(h') && Tracks(h', given')
  {
    FreeSpec(h, p);
    var b := BlockAt(p);
    var (h', given') := Serve(h, given, Release(p));
    if h' != h {
      MarksOneBlock(h', h, b);
    } else {
      assert p in given ==> h' != h by {
        if p in given {
          MarksOneBlock(h', h, b);
        }
      }
      assert given' == given;
    }
    forall x | Live(h', x)
      ensures Addr(x) in given'
    {
      AddrDecodes(x);
      assert BlockAt(Addr(x)) == x;
    }
  }

  ghost predicate LegalCalls(h: Heap, given: Given, es: seq<Call>)
    requires Inv(h) && Tracks(h, given)
    decreases |es|
  {
    es == [] ||
    (LegalCall(h, es[0]) &&
     (ServeTracks(h, given, es[0]);
      var (h', given') := Serve(h, given, es[0]);
      LegalCalls(h', given', es[1..])))
  }

  lemma ServeTracks(h: Heap, given: Given, e: Call)
    requires Inv(h) && Tracks(h, given) && LegalCall(h, e)
    ensures var (h', given') := Serve(h, given, e);
            Inv(h') && Tracks(h', given')
  {
    match e
    case Request(size) =>
      if 1 <= size <= 512 {
        RequestTracks(h, given, size);
      } else {
        UnservedRequestGrows(h, size);
      }
    case Release(p) => ReleaseTracks(h, given, p);
  }

  ghost function ServeAll(h: Heap, given: Given, es: seq<Call>): (Heap, Given)
    requires Inv(h) && Tracks(h, given) && LegalCalls(h, given, es)
    decreases |es|
  {
    if es == [] then (h, given)
    else
      ServeTracks(h, given, es[0]);
      var (h', given') := Serve(h, given, es[0]);
      ServeAll(h', given', es[1..])
  }

  /** After any run of requests and releases the client's blocks are as large as asked for, each inside one trunk in use
      and inside the region of its class, and no two of them overlap. */
  lemma {:induction false} ClientBlocksAreSafe(h: Heap, given: Given, es: seq<Call>)
    requires Inv(h) && Tracks(h, given) && LegalCalls(h, given, es)
    ensures var (h', out) := ServeAll(h, given, es);
            && Inv(h') && Tracks(h', out)
            && (forall p :: p in out ==> InsideOneRegion(h', p, out[p]))
            && (forall p, q :: p in out && q in out && p < q ==> p + out[p] <= q)
    decreases |es|
  {
    if es == [] {
      GivenAreSafe(h, given);
    } else {
      ServeTracks(h, given, es[0]);
      var (h', given') := Serve(h, given, es[0]);
      ClientBlocksAreSafe(h', given', es[1..]);
    }
  }

  ghost predicate InsideOneRegion(h: Heap, p: nat, size: nat) {
    && p / 0x1000 < h.trunks
    && var start := p / 0x1000 * 0x1000;
       exists q :: start + q * 0x400 <= p && p + size <= start + (q + 1) * 0x400 && 0 <= q < 4
  }

  lemma GivenAreSafe(h: Heap, given: Given)
    requires Inv(h) && Tracks(h, given)
    ensures forall p :: p in given ==> InsideOneRegion(h, p, given[p])
    ensures forall p, q :: p in given && q in given && p < q ==> p + given[p] <= q
  {
    forall p | p in given
      ensures InsideOneRegion(h, p, given[p])
    {
      var b := BlockAt(p);
      BlockInRegion(b);
      assert p / 0x1000 * 0x1000 + b.kind * 0x400 <= p && p + given[p] <= p / 0x1000 * 0x1000 + (b.kind + 1) * 0x400;
    }
    forall p, q | p in given && q in given && p < q
      ensures p + given[p] <= q
    {
      BlocksAreDisjoint(BlockAt(p), BlockAt(q));
    }
  }

  lemma ServeKeepsBlock(h: Heap, given: Given, e: Call, p: nat)
    requires Inv(h) && Tracks(h, given) && LegalCall(h, e) && p in given && e != Release(p)
    ensures p in Serve(h, given, e).1 && Serve(h, given, e).1[p] == given[p]
  {
    if e.Request? {
      if 1 <= e.size <= 512 {
        RequestTracks(h, given, e.size);
      } else {
        UnservedRequestGrows(h, e.size);
      }
    }
  }

  /** A block that the client does not release stays its own, with the size it asked for. */
  lemma {:induction false} UnreleasedStays(h: Heap, given: Given, es: seq<Call>, p: nat)
    requires Inv(h) && Tracks(h, given) && LegalCalls(h, given, es)
    requires p in given && Release(p) !in es
    ensures p in ServeAll(h, given, es).1 && ServeAll(h, given, es).1[p] == given[p]
    decreases |es|
  {
    hide Inv, Tracks, Serve;
    if es != [] {
      ServeTracks(h, given, es[0]);
      ServeKeepsBlock(h, given, es[0], p);
      var (h', given') := Serve(h, given, es[0]);
      UnreleasedStays(h', given', es[1..], p);
    }
  }

  lemma ServeAllStarts(h: Heap, given: Given, c: Call, es: seq<Call>, h1: Heap, given1: Given)
    requires Inv(h) && Tracks(h, given) && LegalCall(h, c) && Serve(h, given, c) == (h1, given1)
    requires Inv(h1) && Tracks(h1, given1) && LegalCalls(h1, given1, es)
    ensures LegalCalls(h, given, [c] + es) && ServeAll(h, given, [c] + es) == ServeAll(h1, given1, es)
  {
    hide Inv, Tracks, Serve, LegalCall;
    assert ([c] + es)[1..] == es;
  }

  /** The bytes of a block the client holds lie in one trunk in use. */
  lemma GivenBytes(h: Heap, given: Given, p: nat, i: nat)
    requires Inv(h) && Tracks(h, given) && p in given && i < given[p]
    ensures h.init && p / 0x1000 < h.trunks && p % 0x1000 + i < 0x1000
  {
    BlockInRegion(BlockAt(p));
  }
}
