/** my_malloc.c in place: heap_init and heap_trunk_count of a thread, and its records as bytes of the first page of the
    window, which may have to be swapped in first. */
module ThreadHeaps {
  import opened Util
  import P = Paging
  import PI = PagingInvariant
  import PR = PagingRefinement
  import R = PagingRuns
  import H = Heaps
  import HP = HeapProofs
  import HB = HeapBytes
  import opened HeapMemory
  import VM = VirtualMemories

  // ---- loads and stores in sequence ----

  ghost predicate HasMetadata(s: P.Vm) { PI.Inv(s) && R.Has(PR.Abs(s), 0) }

  ghost function PageOf(s: P.Vm): (page: P.Page)
    requires HasMetadata(s)
  {
    Metadata(PR.Abs(s))
  }

  /** The loads and stores `ops` lead from `s` to `s'`. */
  ghost predicate Did(s: P.Vm, ops: seq<HB.Op>, s': P.Vm) { R.After(s, Touches(ops)) == R.To(s') }

  /** The process ends on the way. */
  ghost predicate Died(s: P.Vm, ops: seq<HB.Op>) { R.After(s, Touches(ops)) == R.Dies }

  /** Loads and stores make of the memories what they make of the page. */
  lemma DidMeans(s: P.Vm, ops: seq<HB.Op>, s': P.Vm)
    requires HasMetadata(s) && HB.InPage(ops) && Did(s, ops, s')
    ensures HasMetadata(s') && R.SameSizes(s, s') && PR.Abs(s') == WithMetadata(PR.Abs(s), HB.Apply(PageOf(s), ops))
    ensures PageOf(s') == HB.Apply(PageOf(s), ops) && s'.cur == s.cur
  {
    hide PI.FramesOk, PI.SlotsOk, HB.Apply;
    R.AfterKeeps(s, Touches(ops), s');
    TouchesRun(PR.Abs(s), ops, |s.window|);
  }

  lemma DidNothing(s: P.Vm)
    requires HasMetadata(s)
    ensures Did(s, [], s)
  {
    R.AfterNothing(s);
    assert Touches([]) == [];
  }

  lemma DidThen(s: P.Vm, a: seq<HB.Op>, s1: P.Vm, b: seq<HB.Op>, s2: P.Vm)
    requires Did(s, a, s1) && Did(s1, b, s2)
    ensures Did(s, a + b, s2)
  {
    R.AfterThen(s, Touches(a), s1, Touches(b), s2);
    TouchesConcat(a, b);
  }

  lemma DidThenDied(s: P.Vm, a: seq<HB.Op>, s1: P.Vm, b: seq<HB.Op>, c: seq<HB.Op>)
    requires HasMetadata(s) && HB.InPage(a + b + c) && Did(s, a, s1) && Died(s1, b)
    ensures Died(s, a + b + c)
  {
    hide PI.FramesOk, PI.SlotsOk;
    R.AfterThenDies(s, Touches(a), s1, Touches(b));
    TouchesConcat(a, b);
    TouchesConcat(a + b, c);
    TouchesRun(PR.Abs(s), a + b + c, |s.window|);
    R.DiesBefore(s, Touches(a + b), Touches(c));
  }

  /** One load or store after the first `n` of `ops`. */
  lemma DidOne(s0: P.Vm, ops: seq<HB.Op>, n: nat, s: P.Vm, s': P.Vm)
    requires HasMetadata(s0) && HB.InPage(ops) && n < |ops| && Did(s0, ops[..n], s) && Did(s, [ops[n]], s')
    ensures HasMetadata(s) && HasMetadata(s') && Did(s0, ops[..n + 1], s')
    ensures PageOf(s') == HB.Apply(PageOf(s), [ops[n]])
  {
    hide HasMetadata, Did, HB.Apply, PageOf;
    DidThen(s0, ops[..n], s, [ops[n]], s');
    assert ops[..n] + [ops[n]] == ops[..n + 1];
    DidMeans(s0, ops[..n], s);
    DidMeans(s, [ops[n]], s');
  }

  lemma DiedAt(s0: P.Vm, ops: seq<HB.Op>, n: nat, s: P.Vm)
    requires HasMetadata(s0) && HB.InPage(ops) && n < |ops| && Did(s0, ops[..n], s) && Died(s, [ops[n]])
    ensures Died(s0, ops)
  {
    hide HasMetadata, Did, Died, HB.InPage;
    assert ops[..n] + [ops[n]] + ops[n + 1..] == ops;
    DidThenDied(s0, ops[..n], s, [ops[n]], ops[n + 1..]);
  }

  datatype Place = Here(page: P.Page) | Elsewhere

  /** The loads and stores on the metadata page of CURRENT. The ghost parameters of its methods say where in a longer
      sequence `ops`, begun in state `s0`, the method is: `n` of them are done. */
  class MetadataPage {
    const vm: VM.VirtualMemory

    constructor (vm: VM.VirtualMemory)
      ensures this.vm == vm
    {
      this.vm := vm;
    }

    /** The page, when the first `n` of `ops` are done since `s0`. */
    ghost function At(s0: P.Vm, ops: seq<HB.Op>, n: nat): (p: Place)
      reads vm.Repr()
    {
      if vm.Valid() && HasMetadata(vm.State()) && HasMetadata(s0) && HB.InPage(ops) && n <= |ops| &&
         Did(s0, ops[..n], vm.State())
      then Here(PageOf(vm.State()))
      else Elsewhere
    }

    /** Making page 0 accessible, for an access to its byte `off`; false when the process ends. */
    method Reach(off: nat) returns (ok: bool)
      requires vm.Valid() && HasMetadata(vm.State()) && off < 0xFBC
      modifies vm.Repr()
      ensures if ok then vm.Valid() && P.Touch(old(vm.State()), 0, off) == P.Done(vm.State())
              else !P.Touch(old(vm.State()), 0, off).Done?
    {
      if vm.open[0] {
        return true;
      }
      var h := vm.HandleFault(0, off);
      return h == VM.Resumed;
    }

    /** A load: straight from the window, or through the fault handler. None when the process ends. */
    method Get(off: nat, ghost s0: P.Vm, ghost ops: seq<HB.Op>, ghost n: nat) returns (r: Option<P.byte>)
      requires At(s0, ops, n).Here? && n < |ops| && ops[n] == HB.Get(off)
      modifies vm.Repr()
      ensures match r
              case None => Died(s0, ops)
              case Some(b) => At(s0, ops, n + 1) == old(At(s0, ops, n)) && b == old(At(s0, ops, n)).page[off]
    {
      ghost var s := vm.State();
      OneApplied(PageOf(s), ops, n);
      GetIs(s, off);
      hide PI.Inv, Did, Died, P.Touch, PageOf;
      var ok := Reach(off);
      if !ok {
        DiedAt(s0, ops, n, s);
        return None;
      }
      DidOne(s0, ops, n, s, vm.State());
      return Some(vm.window[0][off]);
    }

    /** A store. */
    method Put(off: nat, b: P.byte, ghost s0: P.Vm, ghost ops: seq<HB.Op>, ghost n: nat) returns (ok: bool)
      requires At(s0, ops, n).Here? && n < |ops| && ops[n] == HB.Put(off, b)
      modifies vm.Repr()
      ensures if ok then At(s0, ops, n + 1) == Here(P.WithByte(old(At(s0, ops, n)).page, off, b)) else Died(s0, ops)
    {
      ghost var s := vm.State();
      OneApplied(PageOf(s), ops, n);
      hide HasMetadata, Did, Died, P.Touch, PageOf, HB.Apply, P.WithByte;
      PutIs(s, off, b);
      ok := Reach(off);
      if !ok {
        DiedAt(s0, ops, n, s);
        return;
      }
      vm.StoreByte(0, off, b);
      DidOne(s0, ops, n, s, vm.State());
    }

    /** Loading an int: four bytes. */
    method GetInt(off: nat, ghost s0: P.Vm, ghost ops: seq<HB.Op>, ghost n: nat) returns (r: Option<int>)
      requires At(s0, ops, n).Here? && off + 4 <= 0xFBC && n + 4 <= |ops| && ops[n..n + 4] == HB.IntGets(off)
      modifies vm.Repr()
      ensures match r
              case None => Died(s0, ops)
              case Some(v) =>
                && At(s0, ops, n + 4) == old(At(s0, ops, n))
                && v == HB.ReadInt(old(At(s0, ops, n)).page, off)
    {
      hide At, Died;
      ghost var four := ops[n..n + 4];
      assert four[0] == ops[n] && four[1] == ops[n + 1] && four[2] == ops[n + 2] && four[3] == ops[n + 3];
      var a := Get(off, s0, ops, n);
      if a.None? {
        return None;
      }
      var b := Get(off + 1, s0, ops, n + 1);
      if b.None? {
        return None;
      }
      var c := Get(off + 2, s0, ops, n + 2);
      if c.None? {
        return None;
      }
      var d := Get(off + 3, s0, ops, n + 3);
      if d.None? {
        return None;
      }
      var u := a.value as int + 0x100 * b.value as int + 0x1_0000 * c.value as int + 0x100_0000 * d.value as int;
      return Some(if u < 0x8000_0000 then u else u - 0x1_0000_0000);
    }

    /** Storing an int: four bytes. */
    method PutInt(off: nat, v: int, ghost s0: P.Vm, ghost ops: seq<HB.Op>, ghost n: nat) returns (ok: bool)
      requires At(s0, ops, n).Here? && off + 4 <= 0xFBC && n + 4 <= |ops| && ops[n..n + 4] == HB.IntPuts(off, v)
      modifies vm.Repr()
      ensures if ok then At(s0, ops, n + 4) == Here(HB.WriteInt(old(At(s0, ops, n)).page, off, v)) else Died(s0, ops)
    {
      hide At, Died;
      ghost var four := ops[n..n + 4];
      assert four[0] == ops[n] && four[1] == ops[n + 1] && four[2] == ops[n + 2] && four[3] == ops[n + 3];
      ok := Put(off, HB.IntByte(v, 0), s0, ops, n);
      if ok {
        ok := Put(off + 1, HB.IntByte(v, 1), s0, ops, n + 1);
      }
      if ok {
        ok := Put(off + 2, HB.IntByte(v, 2), s0, ops, n + 2);
      }
      if ok {
        ok := Put(off + 3, HB.IntByte(v, 3), s0, ops, n + 3);
      }
    }

    /** Setting a mark and adding `delta` to the count of its class. */
    method SetMark(k: nat, c: nat, i: nat, mark: P.byte, delta: int,
                   ghost s0: P.Vm, ghost ops: seq<HB.Op>, ghost n: nat)
      returns (ok: bool)
      requires At(s0, ops, n).Here? && k < H.MAX_TRUNKS && c < 4 && i < H.Slots(c) && n + 9 <= |ops|
      requires ops[n..n + 9] == HB.StoreOps(k, c, i, mark, HB.ReadInt(At(s0, ops, n).page, HB.CountAt(k, c)) + delta)
      modifies vm.Repr()
      ensures if ok then At(s0, ops, n + 9).Here? else Died(s0, ops)
    {
      hide At, Died;
      ghost var count := HB.ReadInt(At(s0, ops, n).page, HB.CountAt(k, c)) + delta;
      StoreParts(ops, n, k, c, i, mark, count);
      HB.LayoutIsApart(k, c, i, k, c, i);
      ok := Put(HB.MarkAt(k, c, i), mark, s0, ops, n);
      if !ok {
        return;
      }
      var v := GetInt(HB.CountAt(k, c), s0, ops, n + 1);
      if v.None? {
        return false;
      }
      ok := PutInt(HB.CountAt(k, c), v.value + delta, s0, ops, n + 5);
    }

    /** The scan of _malloc for a clear mark. */
    method ScanMarks(k: nat, c: nat, ghost s0: P.Vm, ghost ops: seq<HB.Op>, ghost n: nat) returns (r: Option<nat>)
      requires At(s0, ops, n).Here? && k < H.MAX_TRUNKS && c < 4
      requires var l := ScanLength(HB.DecodeRegion(At(s0, ops, n).page, k, c).marks, H.Slots(c));
               n + l <= |ops| && ops[n..n + l] == HB.MarkGets(k, c, l)
      modifies vm.Repr()
      ensures match r
              case None => Died(s0, ops)
              case Some(i) =>
                var marks := HB.DecodeRegion(old(At(s0, ops, n)).page, k, c).marks;
                && At(s0, ops, n + ScanLength(marks, H.Slots(c))) == old(At(s0, ops, n))
                && i == Find(marks, IsClear)
    {
      hide At, Died;
      ghost var place := At(s0, ops, n);
      ghost var marks := HB.DecodeRegion(place.page, k, c).marks;
      ghost var l := ScanLength(marks, H.Slots(c));
      ghost var gets := ops[n..n + l];
      var i := 0;
      while i < H.Slots(c)
        invariant i <= H.Slots(c) && At(s0, ops, n + i) == place
        invariant forall j :: 0 <= j < i ==> marks[j]
      {
        FindIsAtLeast(marks, i);
        assert gets[i] == ops[n + i];
        var b := Get(HB.MarkAt(k, c, i), s0, ops, n + i);
        if b.None? {
          return None;
        }
        if b.value == 0 {
          FindIs(marks, IsClear, i);
          return Some(i);
        }
        i := i + 1;
      }
      FindIs(marks, IsClear, i);
      return Some(i);
    }

    /** _malloc on record `k`: None when the process ends, Some(None) for NULL, else the offset in the trunk. */
    method TryMalloc(k: nat, size: nat, ghost s0: P.Vm, ghost ops: seq<HB.Op>, ghost n: nat)
      returns (r: Option<Option<nat>>)
      requires At(s0, ops, n).Here? && k < H.MAX_TRUNKS && H.RecordOk(HB.DecodeRecord(At(s0, ops, n).page, k))
      requires var t := HB.TryOps(HB.DecodeRecord(At(s0, ops, n).page, k), k, size);
               n + |t| <= |ops| && ops[n..n + |t|] == t
      modifies vm.Repr()
      ensures var record := HB.DecodeRecord(old(At(s0, ops, n)).page, k);
              match r
              case None => Died(s0, ops)
              case Some(o) =>
                && At(s0, ops, n + |HB.TryOps(record, k, size)|).Here? && o == H.TryMalloc(record, size).1
                && (o.None? ==> At(s0, ops, n + |HB.TryOps(record, k, size)|) == old(At(s0, ops, n)))
    {
      hide At, Died, HB.DecodeRecord, HB.DecodeRegion;
      var served := H.ClassOf(size);
      if served.None? {
        return Some(None);
      }
      ghost var record := HB.DecodeRecord(At(s0, ops, n).page, k);
      TryParts(ops, n, record, k, served.value, size);
      HB.RecordRegion(At(s0, ops, n).page, k, served.value);
      hide HB.TryOps, H.TryMalloc, H.RecordOk, ScanLength;
      r := TryClass(k, served.value, s0, ops, n, record[served.value]);
    }

    /** _malloc in the class that serves the request. */
    method TryClass(k: nat, c: nat, ghost s0: P.Vm, ghost ops: seq<HB.Op>, ghost n: nat, ghost region: H.Region)
      returns (r: Option<Option<nat>>)
      requires At(s0, ops, n).Here? && k < H.MAX_TRUNKS && c < 4 && region == HB.DecodeRegion(At(s0, ops, n).page, k, c)
      requires n + 4 <= |ops| && ops[n..n + 4] == HB.IntGets(HB.CountAt(k, c))
      requires region.count < H.Slots(c) ==> Find(region.marks, IsClear) < H.Slots(c)
      requires region.count < H.Slots(c) ==>
                 var i := Find(region.marks, IsClear);
                 && n + 4 + i + 10 <= |ops| && ops[n + 4..n + 4 + i + 1] == HB.MarkGets(k, c, i + 1)
                 && ops[n + 4 + i + 1..n + 4 + i + 10] == HB.StoreOps(k, c, i, 1, region.count + 1)
      modifies vm.Repr()
      ensures var i := Find(region.marks, IsClear);
              match r
              case None => Died(s0, ops)
              case Some(o) =>
                if region.count >= H.Slots(c) then At(s0, ops, n + 4) == old(At(s0, ops, n)) && o == None
                else At(s0, ops, n + 4 + i + 10).Here? && o == Some(c * 0x400 + i * H.SlotSize(c))
    {
      hide At, Died;
      var v := GetInt(HB.CountAt(k, c), s0, ops, n);
      if v.None? {
        return None;
      }
      if v.value >= H.Slots(c) {
        return Some(None);
      }
      r := MarkFirstClear(k, c, s0, ops, n + 4, region);
    }

    /** The rest, with a slot of the class free: the first is marked. */
    method MarkFirstClear(k: nat, c: nat, ghost s0: P.Vm, ghost ops: seq<HB.Op>, ghost n: nat, ghost region: H.Region)
      returns (r: Option<Option<nat>>)
      requires At(s0, ops, n).Here? && k < H.MAX_TRUNKS && c < 4 && region == HB.DecodeRegion(At(s0, ops, n).page, k, c)
      requires Find(region.marks, IsClear) < H.Slots(c)
      requires var i := Find(region.marks, IsClear);
               && n + i + 10 <= |ops| && ops[n..n + i + 1] == HB.MarkGets(k, c, i + 1)
               && ops[n + i + 1..n + i + 10] == HB.StoreOps(k, c, i, 1, region.count + 1)
      modifies vm.Repr()
      ensures var i := Find(region.marks, IsClear);
              match r
              case None => Died(s0, ops)
              case Some(o) => At(s0, ops, n + i + 10).Here? && o == Some(c * 0x400 + i * H.SlotSize(c))
    {
      hide At, Died;
      var i := ScanMarks(k, c, s0, ops, n);
      if i.None? {
        return None;
      }
      var ok := SetMark(k, c, i.value, 1, 1, s0, ops, n + i.value + 1);
      if !ok {
        return None;
      }
      return Some(Some(c * 0x400 + i.value * H.SlotSize(c)));
    }

    /** The walk of my_malloc over the trunks in use: None when the process ends, Some(None) when none of them can serve
        the request. */
    method ScanTrunks(trunks: nat, size: nat, ghost s0: P.Vm, ghost ops: seq<HB.Op>, ghost h: H.Heap)
      returns (r: Option<Option<nat>>)
      requires At(s0, ops, 0).Here? && Walkable(At(s0, ops, 0).page, trunks, size, h) && ops == WalkOps(h, size)
      modifies vm.Repr()
      ensures match r
              case None => Died(s0, ops)
              case Some(o) => At(s0, ops, |ops|).Here? && Found(h, size, o)
    {
      hide At, Died, H.RecordOk, HB.DecodeRecord, ScanOps, HB.TryOps, H.TryMalloc, H.FirstFit;
      ghost var place := At(s0, ops, 0);
      ghost var k := H.FirstFit(h, size, 0);
      ScanLengths(h, size, 0);
      var i := 0;
      while i < trunks
        invariant i <= trunks && i <= k && At(s0, ops, |ScanOps(h.records, size, i)|) == place
      {
        ScanLengths(h, size, i);
        assert h.records[i] == HB.DecodeRecord(place.page, i);
        r := TryMalloc(i, size, s0, ops, |ScanOps(h.records, size, i)|);
        if r.None? {
          return;
        }
        if r.value.Some? {
          return Some(Some(i * 0x1000 + r.value.value));
        }
        i := i + 1;
      }
      return Some(None);
    }

    /** The whole walk, from the state that the walk begins in. */
    method Walk(trunks: nat, size: nat, ghost h: H.Heap) returns (r: Option<Option<nat>>)
      requires vm.Valid() && HasMetadata(vm.State()) && Walkable(PageOf(vm.State()), trunks, size, h)
      modifies vm.Repr()
      ensures match r
              case None => Died(old(vm.State()), WalkOps(h, size))
              case Some(o) => vm.Valid() && Did(old(vm.State()), WalkOps(h, size), vm.State()) && Found(h, size, o)
    {
      ghost var s, ops := vm.State(), WalkOps(h, size);
      DidNothing(s);
      assert ops[..0] == [] && ops[..|ops|] == ops;
      hide Walkable, Found, WalkOps, HB.InPage, Did, Died, PageOf, HasMetadata;
      r := ScanTrunks(trunks, size, s, ops, h);
    }

    /** One try, from the state that it begins in. */
    method Try(k: nat, size: nat, ghost record: H.Record) returns (r: Option<Option<nat>>)
      requires vm.Valid() && Triable(vm.State(), k, size, record)
      modifies vm.Repr()
      ensures match r
              case None => Died(old(vm.State()), HB.TryOps(record, k, size))
              case Some(o) =>
                && vm.Valid() && Did(old(vm.State()), HB.TryOps(record, k, size), vm.State())
                && o == H.TryMalloc(record, size).1
    {
      ghost var s, ops := vm.State(), HB.TryOps(record, k, size);
      DidNothing(s);
      assert ops[..0] == [] && ops[..|ops|] == ops && ops[0..|ops|] == ops;
      hide H.RecordOk, HB.TryOps, HB.InPage, HB.DecodeRecord, Did, Died, PageOf, HasMetadata, H.TryMalloc;
      r := TryMalloc(k, size, s, ops, 0);
    }

    /** One release, from the state that it begins in. */
    method Release(k: nat, offset: nat, ghost record: H.Record) returns (ok: bool)
      requires vm.Valid() && HasMetadata(vm.State()) && Freeable(PageOf(vm.State()), k, offset, record)
      modifies vm.Repr()
      ensures if ok then vm.Valid() && Did(old(vm.State()), HB.FreeOps(record, k, offset), vm.State())
              else Died(old(vm.State()), HB.FreeOps(record, k, offset))
    {
      ghost var s, ops := vm.State(), HB.FreeOps(record, k, offset);
      DidNothing(s);
      assert ops[..0] == [] && ops[..|ops|] == ops && ops[0..|ops|] == ops;
      hide H.RecordOk, HB.FreeOps, HB.InPage, HB.DecodeRecord, HB.Clean, Did, Died, PageOf, HasMetadata;
      ok := FreeAt(k, offset, s, ops, 0);
    }

    /** _free on record `k`. */
    method FreeAt(k: nat, offset: nat, ghost s0: P.Vm, ghost ops: seq<HB.Op>, ghost n: nat) returns (ok: bool)
      requires At(s0, ops, n).Here? && k < H.MAX_TRUNKS && offset < 0x1000 && HB.Clean(At(s0, ops, n).page)
      requires H.RecordOk(HB.DecodeRecord(At(s0, ops, n).page, k))
      requires var t := HB.FreeOps(HB.DecodeRecord(At(s0, ops, n).page, k), k, offset);
               n + |t| <= |ops| && ops[n..n + |t|] == t
      modifies vm.Repr()
      ensures if ok then At(s0, ops, n + |HB.FreeOps(HB.DecodeRecord(old(At(s0, ops, n)).page, k), k, offset)|).Here?
              else Died(s0, ops)
    {
      hide At, Died, H.RecordOk, HB.DecodeRecord;
      ghost var record := HB.DecodeRecord(At(s0, ops, n).page, k);
      var c := offset / 0x400;
      if offset % H.SlotSize(c) != 0 {
        return true;
      }
      var slot := (offset - c * 0x400) / H.SlotSize(c);
      HP.OffsetInRegion(c, offset - c * 0x400);
      FreeParts(ops, n, record, k, c, slot, offset);
      HB.RecordRegion(At(s0, ops, n).page, k, c);
      hide HB.FreeOps, HB.Clean;
      CleanMark(At(s0, ops, n).page, k, c, slot);
      var v := GetInt(HB.CountAt(k, c), s0, ops, n);
      if v.None? {
        return false;
      }
      if v.value == 0 {
        return true;
      }
      var mark := Get(HB.MarkAt(k, c, slot), s0, ops, n + 4);
      if mark.None? {
        return false;
      }
      if mark.value == 1 {
        ok := SetMark(k, c, slot, 0, -1, s0, ops, n + 5);
        return;
      }
      return true;
    }
  }

  // ---- what one access is ----

  lemma OneApplied(page: P.Page, ops: seq<HB.Op>, n: nat)
    requires n < |ops| && HB.InPage(ops)
    ensures HB.InPage([ops[n]])
    ensures HB.Apply(page, [ops[n]]) == if ops[n].Put? then P.WithByte(page, ops[n].off, ops[n].value) else page
  {
    assert [ops[n]][1..] == [];
  }

  lemma GetIs(s: P.Vm, off: nat)
    requires HasMetadata(s) && off < 0xFBC
    ensures match P.Touch(s, 0, off)
            case Done(s') =>
              && Did(s, [HB.Get(off)], s') && HasMetadata(s') && PageOf(s') == PageOf(s)
              && |s'.window| > 0 && s'.window[0] == PageOf(s)
            case _ => Died(s, [HB.Get(off)])
  {
    R.TouchRefines(s, 0, off);
    hide PI.FramesOk, PI.SlotsOk;
    R.AfterOne(s, R.Read(0, off));
    assert Touches([HB.Get(off)]) == [R.Read(0, off)];
  }

  lemma PutIs(s: P.Vm, off: nat, b: P.byte)
    requires HasMetadata(s) && off < 0xFBC
    ensures match P.Touch(s, 0, off)
            case Done(s1) =>
              && |s1.window| > 0
              && var s' := s1.(window := s1.window[0 := P.WithByte(s1.window[0], off, b)]);
                 Did(s, [HB.Put(off, b)], s')
            case _ => Died(s, [HB.Put(off, b)])
  {
    R.TouchRefines(s, 0, off);
    hide PI.FramesOk, PI.SlotsOk;
    R.AfterOne(s, R.Write(0, off, b));
    assert Touches([HB.Put(off, b)]) == [R.Write(0, off, b)];
  }

  // ---- the parts of a sequence of loads and stores ----

  lemma SliceOf(ops: seq<HB.Op>, n: nat, t: seq<HB.Op>, a: nat, b: nat)
    requires n + |t| <= |ops| && ops[n..n + |t|] == t && a <= b <= |t|
    ensures ops[n + a..n + b] == t[a..b]
  {
    var u := ops[n + a..n + b];
    forall i | 0 <= i < b - a
      ensures u[i] == t[a..b][i]
    {
      assert ops[n..n + |t|][a + i] == t[a + i];
    }
  }

  lemma StoreParts(ops: seq<HB.Op>, n: nat, k: nat, c: nat, i: nat, mark: P.byte, count: int)
    requires k < H.MAX_TRUNKS && c < 4 && i < H.Slots(c) && n + 9 <= |ops|
    requires ops[n..n + 9] == HB.StoreOps(k, c, i, mark, count)
    ensures ops[n] == HB.Put(HB.MarkAt(k, c, i), mark)
    ensures ops[n + 1..n + 5] == HB.IntGets(HB.CountAt(k, c))
    ensures ops[n + 5..n + 9] == HB.IntPuts(HB.CountAt(k, c), count)
  {
    var t := ops[n..n + 9];
    assert t[0] == ops[n];
    assert t[1..5] == HB.IntGets(HB.CountAt(k, c)) && t[5..9] == HB.IntPuts(HB.CountAt(k, c), count);
    SliceOf(ops, n, t, 1, 5);
    SliceOf(ops, n, t, 5, 9);
  }

  /** How many marks the scan looks at. */
  function ScanLength(marks: seq<bool>, slots: nat): (n: nat)
    requires |marks| == slots
    ensures n <= slots
  {
    var i := Find(marks, IsClear);
    if i == slots then slots else i + 1
  }

  lemma FindIsAtLeast(marks: seq<bool>, i: nat)
    requires i < |marks| && forall j :: 0 <= j < i ==> marks[j]
    ensures i < ScanLength(marks, |marks|)
  {
  }

  lemma TryParts(ops: seq<HB.Op>, n: nat, record: H.Record, k: nat, c: nat, size: nat)
    requires k < H.MAX_TRUNKS && H.RecordOk(record) && H.ClassOf(size) == Some(c) && c < 4
    requires var t := HB.TryOps(record, k, size); n + |t| <= |ops| && ops[n..n + |t|] == t
    ensures |record[c].marks| == H.Slots(c) && n + 4 <= |ops| && ops[n..n + 4] == HB.IntGets(HB.CountAt(k, c))
    ensures record[c].count >= H.Slots(c) ==> |HB.TryOps(record, k, size)| == 4 && H.TryMalloc(record, size).1.None?
    ensures record[c].count < H.Slots(c) ==>
              var i := Find(record[c].marks, IsClear);
              && H.TryMalloc(record, size).1 == Some(c * 0x400 + i * H.SlotSize(c))
              && i < H.Slots(c) && ScanLength(record[c].marks, H.Slots(c)) == i + 1
              && |HB.TryOps(record, k, size)| == 4 + i + 1 + 9 && n + 4 + i + 1 + 9 <= |ops|
              && ops[n + 4..n + 4 + i + 1] == HB.MarkGets(k, c, i + 1)
              && ops[n + 4 + i + 1..n + 4 + i + 1 + 9] == HB.StoreOps(k, c, i, 1, record[c].count + 1)
  {
    HB.CountBounds(record, c);
    HP.CountCheckAgrees(record, c);
    hide H.RecordOk;
    var t := HB.TryOps(record, k, size);
    var i := Find(record[c].marks, IsClear);
    var gets, marks, stores := HB.IntGets(HB.CountAt(k, c)), [], [];
    if record[c].count < H.Slots(c) {
      marks, stores := HB.MarkGets(k, c, i + 1), HB.StoreOps(k, c, i, 1, record[c].count + 1);
    }
    assert t == gets + marks + stores;
    hide H.ClassOf, HB.TryOps, HB.IntGets, HB.MarkGets, HB.StoreOps, H.TryMalloc;
    SliceOf(ops, n, t, 0, 4);
    if record[c].count < H.Slots(c) {
      SliceOf(ops, n, t, 4, 4 + i + 1);
      SliceOf(ops, n, t, 4 + i + 1, 4 + i + 1 + 9);
    }
  }

  /** What the walk asks of the page. */
  ghost predicate Walkable(page: P.Page, trunks: nat, size: nat, h: H.Heap)
    ensures Walkable(page, trunks, size, h) ==>
              H.Records(h) && |h.records| == H.MAX_TRUNKS && HB.InPage(WalkOps(h, size))
  {
    && trunks == h.trunks <= H.MAX_TRUNKS && h.records == HB.Decode(page)
    && H.Records(h) && (forall k :: 0 <= k < H.MAX_TRUNKS ==> H.RecordOk(h.records[k]))
    && HB.InPage(WalkOps(h, size))
  }

  ghost predicate Triable(s: P.Vm, k: nat, size: nat, record: H.Record) {
    && HasMetadata(s) && k < H.MAX_TRUNKS && record == HB.DecodeRecord(PageOf(s), k) && H.RecordOk(record)
    && HB.InPage(HB.TryOps(record, k, size))
  }

  ghost predicate Freeable(page: P.Page, k: nat, offset: nat, record: H.Record) {
    && k < H.MAX_TRUNKS && offset < 0x1000 && record == HB.DecodeRecord(page, k) && H.RecordOk(record) && HB.Clean(page)
    && HB.InPage(HB.FreeOps(record, k, offset))
  }

  /** What the walk finds: the block in the first trunk that can serve the request. */
  ghost predicate Found(h: H.Heap, size: nat, o: Option<nat>)
    requires H.Records(h)
  {
    var k := H.FirstFit(h, size, 0);
    if k == h.trunks then o == None
    else
      && H.TryMalloc(h.records[k], size).1.Some?
      && o == Some(k * 0x1000 + H.TryMalloc(h.records[k], size).1.value)
  }

  /** How many trunks my_malloc looks at. */
  ghost function Walked(h: H.Heap, size: nat): (n: nat)
    requires H.Records(h)
    ensures n <= h.trunks
  {
    var k := H.FirstFit(h, size, 0);
    if k < h.trunks then k + 1 else k
  }

  ghost function WalkOps(h: H.Heap, size: nat): (ops: seq<HB.Op>)
    requires H.Records(h) && |h.records| == H.MAX_TRUNKS
  {
    ScanOps(h.records, size, Walked(h, size))
  }

  lemma {:induction false} ScanIsPrefix(rs: seq<H.Record>, size: nat, i: nat, n: nat)
    requires i <= n <= |rs| <= H.MAX_TRUNKS && forall k :: 0 <= k < |rs| ==> |rs[k]| == 4
    ensures ScanOps(rs, size, i) <= ScanOps(rs, size, n)
    decreases n
  {
    hide HB.TryOps;
    if i < n {
      ScanIsPrefix(rs, size, i, n - 1);
    }
  }

  /** Where in the walk trunk `i` is tried. */
  lemma ScanLengths(h: H.Heap, size: nat, i: nat)
    requires H.Records(h) && i <= h.trunks <= |h.records| == H.MAX_TRUNKS && i <= H.FirstFit(h, size, 0)
    ensures |ScanOps(h.records, size, 0)| == 0
    ensures var ops := ScanOps(h.records, size, Walked(h, size));
            if i == Walked(h, size) then i == h.trunks && ScanOps(h.records, size, i) == ops
            else
              var t := HB.TryOps(h.records[i], i, size);
              var n := |ScanOps(h.records, size, i)|;
              && i < h.trunks && n + |t| <= |ops| && ops[n..n + |t|] == t
              && |ScanOps(h.records, size, i + 1)| == n + |t|
              && (H.TryMalloc(h.records[i], size).1.Some? <==> i == H.FirstFit(h, size, 0))
              && (i == H.FirstFit(h, size, 0) ==> n + |t| == |ops|)
  {
    hide HB.TryOps, H.TryMalloc, H.FirstFit;
    if i < Walked(h, size) {
      ScanIsPrefix(h.records, size, i + 1, Walked(h, size));
    }
  }

  lemma FreeParts(ops: seq<HB.Op>, n: nat, record: H.Record, k: nat, c: nat, slot: nat, offset: nat)
    requires H.RecordOk(record) && k < H.MAX_TRUNKS && offset < 0x1000 && c == offset / 0x400
    requires offset % H.SlotSize(c) == 0 && slot == (offset - c * 0x400) / H.SlotSize(c) && slot < H.Slots(c)
    requires var t := HB.FreeOps(record, k, offset); n + |t| <= |ops| && ops[n..n + |t|] == t
    ensures |record[c].marks| == H.Slots(c) && n + 4 <= |ops| && ops[n..n + 4] == HB.IntGets(HB.CountAt(k, c))
    ensures record[c].count == 0 ==> |HB.FreeOps(record, k, offset)| == 4
    ensures record[c].count != 0 ==> n + 4 < |ops| && ops[n + 4] == HB.Get(HB.MarkAt(k, c, slot))
    ensures record[c].count != 0 && !record[c].marks[slot] ==> |HB.FreeOps(record, k, offset)| == 5
    ensures record[c].count != 0 && record[c].marks[slot] ==>
              && |HB.FreeOps(record, k, offset)| == 14 && n + 14 <= |ops|
              && ops[n + 5..n + 14] == HB.StoreOps(k, c, slot, 0, record[c].count - 1)
  {
    HB.CountBounds(record, c);
    var t := HB.FreeOps(record, k, offset);
    SliceOf(ops, n, t, 0, 4);
    if record[c].count != 0 {
      SliceOf(ops, n, t, 4, 5);
      assert ops[n + 4] == ops[n + 4..n + 5][0];
      if record[c].marks[slot] {
        SliceOf(ops, n, t, 5, 14);
      }
    }
  }

  lemma CleanMark(page: P.Page, k: nat, c: nat, i: nat)
    requires k < H.MAX_TRUNKS && c < 4 && i < H.Slots(c) && HB.Clean(page)
    ensures page[HB.MarkAt(k, c, i)] == 1 <==> HB.DecodeRegion(page, k, c).marks[i]
  {
    assert page[HB.MarkAt(k, c, i)] <= 1;
  }

  // ---- the allocator ----

  /** The memory of CURRENT. */
  ghost function MemOf(s: P.Vm): (mem: Memory)
    requires PI.Inv(s) && s.cur.Some?
  {
    PR.Abs(s).mem[s.cur.value]
  }

  /** CURRENT's pages are its allocator's. */
  ghost predicate OwnsIn(s: P.Vm, c: Control) {
    PI.Inv(s) && s.cur.Some? && |s.window| > H.MAX_TRUNKS && Owns(c, MemOf(s))
  }

  ghost function HeapIn(s: P.Vm, c: Control): (h: H.Heap)
    requires OwnsIn(s, c)
  {
    HeapOf(c, MemOf(s))
  }

  class ThreadHeap {
    var init: bool                     // heap_init
    var trunks: nat                    // heap_trunk_count
    const vm: VM.VirtualMemory
    const page: MetadataPage           // g_metadata

    ghost function Repr(): set<object> { {this} + vm.Repr() }

    ghost predicate Valid()
      reads Repr()
    {
      this !in vm.Repr() && page.vm == vm && vm.Valid() && OwnsIn(vm.State(), Control(init, trunks))
    }

    ghost function Heap(): (h: H.Heap)
      requires Valid()
      reads Repr()
    {
      HeapIn(vm.State(), Control(init, trunks))
    }

    /** The heap of a thread whose control block has just been zeroed and which has no page. */
    constructor (vm: VM.VirtualMemory)
      requires vm.Valid() && OwnsIn(vm.State(), Control(false, 0))
      ensures Valid() && this.vm == vm && Heap() == H.NewHeap()
    {
      this.vm := vm;
      init, trunks := false, 0;
      page := new MetadataPage(vm);
    }

    /** One call of mm_allocate_page; false when the process ends. */
    method TakePage() returns (ok: bool)
      requires vm.Valid() && PI.Inv(vm.State()) && vm.cur.Some?
      modifies vm.Repr()
      ensures if ok then vm.Valid() && R.After(old(vm.State()), [R.Allocate]) == R.To(vm.State())
              else R.After(old(vm.State()), [R.Allocate]) == R.Dies
    {
      TakeIs(vm.State());
      var r := vm.AllocatePage();
      ok := r.Some?;
    }

    /** set_heap_init and set_heap_trunk_count. */
    method SetTrunks(n: nat)
      requires this !in vm.Repr() && page.vm == vm && vm.Valid() && OwnsIn(vm.State(), Control(true, n))
      modifies this
      ensures Valid() && init && vm.State() == old(vm.State()) && Heap() == old(HeapIn(vm.State(), Control(true, n)))
    {
      hide OwnsIn;
      trunks := n;
      init := true;
    }

    /** The two calls of mm_allocate_page in my_malloc_init. */
    method TakeTwoPages() returns (ok: bool)
      requires vm.Valid() && OwnsIn(vm.State(), Control(false, 0))
      modifies vm.Repr()
      ensures if ok then vm.Valid() && R.After(old(vm.State()), [R.Allocate, R.Allocate]) == R.To(vm.State())
              else R.After(old(vm.State()), [R.Allocate, R.Allocate]) == R.Dies
    {
      ghost var s := vm.State();
      InitIsLegal(s, Control(false, 0));
      hide OwnsIn, R.After, R.LegalRun;
      ok := TakePage();
      if !ok {
        R.DiesBefore(s, [R.Allocate], [R.Allocate]);
        return;
      }
      ghost var s1 := vm.State();
      TakenMeans(s, s1);
      ok := TakePage();
      if !ok {
        R.AfterThenDies(s, [R.Allocate], s1, [R.Allocate]);
        return;
      }
      R.AfterThen(s, [R.Allocate], s1, [R.Allocate], vm.State());
    }

    /** my_malloc_init; false when the process ends. */
    method MyMallocInit() returns (ok: bool)
      requires Valid() && !init
      modifies Repr()
      ensures if ok then
                && Valid() && init && R.After(old(vm.State()), [R.Allocate, R.Allocate]) == R.To(vm.State())
                && Heap() == H.Initialised(old(Heap()))
              else R.After(old(vm.State()), [R.Allocate, R.Allocate]) == R.Dies
    {
      ghost var s := vm.State();
      InitOwns(s, Control(init, trunks));
      hide OwnsIn, R.After;
      ok := TakeTwoPages();
      if ok {
        InitMeans(s, Control(false, 0), vm.State());
        SetTrunks(1);
      }
    }

    /** my_malloc: None when the process ends, Some(None) for NULL, else the address, counted from the first trunk. */
    method MyMalloc(size: nat) returns (r: Option<Option<nat>>)
      requires Valid() && H.HasRoom(H.Initialised(Heap()), size)
      modifies Repr()
      ensures match r
              case None => R.After(old(vm.State()), MallocEvents(old(Heap()), size)) == R.Dies
              case Some(p) =>
                && Valid() && R.After(old(vm.State()), MallocEvents(old(Heap()), size)) == R.To(vm.State())
                && (Heap(), p) == H.Malloc(old(Heap()), size)
    {
      ghost var s, c := vm.State(), Control(init, trunks);
      MallocIsLegal(s, c, size);
      hide OwnsIn, R.After, R.LegalRun, MallocRest, H.HasRoom, H.Malloc;
      if !init {
        var ok := MyMallocInit();
        if !ok {
          R.DiesBefore(s, [R.Allocate, R.Allocate], MallocRest(H.Initialised(HeapIn(s, c)), size));
          return None;
        }
      } else {
        R.AfterNothing(s);
      }
      ghost var s1 := vm.State();
      r := Serve(size);
      MallocComposes(s, c, s1, size, if r.Some? then R.To(vm.State()) else R.Dies);
    }

    /** The rest of my_malloc, on an initialised heap. */
    method Serve(size: nat) returns (r: Option<Option<nat>>)
      requires Valid() && init && H.HasRoom(Heap(), size)
      modifies Repr()
      ensures match r
              case None => R.After(old(vm.State()), MallocRest(old(Heap()), size)) == R.Dies
              case Some(p) =>
                && Valid() && init && R.After(old(vm.State()), MallocRest(old(Heap()), size)) == R.To(vm.State())
                && (Heap(), p) == H.Malloc(old(Heap()), size)
    {
      ghost var s, c, h := vm.State(), Control(true, trunks), Heap();
      ReadyStarts(s, c, size);
      hide ReadyIn;
      WalkStarts(s, c, h, size);
      hide OwnsIn, H.HasRoom, H.Malloc, H.FirstFit, R.After, MallocRest, WalkOps, Did, Died, Found, Walkable;
      hide HasMetadata;
      r := page.Walk(trunks, size, h);
      if r.None? {
        WalkDies(s, c, h, size);
        return;
      }
      ghost var s1 := vm.State();
      if r.value.Some? {
        WalkServes(s, c, h, size, s1, r.value);
        return;
      }
      WalkMeans(s, c, h, size, s1);
      r := Grow(size);
      GrowComposes(s, c, h, size, s1, if r.Some? then R.To(vm.State()) else R.Dies);
    }

    /** my_free for an address counted from the first trunk; false when the process ends. */
    method MyFree(p: int) returns (ok: bool)
      requires Valid() && init && p < H.MAX_TRUNKS * 0x1000
      modifies vm.Repr()
      ensures ok ==> Valid() && Heap() == H.Free(old(Heap()), p)
      ensures p < 0 ==> ok && vm.State() == old(vm.State())
      ensures p >= 0 ==>
                R.After(old(vm.State()), FreeEvents(old(Heap()), p)) == if ok then R.To(vm.State()) else R.Dies
    {
      if p < 0 {
        return true;
      }
      ghost var s, c, h := vm.State(), Control(init, trunks), Heap();
      FreeStarts(s, c, p);
      hide OwnsIn, R.After, Freeable, H.Free, HasMetadata;
      ok := page.Release(p / 0x1000, p % 0x1000, h.records[p / 0x1000]);
      if ok {
        FreeMeans(s, c, p, vm.State());
      }
    }

    /** The end of my_malloc: one more trunk, and a second try there. */
    method Grow(size: nat) returns (r: Option<Option<nat>>)
      requires Valid() && init && H.HasRoom(Heap(), size) && H.FirstFit(Heap(), size, 0) == trunks
      modifies Repr()
      ensures match r
              case None => R.After(old(vm.State()), GrowEvents(old(Heap()), size)) == R.Dies
              case Some(p) =>
                && Valid() && init && R.After(old(vm.State()), GrowEvents(old(Heap()), size)) == R.To(vm.State())
                && (Heap(), p) == H.Malloc(old(Heap()), size)
    {
      ghost var s, c, h := vm.State(), Control(true, trunks), Heap();
      ReadyStarts(s, c, size);
      hide ReadyIn;
      GrowStarts(s, c, h, size);
      hide OwnsIn, H.HasRoom, H.Malloc, H.FirstFit, R.After;
      r := TryNewTrunk(trunks, size, h);
      if r.Some? {
        SetTrunks(trunks + 1);
      }
    }

    /** The page of the new trunk and the try in it. */
    method TryNewTrunk(k: nat, size: nat, ghost h: H.Heap) returns (r: Option<Option<nat>>)
      requires page.vm == vm && vm.Valid() && ReadyIn(vm.State(), Control(true, k), h, size)
      requires H.Records(h) && H.FirstFit(h, size, 0) == h.trunks == k < H.MAX_TRUNKS
      modifies vm.Repr()
      ensures match r
              case None => R.After(old(vm.State()), GrowEvents(h, size)) == R.Dies
              case Some(p) => vm.Valid() && Grown(old(vm.State()), h, size, vm.State(), p)
    {
      ghost var s, c := vm.State(), Control(true, k);
      GrowStarts(s, c, h, size);
      RunsWhenReady(s, c, h, size);
      hide ReadyIn, OwnsIn, H.HasRoom, H.Malloc, H.FirstFit, R.LegalRun, R.After, Did, Triable, H.TryMalloc, HB.TryOps;
      hide Grown, InTrunk, HasMetadata, PI.Inv;
      ghost var ops := HB.TryOps(h.records[k], k, size);
      var ok := TakePage();
      if !ok {
        R.DiesBefore(s, [R.Allocate], Touches(ops));
        return None;
      }
      ghost var s1 := vm.State();
      TrunkTaken(s, c, h, size, s1);
      var o := page.Try(k, size, h.records[k]);
      if o.None? {
        R.AfterThenDies(s, [R.Allocate], s1, Touches(ops));
        return None;
      }
      GrowMeans(s, c, h, size, s1, vm.State());
      return Some(InTrunk(k, o.value));
    }
  }

  lemma RunsWhenReady(s: P.Vm, c: Control, h: H.Heap, size: nat)
    requires ReadyIn(s, c, h, size)
    ensures PI.Inv(s) && s.cur.Some?
  {
  }

  // ---- my_free ----

  lemma FreeStarts(s: P.Vm, c: Control, p: nat)
    requires OwnsIn(s, c) && c.init && p < H.MAX_TRUNKS * 0x1000
    ensures HasMetadata(s) && H.Records(HeapIn(s, c))
    ensures Freeable(PageOf(s), p / 0x1000, p % 0x1000, HeapIn(s, c).records[p / 0x1000])
  {
    var h, page, k := HeapIn(s, c), PageOf(s), p / 0x1000;
    HP.InitialisedKeeps(h);
    hide PI.FramesOk, PI.SlotsOk, HB.Clean, H.RecordOk, HB.DecodeRecord;
    assert h.records[k] == HB.DecodeRecord(page, k);
    HB.FreeDecodes(page, k, p % 0x1000);
  }

  lemma FreeMeans(s: P.Vm, c: Control, p: nat, s': P.Vm)
    requires OwnsIn(s, c) && c.init && p < H.MAX_TRUNKS * 0x1000 && H.Records(HeapIn(s, c))
    requires R.After(s, FreeEvents(HeapIn(s, c), p)) == R.To(s')
    ensures OwnsIn(s', c) && HeapIn(s', c) == H.Free(HeapIn(s, c), p)
  {
    FreeRuns(PR.Abs(s), c, p, |s.window|);
    hide R.LegalRun, R.SpecRun, R.After, Owns, H.Inv, PI.FramesOk, PI.SlotsOk, FreeEvents;
    R.AfterKeeps(s, FreeEvents(HeapIn(s, c), p), s');
  }

  lemma TakeIs(s: P.Vm)
    requires PI.Inv(s) && P.Running(s)
    ensures match P.AllocatePage(s)
            case None => R.After(s, [R.Allocate]) == R.Dies
            case Some((s', _)) => R.After(s, [R.Allocate]) == R.To(s')
  {
    hide PI.FramesOk, PI.SlotsOk, P.AllocatePage;
    R.AfterOne(s, R.Allocate);
  }

  lemma TakenMeans(s: P.Vm, s1: P.Vm)
    requires PI.Inv(s) && s.cur.Some? && R.After(s, [R.Allocate]) == R.To(s1)
    ensures PI.Inv(s1) && s1.cur == s.cur
  {
    R.AfterKeeps(s, [R.Allocate], s1);
  }

  lemma InitIsLegal(s: P.Vm, c: Control)
    requires OwnsIn(s, c) && !c.init
    ensures R.LegalRun(PR.Abs(s), [R.Allocate] + [R.Allocate], |s.window|)
    ensures [R.Allocate] + [R.Allocate] == [R.Allocate, R.Allocate]
  {
    var m := InitRuns(PR.Abs(s), |s.window|);
  }

  lemma InitOwns(s: P.Vm, c: Control)
    requires OwnsIn(s, c) && !c.init
    ensures c == Control(false, 0)
  {
  }

  lemma InitMeans(s: P.Vm, c: Control, s': P.Vm)
    requires OwnsIn(s, c) && !c.init && R.After(s, [R.Allocate, R.Allocate]) == R.To(s')
    ensures OwnsIn(s', Control(true, 1)) && HeapIn(s', Control(true, 1)) == H.Initialised(HeapIn(s, c))
  {
    var m := InitRuns(PR.Abs(s), |s.window|);
    R.AfterKeeps(s, [R.Allocate, R.Allocate], s');
  }

  // ---- my_malloc in parts ----

  ghost predicate ReadyIn(s: P.Vm, c: Control, h: H.Heap, size: nat) {
    && OwnsIn(s, c) && c.init && h == HeapIn(s, c) && Ready(PR.Abs(s), c, h, size) && H.Inv(H.Malloc(h, size).0)
  }

  lemma ReadyStarts(s: P.Vm, c: Control, size: nat)
    requires OwnsIn(s, c) && c.init && H.HasRoom(HeapIn(s, c), size)
    ensures ReadyIn(s, c, HeapIn(s, c), size)
  {
    HP.InitialisedKeeps(HeapIn(s, c));
    MallocKeeps(HeapIn(s, c), size);
  }

  lemma ReadyPage(s: P.Vm, c: Control, h: H.Heap, size: nat)
    requires ReadyIn(s, c, h, size)
    ensures HasMetadata(s) && HB.Decode(PageOf(s)) == h.records && HB.Clean(PageOf(s)) && Did(s, [], s)
    ensures h.trunks == c.trunks <= H.MAX_TRUNKS && H.Records(h)
    ensures forall k :: 0 <= k < H.MAX_TRUNKS ==>
              h.records[k] == HB.DecodeRecord(PageOf(s), k) && H.RecordOk(h.records[k])
  {
    ReadyMetadata(PR.Abs(s), c, h, size);
    DidNothing(s);
  }

  /** The walk begins. */
  lemma WalkStarts(s: P.Vm, c: Control, h: H.Heap, size: nat)
    requires ReadyIn(s, c, h, size)
    ensures HasMetadata(s) && Walkable(PageOf(s), c.trunks, size, h)
  {
    ReadyPage(s, c, h, size);
    hide ReadyIn, HasMetadata, Walkable, HB.Clean, HB.Decode, HB.DecodeRecord;
    WalkableWhenOk(PageOf(s), h, size);
  }

  lemma WalkableWhenOk(page: P.Page, h: H.Heap, size: nat)
    requires HB.Clean(page) && HB.Decode(page) == h.records && H.Records(h)
    requires forall k :: 0 <= k < H.MAX_TRUNKS ==> h.records[k] == HB.DecodeRecord(page, k) && H.RecordOk(h.records[k])
    ensures Walkable(page, h.trunks, size, h)
  {
    var k := H.FirstFit(h, size, 0);
    hide HB.Clean, H.RecordOk, HB.Decode, HB.DecodeRecord, H.TryMalloc, HB.InPage, ScanOps, H.FirstFit;
    if k < h.trunks {
      TryAfterScan(page, size, k);
    } else {
      FailedScan(page, size, k);
    }
  }

  /** The rest of my_malloc is legal, and leaves the heap that it is specified to leave. */
  lemma RestMeans(s: P.Vm, c: Control, h: H.Heap, size: nat)
    requires ReadyIn(s, c, h, size)
    ensures H.Records(h) && R.LegalRun(PR.Abs(s), MallocRest(h, size), |s.window|)
    ensures forall s' :: R.After(s, MallocRest(h, size)) == R.To(s') ==>
              var c' := Control(true, H.Malloc(h, size).0.trunks);
              OwnsIn(s', c') && HeapIn(s', c') == H.Malloc(h, size).0
  {
    RestRuns(PR.Abs(s), c, h, size, |s.window|);
    hide R.LegalRun, R.SpecRun, R.After, H.Malloc, MallocRest, Owns, H.Inv, H.HasRoom, PI.FramesOk, PI.SlotsOk;
    forall s' | R.After(s, MallocRest(h, size)) == R.To(s')
      ensures var c' := Control(true, H.Malloc(h, size).0.trunks);
              OwnsIn(s', c') && HeapIn(s', c') == H.Malloc(h, size).0
    {
      R.AfterKeeps(s, MallocRest(h, size), s');
    }
  }

  lemma WalkDies(s: P.Vm, c: Control, h: H.Heap, size: nat)
    requires ReadyIn(s, c, h, size) && H.Records(h) && Died(s, WalkOps(h, size))
    ensures R.After(s, MallocRest(h, size)) == R.Dies
  {
    RestMeans(s, c, h, size);
    hide R.LegalRun, R.After, Owns, H.Inv, PI.Inv, H.FirstFit, ScanOps;
    if H.FirstFit(h, size, 0) == h.trunks {
      R.DiesBefore(s, Touches(WalkOps(h, size)), GrowEvents(h, size));
    }
  }

  /** A walk that finds a trunk is all of it. */
  lemma WalkServes(s: P.Vm, c: Control, h: H.Heap, size: nat, s1: P.Vm, o: Option<nat>)
    requires ReadyIn(s, c, h, size) && H.Records(h) && Did(s, WalkOps(h, size), s1) && Found(h, size, o) && o.Some?
    ensures R.After(s, MallocRest(h, size)) == R.To(s1)
    ensures OwnsIn(s1, c) && (HeapIn(s1, c), o) == H.Malloc(h, size)
  {
    FoundIs(h, size, o);
    hide R.LegalRun, R.After, Owns, H.Inv, PI.FramesOk, PI.SlotsOk, H.Malloc, Found, WalkOps, MallocRest, Ready;
    RestMeans(s, c, h, size);
  }

  lemma FoundIs(h: H.Heap, size: nat, o: Option<nat>)
    requires H.Inv(h) && h.init && H.Records(h) && H.HasRoom(h, size) && Found(h, size, o) && o.Some?
    ensures Touches(WalkOps(h, size)) == MallocRest(h, size)
    ensures H.Malloc(h, size).0.trunks == h.trunks && H.Malloc(h, size).1 == o
  {
    hide H.RecordOk, ScanOps, H.TryMalloc, H.FirstFit;
  }

  /** A walk that finds no trunk changes nothing. */
  lemma WalkMeans(s: P.Vm, c: Control, h: H.Heap, size: nat, s1: P.Vm)
    requires ReadyIn(s, c, h, size) && H.Records(h) && Did(s, WalkOps(h, size), s1)
    requires Found(h, size, None)
    ensures OwnsIn(s1, c) && HeapIn(s1, c) == h && H.HasRoom(h, size)
    ensures H.FirstFit(h, size, 0) == h.trunks == c.trunks < H.MAX_TRUNKS
  {
    WalkRuns(PR.Abs(s), c, h, size, |s.window|);
    hide R.LegalRun, R.SpecRun, R.After, Owns, H.Inv, H.HasRoom, PI.FramesOk, PI.SlotsOk, ScanOps, H.FirstFit, H.Malloc;
    R.AfterKeeps(s, Touches(WalkOps(h, size)), s1);
  }

  lemma GrowStarts(s: P.Vm, c: Control, h: H.Heap, size: nat)
    requires ReadyIn(s, c, h, size) && H.Records(h) && H.FirstFit(h, size, 0) == h.trunks
    ensures h.trunks == c.trunks < H.MAX_TRUNKS && R.LegalRun(PR.Abs(s), GrowEvents(h, size), |s.window|)
  {
    hide R.LegalRun;
    NewTrunkRuns(PR.Abs(s), c, h, size, |s.window|);
  }

  lemma GrowComposes(s: P.Vm, c: Control, h: H.Heap, size: nat, s1: P.Vm, e: R.End)
    requires ReadyIn(s, c, h, size) && H.Records(h) && H.FirstFit(h, size, 0) == h.trunks < H.MAX_TRUNKS
    requires Did(s, WalkOps(h, size), s1) && R.After(s1, GrowEvents(h, size)) == e != R.Illegal
    ensures R.After(s, MallocRest(h, size)) == e
  {
    var walk := Touches(WalkOps(h, size));
    hide R.After, H.FirstFit, ScanOps, ReadyIn, GrowEvents;
    match e {
      case To(s2) => R.AfterThen(s, walk, s1, GrowEvents(h, size), s2);
      case Dies => R.AfterThenDies(s, walk, s1, GrowEvents(h, size));
    }
  }

  /** The page of a new trunk is taken: the metadata page is as it was. */
  lemma TrunkTaken(s: P.Vm, c: Control, h: H.Heap, size: nat, s1: P.Vm)
    requires ReadyIn(s, c, h, size) && H.Records(h) && h.trunks == c.trunks < H.MAX_TRUNKS
    requires R.After(s, [R.Allocate]) == R.To(s1)
    ensures Triable(s1, h.trunks, size, h.records[h.trunks])
  {
    hide ReadyIn, HasMetadata, R.After, H.RecordOk, HB.TryOps, HB.InPage, HB.DecodeRecord, HB.Clean;
    ReadyPage(s, c, h, size);
    TrunkTakenKeeps(s, c, h, size, s1);
    HB.TryDecodes(PageOf(s), h.trunks, size);
  }

  lemma TrunkTakenKeeps(s: P.Vm, c: Control, h: H.Heap, size: nat, s1: P.Vm)
    requires ReadyIn(s, c, h, size) && h.trunks == c.trunks < H.MAX_TRUNKS && R.After(s, [R.Allocate]) == R.To(s1)
    ensures HasMetadata(s) && HasMetadata(s1) && PageOf(s1) == PageOf(s)
  {
    ReadyMetadata(PR.Abs(s), c, h, size);
    hide R.LegalRun, R.SpecRun, R.After, Owns, H.Inv, H.HasRoom, PI.FramesOk, PI.SlotsOk, H.Malloc;
    var m1 := OneAllocation(PR.Abs(s), |s.window|, h.trunks + 1);
    R.AfterKeeps(s, [R.Allocate], s1);
  }

  /** The state after a trunk was added and tried, with the address that my_malloc returns. */
  ghost predicate Grown(s: P.Vm, h: H.Heap, size: nat, s2: P.Vm, p: Option<nat>)
    requires H.Records(h) && h.trunks < |h.records| == H.MAX_TRUNKS
  {
    && R.After(s, GrowEvents(h, size)) == R.To(s2) && h.init && H.HasRoom(h, size)
    && OwnsIn(s2, Control(true, h.trunks + 1))
    && HeapIn(s2, Control(true, h.trunks + 1)) == H.Malloc(h, size).0 && p == H.Malloc(h, size).1
  }

  /** The new trunk serves the request if any does. */
  lemma GrowMeans(s: P.Vm, c: Control, h: H.Heap, size: nat, s1: P.Vm, s2: P.Vm)
    requires ReadyIn(s, c, h, size) && H.Records(h) && H.FirstFit(h, size, 0) == h.trunks < H.MAX_TRUNKS
    requires R.After(s, [R.Allocate]) == R.To(s1) && Did(s1, HB.TryOps(h.records[h.trunks], h.trunks, size), s2)
    ensures Grown(s, h, size, s2, InTrunk(h.trunks, H.TryMalloc(h.records[h.trunks], size).1))
  {
    hide R.LegalRun, R.SpecRun, R.After, Owns, H.Inv, H.HasRoom, PI.FramesOk, PI.SlotsOk, H.Malloc, H.FirstFit;
    hide H.TryMalloc, HB.TryOps;
    NewTrunkRuns(PR.Abs(s), c, h, size, |s.window|);
    MallocInNewTrunk(h, size);
    R.AfterThen(s, [R.Allocate], s1, Touches(HB.TryOps(h.records[h.trunks], h.trunks, size)), s2);
    R.AfterKeeps(s, GrowEvents(h, size), s2);
  }

  lemma MallocIsLegal(s: P.Vm, c: Control, size: nat)
    requires OwnsIn(s, c) && H.HasRoom(H.Initialised(HeapIn(s, c)), size)
    ensures var h := HeapIn(s, c);
            && H.Records(H.Initialised(h)) && R.LegalRun(PR.Abs(s), MallocEvents(h, size), |s.window|)
            && H.Malloc(H.Initialised(h), size) == H.Malloc(h, size)
  {
    MallocRuns(PR.Abs(s), c, size, |s.window|);
  }

  lemma MallocComposes(s: P.Vm, c: Control, s1: P.Vm, size: nat, e: R.End)
    requires OwnsIn(s, c) && H.HasRoom(H.Initialised(HeapIn(s, c)), size)
    requires var h1 := H.Initialised(HeapIn(s, c));
             && R.After(s, if c.init then [] else [R.Allocate, R.Allocate]) == R.To(s1)
             && R.After(s1, MallocRest(h1, size)) == e != R.Illegal
    ensures R.After(s, MallocEvents(HeapIn(s, c), size)) == e
  {
    var a, b := if c.init then [] else [R.Allocate, R.Allocate], MallocRest(H.Initialised(HeapIn(s, c)), size);
    hide R.After, MallocRest, OwnsIn;
    match e {
      case To(s2) => R.AfterThen(s, a, s1, b, s2);
      case Dies => R.AfterThenDies(s, a, s1, b);
    }
  }
}
