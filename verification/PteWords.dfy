/** The page-table word and the address-space constants of virt.h. */
module PteWords {

  const PAGE_SIZE := 0x1000
  const VIRTUAL_HEAP_START := 0x6000_0000
  const VIRTUAL_HEAP_END := 0x607F_BFFF
  const MAX_PHYSICAL_MEMORY := 1024 * 1024 * 8
  const SWAP_FILE_SIZE := 16 * 1024 * 1024

  /** MI_ROUND_TO_SIZE, on machine words as the macro computes it. */
  function RoundToSize(length: bv32, alignment: bv32): bv32 {
    (length + (alignment - 1)) & !(alignment - 1)
  }

  const HEAP_SPAN := RoundToSize(0x607F_BFFF - 0x6000_0000, 0x1000)
  const MAX_PHYSICAL_PAGES := MAX_PHYSICAL_MEMORY / PAGE_SIZE
  const MAX_SWAP_SLOTS := SWAP_FILE_SIZE / PAGE_SIZE
  const MAX_VIRTUAL_PAGES := (HEAP_SPAN / 0x1000) as int

  /** The macro returns the least multiple of the page size that is not below its argument. */
  lemma RoundToPageIsLeast(length: bv32)
    requires length <= 0xFFFF_F000
    ensures var r := RoundToSize(length, 0x1000);
            r & 0xFFF == 0 && length <= r && r - length < 0x1000
  {
  }

  /** The constants of the address space, the frame pool and the swap file; a thread's pages always fit the pool. */
  lemma PageCounts()
    ensures MAX_VIRTUAL_PAGES == 2044 && MAX_PHYSICAL_PAGES == 2048 && MAX_SWAP_SLOTS == 4096
    ensures MAX_VIRTUAL_PAGES <= MAX_PHYSICAL_PAGES
    ensures VIRTUAL_HEAP_END - VIRTUAL_HEAP_START == MAX_VIRTUAL_PAGES * 0x1000 - 1
  {
    assert HEAP_SPAN == 0x7F_C000;
    assert HEAP_SPAN / 0x1000 == 0x7FC;
    assert (0x7FC as bv32) as int == 2044;
  }

  /** mi_getpteindex: the page number of a heap address. */
  function PteIndex(address: nat): (j: nat)
    requires VIRTUAL_HEAP_START <= address
    ensures VIRTUAL_HEAP_START + j * 0x1000 <= address < VIRTUAL_HEAP_START + (j + 1) * 0x1000
  {
    (address - VIRTUAL_HEAP_START) / 0x1000
  }

  /** Every heap address falls in one of the page-table entries, and the last one ends at the heap's end. */
  lemma HeapAddressesHaveEntries(address: nat)
    requires VIRTUAL_HEAP_START <= address
    ensures address <= VIRTUAL_HEAP_END <==> PteIndex(address) < MAX_VIRTUAL_PAGES
  {
    PageCounts();
  }

  // The union of mmpte_hardware and mmpte_software. `valid` is bit 0 of both views. Bit 1 is `write` in one view and
  // `swapout` in the other. The 20 bits of `pageframenumber` start at bit 12, and the 30 bits of `gefilea_pos` start
  // at bit 2, so they run over the 10 reserved bits and the whole frame number. A word is therefore cut at bits 1, 2
  // and 12. No bit field reaches beyond bit 31.

  type bit = b: nat | b < 2

  datatype Word = Word(bit0: bit, bit1: bit, low: nat, high: nat) {
    ghost predicate WellFormed() { low < 0x400 && high < 0x10_0000 }

    /** The value of `Long`. */
    function Long(): nat { bit0 + 2 * bit1 + 4 * low + 0x1000 * high }

    function GetValid(): bit { bit0 }
    function GetSwapout(): bit { bit1 }
    function GetFilePos(): nat { low + 0x400 * high }
    function GetFrame(): nat { high }

    // A store into a bit field keeps the low bits of the value and every other bit of the word.

    function SetValid(v: bit): Word { this.(bit0 := v) }
    function SetSwapout(v: bit): Word { this.(bit1 := v) }
    function SetFilePos(v: nat): Word { this.(low := v % 0x400, high := v / 0x400 % 0x10_0000) }
    function SetFrame(v: nat): Word { this.(high := v % 0x10_0000) }
  }

  /** The word after `Long = 0`. */
  const ZERO_WORD := Word(0, 0, 0, 0)

  /** The cut loses nothing: the fields are the binary digits of `Long`, and only the zero word has `Long == 0`. */
  lemma CutIsExact(w: Word)
    requires w.WellFormed()
    ensures w.Long() < 0x1_0000_0000
    ensures w.bit0 == w.Long() % 2 && w.bit1 == w.Long() / 2 % 2
    ensures w.GetFilePos() == w.Long() / 4
    ensures w.GetFrame() == w.Long() / 0x1000
    ensures w.Long() == 0 <==> w == ZERO_WORD
  {
    var fields := w.low + 0x400 * w.high;
    assert w.Long() == w.bit0 + 2 * (w.bit1 + 2 * fields);
    assert w.Long() / 2 == w.bit1 + 2 * fields;
    assert w.Long() == w.bit0 + 2 * w.bit1 + 4 * fields;
    assert w.Long() / 4 == fields;
    assert fields / 0x400 == w.high;
    assert w.Long() == 0x1000 * w.high + (w.bit0 + 2 * w.bit1 + 4 * w.low);
  }

  /** What a page-table word says: never allocated, resident in a frame, or in a slot of the swap file. */
  datatype Pte = Zero | Valid(pfn: nat) | Swapped(slot: nat)

  const FRAME_LIMIT := 0x10_0000
  const SLOT_LIMIT := 0x4_0000

  predicate Representable(p: Pte) {
    match p
    case Zero => true
    case Valid(f) => f < FRAME_LIMIT
    case Swapped(o) => o < SLOT_LIMIT
  }

  /** Reading a word the way the C code does: `Long == 0`, then `hard.valid`, then `soft.swapout`. */
  function Decode(w: Word): Pte {
    if w.Long() == 0 then Zero
    else if w.GetValid() == 1 then Valid(w.GetFrame())
    else if w.GetSwapout() == 1 then Swapped(w.GetFilePos() / 0x1000)
    else Zero
  }

  // The three sequences of stores that the kernel performs.

  /** mm_allocate_page on the entry it found. */
  function AllocateStores(w: Word, pfn: nat): Word { w.SetFrame(pfn).SetValid(1) }

  /** evict_page: the software view is written over the frame number of a valid entry. */
  function EvictStores(w: Word, offset: nat): Word { w.SetValid(0).SetSwapout(1).SetFilePos(offset) }

  /** pagefault_handler: clear the word, then set the hardware view. */
  function SwapInStores(pfn: nat): Word { ZERO_WORD.SetValid(1).SetFrame(pfn) }

  /** The words in use: a frame number above the valid bit, or a slot's offset in the file above the swap-out bit. */
  function WordOf(p: Pte): Word {
    match p
    case Zero => ZERO_WORD
    case Valid(f) => Word(1, 0, 0, f)
    case Swapped(o) => Word(0, 1, 0, 4 * o)
  }

  /** Within the field widths the word of a resident page says so and gives its frame. */
  lemma ResidentWord(f: nat)
    requires f < FRAME_LIMIT
    ensures var w := WordOf(Valid(f));
            w.WellFormed() && Decode(w) == Valid(f) && w.Long() != 0 && w.GetValid() == 1 && w.GetFrame() == f
  {
  }

  /** Within the field widths the word of a swapped-out page says so and gives its offset; even offset 0 is not the
      zero word. */
  lemma SwappedWord(o: nat)
    requires o < SLOT_LIMIT
    ensures var w := WordOf(Swapped(o));
            w.WellFormed() && Decode(w) == Swapped(o) && w.Long() != 0 && w.GetValid() == 0 &&
            w.GetSwapout() == 1 && w.GetFilePos() == o * 0x1000
  {
    SlotOffset(o);
  }

  /** The three states never coincide: decoding recovers what was stored. */
  lemma RoundTrip(p: Pte)
    requires Representable(p)
    ensures Decode(WordOf(p)) == p
    ensures WordOf(p).Long() == 0 <==> p.Zero?
  {
    match p
    case Zero => assert WordOf(p) == ZERO_WORD;
    case Valid(f) => ResidentWord(f);
    case Swapped(o) => SwappedWord(o);
  }

  /** The kernel's stores lead from the word of one state to the word of the next, whatever frame number the file
      position overwrites. */
  lemma TransitionsKeepWords(f: nat, o: nat)
    requires f < FRAME_LIMIT && o < SLOT_LIMIT
    ensures AllocateStores(WordOf(Zero), f) == SwapInStores(f) == WordOf(Valid(f))
    ensures EvictStores(WordOf(Valid(f)), o * 0x1000) == WordOf(Swapped(o))
  {
    SlotOffset(o);
  }

  /** A slot's offset is a whole number of pages: the reserved bits below the frame number stay clear. */
  lemma SlotOffset(o: nat)
    requires o < SLOT_LIMIT
    ensures o * 0x1000 % 0x400 == 0 && o * 0x1000 / 0x400 % 0x10_0000 == 4 * o
    ensures 0x400 * (4 * o) / 0x1000 == o
  {
    var k := 4 * o;
    assert o * 0x1000 == 0x400 * k;
    assert 0x400 * k % 0x400 == 0;
    assert 0x400 * k / 0x400 == k;
  }

  /** A store into a field changes the bits of the field and no others. */
  lemma FieldStores(w: Word, b: bit, v: nat)
    requires w.WellFormed()
    ensures w.SetValid(b).Long() == w.Long() - w.Long() % 2 + b
    ensures w.SetSwapout(b).Long() == w.Long() - 2 * (w.Long() / 2 % 2) + 2 * b
    ensures w.SetFilePos(v).Long() == w.Long() % 4 + 4 * (v % 0x4000_0000)
    ensures w.SetFrame(v).Long() == w.Long() % 0x1000 + 0x1000 * (v % 0x10_0000)
  {
    CutIsExact(w);
    FilePosDigits(v);
    assert w.Long() == w.bit0 + 2 * w.bit1 + 4 * (w.low + 0x400 * w.high);
    assert w.Long() == (w.bit0 + 2 * w.bit1 + 4 * w.low) + 0x1000 * w.high;
  }

  /** The low ten and the next twenty bits of a value are its low thirty. */
  lemma FilePosDigits(v: nat)
    ensures v % 0x400 + 0x400 * (v / 0x400 % 0x10_0000) == v % 0x4000_0000
  {
    var a := v / 0x400;
    var q, r := a / 0x10_0000, a % 0x10_0000;
    LowThirty(v, q, 0x400 * r + v % 0x400);
  }

  lemma LowThirty(v: nat, q: nat, r: nat)
    requires v == 0x4000_0000 * q + r && r < 0x4000_0000
    ensures v % 0x4000_0000 == r
  {
  }

  /** The kernel's stores on any word, in bits: allocate keeps the bits below the frame number but for the valid bit,
      evict and swap-in overwrite the word. */
  lemma StoresInBits(w: Word, f: nat, offset: nat)
    requires w.WellFormed()
    ensures AllocateStores(w, f).Long() == w.Long() % 0x1000 - w.Long() % 2 + 1 + 0x1000 * (f % 0x10_0000)
    ensures EvictStores(w, offset).Long() == 2 + 4 * (offset % 0x4000_0000)
    ensures SwapInStores(f).Long() == 1 + 0x1000 * (f % 0x10_0000)
  {
    FieldStores(w, 1, f);
    CutIsExact(w);
    FilePosDigits(offset);
    assert w.Long() % 0x1000 == w.bit0 + 2 * w.bit1 + 4 * w.low;
  }

  /** What a word says, bit by bit. */
  lemma DecodeInBits(w: Word)
    requires w.WellFormed()
    ensures Decode(w).Valid? <==> w.Long() % 2 == 1
    ensures Decode(w).Swapped? <==> w.Long() % 2 == 0 && w.Long() / 2 % 2 == 1
    ensures Decode(w).Valid? ==> Decode(w).pfn == w.Long() / 0x1000
    ensures Decode(w).Swapped? ==> Decode(w).slot == w.Long() / 4 / 0x1000
  {
    CutIsExact(w);
  }

  /** The full width of the frame field. */
  lemma FramesRoundTrip(w: Word, pfn: nat)
    ensures AllocateStores(w, pfn).GetValid() == 1
    ensures AllocateStores(w, pfn).GetFrame() == pfn <==> pfn < FRAME_LIMIT
  {
  }

  /** The full width of the file position, over whatever the word held; the result is neither valid nor zero. */
  lemma FilePositionsRoundTrip(w: Word, offset: nat)
    ensures var e := EvictStores(w, offset);
            e.GetValid() == 0 && e.GetSwapout() == 1 && e.Long() != 0 &&
            (e.GetFilePos() == offset <==> offset < 0x4000_0000)
  {
    assert offset == offset % 0x400 + 0x400 * (offset / 0x400);
  }
}
