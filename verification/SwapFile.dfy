/** swap.c: the slot map and the file, updated in place. */
module SwapFiles {
  import opened Util
  import opened PteWords
  import opened Paging

  class SwapFile {
    const marks: array<bool>   // g_swap
    const file: array<Page>    // the file, one page per slot
    var count: int             // g_swap_count

    ghost predicate Valid()
      reads this, marks
    {
      file.Length == marks.Length && count == Count(marks[..], IsMarked)
    }

    /** swap_init */
    constructor (slots: nat)
      ensures Valid() && fresh(marks) && fresh(file)
      ensures marks[..] == seq(slots, _ => false) && file[..] == seq(slots, _ => ZeroPage()) && count == 0
    {
      marks := new bool[slots](_ => false);
      file := new Page[slots](_ => ZeroPage());
      count := 0;
      new;
      CountNone(marks[..], IsMarked);
    }

    /** swap_out; None when it panics because the file is full. The result is an offset in the file. */
    method SwapOut(page: Page) returns (offset: Option<nat>)
      requires Valid()
      modifies this, marks, file
      ensures Valid()
      ensures offset.None? <==> old(count) >= marks.Length
      ensures offset.None? ==> marks[..] == old(marks[..]) && file[..] == old(file[..]) && count == old(count)
      ensures offset.Some? ==>
                var i := Find(old(marks[..]), IsClear);
                && i < marks.Length && offset.value == i * 0x1000
                && marks[..] == old(marks[..])[i := true] && file[..] == old(file[..])[i := page]
                && count == old(count) + 1
    {
      if count >= marks.Length {
        return None;
      }
      CountFull(marks[..], IsMarked);
      var i := 0;
      while i < marks.Length
        invariant 0 <= i <= marks.Length
        invariant forall m :: 0 <= m < i ==> marks[m]
      {
        if !marks[i] {
          break;
        }
        i := i + 1;
      }
      FindIs(marks[..], IsClear, i);
      assert !marks[i];
      CountUpdate(marks[..], IsMarked, i, true);
      marks[i] := true;
      count := count + 1;
      file[i] := page;
      return Some(i * 0x1000);
    }

    /** swap_in: the slot's page is read into `buffer[j]`. Both of its asserts are preconditions here. */
    method SwapIn(offset: nat, buffer: array<Page>, j: nat)
      requires Valid() && buffer != file && j < buffer.Length
      requires offset % 0x1000 == 0
      requires offset / 0x1000 < marks.Length && marks[offset / 0x1000]
      modifies this, marks, buffer
      ensures Valid()
      ensures var i := offset / 0x1000;
              marks[..] == old(marks[..])[i := false] && buffer[..] == old(buffer[..])[j := file[i]]
      ensures count == old(count) - 1
    {
      var index := offset / 0x1000;
      assert marks[index];
      CountUpdate(marks[..], IsMarked, index, false);
      marks[index] := false;
      count := count - 1;
      buffer[j] := file[index];
    }
  }
}
