/** The benchmark parallelCal.c: worker threads sum the rows of a matrix in strides and add the row sums under one
    mutex.

    An int is its 32-bit pattern, so sums are modulo 2 to the 32. */
module ParallelCal {
  type Rows = seq<seq<int>>

  // ---- the sums ----

  function Wrap(x: int): (w: nat) { x % 0x1_0000_0000 }

  /** The residue of an unsigned 32-bit word. */
  lemma WrapIsResidue(x: int)
    ensures Wrap(x) < 0x1_0000_0000 && (x - Wrap(x)) % 0x1_0000_0000 == 0
  {
    assert x == x / 0x1_0000_0000 * 0x1_0000_0000 + Wrap(x);
  }

  lemma WrapAdds(x: int, y: int)
    ensures Wrap(Wrap(x) + y) == Wrap(x + y) && Wrap(x + Wrap(y)) == Wrap(x + y)
  {
    var q, r := x / 0x1_0000_0000, y / 0x1_0000_0000;
    assert x == q * 0x1_0000_0000 + Wrap(x) && y == r * 0x1_0000_0000 + Wrap(y);
  }

  lemma WrapBoth(x: int, y: int)
    ensures Wrap(Wrap(x) + Wrap(y)) == Wrap(x + y)
  {
    WrapAdds(Wrap(x), y);
    WrapAdds(x, y);
  }

  lemma WrapSwaps(x: int, y: int, z: int)
    ensures Wrap(Wrap(x + y) + z) == Wrap(Wrap(x + z) + y)
  {
    WrapAdds(x + y, z);
    WrapAdds(x + z, y);
    assert x + y + z == x + z + y;
  }

  /** One pSum entry after the first `i` columns of its row, from the value `start`. */
  function AddRow(start: nat, row: seq<int>, i: nat): (v: nat)
    requires i <= |row|
  {
    if i == 0 then start else Wrap(AddRow(start, row, i - 1) + row[i - 1] * (i - 1))
  }

  function RowSum(row: seq<int>): (v: nat) { AddRow(0, row, |row|) }

  /** The sum over the rows below `j` that are marked. */
  function SumOf(rows: Rows, marked: seq<bool>, j: nat): (v: nat)
    requires j <= |rows| == |marked|
  {
    if j == 0 then 0
    else if marked[j - 1] then Wrap(SumOf(rows, marked, j - 1) + RowSum(rows[j - 1]))
    else SumOf(rows, marked, j - 1)
  }

  /** The sum that verify computes over the rows below `j`, one after the other. */
  function VerifySum(rows: Rows, j: nat): (v: nat)
    requires j <= |rows|
  {
    if j == 0 then 0 else Wrap(VerifySum(rows, j - 1) + RowSum(rows[j - 1]))
  }

  function ExactRow(row: seq<int>, i: nat): int
    requires i <= |row|
  {
    if i == 0 then 0 else ExactRow(row, i - 1) + row[i - 1] * (i - 1)
  }

  function ExactSum(rows: Rows, j: nat): int
    requires j <= |rows|
  {
    if j == 0 then 0 else ExactSum(rows, j - 1) + ExactRow(rows[j - 1], |rows[j - 1]|)
  }

  lemma {:induction false} RowSumIsExact(row: seq<int>, i: nat)
    requires i <= |row|
    ensures AddRow(0, row, i) == Wrap(ExactRow(row, i))
  {
    if i > 0 {
      RowSumIsExact(row, i - 1);
      WrapAdds(ExactRow(row, i - 1), row[i - 1] * (i - 1));
    }
  }

  /** verify's sum is the exact sum of all i * a[j][i], modulo 2 to the 32. */
  lemma {:induction false} VerifySumIsExact(rows: Rows, j: nat)
    requires j <= |rows|
    ensures VerifySum(rows, j) == Wrap(ExactSum(rows, j))
  {
    if j > 0 {
      VerifySumIsExact(rows, j - 1);
      var row := rows[j - 1];
      RowSumIsExact(row, |row|);
      WrapBoth(ExactSum(rows, j - 1), ExactRow(row, |row|));
    }
  }

  /** The matrix that main fills in: column i of every row holds i. */
  function Filled(r: nat, c: nat): (rows: Rows) { seq(r, _ => seq(c, i => i)) }

  lemma {:induction false} FilledRow(c: nat, i: nat)
    requires i <= c
    ensures 6 * ExactRow(seq(c, k => k), i) == i * (i - 1) * (2 * i - 1)
  {
    if i > 0 {
      FilledRow(c, i - 1);
    }
  }

  /** On it the sum is the number of rows times the sum of the squares below the number of columns. */
  lemma {:induction false} FilledSum(r: nat, c: nat, squares: int, j: nat)
    requires j <= r && 6 * squares == c * (c - 1) * (2 * c - 1)
    ensures ExactSum(Filled(r, c), j) == j * squares && VerifySum(Filled(r, c), j) == Wrap(j * squares)
  {
    VerifySumIsExact(Filled(r, c), j);
    if j > 0 {
      FilledSum(r, c, squares, j - 1);
      FilledRow(c, c);
      assert j * squares == (j - 1) * squares + squares;
    }
  }

  /** Marking one more row adds its sum, wherever the row is. */
  lemma {:induction false} MarkAdds(rows: Rows, marked: seq<bool>, k: nat, j: nat)
    requires k < j <= |rows| == |marked| && !marked[k]
    ensures SumOf(rows, marked[k := true], j) == Wrap(SumOf(rows, marked, j) + RowSum(rows[k]))
  {
    hide Wrap;
    var m := marked[k := true];
    if k == j - 1 {
      UnmarkedBelow(rows, marked, k, k);
    } else {
      MarkAdds(rows, marked, k, j - 1);
      assert m[j - 1] == marked[j - 1];
      if marked[j - 1] {
        calc {
          SumOf(rows, m, j);
          Wrap(SumOf(rows, m, j - 1) + RowSum(rows[j - 1]));
          Wrap(Wrap(SumOf(rows, marked, j - 1) + RowSum(rows[k])) + RowSum(rows[j - 1]));
          { WrapSwaps(SumOf(rows, marked, j - 1), RowSum(rows[k]), RowSum(rows[j - 1])); }
          Wrap(Wrap(SumOf(rows, marked, j - 1) + RowSum(rows[j - 1])) + RowSum(rows[k]));
          Wrap(SumOf(rows, marked, j) + RowSum(rows[k]));
        }
      }
    }
  }

  lemma {:induction false} UnmarkedBelow(rows: Rows, marked: seq<bool>, k: nat, j: nat)
    requires j <= k < |rows| == |marked|
    ensures SumOf(rows, marked[k := true], j) == SumOf(rows, marked, j)
  {
    if j > 0 {
      UnmarkedBelow(rows, marked, k, j - 1);
    }
  }

  lemma {:induction false} AllMarked(rows: Rows, marked: seq<bool>, j: nat)
    requires j <= |rows| == |marked| && forall k :: 0 <= k < j ==> marked[k]
    ensures SumOf(rows, marked, j) == VerifySum(rows, j)
  {
    if j > 0 {
      AllMarked(rows, marked, j - 1);
    }
  }

  lemma {:induction false} NoneMarked(rows: Rows, marked: seq<bool>, j: nat)
    requires j <= |rows| == |marked| && forall k :: 0 <= k < j ==> !marked[k]
    ensures SumOf(rows, marked, j) == 0
  {
    if j > 0 {
      NoneMarked(rows, marked, j - 1);
    }
  }

  // ---- the strides ----

  /** The values of j in `for (j = n; j < R_SIZE; j += thread_num)`. */
  function Stride(n: nat, threads: nat, size: nat): (js: seq<nat>)
    requires threads >= 1
    decreases size - n
  {
    if n >= size then [] else [n] + Stride(n + threads, threads, size)
  }

  lemma {:induction false} StrideIs(n: nat, threads: nat, size: nat, r: nat)
    requires threads >= 1
    ensures r in Stride(n, threads, size) <==> n <= r < size && (r - n) % threads == 0
    decreases size - n
  {
    if n < size {
      StrideIs(n + threads, threads, size, r);
      if n <= r < n + threads {
        Small(r - n, threads);
      } else if n + threads <= r {
        DropOne(r - n, threads);
      }
    }
  }

  lemma Small(x: nat, t: nat)
    requires x < t
    ensures x % t == 0 <==> x == 0
  {
  }

  lemma DropOne(x: nat, t: nat)
    requires 1 <= t <= x
    ensures (x - t) % t == x % t
  {
    var q, r := (x - t) / t, (x - t) % t;
    assert x == t * q + r + t == t * (q + 1) + r;
    DivisionIsUnique(x, t, q + 1, r);
  }

  lemma DivisionIsUnique(x: nat, t: nat, q: nat, r: nat)
    requires 1 <= t && r < t && x == t * q + r
    ensures x % t == r && x / t == q
  {
    assert x == t * (x / t) + x % t;
    assert t * (x / t - q) == r - x % t;
    Multiple(t, x / t - q);
  }

  lemma Multiple(t: nat, d: int)
    requires t >= 1
    ensures d >= 1 ==> t * d >= t
    ensures d <= -1 ==> t * d + t <= 0
    ensures d == 0 ==> t * d == 0
  {
  }

  /** The strides of the workers partition the rows: row `r` is in the stride of worker r % threads and of no other. */
  lemma StridesPartition(threads: nat, size: nat, r: nat, n: nat)
    requires threads >= 1 && n < threads && r < size
    ensures r in Stride(n, threads, size) <==> n == r % threads
  {
    StrideIs(n, threads, size, r);
    var q := r / threads;
    assert r == threads * q + r % threads;
    if n == r % threads {
      DivisionIsUnique(r - n, threads, q, 0);
    } else if n <= r && (r - n) % threads == 0 {
      var p := (r - n) / threads;
      assert r == threads * p + n;
      DivisionIsUnique(r, threads, p, n);
    }
  }

  lemma StrideStep(row: nat, t: nat)
    requires t >= 1
    ensures (row + t) % t == row % t
  {
    DropOne(row + t, t);
  }

  /** In one residue class, what is below the next row of the stride is at most the current row. */
  lemma StrideHasNoGap(r: nat, row: nat, t: nat)
    requires t >= 1 && r % t == row % t
    ensures r < row + t <==> r <= row
  {
    var p, q, m := r / t, row / t, r % t;
    assert r == t * p + m && row == t * q + m;
    Distributes(t, p, q);
    Multiple(t, p - q);
  }

  lemma Distributes(t: int, p: int, q: int)
    ensures t * (p - q) == t * p - t * q
  {
  }

  // ---- the loops ----

  /** The first loop of parallel_calculate for worker `n`, in place. */
  method CalculateRows(rows: Rows, pSum: array<nat>, n: nat, threads: nat)
    requires threads >= 1 && pSum.Length == |rows|
    modifies pSum
    ensures forall r :: 0 <= r < |rows| ==>
              pSum[r] == if r in Stride(n, threads, |rows|) then AddRow(old(pSum[r]), rows[r], |rows[r]|)
                         else old(pSum[r])
  {
    forall r | 0 <= r < n
      ensures r !in Stride(n, threads, |rows|)
    {
      StrideIs(n, threads, |rows|, r);
    }
    var j := n;
    while j < |rows|
      invariant n <= j && (j - n) % threads == 0
      invariant forall r :: 0 <= r < |rows| ==>
                  pSum[r] == if r < j && r in Stride(n, threads, |rows|)
                             then AddRow(old(pSum[r]), rows[r], |rows[r]|) else old(pSum[r])
      decreases |rows| - j
    {
      NextInStride(n, threads, |rows|, j);
      AddColumns(rows[j], pSum, j);
      j := j + threads;
    }
  }

  lemma NextInStride(n: nat, threads: nat, size: nat, j: nat)
    requires threads >= 1 && n <= j < size && (j - n) % threads == 0
    ensures j in Stride(n, threads, size) && (j + threads - n) % threads == 0
    ensures forall r :: j < r < j + threads ==> r !in Stride(n, threads, size)
  {
    StrideIs(n, threads, size, j);
    DropOne(j + threads - n, threads);
    forall r | j < r < j + threads
      ensures r !in Stride(n, threads, size)
    {
      StrideIs(n, threads, size, r);
      DivisionIsUnique(r - n, threads, (j - n) / threads, r - j);
    }
  }

  /** The inner loop: `pSum[j] += a[j][i] * i` over the columns. */
  method AddColumns(row: seq<int>, pSum: array<nat>, j: nat)
    requires j < pSum.Length
    modifies pSum
    ensures pSum[j] == AddRow(old(pSum[j]), row, |row|)
    ensures forall r :: 0 <= r < pSum.Length && r != j ==> pSum[r] == old(pSum[r])
  {
    var i := 0;
    while i < |row|
      invariant 0 <= i <= |row|
      invariant pSum[j] == AddRow(old(pSum[j]), row, i)
      invariant forall r :: 0 <= r < pSum.Length && r != j ==> pSum[r] == old(pSum[r])
    {
      pSum[j] := Wrap(pSum[j] + row[i] * i);
      i := i + 1;
    }
  }

  /** verify, up to its printf. */
  method Verify(rows: Rows, pSum: array<nat>) returns (sum: nat)
    requires pSum.Length == |rows|
    modifies pSum
    ensures forall r :: 0 <= r < |rows| ==> pSum[r] == RowSum(rows[r])
    ensures sum == VerifySum(rows, |rows|)
  {
    for j := 0 to |rows|
      invariant forall r :: 0 <= r < j ==> pSum[r] == 0
    {
      pSum[j] := 0;
    }
    for j := 0 to |rows|
      invariant forall r :: 0 <= r < |rows| ==> pSum[r] == if r < j then RowSum(rows[r]) else 0
    {
      AddColumns(rows[j], pSum, j);
    }
    sum := 0;
    for j := 0 to |rows|
      invariant sum == VerifySum(rows, j)
    {
      sum := Wrap(sum + pSum[j]);
    }
  }
}
