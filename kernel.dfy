// The anti-diagonal kernel (place_secondary_diagonal). For every row i of an
// N x N row-major matrix it multiplies the row's entries in a 64-bit
// accumulator, truncates the product to 32 bits and stores it in the row's
// anti-diagonal cell, (i, N-1-i). The rows are split into contiguous blocks,
// one per worker thread; here the workers run one after another, and the
// lemmas show why running them at the same time cannot change the outcome:
// the blocks partition the rows, and each row reads and writes only its own
// cells.
module Kernel {
  import opened Host

  // ---------------------------------------------------------------------
  // Arithmetic helpers
  // ---------------------------------------------------------------------

  lemma MulMono(d: int, x: int, y: int)
    requires d >= 0 && x <= y
    ensures d * x <= d * y
  {
  }

  /** Division is determined by the interval the dividend lies in. */
  lemma DivBetween(r: int, d: int, a: int)
    requires d > 0 && a * d <= r < a * d + d
    ensures r / d == a && r % d == r - a * d
  {
    var q := r / d;
    assert r == d * q + r % d;
    if q > a {
      assert d * q >= d * (a + 1) by { MulMono(d, a + 1, q); }
      assert false;
    } else if q < a {
      assert d * (q + 1) <= d * a by { MulMono(d, q + 1, a); }
      assert false;
    }
  }

  /** Row i and column j of the cell with row-major index i*n + j. */
  lemma RowColumnOf(n: int, i: int, j: int)
    requires n > 0 && 0 <= j < n
    ensures (i * n + j) / n == i && (i * n + j) % n == j
  {
    DivBetween(i * n + j, n, i);
  }

  /** Rows 0..i fit in an n x n matrix when i < n. */
  lemma RowInBounds(n: int, i: int)
    requires 0 <= i < n
    ensures 0 <= i * n && i * n + n <= n * n
  {
    MulMono(n, i + 1, n);
  }

  // ---------------------------------------------------------------------
  // Work partition
  // ---------------------------------------------------------------------

  /** The number of worker threads: the requested count when it lies in
      1..n, otherwise 1. */
  function Workers(n: int, threadCount: int): (w: int)
    ensures w >= 1
    ensures n >= 1 ==> w <= n
    ensures w == threadCount || w == 1
    ensures 0 < threadCount <= n ==> w == threadCount
    ensures !(0 < threadCount <= n) ==> w == 1
  {
    if threadCount > 0 && threadCount <= n then threadCount else 1
  }

  /** The first row of worker t's block. */
  function BlockStart(n: int, w: int, t: int): int
    requires w >= 1
  {
    t * (n / w)
  }

  /** One past the last row of worker t's block; the last block runs to n. */
  function BlockEnd(n: int, w: int, t: int): int
    requires w >= 1
  {
    if t + 1 == w then n else BlockStart(n, w, t) + n / w
  }

  predicate InBlock(n: int, w: int, t: int, r: int)
    requires w >= 1
  {
    BlockStart(n, w, t) <= r < BlockEnd(n, w, t)
  }

  /** With 1..n workers every block gets at least one row. */
  lemma RowsPerBlockBounds(n: int, w: int)
    requires 1 <= w <= n
    ensures 1 <= n / w && w * (n / w) <= n
  {
    DivBetween(n, w, n / w);
    MulMono(w, 1, n / w);
  }

  /** The blocks are contiguous and non-empty: the first starts at row 0,
      each ends where the next starts, and the last ends at row n. */
  lemma BlocksTile(n: int, w: int, t: int)
    requires 1 <= w <= n && 0 <= t < w
    ensures BlockStart(n, w, 0) == 0
    ensures BlockStart(n, w, t) < BlockEnd(n, w, t)
    ensures t + 1 < w ==> BlockEnd(n, w, t) == BlockStart(n, w, t + 1)
    ensures BlockEnd(n, w, w - 1) == n && BlockEnd(n, w, t) <= n
  {
    var rpt := n / w;
    RowsPerBlockBounds(n, w);
    assert (t + 1) * rpt == t * rpt + rpt;
    assert t * rpt + rpt <= w * rpt by { MulMono(rpt, t + 1, w); }
  }

  /** The worker whose block holds row r. */
  function BlockOf(n: int, w: int, r: int): int
    requires 1 <= w <= n
  {
    var q := r / (n / w);
    if q < w - 1 then q else w - 1
  }

  /** Row r lies in the block of worker BlockOf(n, w, r) ... */
  lemma BlockOfHoldsRow(n: int, w: int, r: int)
    requires 1 <= w <= n && 0 <= r < n
    ensures 0 <= BlockOf(n, w, r) < w && InBlock(n, w, BlockOf(n, w, r), r)
  {
    var rpt := n / w;
    RowsPerBlockBounds(n, w);
    var q := r / rpt;
    assert r == rpt * q + r % rpt;
    assert q * rpt <= r < q * rpt + rpt;
    assert q >= 0;
    if q >= w - 1 {
      MulMono(rpt, w - 1, q);
    }
  }

  /** ... and in no other block: every row belongs to exactly one block. */
  lemma BlocksPartitionRows(n: int, w: int, r: int, t: int)
    requires 1 <= w <= n && 0 <= r < n
    requires 0 <= t < w && InBlock(n, w, t, r)
    ensures t == BlockOf(n, w, r)
  {
    var rpt := n / w;
    RowsPerBlockBounds(n, w);
    if t < w - 1 {
      DivBetween(r, rpt, t);
    } else {
      var q := r / rpt;
      assert (w - 1) * rpt <= r;
      assert r == rpt * q + r % rpt;
      if q < w - 1 {
        MulMono(rpt, q + 1, w - 1);
        assert false;
      }
    }
  }

  /** The row-major index of cell (i, j). */
  function CellIndex(n: int, i: int, j: int): int
  {
    i * n + j
  }

  /** The anti-diagonal cell that row i's product is written to. */
  function Target(n: int, i: int): int
  {
    CellIndex(n, i, n - 1 - i)
  }

  /** Distinct cells of an n-wide matrix have distinct indices; in
      particular the cells of different rows never coincide. */
  lemma CellsDistinct(n: int, i1: int, j1: int, i2: int, j2: int)
    requires n > 0 && 0 <= j1 < n && 0 <= j2 < n
    requires CellIndex(n, i1, j1) == CellIndex(n, i2, j2)
    ensures i1 == i2 && j1 == j2
  {
    RowColumnOf(n, i1, j1);
    RowColumnOf(n, i2, j2);
  }

  /** No two workers touch the same cell: a cell of a row in block t1 and a
      cell of a row in block t2 != t1 are different cells. With the anti-
      diagonal targets this covers every read and every write. */
  lemma WorkersTouchDisjointCells(n: int, w: int, t1: int, r1: int, j1: int, t2: int, r2: int, j2: int)
    requires 1 <= w <= n
    requires 0 <= t1 < w && 0 <= t2 < w && t1 != t2
    requires 0 <= r1 < n && InBlock(n, w, t1, r1) && 0 <= j1 < n
    requires 0 <= r2 < n && InBlock(n, w, t2, r2) && 0 <= j2 < n
    ensures CellIndex(n, r1, j1) != CellIndex(n, r2, j2)
  {
    BlocksPartitionRows(n, w, r1, t1);
    BlocksPartitionRows(n, w, r2, t2);
    if CellIndex(n, r1, j1) == CellIndex(n, r2, j2) {
      CellsDistinct(n, r1, j1, r2, j2);
    }
  }

  /** Each row's write target lies in that row, and different rows have
      different targets. */
  lemma TargetsInOwnRow(n: int, i1: int, i2: int)
    requires 0 <= i1 < n && 0 <= i2 < n
    ensures Target(n, i1) / n == i1 && Target(n, i1) % n == n - 1 - i1
    ensures i1 != i2 ==> Target(n, i1) != Target(n, i2)
  {
    RowColumnOf(n, i1, n - 1 - i1);
    RowColumnOf(n, i2, n - 1 - i2);
  }

  // ---------------------------------------------------------------------
  // Row products
  // ---------------------------------------------------------------------

  /** The matrix shape the kernel needs: with n > 0 the first n*n entries
      form the matrix (the vector may be longer). */
  predicate Fits(m: seq<I32>, n: int)
  {
    n <= 0 || n * n <= |m|
  }

  /** Entry (i, j) of the matrix. */
  function Entry(m: seq<I32>, n: int, i: int, j: int): I32
    requires 0 <= i < n && Fits(m, n) && 0 <= j < n
  {
    RowInBounds(n, i);
    m[CellIndex(n, i, j)]
  }

  /** One step of the accumulator: `prod *= x` on a `long long`. */
  function MulWrap(acc: I64, x: I32): I64
  {
    Wrap64(acc * x)
  }

  /** The `long long` accumulator after multiplying in the first j entries
      of row i, each multiplication wrapping modulo 2^64. */
  function RowAcc(m: seq<I32>, n: int, i: int, j: int): I64
    requires 0 <= i < n && Fits(m, n) && 0 <= j <= n
    decreases j
  {
    if j == 0 then 1 else MulWrap(RowAcc(m, n, i, j - 1), Entry(m, n, i, j - 1))
  }

  /** The value stored for row i: the accumulator truncated to an `int`. */
  function RowProduct(m: seq<I32>, n: int, i: int): I32
    requires 0 <= i < n && Fits(m, n)
  {
    Trunc32(RowAcc(m, n, i, n))
  }

  /** The exact product of the first j entries of row i. */
  function ExactProduct(m: seq<I32>, n: int, i: int, j: int): int
    requires 0 <= i < n && Fits(m, n) && 0 <= j <= n
    decreases j
  {
    if j == 0 then 1 else ExactProduct(m, n, i, j - 1) * Entry(m, n, i, j - 1)
  }

  lemma MultipleMod(d: int, q: int)
    requires d == 0x1_0000_0000 * q
    ensures d % 0x1_0000_0000 == 0
  {
  }

  /** One wrapping multiplication keeps the accumulator congruent, modulo
      2^32, to the exact product. */
  lemma StepCongruent(a: I64, b: int, x: I32)
    requires (a - b) % 0x1_0000_0000 == 0
    ensures (MulWrap(a, x) - b * x) % 0x1_0000_0000 == 0
  {
    var q := (a - b) / 0x1_0000_0000;
    assert a - b == 0x1_0000_0000 * q;
    var y := Wrap64(a * x);
    Wrap64Congruent(a * x);
    var k := (y - a * x) / 0x1_0000_0000_0000_0000;
    assert y - a * x == 0x1_0000_0000_0000_0000 * k;
    assert a * x - b * x == 0x1_0000_0000 * (q * x);
    MultipleMod(y - b * x, q * x + 0x1_0000_0000 * k);
  }

  lemma {:induction false} AccumulatorCongruent(m: seq<I32>, n: int, i: int, j: int)
    requires 0 <= i < n && Fits(m, n) && 0 <= j <= n
    ensures (RowAcc(m, n, i, j) - ExactProduct(m, n, i, j)) % 0x1_0000_0000 == 0
  {
    if j > 0 {
      AccumulatorCongruent(m, n, i, j - 1);
      StepCongruent(RowAcc(m, n, i, j - 1), ExactProduct(m, n, i, j - 1), Entry(m, n, i, j - 1));
    }
  }

  /** Truncation to 32 bits sees a number modulo 2^32 only, and keeps the
      numbers that already fit. */
  lemma TruncCongruent(a: int, e: int)
    requires (a - e) % 0x1_0000_0000 == 0
    ensures Trunc32(a) == Trunc32(e)
    ensures -0x8000_0000 <= e < 0x8000_0000 ==> Trunc32(e) == e
  {
    var q := (a - e) / 0x1_0000_0000;
    assert a - e == 0x1_0000_0000 * q;
    Trunc32Congruent(a);
    Trunc32Congruent(e);
    var p := e / 0x1_0000_0000;
    assert e == 0x1_0000_0000 * p + e % 0x1_0000_0000;
    DivBetween(a, 0x1_0000_0000, p + q);
    if -0x8000_0000 <= e < 0 {
      DivBetween(e, 0x1_0000_0000, -1);
    } else if 0 <= e < 0x8000_0000 {
      DivBetween(e, 0x1_0000_0000, 0);
    }
  }

  /** The 64-bit accumulator buys nothing: the stored value is the exact row
      product reduced to 32 bits, overflow of the accumulator or not; a
      product that fits an `int` is stored as it is. */
  lemma TruncatedExactProduct(m: seq<I32>, n: int, i: int)
    requires 0 <= i < n && Fits(m, n)
    ensures RowProduct(m, n, i) == Trunc32(ExactProduct(m, n, i, n))
    ensures -0x8000_0000 <= ExactProduct(m, n, i, n) < 0x8000_0000 ==>
              RowProduct(m, n, i) == ExactProduct(m, n, i, n)
  {
    AccumulatorCongruent(m, n, i, n);
    TruncCongruent(RowAcc(m, n, i, n), ExactProduct(m, n, i, n));
  }

  /** A row's product depends on that row's cells and on nothing else. */
  lemma {:induction false} RowReadsOnlyItsCells(m1: seq<I32>, m2: seq<I32>, n: int, i: int, j: int)
    requires 0 <= i < n && Fits(m1, n) && Fits(m2, n) && 0 <= j <= n
    requires forall c :: 0 <= c < n ==> Entry(m1, n, i, c) == Entry(m2, n, i, c)
    ensures RowAcc(m1, n, i, j) == RowAcc(m2, n, i, j)
  {
    if j > 0 {
      RowReadsOnlyItsCells(m1, m2, n, i, j - 1);
      assert Entry(m1, n, i, j - 1) == Entry(m2, n, i, j - 1);
    }
  }

  // ---------------------------------------------------------------------
  // The kernel's effect
  // ---------------------------------------------------------------------

  /** The number of rows the kernel processes: n, or none when n <= 0. */
  function Rows(n: int): nat
  {
    if n > 0 then n else 0
  }

  /** The row and the column of a cell of the n x n matrix. */
  lemma SplitIndex(n: int, k: int)
    requires n > 0 && 0 <= k < n * n
    ensures 0 <= k / n < n && 0 <= k % n < n && k == CellIndex(n, k / n, k % n)
  {
    var q := k / n;
    assert k == n * q + k % n;
    if q < 0 {
      MulMono(n, q + 1, 0);
      assert false;
    } else if q >= n {
      MulMono(n, n, q);
      assert false;
    }
  }

  /** Whether cell k of the n x n matrix is the anti-diagonal cell of its row. */
  predicate OnAntiDiagonal(n: int, k: int)
    requires n > 0
  {
    k % n == n - 1 - k / n
  }

  /** The matrix once rows 0..done-1 have been processed in order: each
      row's product, taken over the ORIGINAL entries, written to the row's
      anti-diagonal cell. */
  function Partial(m: seq<I32>, n: int, done: nat): (r: seq<I32>)
    requires Fits(m, n) && done <= Rows(n)
    ensures |r| == |m|
    decreases done
  {
    if done == 0 then m
    else
      RowInBounds(n, done - 1);
      Partial(m, n, done - 1)[Target(n, done - 1) := RowProduct(m, n, done - 1)]
  }

  /** The matrix place_secondary_diagonal leaves behind. */
  function AntiDiagonal(m: seq<I32>, n: int): (r: seq<I32>)
    requires Fits(m, n)
    ensures |r| == |m|
  {
    Partial(m, n, Rows(n))
  }

  /** Cell k once rows 0..done-1 have been processed, stated cell by cell:
      the product of row k/n when k is the anti-diagonal cell of an already
      processed row, the original entry otherwise. */
  function Updated(m: seq<I32>, n: int, done: nat, k: int): I32
    requires Fits(m, n) && 0 <= k < |m| && done <= Rows(n)
  {
    if n > 0 && k < n * n && k / n < done && OnAntiDiagonal(n, k) then
      SplitIndex(n, k);
      RowProduct(m, n, k / n)
    else m[k]
  }

  /** The row-by-row definition agrees with the cell-by-cell one. */
  lemma {:induction false} PartialCells(m: seq<I32>, n: int, done: nat, k: int)
    requires Fits(m, n) && done <= Rows(n) && 0 <= k < |m|
    ensures Partial(m, n, done)[k] == Updated(m, n, done, k)
    decreases done
  {
    if done > 0 {
      var d := done - 1;
      PartialCells(m, n, d, k);
      RowInBounds(n, d);
      TargetsInOwnRow(n, d, d);
      if k != Target(n, d) && k < n * n && k / n == d && OnAntiDiagonal(n, k) {
        SplitIndex(n, k);
        assert false;
      }
    }
  }

  /** Rows not yet processed still hold their original entries. */
  lemma PartialKeepsPendingRows(m: seq<I32>, n: int, done: nat, i: int, j: int)
    requires Fits(m, n) && done <= i < n && 0 <= j < n
    ensures CellIndex(n, i, j) < |m|
    ensures Partial(m, n, done)[CellIndex(n, i, j)] == m[CellIndex(n, i, j)]
  {
    RowInBounds(n, i);
    RowColumnOf(n, i, j);
    PartialCells(m, n, done, CellIndex(n, i, j));
  }

  /** What the kernel does, cell by cell: each row's anti-diagonal cell
      receives that row's product, taken over the row's original entries, and
      every other cell keeps its value; with n <= 0 nothing changes. */
  lemma AntiDiagonalCells(m: seq<I32>, n: int)
    requires Fits(m, n)
    ensures forall i :: 0 <= i < n ==> 0 <= Target(n, i) < |m| && AntiDiagonal(m, n)[Target(n, i)] == RowProduct(m, n, i)
    ensures forall k :: 0 <= k < |m| && (n <= 0 || k >= n * n || !OnAntiDiagonal(n, k)) ==> AntiDiagonal(m, n)[k] == m[k]
  {
    forall i | 0 <= i < n ensures 0 <= Target(n, i) < |m| && AntiDiagonal(m, n)[Target(n, i)] == RowProduct(m, n, i) {
      RowInBounds(n, i);
      TargetsInOwnRow(n, i, i);
      PartialCells(m, n, Rows(n), Target(n, i));
    }
    forall k | 0 <= k < |m| && (n <= 0 || k >= n * n || !OnAntiDiagonal(n, k)) ensures AntiDiagonal(m, n)[k] == m[k] {
      PartialCells(m, n, Rows(n), k);
    }
  }

  /** The worked example, row by row: row i of the 3 x 3 matrix 1..9 holds
      3i+1, 3i+2, 3i+3, so the kernel stores 1*2*3 = 6, 4*5*6 = 120 and
      7*8*9 = 504 in cells 2, 4 and 6 (AntiDiagonalCells keeps every other
      cell). */
  lemma Example3x3(m: seq<I32>, i: int)
    requires Fits(m, 3) && 0 <= i < 3
    requires forall j :: 0 <= j < 3 ==> Entry(m, 3, i, j) == 3 * i + j + 1
    ensures RowProduct(m, 3, i) == [6, 120, 504][i]
    ensures Target(3, i) == [2, 4, 6][i]
  {
    assert Entry(m, 3, i, 0) == 3 * i + 1 && Entry(m, 3, i, 1) == 3 * i + 2 && Entry(m, 3, i, 2) == 3 * i + 3;
    if i == 0 {
      assert ExactProduct(m, 3, 0, 1) == 1 && ExactProduct(m, 3, 0, 2) == 2 && ExactProduct(m, 3, 0, 3) == 6;
    } else if i == 1 {
      assert ExactProduct(m, 3, 1, 1) == 4 && ExactProduct(m, 3, 1, 2) == 20 && ExactProduct(m, 3, 1, 3) == 120;
    } else {
      assert ExactProduct(m, 3, 2, 1) == 7 && ExactProduct(m, 3, 2, 2) == 56 && ExactProduct(m, 3, 2, 3) == 504;
    }
    TruncatedExactProduct(m, 3, i);
  }

  // ---------------------------------------------------------------------
  // The rows can be processed in any order
  // ---------------------------------------------------------------------

  /** One worker step: compute row i's product and store it in the row's
      anti-diagonal cell. */
  function ApplyRow(m: seq<I32>, n: int, i: int): (r: seq<I32>)
    requires Fits(m, n) && 0 <= i < n
    ensures |r| == |m| && Target(n, i) < |m|
    ensures r[Target(n, i)] == RowProduct(m, n, i)
    ensures forall k :: 0 <= k < |m| && k != Target(n, i) ==> r[k] == m[k]
  {
    RowInBounds(n, i);
    m[Target(n, i) := RowProduct(m, n, i)]
  }

  /** Processing a row does not change another row's product: the step
      writes one cell of its own row only. */
  lemma ApplyRowKeepsOtherProducts(m: seq<I32>, n: int, i1: int, i2: int)
    requires Fits(m, n) && 0 <= i1 < n && 0 <= i2 < n && i1 != i2
    ensures RowProduct(ApplyRow(m, n, i1), n, i2) == RowProduct(m, n, i2)
  {
    var r := ApplyRow(m, n, i1);
    forall c | 0 <= c < n ensures Entry(r, n, i2, c) == Entry(m, n, i2, c) {
      RowInBounds(n, i2);
      TargetsInOwnRow(n, i1, i1);
      RowColumnOf(n, i2, c);
    }
    RowReadsOnlyItsCells(r, m, n, i2, n);
  }

  /** Two workers' steps on different rows commute, so the interleaving of
      the threads does not matter and no lock is needed. */
  lemma ApplyRowsCommute(m: seq<I32>, n: int, i1: int, i2: int)
    requires Fits(m, n) && 0 <= i1 < n && 0 <= i2 < n && i1 != i2
    ensures ApplyRow(ApplyRow(m, n, i1), n, i2) == ApplyRow(ApplyRow(m, n, i2), n, i1)
  {
    ApplyRowKeepsOtherProducts(m, n, i1, i2);
    ApplyRowKeepsOtherProducts(m, n, i2, i1);
    TargetsInOwnRow(n, i1, i2);
  }

  /** The sequential kernel is the worker step applied to rows 0, 1, ... in
      turn. */
  lemma PartialIsApplyRow(m: seq<I32>, n: int, done: nat)
    requires Fits(m, n) && done < n
    ensures Partial(m, n, done + 1) == ApplyRow(Partial(m, n, done), n, done)
  {
    forall c | 0 <= c < n ensures Entry(Partial(m, n, done), n, done, c) == Entry(m, n, done, c) {
      PartialKeepsPendingRows(m, n, done, done, c);
    }
    RowReadsOnlyItsCells(Partial(m, n, done), m, n, done, n);
  }

  // ---------------------------------------------------------------------
  // place_secondary_diagonal
  // ---------------------------------------------------------------------

  /** The rows that workers 0..t-1 have finished. */
  function RowsDone(n: int, w: int, t: int): int
    requires w >= 1
  {
    if n <= 0 then 0 else if t == w then n else BlockStart(n, w, t)
  }

  /** The inner loop of the worker: the `long long` product of row i. */
  method MultiplyRow(mat: array<I32>, n: I32, i: int) returns (prod: I64)
    requires Fits(mat[..], n) && 0 <= i < n
    ensures prod == RowAcc(mat[..], n, i, n)
  {
    RowInBounds(n, i);
    prod := 1;
    var j := 0;
    while j < n
      invariant 0 <= j <= n
      invariant prod == RowAcc(mat[..], n, i, j)
    {
      assert mat[i * n + j] == Entry(mat[..], n, i, j);
      prod := Wrap64(prod * mat[i * n + j]);
      j := j + 1;
    }
  }

  /** The worker lambda: rows startRow..endRow-1 in turn, each row's
      product truncated to an `int` and stored in the row's anti-diagonal
      cell. */
  method Worker(mat: array<I32>, n: I32, startRow: int, endRow: int, ghost m0: seq<I32>)
    requires Fits(m0, n) && |m0| == mat.Length
    requires 0 <= startRow <= endRow <= n
    requires mat[..] == Partial(m0, n, startRow)
    modifies mat
    ensures mat[..] == Partial(m0, n, endRow)
  {
    var i := startRow;
    while i < endRow
      invariant startRow <= i <= endRow
      invariant mat[..] == Partial(m0, n, i)
    {
      var prod := MultiplyRow(mat, n, i);
      PartialIsApplyRow(m0, n, i);
      RowInBounds(n, i);
      mat[i * n + (n - 1 - i)] := Trunc32(prod);
      i := i + 1;
    }
  }

  /** The kernel, with the worker threads run one after another over the
      same blocks. Its outcome does not depend on the thread count. */
  method PlaceSecondaryDiagonal(mat: array<I32>, n: I32, threadCount: I32)
    requires Fits(mat[..], n)
    modifies mat
    ensures mat[..] == AntiDiagonal(old(mat[..]), n)
  {
    ghost var m0 := mat[..];
    var workers := if threadCount > 0 && threadCount <= n then threadCount else 1;
    assert workers == Workers(n, threadCount);
    var rowsPerThread := n / workers;
    var t := 0;
    while t < workers
      invariant 0 <= t <= workers
      invariant n <= 0 ==> workers == 1
      invariant 0 <= RowsDone(n, workers, t) <= Rows(n)
      invariant mat[..] == Partial(m0, n, RowsDone(n, workers, t))
    {
      var start := t * rowsPerThread;
      var end := if t + 1 == workers then n else start + rowsPerThread;
      if n > 0 {
        BlocksTile(n, workers, t);
        Worker(mat, n, start, end, m0);
      }
      t := t + 1;
    }
  }
}
