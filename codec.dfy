/**
 * The triangular index codec: how the strictly-upper triangle of an
 * (max+1) x (max+1) similarity matrix is stored as one flat byte sequence,
 * and how a similarity in hundredths is read back from it.
 *
 * Row `row` stores the entries (row, row+1) .. (row, max); the diagonal is
 * never stored and the lower triangle is recovered by symmetry.
 */
module Codec {

  /** An unsigned byte of the packed file. */
  type Byte = b: int | 0 <= b < 256

  /** Number of bytes in the packed file for largest index `max`. */
  function PackedSize(max: nat): nat
  {
    max * (max + 1) / 2
  }

  /**
   * Where row `row` starts in the packed sequence. The source computes
   * row * (max - (row - 1) / 2) in floating point; the product
   * row * (2 * max - row + 1) is always even, so the integer form is exact
   * (see RowOffsetMatchesSource).
   */
  function RowOffset(max: nat, row: int): int
  {
    row * (2 * max - row + 1) / 2
  }

  /** Reference definition: the number of stored entries in rows 0 .. row-1. */
  function EntriesBefore(max: nat, row: nat): nat
    requires row <= max + 1
  {
    if row == 0 then 0 else EntriesBefore(max, row - 1) + (max - (row - 1))
  }

  /** Offset of the upper-triangle cell (row, col) in the packed sequence. */
  function PackedIndex(max: nat, row: int, col: int): int
  {
    RowOffset(max, row) + col - row - 1
  }

  lemma ProductIsEven(max: nat, row: int)
    ensures (row * (2 * max - row + 1)) % 2 == 0
  {
    if row % 2 == 0 {
      var q := row / 2;
      assert row * (2 * max - row + 1) == 2 * (q * (2 * max - row + 1));
    } else {
      var q := (row - 1) / 2;
      assert 2 * max - row + 1 == 2 * (max - q);
      assert row * (2 * max - row + 1) == 2 * (row * (max - q));
    }
  }

  /** The integer closed form equals the source's real-valued expression. */
  lemma RowOffsetMatchesSource(max: nat, row: int)
    ensures RowOffset(max, row) as real
         == (row as real) * ((max as real) - ((row as real) - 1.0) / 2.0)
  {
    var p := row * (2 * max - row + 1);
    ProductIsEven(max, row);
    assert 2 * RowOffset(max, row) == p;
    assert (p as real) == (row as real) * (2.0 * (max as real) - (row as real) + 1.0);
  }

  /** Consecutive rows start `max - row` entries apart. */
  lemma RowOffsetStep(max: nat, row: int)
    ensures RowOffset(max, row + 1) == RowOffset(max, row) + (max - row)
  {
    var a := row * (2 * max - row + 1);
    var b := (row + 1) * (2 * max - row);
    assert b == a + 2 * (max - row);
    ProductIsEven(max, row);
    ProductIsEven(max, row + 1);
    assert b == (row + 1) * (2 * max - (row + 1) + 1);
  }

  lemma RowOffsetZero(max: nat)
    ensures RowOffset(max, 0) == 0
  {
  }

  /** The offset past the last row is the size of the packed file. */
  lemma RowOffsetEnd(max: nat)
    ensures RowOffset(max, max + 1) == PackedSize(max)
  {
    assert (max + 1) * (2 * max - (max + 1) + 1) == 2 * (max * (max + 1) / 2) by {
      ProductIsEven(max, max + 1);
      assert (max + 1) * (2 * max - (max + 1) + 1) == (max + 1) * max;
    }
  }

  /** rowOffset(row) counts exactly the entries stored for the earlier rows. */
  lemma {:induction false} RowOffsetCountsEarlierRows(max: nat, row: nat)
    requires row <= max + 1
    ensures RowOffset(max, row) == EntriesBefore(max, row)
  {
    if row > 0 {
      RowOffsetCountsEarlierRows(max, row - 1);
      RowOffsetStep(max, row - 1);
    }
  }

  /**
   * rowOffset is strictly increasing over the rows 0 .. max (row max stores
   * nothing, so rowOffset(max) == rowOffset(max + 1)).
   */
  lemma {:induction false} RowOffsetIncreasing(max: nat, a: int, b: int)
    requires 0 <= a < b <= max
    ensures RowOffset(max, a) < RowOffset(max, b)
    decreases b - a
  {
    RowOffsetStep(max, a);
    if a + 1 < b {
      RowOffsetIncreasing(max, a + 1, b);
    }
  }

  /** Every row start is an offset between 0 and the size of the packed file. */
  lemma RowOffsetBounds(max: nat, row: int)
    requires 0 <= row <= max + 1
    ensures 0 <= RowOffset(max, row) <= PackedSize(max)
  {
    RowOffsetNonNegative(max, row);
    RowOffsetEnd(max);
    RowOffsetStep(max, max);
    if row < max {
      RowOffsetIncreasing(max, row, max);
    }
  }

  lemma {:induction false} RowOffsetNonNegative(max: nat, row: int)
    requires 0 <= row <= max + 1
    ensures RowOffset(max, row) >= 0
  {
    RowOffsetCountsEarlierRows(max, row);
  }

  /**
   * An upper cell's offset lies inside its own row's block, hence inside the
   * packed file.
   */
  lemma PackedIndexInRow(max: nat, row: int, col: int)
    requires 0 <= row < col <= max
    ensures RowOffset(max, row) <= PackedIndex(max, row, col) < RowOffset(max, row + 1)
    ensures 0 <= PackedIndex(max, row, col) < PackedSize(max)
  {
    RowOffsetStep(max, row);
    RowOffsetBounds(max, row);
    RowOffsetBounds(max, row + 1);
  }

  /** Distinct upper cells are stored at distinct offsets. */
  lemma PackedIndexInjective(max: nat, r1: int, c1: int, r2: int, c2: int)
    requires 0 <= r1 < c1 <= max && 0 <= r2 < c2 <= max
    requires PackedIndex(max, r1, c1) == PackedIndex(max, r2, c2)
    ensures r1 == r2 && c1 == c2
  {
    PackedIndexInRow(max, r1, c1);
    PackedIndexInRow(max, r2, c2);
    if r1 < r2 {
      if r1 + 1 < r2 { RowOffsetIncreasing(max, r1 + 1, r2); }
    } else if r2 < r1 {
      if r2 + 1 < r1 { RowOffsetIncreasing(max, r2 + 1, r1); }
    }
  }

  /** Recovers the upper cell stored at offset `idx`, searching from row `row`. */
  function UnpackFrom(max: nat, row: nat, idx: int): (cell: (int, int))
    requires row <= max
    requires RowOffset(max, row) <= idx < PackedSize(max)
    ensures row <= cell.0 < cell.1 <= max
    ensures PackedIndex(max, cell.0, cell.1) == idx
    decreases max - row
  {
    RowOffsetStep(max, row);
    RowOffsetEnd(max);
    if idx < RowOffset(max, row + 1) then
      (row, idx - RowOffset(max, row) + row + 1)
    else
      UnpackFrom(max, row + 1, idx)
  }

  /** Every offset of the packed file holds exactly one upper cell. */
  function Unpack(max: nat, idx: int): (cell: (int, int))
    requires 0 <= idx < PackedSize(max)
    ensures 0 <= cell.0 < cell.1 <= max
    ensures PackedIndex(max, cell.0, cell.1) == idx
  {
    UnpackFrom(max, 0, idx)
  }

  /**
   * Quantisation of a stored byte to hundredths: round(v * 100 / 255), with
   * round meaning floor(x + 1/2) as JavaScript's Math.round does.
   */
  function Quantize(v: Byte): (h: int)
    ensures 0 <= h <= 100
    ensures 510 * h <= 200 * v + 255 < 510 * (h + 1)
  {
    (100 * v + 127) / 255
  }

  /** The same rounding statement over the reals. */
  lemma QuantizeRounds(v: Byte)
    ensures (Quantize(v) as real) <= (v as real) * 100.0 / 255.0 + 0.5 < (Quantize(v) as real) + 1.0
  {
    var h := Quantize(v);
    assert (510 * h) as real <= (200 * v + 255) as real < (510 * (h + 1)) as real;
  }

  /** v * 100 / 255 is never exactly halfway between two integers. */
  lemma QuantizeNeverTies(v: Byte)
    ensures (200 * v + 255) % 510 != 0
  {
  }

  lemma QuantizeEndpoints()
    ensures Quantize(0) == 0 && Quantize(255) == 100
  {
  }

  lemma QuantizeMonotone(v: Byte, w: Byte)
    requires v <= w
    ensures Quantize(v) <= Quantize(w)
  {
  }

  /**
   * The similarity of items `row` and `col` in hundredths (the source's
   * float divided by 100 reads back as this many hundredths).
   */
  function Similarity(d: seq<Byte>, max: nat, row: int, col: int): (s: int)
    requires |d| == PackedSize(max)
    requires 0 <= row <= max && 0 <= col <= max
    ensures 0 <= s <= 100
    ensures row == col ==> s == 100
    decreases if col < row then 1 else 0
  {
    if row == col then
      100
    else if col > row then
      PackedIndexInRow(max, row, col);
      Quantize(d[PackedIndex(max, row, col)])
    else
      Similarity(d, max, col, row)
  }

  lemma SimilaritySymmetric(d: seq<Byte>, max: nat, row: int, col: int)
    requires |d| == PackedSize(max)
    requires 0 <= row <= max && 0 <= col <= max
    ensures Similarity(d, max, row, col) == Similarity(d, max, col, row)
  {
  }

  /** The diagonal does not depend on the packed data. */
  lemma SimilarityDiagonal(d: seq<Byte>, e: seq<Byte>, max: nat, row: int)
    requires |d| == |e| == PackedSize(max)
    requires 0 <= row <= max
    ensures Similarity(d, max, row, row) == Similarity(e, max, row, row) == 100
  {
  }

  /** A full (max+1) x (max+1) symmetric byte matrix. */
  predicate IsSymmetricMatrix(m: seq<seq<Byte>>, max: nat)
  {
    && |m| == max + 1
    && (forall r :: 0 <= r <= max ==> |m[r]| == max + 1)
    && (forall r, c :: 0 <= r <= max && 0 <= c <= max ==> m[r][c] == m[c][r])
  }

  /** Reference encoder: rows 0 .. k-1 of the upper triangle, row-major. */
  function PackRows(m: seq<seq<Byte>>, max: nat, k: nat): (p: seq<Byte>)
    requires |m| == max + 1 && k <= max + 1
    requires forall r :: 0 <= r <= max ==> |m[r]| == max + 1
    ensures |p| == RowOffset(max, k)
  {
    if k == 0 then []
    else
      RowOffsetStep(max, k - 1);
      PackRows(m, max, k - 1) + m[k - 1][k..]
  }

  function Pack(m: seq<seq<Byte>>, max: nat): (p: seq<Byte>)
    requires |m| == max + 1
    requires forall r :: 0 <= r <= max ==> |m[r]| == max + 1
    ensures |p| == PackedSize(max)
  {
    RowOffsetEnd(max);
    PackRows(m, max, max + 1)
  }

  lemma {:induction false} PackRowsAt(m: seq<seq<Byte>>, max: nat, k: nat, row: int, col: int)
    requires |m| == max + 1 && k <= max + 1
    requires forall r :: 0 <= r <= max ==> |m[r]| == max + 1
    requires 0 <= row < k && row < col <= max
    ensures 0 <= PackedIndex(max, row, col) < |PackRows(m, max, k)|
    ensures PackRows(m, max, k)[PackedIndex(max, row, col)] == m[row][col]
  {
    PackedIndexInRow(max, row, col);
    RowOffsetStep(max, k - 1);
    var prefix := PackRows(m, max, k - 1);
    assert PackRows(m, max, k) == prefix + m[k - 1][k..];
    if row == k - 1 {
      assert PackedIndex(max, row, col) - |prefix| == col - k;
    } else {
      PackRowsAt(m, max, k - 1, row, col);
      if row + 1 < k - 1 {
        RowOffsetIncreasing(max, row + 1, k - 1);
      }
    }
  }

  /**
   * Round trip: packing a symmetric matrix and reading it back through the
   * codec yields every cell, quantised, and 100 on the diagonal.
   */
  lemma SimilarityOfPacked(m: seq<seq<Byte>>, max: nat, row: int, col: int)
    requires IsSymmetricMatrix(m, max)
    requires 0 <= row <= max && 0 <= col <= max
    ensures Similarity(Pack(m, max), max, row, col)
         == if row == col then 100 else Quantize(m[row][col])
  {
    RowOffsetEnd(max);
    if row < col {
      PackRowsAt(m, max, max + 1, row, col);
    } else if col < row {
      PackRowsAt(m, max, max + 1, col, row);
    }
  }
}
