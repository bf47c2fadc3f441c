/**
 * The matrix decoder: one pass over every (row, col) of the (max+1)^2 raster
 * that writes palette colours into a flat row-major pixel buffer, reading the
 * packed file for upper cells and copying the mirror cell for lower ones.
 */
module Decoder {
  import opened Codec

  /**
   * The byte a raster cell displays: 255 on the diagonal, otherwise the
   * stored byte of the upper cell of the pair.
   */
  function DisplayByte(enc: seq<Byte>, max: nat, r: int, c: int): (v: Byte)
    requires |enc| == PackedSize(max)
    requires 0 <= r <= max && 0 <= c <= max
  {
    if r == c then 255
    else if r < c then
      PackedIndexInRow(max, r, c);
      enc[PackedIndex(max, r, c)]
    else
      PackedIndexInRow(max, c, r);
      enc[PackedIndex(max, c, r)]
  }

  /**
   * The raster agrees with the codec: every cell shows a byte whose
   * quantisation is the codec's similarity for the same coordinate, and the
   * raster is symmetric.
   */
  lemma DisplayByteMatchesSimilarity(enc: seq<Byte>, max: nat, r: int, c: int)
    requires |enc| == PackedSize(max)
    requires 0 <= r <= max && 0 <= c <= max
    ensures Quantize(DisplayByte(enc, max, r, c)) == Similarity(enc, max, r, c)
    ensures DisplayByte(enc, max, r, c) == DisplayByte(enc, max, c, r)
  {
    QuantizeEndpoints();
  }

  /**
   * Round trip through the decoder: the raster of a packed symmetric matrix
   * shows, at every off-diagonal cell, the palette colour of that cell's own
   * byte, and the top colour on the diagonal.
   */
  lemma DisplayByteOfPacked(m: seq<seq<Byte>>, max: nat, r: int, c: int)
    requires IsSymmetricMatrix(m, max)
    requires 0 <= r <= max && 0 <= c <= max
    ensures DisplayByte(Pack(m, max), max, r, c) == if r == c then 255 else m[r][c]
  {
    RowOffsetEnd(max);
    if r < c {
      PackRowsAt(m, max, max + 1, r, c);
    } else if c < r {
      PackRowsAt(m, max, max + 1, c, r);
    }
  }

  lemma MulLeft(a: int, b: int, n: int)
    requires a <= b && 0 <= n
    ensures a * n <= b * n
  {
    assert b * n - a * n == (b - a) * n;
  }

  /** Quotient and remainder are unique. */
  lemma DivModUnique(n: int, i: int, q: int, m: int)
    requires 0 < n && 0 <= m < n && i == q * n + m
    ensures i / n == q && i % n == m
  {
    var q0, m0 := i / n, i % n;
    assert q0 * n + m0 == i;
    if q0 < q {
      MulLeft(q0 + 1, q, n);
    } else if q < q0 {
      MulLeft(q + 1, q0, n);
    }
  }

  /** Division by the row width recovers row and column of a flat index. */
  lemma FlatIndex(n: nat, r: int, c: int)
    requires 0 <= r < n && 0 <= c < n
    ensures 0 <= r * n + c < n * n
    ensures (r * n + c) / n == r && (r * n + c) % n == c
  {
    MulLeft(0, r, n);
    MulLeft(r + 1, n, n);
    assert (r + 1) * n == r * n + n;
    DivModUnique(n, r * n + c, r, c);
  }

  /** A flat index below n * n names a cell of the raster. */
  lemma FlatCell(n: nat, i: int)
    requires 0 <= i < n * n
    ensures 0 <= i / n < n && 0 <= i % n < n
  {
    var q := i / n;
    assert q * n + i % n == i;
    if q >= n {
      MulLeft(n, q, n);
    }
  }

  /** Pixel `i` of the decoded raster, row-major with rows of max+1 cells. */
  function Pixel(enc: seq<Byte>, colors: seq<bv32>, max: nat, i: int): bv32
    requires |enc| == PackedSize(max) && |colors| == 256
    requires 0 <= i < (max + 1) * (max + 1)
  {
    FlatCell(max + 1, i);
    colors[DisplayByte(enc, max, i / (max + 1), i % (max + 1))]
  }

  /**
   * Pixel r * (max+1) + c is the colour of cell (r, c), and equals its
   * mirror pixel c * (max+1) + r.
   */
  lemma PixelOfCell(enc: seq<Byte>, colors: seq<bv32>, max: nat, r: int, c: int)
    requires |enc| == PackedSize(max) && |colors| == 256
    requires 0 <= r <= max && 0 <= c <= max
    ensures 0 <= r * (max + 1) + c < (max + 1) * (max + 1)
    ensures 0 <= c * (max + 1) + r < (max + 1) * (max + 1)
    ensures Pixel(enc, colors, max, r * (max + 1) + c) == colors[DisplayByte(enc, max, r, c)]
    ensures Pixel(enc, colors, max, r * (max + 1) + c) == Pixel(enc, colors, max, c * (max + 1) + r)
  {
    FlatIndex(max + 1, r, c);
    FlatIndex(max + 1, c, r);
    DisplayByteMatchesSimilarity(enc, max, r, c);
  }

  /** The pixels of `s` below flat index `upTo` are decoded. */
  ghost predicate DecodedBelow(enc: seq<Byte>, colors: seq<bv32>, max: nat, s: seq<bv32>, upTo: int)
    requires |enc| == PackedSize(max) && |colors| == 256
    requires |s| == (max + 1) * (max + 1)
  {
    forall i :: 0 <= i < upTo && i < |s| ==> s[i] == Pixel(enc, colors, max, i)
  }

  /** Writing the next pixel extends the decoded prefix by one. */
  lemma DecodedBelowExtend(enc: seq<Byte>, colors: seq<bv32>, max: nat, s: seq<bv32>, upTo: int, v: bv32)
    requires |enc| == PackedSize(max) && |colors| == 256
    requires |s| == (max + 1) * (max + 1) && 0 <= upTo < |s|
    requires DecodedBelow(enc, colors, max, s, upTo)
    requires v == Pixel(enc, colors, max, upTo)
    ensures DecodedBelow(enc, colors, max, s[upTo := v], upTo + 1)
  {
  }

  /**
   * Decodes the packed file into the raster in place, row by row. The
   * running count `rowElems` stands for rowOffset(row); lower cells copy
   * their mirror cell, which an earlier row has already written.
   */
  method Decode(max: nat, encoded: seq<Byte>, colors: seq<bv32>, data: array<bv32>)
    requires |encoded| == PackedSize(max)
    requires |colors| == 256 && data.Length == (max + 1) * (max + 1)
    modifies data
    ensures forall i :: 0 <= i < data.Length ==> data[i] == Pixel(encoded, colors, max, i)
  {
    var n := max + 1;
    var rowElems := 0;
    for row := 0 to n
      invariant rowElems == RowOffset(max, row)
      invariant DecodedBelow(encoded, colors, max, data[..], row * n)
    {
      var base := row * n;
      assert (row + 1) * n == base + n;
      for col := 0 to n
        invariant DecodedBelow(encoded, colors, max, data[..], base + col)
      {
        var dataIdx := base + col;
        ghost var before := data[..];
        ghost var want := colors[DisplayByte(encoded, max, row, col)];
        assert 0 <= dataIdx < data.Length && want == Pixel(encoded, colors, max, dataIdx) by {
          PixelOfCell(encoded, colors, max, row, col);
        }
        if row == col {
          data[dataIdx] := colors[255];
        } else if col > row {
          var idx := rowElems + col - row - 1;
          assert 0 <= idx < |encoded| && colors[encoded[idx]] == want by {
            PackedIndexInRow(max, row, col);
          }
          data[dataIdx] := colors[encoded[idx]];
        } else {
          var mirror := col * n + row;
          assert 0 <= mirror < base && before[mirror] == want by {
            PixelOfCell(encoded, colors, max, col, row);
            DisplayByteMatchesSimilarity(encoded, max, row, col);
            MulLeft(col + 1, row, n);
            assert (col + 1) * n == col * n + n;
          }
          data[dataIdx] := data[mirror];
        }
        DecodedBelowExtend(encoded, colors, max, before, dataIdx, data[dataIdx]);
        assert data[..] == before[dataIdx := data[dataIdx]];
      }
      RowOffsetStep(max, row);
      rowElems := rowElems + (max - row);
    }
    forall i | 0 <= i < data.Length
      ensures data[i] == Pixel(encoded, colors, max, i)
    {
      assert data[..][i] == data[i];
    }
  }
}
