// The packed 4-bit image buffer: two pixels per byte, row-major, the even
// column in the high nibble and the odd column in the low nibble.

module Packing {

  /** A buffer of the given width and height: the width is even and positive,
      and the buffer holds at least `BufferSize(w, h)` bytes, which is
      `(w/2) * h`, the size the caller allocates for an even width. */
  predicate Shaped(image: seq<bv8>, w: nat, h: nat)
  {
    Fits(|image|, w, h)
  }

  /** A buffer of `size` bytes can hold an image of the given dimensions. */
  predicate Fits(size: nat, w: nat, h: nat)
  {
    0 < w && w % 2 == 0 && 0 < h && BufferSize(w, h) <= size
  }

  /** The linear index of the first pixel of row `row`, one row length per
      row; `RowStartIsProduct` shows it is `row * w`. */
  function RowStart(w: nat, row: nat): nat
  {
    if row == 0 then 0 else RowStart(w, row - 1) + w
  }

  /** The bytes of `h` rows of `w/2` bytes each. */
  function BufferSize(w: nat, h: nat): nat
  {
    RowStart(w / 2, h)
  }

  /** The byte that holds column `col` of a row whose first pixel has linear
      index `totalRows`. */
  function ByteIndex(totalRows: nat, col: nat): nat
  {
    (totalRows + col) / 2
  }

  /** Reads one pixel from the byte `(totalRows + col)/2`; the result is a
      4-bit value. */
  function GetPixel(image: seq<bv8>, totalRows: nat, col: nat): (r: bv8)
    requires ByteIndex(totalRows, col) < |image|
    ensures r < 16
  {
    var p := image[ByteIndex(totalRows, col)];
    if col % 2 == 1 then p & 0x0F else (p & 0xF0) >> 4
  }

  /** The pixel read is the low nibble of its byte for an odd column and the
      high nibble for an even one. */
  lemma GetPixelNibble(image: seq<bv8>, totalRows: nat, col: nat)
    requires ByteIndex(totalRows, col) < |image|
    ensures col % 2 == 1 ==> GetPixel(image, totalRows, col) == image[ByteIndex(totalRows, col)] % 16
    ensures col % 2 == 0 ==> GetPixel(image, totalRows, col) == image[ByteIndex(totalRows, col)] / 16
  {
  }

  /** The new value of byte `p` after `color` is stored for column `col`, as
      both renderers do it: an odd column keeps the high nibble and adds the
      colour, an even column stores the colour shifted up and clears the low
      nibble. Arithmetic is modulo 256, as for a store into an 8-bit byte. */
  function WriteNibble(p: bv8, col: nat, color: bv8): (r: bv8)
    ensures color < 16 && col % 2 == 1 ==> r / 16 == p / 16 && r % 16 == color
    ensures color < 16 && col % 2 == 0 ==> r / 16 == color && r % 16 == 0
  {
    if col % 2 == 1 then (p & 0xF0) + color else color << 4
  }

  /** The byte written for a pixel pair: first the even column, then the odd. */
  function PackPair(hi: bv8, lo: bv8): bv8
  {
    WriteNibble(WriteNibble(0, 0, hi), 1, lo)
  }

  /** The bytes of a row of colours, two pixels per byte. */
  function PackRow(colors: seq<bv8>): (r: seq<bv8>)
    requires |colors| % 2 == 0
    ensures |r| == |colors| / 2
    ensures forall j {:trigger r[j]} :: 0 <= j < |r| ==> r[j] == PackPair(colors[2 * j], colors[2 * j + 1])
  {
    seq(|colors| / 2, (j: int) requires 0 <= j < |colors| / 2 => PackPair(colors[2 * j], colors[2 * j + 1]))
  }

  lemma PackPairNibbles(hi: bv8, lo: bv8)
    requires hi < 16 && lo < 16
    ensures PackPair(hi, lo) / 16 == hi && PackPair(hi, lo) % 16 == lo
  {
  }

  /** For an odd column the addition cannot carry into the high nibble. */
  lemma OddWriteNoCarry(p: bv8, color: bv8)
    requires color < 16
    ensures (p & 0xF0) as int + color as int < 256
  {
    assert (p & 0xF0) <= 0xF0;
  }

  /** Writing a pixel and reading it back gives the colour written. */
  lemma WriteThenRead(image: seq<bv8>, totalRows: nat, col: nat, color: bv8)
    requires ByteIndex(totalRows, col) < |image| && color < 16
    ensures var i := ByteIndex(totalRows, col);
            GetPixel(image[i := WriteNibble(image[i], col, color)], totalRows, col) == color
  {
  }

  /** Writing an odd column leaves its even sibling in the same byte unchanged. */
  lemma OddWriteKeepsSibling(image: seq<bv8>, totalRows: nat, col: nat, color: bv8)
    requires totalRows % 2 == 0 && col % 2 == 1
    requires ByteIndex(totalRows, col) < |image| && color < 16
    ensures ByteIndex(totalRows, col - 1) == ByteIndex(totalRows, col)
    ensures var i := ByteIndex(totalRows, col);
            GetPixel(image[i := WriteNibble(image[i], col, color)], totalRows, col - 1)
            == GetPixel(image, totalRows, col - 1)
  {
  }

  /** Writing an even column clears its odd sibling: the row-major pass
      relies on writing the odd column right afterwards. */
  lemma EvenWriteClearsSibling(image: seq<bv8>, totalRows: nat, col: nat, color: bv8)
    requires totalRows % 2 == 0 && col % 2 == 0
    requires ByteIndex(totalRows, col) < |image| && color < 16
    ensures ByteIndex(totalRows, col + 1) == ByteIndex(totalRows, col)
    ensures var i := ByteIndex(totalRows, col);
            GetPixel(image[i := WriteNibble(image[i], col, color)], totalRows, col + 1) == 0
  {
    var i := ByteIndex(totalRows, col);
    var b := WriteNibble(image[i], col, color);
    assert b == color << 4;
    assert b & 0x0F == 0;
    var s := image[i := b];
    assert (col + 1) % 2 == 1 && ByteIndex(totalRows, col + 1) == i;
    assert GetPixel(s, totalRows, col + 1) == s[i] & 0x0F;
  }

  lemma {:induction false} RowStartIsProduct(w: nat, row: nat)
    ensures RowStart(w, row) == row * w
  {
    if row > 0 {
      RowStartIsProduct(w, row - 1);
      assert row * w == (row - 1) * w + w;
    }
  }

  /** The linear index of the first pixel of a row, computed as the
      renderers and the selector compute it, once per row. */
  method RowOffset(w: nat, row: nat) returns (pxRows: nat)
    ensures pxRows == RowStart(w, row)
  {
    pxRows := w * row;
    RowStartIsProduct(w, row);
  }

  /** The buffer size is `(w/2) * h` bytes. */
  lemma BufferSizeIsProduct(w: nat, h: nat)
    ensures BufferSize(w, h) == h * (w / 2)
  {
    RowStartIsProduct(w / 2, h);
  }

  /** For an even width the start of a row is twice its byte offset. */
  lemma {:induction false} RowStartHalf(w: nat, row: nat)
    requires w % 2 == 0
    ensures RowStart(w, row) == 2 * RowStart(w / 2, row)
  {
    if row > 0 {
      RowStartHalf(w, row - 1);
    }
  }

  lemma {:induction false} RowStartMono(w: nat, r1: nat, r2: nat)
    requires r1 <= r2
    ensures RowStart(w, r1) <= RowStart(w, r2)
    decreases r2
  {
    if r1 < r2 {
      RowStartMono(w, r1, r2 - 1);
    }
  }

  /** A whole row lies before the start of any later row. */
  lemma RowBeforeLater(w: nat, r1: nat, r2: nat)
    requires r1 < r2
    ensures RowStart(w, r1) + w <= RowStart(w, r2)
  {
    RowStartMono(w, r1 + 1, r2);
  }

  /** With offsets below the row length, the row and the offset are
      determined by `RowStart(k, r) + j`. */
  lemma MixedRadixUnique(k: nat, r1: nat, j1: nat, r2: nat, j2: nat)
    requires j1 < k && j2 < k && RowStart(k, r1) + j1 == RowStart(k, r2) + j2
    ensures r1 == r2 && j1 == j2
  {
    if r1 < r2 {
      RowBeforeLater(k, r1, r2);
    } else if r2 < r1 {
      RowBeforeLater(k, r2, r1);
    }
  }

  /** For an even width the byte of pixel (row, col) is byte `col/2` of the
      row's `w/2` bytes, and it lies inside a buffer of `h` rows. */
  lemma PixelByte(w: nat, h: nat, row: nat, col: nat)
    requires 0 < w && w % 2 == 0 && row < h && col < w
    ensures ByteIndex(RowStart(w, row), col) == RowStart(w / 2, row) + col / 2
    ensures RowStart(w / 2, row) + col / 2 < BufferSize(w, h)
  {
    RowStartHalf(w, row);
    RowBeforeLater(w / 2, row, h);
  }

  /** The `w/2` bytes of row `row` lie inside a buffer of `h` rows. */
  lemma RowInBounds(w: nat, h: nat, row: nat)
    requires row < h
    ensures RowStart(w / 2, row) + w / 2 <= BufferSize(w, h)
  {
    RowBeforeLater(w / 2, row, h);
  }

  /** The four neighbours of an interior pixel, addressed from the start of
      its row as the selector addresses them, lie inside the buffer. */
  lemma NeighboursInBounds(w: nat, h: nat, row: nat, col: nat)
    requires 0 < w && w % 2 == 0 && 1 <= row && row + 1 < h && 1 <= col && col + 1 < w
    ensures w <= RowStart(w, row)
    ensures RowStart(w, row) - w == RowStart(w, row - 1) && RowStart(w, row) + w == RowStart(w, row + 1)
    ensures ByteIndex(RowStart(w, row), col) < BufferSize(w, h)
    ensures ByteIndex(RowStart(w, row) - w, col) < BufferSize(w, h)
    ensures ByteIndex(RowStart(w, row) + w, col) < BufferSize(w, h)
    ensures ByteIndex(RowStart(w, row), col - 1) < BufferSize(w, h)
    ensures ByteIndex(RowStart(w, row), col + 1) < BufferSize(w, h)
  {
    assert RowStart(w, row + 1) == RowStart(w, row) + w;
    PixelByte(w, h, row, col);
    PixelByte(w, h, row - 1, col);
    PixelByte(w, h, row + 1, col);
    PixelByte(w, h, row, col - 1);
    PixelByte(w, h, row, col + 1);
  }

  /** Pixel (row, col) of an image of width `w`, read as the source reads it. */
  function PixelAt(image: seq<bv8>, w: nat, h: nat, row: nat, col: nat): (r: bv8)
    requires Shaped(image, w, h) && row < h && col < w
    ensures r < 16
  {
    PixelByte(w, h, row, col);
    GetPixel(image, RowStart(w, row), col)
  }

  /** A picture of `h` rows of `w` colours each, every colour a 4-bit value. */
  predicate IsPicture(pic: seq<seq<bv8>>, w: nat, h: nat)
  {
    |pic| == h && forall row :: 0 <= row < h ==> |pic[row]| == w && forall col :: 0 <= col < w ==> pic[row][col] < 16
  }

  /** The buffer bytes of rows `0 .. rows-1` of a picture of width `w`: each
      row packed two pixels to a byte, one row after another. */
  function PackRows(pic: seq<seq<bv8>>, w: nat, rows: nat): (r: seq<bv8>)
    requires w % 2 == 0 && rows <= |pic| && forall row :: 0 <= row < rows ==> |pic[row]| == w
    ensures |r| == RowStart(w / 2, rows)
  {
    if rows == 0 then [] else PackRows(pic, w, rows - 1) + PackRow(pic[rows - 1])
  }

  /** Byte `pair` of row `row` sits at offset `RowStart(w/2, row) + pair` of
      the packed rows and holds the pixels `2*pair` and `2*pair + 1`. */
  lemma {:induction false} PackRowsIndex(pic: seq<seq<bv8>>, w: nat, rows: nat, row: nat, pair: nat)
    requires w % 2 == 0 && rows <= |pic| && forall r :: 0 <= r < rows ==> |pic[r]| == w
    requires row < rows && pair < w / 2
    ensures RowStart(w / 2, row) + pair < RowStart(w / 2, rows)
    ensures PackRows(pic, w, rows)[RowStart(w / 2, row) + pair] == PackPair(pic[row][2 * pair], pic[row][2 * pair + 1])
  {
    RowBeforeLater(w / 2, row, rows);
    if row < rows - 1 {
      PackRowsIndex(pic, w, rows - 1, row, pair);
    }
  }

  /** A buffer that starts with the packed rows of a picture reads back, pixel
      by pixel, as that picture. */
  lemma PackedPicture(image: seq<bv8>, pic: seq<seq<bv8>>, w: nat, h: nat)
    requires Shaped(image, w, h) && IsPicture(pic, w, h)
    requires image[..BufferSize(w, h)] == PackRows(pic, w, h)
    ensures forall row: nat, col: nat :: row < h && col < w ==> PixelAt(image, w, h, row, col) == pic[row][col]
  {
    forall row: nat, col: nat | row < h && col < w
      ensures PixelAt(image, w, h, row, col) == pic[row][col]
    {
      PackedPixel(image, pic, w, h, row, col);
    }
  }

  lemma PackedPixel(image: seq<bv8>, pic: seq<seq<bv8>>, w: nat, h: nat, row: nat, col: nat)
    requires Shaped(image, w, h) && IsPicture(pic, w, h) && row < h && col < w
    requires image[..BufferSize(w, h)] == PackRows(pic, w, h)
    ensures PixelAt(image, w, h, row, col) == pic[row][col]
  {
    PixelByte(w, h, row, col);
    PackRowsIndex(pic, w, h, row, col / 2);
    var k := RowStart(w / 2, row) + col / 2;
    assert image[k] == image[..BufferSize(w, h)][k];
    PackPairNibbles(pic[row][2 * (col / 2)], pic[row][2 * (col / 2) + 1]);
    if col % 2 == 0 {
      assert 2 * (col / 2) == col;
    } else {
      assert 2 * (col / 2) + 1 == col;
    }
  }

  /** A buffer that agrees with `s0` outside `base .. base+|bytes|` and
      holds `bytes` there is `s0` with that range replaced. */
  lemma Splice(s: seq<bv8>, s0: seq<bv8>, base: nat, bytes: seq<bv8>)
    requires |s| == |s0| && base + |bytes| <= |s|
    requires forall k :: 0 <= k < base ==> s[k] == s0[k]
    requires forall j :: 0 <= j < |bytes| ==> s[base + j] == bytes[j]
    requires forall k :: base + |bytes| <= k < |s| ==> s[k] == s0[k]
    ensures s == s0[..base] + bytes + s0[base + |bytes|..]
  {
    var t := s0[..base] + bytes + s0[base + |bytes|..];
    forall k | 0 <= k < |s|
      ensures s[k] == t[k]
    {
      if base <= k < base + |bytes| {
        assert s[base + (k - base)] == bytes[k - base];
      }
    }
  }

  /** Column `2*pair` when `odd` is false, `2*pair + 1` when it holds. */
  function Column(pair: nat, odd: bool): nat
  {
    2 * pair + if odd then 1 else 0
  }

  /** The column's pair and nibble are its quotient and remainder by 2. */
  lemma ColumnHalves(pair: nat, odd: bool)
    ensures Column(pair, odd) / 2 == pair && (Column(pair, odd) % 2 == 1 <==> odd)
  {
  }

  /** `s` is the buffer `s0` after the colours of a row whose bytes start at
      `base` have been written left to right up to column `Column(pair, odd)`
      (exclusive): the completed pairs are packed, a pending even colour sits
      alone in the high nibble with the low nibble cleared, and every other
      byte of `s0` is untouched. */
  predicate RowPrefix(s: seq<bv8>, s0: seq<bv8>, base: nat, colors: seq<bv8>, pair: nat, odd: bool)
    requires Column(pair, odd) <= |colors| && |colors| % 2 == 0 && base + |colors| / 2 <= |s0|
  {
    && |s| == |s0|
    && (forall k {:trigger s[k]} :: 0 <= k < base ==> s[k] == s0[k])
    && (forall k {:trigger s[k]} :: base <= k < base + pair ==>
          s[k] == PackPair(colors[2 * (k - base)], colors[2 * (k - base) + 1]))
    && (odd ==> s[base + pair] == WriteNibble(0, 0, colors[2 * pair]))
    && (forall k {:trigger s[k]} :: base + pair + (if odd then 1 else 0) <= k < |s| ==> s[k] == s0[k])
  }

  /** Writing the next colour of a row into its nibble, as the renderers do,
      moves the row forward by one colour: an even column starts a new byte,
      an odd column completes the byte of its pair. */
  lemma RowStep(s: seq<bv8>, s0: seq<bv8>, base: nat, colors: seq<bv8>, pair: nat, odd: bool)
    requires Column(pair, odd) < |colors| && |colors| % 2 == 0 && base + |colors| / 2 <= |s0|
    requires RowPrefix(s, s0, base, colors, pair, odd)
    ensures base + pair < |s|
    ensures RowPrefix(s[base + pair := WriteNibble(s[base + pair], Column(pair, odd), colors[Column(pair, odd)])],
                      s0, base, colors, if odd then pair + 1 else pair, !odd)
  {
    var col := Column(pair, odd);
    var v := WriteNibble(s[base + pair], col, colors[col]);
    if odd {
      assert col % 2 == 1 && col == 2 * pair + 1;
      assert v == PackPair(colors[2 * pair], colors[2 * pair + 1]);
    } else {
      assert col % 2 == 0 && col == 2 * pair;
      assert v == WriteNibble(0, 0, colors[2 * pair]);
    }
  }

  /** A row written to its end is the packed row spliced into `s0`. */
  lemma RowDone(s: seq<bv8>, s0: seq<bv8>, base: nat, colors: seq<bv8>)
    requires |colors| % 2 == 0 && base + |colors| / 2 <= |s0|
    requires RowPrefix(s, s0, base, colors, |colors| / 2, false)
    ensures s == s0[..base] + PackRow(colors) + s0[base + |colors| / 2..]
  {
    var bytes := PackRow(colors);
    forall j | 0 <= j < |bytes|
      ensures s[base + j] == bytes[j]
    {
      assert s[base + j] == PackPair(colors[2 * (base + j - base)], colors[2 * (base + j - base) + 1]);
    }
    Splice(s, s0, base, bytes);
  }

  /** `s` is the buffer `orig` with its first `rows` rows replaced by the
      packed rows of `pic`. */
  predicate Drawn(s: seq<bv8>, orig: seq<bv8>, pic: seq<seq<bv8>>, w: nat, rows: nat)
    requires w % 2 == 0 && rows <= |pic| && forall r :: 0 <= r < rows ==> |pic[r]| == w
  {
    RowStart(w / 2, rows) <= |orig| && s == PackRows(pic, w, rows) + orig[RowStart(w / 2, rows)..]
  }

  /** Writing the packed row `row` over a buffer that holds the packed rows
      above it, followed by the original bytes, extends the packed prefix by
      that row. */
  lemma AppendPackedRow(s: seq<bv8>, prev: seq<bv8>, orig: seq<bv8>, pic: seq<seq<bv8>>, w: nat, row: nat)
    requires w % 2 == 0 && row < |pic| && forall r :: 0 <= r <= row ==> |pic[r]| == w
    requires RowStart(w / 2, row) + w / 2 <= |orig|
    requires Drawn(prev, orig, pic, w, row)
    requires s == prev[..RowStart(w / 2, row)] + PackRow(pic[row]) + prev[RowStart(w / 2, row) + w / 2..]
    ensures Drawn(s, orig, pic, w, row + 1)
  {
    var base := RowStart(w / 2, row);
    assert prev[..base] == PackRows(pic, w, row);
    assert prev[base + w / 2..] == orig[base + w / 2..];
  }

  /** For an even width, distinct pixels occupy distinct nibbles: the column
      parity used to pick the nibble agrees with the parity of the linear
      pixel index, so the layout is plain row-major packing. */
  lemma SlotInjective(w: nat, h: nat, r1: nat, c1: nat, r2: nat, c2: nat)
    requires 0 < w && w % 2 == 0 && r1 < h && c1 < w && r2 < h && c2 < w
    requires ByteIndex(RowStart(w, r1), c1) == ByteIndex(RowStart(w, r2), c2) && c1 % 2 == c2 % 2
    ensures r1 == r2 && c1 == c2
  {
    PixelByte(w, h, r1, c1);
    PixelByte(w, h, r2, c2);
    MixedRadixUnique(w / 2, r1, c1 / 2, r2, c2 / 2);
  }

  /** For an even width the nibble parity of a pixel equals the parity of its
      linear index `RowStart(w, row) + col`. */
  lemma ParityMatchesLinearIndex(w: nat, row: nat, col: nat)
    requires w % 2 == 0
    ensures (RowStart(w, row) + col) % 2 == col % 2
  {
    RowStartHalf(w, row);
    EvenShiftParity(RowStart(w / 2, row), col);
  }

  lemma EvenShiftParity(m: nat, c: nat)
    ensures (2 * m + c) % 2 == c % 2
  {
  }

  /** With an odd width, two different pixels, (0, 2) and (1, 0) for width 3,
      share the high nibble of byte 1: storing a colour for pixel (1, 0)
      makes pixel (0, 2) read that colour. */
  lemma OddWidthCollision(image: seq<bv8>, color: bv8)
    requires 2 <= |image| && color < 16
    ensures ByteIndex(RowStart(3, 0), 2) == ByteIndex(RowStart(3, 1), 0) == 1
    ensures var i := ByteIndex(RowStart(3, 1), 0);
            GetPixel(image[i := WriteNibble(image[i], 0, color)], RowStart(3, 0), 2) == color
  {
    assert RowStart(3, 1) == 3;
    WriteThenRead(image, RowStart(3, 1), 0, color);
  }
}
