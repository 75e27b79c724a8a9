// The two render passes: a low-depth probe that only marks escaping points,
// and a high-depth final pass with the banded palette. Both sample every
// pixel, run the escape loop and store the colour into the packed buffer.

module Render {
  import opened Packing
  import opened Escape

  const LowResDepth: nat := 50
  const HiResDepth: nat := 100
  const ColorCount: bv8 := 7

  /** The sampled window: its half-width and the complex coordinate it is
      shifted by. */
  datatype Viewport = Viewport(invZoom: real, offsetX: real, offsetY: real)

  /** Which pass is drawn. The final pass maps an escape count to the
      truncated colour magnitude through `shade`, which stands for the
      power-law term of the source and is only used modulo `ColorCount`. */
  datatype Pass = Probe | Final(shade: int -> bv8)

  function Depth(pass: Pass): nat
  {
    if pass.Probe? then LowResDepth else HiResDepth
  }

  /** The value the escape count keeps when no iteration escapes. */
  function Sentinel(pass: Pass): int
  {
    if pass.Probe? then -1 else HiResDepth
  }

  /** Vertical shift that centres the rows, whose coordinates are scaled by
      the width as well. */
  function ScaleY(w: nat, h: nat): real
    requires 0 < w
  {
    h as real / (w as real * 2.0)
  }

  /** The complex point sampled for pixel (row, col). */
  function Sample(view: Viewport, w: nat, h: nat, row: nat, col: nat): Complex
    requires 0 < w
  {
    Complex(view.invZoom * (col as real / w as real - 0.5) + view.offsetX,
            view.invZoom * (row as real / w as real - ScaleY(w, h)) + view.offsetY)
  }

  /** For even dimensions the middle pixel samples the viewport's offset. */
  lemma SampleCentre(view: Viewport, w: nat, h: nat)
    requires 0 < w && w % 2 == 0 && h % 2 == 0
    ensures Sample(view, w, h, h / 2, w / 2) == Complex(view.offsetX, view.offsetY)
  {
    assert (w / 2) as real * 2.0 == w as real;
    assert (w / 2) as real / w as real == 0.5;
    assert (h / 2) as real * 2.0 == h as real;
    assert (h / 2) as real / w as real == h as real / (w as real * 2.0);
  }

  /** The colour stored for an escape count. */
  function Palette(pass: Pass, count: int): (color: bv8)
    ensures color <= 7
    ensures pass.Probe? ==> color <= 1
  {
    match pass
    case Probe => if count != -1 then 1 else 0
    case Final(shade) => if count != HiResDepth then shade(count) % ColorCount + 1 else 0
  }

  /** The colour a pass stores for pixel (row, col). */
  function PixelColor(pass: Pass, view: Viewport, z0: Complex, w: nat, h: nat, row: nat, col: nat): (color: bv8)
    requires 0 < w
    ensures color <= 7
  {
    Palette(pass, EscapeCount(z0, Sample(view, w, h, row, col), Depth(pass), Sentinel(pass)))
  }

  /** A probe pixel is 0 or 1, and it is 1 exactly when some iteration below
      `LowResDepth` escapes. */
  lemma ProbeColorSpec(view: Viewport, z0: Complex, w: nat, h: nat, row: nat, col: nat)
    requires 0 < w
    ensures var color := PixelColor(Probe, view, z0, w, h, row, col);
            var c := Sample(view, w, h, row, col);
            (color == 0 || color == 1) &&
            (color == 1 <==> exists k :: 0 <= k < LowResDepth && EscapedAt(z0, c, k))
  {
    EscapeCountSpec(z0, Sample(view, w, h, row, col), LowResDepth, -1);
  }

  /** A final pixel lies in 0..7; it is 0 exactly when no iteration below
      `HiResDepth` escapes, and otherwise it is `shade(n) % 7 + 1` for the
      first escaping iteration `n`, so it lies in 1..7. */
  lemma FinalColorSpec(shade: int -> bv8, view: Viewport, z0: Complex, w: nat, h: nat, row: nat, col: nat)
    requires 0 < w
    ensures var color := PixelColor(Final(shade), view, z0, w, h, row, col);
            var c := Sample(view, w, h, row, col);
            color <= 7 &&
            (color == 0 <==> forall k :: 0 <= k < HiResDepth ==> !EscapedAt(z0, c, k)) &&
            (color != 0 ==>
               1 <= color &&
               exists n :: 0 <= n < HiResDepth && EscapedAt(z0, c, n) &&
                           (forall k :: 0 <= k < n ==> !EscapedAt(z0, c, k)) &&
                           color == shade(n) % ColorCount + 1)
  {
    var c := Sample(view, w, h, row, col);
    EscapeCountSpec(z0, c, HiResDepth, HiResDepth);
    var n := EscapeCount(z0, c, HiResDepth, HiResDepth);
    if n != HiResDepth {
      assert 0 <= n < HiResDepth && EscapedAt(z0, c, n);
    }
  }

  /** The picture a pass draws: the colour of every pixel, row by row. */
  function Picture(pass: Pass, view: Viewport, z0: Complex, w: nat, h: nat): (pic: seq<seq<bv8>>)
    requires 0 < w
    ensures IsPicture(pic, w, h)
    ensures forall row, col :: 0 <= row < h && 0 <= col < w ==> pic[row][col] == PixelColor(pass, view, z0, w, h, row, col)
  {
    seq(h, (row: int) requires 0 <= row =>
      seq(w, (col: int) requires 0 <= col => PixelColor(pass, view, z0, w, h, row, col)))
  }

  /** `pic` gives every pixel the colour the pass gives it. */
  predicate Draws(pic: seq<seq<bv8>>, pass: Pass, view: Viewport, z0: Complex, w: nat, h: nat)
    requires 0 < w && IsPicture(pic, w, h)
  {
    forall row, col {:trigger PixelColor(pass, view, z0, w, h, row, col)} :: 0 <= row < h && 0 <= col < w ==>
      PixelColor(pass, view, z0, w, h, row, col) == pic[row][col]
  }

  /** Every pixel of the buffer reads back as the colour the pass gives it. */
  predicate Rendered(image: seq<bv8>, w: nat, h: nat, pass: Pass, view: Viewport, z0: Complex)
  {
    Shaped(image, w, h) &&
    forall row: nat, col: nat :: row < h && col < w ==>
      PixelAt(image, w, h, row, col) == PixelColor(pass, view, z0, w, h, row, col)
  }

  /** A drawn probe buffer holds only 0 and 1; a drawn final buffer only 0..7. */
  lemma RenderedPaletteBounds(image: seq<bv8>, w: nat, h: nat, pass: Pass, view: Viewport, z0: Complex)
    requires Rendered(image, w, h, pass, view, z0)
    ensures forall row: nat, col: nat :: row < h && col < w ==>
              PixelAt(image, w, h, row, col) <= (if pass.Probe? then 1 else 7)
  {
  }

  /** Samples pixel (row, col), runs the escape loop and maps the count to
      its colour. */
  method ComputePixel(pass: Pass, view: Viewport, z0: Complex, w: nat, h: nat, row: nat, col: nat)
    returns (color: bv8)
    requires 0 < w
    ensures color == PixelColor(pass, view, z0, w, h, row, col)
  {
    var relativeY := row as real / w as real;
    var relativeX := col as real / w as real;
    var xPos := view.invZoom * (relativeX - 0.5) + view.offsetX;
    var yPos := view.invZoom * (relativeY - ScaleY(w, h)) + view.offsetY;
    assert Complex(xPos, yPos) == Sample(view, w, h, row, col);
    var escapeCount := EscapeTime(z0, Complex(xPos, yPos), Depth(pass), Sentinel(pass));
    color := Palette(pass, escapeCount);
  }

  /** Stores `color` into the nibble of pixel (row, col), in place: the byte
      `(pxRows + col)/2`, byte `col/2` of the row, is updated and no other
      byte changes. */
  method StorePixel(image: array<bv8>, w: nat, h: nat, row: nat, pxRows: nat, col: nat, color: bv8)
    requires Fits(image.Length, w, h) && row < h && col < w && pxRows == RowStart(w, row)
    modifies image
    ensures ByteIndex(pxRows, col) == RowStart(w / 2, row) + col / 2 < BufferSize(w, h)
    ensures image[..] == old(image[..])[ByteIndex(pxRows, col) := WriteNibble(old(image[..])[ByteIndex(pxRows, col)], col, color)]
  {
    PixelByte(w, h, row, col);
    var i := (pxRows + col) / 2;
    image[i] := WriteNibble(image[i], col, color);
  }

  /** The body of the column loop: computes the colour of pixel (row, col)
      and stores it into its nibble. `colors` is the row the pass draws and
      `s0` the buffer before the row was started; the column is the pair
      `pair` of the row, its odd half when `odd` holds. */
  method RenderPixel(image: array<bv8>, w: nat, h: nat, pass: Pass, view: Viewport, z0: Complex,
                     row: nat, pxRows: nat, col: nat,
                     ghost colors: seq<bv8>, ghost s0: seq<bv8>, ghost pair: nat, ghost odd: bool)
    requires Fits(image.Length, w, h) && row < h && pxRows == RowStart(w, row)
    requires col == Column(pair, odd) < w == |colors| && |s0| == image.Length
    requires RowStart(w / 2, row) + w / 2 <= |s0|
    requires colors[col] == PixelColor(pass, view, z0, w, h, row, col)
    requires RowPrefix(image[..], s0, RowStart(w / 2, row), colors, pair, odd)
    modifies image
    ensures RowPrefix(image[..], s0, RowStart(w / 2, row), colors, if odd then pair + 1 else pair, !odd)
  {
    ghost var s := image[..];
    var color := ComputePixel(pass, view, z0, w, h, row, col);
    RowStep(s, s0, RowStart(w / 2, row), colors, pair, odd);
    ColumnHalves(pair, odd);
    StorePixel(image, w, h, row, pxRows, col, color);
  }

  /** Draws one row, left to right, where `colors` are the colours the pass
      gives the row's pixels; only the row's own `w/2` bytes change, and
      afterwards they are those colours packed two to a byte. */
  method RenderRow(image: array<bv8>, w: nat, h: nat, pass: Pass, view: Viewport, z0: Complex,
                   row: nat, pxRows: nat, ghost colors: seq<bv8>)
    requires Fits(image.Length, w, h) && row < h && pxRows == RowStart(w, row) && |colors| == w
    requires forall col :: 0 <= col < w ==> colors[col] == PixelColor(pass, view, z0, w, h, row, col)
    modifies image
    ensures RowStart(w / 2, row) + w / 2 <= BufferSize(w, h)
    ensures image[..] == old(image[..])[..RowStart(w / 2, row)] + PackRow(colors) +
                         old(image[..])[RowStart(w / 2, row) + w / 2..]
  {
    RowInBounds(w, h, row);
    ghost var base := RowStart(w / 2, row);
    ghost var s0 := image[..];
    // The column is tracked as a pair of bytes and a nibble flag.
    ghost var pair, odd := 0, false;
    var col := 0;
    while col < w
      invariant col == Column(pair, odd) <= w && base + w / 2 <= |s0|
      invariant RowPrefix(image[..], s0, base, colors, pair, odd)
    {
      RenderPixel(image, w, h, pass, view, z0, row, pxRows, col, colors, s0, pair, odd);
      col := col + 1;
      pair, odd := if odd then pair + 1 else pair, !odd;
    }
    assert !odd && pair == w / 2;
    RowDone(image[..], s0, base, colors);
  }

  /** The pixel loop shared by both passes: rows top to bottom, each pixel's
      colour stored into its nibble in place. `pic` is the picture the pass
      draws. Afterwards the buffer is that picture packed, followed by the
      bytes past the image, untouched. */
  method Render(image: array<bv8>, w: nat, h: nat, pass: Pass, view: Viewport, z0: Complex, ghost pic: seq<seq<bv8>>)
    requires Fits(image.Length, w, h) && IsPicture(pic, w, h)
    requires Draws(pic, pass, view, z0, w, h)
    modifies image
    ensures Drawn(image[..], old(image[..]), pic, w, h)
  {
    var row := 0;
    assert image[..] == PackRows(pic, w, 0) + old(image[..])[RowStart(w / 2, 0)..];
    while row < h
      invariant 0 <= row <= h
      invariant Drawn(image[..], old(image[..]), pic, w, row)
    {
      RowInBounds(w, h, row);
      var pxRows := RowOffset(w, row);
      ghost var prev := image[..];
      RenderRow(image, w, h, pass, view, z0, row, pxRows, pic[row]);
      AppendPackedRow(image[..], prev, old(image[..]), pic, w, row);
      row := row + 1;
    }
  }

  /** Draws the picture of a pass into the buffer: the buffer is then the
      packed picture followed by the untouched bytes past the image, and every
      pixel reads back as its colour. */
  method Draw(image: array<bv8>, w: nat, h: nat, pass: Pass, view: Viewport, z0: Complex)
    requires Fits(image.Length, w, h)
    modifies image
    ensures image[..] == PackRows(Picture(pass, view, z0, w, h), w, h) + old(image[..])[BufferSize(w, h)..]
    ensures Rendered(image[..], w, h, pass, view, z0)
  {
    ghost var pic := Picture(pass, view, z0, w, h);
    Render(image, w, h, pass, view, z0, pic);
    assert image[..][..BufferSize(w, h)] == PackRows(pic, w, h);
    PackedPicture(image[..], pic, w, h);
  }

  /** The low-resolution pass: every pixel becomes 1 if it escaped within
      `LowResDepth` iterations and 0 otherwise. */
  method DrawLowRes(image: array<bv8>, w: nat, h: nat, view: Viewport, z0: Complex)
    requires Shaped(image[..], w, h)
    modifies image
    ensures Rendered(image[..], w, h, Probe, view, z0)
    ensures image[..] == PackRows(Picture(Probe, view, z0, w, h), w, h) + old(image[..])[BufferSize(w, h)..]
  {
    Draw(image, w, h, Probe, view, z0);
  }

  /** The high-resolution pass: interior pixels become 0, escaping ones a
      colour band in 1..7. */
  method DrawHiRes(image: array<bv8>, w: nat, h: nat, shade: int -> bv8, view: Viewport, z0: Complex)
    requires Shaped(image[..], w, h)
    modifies image
    ensures Rendered(image[..], w, h, Final(shade), view, z0)
    ensures image[..] == PackRows(Picture(Final(shade), view, z0, w, h), w, h) + old(image[..])[BufferSize(w, h)..]
  {
    Draw(image, w, h, Final(shade), view, z0);
  }
}
