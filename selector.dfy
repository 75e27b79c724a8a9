// The boundary-pixel selector: scan the interior of a probe buffer for black
// pixels next to a non-black one, keep them in a fixed-capacity array and
// draw one of them.

module Selector {
  import opened Packing
  import opened Escape

  /** A pixel coordinate: column `x`, row `y`. */
  datatype Pixel = Pixel(x: nat, y: nat)

  /** Capacity of the candidate array: ten rows' worth of pixels. */
  function Capacity(w: nat): nat
  {
    w * 10
  }

  predicate IsBlack(color: bv8)
  {
    color == 0
  }

  /** Pixel (row, col) is inside the outer ring, black, and has a non-black
      pixel above, below, to the left or to the right. The neighbours above
      and below are read one row length before and after the start of the
      row, as the scan reads them. */
  predicate IsCandidate(image: seq<bv8>, w: nat, h: nat, row: nat, col: nat)
    requires Shaped(image, w, h)
  {
    1 <= row && row + 1 < h && 1 <= col && col + 1 < w &&
    (NeighboursInBounds(w, h, row, col);
     var pxRows := RowStart(w, row);
     IsBlack(GetPixel(image, pxRows, col)) &&
     (!IsBlack(GetPixel(image, pxRows - w, col)) ||
      !IsBlack(GetPixel(image, pxRows + w, col)) ||
      !IsBlack(GetPixel(image, pxRows, col - 1)) ||
      !IsBlack(GetPixel(image, pxRows, col + 1))))
  }

  /** A candidate is an interior black pixel with a non-black 4-neighbour. */
  lemma IsCandidateSpec(image: seq<bv8>, w: nat, h: nat, row: nat, col: nat)
    requires Shaped(image, w, h)
    ensures IsCandidate(image, w, h, row, col) <==>
            1 <= row && row + 1 < h && 1 <= col && col + 1 < w &&
            PixelAt(image, w, h, row, col) == 0 &&
            (PixelAt(image, w, h, row - 1, col) != 0 ||
             PixelAt(image, w, h, row + 1, col) != 0 ||
             PixelAt(image, w, h, row, col - 1) != 0 ||
             PixelAt(image, w, h, row, col + 1) != 0)
  {
    if 1 <= row && row + 1 < h && 1 <= col && col + 1 < w {
      RowStartIsProduct(w, row);
      assert (row - 1) * w == w * row - w && (row + 1) * w == w * row + w;
    }
  }

  /** The candidates of row `row` among its first `col` columns, left to right. */
  function RowScan(image: seq<bv8>, w: nat, h: nat, row: nat, col: nat): seq<Pixel>
    requires Shaped(image, w, h)
  {
    if col == 0 then []
    else RowScan(image, w, h, row, col - 1) +
         (if IsCandidate(image, w, h, row, col - 1) then [Pixel(col - 1, row)] else [])
  }

  /** The candidates of the first `row` rows, in row-major order. */
  function Scan(image: seq<bv8>, w: nat, h: nat, row: nat): seq<Pixel>
    requires Shaped(image, w, h)
  {
    if row == 0 then []
    else Scan(image, w, h, row - 1) + RowScan(image, w, h, row - 1, w)
  }

  /** What the selector collects: the scan-order candidates, cut off at the
      capacity of the array. */
  function Collected(image: seq<bv8>, w: nat, h: nat): seq<Pixel>
    requires Shaped(image, w, h)
  {
    var all := Scan(image, w, h, h);
    if |all| <= Capacity(w) then all else all[..Capacity(w)]
  }

  /** Pixel `p` comes strictly before pixel `q` in row-major order. */
  predicate Before(p: Pixel, q: Pixel)
  {
    p.y < q.y || (p.y == q.y && p.x < q.x)
  }

  /** The pixel returned when no candidate exists. */
  function Center(w: nat, h: nat): Pixel
  {
    Pixel(w / 2, h / 2)
  }

  /** A random index source: given `n > 0` candidates it picks one of them. */
  ghost predicate IsChooser(choose: nat -> nat)
  {
    forall n: nat :: 0 < n ==> choose(n) < n
  }

  /** The pixel the selector returns. */
  function Selection(image: seq<bv8>, w: nat, h: nat, choose: nat -> nat): Pixel
    requires Shaped(image, w, h) && IsChooser(choose)
  {
    var c := Collected(image, w, h);
    if |c| == 0 then Center(w, h) else c[choose(|c|)]
  }

  /** Rows outside the interior contribute no candidates. */
  lemma {:induction false} RowScanOutside(image: seq<bv8>, w: nat, h: nat, row: nat, col: nat)
    requires Shaped(image, w, h) && (row == 0 || h <= row + 1)
    ensures RowScan(image, w, h, row, col) == []
  {
    if col > 0 {
      RowScanOutside(image, w, h, row, col - 1);
    }
  }

  /** The row scan lists pixels of row `row` left of `col`, left to right. */
  lemma {:induction false} RowScanShape(image: seq<bv8>, w: nat, h: nat, row: nat, col: nat)
    requires Shaped(image, w, h)
    ensures forall i :: 0 <= i < |RowScan(image, w, h, row, col)| ==>
              RowScan(image, w, h, row, col)[i].y == row && RowScan(image, w, h, row, col)[i].x < col
    ensures forall i, j :: 0 <= i < j < |RowScan(image, w, h, row, col)| ==>
              RowScan(image, w, h, row, col)[i].x < RowScan(image, w, h, row, col)[j].x
  {
    if col > 0 {
      RowScanShape(image, w, h, row, col - 1);
      var a := RowScan(image, w, h, row, col - 1);
      var s := RowScan(image, w, h, row, col);
      if IsCandidate(image, w, h, row, col - 1) {
        assert s == a + [Pixel(col - 1, row)];
        forall i | 0 <= i < |s|
          ensures s[i].y == row && s[i].x < col
        {
          if i < |a| { assert s[i] == a[i]; }
        }
        forall i, j | 0 <= i < j < |s|
          ensures s[i].x < s[j].x
        {
          assert s[i] == a[i];
          if j < |a| { assert s[j] == a[j]; }
        }
      } else {
        assert s == a;
      }
    }
  }

  /** Every pixel of the row scan is a candidate. */
  lemma {:induction false} RowScanSound(image: seq<bv8>, w: nat, h: nat, row: nat, col: nat)
    requires Shaped(image, w, h)
    ensures forall i :: 0 <= i < |RowScan(image, w, h, row, col)| ==>
              IsCandidate(image, w, h, RowScan(image, w, h, row, col)[i].y, RowScan(image, w, h, row, col)[i].x)
  {
    if col > 0 {
      RowScanSound(image, w, h, row, col - 1);
      var a := RowScan(image, w, h, row, col - 1);
      var s := RowScan(image, w, h, row, col);
      if IsCandidate(image, w, h, row, col - 1) {
        assert s == a + [Pixel(col - 1, row)];
        forall i | 0 <= i < |s|
          ensures IsCandidate(image, w, h, s[i].y, s[i].x)
        {
          if i < |a| { assert s[i] == a[i]; }
        }
      } else {
        assert s == a;
      }
    }
  }

  /** A candidate of row `row` left of `col` is in the row scan. */
  lemma {:induction false} RowScanComplete(image: seq<bv8>, w: nat, h: nat, row: nat, col: nat, x: nat)
    requires Shaped(image, w, h) && x < col && IsCandidate(image, w, h, row, x)
    ensures Pixel(x, row) in RowScan(image, w, h, row, col)
  {
    var a := RowScan(image, w, h, row, col - 1);
    if x < col - 1 {
      RowScanComplete(image, w, h, row, col - 1, x);
      assert Pixel(x, row) in a;
    } else {
      assert RowScan(image, w, h, row, col) == a + [Pixel(x, row)];
    }
  }

  /** A candidate lies strictly inside the outer ring of the panel. */
  lemma CandidateInterior(image: seq<bv8>, w: nat, h: nat, row: nat, col: nat)
    requires Shaped(image, w, h) && IsCandidate(image, w, h, row, col)
    ensures 1 <= row && row + 1 < h && 1 <= col && col + 1 < w
  {
  }

  /** The scan of the first `row` rows lists pixels of those rows in strictly
      increasing row-major order. */
  lemma {:induction false} ScanShape(image: seq<bv8>, w: nat, h: nat, row: nat)
    requires Shaped(image, w, h)
    ensures forall i :: 0 <= i < |Scan(image, w, h, row)| ==> Scan(image, w, h, row)[i].y < row
    ensures forall i, j :: 0 <= i < j < |Scan(image, w, h, row)| ==>
              Before(Scan(image, w, h, row)[i], Scan(image, w, h, row)[j])
  {
    if row > 0 {
      ScanShape(image, w, h, row - 1);
      RowScanShape(image, w, h, row - 1, w);
      var a := Scan(image, w, h, row - 1);
      var b := RowScan(image, w, h, row - 1, w);
      var s := a + b;
      assert Scan(image, w, h, row) == s;
      forall i | 0 <= i < |s|
        ensures s[i].y < row
      {
        if i < |a| {
          assert s[i] == a[i];
        } else {
          assert s[i] == b[i - |a|];
        }
      }
      forall i, j | 0 <= i < j < |s|
        ensures Before(s[i], s[j])
      {
        if j < |a| {
          assert s[i] == a[i] && s[j] == a[j];
        } else if i < |a| {
          assert s[i] == a[i] && s[j] == b[j - |a|];
        } else {
          assert s[i] == b[i - |a|] && s[j] == b[j - |a|];
        }
      }
    }
  }

  /** Every pixel of the scan is a candidate. */
  lemma {:induction false} ScanSound(image: seq<bv8>, w: nat, h: nat, row: nat)
    requires Shaped(image, w, h)
    ensures forall i :: 0 <= i < |Scan(image, w, h, row)| ==>
              IsCandidate(image, w, h, Scan(image, w, h, row)[i].y, Scan(image, w, h, row)[i].x)
  {
    if row > 0 {
      ScanSound(image, w, h, row - 1);
      RowScanSound(image, w, h, row - 1, w);
      var a := Scan(image, w, h, row - 1);
      var b := RowScan(image, w, h, row - 1, w);
      assert Scan(image, w, h, row) == a + b;
      var s := a + b;
      forall i | 0 <= i < |s|
        ensures IsCandidate(image, w, h, s[i].y, s[i].x)
      {
        if i < |a| {
          assert s[i] == a[i];
        } else {
          assert s[i] == b[i - |a|];
        }
      }
    }
  }

  /** A candidate of the first `row` rows is in the scan. */
  lemma {:induction false} ScanComplete(image: seq<bv8>, w: nat, h: nat, row: nat, y: nat, x: nat)
    requires Shaped(image, w, h) && y < row && IsCandidate(image, w, h, y, x)
    ensures Pixel(x, y) in Scan(image, w, h, row)
  {
    var a := Scan(image, w, h, row - 1);
    var b := RowScan(image, w, h, row - 1, w);
    assert Scan(image, w, h, row) == a + b;
    if y < row - 1 {
      ScanComplete(image, w, h, row - 1, y, x);
      assert Pixel(x, y) in a;
    } else {
      CandidateInterior(image, w, h, y, x);
      RowScanComplete(image, w, h, y, w, x);
      assert Pixel(x, y) in b;
    }
  }

  /** A row scan that stops earlier is a prefix of one that goes further. */
  lemma {:induction false} RowScanPrefix(image: seq<bv8>, w: nat, h: nat, row: nat, col: nat, col2: nat)
    requires Shaped(image, w, h) && col <= col2
    ensures RowScan(image, w, h, row, col) <= RowScan(image, w, h, row, col2)
    decreases col2
  {
    if col < col2 {
      RowScanPrefix(image, w, h, row, col, col2 - 1);
    }
  }

  /** A scan that stops earlier is a prefix of one that goes further. */
  lemma {:induction false} ScanPrefix(image: seq<bv8>, w: nat, h: nat, row: nat, row2: nat)
    requires Shaped(image, w, h) && row <= row2
    ensures Scan(image, w, h, row) <= Scan(image, w, h, row2)
    decreases row2
  {
    if row < row2 {
      ScanPrefix(image, w, h, row, row2 - 1);
    }
  }

  /** The state of a scan stopped in the middle of row `row` is a prefix of
      the whole scan. */
  lemma PartialScanPrefix(image: seq<bv8>, w: nat, h: nat, row: nat, col: nat)
    requires Shaped(image, w, h) && row < h && col <= w
    ensures Scan(image, w, h, row) + RowScan(image, w, h, row, col) <= Scan(image, w, h, h)
  {
    RowScanPrefix(image, w, h, row, col, w);
    ScanPrefix(image, w, h, row + 1, h);
  }

  /** The last column of a row is never a candidate, so the scan of the
      next row is complete once column `w - 2` has been considered. */
  lemma RowScanLast(image: seq<bv8>, w: nat, h: nat, row: nat)
    requires Shaped(image, w, h)
    ensures Scan(image, w, h, row + 1) == Scan(image, w, h, row) + RowScan(image, w, h, row, w - 1)
  {
    assert RowScan(image, w, h, row, w) == RowScan(image, w, h, row, w - 1);
  }

  /** A scan stopped in the middle of row `row` with the array full holds
      exactly what is collected. */
  lemma FullScanCollected(image: seq<bv8>, w: nat, h: nat, row: nat, col: nat, prefix: seq<Pixel>)
    requires Shaped(image, w, h) && row < h && col <= w
    requires prefix == Scan(image, w, h, row) + RowScan(image, w, h, row, col)
    requires |prefix| == Capacity(w)
    ensures prefix == Collected(image, w, h)
  {
    PartialScanPrefix(image, w, h, row, col);
  }

  /** The collected candidates are a scan-order prefix of all candidates, no
      more than the capacity, and all of them whenever the array is not full. */
  lemma CollectedSpec(image: seq<bv8>, w: nat, h: nat)
    requires Shaped(image, w, h)
    ensures var c := Collected(image, w, h);
            |c| <= Capacity(w) &&
            (forall i :: 0 <= i < |c| ==>
               1 <= c[i].y <= h - 2 && 1 <= c[i].x <= w - 2 &&
               IsCandidate(image, w, h, c[i].y, c[i].x)) &&
            (forall i, j :: 0 <= i < j < |c| ==> Before(c[i], c[j])) &&
            (|c| < Capacity(w) ==>
               forall y: nat, x: nat :: IsCandidate(image, w, h, y, x) ==> Pixel(x, y) in c)
  {
    ScanShape(image, w, h, h);
    ScanSound(image, w, h, h);
    forall y: nat, x: nat | IsCandidate(image, w, h, y, x)
      ensures Pixel(x, y) in Scan(image, w, h, h)
    {
      CandidateInterior(image, w, h, y, x);
      ScanComplete(image, w, h, h, y, x);
    }
  }

  /** The selector returns a candidate, or the centre when the buffer has no
      candidate at all. */
  lemma SelectionSpec(image: seq<bv8>, w: nat, h: nat, choose: nat -> nat)
    requires Shaped(image, w, h) && IsChooser(choose)
    ensures var p := Selection(image, w, h, choose);
            p.x < w && p.y < h &&
            (IsCandidate(image, w, h, p.y, p.x) ||
             (p == Center(w, h) && forall y: nat, x: nat :: !IsCandidate(image, w, h, y, x)))
  {
    CollectedSpec(image, w, h);
  }

  /** The test the scan makes at one interior pixel, reading it and its
      neighbours from `pxRows`, the linear index of the row's first pixel: a candidate is stored in the
      next free slot, and `full` reports that the array has no slot left,
      which the scan checks only after a black pixel. */
  method ConsiderPixel(img: seq<bv8>, w: nat, h: nat, row: nat, col: nat, pxRows: nat,
                       positions: array<Pixel>, count: nat)
    returns (newCount: nat, full: bool)
    requires Shaped(img, w, h) && 1 <= row && row + 1 < h && 1 <= col && col + 1 < w
    requires pxRows == RowStart(w, row)
    requires positions.Length == Capacity(w) && count < Capacity(w)
    modifies positions
    ensures newCount <= Capacity(w)
    ensures positions[..newCount] ==
            old(positions[..count]) + (if IsCandidate(img, w, h, row, col) then [Pixel(col, row)] else [])
    ensures full <==> newCount == Capacity(w)
  {
    newCount := count;
    full := false;
    NeighboursInBounds(w, h, row, col);
    if IsBlack(GetPixel(img, pxRows, col)) {
      if !IsBlack(GetPixel(img, pxRows - w, col)) ||
         !IsBlack(GetPixel(img, pxRows + w, col)) ||
         !IsBlack(GetPixel(img, pxRows, col - 1)) ||
         !IsBlack(GetPixel(img, pxRows, col + 1))
      {
        positions[newCount] := Pixel(col, row);
        newCount := newCount + 1;
      }
      if newCount >= Capacity(w) {
        full := true;
      }
    }
  }

  /** One column of the row loop: from a state holding the scan up to
      (row, col), consider pixel (row, col); either the array is now full and
      holds what is collected, or it holds the scan up to (row, col + 1). */
  method ScanStep(img: seq<bv8>, w: nat, h: nat, row: nat, col: nat, pxRows: nat,
                  positions: array<Pixel>, count: nat)
    returns (newCount: nat, full: bool)
    requires Shaped(img, w, h) && 1 <= row && row + 1 < h && 1 <= col && col + 1 < w
    requires pxRows == RowStart(w, row)
    requires positions.Length == Capacity(w) && count < Capacity(w)
    requires positions[..count] == Scan(img, w, h, row) + RowScan(img, w, h, row, col)
    modifies positions
    ensures full ==> newCount == Capacity(w) && positions[..newCount] == Collected(img, w, h)
    ensures !full ==> newCount < Capacity(w) &&
                      positions[..newCount] == Scan(img, w, h, row) + RowScan(img, w, h, row, col + 1)
  {
    assert RowScan(img, w, h, row, col + 1) ==
           RowScan(img, w, h, row, col) +
           (if IsCandidate(img, w, h, row, col) then [Pixel(col, row)] else []);
    newCount, full := ConsiderPixel(img, w, h, row, col, pxRows, positions, count);
    if full {
      FullScanCollected(img, w, h, row, col + 1, positions[..newCount]);
    }
  }

  /** One row of the scan: appends the candidates of row `row` to the first
      `pixnum` slots of `positions`, and stops with `full` as soon as the
      array is full, leaving what the whole scan collects in its slots. */
  method ScanRow(img: seq<bv8>, w: nat, h: nat, row: nat, pxRows: nat,
                 positions: array<Pixel>, pixnum: nat)
    returns (count: nat, full: bool)
    requires Shaped(img, w, h) && 1 <= row && row + 1 < h && pxRows == RowStart(w, row)
    requires positions.Length == Capacity(w) && pixnum < Capacity(w)
    requires positions[..pixnum] == Scan(img, w, h, row)
    modifies positions
    ensures full ==> count == Capacity(w) && positions[..count] == Collected(img, w, h)
    ensures !full ==> count < Capacity(w) && positions[..count] == Scan(img, w, h, row + 1)
  {
    count := pixnum;
    var col := 1;
    assert RowScan(img, w, h, row, 1) == [];
    while col < w - 1
      invariant 1 <= col <= w - 1
      invariant count < Capacity(w)
      invariant positions[..count] == Scan(img, w, h, row) + RowScan(img, w, h, row, col)
    {
      count, full := ScanStep(img, w, h, row, col, pxRows, positions, count);
      if full {
        return;
      }
      col := col + 1;
    }
    RowScanLast(img, w, h, row);
    full := false;
  }

  /** Scans the interior row by row, collects candidates into an array of
      `Capacity(w)` slots, returns as soon as the array is full, and draws the
      result with `choose`, which picks an index below the count. With no
      candidate the centre is returned. */
  method FindInterestingPixel(image: array<bv8>, w: nat, h: nat, choose: nat -> nat) returns (p: Pixel)
    requires Shaped(image[..], w, h) && IsChooser(choose)
    ensures p == Selection(image[..], w, h, choose)
  {
    var img := image[..];
    var positions := new Pixel[Capacity(w)];
    var pixnum: nat := 0;
    var row := 1;
    assert Scan(img, w, h, 1) == [] by {
      RowScanOutside(img, w, h, 0, w);
    }
    while row < h - 1
      invariant 1 <= row && (row <= h - 1 || row == 1)
      invariant pixnum < Capacity(w)
      invariant positions[..pixnum] == Scan(img, w, h, row)
    {
      var pxRows := w * row;
      RowStartIsProduct(w, row);
      var full;
      pixnum, full := ScanRow(img, w, h, row, pxRows, positions, pixnum);
      if full {
        var pixind := choose(pixnum);
        return positions[pixind];
      }
      row := row + 1;
    }
    assert Scan(img, w, h, h) == Scan(img, w, h, row) by {
      if row < h {
        RowScanOutside(img, w, h, row, w);
        assert Scan(img, w, h, row + 1) == Scan(img, w, h, row);
        assert row + 1 == h;
      }
    }
    assert positions[..pixnum] == Collected(img, w, h);
    if pixnum == 0 {
      return Center(w, h);
    }
    var pixind := choose(pixnum);
    p := positions[pixind];
  }

  /** The draw as the source writes it: `draw` is an index from 0 to
      `pixnum` inclusive into the candidate array `slots`; `None` stands for
      a read past the end of the array. */
  function DrawAsWritten(slots: seq<Pixel>, pixnum: nat, draw: nat): Option<Pixel>
    requires draw <= pixnum
  {
    if draw < |slots| then Some(slots[draw]) else None
  }

  /** The candidate array as the source leaves it after the first scan of a
      run: the collected pixels in the first slots, the zero-initialised
      rest untouched. On later calls the rest holds pixels of earlier scans. */
  function SlotsAfterScan(image: seq<bv8>, w: nat, h: nat): (slots: seq<Pixel>)
    requires Shaped(image, w, h)
    ensures |Collected(image, w, h)| <= |slots| == Capacity(w)
    ensures slots[..|Collected(image, w, h)|] == Collected(image, w, h)
  {
    CollectedSpec(image, w, h);
    var c := Collected(image, w, h);
    c + seq(Capacity(w) - |c|, _ => Pixel(0, 0))
  }

  /** The inclusive draw over what the first scan of a run collected (later
      calls find stale pixels of earlier probes in the unfilled slots): while the array is not
      full, the draw may give `pixnum`, the first unfilled slot, which holds
      (0, 0), a pixel of the outer ring that is never a candidate; once it is
      full, the draw may give `pixnum`, past the end of the array. */
  lemma AsWrittenDrawCounterexample(image: seq<bv8>, w: nat, h: nat)
    requires Shaped(image, w, h)
    ensures var pixnum := |Collected(image, w, h)|;
            var slots := SlotsAfterScan(image, w, h);
            !IsCandidate(image, w, h, 0, 0) &&
            (pixnum < Capacity(w) ==> DrawAsWritten(slots, pixnum, pixnum) == Some(Pixel(0, 0))) &&
            (pixnum == Capacity(w) ==> DrawAsWritten(slots, pixnum, pixnum) == None)
  {
    CollectedSpec(image, w, h);
  }

  /** A probe with no escaping pixel has no candidate: the scan collects
      nothing, and the only draw, 0, returns slot 0, which on the first call
      of a run no scan has filled. */
  lemma BlackProbeDrawsUnfilledSlot(image: seq<bv8>, w: nat, h: nat)
    requires Shaped(image, w, h) && forall k :: 0 <= k < |image| ==> image[k] == 0
    ensures Collected(image, w, h) == []
    ensures DrawAsWritten(SlotsAfterScan(image, w, h), 0, 0) == Some(Pixel(0, 0))
    ensures !IsCandidate(image, w, h, 0, 0)
  {
    forall y: nat, x: nat
      ensures !IsCandidate(image, w, h, y, x)
    {
      if 1 <= y && y + 1 < h && 1 <= x && x + 1 < w {
        NeighboursInBounds(w, h, y, x);
      }
    }
    ScanNone(image, w, h, h);
  }

  /** With no candidate anywhere, a row scan finds nothing. */
  lemma {:induction false} RowScanNone(image: seq<bv8>, w: nat, h: nat, row: nat, col: nat)
    requires Shaped(image, w, h) && forall y: nat, x: nat :: !IsCandidate(image, w, h, y, x)
    ensures RowScan(image, w, h, row, col) == []
  {
    if col > 0 {
      RowScanNone(image, w, h, row, col - 1);
    }
  }

  /** With no candidate anywhere, the scan finds nothing. */
  lemma {:induction false} ScanNone(image: seq<bv8>, w: nat, h: nat, row: nat)
    requires Shaped(image, w, h) && forall y: nat, x: nat :: !IsCandidate(image, w, h, y, x)
    ensures Scan(image, w, h, row) == []
  {
    if row > 0 {
      ScanNone(image, w, h, row - 1);
      RowScanNone(image, w, h, row - 1, w);
    }
  }
}
