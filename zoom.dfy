// The zoom driver: a fixed number of probe renders, each followed by the
// choice of a boundary pixel and a re-centring on it at half the window
// size, then one final render at the last viewport.

module Zoom {
  import opened Packing
  import opened Escape
  import opened Render
  import opened Selector

  const ZoomCount: nat := 3

  /** The window before the first step: inverse zoom 2, centred on 0. */
  const StartView := Viewport(2.0, 0.0, 0.0)

  /** Every pass starts its orbits from (startPosX, startPosY) = 0. */
  const StartPos := Zero

  /** Zooming in by two halves the inverse zoom and keeps the centre. */
  function Halve(v: Viewport): Viewport
  {
    v.(invZoom := v.invZoom * 0.5)
  }

  /** Moves the centre by the picked pixel's offset from the middle of the
      panel, as a fraction of the panel, times the inverse zoom. */
  function Recenter(v: Viewport, p: Pixel, w: nat, h: nat): Viewport
    requires 0 < w && 0 < h
  {
    v.(offsetX := v.offsetX + (p.x as real / w as real - 0.5) * v.invZoom,
       offsetY := v.offsetY + (p.y as real / h as real - 0.5) * v.invZoom)
  }

  /** The viewport after the steps that picked `picks`, in order. */
  function ViewAfter(picks: seq<Pixel>, w: nat, h: nat): Viewport
    requires 0 < w && 0 < h
  {
    if |picks| == 0 then StartView
    else Recenter(Halve(ViewAfter(picks[..|picks| - 1], w, h)), picks[|picks| - 1], w, h)
  }

  /** The viewport of the probe render of step `i`. */
  function ProbeView(picks: seq<Pixel>, i: nat, w: nat, h: nat): Viewport
    requires 0 < w && 0 < h && i <= |picks|
  {
    Halve(ViewAfter(picks[..i], w, h))
  }

  /** The inverse zoom of the `n`-th viewport: 2 halved `n` times. */
  function ZoomAt(n: nat): (r: real)
    ensures r > 0.0
  {
    if n == 0 then 2.0 else ZoomAt(n - 1) * 0.5
  }

  function Pow2(n: nat): (r: real)
    ensures r >= 1.0
  {
    if n == 0 then 1.0 else 2.0 * Pow2(n - 1)
  }

  /** The inverse zoom after `n` halvings is 2 / 2^n. */
  lemma {:induction false} ZoomAtClosedForm(n: nat)
    ensures ZoomAt(n) * Pow2(n) == 2.0
  {
    if n > 0 {
      ZoomAtClosedForm(n - 1);
      assert ZoomAt(n) * Pow2(n) == (ZoomAt(n - 1) * 0.5) * (2.0 * Pow2(n - 1));
    }
  }

  /** After `n` steps the inverse zoom is the starting 2 halved `n` times,
      whatever pixels were picked. */
  lemma {:induction false} ZoomScale(picks: seq<Pixel>, w: nat, h: nat)
    requires 0 < w && 0 < h
    ensures ViewAfter(picks, w, h).invZoom == ZoomAt(|picks|)
  {
    if |picks| > 0 {
      ZoomScale(picks[..|picks| - 1], w, h);
    }
  }

  /** After the three steps the final render uses inverse zoom 0.25. */
  lemma FinalZoom(picks: seq<Pixel>, w: nat, h: nat)
    requires 0 < w && 0 < h && |picks| == ZoomCount
    ensures ViewAfter(picks, w, h).invZoom == 0.25
  {
    ZoomScale(picks, w, h);
    assert ZoomAt(3) == 0.25;
  }

  /** The horizontal shift made by step `i` for pixel `p`, at the inverse
      zoom of that step's probe. */
  function ShiftX(p: Pixel, w: nat, i: nat): real
    requires 0 < w
  {
    (p.x as real / w as real - 0.5) * ZoomAt(i + 1)
  }

  function SumShiftX(picks: seq<Pixel>, w: nat): real
    requires 0 < w
  {
    if |picks| == 0 then 0.0
    else SumShiftX(picks[..|picks| - 1], w) + ShiftX(picks[|picks| - 1], w, |picks| - 1)
  }

  /** The centre is never recomputed: its real part is the sum of the
      shifts of all steps, each scaled by the inverse zoom of its step. */
  lemma {:induction false} OffsetXAccumulates(picks: seq<Pixel>, w: nat, h: nat)
    requires 0 < w && 0 < h
    ensures ViewAfter(picks, w, h).offsetX == SumShiftX(picks, w)
  {
    if |picks| > 0 {
      OffsetXAccumulates(picks[..|picks| - 1], w, h);
      ZoomScale(picks, w, h);
    }
  }

  /** The vertical shift made by step `i` for pixel `p`: the row as a
      fraction of the height, at the inverse zoom of that step's probe. */
  function ShiftY(p: Pixel, h: nat, i: nat): real
    requires 0 < h
  {
    (p.y as real / h as real - 0.5) * ZoomAt(i + 1)
  }

  function SumShiftY(picks: seq<Pixel>, h: nat): real
    requires 0 < h
  {
    if |picks| == 0 then 0.0
    else SumShiftY(picks[..|picks| - 1], h) + ShiftY(picks[|picks| - 1], h, |picks| - 1)
  }

  /** Likewise for the imaginary part of the centre. */
  lemma {:induction false} OffsetYAccumulates(picks: seq<Pixel>, w: nat, h: nat)
    requires 0 < w && 0 < h
    ensures ViewAfter(picks, w, h).offsetY == SumShiftY(picks, h)
  {
    if |picks| > 0 {
      OffsetYAccumulates(picks[..|picks| - 1], w, h);
      ZoomScale(picks, w, h);
    }
  }

  /** A pixel inside the panel is at most half a panel from the middle. */
  lemma FractionNearMiddle(a: nat, n: nat)
    requires 0 < n && a <= n
    ensures -0.5 <= a as real / n as real - 0.5 <= 0.5
  {
    assert 0.0 <= a as real / n as real <= 1.0 by {
      assert a as real <= n as real;
    }
  }

  /** One step of the bound below: a centre within 1 - z/2 of the origin,
      moved by at most half of the halved window, stays within 1 - z/4. */
  lemma StepStaysInWindow(prev: real, f: real, z: real)
    requires 0.0 < z && -0.5 <= f <= 0.5
    requires -1.0 + z * 0.5 <= prev <= 1.0 - z * 0.5
    ensures -1.0 + (z * 0.5) * 0.5 <= prev + f * (z * 0.5) <= 1.0 - (z * 0.5) * 0.5
  {
    var q := z * 0.5;
    var t := f * q;
    assert -0.5 * q <= t <= 0.5 * q;
    assert -1.0 + q - 0.5 * q <= prev + t <= 1.0 - q + 0.5 * q;
  }

  /** One zoom step keeps the centre within the window bound. */
  lemma RecenterStaysInWindow(v: Viewport, p: Pixel, w: nat, h: nat)
    requires 0 < w && 0 < h && p.x <= w && p.y <= h && 0.0 < v.invZoom
    requires -1.0 + v.invZoom * 0.5 <= v.offsetX <= 1.0 - v.invZoom * 0.5
    requires -1.0 + v.invZoom * 0.5 <= v.offsetY <= 1.0 - v.invZoom * 0.5
    ensures var u := Recenter(Halve(v), p, w, h);
            -1.0 + u.invZoom * 0.5 <= u.offsetX <= 1.0 - u.invZoom * 0.5 &&
            -1.0 + u.invZoom * 0.5 <= u.offsetY <= 1.0 - u.invZoom * 0.5
  {
    FractionNearMiddle(p.x, w);
    FractionNearMiddle(p.y, h);
    StepStaysInWindow(v.offsetX, p.x as real / w as real - 0.5, v.invZoom);
    StepStaysInWindow(v.offsetY, p.y as real / h as real - 0.5, v.invZoom);
  }

  /** With pixels inside the panel, each step moves the centre by at most
      half its window, so after `n` steps each coordinate of the centre stays
      within 1 - ZoomAt(n)/2 = 1 - 2^-n of the origin. Horizontally that is
      inside the starting window; vertically its rows span only ±h/w, so for
      a panel wider than tall the centre can leave it. */
  lemma {:induction false} CentreStaysInWindow(picks: seq<Pixel>, w: nat, h: nat)
    requires 0 < w && 0 < h
    requires forall i :: 0 <= i < |picks| ==> picks[i].x <= w && picks[i].y <= h
    ensures -1.0 + ZoomAt(|picks|) * 0.5 <= ViewAfter(picks, w, h).offsetX <= 1.0 - ZoomAt(|picks|) * 0.5
    ensures -1.0 + ZoomAt(|picks|) * 0.5 <= ViewAfter(picks, w, h).offsetY <= 1.0 - ZoomAt(|picks|) * 0.5
  {
    if |picks| > 0 {
      var n := |picks| - 1;
      var p := picks[n];
      var init := picks[..n];
      assert forall i :: 0 <= i < |init| ==> init[i] == picks[i];
      CentreStaysInWindow(init, w, h);
      ZoomScale(init, w, h);
      RecenterStaysInWindow(ViewAfter(init, w, h), p, w, h);
    }
  }

  /** Appending a pick leaves the earlier probe viewports as they were and
      makes the next view the re-centred, halved last one. */
  lemma ExtendPicks(picks: seq<Pixel>, p: Pixel, w: nat, h: nat)
    requires 0 < w && 0 < h
    ensures ViewAfter(picks + [p], w, h) == Recenter(Halve(ViewAfter(picks, w, h)), p, w, h)
    ensures forall j :: 0 <= j <= |picks| ==> ProbeView(picks + [p], j, w, h) == ProbeView(picks, j, w, h)
  {
    assert (picks + [p])[..|picks|] == picks;
    forall j | 0 <= j <= |picks|
      ensures ProbeView(picks + [p], j, w, h) == ProbeView(picks, j, w, h)
    {
      assert (picks + [p])[..j] == picks[..j];
    }
  }

  /** The new centre's real part is the real part the probe sampled at the
      picked pixel. */
  lemma RecenterOnPixelX(v: Viewport, p: Pixel, w: nat, h: nat)
    requires 0 < w && 0 < h
    ensures Recenter(v, p, w, h).offsetX == Sample(v, w, h, p.y, p.x).re
  {
  }

  /** The probe samples row `y` at `(y - h/2) / w` window widths below
      the centre. */
  lemma SampleRowShift(v: Viewport, w: nat, h: nat, row: nat, col: nat)
    requires 0 < w
    ensures Sample(v, w, h, row, col).im == v.offsetY + v.invZoom * ((row as real - h as real / 2.0) / w as real)
  {
    var y, W, H := row as real, w as real, h as real;
    assert H / (W * 2.0) == (H / 2.0) / W;
    assert y / W - (H / 2.0) / W == (y - H / 2.0) / W;
  }

  /** Re-centring on row `y` moves the centre by `(y - h/2) / h` window
      widths. */
  lemma RecenterRowShift(v: Viewport, p: Pixel, w: nat, h: nat)
    requires 0 < w && 0 < h
    ensures Recenter(v, p, w, h).offsetY == v.offsetY + v.invZoom * ((p.y as real - h as real / 2.0) / h as real)
  {
    var y, H := p.y as real, h as real;
    assert 0.5 == (H / 2.0) / H;
    assert y / H - (H / 2.0) / H == (y - H / 2.0) / H;
  }

  /** A quantity divided by two positive reals gives the same quotient only
      when it is zero or the divisors agree. */
  lemma SameQuotient(a: real, d: real, e: real)
    requires 0.0 < d && 0.0 < e
    ensures a / d == a / e <==> a == 0.0 || d == e
  {
    if a / d == a / e {
      assert a * e == (a / d) * d * e == (a / e) * e * d == a * d;
      assert a * (e - d) == 0.0;
    }
  }

  /** The imaginary part moves by the row's fraction of the height while the
      probe samples a row by its fraction of the width, so the new centre's
      imaginary part is the sampled one exactly when the panel is square,
      the row is the middle one, or the window is empty. */
  lemma RecenterOnPixelY(v: Viewport, p: Pixel, w: nat, h: nat)
    requires 0 < w && 0 < h
    ensures Recenter(v, p, w, h).offsetY == Sample(v, w, h, p.y, p.x).im <==>
            (w == h || 2 * p.y == h || v.invZoom == 0.0)
  {
    var a := p.y as real - h as real / 2.0;
    SampleRowShift(v, w, h, p.y, p.x);
    RecenterRowShift(v, p, w, h);
    SameQuotient(a, h as real, w as real);
    assert a == 0.0 <==> 2 * p.y == h;
  }

  /** One pass of the zoom loop: halves the inverse zoom, draws the probe at
      the halved window, picks a boundary pixel of the probe and moves the
      centre onto it. `probe` is the buffer as the selector saw it, and it is
      what the buffer holds afterwards. */
  method ZoomStep(image: array<bv8>, w: nat, h: nat, choose: nat -> nat,
                  invZoom: real, offsetX: real, offsetY: real)
    returns (nextZoom: real, nextX: real, nextY: real, p: Pixel, ghost probe: seq<bv8>)
    requires Shaped(image[..], w, h) && IsChooser(choose)
    modifies image
    ensures probe == image[..] && Shaped(probe, w, h)
    ensures Rendered(probe, w, h, Probe, Halve(Viewport(invZoom, offsetX, offsetY)), StartPos)
    ensures p == Selection(probe, w, h, choose)
    ensures Viewport(nextZoom, nextX, nextY) == Recenter(Halve(Viewport(invZoom, offsetX, offsetY)), p, w, h)
    ensures image[BufferSize(w, h)..] == old(image[..])[BufferSize(w, h)..]
  {
    nextZoom := invZoom * 0.5;
    var probeView := Viewport(nextZoom, offsetX, offsetY);
    assert probeView == Halve(Viewport(invZoom, offsetX, offsetY));
    DrawLowRes(image, w, h, probeView, StartPos);
    probe := image[..];
    p := FindInterestingPixel(image, w, h, choose);
    assert image[..] == probe;
    nextX := offsetX + ((p.x as real / w as real) - 0.5) * nextZoom;
    nextY := offsetY + ((p.y as real / h as real) - 0.5) * nextZoom;
  }

  /** One random index source per zoom step: the generator's state moves on
      between steps, so each step draws with its own chooser. */
  ghost predicate AreChoosers(draws: seq<nat -> nat>)
  {
    forall j :: 0 <= j < |draws| ==> IsChooser(draws[j])
  }

  /** `probes[j]` is the probe drawn at step `j`, at the window of that step,
      and `picks[j]` the pixel the selector chose from it with the chooser
      `draws[j]` of that step. */
  predicate Trace(picks: seq<Pixel>, probes: seq<seq<bv8>>, w: nat, h: nat, draws: seq<nat -> nat>)
    requires 0 < w && 0 < h && AreChoosers(draws)
  {
    |picks| == |probes| <= |draws| &&
    forall j :: 0 <= j < |picks| ==>
      Shaped(probes[j], w, h) &&
      Rendered(probes[j], w, h, Probe, ProbeView(picks, j, w, h), StartPos) &&
      picks[j] == Selection(probes[j], w, h, draws[j])
  }

  /** A further step, drawn at the halved last window and selected with the
      next step's chooser, extends the trace. */
  lemma TraceExtend(picks: seq<Pixel>, probes: seq<seq<bv8>>, p: Pixel, probe: seq<bv8>,
                    w: nat, h: nat, draws: seq<nat -> nat>)
    requires 0 < w && 0 < h && AreChoosers(draws) && Trace(picks, probes, w, h, draws)
    requires |picks| < |draws| && Shaped(probe, w, h)
    requires Rendered(probe, w, h, Probe, Halve(ViewAfter(picks, w, h)), StartPos)
    requires p == Selection(probe, w, h, draws[|picks|])
    ensures Trace(picks + [p], probes + [probe], w, h, draws)
  {
    var n := |picks|;
    ExtendPicks(picks, p, w, h);
    assert (picks + [p])[..n] == picks;
    forall j | 0 <= j < n + 1
      ensures Shaped((probes + [probe])[j], w, h) &&
              Rendered((probes + [probe])[j], w, h, Probe, ProbeView(picks + [p], j, w, h), StartPos) &&
              (picks + [p])[j] == Selection((probes + [probe])[j], w, h, draws[j])
    {
      if j < n {
        assert (probes + [probe])[j] == probes[j] && (picks + [p])[j] == picks[j];
      }
    }
  }

  /** The whole zoom: three probe passes, each at half the previous window
      and each followed by the choice of a boundary pixel and a re-centring
      on it, then the final colour pass at the last viewport. `picks` are the
      chosen pixels and `probes` the probe buffers as the selector saw them;
      step `i` draws its index with `draws[i]`. The bytes past the image are
      never touched. */
  method DrawFractal(image: array<bv8>, w: nat, h: nat, shade: int -> bv8, draws: seq<nat -> nat>)
    returns (view: Viewport, ghost picks: seq<Pixel>, ghost probes: seq<seq<bv8>>)
    requires Shaped(image[..], w, h) && |draws| == ZoomCount && AreChoosers(draws)
    modifies image
    ensures |picks| == ZoomCount && Trace(picks, probes, w, h, draws)
    ensures view == ViewAfter(picks, w, h) && view.invZoom == 0.25
    ensures Rendered(image[..], w, h, Final(shade), view, StartPos)
    ensures image[BufferSize(w, h)..] == old(image[..])[BufferSize(w, h)..]
  {
    var invZoom := 2.0;
    var offsetX, offsetY := 0.0, 0.0;
    picks, probes := [], [];
    var i := 0;
    while i < ZoomCount
      invariant 0 <= i <= ZoomCount && |picks| == i
      invariant Viewport(invZoom, offsetX, offsetY) == ViewAfter(picks, w, h)
      invariant Shaped(image[..], w, h) && Trace(picks, probes, w, h, draws)
      invariant image[BufferSize(w, h)..] == old(image[..])[BufferSize(w, h)..]
    {
      var p;
      ghost var probe;
      invZoom, offsetX, offsetY, p, probe := ZoomStep(image, w, h, draws[i], invZoom, offsetX, offsetY);
      TraceExtend(picks, probes, p, probe, w, h, draws);
      ExtendPicks(picks, p, w, h);
      picks, probes := picks + [p], probes + [probe];
      i := i + 1;
    }
    FinalZoom(picks, w, h);
    view := Viewport(invZoom, offsetX, offsetY);
    DrawHiRes(image, w, h, shade, view, StartPos);
  }
}
