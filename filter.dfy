/**
 * What one iteration of the gray filter's scan does to the output image, and
 * what a whole scan does. Every test reads the image as earlier iterations
 * left it, so a window cleared earlier changes what later, overlapping
 * windows see.
 */
module FilterSpec {
  import opened Bitmap
  import opened Scan
  import opened Lightness

  const THRESHOLD: real := 0.5
  const BLACK_THRESHOLD: real := 0.33

  /** BLACK_MAX: pixels at or below this lightness are dark content. */
  function BlackMax(sh: Shading): real { sh.white as real * (1.0 - BLACK_THRESHOLD) }

  /** THRESHOLD_ABS */
  function ThresholdAbs(sh: Shading): real { sh.white as real * THRESHOLD }

  /**
   * The test of one iteration on window `w` of image `img`: no pixel of the
   * window is dark, and WHITE minus the window's average lightness is below
   * THRESHOLD_ABS.
   */
  predicate Fires(sh: Shading, img: Image, w: Window)
    requires sh.Valid() && img.Valid()
  {
    && CountPixelsRect(sh, img, w.left, w.top, w.Right(), w.Bottom(), BlackMax(sh)) == 0
    && ((sh.white - AverageLightness(sh, img, w.left, w.top, w.Right(), w.Bottom())) as real) < ThresholdAbs(sh)
  }

  /**
   * One iteration: when the window fires, its in-image pixels become white;
   * otherwise nothing changes.
   */
  function Step(sh: Shading, img: Image, w: Window): (r: Image)
    requires sh.Valid() && img.Valid()
    ensures r.Valid() && r.width == img.width && r.height == img.height
    ensures !Fires(sh, img, w) ==> r == img
  {
    if Fires(sh, img, w) then ClearedImage(img, w.left, w.top, w.Right(), w.Bottom()) else img
  }

  /**
   * An iteration changes the image only when its window fires, and then
   * whitens exactly the window's in-image pixels.
   */
  lemma StepOutcome(sh: Shading, img: Image, w: Window, x: int, y: int)
    requires sh.Valid() && img.Valid() && img.InBounds(x, y)
    ensures Step(sh, img, w).px[x][y] == if Fires(sh, img, w) && w.Contains(x, y) then WHITE_PIXEL else img.px[x][y]
  {
  }

  /** The output image after the iterations for `ws`, in order, starting from `img`. */
  ghost function ScanWindows(sh: Shading, img: Image, ws: seq<Window>): (r: Image)
    requires sh.Valid() && img.Valid()
    ensures r.Valid() && r.width == img.width && r.height == img.height
  {
    if ws == [] then img
    else Step(sh, ScanWindows(sh, img, ws[..|ws| - 1]), ws[|ws| - 1])
  }

  /** The windows of `ws` whose test fired when the scan reached them. */
  ghost function ClearedWindows(sh: Shading, img: Image, ws: seq<Window>): seq<Window>
    requires sh.Valid() && img.Valid()
  {
    if ws == [] then []
    else
      var prefix := ws[..|ws| - 1];
      var w := ws[|ws| - 1];
      ClearedWindows(sh, img, prefix) + (if Fires(sh, ScanWindows(sh, img, prefix), w) then [w] else [])
  }

  /** The image grayfilter produces from `img`: the scan over every window, in scan order. */
  ghost function Filter(sh: Shading, img: Image): (r: Image)
    requires sh.Valid() && img.Valid()
    ensures r.Valid() && r.width == img.width && r.height == img.height
  {
    ScanWindows(sh, img, ScanOrder(img.width, img.height))
  }

  lemma ScanWindowsAppend(sh: Shading, img: Image, ws: seq<Window>, w: Window)
    requires sh.Valid() && img.Valid()
    ensures ScanWindows(sh, img, ws + [w]) == Step(sh, ScanWindows(sh, img, ws), w)
  {
    assert (ws + [w])[..|ws|] == ws;
  }

  /** Only windows the scan visited are ever cleared. */
  lemma {:induction false} ClearedWindowsVisited(sh: Shading, img: Image, ws: seq<Window>)
    requires sh.Valid() && img.Valid()
    ensures forall k :: 0 <= k < |ClearedWindows(sh, img, ws)| ==> ClearedWindows(sh, img, ws)[k] in ws
  {
    if ws != [] {
      var prefix := ws[..|ws| - 1];
      ClearedWindowsVisited(sh, img, prefix);
      assert forall w :: w in prefix ==> w in ws;
    }
  }

  /**
   * The exact outcome of a scan: a pixel is white when some window cleared
   * during the scan contains it, and equals the input pixel otherwise.
   */
  lemma {:induction false} ScanWindowsOutcome(sh: Shading, img: Image, ws: seq<Window>, x: int, y: int)
    requires sh.Valid() && img.Valid() && img.InBounds(x, y)
    ensures ScanWindows(sh, img, ws).px[x][y]
            == if CoveredBy(ClearedWindows(sh, img, ws), x, y) then WHITE_PIXEL else img.px[x][y]
  {
    if ws != [] {
      var prefix := ws[..|ws| - 1];
      var w := ws[|ws| - 1];
      ScanWindowsOutcome(sh, img, prefix, x, y);
      var before := ScanWindows(sh, img, prefix);
      var cleared := ClearedWindows(sh, img, prefix);
      StepOutcome(sh, before, w, x, y);
      if Fires(sh, before, w) {
        CoveredByAppend(cleared, w, x, y);
      } else {
        assert ClearedWindows(sh, img, ws) == cleared;
      }
    }
  }

  /**
   * A pixel whose input lightness is at most BLACK_MAX is never whitened: any
   * window holding it counts at least one dark pixel, because counting and
   * clearing address the same rectangle.
   */
  lemma {:induction false} ScanWindowsKeepsDark(sh: Shading, img: Image, ws: seq<Window>, x: int, y: int)
    requires sh.Valid() && img.Valid() && img.InBounds(x, y)
    requires LightnessAt(sh, img, x, y) as real <= BlackMax(sh)
    ensures ScanWindows(sh, img, ws).px[x][y] == img.px[x][y]
  {
    if ws != [] {
      var prefix := ws[..|ws| - 1];
      var w := ws[|ws| - 1];
      ScanWindowsKeepsDark(sh, img, prefix, x, y);
      var before := ScanWindows(sh, img, prefix);
      StepOutcome(sh, before, w, x, y);
      assert LightnessAt(sh, before, x, y) == LightnessAt(sh, img, x, y);
      if w.Contains(x, y) {
        assert CountPixelsRect(sh, before, w.left, w.top, w.Right(), w.Bottom(), BlackMax(sh)) != 0;
      }
    }
  }

  /**
   * What grayfilter guarantees pixel by pixel: each output pixel is the input
   * pixel or white; it is white exactly where a cleared window covers it
   * (or the input was white); dark input pixels survive.
   */
  lemma FilterOutcome(sh: Shading, img: Image)
    requires sh.Valid() && img.Valid()
    ensures Filter(sh, img).Valid() && Filter(sh, img).width == img.width && Filter(sh, img).height == img.height
    ensures forall x, y :: img.InBounds(x, y) ==>
              Filter(sh, img).px[x][y]
              == if CoveredBy(ClearedWindows(sh, img, ScanOrder(img.width, img.height)), x, y)
                 then WHITE_PIXEL else img.px[x][y]
    ensures forall x, y :: img.InBounds(x, y) && LightnessAt(sh, img, x, y) as real <= BlackMax(sh) ==>
              Filter(sh, img).px[x][y] == img.px[x][y]
  {
    var ws := ScanOrder(img.width, img.height);
    forall x, y | img.InBounds(x, y)
      ensures Filter(sh, img).px[x][y]
              == if CoveredBy(ClearedWindows(sh, img, ws), x, y) then WHITE_PIXEL else img.px[x][y]
    {
      ScanWindowsOutcome(sh, img, ws, x, y);
    }
    forall x, y | img.InBounds(x, y) && LightnessAt(sh, img, x, y) as real <= BlackMax(sh)
      ensures Filter(sh, img).px[x][y] == img.px[x][y]
    {
      ScanWindowsKeepsDark(sh, img, ws, x, y);
    }
  }

  /** An image made only of dark pixels passes through unchanged. */
  lemma AllDarkUnchanged(sh: Shading, img: Image)
    requires sh.Valid() && img.Valid()
    requires forall x, y :: img.InBounds(x, y) ==> LightnessAt(sh, img, x, y) as real <= BlackMax(sh)
    ensures Filter(sh, img) == img
  {
    FilterOutcome(sh, img);
    ImageExtensionality(Filter(sh, img), img);
  }

  /**
   * A window whose test fires on an image still fires on any lighter image:
   * no cell can turn dark, and the average can only rise.
   */
  lemma FiresMono(sh: Shading, a: Image, b: Image, w: Window)
    requires sh.Valid() && a.Valid() && b.Valid() && Lighter(sh, a, b)
    requires Fires(sh, a, w)
    ensures Fires(sh, b, w)
  {
    forall x, y | w.left <= x <= w.Right() && w.top <= y <= w.Bottom()
      ensures LightnessAt(sh, b, x, y) as real > BlackMax(sh)
    {
      assert LightnessAt(sh, a, x, y) as real > BlackMax(sh);
    }
    AverageLightnessMono(sh, a, b, w.left, w.top, w.Right(), w.Bottom());
  }

  /**
   * Clearing only whitens, and white is the lightest value, so every image
   * the scan passes through is at least as light as its input.
   */
  lemma ScanLighter(sh: Shading, img: Image, ws: seq<Window>)
    requires sh.Valid() && img.Valid()
    ensures Lighter(sh, img, ScanWindows(sh, img, ws))
  {
    var r := ScanWindows(sh, img, ws);
    forall x, y
      ensures LightnessAt(sh, img, x, y) <= LightnessAt(sh, r, x, y)
    {
      if img.InBounds(x, y) {
        ScanWindowsOutcome(sh, img, ws, x, y);
      }
    }
  }

  /**
   * When every window of `ws` fires on the input, every one of them is
   * cleared: the earlier clears only make the image lighter.
   */
  lemma {:induction false} AllFireAllCleared(sh: Shading, img: Image, ws: seq<Window>)
    requires sh.Valid() && img.Valid()
    requires forall w :: w in ws ==> Fires(sh, img, w)
    ensures ClearedWindows(sh, img, ws) == ws
  {
    if ws != [] {
      var prefix := ws[..|ws| - 1];
      var w := ws[|ws| - 1];
      assert ws == prefix + [w];
      AllFireAllCleared(sh, img, prefix);
      var before := ScanWindows(sh, img, prefix);
      ScanLighter(sh, img, prefix);
      FiresMono(sh, img, before, w);
    }
  }

  /**
   * When every window the scan visits fires on the input, grayfilter whitens
   * the whole image.
   */
  lemma FullClear(sh: Shading, img: Image)
    requires sh.Valid() && img.Valid()
    requires forall w :: w in ScanOrder(img.width, img.height) ==> Fires(sh, img, w)
    ensures forall x, y :: img.InBounds(x, y) ==> Filter(sh, img).px[x][y] == WHITE_PIXEL
  {
    var ws := ScanOrder(img.width, img.height);
    AllFireAllCleared(sh, img, ws);
    FilterOutcome(sh, img);
    forall x, y | img.InBounds(x, y)
      ensures CoveredBy(ClearedWindows(sh, img, ws), x, y)
    {
      Coverage(img.width, img.height, x, y);
    }
  }

  /**
   * With counting and averaging sharing one lightness measure, a window with
   * no dark cell always passes the average test once WHITE is at least 7 (an
   * 8-bit WHITE of 255 included): each of its 49 x 49 summed cells is above
   * 0.67 WHITE, so even over the oversized divisor of 2500 cells the average
   * stays above WHITE / 2.
   */
  lemma NoDarkFires(sh: Shading, img: Image, w: Window)
    requires sh.Valid() && img.Valid() && sh.white >= 7
    requires CountPixelsRect(sh, img, w.left, w.top, w.Right(), w.Bottom(), BlackMax(sh)) == 0
    ensures Fires(sh, img, w)
  {
    var m := (67 * sh.white) / 100 + 1;
    forall x, y | w.left <= x < w.Right() && w.top <= y < w.Bottom()
      ensures m <= LightnessAt(sh, img, x, y)
    {
      assert LightnessAt(sh, img, x, y) as real > BlackMax(sh);
    }
    RectSumAtLeast(sh, img, w.left, w.top, w.Right(), w.Bottom(), m);
    var sum := RectSum(sh, img, w.left, w.top, w.Right(), w.Bottom());
    assert (w.Right() - w.left) * (w.Bottom() - w.top) == 2401;
    assert (w.Right() - w.left + 1) * (w.Bottom() - w.top + 1) == 2500;
    DivMono(2401 * m, sum, 2500);
    var q := (2401 * m) / 2500;
    assert 2 * q > sh.white;
  }

  /**
   * Every window is in effect judged on the input: whatever part of the scan
   * has run, a window fires on the partly filtered image exactly when it
   * fires on the input. Clearing only lightens, so a firing window keeps
   * firing; a dark input pixel is never cleared, so a window holding one
   * never starts to fire.
   */
  lemma JudgedOnInput(sh: Shading, img: Image, ws: seq<Window>, w: Window)
    requires sh.Valid() && img.Valid() && sh.white >= 7
    ensures Fires(sh, ScanWindows(sh, img, ws), w) <==> Fires(sh, img, w)
  {
    var after := ScanWindows(sh, img, ws);
    ScanLighter(sh, img, ws);
    if Fires(sh, img, w) {
      FiresMono(sh, img, after, w);
    }
    if Fires(sh, after, w) {
      forall x, y | w.left <= x <= w.Right() && w.top <= y <= w.Bottom()
        ensures LightnessAt(sh, img, x, y) as real > BlackMax(sh)
      {
        if img.InBounds(x, y) && LightnessAt(sh, img, x, y) as real <= BlackMax(sh) {
          ScanWindowsKeepsDark(sh, img, ws, x, y);
        }
      }
      NoDarkFires(sh, img, w);
    }
  }

  /** The windows of `ws` whose test fires on `img` itself. */
  ghost function FiringWindows(sh: Shading, img: Image, ws: seq<Window>): seq<Window>
    requires sh.Valid() && img.Valid()
  {
    if ws == [] then []
    else
      var w := ws[|ws| - 1];
      FiringWindows(sh, img, ws[..|ws| - 1]) + (if Fires(sh, img, w) then [w] else [])
  }

  /** The windows a scan clears are exactly those that fire on its input. */
  lemma {:induction false} ClearedAreFiring(sh: Shading, img: Image, ws: seq<Window>)
    requires sh.Valid() && img.Valid() && sh.white >= 7
    ensures ClearedWindows(sh, img, ws) == FiringWindows(sh, img, ws)
  {
    if ws != [] {
      var prefix := ws[..|ws| - 1];
      ClearedAreFiring(sh, img, prefix);
      JudgedOnInput(sh, img, prefix, ws[|ws| - 1]);
    }
  }

  lemma {:induction false} FiringWindowsAgree(sh: Shading, a: Image, b: Image, ws: seq<Window>)
    requires sh.Valid() && a.Valid() && b.Valid()
    requires forall w :: Fires(sh, a, w) <==> Fires(sh, b, w)
    ensures FiringWindows(sh, a, ws) == FiringWindows(sh, b, ws)
  {
    if ws != [] {
      FiringWindowsAgree(sh, a, b, ws[..|ws| - 1]);
    }
  }

  /**
   * Filtering twice is filtering once: the second pass fires on the same
   * windows as the first, and those are already white.
   */
  lemma Idempotent(sh: Shading, img: Image)
    requires sh.Valid() && img.Valid() && sh.white >= 7
    ensures Filter(sh, Filter(sh, img)) == Filter(sh, img)
  {
    var ws := ScanOrder(img.width, img.height);
    var once := Filter(sh, img);
    forall w
      ensures Fires(sh, img, w) <==> Fires(sh, once, w)
    {
      JudgedOnInput(sh, img, ws, w);
    }
    FilterOutcome(sh, img);
    FilterOutcome(sh, once);
    ClearedAreFiring(sh, img, ws);
    ClearedAreFiring(sh, once, ws);
    FiringWindowsAgree(sh, img, once, ws);
    ImageExtensionality(Filter(sh, once), once);
  }
}
