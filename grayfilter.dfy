/**
 * `grayfilter_main`: copy the input bitmap into the output bitmap, then move
 * the scan cursor over the output, clearing in place every window that holds
 * no dark pixel yet is nearly white on average.
 */
module Grayfilter {
  import opened Bitmap
  import opened Scan
  import opened Lightness
  import opened FilterSpec

  /**
   * The body of the scan loop for the window at (left, top): count the dark
   * pixels, and when there are none, clear the window if WHITE minus its
   * average lightness is below THRESHOLD_ABS.
   */
  method ScanOneWindow(sh: Shading, output: array2<Pixel>, left: int, top: int, right: int, bottom: int,
                       ghost before: Image)
    requires sh.Valid() && Holds(output, before)
    requires right == left + SCAN_SIZE - 1 && bottom == top + SCAN_SIZE - 1
    modifies output
    ensures Holds(output, Step(sh, before, Window(left, top)))
  {
    var img := Snapshot(output);
    SnapshotHolds(output, before);
    ghost var w := Window(left, top);
    var count := CountPixelsRect(sh, img, left, top, right, bottom, BlackMax(sh));
    if count == 0 {
      var lightness := LightnessRect(sh, left, top, right, bottom, img);
      if ((sh.white - lightness) as real) < ThresholdAbs(sh) {
        assert Fires(sh, before, w);
        ClearRect(output, left, top, right, bottom, before);
      } else {
        assert !Fires(sh, before, w);
      }
    } else {
      assert !Fires(sh, before, w);
    }
  }

  /**
   * One visit of the cursor, as the scan loop sees it: a buffer holding the
   * scan of `original` over the windows visited so far comes to hold the scan
   * one window further.
   */
  method VisitWindow(sh: Shading, output: array2<Pixel>, left: int, top: int, right: int, bottom: int,
                     ghost original: Image, ghost visited: seq<Window>)
    requires sh.Valid() && original.Valid()
    requires right == left + SCAN_SIZE - 1 && bottom == top + SCAN_SIZE - 1
    requires Holds(output, ScanWindows(sh, original, visited))
    modifies output
    ensures Holds(output, ScanWindows(sh, original, visited + [Window(left, top)]))
  {
    ScanWindowsAppend(sh, original, visited, Window(left, top));
    ScanOneWindow(sh, output, left, top, right, bottom, ScanWindows(sh, original, visited));
  }

  /** The pixel-level reading of a filtered buffer. */
  lemma FilteredPixels(sh: Shading, input: array2<Pixel>, output: array2<Pixel>)
    requires sh.Valid()
    requires Snapshot(output) == Filter(sh, Snapshot(input))
    ensures forall x, y :: 0 <= x < output.Length0 && 0 <= y < output.Length1 ==>
              output[x, y] == if CoveredBy(ClearedWindows(sh, Snapshot(input), ScanOrder(input.Length0, input.Length1)), x, y)
                              then WHITE_PIXEL else input[x, y]
    ensures forall x, y :: 0 <= x < output.Length0 && 0 <= y < output.Length1 ==>
              output[x, y] == input[x, y] || output[x, y] == WHITE_PIXEL
    ensures forall x, y :: 0 <= x < output.Length0 && 0 <= y < output.Length1
                           && sh.lightness(input[x, y]) as real <= BlackMax(sh) ==>
              output[x, y] == input[x, y]
  {
    var img := Snapshot(input);
    FilterOutcome(sh, img);
    assert forall x, y :: 0 <= x < output.Length0 && 0 <= y < output.Length1 ==> img.InBounds(x, y);
  }

  /**
   * The scan loop of grayfilter_main: the cursor visits every window in scan
   * order and each visit acts on the buffer as it stands, so the buffer ends
   * up holding the filter of what it held before.
   */
  method ScanOutput(sh: Shading, output: array2<Pixel>, ghost original: Image)
    requires sh.Valid() && Holds(output, original)
    modifies output
    ensures Holds(output, Filter(sh, original))
  {
    ghost var cols, rows := Cols(output.Length0), Rows(output.Length1);

    var left := 0;
    var top := 0;
    var right := SCAN_SIZE - 1;
    var bottom := SCAN_SIZE - 1;
    ghost var i, j := 0, 0;
    ghost var visited: seq<Window> := [];

    while true
      invariant 0 <= i < cols && 0 <= j < rows
      invariant left == SCAN_STEP * i && top == SCAN_STEP * j
      invariant right == left + SCAN_SIZE - 1 && bottom == top + SCAN_SIZE - 1
      invariant visited == VisitedBefore(cols, j, i)
      invariant Holds(output, ScanWindows(sh, original, visited))
      decreases rows - j, cols - i
    {
      VisitWindow(sh, output, left, top, right, bottom, original, visited);
      visited := visited + [Window(left, top)];
      NextColumn(output.Length0, i);
      NextRow(output.Length1, j);

      if left < output.Length0 {
        left := left + SCAN_STEP;
        right := right + SCAN_STEP;
        i := i + 1;
      } else {
        // end of row
        if bottom >= output.Length1 {
          // that was the last row
          ScanOrderVisited(output.Length0, output.Length1);
          assert visited == ScanOrder(original.width, original.height);
          return;
        }
        left := 0;
        right := SCAN_SIZE - 1;
        top := top + SCAN_STEP;
        bottom := bottom + SCAN_STEP;
        i, j := 0, j + 1;
      }
    }
  }

  /**
   * grayfilter_main. The input and output bitmaps are distinct and of equal
   * size (the caller asserts width*height*4 bytes for both). On return the
   * output is the scan of the input over every window in scan order; each
   * output pixel is white where a cleared window covers it and equals the
   * input pixel elsewhere; dark input pixels are never whitened.
   */
  method GrayfilterMain(sh: Shading, input: array2<Pixel>, output: array2<Pixel>)
    requires sh.Valid()
    requires input != output
    requires output.Length0 == input.Length0 && output.Length1 == input.Length1
    modifies output
    ensures Snapshot(output) == Filter(sh, Snapshot(input))
    ensures forall x, y :: 0 <= x < output.Length0 && 0 <= y < output.Length1 ==>
              output[x, y] == if CoveredBy(ClearedWindows(sh, Snapshot(input), ScanOrder(input.Length0, input.Length1)), x, y)
                              then WHITE_PIXEL else input[x, y]
    ensures forall x, y :: 0 <= x < output.Length0 && 0 <= y < output.Length1 ==>
              output[x, y] == input[x, y] || output[x, y] == WHITE_PIXEL
    ensures forall x, y :: 0 <= x < output.Length0 && 0 <= y < output.Length1
                           && sh.lightness(input[x, y]) as real <= BlackMax(sh) ==>
              output[x, y] == input[x, y]
  {
    CopyPixels(input, output);
    ScanOutput(sh, output, Snapshot(input));
    SnapshotHolds(output, Filter(sh, Snapshot(input)));
    FilteredPixels(sh, input, output);
  }
}
