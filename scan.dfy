/**
 * The scan cursor of the gray filter: a SCAN_SIZE x SCAN_SIZE window moved
 * over the image in strides of SCAN_STEP, left to right within a row and then
 * row by row, as `grayfilter_main` drives its left/top/right/bottom cursor.
 */
module Scan {

  const SCAN_SIZE := 50
  const SCAN_STEP := 20

  /** A scan window; its right and bottom edges are inclusive. */
  datatype Window = Window(left: int, top: int)
  {
    function Right(): int { left + SCAN_SIZE - 1 }
    function Bottom(): int { top + SCAN_SIZE - 1 }

    predicate Contains(x: int, y: int) {
      left <= x <= Right() && top <= y <= Bottom()
    }

    /** The window is one of the positions the cursor can take. */
    predicate OnGrid(cols: nat, rows: nat) {
      && left % SCAN_STEP == 0 && 0 <= left < SCAN_STEP * cols
      && top % SCAN_STEP == 0 && 0 <= top < SCAN_STEP * rows
    }
  }

  /** Some window of `ws` contains the pixel (x, y). */
  predicate CoveredBy(ws: seq<Window>, x: int, y: int) {
    exists k :: 0 <= k < |ws| && ws[k].Contains(x, y)
  }

  lemma CoveredByAppend(ws: seq<Window>, w: Window, x: int, y: int)
    ensures CoveredBy(ws + [w], x, y) <==> CoveredBy(ws, x, y) || w.Contains(x, y)
  {
    var all := ws + [w];
    if CoveredBy(ws, x, y) {
      var k :| 0 <= k < |ws| && ws[k].Contains(x, y);
      assert all[k] == ws[k];
    }
    if w.Contains(x, y) {
      assert all[|ws|] == w;
    }
    if CoveredBy(all, x, y) {
      var k :| 0 <= k < |all| && all[k].Contains(x, y);
      if k < |ws| {
        assert all[k] == ws[k];
      }
    }
  }

  /**
   * Scan order: `u` is visited before `v` when it lies in an earlier row, or in
   * the same row further left.
   */
  predicate RowMajorBefore(u: Window, v: Window) {
    u.top < v.top || (u.top == v.top && u.left < v.left)
  }

  /**
   * Windows per row for an image `width` pixels wide: `left` runs over
   * 0, SCAN_STEP, ... up to and including the first value that is >= width.
   */
  function Cols(width: nat): (c: nat)
    ensures c >= 1
    ensures SCAN_STEP * (c - 1) >= width
    ensures c >= 2 ==> SCAN_STEP * (c - 2) < width
  {
    (width + SCAN_STEP - 1) / SCAN_STEP + 1
  }

  /**
   * Rows of windows for an image `height` pixels high: rows continue up to
   * and including the first one whose bottom edge is >= height.
   */
  function Rows(height: nat): (r: nat)
    ensures r >= 1
    ensures SCAN_STEP * (r - 1) + SCAN_SIZE - 1 >= height
    ensures r >= 2 ==> SCAN_STEP * (r - 2) + SCAN_SIZE - 1 < height
  {
    if height < SCAN_SIZE then 1 else (height - SCAN_SIZE + SCAN_STEP) / SCAN_STEP + 1
  }

  /** The `cols` windows of the row at `top`, left to right. */
  function Row(top: int, cols: nat): (ws: seq<Window>)
    ensures |ws| == cols
    ensures forall i :: 0 <= i < cols ==> ws[i] == Window(SCAN_STEP * i, top)
  {
    seq(cols, i => Window(SCAN_STEP * i, top))
  }

  /** The first `rows` rows of windows, in scan order. */
  function RowsUpTo(rows: nat, cols: nat): seq<Window>
  {
    if rows == 0 then [] else RowsUpTo(rows - 1, cols) + Row(SCAN_STEP * (rows - 1), cols)
  }

  /** `rows` full rows of `cols` windows, starting at the origin and ending at the last grid position. */
  lemma {:induction false} RowsUpToShape(rows: nat, cols: nat)
    ensures |RowsUpTo(rows, cols)| == rows * cols
    ensures rows > 0 && cols > 0 ==> RowsUpTo(rows, cols)[0] == Window(0, 0)
    ensures rows > 0 && cols > 0 ==>
              RowsUpTo(rows, cols)[rows * cols - 1] == Window(SCAN_STEP * (cols - 1), SCAN_STEP * (rows - 1))
  {
    if rows > 0 {
      RowsUpToShape(rows - 1, cols);
      assert (rows - 1) * cols + cols == rows * cols;
    }
  }

  /** Every window `grayfilter_main` visits on a width x height image, in visiting order. */
  function ScanOrder(width: nat, height: nat): (ws: seq<Window>)
    ensures |ws| == Rows(height) * Cols(width)
    ensures ws[0] == Window(0, 0)
    ensures ws[|ws| - 1] == Window(SCAN_STEP * (Cols(width) - 1), SCAN_STEP * (Rows(height) - 1))
  {
    RowsUpToShape(Rows(height), Cols(width));
    RowsUpTo(Rows(height), Cols(width))
  }

  lemma {:induction false} RowsUpToMembership(rows: nat, cols: nat, w: Window)
    ensures w in RowsUpTo(rows, cols) <==> w.OnGrid(cols, rows)
  {
    if rows > 0 {
      RowsUpToMembership(rows - 1, cols, w);
      var prefix := RowsUpTo(rows - 1, cols);
      var row := Row(SCAN_STEP * (rows - 1), cols);
      assert RowsUpTo(rows, cols) == prefix + row;
      if w in row {
        var k :| 0 <= k < cols && row[k] == w;
        assert w.left == SCAN_STEP * k && w.top == SCAN_STEP * (rows - 1);
      }
      if w.OnGrid(cols, rows) && w.top == SCAN_STEP * (rows - 1) {
        assert row[w.left / SCAN_STEP] == w;
      }
    }
  }

  /**
   * The windows visited are exactly the grid positions: left and top are
   * non-negative multiples of SCAN_STEP below the last column and row.
   */
  lemma ScanOrderMembership(width: nat, height: nat, w: Window)
    ensures w in ScanOrder(width, height) <==> w.OnGrid(Cols(width), Rows(height))
  {
    RowsUpToMembership(Rows(height), Cols(width), w);
  }

  lemma {:induction false} RowsUpToRowMajor(rows: nat, cols: nat)
    ensures forall k :: 0 <= k < |RowsUpTo(rows, cols)| ==> RowsUpTo(rows, cols)[k].top < SCAN_STEP * rows
    ensures forall a, b :: 0 <= a < b < |RowsUpTo(rows, cols)| ==>
              RowMajorBefore(RowsUpTo(rows, cols)[a], RowsUpTo(rows, cols)[b])
  {
    if rows > 0 {
      RowsUpToRowMajor(rows - 1, cols);
      var prefix := RowsUpTo(rows - 1, cols);
      var row := Row(SCAN_STEP * (rows - 1), cols);
      var all := RowsUpTo(rows, cols);
      assert all == prefix + row;
      forall a, b | 0 <= a < b < |all|
        ensures RowMajorBefore(all[a], all[b])
      {
        if b < |prefix| {
          assert all[a] == prefix[a] && all[b] == prefix[b];
        } else if a < |prefix| {
          assert all[a] == prefix[a] && all[b] == row[b - |prefix|];
        } else {
          assert all[a] == row[a - |prefix|] && all[b] == row[b - |prefix|];
        }
      }
    }
  }

  /** The scan visits windows row by row, left to right within each row. */
  lemma ScanOrderRowMajor(width: nat, height: nat)
    ensures forall a, b :: 0 <= a < b < |ScanOrder(width, height)| ==>
              RowMajorBefore(ScanOrder(width, height)[a], ScanOrder(width, height)[b])
  {
    RowsUpToRowMajor(Rows(height), Cols(width));
  }

  /**
   * Coverage: every pixel of the image lies in at least one visited window,
   * because SCAN_STEP < SCAN_SIZE.
   */
  lemma Coverage(width: nat, height: nat, x: int, y: int)
    requires 0 <= x < width && 0 <= y < height
    ensures CoveredBy(ScanOrder(width, height), x, y)
  {
    var cols, rows := Cols(width), Rows(height);
    var i := x / SCAN_STEP;
    var j := if y / SCAN_STEP < rows then y / SCAN_STEP else rows - 1;
    var w := Window(SCAN_STEP * i, SCAN_STEP * j);
    assert w.OnGrid(cols, rows);
    ScanOrderMembership(width, height, w);
    var k :| 0 <= k < |ScanOrder(width, height)| && ScanOrder(width, height)[k] == w;
    assert w.Contains(x, y);
  }

  /**
   * The cursor's column step: while `left` is still below the width there is
   * a further window in the row; once it is not, this was the row's last one.
   */
  lemma NextColumn(width: nat, i: nat)
    requires i < Cols(width)
    ensures SCAN_STEP * i < width ==> i + 1 < Cols(width)
    ensures SCAN_STEP * i >= width ==> i == Cols(width) - 1
  {
  }

  /**
   * The cursor's row step: while `bottom` is still below the height there is
   * a further row; once it is not, this was the last row.
   */
  lemma NextRow(height: nat, j: nat)
    requires j < Rows(height)
    ensures SCAN_STEP * j + SCAN_SIZE - 1 < height ==> j + 1 < Rows(height)
    ensures SCAN_STEP * j + SCAN_SIZE - 1 >= height ==> j == Rows(height) - 1
  {
  }

  /**
   * The windows the cursor has visited, in order, when it stands at column
   * `i` of row `j`: every window of the earlier rows, then the first `i`
   * windows of row `j`.
   */
  function VisitedBefore(cols: nat, j: nat, i: nat): seq<Window>
    requires i <= cols
    decreases j, i
  {
    if i > 0 then VisitedBefore(cols, j, i - 1) + [Window(SCAN_STEP * (i - 1), SCAN_STEP * j)]
    else if j > 0 then VisitedBefore(cols, j - 1, cols)
    else []
  }

  lemma {:induction false} VisitedBeforeRows(cols: nat, j: nat, i: nat)
    requires i <= cols
    ensures VisitedBefore(cols, j, i) == RowsUpTo(j, cols) + Row(SCAN_STEP * j, cols)[..i]
    decreases j, i
  {
    var row := Row(SCAN_STEP * j, cols);
    if i > 0 {
      VisitedBeforeRows(cols, j, i - 1);
      assert row[..i] == row[..i - 1] + [row[i - 1]];
    } else if j > 0 {
      VisitedBeforeRows(cols, j - 1, cols);
      var previous := Row(SCAN_STEP * (j - 1), cols);
      assert previous[..cols] == previous;
    }
  }

  /**
   * A cursor that has finished the last column of the last row has visited
   * exactly the scan order.
   */
  lemma ScanOrderVisited(width: nat, height: nat)
    ensures ScanOrder(width, height) == VisitedBefore(Cols(width), Rows(height) - 1, Cols(width))
  {
    var cols, rows := Cols(width), Rows(height);
    VisitedBeforeRows(cols, rows - 1, cols);
    var last := Row(SCAN_STEP * (rows - 1), cols);
    assert last[..cols] == last;
  }

  /**
   * A 100 x 100 image: `left` takes 0, 20, ..., 100 (100 is the first value
   * >= width and is still visited) and `top` takes 0, 20, 40, 60 (the row at
   * 60 is the first whose bottom, 109, reaches the height): 24 windows.
   */
  lemma HundredSquare()
    ensures Cols(100) == 6 && Rows(100) == 4
    ensures |ScanOrder(100, 100)| == 24
    ensures ScanOrder(100, 100)[0] == Window(0, 0)
    ensures ScanOrder(100, 100)[5] == Window(100, 0)
    ensures ScanOrder(100, 100)[6] == Window(0, 20)
    ensures ScanOrder(100, 100)[23] == Window(100, 60)
  {
    var r1 := Row(0, 6);
    var r2 := Row(20, 6);
    var r3 := Row(40, 6);
    var r4 := Row(60, 6);
    assert RowsUpTo(1, 6) == r1;
    assert RowsUpTo(4, 6) == r1 + r2 + r3 + r4;
  }
}
