/**
 * `lightness_rect`: the average lightness of a rectangle, with the source's
 * arithmetic as written. The sum runs over the half-open ranges x1..x2-1 and
 * y1..y2-1, but the divisor is (x2-x1+1)*(y2-y1+1), one more column and one
 * more row than were summed; the division is C's truncating `/`.
 */
module Lightness {
  import opened Bitmap

  function Abs(n: int): nat { if n < 0 then -n else n }

  /**
   * C's `/` on int, which truncates toward zero: the remainder a - b*q is
   * smaller than b in magnitude and is zero or has the sign of a.
   */
  function CDiv(a: int, b: int): (q: int)
    requires b != 0
    ensures Abs(a - b * q) < Abs(b)
    ensures a - b * q == 0 || (a - b * q < 0 <==> a < 0)
    ensures a >= 0 && b > 0 ==> q == a / b
  {
    var magnitude := Abs(a) / Abs(b);
    CDivRemainder(Abs(a), Abs(b));
    if (a < 0) == (b < 0) then magnitude else -magnitude
  }

  /** The remainder of the magnitudes lies in [0, |b|). */
  lemma CDivRemainder(m: nat, n: nat)
    requires n > 0
    ensures 0 <= m - n * (m / n) < n
  {
  }

  /** Sum of lightness over column x, rows y1 .. y2-1. */
  function ColumnSum(sh: Shading, img: Image, x: int, y1: int, y2: int): int
    requires sh.Valid() && img.Valid()
    decreases y2 - y1
  {
    if y2 <= y1 then 0 else ColumnSum(sh, img, x, y1, y2 - 1) + LightnessAt(sh, img, x, y2 - 1)
  }

  /** Sum of lightness over columns x1 .. x2-1 and rows y1 .. y2-1. */
  function RectSum(sh: Shading, img: Image, x1: int, y1: int, x2: int, y2: int): int
    requires sh.Valid() && img.Valid()
    decreases x2 - x1
  {
    if x2 <= x1 then 0 else RectSum(sh, img, x1, y1, x2 - 1, y2) + ColumnSum(sh, img, x2 - 1, y1, y2)
  }

  /** The value `lightness_rect` returns: the half-open sum over the quirky divisor. */
  function AverageLightness(sh: Shading, img: Image, x1: int, y1: int, x2: int, y2: int): int
    requires sh.Valid() && img.Valid()
    requires (x2 - x1 + 1) * (y2 - y1 + 1) != 0
  {
    CDiv(RectSum(sh, img, x1, y1, x2, y2), (x2 - x1 + 1) * (y2 - y1 + 1))
  }

  /** lightness_rect: accumulates the total column by column, then divides. */
  method LightnessRect(sh: Shading, x1: int, y1: int, x2: int, y2: int, img: Image) returns (avg: int)
    requires sh.Valid() && img.Valid()
    requires (x2 - x1 + 1) * (y2 - y1 + 1) != 0
    ensures avg == AverageLightness(sh, img, x1, y1, x2, y2)
  {
    var total := 0;
    var count := (x2 - x1 + 1) * (y2 - y1 + 1);
    var x := x1;
    while x < x2
      invariant x1 <= x && (x1 < x ==> x <= x2)
      invariant total == RectSum(sh, img, x1, y1, x, y2)
    {
      var y := y1;
      while y < y2
        invariant y1 <= y && (y1 < y ==> y <= y2)
        invariant total == RectSum(sh, img, x1, y1, x, y2) + ColumnSum(sh, img, x, y1, y)
      {
        total := total + LightnessAt(sh, img, x, y);
        y := y + 1;
      }
      x := x + 1;
    }
    avg := CDiv(total, count);
  }

  lemma {:induction false} ColumnSumBounds(sh: Shading, img: Image, x: int, y1: int, y2: int)
    requires sh.Valid() && img.Valid()
    requires y1 <= y2
    ensures 0 <= ColumnSum(sh, img, x, y1, y2) <= sh.white * (y2 - y1)
    decreases y2 - y1
  {
    if y1 < y2 {
      ColumnSumBounds(sh, img, x, y1, y2 - 1);
      assert sh.white * (y2 - y1) == sh.white * (y2 - 1 - y1) + sh.white;
    }
  }

  /** Each summed cell contributes between 0 and WHITE. */
  lemma {:induction false} RectSumBounds(sh: Shading, img: Image, x1: int, y1: int, x2: int, y2: int)
    requires sh.Valid() && img.Valid()
    requires x1 <= x2 && y1 <= y2
    ensures 0 <= RectSum(sh, img, x1, y1, x2, y2) <= sh.white * ((x2 - x1) * (y2 - y1))
    decreases x2 - x1
  {
    if x1 < x2 {
      RectSumBounds(sh, img, x1, y1, x2 - 1, y2);
      ColumnSumBounds(sh, img, x2 - 1, y1, y2);
      OneMoreColumn(sh.white, x2 - x1, y2 - y1);
    }
  }

  /** Arithmetic step of the column induction: (dx-1) columns plus one column. */
  lemma OneMoreColumn(w: int, dx: int, dy: int)
    ensures w * ((dx - 1) * dy) + w * dy == w * (dx * dy)
  {
    calc {
      w * ((dx - 1) * dy) + w * dy;
      w * ((dx - 1) * dy + dy);
      { assert (dx - 1) * dy + dy == dx * dy; }
      w * (dx * dy);
    }
  }

  /**
   * For a non-empty rectangle the average lightness lies in [0, WHITE]; the
   * oversized divisor can only pull it down.
   */
  lemma AverageLightnessBounds(sh: Shading, img: Image, x1: int, y1: int, x2: int, y2: int)
    requires sh.Valid() && img.Valid()
    requires x1 <= x2 && y1 <= y2
    ensures 0 <= AverageLightness(sh, img, x1, y1, x2, y2) <= sh.white
  {
    RectSumBounds(sh, img, x1, y1, x2, y2);
    DivideBelow(RectSum(sh, img, x1, y1, x2, y2), sh.white, x2 - x1, y2 - y1);
  }

  /** 0 <= a <= w*(dx*dy) implies 0 <= a / ((dx+1)*(dy+1)) <= w. */
  lemma DivideBelow(a: int, w: nat, dx: nat, dy: nat)
    requires 0 <= a <= w * (dx * dy)
    ensures (dx + 1) * (dy + 1) > 0
    ensures 0 <= a / ((dx + 1) * (dy + 1)) <= w
  {
    var count := (dx + 1) * (dy + 1);
    CellsBelowCount(dx, dy);
    ScaleAtMost(w, dx * dy, count);
    DivAtMost(a, w, count);
  }

  lemma {:induction false} ColumnSumUniform(sh: Shading, img: Image, x: int, y1: int, y2: int, l: int)
    requires sh.Valid() && img.Valid()
    requires y1 <= y2
    requires forall y :: y1 <= y < y2 ==> LightnessAt(sh, img, x, y) == l
    ensures ColumnSum(sh, img, x, y1, y2) == l * (y2 - y1)
    decreases y2 - y1
  {
    if y1 < y2 {
      ColumnSumUniform(sh, img, x, y1, y2 - 1, l);
    }
  }

  /** A rectangle whose summed cells all have lightness l sums to l per summed cell. */
  lemma {:induction false} RectSumUniform(sh: Shading, img: Image, x1: int, y1: int, x2: int, y2: int, l: int)
    requires sh.Valid() && img.Valid()
    requires x1 <= x2 && y1 <= y2
    requires forall x, y :: x1 <= x < x2 && y1 <= y < y2 ==> LightnessAt(sh, img, x, y) == l
    ensures RectSum(sh, img, x1, y1, x2, y2) == l * ((x2 - x1) * (y2 - y1))
    decreases x2 - x1
  {
    if x1 < x2 {
      RectSumUniform(sh, img, x1, y1, x2 - 1, y2, l);
      ColumnSumUniform(sh, img, x2 - 1, y1, y2, l);
      OneMoreColumn(l, x2 - x1, y2 - y1);
    }
  }

  /**
   * The divisor quirk made concrete: on a rectangle of uniform lightness l the
   * reported average is l*(summed cells)/(divisor cells), strictly below l
   * whenever l > 0. For a 50x50 scan window that is l*2401/2500, so a pure
   * white window (l = WHITE) reports less than WHITE.
   */
  lemma UniformAverage(sh: Shading, img: Image, x1: int, y1: int, x2: int, y2: int, l: int)
    requires sh.Valid() && img.Valid()
    requires x1 <= x2 && y1 <= y2
    requires forall x, y :: x1 <= x < x2 && y1 <= y < y2 ==> LightnessAt(sh, img, x, y) == l
    ensures AverageLightness(sh, img, x1, y1, x2, y2)
            == (l * ((x2 - x1) * (y2 - y1))) / ((x2 - x1 + 1) * (y2 - y1 + 1))
    ensures 0 < l ==> AverageLightness(sh, img, x1, y1, x2, y2) < l
  {
    RectSumUniform(sh, img, x1, y1, x2, y2, l);
    RectSumBounds(sh, img, x1, y1, x2, y2);
    if 0 < l {
      DivideStrictlyBelow(l, x2 - x1, y2 - y1);
    }
  }

  /** l*(dx*dy) / ((dx+1)*(dy+1)) < l for l > 0. */
  lemma DivideStrictlyBelow(l: int, dx: nat, dy: nat)
    requires 0 < l
    ensures (dx + 1) * (dy + 1) > 0
    ensures (l * (dx * dy)) / ((dx + 1) * (dy + 1)) < l
  {
    var count := (dx + 1) * (dy + 1);
    CellsBelowCount(dx, dy);
    ScaleBelow(l, dx * dy, count);
    DivBelow(l * (dx * dy), l, count);
  }

  /** The cells summed are fewer than the cells counted by the divisor. */
  lemma CellsBelowCount(dx: nat, dy: nat)
    ensures 0 <= dx * dy < (dx + 1) * (dy + 1)
  {
  }

  lemma ScaleAtMost(w: nat, a: int, b: int)
    requires a <= b
    ensures w * a <= w * b
  {
  }

  lemma ScaleBelow(w: int, a: int, b: int)
    requires 0 < w && a < b
    ensures w * a < w * b
  {
  }

  lemma DivAtMost(a: int, c: int, n: int)
    requires 0 < n && 0 <= a <= c * n
    ensures 0 <= a / n <= c
  {
  }

  lemma DivBelow(a: int, c: int, n: int)
    requires 0 < n && 0 <= a < c * n
    ensures a / n < c
  {
  }

  lemma {:induction false} ColumnSumAtLeast(sh: Shading, img: Image, x: int, y1: int, y2: int, m: int)
    requires sh.Valid() && img.Valid()
    requires y1 <= y2
    requires forall y :: y1 <= y < y2 ==> m <= LightnessAt(sh, img, x, y)
    ensures m * (y2 - y1) <= ColumnSum(sh, img, x, y1, y2)
    decreases y2 - y1
  {
    if y1 < y2 {
      ColumnSumAtLeast(sh, img, x, y1, y2 - 1, m);
      assert m * (y2 - y1) == m * (y2 - 1 - y1) + m;
    }
  }

  /** A rectangle whose summed cells all have lightness at least m sums to at least m per summed cell. */
  lemma {:induction false} RectSumAtLeast(sh: Shading, img: Image, x1: int, y1: int, x2: int, y2: int, m: int)
    requires sh.Valid() && img.Valid()
    requires x1 <= x2 && y1 <= y2
    requires forall x, y :: x1 <= x < x2 && y1 <= y < y2 ==> m <= LightnessAt(sh, img, x, y)
    ensures m * ((x2 - x1) * (y2 - y1)) <= RectSum(sh, img, x1, y1, x2, y2)
    decreases x2 - x1
  {
    if x1 < x2 {
      RectSumAtLeast(sh, img, x1, y1, x2 - 1, y2, m);
      ColumnSumAtLeast(sh, img, x2 - 1, y1, y2, m);
      OneMoreColumn(m, x2 - x1, y2 - y1);
    }
  }

  /** Image `b` is everywhere at least as light as image `a`. */
  ghost predicate Lighter(sh: Shading, a: Image, b: Image)
    requires sh.Valid() && a.Valid() && b.Valid()
  {
    forall x, y :: LightnessAt(sh, a, x, y) <= LightnessAt(sh, b, x, y)
  }

  lemma {:induction false} ColumnSumMono(sh: Shading, a: Image, b: Image, x: int, y1: int, y2: int)
    requires sh.Valid() && a.Valid() && b.Valid() && Lighter(sh, a, b)
    ensures ColumnSum(sh, a, x, y1, y2) <= ColumnSum(sh, b, x, y1, y2)
    decreases y2 - y1
  {
    if y1 < y2 {
      ColumnSumMono(sh, a, b, x, y1, y2 - 1);
      assert LightnessAt(sh, a, x, y2 - 1) <= LightnessAt(sh, b, x, y2 - 1);
    }
  }

  lemma {:induction false} RectSumMono(sh: Shading, a: Image, b: Image, x1: int, y1: int, x2: int, y2: int)
    requires sh.Valid() && a.Valid() && b.Valid() && Lighter(sh, a, b)
    ensures RectSum(sh, a, x1, y1, x2, y2) <= RectSum(sh, b, x1, y1, x2, y2)
    decreases x2 - x1
  {
    if x1 < x2 {
      RectSumMono(sh, a, b, x1, y1, x2 - 1, y2);
      ColumnSumMono(sh, a, b, x2 - 1, y1, y2);
    }
  }

  /**
   * A lighter image never reports a lower average: the sums only grow and the
   * divisor is the same.
   */
  lemma AverageLightnessMono(sh: Shading, a: Image, b: Image, x1: int, y1: int, x2: int, y2: int)
    requires sh.Valid() && a.Valid() && b.Valid() && Lighter(sh, a, b)
    requires x1 <= x2 && y1 <= y2
    ensures AverageLightness(sh, a, x1, y1, x2, y2) <= AverageLightness(sh, b, x1, y1, x2, y2)
  {
    RectSumBounds(sh, a, x1, y1, x2, y2);
    RectSumMono(sh, a, b, x1, y1, x2, y2);
    CellsBelowCount(x2 - x1, y2 - y1);
    DivMono(RectSum(sh, a, x1, y1, x2, y2), RectSum(sh, b, x1, y1, x2, y2), (x2 - x1 + 1) * (y2 - y1 + 1));
  }

  lemma DivMono(a: int, b: int, n: int)
    requires 0 <= a <= b && 0 < n
    ensures a / n <= b / n
  {
    var qa, qb := a / n, b / n;
    assert a == n * qa + a % n && b == n * qb + b % n;
    if qa > qb {
      ScaleAtMost(n, qb + 1, qa);
      assert false;
    }
  }
}
