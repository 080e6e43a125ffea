/**
 * The pixel-buffer primitives that the gray filter relies on (`struct bitmap`,
 * `union pixel`, `WHITE`, `GET_PIXEL_LIGHTNESS`, `count_pixels_rect` and
 * `clear_rect` from util.h). util.h is not part of this model, so the lightness
 * formula and the value of WHITE are not fixed here: they are a `Shading`
 * record handed to every operation, constrained only by `Shading.Valid()`.
 *
 * Explicit assumptions about the unseen primitives:
 *  - a pixel outside the image reads as lightness WHITE;
 *  - `count_pixels_rect` and `clear_rect` both address the inclusive rectangle
 *    [left..right] x [top..bottom], and `clear_rect` clamps it to the image;
 *  - `count_pixels_rect` judges a pixel dark by the same lightness measure
 *    that `GET_PIXEL_LIGHTNESS` returns to `lightness_rect`. Dark pixels
 *    surviving the filter, and the average test being decided by the count
 *    alone for WHITE >= 7, both rest on this.
 */
module Bitmap {

  newtype byte = x: int | 0 <= x < 256

  /** One RGBA pixel, four bytes in memory. */
  datatype Pixel = Pixel(r: byte, g: byte, b: byte, a: byte)

  /** The pixel `clear_rect` writes: every channel saturated. */
  const WHITE_PIXEL := Pixel(255, 255, 255, 255)

  /** WHITE and the per-pixel lightness of util.h. */
  datatype Shading = Shading(white: nat, lightness: Pixel -> int)
  {
    ghost predicate Valid() {
      && lightness(WHITE_PIXEL) == white
      && forall p :: 0 <= lightness(p) <= white
    }
  }

  /**
   * A value snapshot of a bitmap: `px[x][y]` is the pixel in column x, row y.
   */
  datatype Image = Image(width: nat, height: nat, px: seq<seq<Pixel>>)
  {
    ghost predicate Valid() {
      && |px| == width
      && forall x :: 0 <= x < |px| ==> |px[x]| == height
    }

    predicate InBounds(x: int, y: int) {
      0 <= x < width && 0 <= y < height
    }
  }

  /** GET_PIXEL_LIGHTNESS, reading WHITE outside the image. */
  function LightnessAt(sh: Shading, img: Image, x: int, y: int): (l: int)
    requires sh.Valid() && img.Valid()
    ensures 0 <= l <= sh.white
    ensures !img.InBounds(x, y) ==> l == sh.white
  {
    if img.InBounds(x, y) then sh.lightness(img.px[x][y]) else sh.white
  }

  /** The image held by a buffer at this moment. */
  function Snapshot(a: array2<Pixel>): (img: Image)
    reads a
    ensures img.Valid() && img.width == a.Length0 && img.height == a.Length1
    ensures forall x, y :: 0 <= x < a.Length0 && 0 <= y < a.Length1 ==> img.px[x][y] == a[x, y]
  {
    Image(a.Length0, a.Length1,
          seq(a.Length0, x requires 0 <= x < a.Length0 reads a =>
            seq(a.Length1, y requires 0 <= y < a.Length1 reads a => a[x, y])))
  }

  /** Buffer `a` holds image `img`: the same size and the same pixel at every position. */
  ghost predicate Holds(a: array2<Pixel>, img: Image)
    reads a
  {
    && img.Valid() && img.width == a.Length0 && img.height == a.Length1
    && forall x, y :: 0 <= x < a.Length0 && 0 <= y < a.Length1 ==> img.px[x][y] == a[x, y]
  }

  /** The only image a buffer holds is its snapshot. */
  lemma SnapshotHolds(a: array2<Pixel>, img: Image)
    requires Holds(a, img)
    ensures Snapshot(a) == img
  {
    ImageExtensionality(Snapshot(a), img);
  }

  /** Two valid images of the same size with the same pixels are equal. */
  lemma {:induction false} ImageExtensionality(i1: Image, i2: Image)
    requires i1.Valid() && i2.Valid()
    requires i1.width == i2.width && i1.height == i2.height
    requires forall x, y :: i1.InBounds(x, y) ==> i1.px[x][y] == i2.px[x][y]
    ensures i1 == i2
  {
    forall x | 0 <= x < i1.width
      ensures i1.px[x] == i2.px[x]
    {
      assert forall y :: 0 <= y < i1.height ==> i1.InBounds(x, y);
    }
  }

  /** The pixels of the inclusive rectangle whose lightness is at most `maxLightness`. */
  function DarkCells(sh: Shading, img: Image, left: int, top: int, right: int, bottom: int,
                     maxLightness: real): set<(int, int)>
    requires sh.Valid() && img.Valid()
  {
    set x, y | left <= x <= right && top <= y <= bottom
                 && LightnessAt(sh, img, x, y) as real <= maxLightness :: (x, y)
  }

  /**
   * count_pixels_rect: the number of pixels of the inclusive rectangle whose
   * lightness is at most `maxLightness`.
   */
  function CountPixelsRect(sh: Shading, img: Image, left: int, top: int, right: int, bottom: int,
                           maxLightness: real): (n: nat)
    requires sh.Valid() && img.Valid()
    ensures n == 0 <==> forall x, y :: left <= x <= right && top <= y <= bottom
                                     ==> LightnessAt(sh, img, x, y) as real > maxLightness
  {
    var cells := DarkCells(sh, img, left, top, right, bottom, maxLightness);
    assert forall x, y :: (left <= x <= right && top <= y <= bottom
                           && LightnessAt(sh, img, x, y) as real <= maxLightness) ==> (x, y) in cells;
    |cells|
  }

  /** The image with the inclusive rectangle, clamped to the image, made white. */
  function ClearedImage(img: Image, left: int, top: int, right: int, bottom: int): (r: Image)
    requires img.Valid()
    ensures r.Valid() && r.width == img.width && r.height == img.height
    ensures forall x, y :: img.InBounds(x, y) ==>
              r.px[x][y] == if left <= x <= right && top <= y <= bottom then WHITE_PIXEL else img.px[x][y]
  {
    Image(img.width, img.height,
          seq(img.width, x requires 0 <= x < img.width =>
            seq(img.height, y requires 0 <= y < img.height =>
              if left <= x <= right && top <= y <= bottom then WHITE_PIXEL else img.px[x][y])))
  }

  /** clear_rect: whitens, in place, the part of the rectangle that lies in the buffer. */
  method ClearRect(a: array2<Pixel>, left: int, top: int, right: int, bottom: int, ghost before: Image)
    requires Holds(a, before)
    modifies a
    ensures Holds(a, ClearedImage(before, left, top, right, bottom))
  {
    forall x, y | 0 <= x < a.Length0 && 0 <= y < a.Length1 && left <= x <= right && top <= y <= bottom {
      a[x, y] := WHITE_PIXEL;
    }
  }

  /** memcpy of one bitmap's pixels into another of the same size. */
  method CopyPixels(src: array2<Pixel>, dst: array2<Pixel>)
    requires src != dst
    requires dst.Length0 == src.Length0 && dst.Length1 == src.Length1
    modifies dst
    ensures Holds(dst, Snapshot(src))
  {
    forall x, y | 0 <= x < src.Length0 && 0 <= y < src.Length1 {
      dst[x, y] := src[x, y];
    }
  }
}
