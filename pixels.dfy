/**
 The per-pixel rule of `ImagePanel`: brightness of a BGRA pixel and the black-or-white pixel it
 becomes against a threshold, and `ThresholdImage`, the whole destination buffer that one redraw
 produces from a source buffer, as a function of the source bytes and the threshold.
 */
module Pixels {
  import opened Extensions

  /** C#'s `byte`. */
  newtype byte = x: int | 0 <= x < 256

  /** C#'s unchecked `(byte)` cast: keeps the low eight bits, which is the Euclidean remainder by 256. */
  function ToByte(x: int): (b: byte)
    ensures 0 <= x < 256 ==> b as int == x
    ensures (x - b as int) % 256 == 0
  {
    (x % 256) as byte
  }

  /**
   `(byte)((r + g + b) / 3)`: the channel sum divided by three, rounded down. The sum is at most
   765, so the quotient is at most 255 and the cast loses nothing.
   */
  function Brightness(r: byte, g: byte, b: byte): (v: byte)
    ensures 3 * (v as int) <= r as int + g as int + b as int < 3 * (v as int) + 3
  {
    ToByte((r as int + g as int + b as int) / 3)
  }

  /** Only the channel sum matters: any two pixels with equal sums are equally bright. */
  lemma BrightnessDependsOnlyOnSum(r1: byte, g1: byte, b1: byte, r2: byte, g2: byte, b2: byte)
    requires r1 as int + g1 as int + b1 as int == r2 as int + g2 as int + b2 as int
    ensures Brightness(r1, g1, b1) == Brightness(r2, g2, b2)
  {
  }

  /** A pixel brighter than the threshold turns black, any other white; alpha is kept. BGRA order. */
  function ThresholdPixel(b: byte, g: byte, r: byte, a: byte, threshold: Double): (p: seq<byte>)
    ensures |p| == 4 && p[3] == a
    ensures p[0] == p[1] == p[2] && (p[0] == 0 || p[0] == 255)
    ensures p[0] == 0 <==> GreaterThan(Brightness(r, g, b) as int, threshold)
  {
    if GreaterThan(Brightness(r, g, b) as int, threshold) then [0, 0, 0, a] else [255, 255, 255, a]
  }

  /** The destination pixel for source pixel `loc` (bytes 4*loc .. 4*loc+3). */
  function PixelOf(src: seq<byte>, loc: int, threshold: Double): seq<byte>
    requires 0 <= loc && 4 * loc + 4 <= |src|
  {
    ThresholdPixel(src[4 * loc], src[4 * loc + 1], src[4 * loc + 2], src[4 * loc + 3], threshold)
  }

  /** The destination buffer a redraw produces from the BGRA source buffer `src`, pixel by pixel. */
  function ThresholdImage(src: seq<byte>, threshold: Double): (dst: seq<byte>)
    requires |src| % 4 == 0
    ensures |dst| == |src|
    decreases |src|
  {
    if |src| == 0 then []
    else PixelOf(src, 0, threshold) + ThresholdImage(src[4..], threshold)
  }

  /** A slice lying past `head` in `head + rest` is the matching slice of `rest`. */
  lemma SliceOfSecondPart(head: seq<byte>, rest: seq<byte>, i: int, j: int)
    requires |head| <= i <= j <= |head| + |rest|
    ensures (head + rest)[i..j] == rest[i - |head| .. j - |head|]
  {
    forall k | 0 <= k < j - i
      ensures (head + rest)[i..j][k] == rest[i - |head| .. j - |head|][k]
    {
    }
  }

  /** Destination pixel `loc` depends on source pixel `loc` alone. */
  lemma {:induction false} ThresholdImageAt(src: seq<byte>, threshold: Double, loc: int)
    requires |src| % 4 == 0 && 0 <= loc && 4 * loc + 4 <= |src|
    ensures ThresholdImage(src, threshold)[4 * loc .. 4 * loc + 4] == PixelOf(src, loc, threshold)
  {
    var dst := ThresholdImage(src, threshold);
    if loc > 0 {
      var rest := ThresholdImage(src[4..], threshold);
      ThresholdImageAt(src[4..], threshold, loc - 1);
      var head := PixelOf(src, 0, threshold);
      assert dst == head + rest;
      SliceOfSecondPart(head, rest, 4 * loc, 4 * loc + 4);
      assert PixelOf(src[4..], loc - 1, threshold) == PixelOf(src, loc, threshold);
    }
  }

  /** Every destination alpha byte is the source alpha byte of the same pixel. */
  lemma AlphaCopied(src: seq<byte>, threshold: Double, loc: int)
    requires |src| % 4 == 0 && 0 <= loc && 4 * loc + 4 <= |src|
    ensures ThresholdImage(src, threshold)[4 * loc + 3] == src[4 * loc + 3]
  {
    ThresholdImageAt(src, threshold, loc);
    assert ThresholdImage(src, threshold)[4 * loc + 3] == ThresholdImage(src, threshold)[4 * loc .. 4 * loc + 4][3];
  }

  /**
   The three colour bytes of every destination pixel are all 0 when the source pixel's brightness
   exceeds the threshold and all 255 otherwise; no other colour value occurs.
   */
  lemma ColourIsBlackOrWhite(src: seq<byte>, threshold: Double, loc: int)
    requires |src| % 4 == 0 && 0 <= loc && 4 * loc + 4 <= |src|
    ensures var dst := ThresholdImage(src, threshold);
      var k := Brightness(src[4 * loc + 2], src[4 * loc + 1], src[4 * loc]) as int;
      (GreaterThan(k, threshold) <==> dst[4 * loc] == 0) &&
      (GreaterThan(k, threshold) ==> dst[4 * loc + 1] == 0 && dst[4 * loc + 2] == 0) &&
      (!GreaterThan(k, threshold) ==> dst[4 * loc] == dst[4 * loc + 1] == dst[4 * loc + 2] == 255)
  {
    var dst := ThresholdImage(src, threshold);
    ThresholdImageAt(src, threshold, loc);
    assert dst[4 * loc .. 4 * loc + 4][0] == dst[4 * loc];
    assert dst[4 * loc .. 4 * loc + 4][1] == dst[4 * loc + 1];
    assert dst[4 * loc .. 4 * loc + 4][2] == dst[4 * loc + 2];
  }

  /** A threshold below 0 (the pointer left of the view) turns every pixel black. */
  lemma NegativeThresholdAllBlack(src: seq<byte>, threshold: Double)
    requires |src| % 4 == 0
    requires threshold.NegativeInfinity? || (threshold.Finite? && threshold.value < 0.0)
    ensures forall i | 0 <= i < |src| && i % 4 != 3 :: ThresholdImage(src, threshold)[i] == 0
  {
    forall i | 0 <= i < |src| && i % 4 != 3
      ensures ThresholdImage(src, threshold)[i] == 0
    {
      var loc := i / 4;
      ColourIsBlackOrWhite(src, threshold, loc);
    }
  }

  /**
   A threshold of 255 or more (the pointer at or right of the view's right edge), or no threshold
   at all (NaN, from an empty view at its origin), turns every pixel white.
   */
  lemma HighThresholdAllWhite(src: seq<byte>, threshold: Double)
    requires |src| % 4 == 0
    requires threshold.PositiveInfinity? || threshold.NaN? || (threshold.Finite? && threshold.value >= 255.0)
    ensures forall i | 0 <= i < |src| && i % 4 != 3 :: ThresholdImage(src, threshold)[i] == 255
  {
    forall i | 0 <= i < |src| && i % 4 != 3
      ensures ThresholdImage(src, threshold)[i] == 255
    {
      var loc := i / 4;
      ColourIsBlackOrWhite(src, threshold, loc);
    }
  }

  /** A pointer left of a non-empty view maps to a negative threshold: the whole image turns black. */
  lemma PointerLeftOfViewAllBlack(src: seq<byte>, pointerX: real, boundsWidth: real)
    requires |src| % 4 == 0 && boundsWidth > 0.0 && pointerX < 0.0
    ensures forall i | 0 <= i < |src| && i % 4 != 3 ::
      ThresholdImage(src, Map(pointerX, 0.0, boundsWidth, 0.0, 255.0))[i] == 0
  {
    var t := Map(pointerX, 0.0, boundsWidth, 0.0, 255.0);
    assert t == Finite(pointerX / boundsWidth * 255.0);
    assert pointerX / boundsWidth < 0.0;
    NegativeThresholdAllBlack(src, t);
  }

  /** A pointer at or right of the right edge of a non-empty view maps to 255 or more: the whole image turns white. */
  lemma PointerRightOfViewAllWhite(src: seq<byte>, pointerX: real, boundsWidth: real)
    requires |src| % 4 == 0 && boundsWidth > 0.0 && pointerX >= boundsWidth
    ensures forall i | 0 <= i < |src| && i % 4 != 3 ::
      ThresholdImage(src, Map(pointerX, 0.0, boundsWidth, 0.0, 255.0))[i] == 255
  {
    var t := Map(pointerX, 0.0, boundsWidth, 0.0, 255.0);
    assert t.value * boundsWidth >= 255.0 * boundsWidth;
    HighThresholdAllWhite(src, t);
  }

  /** A grey pixel of brightness 100 with the pointer at 50 of a 200-wide view: threshold 63.75, so black. */
  lemma GreyPixelWithPointerAt50IsBlack()
    ensures Map(50.0, 0.0, 200.0, 0.0, 255.0) == Finite(63.75)
    ensures ThresholdImage([100, 100, 100, 255], Map(50.0, 0.0, 200.0, 0.0, 255.0)) == [0, 0, 0, 255]
  {
  }

  /** The same pixel with the pointer at 180: threshold 229.5, so white. */
  lemma GreyPixelWithPointerAt180IsWhite()
    ensures Map(180.0, 0.0, 200.0, 0.0, 255.0) == Finite(229.5)
    ensures ThresholdImage([100, 100, 100, 255], Map(180.0, 0.0, 200.0, 0.0, 255.0)) == [255, 255, 255, 255]
  {
  }
}
