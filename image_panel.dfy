/**
 The window and its nested `ImagePanel` control: the panel owns a source bitmap, a destination
 bitmap of the same size and the last pointer position; every render recomputes the destination
 from the source with the black-or-white rule of module Pixels.
 */
module AvaloniaImageTraining {
  import opened Extensions
  import opened Pixels

  /** A position in the panel's own coordinates. */
  datatype Point = Point(x: real, y: real)

  datatype Option<T> = None | Some(value: T)

  /** How a drop ended: nothing dropped, the first file could not be opened or decoded, or loaded. */
  datatype DropOutcome = Ignored | Failed | Loaded

  /** A BGRA8888 bitmap: `width * height` pixels, four bytes each, row-major. */
  class Bitmap {
    const width: nat
    const height: nat
    const pixels: array<byte>

    predicate Valid()
    {
      pixels.Length == width * height * 4
    }

    /** A new bitmap of the given pixel size; its bytes are not specified. */
    constructor (width: nat, height: nat)
      ensures this.width == width && this.height == height
      ensures fresh(pixels) && Valid()
    {
      this.width := width;
      this.height := height;
      pixels := new byte[width * height * 4];
    }
  }

  /** Index of pixel (x, y) in a row-major buffer `width` pixels wide. */
  function Loc(x: int, y: int, width: int): (loc: int)
    ensures 0 <= x < width && 0 <= y ==> loc % width == x && loc / width == y
  {
    LocDecodes(x, y, width);
    x + y * width
  }

  /** Column and row are the remainder and quotient of the index by the width. */
  lemma LocDecodes(x: int, y: int, width: int)
    ensures 0 <= x < width && 0 <= y ==> (x + y * width) % width == x && (x + y * width) / width == y
  {
    if 0 <= x < width && 0 <= y {
      var loc := x + y * width;
      var q, m := loc / width, loc % width;
      assert loc == q * width + m && 0 <= m < width;
      if q < y {
        MulLeq(q + 1, y, width);
      } else if y < q {
        MulLeq(y + 1, q, width);
      }
    }
  }

  /** A pixel inside the image has its index inside the image. */
  lemma LocInRange(x: int, y: int, width: int, height: int)
    requires 0 <= x < width && 0 <= y < height
    ensures 0 <= Loc(x, y, width) < width * height
  {
    calc {
      x + y * width;
    <
      width + y * width;
    ==
      (y + 1) * width;
    <=
      { MulLeq(y + 1, height, width); }
      height * width;
    }
  }

  lemma MulLeq(a: int, b: int, c: int)
    requires a <= b && 0 <= c
    ensures a * c <= b * c
  {
  }

  /** Two pixels of one image never share an index. */
  lemma LocInjective(x1: int, y1: int, x2: int, y2: int, width: int)
    requires 0 <= x1 < width && 0 <= x2 < width && 0 <= y1 && 0 <= y2
    requires Loc(x1, y1, width) == Loc(x2, y2, width)
    ensures x1 == x2 && y1 == y2
  {
    if y1 < y2 {
      MulLeq(y1 + 1, y2, width);
    } else if y2 < y1 {
      MulLeq(y2 + 1, y1, width);
    }
  }

  /** Every index inside the image is the index of some pixel. */
  lemma LocCovers(loc: int, width: nat, height: nat)
    requires 0 <= loc < width * height
    ensures 0 < width && 0 <= loc / width < height
    ensures Loc(loc % width, loc / width, width) == loc
  {
    if loc / width >= height {
      MulLeq(height, loc / width, width);
    }
  }

  /** Bytes 4*loc .. 4*loc+3 of `dst` hold the destination pixel for source pixel `loc`. */
  ghost predicate PixelDone(dst: seq<byte>, src: seq<byte>, loc: int, threshold: Double)
  {
    0 <= loc && 4 * loc + 4 <= |src| && 4 * loc + 4 <= |dst| &&
    dst[4 * loc .. 4 * loc + 4] == PixelOf(src, loc, threshold)
  }

  /**
   Every pixel the column-by-column walk has visited before reaching (x, y) is finished:
   all of columns 0 .. x-1 and rows 0 .. y-1 of column x.
   */
  ghost predicate DoneBefore(dst: seq<byte>, src: seq<byte>, threshold: Double, width: nat, height: nat, x: int, y: int)
  {
    forall xx, yy {:trigger Loc(xx, yy, width)} | 0 <= xx < width && 0 <= yy < height && (xx < x || (xx == x && yy < y)) ::
      PixelDone(dst, src, Loc(xx, yy, width), threshold)
  }

  /** Finishing pixel (x, y) without touching any other pixel's bytes moves the walk one row down. */
  lemma DoneStep(before: seq<byte>, after: seq<byte>, src: seq<byte>, threshold: Double,
                 width: nat, height: nat, x: int, y: int)
    requires 0 <= x < width && 0 <= y < height
    requires |after| == |before|
    requires DoneBefore(before, src, threshold, width, height, x, y)
    requires PixelDone(after, src, Loc(x, y, width), threshold)
    requires forall j | 0 <= j < |before| && (j < 4 * Loc(x, y, width) || 4 * Loc(x, y, width) + 4 <= j) ::
      after[j] == before[j]
    ensures DoneBefore(after, src, threshold, width, height, x, y + 1)
  {
    forall xx, yy | 0 <= xx < width && 0 <= yy < height && (xx < x || (xx == x && yy < y + 1))
      ensures PixelDone(after, src, Loc(xx, yy, width), threshold)
    {
      if xx != x || yy != y {
        if Loc(xx, yy, width) == Loc(x, y, width) {
          LocInjective(xx, yy, x, y, width);
        }
        var loc := Loc(xx, yy, width);
        assert PixelDone(before, src, loc, threshold);
        assert after[4 * loc .. 4 * loc + 4] == before[4 * loc .. 4 * loc + 4];
      }
    }
  }

  /** Once every column is finished, each destination byte is the thresholded source byte. */
  lemma DoneAt(dst: seq<byte>, src: seq<byte>, threshold: Double, width: nat, height: nat, i: int)
    requires |src| == width * height * 4 && |dst| == |src| && 0 <= i < |dst|
    requires DoneBefore(dst, src, threshold, width, height, width, 0)
    ensures dst[i] == ThresholdImage(src, threshold)[i]
  {
    var loc := i / 4;
    LocCovers(loc, width, height);
    ThresholdImageAt(src, threshold, loc);
    assert PixelDone(dst, src, Loc(loc % width, loc / width, width), threshold);
    assert dst[i] == dst[4 * loc .. 4 * loc + 4][i % 4];
    assert ThresholdImage(src, threshold)[i] == ThresholdImage(src, threshold)[4 * loc .. 4 * loc + 4][i % 4];
  }

  /** Once every column is finished, the destination is exactly the thresholded source. */
  lemma DoneAll(dst: seq<byte>, src: seq<byte>, threshold: Double, width: nat, height: nat)
    requires |src| == width * height * 4 && |dst| == |src|
    requires DoneBefore(dst, src, threshold, width, height, width, 0)
    ensures dst == ThresholdImage(src, threshold)
  {
    forall i | 0 <= i < |dst|
      ensures dst[i] == ThresholdImage(src, threshold)[i]
    {
      DoneAt(dst, src, threshold, width, height, i);
    }
  }

  class ImagePanel {
    var image: Bitmap?
    var imageCopy: Bitmap?
    var lastMousePoint: Point

    /** Both bitmaps are present or both absent, and when present they have one size and two buffers. */
    ghost predicate Valid()
      reads this
    {
      (image == null <==> imageCopy == null) &&
      (image != null ==>
        image.Valid() && imageCopy.Valid() &&
        imageCopy.width == image.width && imageCopy.height == image.height &&
        imageCopy.pixels != image.pixels)
    }

    /** The threshold a redraw compares brightness with: the pointer's x mapped from [0, boundsWidth] to [0, 255]. */
    function Threshold(boundsWidth: real): (t: Double)
      reads this
      ensures boundsWidth != 0.0 ==> t.Finite? && t.value * boundsWidth == 255.0 * lastMousePoint.x
      ensures boundsWidth == 0.0 ==> (t.NaN? <==> lastMousePoint.x == 0.0)
      ensures boundsWidth == 0.0 ==> !t.Finite? && (t.PositiveInfinity? <==> lastMousePoint.x > 0.0)
    {
      Map(lastMousePoint.x, 0.0, boundsWidth, 0.0, 255.0)
    }

    /** A new panel shows no image and has its pointer at the origin. */
    constructor ()
      ensures Valid() && image == null && imageCopy == null
      ensures lastMousePoint == Point(0.0, 0.0)
    {
      image := null;
      imageCopy := null;
      lastMousePoint := Point(0.0, 0.0);
    }

    /** Installs `newImage` and allocates a destination of its pixel size, whatever was shown before. */
    method SetImage(newImage: Bitmap)
      requires newImage.Valid()
      modifies this`image, this`imageCopy
      ensures Valid()
      ensures image == newImage
      ensures fresh(imageCopy) && fresh(imageCopy.pixels)
      ensures imageCopy.width == newImage.width && imageCopy.height == newImage.height
    {
      image := newImage;
      imageCopy := new Bitmap(newImage.width, newImage.height);
    }

    /** Records the pointer; touches neither bitmap. */
    method OnPointerMoved(position: Point)
      modifies this`lastMousePoint
      ensures lastMousePoint == position
      ensures image == old(image) && imageCopy == old(imageCopy)
      ensures old(Valid()) ==> Valid()
    {
      lastMousePoint := position;
    }

    /**
     Rewrites every pixel of the destination: column by column, each pixel black or white by its
     brightness against the threshold, alpha copied. The source is left as it was.
     */
    method ReDrawImage(boundsWidth: real)
      requires Valid() && image != null
      modifies imageCopy.pixels
      ensures imageCopy.pixels[..] == ThresholdImage(image.pixels[..], Threshold(boundsWidth))
      ensures image.pixels[..] == old(image.pixels[..])
    {
      var buffer := image.pixels;
      var copyBuffer := imageCopy.pixels;
      var width := image.width;
      var height := image.height;
      ghost var src := buffer[..];
      ghost var threshold := Threshold(boundsWidth);

      for x := 0 to width
        invariant DoneBefore(copyBuffer[..], src, threshold, width, height, x, 0)
      {
        for y := 0 to height
          invariant DoneBefore(copyBuffer[..], src, threshold, width, height, x, y)
        {
          var loc := x + y * width;
          LocInRange(x, y, width, height);
          ghost var before := copyBuffer[..];

          var b := buffer[loc * 4];
          var g := buffer[loc * 4 + 1];
          var r := buffer[loc * 4 + 2];
          var a := buffer[loc * 4 + 3];

          var brightness := Brightness(r, g, b) as int;

          var mapMousePosition := Map(lastMousePoint.x, 0.0, boundsWidth, 0.0, 255.0);

          if GreaterThan(brightness, mapMousePosition) {
            copyBuffer[loc * 4] := 0;
            copyBuffer[loc * 4 + 1] := 0;
            copyBuffer[loc * 4 + 2] := 0;
            copyBuffer[loc * 4 + 3] := a;
          } else {
            copyBuffer[loc * 4] := 255;
            copyBuffer[loc * 4 + 1] := 255;
            copyBuffer[loc * 4 + 2] := 255;
            copyBuffer[loc * 4 + 3] := a;
          }
          assert copyBuffer[..][4 * loc .. 4 * loc + 4] == PixelOf(src, loc, threshold);
          DoneStep(before, copyBuffer[..], src, threshold, width, height, x, y);
        }
      }
      DoneAll(copyBuffer[..], src, threshold, width, height);
    }

    /** Does nothing while no image is shown; otherwise recomputes the destination. */
    method Render(boundsWidth: real)
      requires Valid()
      modifies if imageCopy != null then {imageCopy.pixels} else {}
      ensures image != null ==>
        imageCopy.pixels[..] == ThresholdImage(image.pixels[..], Threshold(boundsWidth))
    {
      if image == null {
        return;
      }
      ReDrawImage(boundsWidth);
    }

    /** Two redraws with no change in between produce the same destination bytes. */
    method ReDrawTwice(boundsWidth: real) returns (first: seq<byte>, second: seq<byte>)
      requires Valid() && image != null
      modifies imageCopy.pixels
      ensures first == second
    {
      ReDrawImage(boundsWidth);
      first := imageCopy.pixels[..];
      ReDrawImage(boundsWidth);
      second := imageCopy.pixels[..];
    }
  }

  class MainWindow {
    var width: real
    var height: real
    const imagePanel: ImagePanel

    ghost predicate Valid()
      reads this, imagePanel
    {
      imagePanel.Valid()
    }

    /** The window's content is a new, empty image panel. */
    constructor ()
      ensures Valid() && fresh(imagePanel)
      ensures imagePanel.image == null && imagePanel.lastMousePoint == Point(0.0, 0.0)
    {
      imagePanel := new ImagePanel();
    }

    /**
     A drop: with no file list or an empty one nothing happens. Otherwise `decoded` is what opening
     and decoding the first file yields, None when either fails (the failure propagates to the
     caller and nothing has changed). On success the window takes the bitmap's size and the
     panel shows the bitmap.
     */
    method OnDrop(files: Option<seq<string>>, decoded: Option<Bitmap>) returns (outcome: DropOutcome)
      requires Valid()
      requires decoded.Some? ==> decoded.value.Valid()
      modifies this`width, this`height, imagePanel`image, imagePanel`imageCopy
      ensures Valid()
      ensures outcome == Ignored <==> files.None? || |files.value| == 0
      ensures outcome == Failed <==> files.Some? && |files.value| > 0 && decoded.None?
      ensures outcome != Loaded ==>
        width == old(width) && height == old(height) &&
        imagePanel.image == old(imagePanel.image) && imagePanel.imageCopy == old(imagePanel.imageCopy)
      ensures outcome == Loaded ==>
        width == decoded.value.width as real && height == decoded.value.height as real &&
        imagePanel.image == decoded.value && fresh(imagePanel.imageCopy) && fresh(imagePanel.imageCopy.pixels) &&
        imagePanel.imageCopy.width == decoded.value.width && imagePanel.imageCopy.height == decoded.value.height
    {
      if files.None? {
        return Ignored;
      }
      var fileList := files.value;
      if |fileList| == 0 {
        return Ignored;
      }
      if decoded.None? {
        return Failed;
      }
      var bitmap := decoded.value;
      width := bitmap.width as real;
      height := bitmap.height as real;
      imagePanel.SetImage(bitmap);
      outcome := Loaded;
    }
  }
}
