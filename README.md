# AvaloniaImageTraining: the threshold renderer, modelled in Dafny

The program is a small desktop demo. You drop an image file on its window. The window then shows a
black-and-white version of the image. A pixel turns black when its brightness exceeds a threshold
and white otherwise. The threshold follows the horizontal position of the mouse pointer.

The model covers the `ImagePanel` control nested in `MainWindow` and the `Map` extension method:

- `extensions.dfy`, module `Extensions`. `Map` is the linear re-mapping of a number. C# evaluates
  it on `double`s, so `Double` models such a value: an exact real, one of the two infinities, or
  NaN. A view of width 0 divides by zero, which on doubles gives an infinity or NaN rather than
  an exception, and the model keeps that case. `GreaterThan` is C#'s `int > double` comparison,
  which is false against NaN.
- `pixels.dfy`, module `Pixels`. It holds `Brightness`, the black-or-white rule for one BGRA
  pixel, and `ThresholdImage`, the whole destination buffer that one redraw computes from a
  source buffer and a threshold.
- `image_panel.dfy`, module `AvaloniaImageTraining`. It holds the classes `Bitmap`, `ImagePanel`
  and `MainWindow`. `ImagePanel.ReDrawImage` keeps the source's nested column-then-row loops and
  writes the destination array in place. It is proved to leave the destination equal to
  `ThresholdImage` of the source bytes at the panel's threshold. `SetImage` and
  `OnPointerMoved` update the panel's fields. `MainWindow.OnDrop` decides whether a drop is
  ignored, fails or installs the decoded bitmap.

The view's width (`Bounds.Width`) comes from the toolkit, so it is a parameter of `ReDrawImage`
and `Render`. Decoding the dropped file is done by the toolkit's codec, so the decoded bitmap, or
its absence, is a parameter of `OnDrop`.

## Model

| member | source | states |
|---|---|---|
| `Extensions.Map` | MainWindow.axaml.cs:154-157 | with fromSource != toSource the result is finite and lies on the line through (fromSource, fromTarget) and (toSource, toTarget); with an empty source range it is NaN exactly when value == fromSource or the target range is empty, and otherwise an infinity whose sign is that of (value - fromSource) * (toTarget - fromTarget) |
| `Extensions.MapEndpoints` | MainWindow.axaml.cs:154-157 | with a != b, `Map` sends a to c and b to d, both finite |
| `Extensions.MapIncreasing` | MainWindow.axaml.cs:154-157 | for increasing source and target ranges, `Map` is strictly increasing in the value |
| `Extensions.Divide` | MainWindow.axaml.cs:156 | the division `/ (toSource - fromSource)` on doubles: with a non-zero divisor a finite quotient q with q * d == n; with a zero divisor never finite, NaN exactly when the numerator is 0, plus infinity exactly when it is positive |
| `Extensions.Multiply` | MainWindow.axaml.cs:156 | the product `* (toTarget - fromTarget)` on doubles: finite times k is the finite product; an infinity or NaN stays non-finite, becomes NaN exactly when it was NaN or k is 0, and is plus infinity exactly when the two signs agree |
| `Extensions.Add` | MainWindow.axaml.cs:156 | the sum `+ fromTarget` on doubles: a finite value is shifted by k; an infinity or NaN is returned unchanged |
| `Extensions.GreaterThan` | MainWindow.axaml.cs:120 | C#'s `brightness > mapMousePosition` for an int against a double: the real comparison for a finite double, false against NaN and plus infinity, true against minus infinity |
| `Pixels.Brightness` | MainWindow.axaml.cs:139-142 | the result is the channel sum divided by 3 and rounded down (3v <= r+g+b < 3v+3), and it is a byte, so the `(byte)` cast loses nothing |
| `Pixels.ToByte` | MainWindow.axaml.cs:141 | the unchecked `(byte)` cast: a value in [0, 256) is kept as it is, and any value differs from its result by a multiple of 256 |
| `Pixels.BrightnessDependsOnlyOnSum` | MainWindow.axaml.cs:139-142 | two pixels whose channels have the same sum have the same brightness |
| `Pixels.ThresholdPixel` | MainWindow.axaml.cs:116-133 | the four bytes written for one pixel: alpha is the source alpha, the three colour bytes are equal and each is 0 or 255, and they are 0 exactly when the brightness exceeds the threshold |
| `Pixels.ThresholdImage` | MainWindow.axaml.cs:105-135 | the destination buffer one redraw produces has the length of the source buffer |
| `Pixels.ThresholdImageAt` | MainWindow.axaml.cs:109-133 | destination pixel `loc` (bytes 4*loc to 4*loc+3) is the black-or-white pixel computed from source pixel `loc` alone |
| `Pixels.AlphaCopied` | MainWindow.axaml.cs:111-133 | every destination alpha byte equals the source alpha byte of the same pixel |
| `Pixels.ColourIsBlackOrWhite` | MainWindow.axaml.cs:116-133 | the three colour bytes of a destination pixel are all 0 if the brightness exceeds the threshold and all 255 otherwise; the blue byte is 0 exactly when the brightness exceeds the threshold |
| `Pixels.NegativeThresholdAllBlack` | MainWindow.axaml.cs:118-126 | a threshold below 0, or minus infinity, makes every colour byte 0 |
| `Pixels.HighThresholdAllWhite` | MainWindow.axaml.cs:118-133 | a threshold of 255 or more, plus infinity or NaN makes every colour byte 255 |
| `Pixels.PointerLeftOfViewAllBlack` | MainWindow.axaml.cs:118-126 | the threshold is not clamped, so a pointer left of a non-empty view turns the whole image black |
| `Pixels.PointerRightOfViewAllWhite` | MainWindow.axaml.cs:118-133 | a pointer at or right of the right edge of a non-empty view turns the whole image white |
| `Pixels.GreyPixelWithPointerAt50IsBlack` | MainWindow.axaml.cs:116-126 | a pixel (100, 100, 100, 255) in a 200-wide view with the pointer at x = 50 meets threshold 63.75 and becomes (0, 0, 0, 255) |
| `Pixels.GreyPixelWithPointerAt180IsWhite` | MainWindow.axaml.cs:116-133 | the same pixel with the pointer at x = 180 meets threshold 229.5 and becomes (255, 255, 255, 255) |
| `AvaloniaImageTraining.LocInRange` | MainWindow.axaml.cs:105-109 | for 0 <= x < width and 0 <= y < height the index x + y*width lies in [0, width*height) |
| `AvaloniaImageTraining.LocInjective` | MainWindow.axaml.cs:105-109 | two pixels of one image never have the same index |
| `AvaloniaImageTraining.LocCovers` | MainWindow.axaml.cs:105-109 | every index in [0, width*height) is the index of a pixel (loc % width, loc / width) inside the image |
| `AvaloniaImageTraining.Loc` | MainWindow.axaml.cs:109 | the index `x + y * width` of pixel (x, y): for 0 <= x < width and y >= 0 its remainder by the width is x and its quotient is y |
| `AvaloniaImageTraining.LocDecodes` | MainWindow.axaml.cs:109 | for 0 <= x < width and y >= 0, (x + y * width) % width == x and (x + y * width) / width == y |
| `AvaloniaImageTraining.DoneStep` | MainWindow.axaml.cs:107-134 | writing the four bytes of pixel (x, y) and no others keeps every pixel visited earlier in the walk finished |
| `AvaloniaImageTraining.DoneAt` | MainWindow.axaml.cs:105-133 | once every column has been walked, each destination byte equals the byte `ThresholdImage` puts at that index |
| `AvaloniaImageTraining.DoneAll` | MainWindow.axaml.cs:105-135 | once every column has been walked, the destination equals `ThresholdImage` of the source |
| `AvaloniaImageTraining.Bitmap.constructor` | MainWindow.axaml.cs:69-73 | a new bitmap of the given pixel size has a fresh buffer of width*height*4 bytes |
| `AvaloniaImageTraining.ImagePanel.constructor` | MainWindow.axaml.cs:144-146 | a new panel has no image and no copy, and its pointer is at the origin |
| `AvaloniaImageTraining.ImagePanel.Threshold` | MainWindow.axaml.cs:118 | the pointer's x mapped from [0, Bounds.Width] onto [0, 255]: for a non-zero width a finite t with t * width == 255 * x; for width 0 never finite: NaN exactly when x is 0, plus infinity exactly when x > 0, and minus infinity when x < 0 |
| `AvaloniaImageTraining.ImagePanel.SetImage` | MainWindow.axaml.cs:66-74 | the panel shows the new image; the copy is freshly allocated with the image's pixel size, whatever was shown before |
| `AvaloniaImageTraining.ImagePanel.OnPointerMoved` | MainWindow.axaml.cs:76-83 | only the stored pointer changes; neither bitmap is touched, and a panel that was consistent stays consistent |
| `AvaloniaImageTraining.ImagePanel.ReDrawImage` | MainWindow.axaml.cs:97-137 | afterwards the copy's bytes are `ThresholdImage` of the image's bytes at the pointer's mapped threshold, and the image's bytes are unchanged |
| `AvaloniaImageTraining.ImagePanel.Render` | MainWindow.axaml.cs:85-95 | with no image nothing changes; otherwise the copy is recomputed as by `ReDrawImage` |
| `AvaloniaImageTraining.ImagePanel.ReDrawTwice` | MainWindow.axaml.cs:105-135 | two redraws with nothing changed in between leave identical destination bytes |
| `AvaloniaImageTraining.MainWindow.constructor` | MainWindow.axaml.cs:16-28 | a new window holds a fresh panel with no image |
| `AvaloniaImageTraining.MainWindow.OnDrop` | MainWindow.axaml.cs:40-62 | a missing or empty file list is ignored and changes nothing; a first file that cannot be opened or decoded changes nothing; otherwise the window takes the bitmap's size and the panel shows the bitmap with a freshly allocated copy (bitmap and buffer) of the same size |

## Left out

- Window construction, drag-enter and drag-leave backgrounds, and event wiring (MainWindow.axaml.cs:16-38) are toolkit plumbing. Only the creation of the panel is modelled.
- Opening the file and `WriteableBitmap.Decode` are file I/O and a foreign codec. `OnDrop` receives their result, and the stream's disposal is not modelled.
- `MainWindow.OnDrop`: a failing open or decode propagates as an exception in the source. The model reports it as the outcome `Failed` with no state changed.
- Compositing (`context.DrawImage`), `InvalidateVisual`, and the base-class calls `base.OnPointerMoved(e)` (MainWindow.axaml.cs:78) and `base.Render(context)` (MainWindow.axaml.cs:87) are toolkit calls and are not modelled.
- Locking the bitmaps and the raw pointer arithmetic are modelled as two Dafny arrays. `Valid` keeps these two arrays distinct.
- IEEE rounding in `Map` and in the int-to-double comparison is not modelled. `Double` is exact apart from its infinities and NaN. The pointer position and the view width are finite reals.
- The model takes the DIP size (`Size`) to equal the pixel size (`PixelSize`), so DPI scaling is not modelled.
- `AvaloniaImageTraining.ImagePanel.ReDrawImage`: the index `loc * 4` is a 32-bit `int` in the source. The model uses unbounded integers, so overflow on images of more than 2^29 pixels is not modelled.
- `AvaloniaImageTraining.MainWindow.OnDrop`: setting the window's `Width` and `Height` is modelled as plain fields. Any re-layout the toolkit performs is not modelled.
