/**
 * The decode stage run on a downloaded stream (InputStreamHandlingTask.doInBackground,
 * ShutterbugManager.java:202-255): GIF payloads are kept as raw bytes, anything else
 * is decoded into a bitmap and, under size constraints, scaled down.
 */
module Decoding {
  import opened Wrappers
  import opened Images
  import ImageCaches
  import Streams

  /** What the fetcher hands over (downloader/DownloaderInputStream.java): bytes and a content type. */
  datatype DownloadedStream = DownloadedStream(bytes: Bytes, mimeType: Option<string>)

  /**
   * How a decoded bitmap is to be scaled. `ClampWidth(w, num, den)` sets the width to
   * `w` and scales the height by the ratio num/den; the scaled value itself is float
   * arithmetic and stays outside the model. `ClampHeight` is the mirror image.
   */
  datatype Scaling =
    | KeepSize
    | ClampWidth(newWidth: int, scaleNum: int, scaleDen: int)
    | ClampHeight(newHeight: int, scaleNum: int, scaleDen: int)

  function Min(a: int, b: int): int {
    if a < b then a else b
  }

  /** The guard at line 230/234: both bounds set and either one exceeded. */
  predicate MustResize(width: nat, height: nat, maxWidth: int, maxHeight: int) {
    maxWidth != 0 && maxHeight != 0 && (width > maxWidth || height > maxHeight)
  }

  /**
   * The resize decision as written (lines 230-242): the clamped axis is the longer one
   * (width when strictly wider), clamped with `min(dim, max)`, and the other axis is
   * scaled by max/dim of the clamped axis.
   */
  function ScalingAsWritten(width: nat, height: nat, maxWidth: int, maxHeight: int): (p: Scaling)
    ensures p.KeepSize? <==> !MustResize(width, height, maxWidth, maxHeight)
    ensures p.ClampWidth? <==> MustResize(width, height, maxWidth, maxHeight) && width > height
    ensures p.ClampWidth? ==> p.newWidth == Min(width, maxWidth) && p.scaleNum == maxWidth && p.scaleDen == width
    ensures p.ClampHeight? ==> p.newHeight == Min(height, maxHeight) && p.scaleNum == maxHeight && p.scaleDen == height
  {
    if !MustResize(width, height, maxWidth, maxHeight) then KeepSize
    else if width > height then ClampWidth(Min(width, maxWidth), maxWidth, width)
    else ClampHeight(Min(height, maxHeight), maxHeight, height)
  }

  /**
   * The evidently intended decision: when the image exceeds a positive bound, scale
   * both axes by the smaller of maxWidth/width and maxHeight/height, clamping the axis
   * whose bound binds. Non-positive bounds mean no constraint.
   */
  function ScalingFor(width: nat, height: nat, maxWidth: int, maxHeight: int): (p: Scaling)
    ensures p.ClampWidth? ==> p.newWidth > 0 && p.newWidth == p.scaleNum && p.scaleDen == width
    ensures p.ClampHeight? ==> p.newHeight > 0 && p.newHeight == p.scaleNum && p.scaleDen == height
  {
    if maxWidth <= 0 || maxHeight <= 0 || !MustResize(width, height, maxWidth, maxHeight) then KeepSize
    else if maxWidth * height <= maxHeight * width then ClampWidth(maxWidth, maxWidth, width)
    else ClampHeight(maxHeight, maxHeight, height)
  }

  lemma MulMonotone(a: int, b: int, c: int)
    requires a <= b && c >= 0
    ensures a * c <= b * c
  {
  }

  lemma MulStrict(a: int, b: int, c: int)
    requires a < b && c > 0
    ensures a * c < b * c
  {
  }

  /**
   * The corrected decision fits the image inside the bounds, preserving its aspect
   * ratio: it keeps the size exactly when both bounds hold, and otherwise the clamped
   * axis shrinks to its bound and the other axis, scaled by the same ratio, fits too.
   */
  lemma ScalingFits(width: nat, height: nat, maxWidth: int, maxHeight: int)
    requires width > 0 && height > 0 && maxWidth > 0 && maxHeight > 0
    ensures var p := ScalingFor(width, height, maxWidth, maxHeight);
            && (p.KeepSize? <==> width <= maxWidth && height <= maxHeight)
            && (p.ClampWidth? ==> p.newWidth == maxWidth < width && height * p.scaleNum <= maxHeight * p.scaleDen)
            && (p.ClampHeight? ==> p.newHeight == maxHeight < height && width * p.scaleNum <= maxWidth * p.scaleDen)
  {
    var p := ScalingFor(width, height, maxWidth, maxHeight);
    if p.ClampWidth? {
      assert maxWidth * height <= maxHeight * width;
      if width <= maxWidth {
        assert height > maxHeight;
        MulMonotone(width, maxWidth, height);
        MulStrict(maxHeight, height, width);
        assert false;
      }
    } else if p.ClampHeight? {
      assert maxWidth * height > maxHeight * width;
      if height <= maxHeight {
        assert width > maxWidth;
        MulMonotone(height, maxHeight, width);
        MulStrict(maxWidth, width, height);
        assert false;
      }
    }
  }

  /**
   * The two decisions agree for square bounds on a non-square image: the longer axis
   * is then always the binding one.
   */
  lemma ScalingAgreesOnSquareBounds(width: nat, height: nat, bound: int)
    requires bound > 0 && width != height
    ensures ScalingAsWritten(width, height, bound, bound) == ScalingFor(width, height, bound, bound)
  {
    if MustResize(width, height, bound, bound) {
      if width > height {
        MulStrict(height, width, bound);
        assert bound * height <= bound * width;
      } else {
        MulStrict(width, height, bound);
        assert !(bound * height <= bound * width);
      }
    }
  }

  /** Resize examples: 1000x500 and 500x1000 under 300x300. */
  lemma ResizeExamples()
    ensures ScalingAsWritten(1000, 500, 300, 300) == ClampWidth(300, 300, 1000) == ScalingFor(1000, 500, 300, 300)
    ensures ScalingAsWritten(500, 1000, 300, 300) == ClampHeight(300, 300, 1000) == ScalingFor(500, 1000, 300, 300)
  {
  }

  /**
   * As written, a 200x100 image under bounds 300x50 exceeds only its height, yet the
   * width is "clamped" to itself and the height scaled by 300/200: the result is
   * 200x150, larger than before and three times the height bound.
   */
  lemma ResizeAsWrittenEnlarges()
    ensures var p := ScalingAsWritten(200, 100, 300, 50);
            p == ClampWidth(200, 300, 200) && p.scaleNum > p.scaleDen && 100 * p.scaleNum > 50 * p.scaleDen
    ensures ScalingFor(200, 100, 300, 50) == ClampHeight(50, 50, 100)
  {
  }

  function Max(a: int, b: int): int {
    if a < b then b else a
  }

  /**
   * `createScaledBitmap` as called at line 243, for a plan; `proportional` is the
   * float result for the scaled axis, truncated by the `(int)` cast and computed
   * outside the model. None stands for the IllegalArgumentException it throws on a
   * dimension that is not positive, which nothing in the decode task catches.
   */
  function ResizedAsWritten(b: Bitmap, plan: Scaling, proportional: nat): (r: Option<Bitmap>)
    ensures plan.KeepSize? ==> r == Some(b)
    ensures plan.ClampWidth? ==> (r.Some? <==> plan.newWidth > 0 && proportional > 0)
    ensures plan.ClampHeight? ==> (r.Some? <==> plan.newHeight > 0 && proportional > 0)
    ensures r.Some? && plan.ClampWidth? ==> r.value == Bitmap(plan.newWidth, proportional, b.bytesPerPixel)
    ensures r.Some? && plan.ClampHeight? ==> r.value == Bitmap(proportional, plan.newHeight, b.bytesPerPixel)
  {
    match plan
    case KeepSize => Some(b)
    case ClampWidth(w, _, _) => if w > 0 && proportional > 0 then Some(Bitmap(w, proportional, b.bytesPerPixel)) else None
    case ClampHeight(h, _, _) => if h > 0 && proportional > 0 then Some(Bitmap(proportional, h, b.bytesPerPixel)) else None
  }

  /**
   * The scaled bitmap with every axis at least one pixel: a scaled axis that truncates
   * to 0 is kept at 1 instead of reaching `createScaledBitmap` as 0.
   */
  function Resized(b: Bitmap, plan: Scaling, proportional: nat): (r: Bitmap)
    requires plan.ClampWidth? ==> plan.newWidth > 0
    requires plan.ClampHeight? ==> plan.newHeight > 0
    ensures r.bytesPerPixel == b.bytesPerPixel
    ensures plan.KeepSize? ==> r == b
    ensures plan.ClampWidth? ==> r.width == plan.newWidth && r.height == Max(proportional, 1)
    ensures plan.ClampHeight? ==> r.height == plan.newHeight && r.width == Max(proportional, 1)
    ensures !plan.KeepSize? ==> r.width > 0 && r.height > 0
    ensures !plan.KeepSize? && proportional > 0 ==> ResizedAsWritten(b, plan, proportional) == Some(r)
  {
    match plan
    case KeepSize => b
    case ClampWidth(w, _, _) => Bitmap(w, Max(proportional, 1), b.bytesPerPixel)
    case ClampHeight(h, _, _) => Bitmap(Max(proportional, 1), h, b.bytesPerPixel)
  }

  /**
   * The truncated scaled axis never exceeds its exact value: `proportional` is at most
   * `other * scaleNum / scaleDen`, where `other` is the axis that is not clamped.
   */
  predicate Truncates(plan: Scaling, b: Bitmap, proportional: nat) {
    match plan
    case KeepSize => true
    case ClampWidth(_, num, den) => proportional * den <= b.height * num
    case ClampHeight(_, num, den) => proportional * den <= b.width * num
  }

  /**
   * As written, a 5000x10 bitmap under bounds 300x300 is clamped to width 300 by either
   * decision; its exact scaled height is 0.6, so the `(int)` cast gives 0 and
   * `createScaledBitmap` throws. The corrected resize keeps the height at one pixel.
   */
  lemma ResizeAsWrittenThrows(bytesPerPixel: nat)
    ensures ScalingAsWritten(5000, 10, 300, 300) == ClampWidth(300, 300, 5000) == ScalingFor(5000, 10, 300, 300)
    ensures forall p: nat | Truncates(ClampWidth(300, 300, 5000), Bitmap(5000, 10, bytesPerPixel), p) :: p == 0
    ensures ResizedAsWritten(Bitmap(5000, 10, bytesPerPixel), ClampWidth(300, 300, 5000), 0).None?
    ensures Resized(Bitmap(5000, 10, bytesPerPixel), ClampWidth(300, 300, 5000), 0) == Bitmap(300, 1, bytesPerPixel)
  {
  }

  /**
   * The image the decode stage produces. `readOk` is false when draining a GIF stream
   * throws; `decoded` is BitmapFactory's result for anything else (None for null or an
   * OutOfMemoryError).
   */
  function DecodedImage(stream: DownloadedStream, maxWidth: int, maxHeight: int,
                        readOk: bool, decoded: Option<Bitmap>, proportional: nat): (r: Option<DownloaderImage>)
    ensures r.Some? ==> r.value.WellFormed()
    ensures stream.mimeType == Some(ImageCaches.MIMETYPE_GIF) ==>
              r == (if readOk then Some(MovieImage(stream.bytes)) else None)
    ensures stream.mimeType != Some(ImageCaches.MIMETYPE_GIF) ==>
              (r.Some? <==> decoded.Some?) &&
              (r.Some? ==> r.value.IsBitmap() && r.value.GetMimeType() == stream.mimeType)
    ensures stream.mimeType != Some(ImageCaches.MIMETYPE_GIF) && decoded.Some? ==>
              var b := decoded.value;
              r.value.bitmap == Some(Resized(b, ScalingFor(b.width, b.height, maxWidth, maxHeight), proportional))
  {
    if stream.mimeType == Some(ImageCaches.MIMETYPE_GIF) then
      if readOk then Some(MovieImage(stream.bytes)) else None
    else if decoded.None? then None
    else
      var b := decoded.value;
      Some(BitmapImage(Some(Resized(b, ScalingFor(b.width, b.height, maxWidth, maxHeight), proportional)), stream.mimeType))
  }

  lemma MulCancel(a: int, b: int, c: int)
    requires a * c <= b * c && c > 0
    ensures a <= b
  {
    if a > b {
      MulStrict(b, a, c);
    }
  }

  /**
   * Under positive bounds, a decoded bitmap comes out of the decode stage unchanged
   * when it already fits; otherwise the clamped axis equals its bound and is smaller
   * than before, and both axes are positive and within their bounds.
   */
  lemma DecodedImageFits(stream: DownloadedStream, maxWidth: int, maxHeight: int,
                         readOk: bool, decoded: Option<Bitmap>, proportional: nat)
    requires stream.mimeType != Some(ImageCaches.MIMETYPE_GIF) && decoded.Some?
    requires decoded.value.width > 0 && decoded.value.height > 0 && maxWidth > 0 && maxHeight > 0
    requires var b := decoded.value; Truncates(ScalingFor(b.width, b.height, maxWidth, maxHeight), b, proportional)
    ensures var r := DecodedImage(stream, maxWidth, maxHeight, readOk, decoded, proportional);
            var b := decoded.value;
            && r.Some? && r.value.IsBitmap()
            && var out := r.value.bitmap.value;
            && out.bytesPerPixel == b.bytesPerPixel
            && (b.width <= maxWidth && b.height <= maxHeight ==> out == b)
            && (!(b.width <= maxWidth && b.height <= maxHeight) ==>
                  && 0 < out.width <= maxWidth && 0 < out.height <= maxHeight
                  && ((out.width == maxWidth < b.width) || (out.height == maxHeight < b.height)))
  {
    var b := decoded.value;
    var p := ScalingFor(b.width, b.height, maxWidth, maxHeight);
    ScalingFits(b.width, b.height, maxWidth, maxHeight);
    if p.ClampWidth? {
      assert proportional * b.width <= b.height * maxWidth <= maxHeight * b.width;
      MulCancel(proportional, maxHeight, b.width);
    } else if p.ClampHeight? {
      assert proportional * b.height <= b.width * maxHeight <= maxWidth * b.height;
      MulCancel(proportional, maxWidth, b.height);
    }
  }

  /** The decode stage: drains a GIF stream with the buffer-copy loop, decodes anything else. */
  method Decode(stream: DownloadedStream, maxWidth: int, maxHeight: int,
                readOk: bool, decoded: Option<Bitmap>, proportional: nat) returns (image: Option<DownloaderImage>)
    ensures image == DecodedImage(stream, maxWidth, maxHeight, readOk, decoded, proportional)
  {
    if stream.mimeType == Some(ImageCaches.MIMETYPE_GIF) {
      if readOk {
        var bytes := Streams.ReadFully(stream.bytes);
        image := Some(MovieImage(bytes));
      } else {
        image := None;
      }
    } else if decoded.Some? {
      var b := decoded.value;
      var plan := ScalingFor(b.width, b.height, maxWidth, maxHeight);
      image := Some(BitmapImage(Some(Resized(b, plan, proportional)), stream.mimeType));
    } else {
      image := None;
    }
  }
}
