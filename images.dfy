/**
 * The value type handed from the decode stage to the caches and to listeners
 * (downloader/DownloaderImage.java): either a decoded bitmap or the raw bytes of
 * an animated (GIF) payload.
 */
module Images {
  import opened Wrappers

  type Byte = x: int | 0 <= x < 256
  type Bytes = seq<Byte>

  /**
   * A decoded Android bitmap, abstracted to its dimensions and pixel size. Rows are
   * taken to be unpadded, so a row is `width * bytesPerPixel` bytes long.
   */
  datatype Bitmap = Bitmap(width: nat, height: nat, bytesPerPixel: nat) {
    function RowBytes(): nat {
      width * bytesPerPixel
    }
  }

  /**
   * A DownloaderImage, tagged by the constructor that built it. The bitmap
   * constructor takes a nullable bitmap (`bitmap == None` models a null argument)
   * and an optional mime type; the byte-array constructor takes the payload.
   */
  datatype DownloaderImage =
    | BitmapImage(bitmap: Option<Bitmap>, mimeType: Option<string>)
    | MovieImage(movie: Bytes)
  {
    /** `isBitmap()`: the bitmap field is non-null. */
    predicate IsBitmap() {
      BitmapImage? && bitmap.Some?
    }

    /** `getBitmap()`: non-null exactly when the image is a bitmap. */
    function GetBitmap(): (r: Option<Bitmap>)
      ensures r.Some? <==> IsBitmap()
    {
      if BitmapImage? then bitmap else None
    }

    /** `getMovieBytes()`: never non-null together with the bitmap. */
    function GetMovieBytes(): (r: Option<Bytes>)
      ensures r.Some? ==> !IsBitmap() && GetBitmap().None?
      ensures r.Some? <==> MovieImage?
    {
      if MovieImage? then Some(movie) else None
    }

    /** `getMimeType()`: only bitmaps carry a declared mime type. */
    function GetMimeType(): Option<string> {
      if BitmapImage? then mimeType else None
    }

    /** Exactly one of the two payloads is present (a bitmap built from null has neither). */
    predicate WellFormed() {
      IsBitmap() || MovieImage?
    }
  }

  /** `new DownloaderImage(bitmap, mimeType)`. */
  function OfBitmap(b: Option<Bitmap>, mime: Option<string>): (r: DownloaderImage)
    ensures r.GetBitmap() == b && r.GetMovieBytes() == None && r.GetMimeType() == mime
    ensures r.IsBitmap() <==> b.Some?
    ensures r.WellFormed() <==> b.Some?
  {
    BitmapImage(b, mime)
  }

  /** `new DownloaderImage(movieBytes)`. */
  function OfMovie(bytes: Bytes): (r: DownloaderImage)
    ensures !r.IsBitmap() && r.GetBitmap() == None && r.GetMovieBytes() == Some(bytes)
    ensures r.WellFormed()
  {
    MovieImage(bytes)
  }
}
