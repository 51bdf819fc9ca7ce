/**
 * The two-tier cache front end (cache/ImageCache.java). The memory cache
 * (an LruCache) and the disk cache (a DiskLruCache with two values per entry) are
 * modelled as maps; their eviction and journaling are not part of this model.
 */
module ImageCaches {
  import opened Wrappers
  import opened Images
  import Streams

  const MIMETYPE_GIF: string := "image/gif"
  const MIMETYPE_PNG: string := "image/png"
  const MIMETYPE_JPEG: string := "image/jpeg"

  /** Values per disk entry: slot 0 holds the kind marker, slot 1 the payload. */
  const DISK_CACHE_VALUE_COUNT: nat := 2
  const DEFAULT_DISK_CACHE_SIZE: nat := 100 * 1024 * 1024

  const BITMAP_MARKER: string := "1"
  const RAW_MARKER: string := "0"

  /** A committed disk entry: the string in slot 0 and the bytes in slot 1. */
  datatype DiskRecord = DiskRecord(marker: string, payload: Bytes)

  datatype CompressFormat = PNG | JPEG

  /** How `queryCache` answers: synchronously, or by starting a disk read task. */
  datatype QueryOutcome = NotFound | Found(image: DownloaderImage) | DiskReadStarted

  // ---------------------------------------------------------------------------
  // Memory budget and cost (ImageCache.java:57-73)

  /** Java's 32-bit `int` wrap-around. */
  function JavaInt(x: int): (r: int)
    ensures -0x8000_0000 <= r < 0x8000_0000
    ensures -0x8000_0000 <= x < 0x8000_0000 ==> r == x
  {
    (x + 0x8000_0000) % 0x1_0000_0000 - 0x8000_0000
  }

  /** Java's `/` on ints, which truncates toward zero. */
  function JavaDiv(a: int, b: int): int
    requires b > 0
  {
    if a >= 0 then a / b else -((-a) / b)
  }

  /**
   * `1024 * 1024 * memClass / 8` in int arithmetic: one eighth of the application's
   * memory class, in bytes, as long as the product fits in an int.
   */
  function MemoryBudget(memClass: int): (r: int)
    ensures 0 <= memClass < 2048 ==> r == memClass * 1024 * 1024 / 8 && r == memClass * 131072
  {
    JavaDiv(JavaInt(1024 * 1024 * memClass), 8)
  }

  /** The budget overflows to a negative size once the memory class reaches 2048 MB. */
  lemma MemoryBudgetOverflows()
    ensures MemoryBudget(2048) < 0
  {
  }

  /**
   * `sizeOf` as written: a bitmap costs its pixel bytes, anything else the length of
   * its movie bytes; None stands for the NullPointerException thrown for an image
   * with neither payload.
   */
  function SizeOfAsWritten(img: DownloaderImage): (r: Option<nat>)
    ensures r.Some? <==> img.WellFormed()
  {
    if img.IsBitmap() then Some(img.bitmap.value.RowBytes() * img.bitmap.value.height)
    else if img.GetMovieBytes().Some? then Some(|img.GetMovieBytes().value|)
    else None
  }

  /** The memory cost of a well-formed image: pixel footprint, or payload length. */
  function SizeOf(img: DownloaderImage): (r: nat)
    requires img.WellFormed()
    ensures img.IsBitmap() ==> r == img.GetBitmap().value.width * img.GetBitmap().value.bytesPerPixel * img.GetBitmap().value.height
    ensures !img.IsBitmap() ==> r == |img.GetMovieBytes().value|
    ensures SizeOfAsWritten(img) == Some(r)
  {
    SizeOfAsWritten(img).value
  }

  // ---------------------------------------------------------------------------
  // Disk record encoding (storeToDisk, ImageCache.java:151-180) and decoding
  // (BitmapDecoderTask.doInBackground, ImageCache.java:209-238)

  /** PNG when the declared mime type is image/png, JPEG for anything else. */
  function CompressFormatFor(mimeType: Option<string>): (f: CompressFormat)
    ensures f == PNG <==> mimeType == Some(MIMETYPE_PNG)
  {
    if mimeType == Some(MIMETYPE_PNG) then PNG else JPEG
  }

  /**
   * The record `storeToDisk` writes for an image, or None when writing the payload
   * throws (an image built from a null bitmap has no movie bytes to write).
   */
  function EncodeRecord(img: DownloaderImage, compress: (Bitmap, CompressFormat) -> Bytes): (r: Option<DiskRecord>)
    ensures r.Some? <==> img.WellFormed()
    ensures r.Some? ==> (r.value.marker == BITMAP_MARKER <==> img.IsBitmap())
    ensures r.Some? ==> (r.value.marker == RAW_MARKER <==> !img.IsBitmap())
    ensures r.Some? && img.IsBitmap() ==>
              r.value.payload == compress(img.GetBitmap().value, CompressFormatFor(img.GetMimeType()))
    ensures r.Some? && !img.IsBitmap() ==> r.value.payload == img.GetMovieBytes().value
  {
    if img.IsBitmap() then
      Some(DiskRecord(BITMAP_MARKER, compress(img.bitmap.value, CompressFormatFor(img.mimeType))))
    else if img.MovieImage? then Some(DiskRecord(RAW_MARKER, img.movie))
    else None
  }

  /**
   * Reading a record back, as written: marker "1" means a bitmap decoded from the
   * payload (`decoded`, None when BitmapFactory returns null); any other marker means
   * raw bytes.
   */
  function ReadRecordAsWritten(rec: DiskRecord, decoded: Option<Bitmap>): DownloaderImage {
    if rec.marker == BITMAP_MARKER then BitmapImage(decoded, None) else MovieImage(rec.payload)
  }

  /**
   * Reading a record back, with an undecodable bitmap payload reported as a miss
   * instead of as an image holding neither payload.
   */
  function ReadRecord(rec: DiskRecord, decoded: Option<Bitmap>): (r: Option<DownloaderImage>)
    ensures r.Some? ==> r.value.WellFormed()
    ensures r.Some? ==> r == Some(ReadRecordAsWritten(rec, decoded))
    ensures r.None? <==> rec.marker == BITMAP_MARKER && decoded.None?
    ensures r.Some? ==> (r.value.IsBitmap() <==> rec.marker == BITMAP_MARKER)
  {
    if rec.marker == BITMAP_MARKER then
      (if decoded.Some? then Some(BitmapImage(decoded, None)) else None)
    else Some(MovieImage(rec.payload))
  }

  /** Raw bytes survive a store and a read unchanged, and are read back as raw bytes. */
  lemma RawRecordRoundTrip(bytes: Bytes, compress: (Bitmap, CompressFormat) -> Bytes, decoded: Option<Bitmap>)
    ensures EncodeRecord(MovieImage(bytes), compress).Some?
    ensures ReadRecord(EncodeRecord(MovieImage(bytes), compress).value, decoded) == Some(MovieImage(bytes))
  {
  }

  /** A stored bitmap is read back as a bitmap whenever its payload decodes. */
  lemma BitmapRecordKeepsKind(b: Bitmap, mime: Option<string>, compress: (Bitmap, CompressFormat) -> Bytes, decoded: Bitmap)
    ensures var rec := EncodeRecord(BitmapImage(Some(b), mime), compress);
            rec.Some? && ReadRecord(rec.value, Some(decoded)) == Some(BitmapImage(Some(decoded), None))
  {
  }

  /**
   * As written, a bitmap record whose payload does not decode is read back as an image
   * with neither payload, and the memory cache's `sizeOf` then throws on it.
   */
  lemma UndecodableRecordAsWritten(payload: Bytes)
    ensures var img := ReadRecordAsWritten(DiskRecord(BITMAP_MARKER, payload), None);
            !img.WellFormed() && SizeOfAsWritten(img).None?
    ensures ReadRecord(DiskRecord(BITMAP_MARKER, payload), None).None?
  {
  }

  // ---------------------------------------------------------------------------
  // Failure of the disk cache to open (mDiskCache == null)

  datatype StoreOutcome = Stored(record: DiskRecord) | NotStored | Crashed

  /**
   * `storeToDisk` as written, on a disk cache that may be absent: `mDiskCache.edit`
   * on a null cache throws a NullPointerException, which the surrounding
   * `catch (IOException)` does not catch.
   */
  function StoreToDiskAsWritten(disk: Option<map<string, DiskRecord>>, img: DownloaderImage,
                                compress: (Bitmap, CompressFormat) -> Bytes, commitOk: bool): (r: StoreOutcome)
    ensures r.Crashed? <==> disk.None?
  {
    if disk.None? then Crashed
    else
      var rec := EncodeRecord(img, compress);
      if rec.Some? && commitOk then Stored(rec.value) else NotStored
  }

  /**
   * `clear` as written: on a null disk cache `mDiskCache.delete()` throws a
   * NullPointerException past the `catch (IOException)`, so `evictAll` never runs.
   * Returns whether it crashed and the memory map afterwards.
   */
  function ClearAsWritten(memory: map<string, DownloaderImage>, disk: Option<map<string, DiskRecord>>): (r: (bool, map<string, DownloaderImage>))
    ensures r.0 <==> disk.None?
    ensures r.1 == map[] <==> disk.Some? || memory == map[]
  {
    if disk.None? then (true, memory) else (false, map[])
  }

  // ---------------------------------------------------------------------------

  class ImageCache {
    /** Bitmap.compress, a foreign codec. */
    const compress: (Bitmap, CompressFormat) -> Bytes
    /** The LruCache's byte budget. */
    const memoryBudget: int
    /** The memory cache. */
    var memory: map<string, DownloaderImage>
    /** The disk cache; None when it could not be opened (mDiskCache left null). */
    var disk: Option<map<string, DiskRecord>>

    /** Every image held in memory has exactly one payload, so its cost is defined. */
    ghost predicate Valid()
      reads this
    {
      forall k | k in memory :: memory[k].WellFormed()
    }

    /**
     * `new ImageCache(context, diskCacheSize)`: an empty memory cache budgeted from the
     * memory class, and whatever the disk cache held when it was opened.
     */
    constructor (memClass: int, openedDisk: Option<map<string, DiskRecord>>, compress: (Bitmap, CompressFormat) -> Bytes)
      ensures Valid()
      ensures memory == map[] && disk == openedDisk
      ensures memoryBudget == MemoryBudget(memClass) && this.compress == compress
    {
      this.compress := compress;
      memoryBudget := MemoryBudget(memClass);
      memory := map[];
      disk := openedDisk;
    }

    /**
     * `queryCache`: a null key is a miss; a memory hit is answered at once and never
     * consults the disk; otherwise a disk read is started when there is a disk cache,
     * and the answer is a miss when there is none.
     */
    function Query(key: Option<string>): (r: QueryOutcome)
      reads this
      ensures key.None? ==> r == NotFound
      ensures r.Found? <==> key.Some? && key.value in memory
      ensures r.Found? ==> r.image == memory[key.value]
      ensures r.DiskReadStarted? <==> key.Some? && key.value !in memory && disk.Some?
      ensures Valid() && r.Found? ==> r.image.WellFormed()
    {
      if key.None? then NotFound
      else if key.value in memory then Found(memory[key.value])
      else if disk.Some? then DiskReadStarted
      else NotFound
    }

    /**
     * `BitmapDecoderTask.doInBackground`: reads the entry for `key`. `readOk` is false
     * when the disk cache throws an IOException; `decoded` is what BitmapFactory makes
     * of a bitmap payload. Raw payloads are drained with the buffer-copy loop.
     */
    method ReadFromDisk(key: string, readOk: bool, decoded: Option<Bitmap>) returns (result: Option<DownloaderImage>)
      requires disk.Some?
      ensures !readOk || key !in disk.value ==> result.None?
      ensures readOk && key in disk.value ==> result == ReadRecord(disk.value[key], decoded)
      ensures result.Some? ==> result.value.WellFormed()
    {
      if !readOk || key !in disk.value {
        return None;
      }
      var rec := disk.value[key];
      if rec.marker == BITMAP_MARKER {
        result := if decoded.Some? then Some(BitmapImage(decoded, None)) else None;
      } else {
        var bytes := Streams.ReadFully(rec.payload);
        result := Some(MovieImage(bytes));
      }
    }

    /** `storeToMemory`: puts the image under its key. */
    method StoreToMemory(img: DownloaderImage, key: string)
      requires Valid() && img.WellFormed()
      modifies this
      ensures Valid()
      ensures memory == old(memory)[key := img] && disk == old(disk)
    {
      memory := memory[key := img];
    }

    /**
     * `BitmapDecoderTask.onPostExecute`: a disk hit is promoted into memory under the
     * same key before it is reported found; a miss leaves memory alone.
     */
    method DiskReadFinished(key: string, result: Option<DownloaderImage>) returns (found: bool)
      requires Valid() && (result.Some? ==> result.value.WellFormed())
      modifies this
      ensures Valid()
      ensures found == result.Some?
      ensures memory == if found then old(memory)[key := result.value] else old(memory)
      ensures disk == old(disk)
    {
      if result.Some? {
        StoreToMemory(result.value, key);
        found := true;
      } else {
        found := false;
      }
    }

    /**
     * `storeToDisk(DownloaderImage, key)`: writes the marker and the payload and
     * commits. Nothing is stored when the payload cannot be written, the commit fails
     * (`commitOk` false), or there is no disk cache.
     */
    method StoreToDisk(img: DownloaderImage, key: string, commitOk: bool) returns (snapshot: Option<DiskRecord>)
      modifies this
      ensures memory == old(memory)
      ensures var rec := EncodeRecord(img, compress);
              if old(disk).Some? && commitOk && rec.Some? then
                disk == Some(old(disk).value[key := rec.value]) && snapshot == rec
              else
                disk == old(disk) && snapshot == None
    {
      var rec := EncodeRecord(img, compress);
      if disk.Some? && commitOk && rec.Some? {
        disk := Some(disk.value[key := rec.value]);
        snapshot := rec;
      } else {
        snapshot := None;
      }
    }

    /**
     * `clear`: deletes and reopens the disk cache (left as it was when the delete
     * throws, `deleteOk` false) and always evicts every memory entry. The reopen
     * after a successful delete is taken to succeed, leaving an empty disk cache.
     */
    method Clear(deleteOk: bool)
      modifies this
      ensures Valid()
      ensures memory == map[]
      ensures disk == if old(disk).Some? && deleteOk then Some(map[]) else old(disk)
    {
      if disk.Some? && deleteOk {
        disk := Some(map[]);
      }
      memory := map[];
    }
  }
}
