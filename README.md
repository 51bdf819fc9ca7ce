# Shutterbug request coordinator and image cache, in Dafny

This project models the core of Shutterbug, an Android library that fetches remote
images, caches them in memory and on disk, and hands them to listeners.

`ShutterbugManager` is the request coordinator. Every entry point is a method on a
class whose fields are the manager's in-place collections:

- `cacheListeners` / `cacheUrls`: the pending cache lookups, as parallel lists.
- `downloadRequests` / `downloadImageListeners` / `downloaders`: the requests waiting
  for a download, as parallel lists.
- `downloadersMap`: the one downloader registered per URL, which coalesces requests
  for the same URL.
- `failedUrls`: URLs whose downloaded payload could not be decoded.

Listener callbacks (`onImageSuccess`, `onImageFailure`) are appended to a ghost log.
`Valid()` keeps the following invariants:

- The parallel lists stay parallel, and each waiting request lines up with its
  listener and downloader.
- Every waiting entry's downloader is the one registered for its URL.
- Every registered downloader is running, still has a waiter, and was created by this
  manager for its own request.
- The cache's memory holds only images with a payload.

Every method's contract ties the new state to the old one through pure functions in
`Waiting`:

- `Without`: the entries a scan keeps.
- `Paired`: the entries a scan notifies.
- `RemoveAt`: `list.remove(i)`.
- `FirstIndex` / `FirstPairIndex`: `indexOf` and `getListenerIndex`.
- `Live`: the registry after a cancel.

Lemmas state what those functions mean:

- One callback per waiting entry, last registered first.
- No entry is lost.
- Entries of other downloaders are untouched.
- The registry still covers every waiter.

The other parts:

- **`ImageCache`** is a class holding two maps: the memory cache, and the disk cache,
  which is `None` when it failed to open. The model covers:
  - the lookup order of `queryCache`;
  - the two-slot disk record (marker `"1"`/`"0"` plus payload) and reading it back;
  - promotion of disk hits into memory;
  - the memory budget and the `sizeOf` cost;
  - `storeToDisk`, `storeToMemory` and `clear`.
- **`DownloaderImage`** is a datatype with a bitmap variant (nullable bitmap, optional
  mime type) and a raw-bytes variant.
- **`DownloadRequest`** is one datatype. A `CustomCacheKeyDownloadRequest` is the same
  record carrying the object's custom prefix, which replaces the URL in the cache key.
- **The cache key** is modelled as:
  - the pre-image `prefix + "w=" + maxWidth + "&h=" + maxHeight`;
  - Java's decimal rendering of ints;
  - the UTF-8 and UTF-16 lengths;
  - the bytes handed to the digest.

  SHA-1 and its `%x` rendering are a function parameter `digest`.
- **The decode stage** of a downloaded stream covers the GIF branch (the buffer-copy
  loop) and the bitmap branch with its resize decision.

A downloader's completion and the decode task's completion are separate events. Every
waiter that shares a downloader receives the image decoded, sized and keyed for that
downloader's first request.

Fan-out notifies the waiting entries from the last index to the first. A failed
download does not add the URL to `failedUrls`; only a failed decode does.

`DownloaderImage.java` has no two-argument constructor and no `getMimeType()`, but
`ShutterbugManager.java:246` and `ImageCache.java:161` use both. The datatype
therefore carries an optional mime type.

All source paths below are under `Shutterbug/src/com/applidium/shutterbug/`, written
out in full in the table.

## Model

| member | source | states |
|---|---|---|
| Images.DownloaderImage.GetBitmap | Shutterbug/src/com/applidium/shutterbug/downloader/DownloaderImage.java:17-27 | `getBitmap()` is non-null exactly when `isBitmap()` holds |
| Images.DownloaderImage.GetMovieBytes | Shutterbug/src/com/applidium/shutterbug/downloader/DownloaderImage.java:13-23 | movie bytes are present exactly for the byte-array variant, and never together with a bitmap |
| Images.OfBitmap | Shutterbug/src/com/applidium/shutterbug/downloader/DownloaderImage.java:9-11 | the bitmap constructor: `getBitmap()` is the argument, `getMovieBytes()` is null, `isBitmap()` iff the argument is non-null, and the mime type is kept |
| Images.OfMovie | Shutterbug/src/com/applidium/shutterbug/downloader/DownloaderImage.java:13-15 | the byte-array constructor: not a bitmap, `getBitmap()` null, `getMovieBytes()` the given bytes |
| Requests.DownloadRequest.CacheKeyPrefix | Shutterbug/src/com/applidium/shutterbug/utils/DownloadRequest.java:22-24 | the prefix is the URL for a plain request and the custom prefix for a custom-key request |
| Requests.NewDownloadRequest | Shutterbug/src/com/applidium/shutterbug/utils/DownloadRequest.java:11-36 | the getters return the constructor's URL, sizes and listener; the cache-key prefix is the URL |
| Requests.NewCustomRequest | Shutterbug/src/com/applidium/shutterbug/utils/CustomCacheKeyDownloadRequest.java:7-14 | URL from the object, sizes and listener passed through, cache-key prefix the object's custom prefix |
| Requests.CustomDiffersOnlyInPrefix | Shutterbug/src/com/applidium/shutterbug/utils/CustomCacheKeyDownloadRequest.java:12-14 | a custom request and a plain request for the same URL share URL and listener; their prefixes agree iff the custom prefix is the URL |
| Streams.ReadFully | Shutterbug/src/com/applidium/shutterbug/utils/ShutterbugManager.java:211-218 | the 4096-byte read loop collects exactly the bytes of the stream |
| CacheKeys.Decimal | Shutterbug/src/com/applidium/shutterbug/utils/ShutterbugManager.java:108 | the rendering of an int is a non-empty string of digits and minus signs |
| CacheKeys.NatToDecimalRoundTrip | Shutterbug/src/com/applidium/shutterbug/utils/ShutterbugManager.java:108 | parsing the digits of a natural gives it back |
| CacheKeys.DecimalRoundTrip | Shutterbug/src/com/applidium/shutterbug/utils/ShutterbugManager.java:108 | parsing the rendering of any int gives it back |
| CacheKeys.DecimalInjective | Shutterbug/src/com/applidium/shutterbug/utils/ShutterbugManager.java:108 | distinct ints render differently |
| CacheKeys.PreImage | Shutterbug/src/com/applidium/shutterbug/utils/ShutterbugManager.java:108 | the pre-image is the prefix followed by the size suffix, at least 7 characters longer than the prefix |
| CacheKeys.SizeSuffixInjective | Shutterbug/src/com/applidium/shutterbug/utils/ShutterbugManager.java:108 | equal size suffixes have equal widths and heights |
| CacheKeys.PreImageInjective | Shutterbug/src/com/applidium/shutterbug/utils/ShutterbugManager.java:108 | for one prefix, distinct (maxWidth, maxHeight) pairs give distinct pre-images |
| CacheKeys.EncodeChar | Shutterbug/src/com/applidium/shutterbug/utils/ShutterbugManager.java:110 | UTF-8 takes one byte exactly below U+0080 (the character itself) and four exactly from U+10000 |
| CacheKeys.Utf16Length | Shutterbug/src/com/applidium/shutterbug/utils/ShutterbugManager.java:110 | `key.length()` never exceeds the UTF-8 byte count |
| CacheKeys.Utf8Append | Shutterbug/src/com/applidium/shutterbug/utils/ShutterbugManager.java:110 | the encoding of a concatenation is the concatenation of the encodings |
| CacheKeys.Utf16Append | Shutterbug/src/com/applidium/shutterbug/utils/ShutterbugManager.java:110 | the UTF-16 length of a concatenation is the sum of the lengths |
| CacheKeys.AsciiEncoding | Shutterbug/src/com/applidium/shutterbug/utils/ShutterbugManager.java:110 | an ASCII key encodes byte for byte, and its `length()` is its byte count |
| CacheKeys.AsciiInjective | Shutterbug/src/com/applidium/shutterbug/utils/ShutterbugManager.java:110 | ASCII strings with equal encodings are equal |
| CacheKeys.SizeSuffixAscii | Shutterbug/src/com/applidium/shutterbug/utils/ShutterbugManager.java:108 | the size suffix is pure ASCII |
| CacheKeys.HashedBytesAsWritten | Shutterbug/src/com/applidium/shutterbug/utils/ShutterbugManager.java:110 | the digest sees the first `key.length()` bytes of the UTF-8 encoding, which is all of it for an ASCII key |
| CacheKeys.HashedBytes | Shutterbug/src/com/applidium/shutterbug/utils/ShutterbugManager.java:110 | the whole encoding is digested; it agrees with the code on ASCII keys |
| CacheKeys.HashedBytesInjective | Shutterbug/src/com/applidium/shutterbug/utils/ShutterbugManager.java:108-110 | for any prefix, distinct size pairs put distinct bytes in front of the digest |
| CacheKeys.HashedBytesAsWrittenCollide | Shutterbug/src/com/applidium/shutterbug/utils/ShutterbugManager.java:110 | as written, prefix "é" with sizes (0,0) and (0,1) is digested identically |
| CacheKeys.CacheKey | Shutterbug/src/com/applidium/shutterbug/utils/ShutterbugManager.java:106-118 | the key is the digest of the UTF-8 bytes of the request's pre-image |
| CacheKeys.CacheKeyDistinctSizes | Shutterbug/src/com/applidium/shutterbug/utils/ShutterbugManager.java:106-111 | for a collision-free digest, one request prefix and distinct size pairs give distinct keys |
| ImageCaches.JavaInt | Shutterbug/src/com/applidium/shutterbug/cache/ImageCache.java:60 | 32-bit wrap-around: the result is an int, and an int in range is unchanged |
| ImageCaches.MemoryBudget | Shutterbug/src/com/applidium/shutterbug/cache/ImageCache.java:57-60 | for a memory class below 2048 MB the budget is one eighth of it in bytes |
| ImageCaches.MemoryBudgetOverflows | Shutterbug/src/com/applidium/shutterbug/cache/ImageCache.java:60 | at 2048 MB the int product overflows and the budget is negative |
| ImageCaches.SizeOfAsWritten | Shutterbug/src/com/applidium/shutterbug/cache/ImageCache.java:64-73 | `sizeOf` is defined (does not throw) exactly for images with a payload |
| ImageCaches.SizeOf | Shutterbug/src/com/applidium/shutterbug/cache/ImageCache.java:64-73 | the cost is `rowBytes * height` for a bitmap and the byte length for raw bytes |
| ImageCaches.CompressFormatFor | Shutterbug/src/com/applidium/shutterbug/cache/ImageCache.java:161-166 | PNG exactly when the mime type is image/png, JPEG otherwise |
| ImageCaches.EncodeRecord | Shutterbug/src/com/applidium/shutterbug/cache/ImageCache.java:151-169 | marker "1" iff bitmap, "0" otherwise; raw bytes go to slot 1 verbatim, bitmaps compressed in the chosen format; nothing for an image without payload |
| ImageCaches.ReadRecord | Shutterbug/src/com/applidium/shutterbug/cache/ImageCache.java:214-226 | marker "1" reads a bitmap, any other marker raw bytes; a miss exactly when a bitmap payload does not decode |
| ImageCaches.RawRecordRoundTrip | Shutterbug/src/com/applidium/shutterbug/cache/ImageCache.java:214-225 | stored raw bytes read back as the same bytes, still raw |
| ImageCaches.BitmapRecordKeepsKind | Shutterbug/src/com/applidium/shutterbug/cache/ImageCache.java:214-217 | a stored bitmap reads back as a bitmap whenever its payload decodes |
| ImageCaches.UndecodableRecordAsWritten | Shutterbug/src/com/applidium/shutterbug/cache/ImageCache.java:215-217 | as written, an undecodable bitmap record yields an image with no payload, on which `sizeOf` throws |
| ImageCaches.StoreToDiskAsWritten | Shutterbug/src/com/applidium/shutterbug/cache/ImageCache.java:151-180 | as written, `storeToDisk` throws exactly when the disk cache failed to open |
| ImageCaches.ClearAsWritten | Shutterbug/src/com/applidium/shutterbug/cache/ImageCache.java:186-195 | as written, `clear` throws exactly when the disk cache failed to open, and memory is then not evicted |
| ImageCaches.ImageCache.constructor | Shutterbug/src/com/applidium/shutterbug/cache/ImageCache.java:51-77 | empty memory cache with the computed budget; the disk cache as opened |
| ImageCaches.ImageCache.Query | Shutterbug/src/com/applidium/shutterbug/cache/ImageCache.java:97-124 | null key is a miss; a memory hit answers with the cached image and skips the disk; else a disk read iff there is a disk cache, else a miss |
| ImageCaches.ImageCache.ReadFromDisk | Shutterbug/src/com/applidium/shutterbug/cache/ImageCache.java:209-238 | a missing entry or an IOException is a miss; otherwise the record is read as `ReadRecord` says |
| ImageCaches.ImageCache.StoreToMemory | Shutterbug/src/com/applidium/shutterbug/cache/ImageCache.java:182-184 | the image is put under its key and nothing else changes |
| ImageCaches.ImageCache.DiskReadFinished | Shutterbug/src/com/applidium/shutterbug/cache/ImageCache.java:241-248 | a disk hit is put in memory under the same key and reported found; a miss leaves memory unchanged |
| ImageCaches.ImageCache.StoreToDisk | Shutterbug/src/com/applidium/shutterbug/cache/ImageCache.java:151-180 | the encoded record is committed under the key when there is a disk cache, an encodable image and a successful commit; otherwise nothing changes; memory is untouched |
| ImageCaches.ImageCache.Clear | Shutterbug/src/com/applidium/shutterbug/cache/ImageCache.java:186-195 | memory is always evicted; the disk cache is emptied unless the delete throws |
| Decoding.ScalingAsWritten | Shutterbug/src/com/applidium/shutterbug/utils/ShutterbugManager.java:229-242 | resize iff both bounds are non-zero and one is exceeded; the wider axis is clamped to `min(dim, max)` and the other scaled by max/dim |
| Decoding.ScalingFor | Shutterbug/src/com/applidium/shutterbug/utils/ShutterbugManager.java:229-242 | the clamped axis is set to its positive bound and the other axis is scaled by bound/dim of that axis |
| Decoding.ScalingFits | Shutterbug/src/com/applidium/shutterbug/utils/ShutterbugManager.java:229-244 | the size is kept iff it fits; otherwise the clamped axis shrinks to its bound and the other axis, scaled alike, fits its bound |
| Decoding.ScalingAgreesOnSquareBounds | Shutterbug/src/com/applidium/shutterbug/utils/ShutterbugManager.java:236-242 | for square bounds and a non-square image the code's decision and the fitted one coincide |
| Decoding.ResizeExamples | Shutterbug/src/com/applidium/shutterbug/utils/ShutterbugManager.java:229-244 | 1000x500 and 500x1000 under 300x300 clamp the longer axis to 300 |
| Decoding.ResizeAsWrittenEnlarges | Shutterbug/src/com/applidium/shutterbug/utils/ShutterbugManager.java:236-242 | as written, 200x100 under 300x50 keeps width 200 and scales the height up by 300/200 |
| Decoding.ResizedAsWritten | Shutterbug/src/com/applidium/shutterbug/utils/ShutterbugManager.java:236-243 | as written, `createScaledBitmap` yields a bitmap iff the clamped axis and the truncated scaled axis are both positive, and otherwise throws |
| Decoding.Resized | Shutterbug/src/com/applidium/shutterbug/utils/ShutterbugManager.java:236-243 | the scaled bitmap takes the clamped axis from the decision, keeps its pixel size, has both axes positive, agrees with the as-written call whenever that does not throw, and is unchanged when no resize is needed |
| Decoding.ResizeAsWrittenThrows | Shutterbug/src/com/applidium/shutterbug/utils/ShutterbugManager.java:236-243 | as written, 5000x10 under 300x300 clamps the width to 300 and truncates the height to 0, so `createScaledBitmap` throws; the corrected resize gives 300x1 |
| Decoding.DecodedImage | Shutterbug/src/com/applidium/shutterbug/utils/ShutterbugManager.java:202-248 | a GIF gives its raw bytes unless reading throws; anything else gives a bitmap with the stream's mime type iff it decodes, and that bitmap is the decoded one resized by the fitted decision; every image has a payload |
| Decoding.DecodedImageFits | Shutterbug/src/com/applidium/shutterbug/utils/ShutterbugManager.java:229-248 | under positive bounds a decoded bitmap that fits is delivered unchanged; one that does not fit is delivered with the clamped axis at its bound and below its old size, both axes positive and within their bounds |
| Decoding.Decode | Shutterbug/src/com/applidium/shutterbug/utils/ShutterbugManager.java:202-248 | the decode stage computes `DecodedImage`, draining GIF streams with the read loop |
| Waiting.RemoveAt | Shutterbug/src/com/applidium/shutterbug/utils/ShutterbugManager.java:141-142 | `list.remove(i)`: one element fewer, the prefix kept, the suffix shifted, the multiset less that element |
| Waiting.FirstPairIndex | Shutterbug/src/com/applidium/shutterbug/utils/ShutterbugManager.java:120-127 | the first index holding the (listener, url) pair, or -1 exactly when none does |
| Waiting.FirstIndex | Shutterbug/src/com/applidium/shutterbug/utils/ShutterbugManager.java:285 | `indexOf`: the first index holding the value, or -1 exactly when absent |
| Waiting.PairedCount | Shutterbug/src/com/applidium/shutterbug/utils/ShutterbugManager.java:179-188 | a scan reports one entry per occurrence of the downloader, and kept plus reported is everything |
| Waiting.WithoutKeys | Shutterbug/src/com/applidium/shutterbug/utils/ShutterbugManager.java:179-188 | after removal the key is gone and every other key occurs as often as before |
| Waiting.WithoutAbsent | Shutterbug/src/com/applidium/shutterbug/utils/ShutterbugManager.java:285 | once `indexOf` finds nothing, nothing more is removed |
| Waiting.WithoutRemoveAt | Shutterbug/src/com/applidium/shutterbug/utils/ShutterbugManager.java:290-296 | removing one matching entry is a step towards removing all of them |
| Waiting.ScanStep | Shutterbug/src/com/applidium/shutterbug/utils/ShutterbugManager.java:179-188 | one step of the descending scan extends the filtered suffix by one index |
| Waiting.ScanStepReported | Shutterbug/src/com/applidium/shutterbug/utils/ShutterbugManager.java:179-188 | one step of the descending scan notifies entry `i` after the later ones |
| Waiting.WithoutPairedPartition | Shutterbug/src/com/applidium/shutterbug/utils/ShutterbugManager.java:260-273 | every entry is either kept or notified, never both and never lost |
| Waiting.WithoutPointwise | Shutterbug/src/com/applidium/shutterbug/utils/ShutterbugManager.java:293-295 | removing at the same indices from parallel lists keeps their position-by-position relation |
| Waiting.Zip | Shutterbug/src/com/applidium/shutterbug/utils/ShutterbugManager.java:40-41 | two parallel lists read as one list of pairs |
| Waiting.FirstPairIndexZip | Shutterbug/src/com/applidium/shutterbug/utils/ShutterbugManager.java:120-127 | `getListenerIndex` over two lists is `indexOf` over their pairs |
| Waiting.RemoveFirstAppended | Shutterbug/src/com/applidium/shutterbug/utils/ShutterbugManager.java:100-101 | appending a lookup and later removing the first equal one leaves the same lookups |
| Downloaders.Downloader.constructor | Shutterbug/src/com/applidium/shutterbug/downloader/ShutterbugDownloader.java:32-36 | a new downloader holds its URL and request and has not started |
| Downloaders.Downloader.Start | Shutterbug/src/com/applidium/shutterbug/downloader/ShutterbugDownloader.java:54-107 | the fetch task is started |
| Downloaders.Downloader.Cancel | Shutterbug/src/com/applidium/shutterbug/downloader/ShutterbugDownloader.java:109-113 | the task is cancelled iff one was started |
| Managers.Deliver | Shutterbug/src/com/applidium/shutterbug/utils/ShutterbugManager.java:264-269 | one callback per listener, in order, with the URL; success with the image iff there is one |
| Managers.OneDownloaderPerUrl | Shutterbug/src/com/applidium/shutterbug/utils/ShutterbugManager.java:158-165 | waiting entries share a downloader iff they share a URL |
| Managers.ForgetDownloader | Shutterbug/src/com/applidium/shutterbug/utils/ShutterbugManager.java:278 | a finished downloader's URL is unregistered only while that downloader is the registered one |
| Managers.ForgetUrlAsWritten | Shutterbug/src/com/applidium/shutterbug/utils/ShutterbugManager.java:278 | as written the URL is unregistered whoever is registered for it; other URLs stay |
| Managers.StaleFinishAsWritten | Shutterbug/src/com/applidium/shutterbug/utils/ShutterbugManager.java:258-278 | a finished downloader without waiters unregisters the newer downloader for its URL as written, and does not once corrected |
| Managers.FinishListsAsWritten | Shutterbug/src/com/applidium/shutterbug/utils/ShutterbugManager.java:260-273 | as written the fan-out leaves `mDownloadRequests` as it was |
| Managers.FinishListsAsWrittenMisalign | Shutterbug/src/com/applidium/shutterbug/utils/ShutterbugManager.java:260-273 | as written every fan-out that notifies someone leaves `mDownloadRequests` longer than the lists parallel to it |
| Managers.FanOutReachesEveryWaiter | Shutterbug/src/com/applidium/shutterbug/utils/ShutterbugManager.java:260-273 | one callback per waiting entry of the downloader, last registered first; the rest stay; the downloader leaves the list and other downloaders keep their counts |
| Managers.FinishKeepsRegistry | Shutterbug/src/com/applidium/shutterbug/utils/ShutterbugManager.java:258-279 | after a fan-out the lists are aligned, every waiter's downloader is registered and every registered one has a waiter |
| Managers.Live | Shutterbug/src/com/applidium/shutterbug/utils/ShutterbugManager.java:297-301 | the registry keeps exactly the downloaders that still have a waiting entry |
| Managers.LiveAfterRemoval | Shutterbug/src/com/applidium/shutterbug/utils/ShutterbugManager.java:290-302 | removing one entry unregisters its downloader exactly when it was the downloader's last entry |
| Managers.LiveRegistered | Shutterbug/src/com/applidium/shutterbug/utils/ShutterbugManager.java:290-302 | the pruned registry still registers every waiter |
| Managers.DropLookups | Shutterbug/src/com/applidium/shutterbug/utils/ShutterbugManager.java:285-288 | every pending lookup of the listener is removed, the others stay in order |
| Managers.CancelKeepsAlignment | Shutterbug/src/com/applidium/shutterbug/utils/ShutterbugManager.java:290-296 | removing a listener's entries keeps the three waiting lists aligned |
| Managers.DropEntries | Shutterbug/src/com/applidium/shutterbug/utils/ShutterbugManager.java:290-302 | the listener's waiting entries are removed; a downloader is cancelled and unregistered iff no entry references it any more |
| Managers.ScanOut | Shutterbug/src/com/applidium/shutterbug/utils/ShutterbugManager.java:260-273 | the descending scan keeps every other entry in order and notifies the downloader's entries last-registered first |
| Managers.ShutterbugManager.constructor | Shutterbug/src/com/applidium/shutterbug/utils/ShutterbugManager.java:54-57 | all lists, the registry and the blacklist start empty over the shared cache |
| Managers.ShutterbugManager.GetListenerIndex | Shutterbug/src/com/applidium/shutterbug/utils/ShutterbugManager.java:120-127 | the search loop finds the first pending (listener, url) pair, or -1 when there is none |
| Managers.ShutterbugManager.RemoveLookup | Shutterbug/src/com/applidium/shutterbug/utils/ShutterbugManager.java:141-142 | the pending lookup at the index is removed from both lists |
| Managers.ShutterbugManager.OnImageFound | Shutterbug/src/com/applidium/shutterbug/utils/ShutterbugManager.java:129-143 | nothing happens if no pair matches; otherwise one success callback, and only the first matching pair is removed |
| Managers.ShutterbugManager.OnImageNotFound | Shutterbug/src/com/applidium/shutterbug/utils/ShutterbugManager.java:145-169 | nothing happens if no pair matches; otherwise the first matching pair moves to the download lists |
| Managers.ShutterbugManager.Enqueue | Shutterbug/src/com/applidium/shutterbug/utils/ShutterbugManager.java:158-168 | the URL's registered downloader is reused, otherwise a new one is started and registered; one entry is appended to each waiting list |
| Managers.ShutterbugManager.Request | Shutterbug/src/com/applidium/shutterbug/utils/ShutterbugManager.java:100-103 | one (listener, url) lookup is added and the cache is queried under the request's key; hits are delivered, misses enqueued, disk reads left pending |
| Managers.ShutterbugManager.AddLookup | Shutterbug/src/com/applidium/shutterbug/utils/ShutterbugManager.java:100-101 | exactly one (listener, url) pair is appended to the pending lookups |
| Managers.ShutterbugManager.Download | Shutterbug/src/com/applidium/shutterbug/utils/ShutterbugManager.java:95-104 | null URL, null listener or a blacklisted URL changes nothing; otherwise the request is made |
| Managers.ShutterbugManager.DownloadUrl | Shutterbug/src/com/applidium/shutterbug/utils/ShutterbugManager.java:80-82 | as `download` with sizes 0 and 0 |
| Managers.ShutterbugManager.DownloadCustom | Shutterbug/src/com/applidium/shutterbug/utils/ShutterbugManager.java:84-93 | null object, null listener or a blacklisted URL changes nothing; otherwise a custom-key request registered under the object's URL |
| Managers.ShutterbugManager.OnDiskLookupFinished | Shutterbug/src/com/applidium/shutterbug/cache/ImageCache.java:240-248 | a disk hit is promoted into memory and delivered as `onImageFound`; a miss goes through `onImageNotFound` |
| Managers.ShutterbugManager.FinishDownloader | Shutterbug/src/com/applidium/shutterbug/utils/ShutterbugManager.java:258-279 | every entry waiting on the downloader is notified once and removed, and it leaves the registry if still registered |
| Managers.ShutterbugManager.NotifyWaiters | Shutterbug/src/com/applidium/shutterbug/utils/ShutterbugManager.java:260-273 | the three waiting lists lose the downloader's entries, which are notified last-registered first |
| Managers.ShutterbugManager.OnImageDownloadFailure | Shutterbug/src/com/applidium/shutterbug/utils/ShutterbugManager.java:177-190 | one failure callback per waiting entry of the downloader; the URL is not blacklisted |
| Managers.ShutterbugManager.OnDownloaderPostExecute | Shutterbug/src/com/applidium/shutterbug/downloader/ShutterbugDownloader.java:86-97 | a cancelled fetch or a missing stream goes through the failure fan-out; otherwise the stream goes to decoding and nothing changes |
| Managers.ShutterbugManager.DecodeInBackground | Shutterbug/src/com/applidium/shutterbug/utils/ShutterbugManager.java:201-255 | the image is the decode of the stream for the downloader's request and is stored on disk and in memory under that request's key |
| Managers.ShutterbugManager.OnDecodePostExecute | Shutterbug/src/com/applidium/shutterbug/utils/ShutterbugManager.java:257-279 | each waiting entry is notified once, with success iff there is an image; the URL is blacklisted iff there is none |
| Managers.ShutterbugManager.Cancel | Shutterbug/src/com/applidium/shutterbug/utils/ShutterbugManager.java:283-304 | the listener leaves both lookup and waiting lists, others stay in order; a downloader is cancelled and unregistered iff no entry references it; nobody is notified |
| Managers.ShutterbugManager.DropWaiters | Shutterbug/src/com/applidium/shutterbug/utils/ShutterbugManager.java:290-302 | the second loop of `cancel` on the manager's fields, keeping all invariants |

## Left out

- Network I/O is not modelled. A downloader's HTTP fetch is an abstract object with a
  started and a cancelled flag. Its completion is the `OnDownloaderPostExecute` event,
  with the stream as a parameter.
- Threading is not modelled. AsyncTask scheduling and `executeOnExecutor` become
  separate sequential events: `Request` returns a pending `DiskLookup`, which
  `OnDiskLookupFinished` later completes. Interleavings show up only as orders of
  those events.
- Listener callbacks are entries in a ghost log. A listener that calls back into the
  manager during a fan-out is not modelled: the scan runs on copies of the lists.
- LruCache eviction and DiskLruCache journaling, versioning and size limits are not
  part of the shown source. The two caches are plain maps, and no LRU behaviour is
  claimed.
- `storeToDisk(InputStream, String)` is not modelled. The core never calls it, and
  whether its commit succeeds with slot 1 unwritten depends on DiskLruCache, which is
  not part of this model.
- SHA-1 and the signed `%x` rendering of the digest are the `digest` parameter.
  `getCacheKey`'s null return on NoSuchAlgorithm or UnsupportedEncoding cannot happen
  on a Java platform, so it is not modelled.
- `BitmapFactory.decodeStream`, `Bitmap.compress` and `createScaledBitmap` are foreign.
  Their results are parameters.
- The float arithmetic of the proportional axis is not modelled; that value is a
  parameter.
- Decoding.DecodedImageFits: assumes the truncated scaled axis never exceeds its exact
  value (`Truncates`), because the float arithmetic behind it is not modelled.
- `OutOfMemoryError` during decoding, and an IOException while draining a stream, are
  collapsed into the decode outcome or `readOk` parameters.
- `getSharedImageManager`, `setDiskCacheSize`, `getImageCache`, `getSharedImageCache`
  and `getCacheSize` are not modelled. They are singleton plumbing and accessors.
- `openDiskCache` is not modelled. Its cache-directory and version-code lookups are
  Android `Context` calls. Whether the disk cache opened is the constructor's
  `openedDisk`. In `clear`, `deleteOk` is whether `delete()` throws. A failed reopen
  after a successful delete is not modelled: the model treats the disk cache as
  reopened and empty.
- `FetchableImageView.java` is not part of this model. It is UI binding over the
  manager.
- Only the corrected forms of the findings below are wired into the manager and cache
  methods. The code as written is exhibited by the separate as-written members.

## Findings

| source | as written | input that shows it | evidently intended | confidence | as-written member | corrected member |
|---|---|---|---|---|---|---|
| Shutterbug/src/com/applidium/shutterbug/utils/ShutterbugManager.java:260-273 | both fan-out loops remove the notified entry from `mDownloaders` and `mDownloadImageListeners` but never from `mDownloadRequests` | any download that finishes with one waiter: afterwards `mDownloadRequests` has one entry more than the lists it runs parallel to | remove the entry at the same index from all three lists | not executed | Managers.FinishListsAsWrittenMisalign | Managers.ShutterbugManager.NotifyWaiters |
| Shutterbug/src/com/applidium/shutterbug/utils/ShutterbugManager.java:278 | the URL is removed from `mDownloadersMap` whichever downloader is registered for it (likewise at line 189) | `download(u, L1)` misses the caches and starts D1; D1's payload is being decoded; `cancel(L1)` unregisters D1; `download(u, L2)` registers a new D2; D1's decode task completes and unregisters D2; the next `download(u, L3)` starts a second fetch of `u` beside D2 | unregister the URL only while the finished downloader is the registered one | not executed | Managers.StaleFinishAsWritten | Managers.ShutterbugManager.FinishDownloader |
| Shutterbug/src/com/applidium/shutterbug/utils/ShutterbugManager.java:110 | only the first `key.length()` bytes of the UTF-8 encoding are digested, fewer than all of them once the prefix has a non-ASCII character | prefix "é" with sizes (0,0) and (0,1): the last digit of the height is never digested, so both keys are equal | digest the whole encoding | not executed | CacheKeys.HashedBytesAsWrittenCollide | CacheKeys.HashedBytesInjective |
| Shutterbug/src/com/applidium/shutterbug/cache/ImageCache.java:215-217 | a bitmap record whose payload does not decode is returned as `new DownloaderImage(null)` | a disk entry with marker "1" and a corrupt payload: the image has neither payload, and `storeToMemory` then throws in `sizeOf` | report a miss, as for an absent entry | not executed | ImageCaches.UndecodableRecordAsWritten | ImageCaches.ReadRecord |
| Shutterbug/src/com/applidium/shutterbug/cache/ImageCache.java:186-195 | `clear` calls `mDiskCache.delete()` without a null check; the NullPointerException escapes `catch (IOException)` and `evictAll` is skipped | a disk cache that failed to open (`mDiskCache == null`), then `clear()` | degrade to memory-only and still evict memory | not executed | ImageCaches.ClearAsWritten | ImageCaches.ImageCache.Clear |
| Shutterbug/src/com/applidium/shutterbug/cache/ImageCache.java:151-154 | `storeToDisk` calls `mDiskCache.edit` without a null check; the NullPointerException escapes `catch (IOException)` inside the decode task | a disk cache that failed to open, then any successful download | skip the disk store | not executed | ImageCaches.StoreToDiskAsWritten | ImageCaches.ImageCache.StoreToDisk |
| Shutterbug/src/com/applidium/shutterbug/utils/ShutterbugManager.java:236-242 | the clamped axis is the longer one, not the one whose bound binds, and a negative bound passes the `!= 0` guard | a 200x100 bitmap under bounds 300x50 becomes 200x150, three times the height bound | scale by the smaller of the two bound ratios, so the result fits both bounds | not executed | Decoding.ResizeAsWrittenEnlarges | Decoding.ScalingFits |
| Shutterbug/src/com/applidium/shutterbug/utils/ShutterbugManager.java:236-243 | the scaled axis is truncated by an `(int)` cast and passed to `createScaledBitmap`, which throws on a zero dimension; nothing in the decode task catches it | a 5000x10 bitmap under bounds 300x300: width 300, height `(int)(0.06 * 10)` = 0 | keep every axis at least one pixel, so the result is 300x1 | not executed | Decoding.ResizeAsWrittenThrows | Decoding.DecodedImageFits |
