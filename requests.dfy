/**
 * Request records (utils/DownloadRequest.java, utils/CustomCacheKeyDownloadRequest.java)
 * and the custom cache-key object they may be built from (utils/CustomCacheKeyObject.java).
 */
module Requests {
  import opened Wrappers

  /** A ShutterbugManagerListener; listeners are compared by identity, here by `id`. */
  datatype Listener = Listener(id: nat)

  /** A URL paired with the prefix to derive its cache key from. */
  datatype CustomCacheKeyObject = CustomCacheKeyObject(url: string, customCacheKeyPrefix: string)

  /**
   * An immutable request. `customPrefix` is None for a plain DownloadRequest and holds
   * the object's prefix for a CustomCacheKeyDownloadRequest.
   */
  datatype DownloadRequest = DownloadRequest(
    url: string, maxWidth: int, maxHeight: int, listener: Listener, customPrefix: Option<string>)
  {
    /** `getCacheKeyPrefix()`: the URL, unless the subclass overrides it with the custom prefix. */
    function CacheKeyPrefix(): (r: string)
      ensures customPrefix.None? ==> r == url
      ensures customPrefix.Some? ==> r == customPrefix.value
    {
      customPrefix.GetOr(url)
    }
  }

  /** `new DownloadRequest(url, maxWidth, maxHeight, listener)`. */
  function NewDownloadRequest(url: string, maxWidth: int, maxHeight: int, listener: Listener): (r: DownloadRequest)
    ensures r.url == url && r.CacheKeyPrefix() == url
    ensures r.maxWidth == maxWidth && r.maxHeight == maxHeight && r.listener == listener
  {
    DownloadRequest(url, maxWidth, maxHeight, listener, None)
  }

  /** `new CustomCacheKeyDownloadRequest(object, maxWidth, maxHeight, listener)`. */
  function NewCustomRequest(obj: CustomCacheKeyObject, maxWidth: int, maxHeight: int, listener: Listener): (r: DownloadRequest)
    ensures r.url == obj.url && r.CacheKeyPrefix() == obj.customCacheKeyPrefix
    ensures r.maxWidth == maxWidth && r.maxHeight == maxHeight && r.listener == listener
  {
    DownloadRequest(obj.url, maxWidth, maxHeight, listener, Some(obj.customCacheKeyPrefix))
  }

  /**
   * A custom-key request and a plain request for the same URL are bookkept alike
   * (same URL, same listener) but key the caches differently whenever the custom
   * prefix differs from the URL.
   */
  lemma CustomDiffersOnlyInPrefix(obj: CustomCacheKeyObject, w: int, h: int, l: Listener)
    ensures var c := NewCustomRequest(obj, w, h, l);
            var p := NewDownloadRequest(obj.url, w, h, l);
            c.url == p.url && c.listener == p.listener
            && (c.CacheKeyPrefix() == p.CacheKeyPrefix() <==> obj.customCacheKeyPrefix == obj.url)
  {
  }
}
