/**
 * The request coordinator (utils/ShutterbugManager.java). Every entry point of the
 * manager is an event method on one object whose lists and registry are updated in
 * place; the callbacks it makes to its listeners are appended to a ghost log.
 *
 * The manager keeps
 *  - cacheListeners/cacheUrls: requests waiting for a cache lookup, as parallel lists;
 *  - downloadRequests/downloadImageListeners/downloaders: requests waiting for a
 *    download, as parallel lists;
 *  - downloadersMap: the one downloader in flight for each URL;
 *  - failedUrls: URLs whose downloaded payload could not be decoded.
 */
module Managers {
  import opened Wrappers
  import opened Images
  import opened Requests
  import opened Waiting
  import opened CacheKeys
  import opened ImageCaches
  import opened Downloaders
  import opened Decoding

  /** A ShutterbugManagerListener callback. */
  datatype Notification =
    | ImageSuccess(listener: Listener, image: DownloaderImage, url: string)
    | ImageFailure(listener: Listener, url: string)

  /** The callback one waiter receives when its download ends with `image` (None for a failure). */
  function Outcome(l: Listener, image: Option<DownloaderImage>, url: string): Notification {
    if image.Some? then ImageSuccess(l, image.value, url) else ImageFailure(l, url)
  }

  /** The callbacks delivered to `ls`, in that order. */
  function Deliver(ls: seq<Listener>, image: Option<DownloaderImage>, url: string): (r: seq<Notification>)
    ensures |r| == |ls|
    ensures forall j :: 0 <= j < |r| ==> r[j].listener == ls[j] && r[j].url == url
    ensures forall j :: 0 <= j < |r| ==> (r[j].ImageSuccess? <==> image.Some?)
    ensures forall j :: 0 <= j < |r| && r[j].ImageSuccess? ==> r[j].image == image.value
  {
    seq(|ls|, j requires 0 <= j < |ls| => Outcome(ls[j], image, url))
  }

  lemma DeliverAppend(ls: seq<Listener>, l: Listener, image: Option<DownloaderImage>, url: string)
    ensures Deliver(ls + [l], image, url) == Deliver(ls, image, url) + [Outcome(l, image, url)]
  {
  }

  /** A disk lookup in flight (a BitmapDecoderTask): the key it reads and the request it answers. */
  datatype DiskLookup = DiskLookup(key: string, request: DownloadRequest)

  // ---------------------------------------------------------------------------
  // The downloader registry

  /** Every waiting entry's downloader is the one registered for its URL. */
  ghost predicate Registered(m: map<string, Downloader>, ds: seq<Downloader>) {
    forall i | 0 <= i < |ds| :: ds[i].url in m && m[ds[i].url] == ds[i]
  }

  /** The registry keeps one downloader per URL, so waiters on the same URL share it. */
  lemma OneDownloaderPerUrl(m: map<string, Downloader>, ds: seq<Downloader>, i: nat, j: nat)
    requires Registered(m, ds) && i < |ds| && j < |ds|
    ensures ds[i].url == ds[j].url <==> ds[i] == ds[j]
  {
  }

  /**
   * How a finished downloader leaves the registry: its URL is unregistered only while
   * it is still the downloader registered for that URL.
   */
  function ForgetDownloader(m: map<string, Downloader>, d: Downloader): (r: map<string, Downloader>)
    ensures forall u :: u in r <==> u in m && !(u == d.url && m[u] == d)
    ensures forall u | u in r :: r[u] == m[u]
  {
    if d.url in m && m[d.url] == d then m - {d.url} else m
  }

  /** As written: the URL is unregistered whichever downloader is registered for it. */
  function ForgetUrlAsWritten(m: map<string, Downloader>, url: string): (r: map<string, Downloader>)
    ensures url !in r
    ensures forall u | u in r :: u in m && r[u] == m[u]
    ensures forall u | u in m && u != url :: u in r
  {
    m - {url}
  }

  /**
   * A finished downloader that no entry waits on any more (one whose last waiter
   * cancelled) may report after a new downloader was registered for its URL. As
   * written this unregisters the new downloader, whose waiters are then unknown to
   * the registry and the next request for the URL starts a second download; forgetting
   * only the finished downloader keeps every waiter registered.
   */
  lemma StaleFinishAsWritten(m: map<string, Downloader>, ds: seq<Downloader>, stale: Downloader, current: Downloader)
    requires Registered(m, ds) && current in ds && stale !in ds && stale.url == current.url
    ensures !Registered(ForgetUrlAsWritten(m, stale.url), ds)
    ensures Registered(ForgetDownloader(m, stale), ds)
  {
    var i :| 0 <= i < |ds| && ds[i] == current;
    assert ds[i].url !in ForgetUrlAsWritten(m, stale.url);
  }

  /**
   * The waiting lists after a fan-out as written: the downloader's entries leave
   * mDownloaders and mDownloadImageListeners but never mDownloadRequests.
   */
  function FinishListsAsWritten(ds: seq<Downloader>, ls: seq<Listener>, rs: seq<DownloadRequest>, d: Downloader)
    : (r: (seq<Downloader>, seq<Listener>, seq<DownloadRequest>))
    requires |ds| == |ls|
    ensures r.2 == rs
  {
    (Without(ds, ds, d), Without(ds, ls, d), rs)
  }

  /**
   * As written, every fan-out that notifies someone leaves mDownloadRequests longer
   * than the lists it is meant to run parallel to.
   */
  lemma FinishListsAsWrittenMisalign(ds: seq<Downloader>, ls: seq<Listener>, rs: seq<DownloadRequest>, d: Downloader)
    requires |ds| == |ls| == |rs| && d in ds
    ensures var r := FinishListsAsWritten(ds, ls, rs, d);
            |r.0| == |r.1| < |r.2|
  {
    PairedCount(ds, ds, d);
    PairedCount(ds, ls, d);
  }

  /**
   * What a fan-out delivers: one callback per entry waiting on `d`, last registered
   * first; every other entry stays, with every other downloader as often as before.
   */
  lemma {:induction false} FanOutReachesEveryWaiter(ds: seq<Downloader>, ls: seq<Listener>, d: Downloader,
                                 image: Option<DownloaderImage>, url: string)
    requires |ds| == |ls|
    ensures var sent := Deliver(Reverse(Paired(ds, ls, d)), image, url);
            && |sent| == multiset(ds)[d]
            && (forall j :: 0 <= j < |sent| ==> sent[j].listener == Paired(ds, ls, d)[|sent| - 1 - j])
            && multiset(Reverse(Paired(ds, ls, d))) + multiset(Without(ds, ls, d)) == multiset(ls)
    ensures d !in Without(ds, ds, d)
    ensures forall x | x != d :: multiset(Without(ds, ds, d))[x] == multiset(ds)[x]
  {
    var p := Paired(ds, ls, d);
    PairedCount(ds, ls, d);
    ReverseMultiset(p);
    WithoutPairedPartition(ds, ls, d);
    WithoutKeys(ds, d);
    var sent := Deliver(Reverse(p), image, url);
    forall j | 0 <= j < |sent|
      ensures sent[j].listener == p[|sent| - 1 - j]
    {
      ReverseAt(p, j);
    }
  }

  /** The lists and registry a fan-out leaves still fit together. */
  lemma {:induction false} FinishKeepsRegistry(ds0: seq<Downloader>, ls0: seq<Listener>, rs0: seq<DownloadRequest>,
                            m0: map<string, Downloader>, d: Downloader)
    requires |ds0| == |ls0| == |rs0|
    requires forall i | 0 <= i < |ds0| :: rs0[i].url == ds0[i].url && rs0[i].listener == ls0[i]
    requires Registered(m0, ds0)
    requires forall u | u in m0 :: m0[u].url == u && m0[u] in ds0
    ensures var ds, ls, rs := Without(ds0, ds0, d), Without(ds0, ls0, d), Without(ds0, rs0, d);
            && |rs| == |ls| == |ds|
            && (forall i | 0 <= i < |ds| :: rs[i].url == ds[i].url && rs[i].listener == ls[i])
            && Registered(ForgetDownloader(m0, d), ds)
            && (forall u | u in ForgetDownloader(m0, d) :: ForgetDownloader(m0, d)[u] in ds)
  {
    var ds := Without(ds0, ds0, d);
    var m := ForgetDownloader(m0, d);
    WithoutPointwise(ds0, rs0, ds0, d, (r: DownloadRequest, x: Downloader) => r.url == x.url);
    WithoutPointwise(ds0, rs0, ls0, d, (r: DownloadRequest, l: Listener) => r.listener == l);
    WithoutKeys(ds0, d);
    WithoutSubset(ds0, ds0, d);
    forall i | 0 <= i < |ds|
      ensures ds[i].url in m && m[ds[i].url] == ds[i]
    {
      assert ds[i] in multiset(ds0);
    }
    forall u | u in m
      ensures m[u] in ds
    {
      assert multiset(ds)[m[u]] == multiset(ds0)[m[u]];
    }
  }

  /** The registry restricted to the downloaders that still have a waiter in `ds`. */
  function Live(m0: map<string, Downloader>, ds: seq<Downloader>): (r: map<string, Downloader>)
    ensures forall u :: u in r <==> u in m0 && m0[u] in ds
    ensures forall u | u in r :: r[u] == m0[u]
  {
    map u | u in m0 && m0[u] in ds :: m0[u]
  }

  /**
   * Removing one waiting entry unregisters its downloader exactly when that was its
   * last entry.
   */
  lemma LiveAfterRemoval(m0: map<string, Downloader>, ds: seq<Downloader>, i: nat)
    requires i < |ds| && Registered(m0, ds)
    requires forall u | u in m0 :: m0[u].url == u
    ensures var x, rest := ds[i], RemoveAt(ds, i);
            Live(m0, rest) == if x in rest then Live(m0, ds) else Live(m0, ds) - {x.url}
  {
    var x, rest := ds[i], RemoveAt(ds, i);
    assert forall y :: y in rest <==> y in multiset(rest);
    assert forall y | y != x :: y in rest <==> y in ds;
    assert x.url in m0 && m0[x.url] == x;
  }

  /** The registry restricted to live downloaders still registers every waiter. */
  lemma LiveRegistered(m0: map<string, Downloader>, ds: seq<Downloader>)
    requires Registered(m0, ds)
    ensures Registered(Live(m0, ds), ds)
  {
  }

  /**
   * The first loop of `cancel`: while the listener has a pending lookup, the first
   * one is removed. Returns the lookups of every other listener, in order.
   */
  method DropLookups(ls0: seq<Listener>, us0: seq<string>, l: Listener) returns (ls: seq<Listener>, us: seq<string>)
    requires |ls0| == |us0|
    ensures |ls| == |us|
    ensures ls == Without(ls0, ls0, l) && us == Without(ls0, us0, l)
    ensures l !in ls
  {
    ls, us := ls0, us0;
    var index := FirstIndex(ls, l);
    while index != -1
      invariant |ls| == |us|
      invariant index == FirstIndex(ls, l)
      invariant Without(ls, ls, l) == Without(ls0, ls0, l)
      invariant Without(ls, us, l) == Without(ls0, us0, l)
      decreases |ls|
    {
      WithoutRemoveAt(ls, ls, l, index);
      WithoutRemoveAt(ls, us, l, index);
      ls, us := RemoveAt(ls, index), RemoveAt(us, index);
      index := FirstIndex(ls, l);
    }
    WithoutAbsent(ls, ls, l);
    WithoutAbsent(ls, us, l);
  }

  /** Removing one listener's entries keeps the waiting lists aligned. */
  lemma CancelKeepsAlignment(ls0: seq<Listener>, ds0: seq<Downloader>, rs0: seq<DownloadRequest>, l: Listener)
    requires |ls0| == |ds0| == |rs0|
    requires forall i | 0 <= i < |ds0| :: rs0[i].url == ds0[i].url && rs0[i].listener == ls0[i]
    ensures var ls, ds, rs := Without(ls0, ls0, l), Without(ls0, ds0, l), Without(ls0, rs0, l);
            |ls| == |ds| == |rs| && forall i | 0 <= i < |ds| :: rs[i].url == ds[i].url && rs[i].listener == ls[i]
  {
    WithoutPointwise(ls0, rs0, ds0, l, (r: DownloadRequest, x: Downloader) => r.url == x.url);
    WithoutPointwise(ls0, rs0, ls0, l, (r: DownloadRequest, x: Listener) => r.listener == x);
  }

  /**
   * The second loop of `cancel`, over the waiting lists and the registry: while the
   * listener has a waiting entry, the first one is removed from the three lists, and
   * its downloader is cancelled and unregistered once no entry references it.
   */
  method DropEntries(ls0: seq<Listener>, ds0: seq<Downloader>, rs0: seq<DownloadRequest>,
                     m0: map<string, Downloader>, l: Listener)
    returns (ls: seq<Listener>, ds: seq<Downloader>, rs: seq<DownloadRequest>, m: map<string, Downloader>)
    requires |ls0| == |ds0| == |rs0| && Registered(m0, ds0)
    requires forall u | u in m0 :: m0[u].url == u && m0[u] in ds0 && m0[u].started && !m0[u].cancelled
    modifies m0.Values
    ensures ls == Without(ls0, ls0, l) && ds == Without(ls0, ds0, l) && rs == Without(ls0, rs0, l)
    ensures l !in ls
    ensures m == Live(m0, ds) && Registered(m, ds)
    ensures forall x | x in m0.Values :: x.started && x.cancelled == (x !in ds)
  {
    ls, ds, rs, m := ls0, ds0, rs0, m0;
    var index := FirstIndex(ls, l);
    while index != -1
      invariant |ls| == |ds| == |rs|
      invariant index == FirstIndex(ls, l)
      invariant Without(ls, ls, l) == Without(ls0, ls0, l)
      invariant Without(ls, ds, l) == Without(ls0, ds0, l)
      invariant Without(ls, rs, l) == Without(ls0, rs0, l)
      invariant Registered(m0, ds) && m == Live(m0, ds)
      invariant forall x | x in m0.Values :: x.started && x.cancelled == (x !in ds)
      decreases |ls|
    {
      var downloader := ds[index];
      WithoutRemoveAt(ls, ls, l, index);
      WithoutRemoveAt(ls, ds, l, index);
      WithoutRemoveAt(ls, rs, l, index);
      LiveAfterRemoval(m0, ds, index);
      ls, ds, rs := RemoveAt(ls, index), RemoveAt(ds, index), RemoveAt(rs, index);
      if downloader !in ds {
        downloader.Cancel();
        m := m - {downloader.url};
      }
      index := FirstIndex(ls, l);
    }
    WithoutAbsent(ls, ls, l);
    WithoutAbsent(ls, ds, l);
    WithoutAbsent(ls, rs, l);
    LiveRegistered(m0, ds);
  }

  class ShutterbugManager {
    /** The shared image cache. */
    const cache: ImageCache
    /** SHA-1 of the hashed bytes rendered with `%x`, a foreign computation. */
    const digest: Bytes -> string

    var failedUrls: seq<string>
    var cacheListeners: seq<Listener>
    var cacheUrls: seq<string>
    var downloadersMap: map<string, Downloader>
    var downloadRequests: seq<DownloadRequest>
    var downloadImageListeners: seq<Listener>
    var downloaders: seq<Downloader>

    /** Every downloader this manager created. */
    ghost var spawned: set<Downloader>
    /** Every listener callback made so far, in order. */
    ghost var log: seq<Notification>

    /**
     * The parallel lists stay parallel and aligned; each registered downloader is
     * running, was created here for its own URL and still has a waiter; every waiter's
     * downloader is the registered one; every image delivered has a payload.
     */
    ghost predicate Valid()
      reads this, cache, downloadersMap.Values
    {
      && |cacheListeners| == |cacheUrls|
      && |downloadRequests| == |downloadImageListeners| == |downloaders|
      && (forall i | 0 <= i < |downloaders| ::
            downloadRequests[i].url == downloaders[i].url && downloadRequests[i].listener == downloadImageListeners[i])
      && (forall u | u in downloadersMap ::
            && downloadersMap[u].url == u && downloadersMap[u] in spawned && downloadersMap[u] in downloaders
            && downloadersMap[u].started && !downloadersMap[u].cancelled)
      && Registered(downloadersMap, downloaders)
      && (forall x | x in spawned :: x.url == x.request.url)
      && cache.Valid()
      && (forall n | n in log && n.ImageSuccess? :: n.image.WellFormed())
    }

    /** The pending cache lookups as (listener, url) pairs. */
    ghost function Lookups(): seq<(Listener, string)>
      reads this
      requires |cacheListeners| == |cacheUrls|
    {
      Zip(cacheListeners, cacheUrls)
    }

    twostate predicate DownloadsUnchanged()
      reads this
    {
      && downloadersMap == old(downloadersMap) && downloadRequests == old(downloadRequests)
      && downloadImageListeners == old(downloadImageListeners) && downloaders == old(downloaders)
      && spawned == old(spawned)
    }

    twostate predicate LookupsUnchanged()
      reads this
    {
      cacheListeners == old(cacheListeners) && cacheUrls == old(cacheUrls)
    }

    /**
     * `request` joined the waiting-download lists; its downloader is the one already
     * registered for the URL, or else a new one started for it and registered.
     */
    twostate predicate Enqueued(request: DownloadRequest)
      reads this
    {
      && downloadRequests == old(downloadRequests) + [request]
      && downloadImageListeners == old(downloadImageListeners) + [request.listener]
      && |downloaders| == |old(downloaders)| + 1
      && downloaders[..|old(downloaders)|] == old(downloaders)
      && var shared := downloaders[|old(downloaders)|];
         if request.url in old(downloadersMap) then
           shared == old(downloadersMap)[request.url] && downloadersMap == old(downloadersMap) && spawned == old(spawned)
         else
           && fresh(shared) && shared.url == request.url && shared.request == request
           && downloadersMap == old(downloadersMap)[request.url := shared] && spawned == old(spawned) + {shared}
    }

    /**
     * The first pending lookup for the request's (listener, url) pair, if any, is
     * answered with `image`; when there is none (the request was cancelled) nothing
     * happens.
     */
    twostate predicate HitDelivered(request: DownloadRequest, image: DownloaderImage)
      reads this
    {
      && old(|cacheListeners| == |cacheUrls|) && |cacheListeners| == |cacheUrls|
      && DownloadsUnchanged() && failedUrls == old(failedUrls)
      && var pair := (request.listener, request.url);
         if pair in old(Lookups()) then
           && Lookups() == RemoveAt(old(Lookups()), old(FirstIndex(Lookups(), pair)))
           && log == old(log) + [ImageSuccess(request.listener, image, request.url)]
         else
           LookupsUnchanged() && log == old(log)
    }

    /**
     * The first pending lookup for the request's (listener, url) pair, if any, moves
     * to the waiting-download lists; when there is none nothing happens.
     */
    twostate predicate MissHandled(request: DownloadRequest)
      reads this
    {
      && old(|cacheListeners| == |cacheUrls|) && |cacheListeners| == |cacheUrls|
      && failedUrls == old(failedUrls) && log == old(log)
      && var pair := (request.listener, request.url);
         if pair in old(Lookups()) then
           Lookups() == RemoveAt(old(Lookups()), old(FirstIndex(Lookups(), pair))) && Enqueued(request)
         else
           LookupsUnchanged() && DownloadsUnchanged()
    }

    /**
     * An accepted request: one (listener, url) lookup is registered and the cache is
     * queried under the request's key. A memory hit answers it at once, a miss moves it
     * to the download lists at once, and a disk read leaves it pending.
     */
    twostate predicate Requested(request: DownloadRequest, new lookup: Option<DiskLookup>)
      reads this, cache
    {
      && old(|cacheListeners| == |cacheUrls|) && |cacheListeners| == |cacheUrls|
      && failedUrls == old(failedUrls)
      && var key := CacheKey(request, request.maxWidth, request.maxHeight, digest);
         var pair := (request.listener, request.url);
         match old(cache.Query(Some(key)))
         case Found(image) =>
           && lookup.None? && multiset(Lookups()) == multiset(old(Lookups()))
           && log == old(log) + [ImageSuccess(request.listener, image, request.url)]
           && DownloadsUnchanged()
         case NotFound =>
           && lookup.None? && multiset(Lookups()) == multiset(old(Lookups()))
           && log == old(log) && Enqueued(request)
         case DiskReadStarted =>
           && lookup == Some(DiskLookup(key, request)) && Lookups() == old(Lookups()) + [pair]
           && log == old(log) && DownloadsUnchanged()
    }

    /**
     * A downloader's entries are all notified and removed, last registered first; the
     * entries of every other downloader stay in order; the downloader leaves the
     * registry if it is still the one registered for its URL.
     */
    twostate predicate Finished(d: Downloader, image: Option<DownloaderImage>)
      reads this
    {
      && old(|downloaders| == |downloadImageListeners| == |downloadRequests|)
      && downloaders == Without(old(downloaders), old(downloaders), d)
      && downloadImageListeners == Without(old(downloaders), old(downloadImageListeners), d)
      && downloadRequests == Without(old(downloaders), old(downloadRequests), d)
      && log == old(log) + Deliver(Reverse(Paired(old(downloaders), old(downloadImageListeners), d)), image, d.url)
      && downloadersMap == ForgetDownloader(old(downloadersMap), d)
      && LookupsUnchanged() && spawned == old(spawned)
    }

    /** `new ShutterbugManager(context)`: empty bookkeeping over the shared cache. */
    constructor (cache: ImageCache, digest: Bytes -> string)
      requires cache.Valid()
      ensures Valid() && this.cache == cache && this.digest == digest
      ensures failedUrls == [] && cacheListeners == [] && cacheUrls == [] && downloadersMap == map[]
      ensures downloadRequests == [] && downloadImageListeners == [] && downloaders == []
      ensures log == []
    {
      this.cache := cache;
      this.digest := digest;
      failedUrls := [];
      cacheListeners := [];
      cacheUrls := [];
      downloadersMap := map[];
      downloadRequests := [];
      downloadImageListeners := [];
      downloaders := [];
      spawned := {};
      log := [];
    }

    /** `getListenerIndex`: the first pending lookup of `listener` for `url`, or -1. */
    method GetListenerIndex(listener: Listener, url: string) returns (index: int)
      requires |cacheListeners| == |cacheUrls|
      ensures index == FirstPairIndex(cacheListeners, cacheUrls, listener, url)
      ensures index >= 0 <==> (listener, url) in Lookups()
    {
      FirstPairIndexZip(cacheListeners, cacheUrls, listener, url);
      index := 0;
      while index < |cacheListeners|
        invariant 0 <= index <= |cacheListeners|
        invariant forall j :: 0 <= j < index ==> !(cacheListeners[j] == listener && cacheUrls[j] == url)
      {
        if cacheListeners[index] == listener && cacheUrls[index] == url {
          return;
        }
        index := index + 1;
      }
      index := -1;
    }

    /** Removes the pending lookup at `index`. */
    method RemoveLookup(index: int)
      requires Valid() && 0 <= index < |cacheListeners|
      modifies this
      ensures Valid()
      ensures |cacheListeners| == |cacheUrls|
      ensures Lookups() == RemoveAt(old(Lookups()), index)
      ensures DownloadsUnchanged() && failedUrls == old(failedUrls) && log == old(log)
    {
      ZipRemoveAt(cacheListeners, cacheUrls, index);
      cacheListeners := RemoveAt(cacheListeners, index);
      cacheUrls := RemoveAt(cacheUrls, index);
    }

    /** `onImageFound`: answers the first pending lookup of the request's listener and URL. */
    method OnImageFound(image: DownloaderImage, request: DownloadRequest)
      requires Valid() && image.WellFormed()
      modifies this
      ensures Valid()
      ensures HitDelivered(request, image)
    {
      var index := GetListenerIndex(request.listener, request.url);
      FirstPairIndexZip(cacheListeners, cacheUrls, request.listener, request.url);
      if index == -1 {
        return;
      }
      log := log + [ImageSuccess(request.listener, image, request.url)];
      RemoveLookup(index);
    }

    /**
     * `onImageNotFound`: moves the first pending lookup of the request's listener and
     * URL to the download lists, sharing the URL's downloader or starting one.
     */
    method OnImageNotFound(request: DownloadRequest)
      requires Valid()
      modifies this
      ensures Valid()
      ensures MissHandled(request)
    {
      var index := GetListenerIndex(request.listener, request.url);
      FirstPairIndexZip(cacheListeners, cacheUrls, request.listener, request.url);
      if index == -1 {
        return;
      }
      RemoveLookup(index);
      Enqueue(request);
    }

    /**
     * The tail of `onImageNotFound`: the request joins the download lists, sharing its
     * URL's downloader or starting and registering a new one.
     */
    method Enqueue(request: DownloadRequest)
      requires Valid()
      modifies this
      ensures Valid()
      ensures Enqueued(request) && LookupsUnchanged() && failedUrls == old(failedUrls) && log == old(log)
    {
      var downloader: Downloader;
      if request.url in downloadersMap {
        downloader := downloadersMap[request.url];
      } else {
        downloader := new Downloader(request.url, request);
        downloader.Start();
        downloadersMap := downloadersMap[request.url := downloader];
        spawned := spawned + {downloader};
      }
      downloadRequests := downloadRequests + [request];
      downloadImageListeners := downloadImageListeners + [request.listener];
      downloaders := downloaders + [downloader];
    }

    /** The body shared by both `download` variants once the request is accepted. */
    method Request(request: DownloadRequest) returns (lookup: Option<DiskLookup>)
      requires Valid()
      modifies this
      ensures Valid()
      ensures Requested(request, lookup)
    {
      ghost var before := Lookups();
      var pair := (request.listener, request.url);
      AddLookup(request);
      RemoveFirstAppended(before, pair);
      var key := CacheKey(request, request.maxWidth, request.maxHeight, digest);
      match cache.Query(Some(key))
      case Found(image) =>
        OnImageFound(image, request);
        lookup := None;
      case NotFound =>
        OnImageNotFound(request);
        lookup := None;
      case DiskReadStarted =>
        lookup := Some(DiskLookup(key, request));
    }

    /** Registers a pending lookup for the request's listener and URL. */
    method AddLookup(request: DownloadRequest)
      requires Valid()
      modifies this
      ensures Valid()
      ensures Lookups() == old(Lookups()) + [(request.listener, request.url)]
      ensures DownloadsUnchanged() && failedUrls == old(failedUrls) && log == old(log)
    {
      ZipAppend(cacheListeners, cacheUrls, request.listener, request.url);
      cacheListeners := cacheListeners + [request.listener];
      cacheUrls := cacheUrls + [request.url];
    }

    /**
     * `download(url, maxWidth, maxHeight, listener)`: a null URL or listener, or a URL
     * that failed to decode before, is ignored.
     */
    method Download(url: Option<string>, maxWidth: int, maxHeight: int, listener: Option<Listener>)
      returns (lookup: Option<DiskLookup>)
      requires Valid()
      modifies this
      ensures Valid()
      ensures url.None? || listener.None? || url.value in old(failedUrls) ==> lookup.None? && unchanged(this)
      ensures url.Some? && listener.Some? && url.value !in old(failedUrls) ==>
                Requested(NewDownloadRequest(url.value, maxWidth, maxHeight, listener.value), lookup)
    {
      if url.None? || listener.None? || url.value in failedUrls {
        return None;
      }
      lookup := Request(NewDownloadRequest(url.value, maxWidth, maxHeight, listener.value));
    }

    /** `download(url, listener)`: no size constraint. */
    method DownloadUrl(url: Option<string>, listener: Option<Listener>) returns (lookup: Option<DiskLookup>)
      requires Valid()
      modifies this
      ensures Valid()
      ensures url.None? || listener.None? || url.value in old(failedUrls) ==> lookup.None? && unchanged(this)
      ensures url.Some? && listener.Some? && url.value !in old(failedUrls) ==>
                Requested(NewDownloadRequest(url.value, 0, 0, listener.value), lookup)
    {
      lookup := Download(url, 0, 0, listener);
    }

    /**
     * `download(object, maxWidth, maxHeight, listener)`: bookkept under the object's
     * URL, cached under its custom prefix.
     */
    method DownloadCustom(obj: Option<CustomCacheKeyObject>, maxWidth: int, maxHeight: int, listener: Option<Listener>)
      returns (lookup: Option<DiskLookup>)
      requires Valid()
      modifies this
      ensures Valid()
      ensures obj.None? || listener.None? || obj.value.url in old(failedUrls) ==> lookup.None? && unchanged(this)
      ensures obj.Some? && listener.Some? && obj.value.url !in old(failedUrls) ==>
                Requested(NewCustomRequest(obj.value, maxWidth, maxHeight, listener.value), lookup)
    {
      if obj.None? || listener.None? || obj.value.url in failedUrls {
        return None;
      }
      lookup := Request(NewCustomRequest(obj.value, maxWidth, maxHeight, listener.value));
    }

    /**
     * The disk lookup answers: the read result is promoted into memory under the key
     * when there is one and reported found, and reported not found otherwise.
     */
    method OnDiskLookupFinished(lookup: DiskLookup, readOk: bool, decoded: Option<Bitmap>)
      requires Valid() && cache.disk.Some?
      modifies this, cache
      ensures Valid()
      ensures var result := if readOk && lookup.key in old(cache.disk.value)
                            then ReadRecord(old(cache.disk.value)[lookup.key], decoded) else None;
              && cache.disk == old(cache.disk)
              && cache.memory == (if result.Some? then old(cache.memory)[lookup.key := result.value] else old(cache.memory))
              && (if result.Some? then HitDelivered(lookup.request, result.value) else MissHandled(lookup.request))
    {
      var result := cache.ReadFromDisk(lookup.key, readOk, decoded);
      var found := cache.DiskReadFinished(lookup.key, result);
      if found {
        OnImageFound(result.value, lookup.request);
      } else {
        OnImageNotFound(lookup.request);
      }
    }

    /**
     * The fan-out shared by `onImageDownloadFailure` and the decode task's
     * `onPostExecute`: every entry waiting on `d` is notified and removed, then `d`
     * leaves the registry.
     */
    method FinishDownloader(d: Downloader, image: Option<DownloaderImage>)
      requires Valid() && d in spawned && (image.Some? ==> image.value.WellFormed())
      modifies this
      ensures Valid()
      ensures Finished(d, image) && failedUrls == old(failedUrls)
    {
      ghost var ds0, ls0, rs0 := downloaders, downloadImageListeners, downloadRequests;
      NotifyWaiters(d, image);
      downloadersMap := ForgetDownloader(downloadersMap, d);
      FinishKeepsRegistry(ds0, ls0, rs0, old(downloadersMap), d);
    }

    /**
     * The descending scan of both fan-out loops: from the last entry to the first, each
     * entry waiting on `d` is notified and removed at its index.
     */
    method NotifyWaiters(d: Downloader, image: Option<DownloaderImage>)
      requires |downloaders| == |downloadImageListeners| == |downloadRequests|
      modifies this`downloaders, this`downloadImageListeners, this`downloadRequests, this`log
      ensures downloaders == Without(old(downloaders), old(downloaders), d)
      ensures downloadImageListeners == Without(old(downloaders), old(downloadImageListeners), d)
      ensures downloadRequests == Without(old(downloaders), old(downloadRequests), d)
      ensures log == old(log) + Deliver(Reverse(Paired(old(downloaders), old(downloadImageListeners), d)), image, d.url)
    {
      var ds, ls, rs, notified := ScanOut(downloaders, downloadImageListeners, downloadRequests, d);
      downloaders, downloadImageListeners, downloadRequests := ds, ls, rs;
      log := log + Deliver(notified, image, d.url);
    }

    /**
     * `onImageDownloadFailure`: every entry waiting on `d` gets one failure callback;
     * the URL is not blacklisted.
     */
    method OnImageDownloadFailure(d: Downloader)
      requires Valid() && d in spawned
      modifies this
      ensures Valid()
      ensures Finished(d, None) && failedUrls == old(failedUrls)
    {
      FinishDownloader(d, None);
    }

    /**
     * The downloader's own completion: a cancelled fetch or one that produced no
     * stream is reported as a failure; otherwise the stream is handed to a decode task.
     */
    method OnDownloaderPostExecute(d: Downloader, stream: Option<DownloadedStream>) returns (decode: Option<DownloadedStream>)
      requires Valid() && d in spawned
      modifies this
      ensures Valid()
      ensures d.cancelled || stream.None? ==> decode.None? && Finished(d, None) && failedUrls == old(failedUrls)
      ensures !d.cancelled && stream.Some? ==> decode == stream && unchanged(this)
    {
      if d.cancelled || stream.None? {
        OnImageDownloadFailure(d);
        decode := None;
      } else {
        decode := stream;
      }
    }

    /**
     * `InputStreamHandlingTask.doInBackground`: decodes the stream for the downloader's
     * request and, when there is an image, stores it on disk and in memory under that
     * request's cache key. The manager's own bookkeeping is untouched.
     */
    method DecodeInBackground(d: Downloader, stream: DownloadedStream, readOk: bool, decoded: Option<Bitmap>,
                              proportional: nat, commitOk: bool) returns (image: Option<DownloaderImage>)
      requires Valid()
      modifies cache
      ensures Valid()
      ensures image == DecodedImage(stream, d.request.maxWidth, d.request.maxHeight, readOk, decoded, proportional)
      ensures var key := CacheKey(d.request, d.request.maxWidth, d.request.maxHeight, digest);
              && cache.memory == (if image.Some? then old(cache.memory)[key := image.value] else old(cache.memory))
              && cache.disk == (if image.Some? && old(cache.disk).Some? && commitOk && EncodeRecord(image.value, cache.compress).Some?
                                then Some(old(cache.disk).value[key := EncodeRecord(image.value, cache.compress).value])
                                else old(cache.disk))
    {
      var maxWidth, maxHeight := d.request.maxWidth, d.request.maxHeight;
      var key := CacheKey(d.request, maxWidth, maxHeight, digest);
      image := Decode(stream, maxWidth, maxHeight, readOk, decoded, proportional);
      if image.Some? {
        var _ := cache.StoreToDisk(image.value, key, commitOk);
        cache.StoreToMemory(image.value, key);
      }
    }

    /**
     * `InputStreamHandlingTask.onPostExecute`: every entry waiting on `d` is notified,
     * with success exactly when there is an image; the URL is blacklisted exactly when
     * there is none.
     */
    method OnDecodePostExecute(d: Downloader, image: Option<DownloaderImage>)
      requires Valid() && d in spawned && (image.Some? ==> image.value.WellFormed())
      modifies this
      ensures Valid()
      ensures Finished(d, image)
      ensures failedUrls == if image.None? then old(failedUrls) + [d.url] else old(failedUrls)
    {
      FinishDownloader(d, image);
      if image.None? {
        failedUrls := failedUrls + [d.request.url];
      }
    }

    /**
     * `cancel(listener)`: the listener's pending lookups and waiting entries are all
     * removed; a downloader left with no waiting entry is cancelled and unregistered.
     * Nobody is notified.
     */
    method Cancel(listener: Listener)
      requires Valid()
      modifies this, downloadersMap.Values
      ensures Valid()
      ensures cacheListeners == Without(old(cacheListeners), old(cacheListeners), listener)
      ensures cacheUrls == Without(old(cacheListeners), old(cacheUrls), listener)
      ensures downloadImageListeners == Without(old(downloadImageListeners), old(downloadImageListeners), listener)
      ensures downloaders == Without(old(downloadImageListeners), old(downloaders), listener)
      ensures downloadRequests == Without(old(downloadImageListeners), old(downloadRequests), listener)
      ensures listener !in cacheListeners && listener !in downloadImageListeners
      ensures downloadersMap == Live(old(downloadersMap), downloaders)
      ensures forall x | x in old(downloadersMap.Values) :: x.cancelled == (x !in downloaders)
      ensures log == old(log) && failedUrls == old(failedUrls) && spawned == old(spawned)
    {
      var ls, us := DropLookups(cacheListeners, cacheUrls, listener);
      cacheListeners, cacheUrls := ls, us;
      DropWaiters(listener);
    }

    /**
     * The second loop of `cancel`: while the listener has a waiting entry, the first
     * one is removed from the three lists, and its downloader is cancelled and
     * unregistered once no entry references it.
     */
    method DropWaiters(listener: Listener)
      requires Valid()
      modifies this`downloadImageListeners, this`downloaders, this`downloadRequests, this`downloadersMap
      modifies downloadersMap.Values
      ensures Valid()
      ensures downloadImageListeners == Without(old(downloadImageListeners), old(downloadImageListeners), listener)
      ensures downloaders == Without(old(downloadImageListeners), old(downloaders), listener)
      ensures downloadRequests == Without(old(downloadImageListeners), old(downloadRequests), listener)
      ensures listener !in downloadImageListeners
      ensures downloadersMap == Live(old(downloadersMap), downloaders)
      ensures forall x | x in old(downloadersMap.Values) :: x.cancelled == (x !in downloaders)
    {
      ghost var m0 := downloadersMap;
      assert forall u | u in m0 :: m0[u] in spawned;
      CancelKeepsAlignment(downloadImageListeners, downloaders, downloadRequests, listener);
      var ls, ds, rs, m := DropEntries(downloadImageListeners, downloaders, downloadRequests, downloadersMap, listener);
      downloadImageListeners, downloaders, downloadRequests, downloadersMap := ls, ds, rs, m;
    }
  }

  /**
   * The loop of both fan-outs over the waiting lists: scanning from the last index to
   * the first, every entry whose downloader is `d` is removed at its index and its
   * listener is notified. Returns the remaining lists and the listeners notified, in
   * the order they were notified.
   */
  method ScanOut(ds0: seq<Downloader>, ls0: seq<Listener>, rs0: seq<DownloadRequest>, d: Downloader)
    returns (ds: seq<Downloader>, ls: seq<Listener>, rs: seq<DownloadRequest>, notified: seq<Listener>)
    requires |ds0| == |ls0| == |rs0|
    ensures ds == Without(ds0, ds0, d)
    ensures ls == Without(ds0, ls0, d)
    ensures rs == Without(ds0, rs0, d)
    ensures notified == Reverse(Paired(ds0, ls0, d))
  {
    ScannedAll(ds0, ds0, d);
    ScannedAll(ds0, ls0, d);
    ScannedAll(ds0, rs0, d);
    ds, ls, rs, notified := ds0, ls0, rs0, [];
    var index := |ds0|;
    assert ds0[index..] == [];
    while index > 0
      invariant 0 <= index <= |ds0|
      invariant ds == Scanned(ds0, ds0, d, index)
      invariant ls == Scanned(ds0, ls0, d, index)
      invariant rs == Scanned(ds0, rs0, d, index)
      invariant notified == Reverse(Paired(ds0[index..], ls0[index..], d))
    {
      index := index - 1;
      ScanStep(ds0, ds0, d, index);
      ScanStep(ds0, ls0, d, index);
      ScanStep(ds0, rs0, d, index);
      ScanStepReported(ds0, ls0, d, index);
      if ds[index] == d {
        notified := notified + [ls[index]];
        ds := RemoveAt(ds, index);
        ls := RemoveAt(ls, index);
        rs := RemoveAt(rs, index);
      }
    }
    assert ds0[0..] == ds0 && ls0[0..] == ls0;
  }
}
