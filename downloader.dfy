/**
 * The network fetcher (downloader/ShutterbugDownloader.java), abstracted to what the
 * manager observes: its URL, the request that created it, and whether its task was
 * started and cancelled. The HTTP retrieval itself is not part of this model; its
 * completion is an event of the manager.
 */
module Downloaders {
  import opened Requests

  class Downloader {
    const url: string
    const request: DownloadRequest
    var started: bool
    var cancelled: bool

    /** `new ShutterbugDownloader(url, listener, downloadRequest)`: nothing runs yet. */
    constructor (url: string, request: DownloadRequest)
      ensures this.url == url && this.request == request
      ensures !started && !cancelled
    {
      this.url := url;
      this.request := request;
      started := false;
      cancelled := false;
    }

    /** `start()`: creates and executes the fetch task. */
    method Start()
      modifies this
      ensures started && cancelled == old(cancelled)
    {
      started := true;
    }

    /** `cancel()`: cancels the fetch task, if one was started. */
    method Cancel()
      modifies this
      ensures started == old(started)
      ensures cancelled == (old(cancelled) || old(started))
    {
      if started {
        cancelled := true;
      }
    }
  }
}
