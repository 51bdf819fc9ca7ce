/**
 * The buffer-copy loop used twice in the source to drain an input stream into a
 * byte array (ShutterbugManager.java:211-218, ImageCache.java:219-225): read up to
 * 4096 bytes at a time until `read` reports the end of the stream.
 */
module Streams {
  import opened Images

  const BUFFER_SIZE: nat := 4096

  method ReadFully(stream: Bytes) returns (buffer: Bytes)
    ensures buffer == stream
  {
    buffer := [];
    var pos := 0;
    // `read` returns -1 exactly when nothing is left
    while pos < |stream|
      invariant 0 <= pos <= |stream|
      invariant buffer == stream[..pos]
    {
      var count := if |stream| - pos < BUFFER_SIZE then |stream| - pos else BUFFER_SIZE;
      buffer := buffer + stream[pos..pos + count];
      pos := pos + count;
    }
  }
}
