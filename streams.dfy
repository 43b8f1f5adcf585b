/**
 * The two .NET streams the MJPEG writer touches, reduced to their observable state:
 * the client's output stream (a `NetworkStream` over the accepted socket) and the
 * in-memory buffer each image is encoded into (a `MemoryStream`).
 */
module Streams {
  import opened Wrappers
  import opened TextEncoding

  /** `MemoryStream` refuses to grow beyond `int.MaxValue` bytes. */
  const MaxStreamLength: nat := 0x7FFF_FFFF

  /** What a `MemoryStream` can hold. */
  type MemoryBytes = s: seq<byte> | |s| <= MaxStreamLength witness []

  /** The exceptions a stream operation can raise in the modelled code. */
  datatype StreamError = NullReference | ObjectDisposed | StreamTooLong

  /** A client's output stream: the bytes sent so far, how often it was flushed, and whether it is disposed. */
  class OutputStream {
    var written: seq<byte>
    var flushes: nat
    var disposed: bool

    constructor ()
      ensures written == [] && flushes == 0 && !disposed
    {
      written, flushes, disposed := [], 0, false;
    }

    /** `Stream.Write(buffer, 0, buffer.Length)`. */
    method Write(data: seq<byte>) returns (r: Outcome<StreamError>)
      modifies this
      ensures r == if old(disposed) then Fail(ObjectDisposed) else Pass
      ensures written == if old(disposed) then old(written) else old(written) + data
      ensures flushes == old(flushes) && disposed == old(disposed)
    {
      if disposed {
        r := Fail(ObjectDisposed);
      } else {
        written := written + data;
        r := Pass;
      }
    }

    /** `Stream.Flush()`. */
    method Flush() returns (r: Outcome<StreamError>)
      modifies this
      ensures r == if old(disposed) then Fail(ObjectDisposed) else Pass
      ensures flushes == if old(disposed) then old(flushes) else old(flushes) + 1
      ensures written == old(written) && disposed == old(disposed)
    {
      if disposed {
        r := Fail(ObjectDisposed);
      } else {
        flushes := flushes + 1;
        r := Pass;
      }
    }

    /** `Stream.Dispose()`; disposing twice is allowed. */
    method Dispose()
      modifies this
      ensures disposed && written == old(written) && flushes == old(flushes)
    {
      disposed := true;
    }
  }

  /** A growable in-memory byte buffer. */
  class MemoryStream {
    var contents: MemoryBytes
    var disposed: bool

    constructor ()
      ensures contents == [] && !disposed
    {
      contents, disposed := [], false;
    }

    /** `SetLength(0)`: drops every byte held. */
    method Truncate() returns (r: Outcome<StreamError>)
      modifies this
      ensures r == if old(disposed) then Fail(ObjectDisposed) else Pass
      ensures contents == if old(disposed) then old(contents) else []
      ensures disposed == old(disposed)
    {
      if disposed {
        r := Fail(ObjectDisposed);
      } else {
        contents := [];
        r := Pass;
      }
    }

    /** `Write(buffer, 0, buffer.Length)` at the end of the buffer. */
    method Write(data: seq<byte>) returns (r: Outcome<StreamError>)
      modifies this
      ensures r == if old(disposed) then Fail(ObjectDisposed)
                   else if |old(contents)| + |data| > MaxStreamLength then Fail(StreamTooLong)
                   else Pass
      ensures contents == if r.Pass? then old(contents) + data else old(contents)
      ensures disposed == old(disposed)
    {
      if disposed {
        r := Fail(ObjectDisposed);
      } else if |contents| + |data| > MaxStreamLength {
        r := Fail(StreamTooLong);
      } else {
        contents := contents + data;
        r := Pass;
      }
    }

    /** `Dispose()`; disposing twice is allowed. */
    method Dispose()
      modifies this
      ensures disposed && contents == old(contents)
    {
      disposed := true;
    }
  }
}
