/**
 * `MjpegWriter`: writes the MJPEG response onto a client's output stream. The bytes it emits
 * are given by `Preamble` (once per response) and `ImagePart` (once per image).
 */
module MjpegWriter {
  import opened Wrappers
  import opened TextEncoding
  import opened MjpegConstants
  import opened Streams

  /** The bytes `WriteHeaders` sends: the ASCII encoding of the response headers. */
  function Preamble(): (r: seq<byte>)
    ensures |r| == 77
  {
    ResponseHeadersAscii();
    AsciiBytes(ResponseHeaders)
  }

  /** The bytes `WriteImage` sends for one image: its header, the image itself, one LF. */
  function ImagePart(payload: MemoryBytes): seq<byte>
  {
    AsciiBytes(GetImageInfoHeaders(|payload|)) + payload + AsciiBytes(NewLine)
  }

  /** A part is the header announcing the payload's length, the payload unchanged, one LF. */
  lemma ImagePartLayout(payload: MemoryBytes)
    ensures var r := ImagePart(payload);
            var h := |GetImageInfoHeaders(|payload|)|;
            && |r| == h + |payload| + 1
            && r[..h] == AsciiBytes(GetImageInfoHeaders(|payload|))
            && r[h..|r| - 1] == payload
            && r[|r| - 1] == LineFeed
  {
    NewLineBytes();
  }

  /** The bytes sent for a run of images, one part after another. */
  function Parts(payloads: seq<MemoryBytes>): seq<byte>
  {
    if payloads == [] then [] else ImagePart(payloads[0]) + Parts(payloads[1..])
  }

  /** Sending one more image appends its part. */
  lemma {:induction false} PartsSnoc(payloads: seq<MemoryBytes>, p: MemoryBytes)
    ensures Parts(payloads + [p]) == Parts(payloads) + ImagePart(p)
    decreases |payloads|
  {
    if payloads == [] {
      assert [p][1..] == [];
      assert payloads + [p] == [p];
    } else {
      assert (payloads + [p])[1..] == payloads[1..] + [p];
      PartsSnoc(payloads[1..], p);
    }
  }

  /** A part grows the output by the header, the payload and the final LF. */
  lemma ImagePartLength(payload: MemoryBytes)
    ensures |ImagePart(payload)| == 53 + |Decimal(|payload|)| + 2 + |payload| + 1
  {
    ImageInfoHeadersOfLength(|payload|);
  }

  class MjpegWriter {
    /** The wrapped stream; `null` once disposed. */
    var stream: OutputStream?

    constructor (stream: OutputStream)
      ensures this.stream == stream
    {
      this.stream := stream;
    }

    /** Sends the response headers and flushes. */
    method WriteHeaders() returns (r: Outcome<StreamError>)
      modifies stream
      ensures stream == old(stream)
      ensures r == if stream == null then Fail(NullReference)
                   else if old(stream.disposed) then Fail(ObjectDisposed)
                   else Pass
      ensures r.Pass? ==> (stream.written == old(stream.written) + Preamble()
                           && stream.flushes == old(stream.flushes) + 1 && !stream.disposed)
      ensures r.Fail? && stream != null ==>
                (stream.written == old(stream.written) && stream.flushes == old(stream.flushes)
                 && stream.disposed == old(stream.disposed))
    {
      var headers := AsciiBytes(ResponseHeaders);
      if stream == null {
        return Fail(NullReference);
      }
      r := stream.Write(headers);
      if r.Fail? {
        return;
      }
      r := stream.Flush();
    }

    /**
     * Sends one image held in `imageStream`: the header announcing its length, the whole
     * buffer, one LF, then flushes. Reading the length of a disposed buffer fails first.
     */
    method WriteImage(imageStream: MemoryStream) returns (r: Outcome<StreamError>)
      modifies stream
      ensures stream == old(stream)
      ensures r == if old(imageStream.disposed) then Fail(ObjectDisposed)
                   else if stream == null then Fail(NullReference)
                   else if old(stream.disposed) then Fail(ObjectDisposed)
                   else Pass
      ensures r.Pass? ==> (stream.written == old(stream.written) + ImagePart(old(imageStream.contents))
                           && stream.flushes == old(stream.flushes) + 1 && !stream.disposed)
      ensures r.Fail? && stream != null ==>
                (stream.written == old(stream.written) && stream.flushes == old(stream.flushes)
                 && stream.disposed == old(stream.disposed))
      ensures unchanged(imageStream)
    {
      if imageStream.disposed {
        return Fail(ObjectDisposed);
      }
      var payload := imageStream.contents;
      var headers := AsciiBytes(GetImageInfoHeaders(|payload|));
      if stream == null {
        return Fail(NullReference);
      }
      r := stream.Write(headers);
      if r.Fail? {
        return;
      }
      r := stream.Write(payload);
      var endOfResponse := AsciiBytes(NewLine);
      r := stream.Write(endOfResponse);
      r := stream.Flush();
    }

    /** Disposes the stream and forgets it; a second call does nothing. */
    method Dispose()
      modifies this, stream
      ensures stream == null
      ensures old(stream) != null ==>
                (old(stream).disposed && old(stream).written == old(stream.written)
                 && old(stream).flushes == old(stream.flushes))
    {
      if stream != null {
        stream.Dispose();
      }
      stream := null;
    }
  }
}
