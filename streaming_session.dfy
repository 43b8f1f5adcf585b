/**
 * What one client receives: one accepted connection served by an `MjpegWriter`, which sends
 * the response headers once and then one part per image of a freshly started `GetMjpegStream`
 * enumeration, and is disposed at the end (the `using` block of the client thread).
 */
module StreamingSession {
  import opened Wrappers
  import opened TextEncoding
  import opened Streams
  import opened MjpegWriter
  import opened MjpegReader
  import opened MjpegStream
  import opened ListOps

  /** The encoded images, in order. */
  function Encoded<Image>(images: seq<Image>, encode: Image -> MemoryBytes): (r: seq<MemoryBytes>)
    ensures |r| == |images|
    ensures forall i :: 0 <= i < |images| ==> r[i] == encode(images[i])
  {
    seq(|images|, i requires 0 <= i < |images| => encode(images[i]))
  }

  lemma TakeOneMore<T>(s: seq<T>, k: nat)
    requires k < |s|
    ensures s[..k + 1] == s[..k] + [s[k]]
  {
  }

  /** Appending one more part to what was sent so far is sending one more image. */
  lemma SendOneMore(pre: seq<byte>, sent: seq<MemoryBytes>, image: MemoryBytes)
    ensures (pre + Parts(sent)) + ImagePart(image) == pre + Parts(sent + [image])
  {
    PartsSnoc(sent, image);
    ConcatAssoc(pre, Parts(sent), ImagePart(image));
  }


  /**
   * The client loop: for each frame the enumeration yields, sends it as one part. Starting from
   * a fresh enumeration, the stream receives one part per image, in order, and one flush each.
   */
  method SendFrames<Image>(writer: MjpegWriter, socket: OutputStream, frames: MjpegFrames<Image>)
    requires writer.stream == socket && !socket.disposed
    requires frames.Valid() && frames.next == 0 && !frames.buffer.disposed
    modifies socket, frames, frames.buffer
    ensures !socket.disposed
    ensures socket.written == old(socket.written) + Parts(Encoded(frames.images, frames.encode))
    ensures socket.flushes == old(socket.flushes) + |frames.images|
  {
    ghost var pre := socket.written;
    ghost var all := Encoded(frames.images, frames.encode);
    ghost var sent: seq<MemoryBytes> := [];
    assert Parts(sent) == [];
    var more := frames.MoveNext();
    while more
      invariant writer.stream == socket && !socket.disposed
      invariant frames.Valid()
      invariant |sent| == if more then frames.next - 1 else frames.next
      invariant more ==> frames.buffer.contents == all[|sent|] && !frames.buffer.disposed
      invariant !more ==> frames.next == |frames.images|
      invariant sent == all[..|sent|]
      invariant socket.written == pre + Parts(sent)
      invariant socket.flushes == old(socket.flushes) + |sent|
      decreases |frames.images| - frames.next + (if more then 1 else 0)
    {
      ghost var image := all[|sent|];
      var r := writer.WriteImage(frames.buffer);
      SendOneMore(pre, sent, image);
      TakeOneMore(all, |sent|);
      sent := sent + [image];
      more := frames.MoveNext();
    }
    assert sent == all;
  }

  /**
   * Serves one client: returns the bytes the client is sent and how many times the stream was
   * flushed. The bytes are the preamble and one part per image, and reading them back gives the
   * encoded images unchanged and in order.
   */
  method ServeClient<Image>(images: seq<Image>, encode: Image -> MemoryBytes)
    returns (received: seq<byte>, flushes: nat, closed: bool)
    ensures received == Preamble() + Parts(Encoded(images, encode))
    ensures ReadStream(received) == Some(Encoded(images, encode))
    ensures flushes == 1 + |images|
    ensures closed
  {
    var socket := new OutputStream();
    var writer := new MjpegWriter(socket);
    var r := writer.WriteHeaders();
    var frames := new MjpegFrames(images, encode);
    SendFrames(writer, socket, frames);
    received, flushes := socket.written, socket.flushes;
    writer.Dispose();
    closed := socket.disposed;
    ReadStreamOfResponse(Encoded(images, encode));
  }
}
