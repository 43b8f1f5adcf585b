/**
 * `GetMjpegStream`: a lazy sequence that encodes each image into one shared in-memory buffer
 * and hands out that same buffer every time. The C# `yield return` enumerator is modelled as a
 * class whose `MoveNext` encodes the next image only when it is asked for.
 */
module MjpegStream {
  import opened Streams

  class MjpegFrames<Image> {
    /** The images still to be enumerated come from this sequence, in order. */
    const images: seq<Image>
    /** The JPEG encoder (`Image.Save` with `ImageFormat.Jpeg`). */
    const encode: Image -> MemoryBytes
    /** The one buffer every element of the sequence refers to. */
    const buffer: MemoryStream
    /** How many images have been encoded so far. */
    var next: nat

    /** The buffer stays open until the images run out; it is disposed at the end. */
    ghost predicate Valid()
      reads this, buffer
    {
      next <= |images| && (next < |images| ==> !buffer.disposed)
    }

    constructor (images: seq<Image>, encode: Image -> MemoryBytes)
      ensures Valid() && fresh(buffer)
      ensures this.images == images && this.encode == encode
      ensures next == 0 && buffer.contents == [] && !buffer.disposed
    {
      this.images := images;
      this.encode := encode;
      buffer := new MemoryStream();
      next := 0;
    }

    /**
     * Advances to the next element: empties the buffer and encodes the next image into it,
     * or, when there is none, disposes the buffer and reports the end.
     */
    method MoveNext() returns (more: bool)
      requires Valid()
      modifies this, buffer
      ensures Valid()
      ensures more == (old(next) < |images|)
      ensures more ==> next == old(next) + 1 && buffer.contents == encode(images[old(next)])
                       && !buffer.disposed
      ensures !more ==> next == old(next) && buffer.disposed && buffer.contents == old(buffer.contents)
    {
      if next < |images| {
        var r := buffer.Truncate();
        r := buffer.Write(encode(images[next]));
        next := next + 1;
        more := true;
      } else {
        buffer.Dispose();
        more := false;
      }
    }
  }
}
