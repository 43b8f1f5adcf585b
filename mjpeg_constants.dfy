/**
 * The fixed texts of the MJPEG response: the preamble sent once per connection and the
 * header sent before every image. Lines end in a bare LF, and the boundary parameter is
 * declared as `--boundary` while each part is opened by the line `--boundary`.
 */
module MjpegConstants {
  import opened TextEncoding

  /** Status line and content type, sent once at the start of a response. */
  const ResponseHeaders: string :=
    "HTTP/1.1 200 OK\n" + "Content-Type: multipart/x-mixed-replace; " + "boundary=--boundary\n"

  /** The terminator written after the bytes of each image. */
  const NewLine: string := "\n"

  /** The header placed before an image of `contentLength` bytes. */
  function GetImageInfoHeaders(contentLength: long): (h: string)
    ensures |h| == 53 + |LongToString(contentLength)| + 2
    ensures h[..12] == "\n--boundary\n" && h[|h| - 2..] == "\n\n"
    ensures h[53..|h| - 2] == LongToString(contentLength)
  {
    "\n--boundary\n" + "Content-Type: image/jpeg\n" + "Content-Length: " + LongToString(contentLength) + "\n\n"
  }

  /** The preamble is pure ASCII, 77 characters, and encodes to as many bytes. */
  lemma ResponseHeadersAscii()
    ensures IsAscii(ResponseHeaders)
    ensures |ResponseHeaders| == 77 && |AsciiBytes(ResponseHeaders)| == |ResponseHeaders|
  {
    var status, contentType, boundary := "HTTP/1.1 200 OK\n", "Content-Type: multipart/x-mixed-replace; ", "boundary=--boundary\n";
    StatusLineAscii();
    ContentTypeAscii();
    BoundaryAscii();
    AsciiConcat(status, contentType);
    AsciiConcat(status + contentType, boundary);
  }

  lemma StatusLineAscii()
    ensures IsAscii("HTTP/1.1 200 OK\n")
  {
  }

  lemma ContentTypeAscii()
    ensures IsAscii("Content-Type: multipart/x-mixed-replace; ")
  {
  }

  lemma BoundaryAscii()
    ensures IsAscii("boundary=--boundary\n")
  {
  }

  /** The terminator encodes to the single byte LF. */
  lemma NewLineBytes()
    ensures AsciiBytes(NewLine) == [LineFeed]
  {
    assert AsciiBytes(NewLine)[0] == LineFeed;
  }

  /** Every part header is pure ASCII, whatever the length it announces. */
  lemma ImageInfoHeadersAscii(n: long)
    ensures IsAscii(GetImageInfoHeaders(n))
  {
    var delimiter, contentType, contentLength := "\n--boundary\n", "Content-Type: image/jpeg\n", "Content-Length: ";
    assert IsAscii(delimiter) && IsAscii(contentType) && IsAscii(contentLength) && IsAscii("\n\n");
    AsciiConcat(delimiter, contentType);
    AsciiConcat(delimiter + contentType, contentLength);
    AsciiConcat(delimiter + contentType + contentLength, LongToString(n));
    AsciiConcat(delimiter + contentType + contentLength + LongToString(n), "\n\n");
  }

  /** For a non-negative length the header is the fixed prefix, the decimal digits and two LFs. */
  lemma ImageInfoHeadersOfLength(n: long)
    requires n >= 0
    ensures GetImageInfoHeaders(n)
         == "\n--boundary\n" + "Content-Type: image/jpeg\n" + "Content-Length: " + Decimal(n) + "\n\n"
    ensures |GetImageInfoHeaders(n)| == 53 + |Decimal(n)| + 2
  {
  }

  /** Distinct lengths give distinct headers. */
  lemma ImageInfoHeadersInjective(a: long, b: long)
    requires GetImageInfoHeaders(a) == GetImageInfoHeaders(b)
    ensures a == b
  {
    assert LongToString(a) == GetImageInfoHeaders(a)[53..|GetImageInfoHeaders(a)| - 2];
    assert LongToString(b) == GetImageInfoHeaders(b)[53..|GetImageInfoHeaders(b)| - 2];
    LongToStringInjective(a, b);
  }
}
