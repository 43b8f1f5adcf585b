/**
 * A reader for the byte stream the MJPEG writer produces: it checks the preamble, then cuts
 * each part at the length its `Content-Length` line announces. It is written independently of
 * the writer and is the partner of its round-trip lemmas.
 */
module MjpegReader {
  import opened Wrappers
  import opened TextEncoding
  import opened MjpegConstants
  import opened Streams
  import opened MjpegWriter
  import opened ListOps

  /** What a part must start with, up to the digits of its length. */
  const PartLead: seq<byte> :=
    AsciiBytes("\n--boundary\n" + "Content-Type: image/jpeg\n" + "Content-Length: ")

  /** One part's payload and the bytes after it. */
  datatype Cut = Cut(payload: seq<byte>, rest: seq<byte>)

  /** Reads one part from the front of `b`, or `None` when `b` does not start with a well-formed part. */
  function ReadPart(b: seq<byte>): (r: Option<Cut>)
    ensures r.Some? ==> |r.value.rest| < |b|
  {
    CutAfter(PartLead, b)
  }

  /** The length a part announces and the bytes after its header. */
  datatype Announced = Announced(length: nat, body: seq<byte>)

  /** Reads a run of decimal digits and two LFs off the front of `t`. */
  function ReadLength(t: seq<byte>): (r: Option<Announced>)
    ensures r.Some? ==> |r.value.body| < |t|
  {
    var digits := LeadingDigits(t);
    var afterDigits := t[digits..];
    if digits == 0 || |afterDigits| < 2 || afterDigits[0] != LineFeed || afterDigits[1] != LineFeed then None
    else Some(Announced(ParseDecimal(t[..digits]), afterDigits[2..]))
  }

  /** Takes `n` payload bytes and the LF closing them off the front of `body`. */
  function TakePayload(n: nat, body: seq<byte>): (r: Option<Cut>)
    ensures r.Some? ==> |r.value.rest| < |body|
  {
    if |body| <= n || body[n] != LineFeed then None else Some(Cut(body[..n], body[n + 1..]))
  }

  /**
   * Cuts one part off the front of `b` when it starts with `lead`, a run of decimal digits,
   * two LFs, as many payload bytes as the digits say, and one LF.
   */
  function CutAfter(lead: seq<byte>, b: seq<byte>): (r: Option<Cut>)
    ensures r.Some? ==> |r.value.rest| < |b|
  {
    if |b| < |lead| || b[..|lead|] != lead then None
    else match ReadLength(b[|lead|..])
      case None => None
      case Some(announced) => TakePayload(announced.length, announced.body)
  }

  /** Reads parts until the input is used up. */
  function ReadParts(b: seq<byte>): Option<seq<seq<byte>>>
    decreases |b|
  {
    if b == [] then Some([])
    else match ReadPart(b)
      case None => None
      case Some(cut) =>
        match ReadParts(cut.rest)
        case None => None
        case Some(more) => Some([cut.payload] + more)
  }

  /** Reads a whole response body: the preamble, then the parts. */
  function ReadStream(b: seq<byte>): Option<seq<seq<byte>>>
  {
    var pre := Preamble();
    if |b| < |pre| || b[..|pre|] != pre then None else ReadParts(b[|pre|..])
  }

  /** The ASCII bytes of a part header are the fixed lead, the length digits and two LFs. */
  lemma HeaderBytes(n: nat)
    requires n < 0x8000_0000_0000_0000
    ensures AsciiBytes(GetImageInfoHeaders(n))
         == PartLead + AsciiBytes(Decimal(n)) + [LineFeed, LineFeed]
  {
    var lit := "\n--boundary\n" + "Content-Type: image/jpeg\n" + "Content-Length: ";
    ImageInfoHeadersOfLength(n);
    AsciiBytesConcat(lit, Decimal(n));
    AsciiBytesConcat(lit + Decimal(n), "\n\n");
    assert AsciiBytes("\n\n") == [LineFeed, LineFeed];
  }

  /**
   * For n >= 0 the bytes between "Content-Length: " and the closing LFs are exactly the run of
   * digits there, and they parse back to n.
   */
  lemma ContentLengthRoundTrip(n: long)
    requires n >= 0
    ensures var h := AsciiBytes(GetImageInfoHeaders(n));
            && 53 < |h| - 2
            && LeadingDigits(h[53..]) == |h| - 2 - 53
            && ParseDecimal(h[53..|h| - 2]) == n
  {
    var h := AsciiBytes(GetImageInfoHeaders(n));
    var d := AsciiBytes(Decimal(n));
    HeaderBytes(n);
    ParseDecimalOfDecimal(n);
    assert h[53..] == d + [LineFeed, LineFeed];
    assert h[53..|h| - 2] == d;
    LeadingDigitsOfDecimal(n, [LineFeed, LineFeed]);
  }

  /** Digits followed by two LFs announce the digits' value. */
  lemma ReadLengthOfDigits(d: seq<byte>, body: seq<byte>)
    requires d != [] && LeadingDigits(d + ([LineFeed, LineFeed] + body)) == |d|
    ensures ReadLength(d + ([LineFeed, LineFeed] + body)) == Some(Announced(ParseDecimal(d), body))
  {
    var afterDigits := [LineFeed, LineFeed] + body;
    var t := d + afterDigits;
    assert t[..|d|] == d && t[|d|..] == afterDigits;
    assert afterDigits[0] == LineFeed && afterDigits[1] == LineFeed && afterDigits[2..] == body;
  }

  /** The payload and its closing LF come off as announced. */
  lemma TakePayloadOfPart(payload: seq<byte>, rest: seq<byte>)
    ensures TakePayload(|payload|, payload + ([LineFeed] + rest)) == Some(Cut(payload, rest))
  {
    var body := payload + ([LineFeed] + rest);
    assert body[|payload|] == LineFeed;
    assert body[..|payload|] == payload && body[|payload| + 1..] == rest;
  }

  /** A part laid out with digits that announce the payload's length is cut right after it. */
  lemma CutLaidOutPart(lead: seq<byte>, d: seq<byte>, payload: seq<byte>, rest: seq<byte>)
    requires d != [] && ParseDecimal(d) == |payload|
    requires LeadingDigits(d + ([LineFeed, LineFeed] + (payload + ([LineFeed] + rest)))) == |d|
    ensures CutAfter(lead, lead + (d + ([LineFeed, LineFeed] + (payload + ([LineFeed] + rest)))))
         == Some(Cut(payload, rest))
  {
    var body := payload + ([LineFeed] + rest);
    var afterLead := d + ([LineFeed, LineFeed] + body);
    var b := lead + afterLead;
    assert b[..|lead|] == lead && b[|lead|..] == afterLead;
    ReadLengthOfDigits(d, body);
    TakePayloadOfPart(payload, rest);
  }

  /** A header made of three pieces, then three more pieces, regrouped to the right. */
  lemma RightNested<T>(h: seq<T>, a: seq<T>, b: seq<T>, c: seq<T>, d: seq<T>, e: seq<T>, f: seq<T>)
    requires h == a + b + c
    ensures h + d + e + f == a + (b + (c + (d + (e + f))))
  {
    ConcatAssoc(a + b + c + d, e, f);
    ConcatAssoc(a + b + c, d, e + f);
    ConcatAssoc(a + b, c, d + (e + f));
    ConcatAssoc(a, b, c + (d + (e + f)));
  }

  /** The bytes of a part followed by anything, grouped as the reader takes them apart. */
  lemma ImagePartBytes(payload: MemoryBytes, rest: seq<byte>)
    ensures ImagePart(payload) + rest
         == PartLead + (AsciiBytes(Decimal(|payload|)) + ([LineFeed, LineFeed] + (payload + ([LineFeed] + rest))))
  {
    HeaderBytes(|payload|);
    NewLineBytes();
    RightNested(AsciiBytes(GetImageInfoHeaders(|payload|)), PartLead, AsciiBytes(Decimal(|payload|)),
                [LineFeed, LineFeed], payload, [LineFeed], rest);
  }

  /** Reading the part written for `payload` gives back `payload` and leaves what follows. */
  lemma ReadImagePart(payload: MemoryBytes, rest: seq<byte>)
    ensures ReadPart(ImagePart(payload) + rest) == Some(Cut(payload, rest))
  {
    var d := AsciiBytes(Decimal(|payload|));
    var afterDigits := [LineFeed, LineFeed] + (payload + ([LineFeed] + rest));
    ImagePartBytes(payload, rest);
    ParseDecimalOfDecimal(|payload|);
    LeadingDigitsOfDecimal(|payload|, afterDigits);
    CutLaidOutPart(PartLead, d, payload, rest);
  }

  /** A part cut off the front, followed by parts that read back, reads back as one more part. */
  lemma ReadPartsOfCut(b: seq<byte>, cut: Cut, more: seq<seq<byte>>)
    requires ReadPart(b) == Some(cut) && ReadParts(cut.rest) == Some(more)
    ensures ReadParts(b) == Some([cut.payload] + more)
  {
  }

  /** Round trip: cutting the parts written for `payloads` gives back the payloads, in order. */
  lemma {:induction false} ReadPartsOfParts(payloads: seq<MemoryBytes>)
    ensures ReadParts(Parts(payloads)) == Some(payloads)
    decreases |payloads|
  {
    if payloads != [] {
      var b := Parts(payloads);
      var rest := Parts(payloads[1..]);
      assert b == ImagePart(payloads[0]) + rest;
      ReadImagePart(payloads[0], rest);
      ReadPartsOfParts(payloads[1..]);
      ReadPartsOfCut(b, Cut(payloads[0], rest), payloads[1..]);
      assert payloads == [payloads[0]] + payloads[1..];
    }
  }

  /** Round trip for a whole response: the preamble followed by k parts reads back as the k payloads. */
  lemma ReadStreamOfResponse(payloads: seq<MemoryBytes>)
    ensures ReadStream(Preamble() + Parts(payloads)) == Some(payloads)
  {
    var b := Preamble() + Parts(payloads);
    assert b[..|Preamble()|] == Preamble();
    assert b[|Preamble()|..] == Parts(payloads);
    ReadPartsOfParts(payloads);
  }
}
