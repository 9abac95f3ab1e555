/**
 Responses and their wire form (`response_serialize`, src/HttpResponse.c). The Date value is
 supplied from outside: it stands for what the C library prints.
 */
module Responses {
  import opened Bytes
  import opened Config
  import opened Numbers
  import opened Buffers
  import opened Headers
  import opened Requests

  /** "HTTP/1.1 " */
  const HTTP_1_1_SP: bytes := [72, 84, 84, 80, 47, 49, 46, 49, 32]
  /** "Date" */
  const DATE_KEY: bytes := [68, 97, 116, 101]
  /** "Connection" */
  const CONNECTION_KEY: bytes := [67, 111, 110, 110, 101, 99, 116, 105, 111, 110]
  /** "keep-alive" */
  const KEEP_ALIVE: bytes := [107, 101, 101, 112, 45, 97, 108, 105, 118, 101]
  /** "close" */
  const CLOSE: bytes := [99, 108, 111, 115, 101]
  /** "Content-Length" */
  const CONTENT_LENGTH_KEY: bytes := [67, 111, 110, 116, 101, 110, 116, 45, 76, 101, 110, 103, 116, 104]
  /** "Transfer-Encoding" */
  const TRANSFER_ENCODING_KEY: bytes := [84, 114, 97, 110, 115, 102, 101, 114, 45, 69, 110, 99, 111, 100, 105, 110, 103]
  /** "chunked" */
  const CHUNKED_VALUE: bytes := [99, 104, 117, 110, 107, 101, 100]
  /** "Bad Request" */
  const R_400: bytes := [66, 97, 100, 32, 82, 101, 113, 117, 101, 115, 116]
  /** "Not Found" */
  const R_404: bytes := [78, 111, 116, 32, 70, 111, 117, 110, 100]
  /** "Payload Too Large" */
  const R_413: bytes := [80, 97, 121, 108, 111, 97, 100, 32, 84, 111, 111, 32, 76, 97, 114, 103, 101]
  /** "URI Too Long" */
  const R_414: bytes := [85, 82, 73, 32, 84, 111, 111, 32, 76, 111, 110, 103]
  /** "Request Header Fields Too Large" */
  const R_431: bytes := [82, 101, 113, 117, 101, 115, 116, 32, 72, 101, 97, 100, 101, 114, 32, 70, 105, 101, 108,
                         100, 115, 32, 84, 111, 111, 32, 76, 97, 114, 103, 101]
  /** "Internal Server Error" */
  const R_500: bytes := [73, 110, 116, 101, 114, 110, 97, 108, 32, 83, 101, 114, 118, 101, 114, 32, 69, 114, 114,
                         111, 114]
  /** "Not Implemented" */
  const R_501: bytes := [78, 111, 116, 32, 73, 109, 112, 108, 101, 109, 101, 110, 116, 101, 100]
  /** "HTTP Version Not Supported" */
  const R_505: bytes := [72, 84, 84, 80, 32, 86, 101, 114, 115, 105, 111, 110, 32, 78, 111, 116, 32, 83, 117, 112,
                         112, 111, 114, 116, 101, 100]

  /** A printed date: never empty, and short enough for the canned error responses to fit. */
  type Date = d: bytes | ValidValue(d) && 0 < |d| <= 64 witness [48]

  datatype BodyKind = BodyNone | BodyBuffer(body: bytes) | BodyStream

  datatype Response = Response(status: nat, reason: bytes, headers: seq<Header>, kind: BodyKind, headOnly: bool)

  // ---------------------------------------------------------------- wire form

  function StartLine(r: Response): bytes {
    HTTP_1_1_SP + Digits(r.status, 10) + [SP] + r.reason + CRLF
  }

  function ConnectionHeader(keepAlive: bool): Header {
    Header(CONNECTION_KEY, if keepAlive then KEEP_ALIVE else CLOSE)
  }

  predicate HasContentLength(headers: seq<Header>) {
    exists i :: 0 <= i < |headers| && EqualIgnoreCase(headers[i].key, CONTENT_LENGTH_KEY)
  }

  /** The framing header written behind the others: generated length, chunked coding or none. */
  function FramingHeaders(r: Response): seq<Header> {
    match r.kind
    case BodyNone => []
    case BodyBuffer(body) =>
      if HasContentLength(r.headers) || body == [] then []
      else [Header(CONTENT_LENGTH_KEY, Digits(|body|, 10))]
    case BodyStream => [Header(TRANSFER_ENCODING_KEY, CHUNKED_VALUE)]
  }

  function WireHeaders(r: Response, date: bytes, keepAlive: bool): seq<Header> {
    [Header(DATE_KEY, date)] + r.headers + [ConnectionHeader(keepAlive)] + FramingHeaders(r)
  }

  function HeadText(r: Response, date: bytes, keepAlive: bool): bytes {
    StartLine(r) + ShowHeaders(WireHeaders(r, date, keepAlive)) + CRLF
  }

  function BodyBytes(r: Response): bytes {
    if r.kind.BodyBuffer? && !r.headOnly then r.kind.body else []
  }

  /** The serialized response, unless it does not fit: the head needs a byte to spare. */
  function Serialize(r: Response, date: bytes, cap: nat, keepAlive: bool): Option<bytes> {
    var head := HeadText(r, date, keepAlive);
    if |head| < cap && |head| + |BodyBytes(r)| <= cap then Some(head + BodyBytes(r)) else None
  }

  lemma {:induction false} ShowHeadersAppend(a: seq<Header>, b: seq<Header>)
    ensures ShowHeaders(a + b) == ShowHeaders(a) + ShowHeaders(b)
  {
    if a == [] {
      assert a + b == b;
    } else {
      assert (a + b)[1..] == a[1..] + b;
      ShowHeadersAppend(a[1..], b);
    }
  }

  lemma ShowOne(h: Header)
    ensures ShowHeaders([h]) == ShowHeader(h)
  {
    assert [h][1..] == [];
  }

  /** The head as the writer produces it, piece by piece. */
  lemma HeadPieces(r: Response, date: bytes, keepAlive: bool)
    ensures HeadText(r, date, keepAlive) ==
            StartLine(r) + ShowHeader(Header(DATE_KEY, date)) + ShowHeaders(r.headers)
            + ShowHeader(ConnectionHeader(keepAlive)) + ShowHeaders(FramingHeaders(r)) + CRLF
  {
    var d, c, f := [Header(DATE_KEY, date)], [ConnectionHeader(keepAlive)], FramingHeaders(r);
    ShowHeadersAppend(d + r.headers + c, f);
    ShowHeadersAppend(d + r.headers, c);
    ShowHeadersAppend(d, r.headers);
    ShowOne(d[0]);
    ShowOne(c[0]);
  }

  // ---------------------------------------------------------------- the writer

  /** snprintf of one header behind the first `off` bytes; -1 when it is cut short. */
  method WriteHeader(buf: array<byte>, off: nat, h: Header) returns (written: int)
    requires off <= buf.Length
    modifies buf
    ensures buf[..off] == old(buf[..off])
    ensures written == if |ShowHeader(h)| < buf.Length - off then |ShowHeader(h)| else -1
    ensures written >= 0 ==> buf[..off + written] == old(buf[..off]) + ShowHeader(h)
  {
    var text := ShowHeader(h);
    var n := Snprintf(buf, off, buf.Length - off, text);
    if n >= buf.Length - off { return -1; }
    assert Printed(text, buf.Length - off) == text + [0];
    assert buf[off..off + n] == text;
    return n;
  }

  method WriteHeaders(buf: array<byte>, off: nat, headers: seq<Header>) returns (written: int, sawLength: bool)
    requires off <= buf.Length
    modifies buf
    ensures buf[..off] == old(buf[..off])
    ensures written == if headers == [] || |ShowHeaders(headers)| < buf.Length - off then |ShowHeaders(headers)| else -1
    ensures written >= 0 ==> buf[..off + written] == old(buf[..off]) + ShowHeaders(headers)
    ensures written >= 0 ==> sawLength == HasContentLength(headers)
  {
    hide ShowHeader, EqualIgnoreCase;
    written, sawLength := 0, false;
    for i := 0 to |headers|
      invariant 0 <= written && off + written <= buf.Length
      invariant buf[..off + written] == old(buf[..off]) + ShowHeaders(headers[..i])
      invariant written == |ShowHeaders(headers[..i])| && (i > 0 ==> off + written < buf.Length)
      invariant sawLength == HasContentLength(headers[..i])
    {
      assert headers[..i + 1] == headers[..i] + [headers[i]];
      assert headers == headers[..i + 1] + headers[i + 1..];
      ShowHeadersAppend(headers[..i], [headers[i]]);
      ShowHeadersAppend(headers[..i + 1], headers[i + 1..]);
      ShowOne(headers[i]);
      var n := WriteHeader(buf, off + written, headers[i]);
      if n < 0 { return -1, false; }
      written := written + n;
      var isLength := AsciiIeq(headers[i].key, CONTENT_LENGTH_KEY);
      if isLength { sawLength := true; }
      LengthStep(headers, i);
    }
    assert headers[..|headers|] == headers;
  }

  lemma LengthStep(headers: seq<Header>, i: nat)
    requires i < |headers|
    ensures HasContentLength(headers[..i + 1]) <==>
              HasContentLength(headers[..i]) || EqualIgnoreCase(headers[i].key, CONTENT_LENGTH_KEY)
  {
    var a, b := headers[..i], headers[..i + 1];
    if HasContentLength(a) {
      var j :| 0 <= j < |a| && EqualIgnoreCase(a[j].key, CONTENT_LENGTH_KEY);
      assert b[j] == a[j];
    }
    if EqualIgnoreCase(headers[i].key, CONTENT_LENGTH_KEY) { assert b[i] == headers[i]; }
    if HasContentLength(b) {
      var j :| 0 <= j < |b| && EqualIgnoreCase(b[j].key, CONTENT_LENGTH_KEY);
      assert j < i ==> a[j] == b[j];
    }
  }

  /** The status line and the date; strftime needs room for its NUL, as snprintf does. */
  method WriteStart(r: Response, date: Date, buf: array<byte>) returns (off: int)
    modifies buf
    ensures var text := StartLine(r) + ShowHeader(Header(DATE_KEY, date));
      && off == (if |text| < buf.Length then |text| else -1)
      && (off >= 0 ==> buf[..off] == text)
  {
    var start := StartLine(r);
    var n := Snprintf(buf, 0, buf.Length, start);
    if n > buf.Length { return -1; }
    if n < buf.Length {
      assert Printed(start, buf.Length) == start + [0];
      assert buf[..n] == start;
    }
    var m := WriteHeader(buf, n, Header(DATE_KEY, date));
    if m < 0 { return -1; }
    return n + m;
  }

  function FirstText(r: Response, date: bytes, keepAlive: bool): bytes {
    StartLine(r) + ShowHeader(Header(DATE_KEY, date)) + ShowHeaders(r.headers) + ShowHeader(ConnectionHeader(keepAlive))
  }

  /** The status line, the date, the caller's headers and Connection. */
  method WriteFirst(r: Response, date: Date, buf: array<byte>, keepAlive: bool)
    returns (off: int, sawLength: bool)
    modifies buf
    ensures var first := FirstText(r, date, keepAlive);
      && off == (if |first| < buf.Length then |first| else -1)
      && (off >= 0 ==> buf[..off] == first && sawLength == HasContentLength(r.headers))
  {
    hide ShowHeader, HasContentLength, StartLine;
    off := WriteStart(r, date, buf);
    if off < 0 { return -1, false; }
    var w, saw := WriteHeaders(buf, off, r.headers);
    if w < 0 { return -1, false; }
    off := off + w;
    var m := WriteHeader(buf, off, ConnectionHeader(keepAlive));
    if m < 0 { return -1, false; }
    return off + m, saw;
  }

  /** The framing header, then the blank line. */
  method WriteFraming(r: Response, buf: array<byte>, at: nat, sawLength: bool) returns (off: int)
    requires at <= buf.Length && sawLength == HasContentLength(r.headers)
    modifies buf
    ensures var text := ShowHeaders(FramingHeaders(r)) + CRLF;
      && off == (if at + |text| < buf.Length then at + |text| else -1)
      && (off >= 0 ==> buf[..off] == old(buf[..at]) + text)
  {
    off := at;
    match r.kind {
      case BodyBuffer(body) =>
        if !sawLength && |body| > 0 {
          var h := Header(CONTENT_LENGTH_KEY, Digits(|body|, 10));
          ShowOne(h);
          assert FramingHeaders(r) == [h];
          var m := WriteHeader(buf, at, h);
          if m < 0 { return -1; }
          off := at + m;
        }
      case BodyNone =>
      case BodyStream =>
        var h := Header(TRANSFER_ENCODING_KEY, CHUNKED_VALUE);
        ShowOne(h);
        assert FramingHeaders(r) == [h];
        if at + |ShowHeader(h)| > buf.Length { return -1; }
        Memcpy(buf, at, ShowHeader(h));
        off := at + |ShowHeader(h)|;
    }
    ghost var framing := ShowHeaders(FramingHeaders(r));
    assert buf[..off] == old(buf[..at]) + framing && off == at + |framing|;
    assert |framing + CRLF| == |framing| + 2;
    if off + 2 >= buf.Length { return -1; }
    Memcpy(buf, off, CRLF);
    off := off + 2;
  }

  /** response_serialize: exactly the wire form, or -1 when it does not fit. */
  method SerializeResponse(r: Response, date: Date, buf: array<byte>, keepAlive: bool) returns (size: int)
    modifies buf
    ensures size >= 0 <==> Serialize(r, date, buf.Length, keepAlive).Some?
    ensures size >= 0 ==> size <= buf.Length && buf[..size] == Serialize(r, date, buf.Length, keepAlive).value
  {
    HeadPieces(r, date, keepAlive);
    var off, sawLength := WriteFirst(r, date, buf, keepAlive);
    if off < 0 { return -1; }
    off := WriteFraming(r, buf, off, sawLength);
    if off < 0 { return -1; }
    assert buf[..off] == HeadText(r, date, keepAlive);
    if r.kind.BodyBuffer? && !r.headOnly && |r.kind.body| > 0 {
      if off + |r.kind.body| > buf.Length { return -1; }
      Memcpy(buf, off, r.kind.body);
      off := off + |r.kind.body|;
    }
    return off;
  }

  // ---------------------------------------------------------------- canned error responses

  function Reason(s: ParseStatus): (nat, bytes) {
    match s
    case BadRequest => (400, R_400)
    case PayloadTooLarge => (413, R_413)
    case UriTooLong => (414, R_414)
    case HeaderKeyTooLong => (431, R_431)
    case HeaderValueTooLong => (431, R_431)
    case HeaderTooLong => (431, R_431)
    case NotImplemented => (501, R_501)
    case VersionNotSupported => (505, R_505)
    case NotFound => (404, R_404)
    case _ => (500, R_500)
  }

  /** response_error_from_status: the body is the reason with its terminating NUL. */
  function ErrorResponse(s: ParseStatus): Response {
    var (status, reason) := Reason(s);
    Response(status, reason, [], BodyBuffer(reason + [0]), false)
  }

  /** A canned error always fits the response buffer. */
  lemma ErrorFits(s: ParseStatus, date: Date, keepAlive: bool)
    ensures Serialize(ErrorResponse(s), date, RESPONSE_BUFFER_SIZE, keepAlive).Some?
    ensures |Serialize(ErrorResponse(s), date, RESPONSE_BUFFER_SIZE, keepAlive).value| > 0
  {
    ReasonShort(s);
    ErrorHeadShort(ErrorResponse(s), date, keepAlive);
  }

  lemma ReasonShort(s: ParseStatus)
    ensures Reason(s).0 < 1000 && |Reason(s).1| < 40
  {
  }

  lemma ErrorHeadShort(r: Response, date: Date, keepAlive: bool)
    requires r.status < 1000 && |r.reason| < 40 && r.headers == [] && r.kind.BodyBuffer? && 0 < |r.kind.body| < 1000
    ensures |HeadText(r, date, keepAlive)| < 1000
  {
    HeadPieces(r, date, keepAlive);
    ShortDigits(r.status);
    ShortDigits(|r.kind.body|);
    ShowOne(Header(CONTENT_LENGTH_KEY, Digits(|r.kind.body|, 10)));
  }

  lemma ShortDigits(n: nat)
    requires n < 1000
    ensures |Digits(n, 10)| <= 3
  {
    assert Power(10, 3) == 10 * (10 * (10 * Power(10, 0)));
    DigitsLength(n, 10, 3);
  }

  /** response_error_serialize: errors are written with "Connection: close". */
  function ErrorBytes(s: ParseStatus, date: Date): bytes {
    ErrorFits(s, date, false);
    Serialize(ErrorResponse(s), date, RESPONSE_BUFFER_SIZE, false).value
  }

  // ---------------------------------------------------------------- what a client reads

  /** Headers a handler may send: printable, and few enough to be read back. */
  predicate Presentable(r: Response) {
    ValidHeaders(r.headers) && Reprintable(r.headers) && |r.headers| + 3 <= MAX_HEADERS
  }

  lemma LengthHeaderValid(n: nat)
    requires n < Power(10, 20)
    ensures var h := Header(CONTENT_LENGTH_KEY, Digits(n, 10)); ValidHeader(h) && |h.value| <= 20
  {
    DigitsDenote(n, 10);
    DigitBytes(Digits(n, 10), 10);
    DigitsLength(n, 10, 20);
  }

  /** Reading the header block of a serialized response gives its headers back, in order. */
  lemma HeadReadsBack(r: Response, date: Date, keepAlive: bool, s: bytes)
    requires Presentable(r) && (r.kind.BodyBuffer? ==> |r.kind.body| < Power(10, 20))
    requires HeadText(r, date, keepAlive) <= s
    ensures ParseBlock(s, |StartLine(r)|, |s|, []) ==
            Success((WireHeaders(r, date, keepAlive), |HeadText(r, date, keepAlive)|))
  {
    var hs := WireHeaders(r, date, keepAlive);
    WireHeadersValid(r, date, keepAlive);
    BlockStands(s, StartLine(r), ShowHeaders(hs));
    StandingHeadersParse(s, |StartLine(r)|, hs, |HeadText(r, date, keepAlive)|);
  }

  lemma BlockStands(s: bytes, first: bytes, block: bytes)
    requires first + block + CRLF <= s
    ensures At(s, |first|, block + CRLF) && |first| + |block| + 2 == |first + block + CRLF| <= |s|
  {
    assert first + block + CRLF == first + (block + CRLF);
    AtSplit(s, 0, first, block + CRLF);
  }

  lemma FramingHeadersValid(r: Response)
    requires r.kind.BodyBuffer? ==> |r.kind.body| < Power(10, 20)
    ensures |FramingHeaders(r)| <= 1 && ValidHeaders(FramingHeaders(r)) && Reprintable(FramingHeaders(r))
  {
    if r.kind.BodyBuffer? { LengthHeaderValid(|r.kind.body|); }
  }

  lemma WireHeadersValid(r: Response, date: Date, keepAlive: bool)
    requires Presentable(r) && (r.kind.BodyBuffer? ==> |r.kind.body| < Power(10, 20))
    ensures ValidHeaders(WireHeaders(r, date, keepAlive)) && Reprintable(WireHeaders(r, date, keepAlive))
  {
    FramingHeadersValid(r);
    FixedHeadersValid(date, keepAlive);
    hide ValidHeader, FramingHeaders, ConnectionHeader;
    var hs := WireHeaders(r, date, keepAlive);
    forall i | 0 <= i < |hs| ensures ValidHeader(hs[i]) && |hs[i].value| <= MAX_HEADER_VALUE_LEN - 2 {
      WireHeaderAt(r, date, keepAlive, i);
    }
  }

  lemma FixedHeadersValid(date: Date, keepAlive: bool)
    ensures ValidHeader(Header(DATE_KEY, date)) && |date| <= MAX_HEADER_VALUE_LEN - 2
    ensures ValidHeader(ConnectionHeader(keepAlive)) && |ConnectionHeader(keepAlive).value| <= MAX_HEADER_VALUE_LEN - 2
  {
  }

  lemma WireHeaderAt(r: Response, date: Date, keepAlive: bool, i: nat)
    requires i < |WireHeaders(r, date, keepAlive)|
    ensures WireHeaders(r, date, keepAlive)[i] ==
            if i == 0 then Header(DATE_KEY, date)
            else if i <= |r.headers| then r.headers[i - 1]
            else if i == |r.headers| + 1 then ConnectionHeader(keepAlive)
            else FramingHeaders(r)[i - |r.headers| - 2]
  {
  }

  /**
   The Content-Length that the server generates is recovered by the server's own header and
   number parsers, and is exactly the number of bytes after the blank line.
   */
  lemma GeneratedLengthIsBodyLength(r: Response, date: Date, cap: nat, keepAlive: bool, wire: bytes)
    requires Presentable(r) && r.kind.BodyBuffer? && !r.headOnly && 0 < |r.kind.body| <= MAX_BODY_LEN
    requires !HasContentLength(r.headers) && Serialize(r, date, cap, keepAlive) == Some(wire)
    ensures var block := ParseBlock(wire, |StartLine(r)|, |wire|, []);
      && block.Success?
      && var (headers, bodyStart) := block.value;
      && Find(headers, CONTENT_LENGTH_KEY).Some?
      && UintParse(Find(headers, CONTENT_LENGTH_KEY).value.value, 10, MAX_BODY_LEN) == Success(|wire| - bodyStart)
      && wire[bodyStart..] == r.kind.body
  {
    BodyWithinPower();
    HeadReadsBack(r, date, keepAlive, wire);
    FindLast(WireHeaders(r, date, keepAlive), CONTENT_LENGTH_KEY);
    OnlyLengthHeader(r, date, keepAlive);
    ParseInvertsPrint(|r.kind.body|, 10, MAX_BODY_LEN);
  }

  lemma BodyWithinPower()
    ensures MAX_BODY_LEN < Power(10, 20)
  {
    assert Power(10, 7) == 10_000_000;
    PowerGrows(7, 20);
  }

  lemma {:induction false} PowerGrows(k: nat, m: nat)
    requires k <= m
    ensures Power(10, k) <= Power(10, m)
    decreases m
  {
    if k < m { PowerGrows(k, m - 1); }
  }

  /** A name that only the last header has is found there. */
  lemma {:induction false} FindLast(headers: seq<Header>, name: bytes)
    ensures headers != [] && EqualIgnoreCase(headers[|headers| - 1].key, name)
            && (forall i :: 0 <= i < |headers| - 1 ==> !EqualIgnoreCase(headers[i].key, name))
            ==> Find(headers, name) == Some(headers[|headers| - 1])
    decreases |headers|
  {
    if |headers| > 1 {
      FindLast(headers[1..], name);
    }
  }

  lemma OnlyLengthHeader(r: Response, date: Date, keepAlive: bool)
    requires r.kind.BodyBuffer? && r.kind.body != [] && !HasContentLength(r.headers)
    ensures var hs := WireHeaders(r, date, keepAlive);
      && hs[|hs| - 1] == Header(CONTENT_LENGTH_KEY, Digits(|r.kind.body|, 10))
      && (forall i :: 0 <= i < |hs| - 1 ==> !EqualIgnoreCase(hs[i].key, CONTENT_LENGTH_KEY))
  {
    var hs := WireHeaders(r, date, keepAlive);
    var n := |r.headers|;
    forall i | 0 <= i < |hs| - 1 ensures !EqualIgnoreCase(hs[i].key, CONTENT_LENGTH_KEY) {
      if 1 <= i <= n {
        assert hs[i] == r.headers[i - 1];
      } else {
        assert i == n + 1 ==> hs[i] == ConnectionHeader(keepAlive);
      }
    }
  }
}
