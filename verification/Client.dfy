/**
 How a client finds the end of a response (section 6.3 of RFC 9112), with the server's own
 line, header, number and chunk parsers, and which responses of the server let it.
 */
module Clients {
  import opened Bytes
  import opened Config
  import opened Numbers
  import opened ChunkSpec
  import opened ChunkFrame
  import opened Headers
  import opened Requests
  import opened TransferEncoding
  import opened Admissions
  import opened Responses

  // ---------------------------------------------------------------- the client

  /** Interim responses, 204 and 304 have no body whatever their headers say. */
  predicate Bodiless(status: nat) { 100 <= status < 200 || status == 204 || status == 304 }

  /** The status of a status line: the number between the version and the next space. */
  function StatusOf(line: bytes): Parsed<nat> {
    var sp := if |line| < |HTTP_1_1_SP| then |line| else FindByte(line, SP, |HTTP_1_1_SP|, |line|);
    if sp == |line| then Failure(BadRequest) else UintParse(line[|HTTP_1_1_SP|..sp], 10, 999)
  }

  /** Where a body that starts at `start` ends; none when it is not all there, or ends with the connection. */
  function BodyEnd(s: bytes, start: nat, status: nat, headers: seq<Header>): Option<nat> {
    if start > |s| then None
    else if Bodiless(status) then Some(start)
    else
      match CodingOf(headers, 0, ParseOk, TeNone)
      case (ParseOk, TeChunked) =>
        var d := Decode(s[start..], |s|);
        if d.verdict == Complete then Some(start + d.pos) else None
      case (ParseOk, TeNone) =>
        var length := Find(headers, CONTENT_LENGTH_KEY);
        if length.None? then None
        else
          var n := UintParse(length.value.value, 10, MAX_BODY_LEN);
          if n.Success? && start + n.value <= |s| then Some(start + n.value) else None
      case _ => None
  }

  /** The length of the first response on a stream, if the stream tells and holds all of it. */
  function FirstLength(s: bytes): Option<nat> {
    var eol := FindCrlf(s, 0, |s|);
    if eol == |s| then None
    else
      var status, block := StatusOf(s[..eol]), ParseBlock(s, eol + 2, |s|, []);
      if status.Failure? || block.Failure? then None
      else BodyEnd(s, block.value.1, status.value, block.value.0)
  }

  /** The responses of a stream, as long as each tells its length. */
  function Split(s: bytes): seq<bytes>
    decreases |s|
  {
    match FirstLength(s)
    case None => []
    case Some(n) => if 0 < n <= |s| then [s[..n]] + Split(s[n..]) else []
  }

  /** A response whose end is found, whatever follows it. */
  ghost predicate TellsItsEnd(text: bytes) {
    forall rest: bytes :: FirstLength(text + rest) == Some(|text|)
  }

  ghost predicate AllTell(texts: seq<bytes>) {
    forall i :: 0 <= i < |texts| ==> TellsItsEnd(texts[i]) && texts[i] != []
  }

  /** Responses that tell their ends are told apart, one after the other. */
  lemma {:induction false} SplitBack(texts: seq<bytes>, rest: bytes)
    requires AllTell(texts)
    ensures Split(Concat(texts) + rest) == texts + Split(rest)
  {
    hide FirstLength;
    if texts == [] {
      assert Concat(texts) + rest == rest && texts + Split(rest) == Split(rest);
    } else {
      var first, tail := texts[0], texts[1..];
      SplitBack(tail, rest);
      var after := Concat(tail) + rest;
      assert Concat(texts) + rest == first + after;
      assert FirstLength(first + after) == Some(|first|);
      assert (first + after)[..|first|] == first && (first + after)[|first|..] == after;
      assert texts + Split(rest) == [first] + (tail + Split(rest));
    }
  }

  // ---------------------------------------------------------------- responses under way

  /** More room does not change what is decoded in full. */
  lemma {:induction false} MoreRoom(d: Decoder, s: bytes, pos: nat, out: bytes, cap: nat, room: nat)
    requires d.Valid() && pos <= |s| && |out| <= cap <= room && Drain(d, s, pos, out, cap).verdict == Complete
    ensures Drain(d, s, pos, out, room) == Drain(d, s, pos, out, cap)
    decreases |s| - pos
  {
    var a := Advance(d, s, pos, cap - |out|);
    assert Advance(d, s, pos, room - |out|) == a;
    if StepVerdict(a) == More && a.status == ParseOk { MoreRoom(a.dec, s, a.next, out + a.out, cap, room); }
  }

  /** Headers that are all there stay the same. */
  lemma {:induction false} BlockExtends(s: bytes, t: bytes, cur: nat, headers: seq<Header>)
    requires cur <= |s| && ParseBlock(s, cur, |s|, headers).Success?
    ensures ParseBlock(s + t, cur, |s + t|, headers) == ParseBlock(s, cur, |s|, headers)
    decreases |s| - cur
  {
    hide ParseHeaderLine, FindCrlf;
    if !CrlfIn(s, cur, |s|) {
      BlockStep(s, cur, |s|, headers);
      var eol := FindCrlf(s, cur, |s|);
      FindExtend(s, t, cur);
      NotCrlf(s, t, cur, eol);
      BlockStep(s + t, cur, |s + t|, headers);
      assert (s + t)[cur..eol] == s[cur..eol] && ByteAt(s + t, eol) == ByteAt(s, eol);
      var h := ParseHeaderLine(s[cur..eol], ByteAt(s, eol), |headers|);
      BlockExtends(s, t, eol + 2, headers + [h.value]);
    }
  }

  lemma NotCrlf(s: bytes, t: bytes, cur: nat, eol: nat)
    requires cur <= |s| && eol == FindCrlf(s, cur, |s|) < |s| && !CrlfIn(s, cur, |s|)
    ensures !CrlfIn(s + t, cur, |s + t|) && cur < eol
  {
    assert eol != cur;
  }

  lemma BodyEndExtends(s: bytes, t: bytes, start: nat, status: nat, headers: seq<Header>)
    requires BodyEnd(s, start, status, headers).Some?
    ensures BodyEnd(s + t, start, status, headers) == BodyEnd(s, start, status, headers)
  {
    hide CodingOf, Find, Drain, UintParse;
    if !Bodiless(status) && CodingOf(headers, 0, ParseOk, TeNone) == (ParseOk, TeChunked) {
      var raw := s[start..];
      assert (s + t)[start..] == raw + t;
      MoreRoom(START, raw, 0, [], |s|, |s + t|);
      VerdictStable(START, raw, t, 0, [], |s + t|);
    }
  }

  /** Once the end of the first response is found, what follows does not move it. */
  lemma FirstLengthExtends(s: bytes, t: bytes)
    requires FirstLength(s).Some?
    ensures FirstLength(s + t) == FirstLength(s)
  {
    hide ParseBlock, StatusOf, BodyEnd, FindCrlf;
    var eol := FindCrlf(s, 0, |s|);
    FindExtend(s, t, 0);
    assert (s + t)[..eol] == s[..eol];
    BlockExtends(s, t, eol + 2, []);
    var block := ParseBlock(s, eol + 2, |s|, []).value;
    BodyEndExtends(s, t, block.1, StatusOf(s[..eol]).value, block.0);
  }

  /** A client never takes a part of a response for the whole: it finds no end in it. */
  lemma PartUnsplit(part: bytes, text: bytes)
    requires TellsItsEnd(text) && part <= text && part != text
    ensures Split(part) == []
  {
    hide FirstLength;
    assert text + [] == text && part + text[|part|..] == text;
    assert FirstLength(text + []) == Some(|text|);
    if FirstLength(part).Some? { FirstLengthExtends(part, text[|part|..]); }
  }

  // ---------------------------------------------------------------- what the server writes

  /** A response whose framing is left to the server: readable headers, none of them about framing. */
  predicate ServerFramed(r: Response) {
    && Presentable(r) && CR !in r.reason && 100 <= r.status <= 999 && !r.headOnly
    && !HasContentLength(r.headers) && !HasCoding(r.headers)
    && (r.kind.BodyBuffer? ==> |r.kind.body| <= MAX_BODY_LEN)
  }

  predicate HasCoding(headers: seq<Header>) {
    exists i :: 0 <= i < |headers| && EqualIgnoreCase(headers[i].key, TRANSFER_ENCODING)
  }

  /** The response says where it ends: it has a body and may have one, or neither. */
  predicate SaysLength(r: Response) {
    if Bodiless(r.status) then !r.kind.BodyStream? && BodyBytes(r) == []
    else r.kind.BodyStream? || BodyBytes(r) != []
  }

  /** The status line without its CRLF. */
  function StatusText(r: Response): bytes { HTTP_1_1_SP + Digits(r.status, 10) + [SP] + r.reason }

  lemma StatusDigits(r: Response)
    ensures var d := Digits(r.status, 10); CR !in d && SP !in d
  {
    var d := Digits(r.status, 10);
    DigitsDenote(r.status, 10);
    DigitBytes(d, 10);
  }

  lemma StatusHasNoCr(r: Response)
    requires CR !in r.reason
    ensures CR !in StatusText(r)
  {
    StatusDigits(r);
    hide Digits;
    assert CR !in HTTP_1_1_SP;
  }

  lemma StatusRead(r: Response)
    requires 100 <= r.status <= 999
    ensures StatusOf(StatusText(r)) == Success(r.status)
  {
    StatusDigits(r);
    ParseInvertsPrint(r.status, 10, 999);
    hide Digits, UintParse;
    var line, digits, n := StatusText(r), Digits(r.status, 10), |HTTP_1_1_SP|;
    assert line[n..n + |digits|] == digits;
    forall j | n <= j < n + |digits| ensures line[j] != SP {
      assert line[j] == line[n..n + |digits|][j - n];
    }
    assert line[n + |digits|] == SP;
    FindByteUnique(line, SP, n, |line|, n + |digits|);
  }

  lemma StatusLineRead(r: Response, s: bytes)
    requires CR !in r.reason && StartLine(r) <= s
    ensures var k := |StatusText(r)|;
      k + 2 == |StartLine(r)| <= |s| && FindCrlf(s, 0, |s|) == k && s[..k] == StatusText(r)
  {
    StatusHasNoCr(r);
    var line := StatusText(r);
    var k := |line|;
    assert StartLine(r) == line + CRLF;
    hide StatusText, StartLine;
    TextIsLine(s, 0, |s|, line);
  }

  /** The first response of a stream that begins with a head of the server's. */
  lemma HeadRead(r: Response, date: Date, keepAlive: bool, s: bytes)
    requires ServerFramed(r) && HeadText(r, date, keepAlive) <= s
    ensures FirstLength(s) ==
            BodyEnd(s, |HeadText(r, date, keepAlive)|, r.status, WireHeaders(r, date, keepAlive))
  {
    hide *;
    FramedParts(r);
    HeadBegins(r, date, keepAlive, s);
    StatusLineRead(r, s);
    StatusRead(r);
    HeadReadsBack(r, date, keepAlive, s);
    FirstIs(s, |StatusText(r)|, r.status, WireHeaders(r, date, keepAlive), |HeadText(r, date, keepAlive)|);
  }

  lemma FramedParts(r: Response)
    requires ServerFramed(r)
    ensures Presentable(r) && CR !in r.reason && 100 <= r.status <= 999
    ensures r.kind.BodyBuffer? ==> |r.kind.body| < Power(10, 20)
  {
    BodyWithinPower();
  }

  lemma HeadBegins(r: Response, date: Date, keepAlive: bool, s: bytes)
    requires HeadText(r, date, keepAlive) <= s
    ensures StartLine(r) <= s
  {
    hide StartLine, WireHeaders;
  }

  lemma FirstIs(s: bytes, eol: nat, status: nat, headers: seq<Header>, next: nat)
    requires eol + 2 <= |s| && FindCrlf(s, 0, |s|) == eol && StatusOf(s[..eol]) == Success(status)
    requires ParseBlock(s, eol + 2, |s|, []) == Success((headers, next))
    ensures FirstLength(s) == BodyEnd(s, next, status, headers)
  {
    hide ParseBlock, StatusOf, BodyEnd, FindCrlf;
  }

  /** Only the last header may be about transfer coding. */
  lemma {:induction false} LastLine(headers: seq<Header>, i: nat)
    requires i < |headers|
    requires forall j :: i <= j < |headers| - 1 ==> !EqualIgnoreCase(headers[j].key, TRANSFER_ENCODING)
    ensures var last := headers[|headers| - 1];
      CodingLines(headers, i) ==
      if EqualIgnoreCase(last.key, TRANSFER_ENCODING) then [CodingNames(last.value)] else []
    decreases |headers| - i
  {
    hide CodingNames, EqualIgnoreCase;
    assert CodingLines(headers, |headers|) == [];
    if i < |headers| - 1 { LastLine(headers, i + 1); }
  }

  lemma FramingNames()
    ensures !EqualIgnoreCase(DATE_KEY, TRANSFER_ENCODING) && !EqualIgnoreCase(CONNECTION_KEY, TRANSFER_ENCODING)
    ensures !EqualIgnoreCase(DATE_KEY, CONTENT_LENGTH_KEY) && !EqualIgnoreCase(CONNECTION_KEY, CONTENT_LENGTH_KEY)
    ensures !EqualIgnoreCase(CONTENT_LENGTH_KEY, TRANSFER_ENCODING)
    ensures EqualIgnoreCase(TRANSFER_ENCODING_KEY, TRANSFER_ENCODING)
  {
  }

  lemma WireCoding(r: Response, date: Date, keepAlive: bool)
    requires ServerFramed(r)
    ensures CodingOf(WireHeaders(r, date, keepAlive), 0, ParseOk, TeNone) ==
            (ParseOk, if r.kind.BodyStream? then TeChunked else TeNone)
  {
    var hs := WireHeaders(r, date, keepAlive);
    FramingNames();
    forall j | 0 <= j < |hs| - 1 ensures !EqualIgnoreCase(hs[j].key, TRANSFER_ENCODING) {
      WireHeaderAt(r, date, keepAlive, j);
    }
    WireHeaderAt(r, date, keepAlive, |hs| - 1);
    LastLine(hs, 0);
    CodingIsLines(hs, 0, TeNone);
    ChunkedOnce();
    hide EqualIgnoreCase, WireHeaders;
  }

  lemma ChunkedOnce()
    ensures LinesVerdict([CodingNames(CHUNKED_VALUE)]) == (ParseOk, TeChunked)
  {
    ChunkedIsToken(CHUNKED_VALUE);
    TokenIsName(CHUNKED_VALUE);
  }

  lemma WireLength(r: Response, date: Date, keepAlive: bool)
    requires ServerFramed(r) && !r.kind.BodyStream?
    ensures var h := Find(WireHeaders(r, date, keepAlive), CONTENT_LENGTH_KEY);
      if BodyBytes(r) == [] then h.None?
      else h.Some? && UintParse(h.value.value, 10, MAX_BODY_LEN) == Success(|BodyBytes(r)|)
  {
    var hs := WireHeaders(r, date, keepAlive);
    if BodyBytes(r) == [] {
      FramingNames();
      forall i | 0 <= i < |hs| ensures !EqualIgnoreCase(hs[i].key, CONTENT_LENGTH_KEY) {
        WireHeaderAt(r, date, keepAlive, i);
      }
    } else {
      FindLast(hs, CONTENT_LENGTH_KEY);
      OnlyLengthHeader(r, date, keepAlive);
      ParseInvertsPrint(|r.kind.body|, 10, MAX_BODY_LEN);
    }
  }

  /**
   A response that the server frames tells a client its end if and only if it has a body and
   its status allows one, or it has none and its status allows none. A 200 without a body does
   not: it ends only with the connection.
   */
  lemma PlainTellsExactly(r: Response, date: Date, keepAlive: bool)
    requires ServerFramed(r) && !r.kind.BodyStream?
    ensures TellsItsEnd(HeadText(r, date, keepAlive) + BodyBytes(r)) <==> SaysLength(r)
  {
    hide HeadText, FirstLength, BodyBytes, ServerFramed;
    var text := HeadText(r, date, keepAlive) + BodyBytes(r);
    forall rest: bytes ensures FirstLength(text + rest) == Some(|text|) <==> SaysLength(r) {
      PlainLength(r, date, keepAlive, text + rest);
      Prefixes(HeadText(r, date, keepAlive), BodyBytes(r), text + rest);
      SaysPlain(r);
    }
    assert TellsItsEnd(text) ==> FirstLength(text + []) == Some(|text|);
  }

  lemma PlainLength(r: Response, date: Date, keepAlive: bool, s: bytes)
    requires ServerFramed(r) && !r.kind.BodyStream? && HeadText(r, date, keepAlive) + BodyBytes(r) <= s
    ensures var n := |HeadText(r, date, keepAlive)|;
      FirstLength(s) == if Bodiless(r.status) then Some(n)
                        else if BodyBytes(r) == [] then None else Some(n + |BodyBytes(r)|)
  {
    hide *;
    Prefixes(HeadText(r, date, keepAlive), BodyBytes(r), s);
    HeadRead(r, date, keepAlive, s);
    WireCoding(r, date, keepAlive);
    WireLength(r, date, keepAlive);
    PlainEnd(s, |HeadText(r, date, keepAlive)|, r.status, WireHeaders(r, date, keepAlive), |BodyBytes(r)|);
  }

  lemma Prefixes(head: bytes, body: bytes, s: bytes)
    requires head + body <= s
    ensures head <= s && |head| + |body| == |head + body| <= |s|
  {
  }

  lemma SaysPlain(r: Response)
    requires !r.kind.BodyStream?
    ensures SaysLength(r) <==> (Bodiless(r.status) <==> BodyBytes(r) == [])
  {
  }

  /** The end of a body of `n` bytes that is not chunked. */
  lemma PlainEnd(s: bytes, start: nat, status: nat, headers: seq<Header>, n: nat)
    requires start + n <= |s| && CodingOf(headers, 0, ParseOk, TeNone) == (ParseOk, TeNone)
    requires var h := Find(headers, CONTENT_LENGTH_KEY);
      if n == 0 then h.None? else h.Some? && UintParse(h.value.value, 10, MAX_BODY_LEN) == Success(n)
    ensures BodyEnd(s, start, status, headers) ==
            if Bodiless(status) then Some(start) else if n == 0 then None else Some(start + n)
  {
    hide CodingOf, Find, UintParse;
  }

  /** The text of a streamed response tells its end if and only if its status allows a body. */
  lemma StreamTellsExactly(r: Response, date: Date, keepAlive: bool, payloads: seq<bytes>)
    requires ServerFramed(r) && r.kind.BodyStream? && Sendable(payloads)
    ensures TellsItsEnd(HeadText(r, date, keepAlive) + Frames(payloads) + LAST_FRAME) <==> SaysLength(r)
  {
    hide HeadText, FirstLength, Frames, ServerFramed;
    var head, framed := HeadText(r, date, keepAlive), Frames(payloads) + LAST_FRAME;
    var text := head + Frames(payloads) + LAST_FRAME;
    assert text == head + framed;
    forall rest: bytes ensures FirstLength(text + rest) == Some(|text|) <==> SaysLength(r) {
      assert text + rest == head + (framed + rest);
      StreamLength(r, date, keepAlive, payloads, rest);
    }
    assert TellsItsEnd(text) ==> FirstLength(text + []) == Some(|text|);
  }

  lemma StreamLength(r: Response, date: Date, keepAlive: bool, payloads: seq<bytes>, rest: bytes)
    requires ServerFramed(r) && r.kind.BodyStream? && Sendable(payloads)
    ensures var head, framed := HeadText(r, date, keepAlive), Frames(payloads) + LAST_FRAME;
      FirstLength(head + (framed + rest)) == Some(|head + framed|) <==> SaysLength(r)
  {
    hide *;
    var head, framed := HeadText(r, date, keepAlive), Frames(payloads) + LAST_FRAME;
    var s := head + (framed + rest);
    Behind(head, framed, rest);
    HeadRead(r, date, keepAlive, s);
    WireCoding(r, date, keepAlive);
    FramesEnd(payloads, rest, |s|);
    ChunkedEnd(s, |head|, r.status, WireHeaders(r, date, keepAlive));
    SaysStream(r);
  }

  lemma FramesEnd(payloads: seq<bytes>, rest: bytes, cap: nat)
    requires Sendable(payloads) && |Frames(payloads) + LAST_FRAME| <= cap
    ensures var framed := Frames(payloads) + LAST_FRAME;
      var d := Decode(framed + rest, cap);
      |framed| > 0 && d.verdict == Complete && d.pos == |framed|
  {
    hide Decode, Frames;
    assert |LAST_FRAME| == 5;
    FramesLonger(payloads);
    FramesDecode(payloads, rest, cap);
  }

  lemma Behind(head: bytes, framed: bytes, rest: bytes)
    ensures var s := head + (framed + rest); head <= s && s[|head|..] == framed + rest
    ensures |head + framed| == |head| + |framed| <= |head + (framed + rest)|
  {
  }

  lemma SaysStream(r: Response)
    requires r.kind.BodyStream?
    ensures SaysLength(r) <==> !Bodiless(r.status)
  {
  }

  lemma ChunkedEnd(s: bytes, start: nat, status: nat, headers: seq<Header>)
    requires start <= |s| && CodingOf(headers, 0, ParseOk, TeNone) == (ParseOk, TeChunked)
    requires Decode(s[start..], |s|).verdict == Complete
    ensures BodyEnd(s, start, status, headers) ==
            Some(if Bodiless(status) then start else start + Decode(s[start..], |s|).pos)
  {
    hide CodingOf, Find, Decode;
  }

  lemma {:induction false} FramesLonger(payloads: seq<bytes>)
    ensures |Concat(payloads)| <= |Frames(payloads)|
  {
    if payloads != [] { FramesLonger(payloads[1..]); }
  }

  /** "OK" */
  const OK: bytes := [79, 75]

  function EmptyOk(): Response { Response(200, OK, [], BodyNone, false) }

  /** Such a response: behind a 200 without a body a client finds no response at all. */
  lemma EmptyOkUntold(date: Date, keepAlive: bool, rest: bytes)
    ensures ServerFramed(EmptyOk()) && Split(HeadText(EmptyOk(), date, keepAlive) + rest) == []
  {
    hide HeadText, FirstLength;
    var head := HeadText(EmptyOk(), date, keepAlive);
    assert head + BodyBytes(EmptyOk()) == head;
    PlainLength(EmptyOk(), date, keepAlive, head + rest);
  }

  // ---------------------------------------------------------------- canned responses

  /** Every canned error tells its end. */
  lemma ErrorSaysLength(status: ParseStatus)
    ensures ServerFramed(ErrorResponse(status)) && SaysLength(ErrorResponse(status))
  {
    ReasonShort(status);
    ReasonPlain(status);
  }

  lemma ReasonPlain(status: ParseStatus)
    ensures CR !in Reason(status).1 && 400 <= Reason(status).0 <= 599
  {
  }

  lemma SerializedTells(r: Response, date: Date, cap: nat, keepAlive: bool)
    requires ServerFramed(r) && !r.kind.BodyStream? && SaysLength(r)
    ensures Serialize(r, date, cap, keepAlive).Some? ==> TellsItsEnd(Serialize(r, date, cap, keepAlive).value)
  {
    PlainTellsExactly(r, date, keepAlive);
    hide HeadText, TellsItsEnd, SaysLength, ServerFramed;
  }
}
