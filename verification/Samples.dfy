/** Requests small enough to write down, as witnesses for what can happen. */
module Samples {
  import opened Bytes
  import opened Config
  import opened Numbers
  import opened RequestLines
  import opened Headers
  import opened Requests
  import opened TransferEncoding
  import opened Admissions
  import opened Responses

  /** "Host" */
  const HOST_KEY: bytes := [72, 111, 115, 116]
  const HOST_HEADER: Header := Header(HOST_KEY, [97])
  const CLOSE_HEADER: Header := Header(CONNECTION_KEY, CLOSE)

  function LengthHeader(n: nat): Header { Header(CONTENT_LENGTH_KEY, Digits(n, 10)) }

  const LINE: RequestLine := RequestLine(GET, [SLASH], [], HTTP_SLASH + V_1_1)

  lemma FindFirst(h: Header, rest: seq<Header>, name: bytes)
    ensures Find([h] + rest, name) == if EqualIgnoreCase(h.key, name) then Some(h) else Find(rest, name)
  {
    assert ([h] + rest)[1..] == rest;
  }

  lemma HostMatches()
    ensures EqualIgnoreCase(HOST_KEY, HOST) && EqualIgnoreCase(CONTENT_LENGTH_KEY, CONTENT_LENGTH)
    ensures EqualIgnoreCase(CONNECTION_KEY, CONNECTION) && !EqualIgnoreCase(KEEP_ALIVE_TOKEN, CLOSE)
    ensures !IsHttp10(LINE)
  {
    assert ToLower(LINE.version[5]) == HTTP_1_0[5] && ToLower(LINE.version[7]) != HTTP_1_0[7];
  }

  lemma HostOnly(name: bytes)
    ensures Find([HOST_HEADER], name) == if EqualIgnoreCase(HOST_KEY, name) then Some(HOST_HEADER) else None
  {
    FindFirst(HOST_HEADER, [], name);
    assert [HOST_HEADER] + [] == [HOST_HEADER];
  }

  /** GET / with a Host header: no body, kept alive. */
  lemma SimpleAdmitted()
    ensures AdmissionOf(LINE, [HOST_HEADER]) == Admit(TeNone, 0, false)
    ensures WantsKeepAlive(LINE, [HOST_HEADER]) && Find([HOST_HEADER], CONTENT_LENGTH).None?
  {
    HostMatches();
    HostOnly(HOST);
    HostOnly(CONNECTION);
    HostOnly(CONTENT_LENGTH);
    HostOnly(EXPECT);
    assert CodingOf([HOST_HEADER], 1, ParseOk, TeNone) == (ParseOk, TeNone);
  }

  function Closing(n: nat): seq<Header> { [HOST_HEADER] + [CLOSE_HEADER] + [LengthHeader(n)] }

  lemma ClosingFind(n: nat, name: bytes)
    ensures Find(Closing(n), name) ==
            if EqualIgnoreCase(HOST_KEY, name) then Some(HOST_HEADER)
            else if EqualIgnoreCase(CONNECTION_KEY, name) then Some(CLOSE_HEADER)
            else if EqualIgnoreCase(CONTENT_LENGTH_KEY, name) then Some(LengthHeader(n))
            else None
  {
    assert Closing(n) == [HOST_HEADER] + ([CLOSE_HEADER] + ([LengthHeader(n)] + []));
    FindFirst(HOST_HEADER, [CLOSE_HEADER] + ([LengthHeader(n)] + []), name);
    FindFirst(CLOSE_HEADER, [LengthHeader(n)] + [], name);
    FindFirst(LengthHeader(n), [], name);
  }

  /** A request of `n` body bytes that asks for the connection to be closed. */
  lemma ClosingAdmitted(n: nat)
    requires 0 < n <= MAX_BODY_LEN
    ensures AdmissionOf(LINE, Closing(n)) == Admit(TeNone, n, false) && !WantsKeepAlive(LINE, Closing(n))
    ensures Find(Closing(n), CONTENT_LENGTH).Some?
  {
    HostMatches();
    ClosingFind(n, HOST);
    ClosingFind(n, CONNECTION);
    ClosingFind(n, CONTENT_LENGTH);
    ClosingFind(n, EXPECT);
    ParseInvertsPrint(n, 10, MAX_BODY_LEN);
    var hs := Closing(n);
    assert hs[0] == HOST_HEADER && hs[1] == CLOSE_HEADER && hs[2] == LengthHeader(n);
    assert CodingOf(hs, 3, ParseOk, TeNone) == (ParseOk, TeNone);
    assert CodingOf(hs, 2, ParseOk, TeNone) == (ParseOk, TeNone);
    assert CodingOf(hs, 1, ParseOk, TeNone) == (ParseOk, TeNone);
  }

  lemma SimpleShown()
    ensures ValidRequestLine(LINE) && ValidHeaders([HOST_HEADER]) && Reprintable([HOST_HEADER])
  {
  }

  const SIMPLE: bytes := ShowRequest(LINE, [HOST_HEADER])

  lemma SimpleShort()
    ensures 0 < |SIMPLE| < 100
  {
    ShowOne(HOST_HEADER);
  }

  // ---------------------------------------------------------------- ambiguous framing

  function TwoLengths(m: nat, n: nat): seq<Header> { [HOST_HEADER] + ([LengthHeader(m)] + [LengthHeader(n)]) }

  lemma TwoLengthsFind(m: nat, n: nat, name: bytes)
    ensures Find(TwoLengths(m, n), name) ==
            if EqualIgnoreCase(HOST_KEY, name) then Some(HOST_HEADER)
            else if EqualIgnoreCase(CONTENT_LENGTH_KEY, name) then Some(LengthHeader(m))
            else None
  {
    assert TwoLengths(m, n) == [HOST_HEADER] + ([LengthHeader(m)] + ([LengthHeader(n)] + []));
    FindFirst(HOST_HEADER, [LengthHeader(m)] + ([LengthHeader(n)] + []), name);
    FindFirst(LengthHeader(m), [LengthHeader(n)] + [], name);
    FindFirst(LengthHeader(n), [], name);
  }

  /** Two different lengths: the first frames the request, and the other order another one. */
  lemma TwoLengthsAdmitted(m: nat, n: nat)
    requires m <= MAX_BODY_LEN && n <= MAX_BODY_LEN
    ensures AdmissionOf(LINE, TwoLengths(m, n)) == Admit(TeNone, m, false)
    ensures WantsKeepAlive(LINE, TwoLengths(m, n))
    ensures IsLength(TwoLengths(m, n)[2])
    ensures AdmissionOf(LINE, Promote(TwoLengths(m, n), 2)) == Admit(TeNone, n, false)
  {
    HostMatches();
    TwoLengthsFind(m, n, HOST);
    TwoLengthsFind(m, n, CONNECTION);
    TwoLengthsFind(m, n, CONTENT_LENGTH);
    TwoLengthsFind(m, n, EXPECT);
    ParseInvertsPrint(m, 10, MAX_BODY_LEN);
    ParseInvertsPrint(n, 10, MAX_BODY_LEN);
    var hs := TwoLengths(m, n);
    assert hs[0] == HOST_HEADER && hs[1] == LengthHeader(m) && hs[2] == LengthHeader(n);
    assert CodingLines(hs, 3) == CodingLines(hs, 2) == CodingLines(hs, 1) == CodingLines(hs, 0) == [];
    CodingIsLines(hs, 0, TeNone);
    PromotedAdmission(LINE, hs, 2);
  }

  const CHUNKED_HEADER: Header := Header(TRANSFER_ENCODING_KEY, CHUNKED_VALUE)

  /** Chunked twice in two lines is accepted; as the one list it is, it would be refused. */
  lemma ChunkedTwiceAccepted()
    ensures CodingOf([CHUNKED_HEADER, CHUNKED_HEADER], 0, ParseOk, TeNone) == (ParseOk, TeChunked)
    ensures Classify(Joined(CodingLines([CHUNKED_HEADER, CHUNKED_HEADER], 0))) == (BadRequest, TeNone)
  {
    var hs := [CHUNKED_HEADER, CHUNKED_HEADER];
    TransferEncodingMatches();
    ChunkedIsToken(CHUNKED_VALUE);
    TokenIsName(CHUNKED_VALUE);
    assert CodingLines(hs, 2) == [];
    assert CodingLines(hs, 1) == [[CHUNKED_VALUE]];
    assert CodingLines(hs, 0) == [[CHUNKED_VALUE], [CHUNKED_VALUE]];
    CodingIsLines(hs, 0, TeNone);
    ChunkedAcceptedExactly(CodingLines(hs, 0));
    assert [[CHUNKED_VALUE], [CHUNKED_VALUE]][1..] == [[CHUNKED_VALUE]] && [[CHUNKED_VALUE]][1..] == [];
    assert Joined([[CHUNKED_VALUE]]) == [CHUNKED_VALUE];
    ChunkedThenMore([CHUNKED_VALUE], [CHUNKED_VALUE]);
  }

  lemma TransferEncodingMatches()
    ensures EqualIgnoreCase(TRANSFER_ENCODING_KEY, TRANSFER_ENCODING) && IsChunked(CHUNKED_VALUE)
  {
  }

  function ChunkedHeaders(): seq<Header> { [HOST_HEADER] + [CHUNKED_HEADER] }

  lemma ChunkedFind(name: bytes)
    ensures Find(ChunkedHeaders(), name) ==
            if EqualIgnoreCase(HOST_KEY, name) then Some(HOST_HEADER)
            else if EqualIgnoreCase(TRANSFER_ENCODING_KEY, name) then Some(CHUNKED_HEADER)
            else None
  {
    FindFirst(HOST_HEADER, [CHUNKED_HEADER], name);
    FindFirst(CHUNKED_HEADER, [], name);
    assert [CHUNKED_HEADER] + [] == [CHUNKED_HEADER];
  }

  /** A Host and chunked coding: admitted, kept alive. */
  lemma ChunkedHeadAdmitted()
    ensures AdmissionOf(LINE, ChunkedHeaders()) == Admit(TeChunked, 0, false)
    ensures WantsKeepAlive(LINE, ChunkedHeaders())
  {
    HostMatches();
    ChunkedFind(HOST);
    ChunkedFind(CONNECTION);
    ChunkedFind(CONTENT_LENGTH);
    ChunkedFind(EXPECT);
    ChunkedCoding();
    hide Find, CodingOf;
  }

  lemma ChunkedHeadShown()
    ensures ValidHeaders(ChunkedHeaders()) && Reprintable(ChunkedHeaders())
  {
    assert CHUNKED_HEADER == ChunkedHeaders()[1];
  }

  lemma ChunkedCoding()
    ensures CodingOf(ChunkedHeaders(), 0, ParseOk, TeNone) == (ParseOk, TeChunked)
  {
    TransferEncodingMatches();
    ChunkedIsToken(CHUNKED_VALUE);
    TokenIsName(CHUNKED_VALUE);
    var hs := ChunkedHeaders();
    assert hs[0] == HOST_HEADER && hs[1] == CHUNKED_HEADER;
    assert CodingLines(hs, 2) == [];
    assert CodingLines(hs, 1) == CodingLines(hs, 0) == [[CHUNKED_VALUE]];
    CodingIsLines(hs, 0, TeNone);
  }

  // ---------------------------------------------------------------- refused but kept alive

  const UNREADABLE: Header := Header(CONTENT_LENGTH_KEY, [120])

  function UnreadableLength(): seq<Header> { [HOST_HEADER] + [UNREADABLE] }

  lemma UnreadableFind(name: bytes)
    ensures Find(UnreadableLength(), name) ==
            if EqualIgnoreCase(HOST_KEY, name) then Some(HOST_HEADER)
            else if EqualIgnoreCase(CONTENT_LENGTH_KEY, name) then Some(UNREADABLE)
            else None
  {
    FindFirst(HOST_HEADER, [UNREADABLE], name);
    FindFirst(UNREADABLE, [], name);
    assert [UNREADABLE] + [] == [UNREADABLE];
  }

  lemma UnreadableShown()
    ensures ValidRequestLine(LINE) && ValidHeaders(UnreadableLength()) && Reprintable(UnreadableLength())
  {
  }

  lemma UnreadableRefused()
    ensures AdmissionOf(LINE, UnreadableLength()) == Refuse(BadRequest) && WantsKeepAlive(LINE, UnreadableLength())
  {
    HostMatches();
    UnreadableFind(HOST);
    UnreadableFind(CONNECTION);
    UnreadableFind(CONTENT_LENGTH);
    var hs := UnreadableLength();
    assert hs[0] == HOST_HEADER && hs[1] == UNREADABLE;
    assert CodingLines(hs, 2) == CodingLines(hs, 1) == CodingLines(hs, 0) == [];
    CodingIsLines(hs, 0, TeNone);
    assert ParseFrom([120], 0, 10, MAX_BODY_LEN, 0) == Failure(BadRequest);
  }
}
