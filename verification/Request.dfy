/**
 Whole request heads (src/HttpRequest.c), and the search for the blank line that
 `conn_recv_header` makes independently (src/Connection.c).
 */
module Requests {
  import opened Bytes
  import opened Config
  import opened RequestLines
  import opened Headers

  /** A request head: the line, the headers and the position after the blank line. */
  datatype Head = Head(line: RequestLine, headers: seq<Header>, next: nat)

  // ---------------------------------------------------------------- the blank-line search

  /** CR LF CR LF stands at `p` and ends at or before `end`. */
  predicate TerminatorAt(s: bytes, p: int, end: int) {
    0 <= p && p + 4 <= end <= |s| && s[p] == CR && s[p + 1] == LF && s[p + 2] == CR && s[p + 3] == LF
  }

  /** memmem for CR LF CR LF: the position of the first one in s[..end]. */
  function FindTerminator(s: bytes, cur: nat, end: nat): (r: Option<nat>)
    requires end <= |s|
    ensures r.Some? ==> cur <= r.value && TerminatorAt(s, r.value, end)
    ensures r.Some? ==> forall j :: cur <= j < r.value ==> !TerminatorAt(s, j, end)
    ensures r.None? ==> forall j :: cur <= j ==> !TerminatorAt(s, j, end)
    decreases end - cur
  {
    if cur + 4 > end then None
    else if TerminatorAt(s, cur, end) then Some(cur)
    else FindTerminator(s, cur + 1, end)
  }

  method TerminatorFind(s: bytes) returns (r: Option<nat>)
    ensures r == FindTerminator(s, 0, |s|)
  {
    var cur := 0;
    while cur + 4 <= |s|
      invariant 0 <= cur
      invariant FindTerminator(s, cur, |s|) == FindTerminator(s, 0, |s|)
    {
      if s[cur] == CR && s[cur + 1] == LF && s[cur + 2] == CR && s[cur + 3] == LF { return Some(cur); }
      cur := cur + 1;
    }
    return None;
  }

  predicate HasTerminator(s: bytes, end: nat)
    requires end <= |s|
  {
    FindTerminator(s, 0, end).Some?
  }

  /** body_start: the position just past the first blank line. */
  function HeadEnd(s: bytes, end: nat): (e: nat)
    requires end <= |s| && HasTerminator(s, end)
    ensures 4 <= e <= end
  {
    FindTerminator(s, 0, end).value + 4
  }

  // ---------------------------------------------------------------- request_parse

  /** The byte that follows a line; 0 stands for a byte past the storage. */
  function ByteAt(s: bytes, i: nat): byte { if i < |s| then s[i] else 0 }

  /** The header lines from `cur` on, up to and including the blank line. */
  function ParseBlock(s: bytes, cur: nat, end: nat, headers: seq<Header>): (r: Parsed<(seq<Header>, nat)>)
    requires cur <= end <= |s|
    decreases end - cur
  {
    if CrlfIn(s, cur, end) then Success((headers, cur + 2))
    else
      var eol := FindCrlf(s, cur, end);
      var h :- ParseHeaderLine(s[cur..eol], ByteAt(s, eol), |headers|);
      if eol == end then Failure(BadRequest) else ParseBlock(s, eol + 2, end, headers + [h])
  }

  /** request_parse on the first `len` bytes of `s`; trailing SP and HTAB are ignored. */
  function ParseRequest(s: bytes, len: nat): Parsed<Head>
    requires len <= |s|
  {
    var end := TrimOws(s, 0, len);
    var eol := FindCrlf(s, 0, end);
    HeadFrom(ParseLine(s[..eol]), s, eol, end)
  }

  /** The head that begins with `line`, which ends at `eol`. */
  function HeadFrom(line: Parsed<RequestLine>, s: bytes, eol: nat, end: nat): Parsed<Head>
    requires eol <= end <= |s| && (eol < end ==> eol + 2 <= end)
  {
    if line.Failure? then Failure(line.status)
    else if eol == end then Failure(BadRequest)
    else HeadOf(line.value, ParseBlock(s, eol + 2, end, []))
  }

  function HeadOf(line: RequestLine, block: Parsed<(seq<Header>, nat)>): Parsed<Head> {
    match block
    case Failure(status) => Failure(status)
    case Success((headers, next)) => Success(Head(line, headers, next))
  }

  /**
   request_parse. It may look at the byte after the last line, so its storage holds a blank
   line within the first `len` bytes or a byte beyond them.
   */
  method RequestParse(s: bytes, len: nat) returns (r: Parsed<Head>)
    requires len < |s| || (len == |s| && HasTerminator(s, len))
    ensures r == ParseRequest(s, len)
  {
    var end := OwsTrimTrailing(s, 0, len);
    var eol := CrlfFind(s, 0, end);
    var line := LineParse(s[..eol]);
    if line.Failure? { return Failure(line.status); }
    if eol == end { return Failure(BadRequest); }
    ghost var p := 0;
    if len == |s| {
      FirstLineBefore(s, len);
      p := HeadEnd(s, len) - 4;
    }
    var block := BlockParse(s, eol + 2, end, p);
    if block.Failure? { return Failure(block.status); }
    return Success(Head(line.value, block.value.0, block.value.1));
  }

  /** The header loop; `p` is where the blank line stands when the storage ends at `end`. */
  method BlockParse(s: bytes, start: nat, end: nat, ghost p: int) returns (r: Parsed<(seq<Header>, nat)>)
    requires start <= end <= |s|
    requires end < |s| || (LineStart(s, start) && start - 2 <= p && TerminatorAt(s, p, end))
    ensures r == ParseBlock(s, start, end, [])
  {
    hide ParseHeaderLine, FindCrlf;
    var cur, headers := start, [];
    while true
      invariant start <= cur <= end
      invariant ParseBlock(s, cur, end, headers) == ParseBlock(s, start, end, [])
      invariant end < |s| || (LineStart(s, cur) && cur - 2 <= p)
      decreases end - cur
    {
      if cur + 2 <= end && s[cur] == CR && s[cur + 1] == LF { return Success((headers, cur + 2)); }
      var eol := CrlfFind(s, cur, end);
      BlockStep(s, cur, end, headers);
      if end == |s| { LineBeforeTerminator(s, cur, end, p); }
      var h := HeaderLineParse(s[cur..eol], s[eol], |headers|);
      if h.Failure? { return Failure(h.status); }
      if eol == end { return Failure(BadRequest); }
      headers := headers + [h.value];
      cur := eol + 2;
    }
  }

  lemma BlockStep(s: bytes, cur: nat, end: nat, headers: seq<Header>)
    requires cur <= end <= |s| && !CrlfIn(s, cur, end)
    ensures var eol := FindCrlf(s, cur, end);
      var h := ParseHeaderLine(s[cur..eol], ByteAt(s, eol), |headers|);
      ParseBlock(s, cur, end, headers) ==
      if h.Failure? then Failure(h.status)
      else if eol == end then Failure(BadRequest)
      else ParseBlock(s, eol + 2, end, headers + [h.value])
  {
  }

  // ---------------------------------------------------------------- the two scanners agree

  /** `cur` is where a line starts: a CRLF ends just before it. */
  predicate LineStart(s: bytes, cur: int) {
    2 <= cur <= |s| && s[cur - 2] == CR && s[cur - 1] == LF
  }

  /** From the start of a non-blank line, the line ends at or before the blank line's CRLF. */
  lemma LineBeforeTerminator(s: bytes, cur: nat, end: nat, p: int)
    requires LineStart(s, cur) && cur <= end <= |s| && cur - 2 <= p && TerminatorAt(s, p, end)
    requires !CrlfIn(s, cur, end)
    ensures cur <= p && FindCrlf(s, cur, end) <= p && FindCrlf(s, cur, end) < end
    ensures LineStart(s, FindCrlf(s, cur, end) + 2)
  {
    assert p != cur - 2 && p != cur - 1;
    assert CrlfIn(s, p, end);
  }

  lemma FirstLineBefore(s: bytes, len: nat)
    requires len <= |s| && HasTerminator(s, len)
    ensures var end := TrimOws(s, 0, len);
      var p := HeadEnd(s, len) - 4;
      && HeadEnd(s, len) <= end
      && FindCrlf(s, 0, end) <= p && LineStart(s, FindCrlf(s, 0, end) + 2) && TerminatorAt(s, p, end)
  {
    var e, end := HeadEnd(s, len), TrimOws(s, 0, len);
    assert !IsOws(s[e - 1]);
    assert CrlfIn(s, e - 4, end);
  }

  lemma FindCrlfAgrees(s: bytes, cur: nat, end: nat, e: nat)
    requires cur <= e <= end <= |s| && FindCrlf(s, cur, end) + 2 <= e
    ensures FindCrlf(s[..e], cur, e) == FindCrlf(s, cur, end)
  {
    var p, t := FindCrlf(s, cur, end), s[..e];
    forall j | cur <= j < p ensures !CrlfIn(t, j, e) {
      assert !CrlfIn(s, j, end);
    }
    FindCrlfUnique(t, cur, e, p);
  }

  /** The header loop stops at the first blank line and reads nothing beyond it. */
  lemma {:induction false} BlockAgrees(s: bytes, cur: nat, end: nat, e: nat, headers: seq<Header>)
    requires LineStart(s, cur) && 4 <= e <= end <= |s| && cur <= e - 2
    requires TerminatorAt(s, e - 4, end) && forall j :: 0 <= j < e - 4 ==> !TerminatorAt(s, j, end)
    ensures ParseBlock(s, cur, end, headers) == ParseBlock(s[..e], cur, e, headers)
    ensures ParseBlock(s, cur, end, headers).Success? ==> ParseBlock(s, cur, end, headers).value.1 == e
    decreases end - cur
  {
    hide ParseHeaderLine, FindCrlf;
    var t := s[..e];
    if CrlfIn(s, cur, end) {
      assert TerminatorAt(s, cur - 2, end);
    } else {
      LineBeforeTerminator(s, cur, end, e - 4);
      var eol := FindCrlf(s, cur, end);
      FindCrlfAgrees(s, cur, end, e);
      assert t[cur..eol] == s[cur..eol];
      assert ByteAt(t, eol) == ByteAt(s, eol);
      var h := ParseHeaderLine(s[cur..eol], ByteAt(s, eol), |headers|);
      if h.Success? { BlockAgrees(s, eol + 2, end, e, headers + [h.value]); }
    }
  }

  /**
   The two scanners agree. Whenever the buffer holds a blank line, request_parse depends only
   on the bytes through the first one, and when it accepts, it stops exactly at the
   `body_start` that conn_recv_header found on its own.
   */
  lemma ScannersAgree(s: bytes, len: nat)
    requires len <= |s| && HasTerminator(s, len)
    ensures var e := HeadEnd(s, len);
      && ParseRequest(s, len) == ParseRequest(s[..e], e)
      && (ParseRequest(s, len).Success? ==> ParseRequest(s, len).value.next == e)
  {
    var e := HeadEnd(s, len);
    FirstLineBefore(s, len);
    assert TrimOws(s[..e], 0, e) == e;
    forall j | 0 <= j < e - 4 ensures !TerminatorAt(s, j, TrimOws(s, 0, len)) {
      assert !TerminatorAt(s, j, len);
    }
    HeadAgrees(s, len, e);
  }

  lemma HeadAgrees(s: bytes, len: nat, e: nat)
    requires len <= |s| && 4 <= e <= TrimOws(s, 0, len) && TrimOws(s[..e], 0, e) == e
    requires var end := TrimOws(s, 0, len);
      && TerminatorAt(s, e - 4, end) && (forall j :: 0 <= j < e - 4 ==> !TerminatorAt(s, j, end))
      && FindCrlf(s, 0, end) <= e - 4 && LineStart(s, FindCrlf(s, 0, end) + 2)
    ensures ParseRequest(s, len) == ParseRequest(s[..e], e)
    ensures ParseRequest(s, len).Success? ==> ParseRequest(s, len).value.next == e
  {
    var end := TrimOws(s, 0, len);
    var eol := FindCrlf(s, 0, end);
    FindCrlfAgrees(s, 0, end, e);
    assert s[..e][..eol] == s[..eol];
    HeadFromAgrees(ParseLine(s[..eol]), s, eol, end, e);
  }

  lemma HeadFromAgrees(line: Parsed<RequestLine>, s: bytes, eol: nat, end: nat, e: nat)
    requires 4 <= e <= end <= |s| && eol <= e - 4 && LineStart(s, eol + 2)
    requires TerminatorAt(s, e - 4, end) && (forall j :: 0 <= j < e - 4 ==> !TerminatorAt(s, j, end))
    ensures HeadFrom(line, s, eol, end) == HeadFrom(line, s[..e], eol, e)
    ensures HeadFrom(line, s, eol, end).Success? ==> HeadFrom(line, s, eol, end).value.next == e
  {
    BlockAgrees(s, eol + 2, end, e, []);
  }

  /** A blank line, once buffered, stays the first one as more bytes arrive. */
  lemma HeadEndExtend(s: bytes, t: bytes)
    requires HasTerminator(s, |s|)
    ensures HasTerminator(s + t, |s + t|) && HeadEnd(s + t, |s + t|) == HeadEnd(s, |s|)
  {
    var p := FindTerminator(s, 0, |s|).value;
    assert TerminatorAt(s + t, p, |s + t|);
    forall j | 0 <= j < p ensures !TerminatorAt(s + t, j, |s + t|) {
      assert !TerminatorAt(s, j, |s|);
    }
  }

  // ---------------------------------------------------------------- printing

  function ShowHeaders(headers: seq<Header>): bytes {
    if headers == [] then [] else ShowHeader(headers[0]) + ShowHeaders(headers[1..])
  }

  /** A request head as the server's own printers write its parts. */
  function ShowRequest(line: RequestLine, headers: seq<Header>): bytes {
    ShowLine(line) + CRLF + (ShowHeaders(headers) + CRLF)
  }

  predicate ValidHeaders(headers: seq<Header>) {
    |headers| <= MAX_HEADERS && forall i :: 0 <= i < |headers| ==> ValidHeader(headers[i])
  }

  /** Every value leaves room for the space that is printed before it. */
  predicate Reprintable(headers: seq<Header>) {
    forall i :: 0 <= i < |headers| ==> |headers[i].value| <= MAX_HEADER_VALUE_LEN - 2
  }

  /** A text without CR, followed by a CRLF, is a line. */
  lemma TextIsLine(s: bytes, pos: nat, end: nat, text: bytes)
    requires At(s, pos, text + CRLF) && pos + |text| + 2 <= end <= |s| && CR !in text
    ensures FindCrlf(s, pos, end) == pos + |text| && s[pos..pos + |text|] == text
  {
    AtSplit(s, pos, text, CRLF);
    var eol := pos + |text|;
    AtByte(s, eol, CRLF, 0);
    AtByte(s, eol, CRLF, 1);
    forall j | pos <= j < eol ensures !CrlfIn(s, j, end) {
      AtByte(s, pos, text, j - pos);
    }
    FindCrlfUnique(s, pos, end, eol);
  }

  lemma HeaderHasNoCr(h: Header)
    requires ValidHeader(h)
    ensures CR !in h.key + [COLON, SP] + h.value
  {
    var text := h.key + [COLON, SP] + h.value;
    forall j | 0 <= j < |text| ensures text[j] != CR {
      if j < |h.key| { assert IsTchar(h.key[j]); }
      else if j >= |h.key| + 2 { assert IsFieldContentByte(h.value[j - |h.key| - 2]); }
    }
  }

  lemma LineHasNoCr(l: RequestLine)
    requires ValidRequestLine(l)
    ensures CR !in ShowLine(l)
  {
  }

  lemma HeaderStep(s: bytes, pos: nat, end: nat, h: Header, done: seq<Header>)
    requires At(s, pos, ShowHeader(h)) && pos + |ShowHeader(h)| <= end <= |s|
    requires ValidHeader(h) && |done| < MAX_HEADERS
    ensures ParseBlock(s, pos, end, done) ==
            if |h.value| <= MAX_HEADER_VALUE_LEN - 2 then ParseBlock(s, pos + |ShowHeader(h)|, end, done + [h])
            else Failure(HeaderValueTooLong)
  {
    var text := h.key + [COLON, SP] + h.value;
    HeaderHasNoCr(h);
    TextIsLine(s, pos, end, text);
    AtByte(s, pos, ShowHeader(h), 0);
    ShownHeaderParses(h, ByteAt(s, pos + |text|), |done|);
  }

  lemma BlankStep(s: bytes, pos: nat, end: nat, done: seq<Header>)
    requires At(s, pos, CRLF) && pos + 2 <= end <= |s|
    ensures ParseBlock(s, pos, end, done) == Success((done, pos + 2))
  {
    AtByte(s, pos, CRLF, 0);
    AtByte(s, pos, CRLF, 1);
  }

  /** The outcome of reading back `headers`, printed so that their block ends at `next`. */
  function ReadBack(headers: seq<Header>, done: seq<Header>, next: nat): Parsed<(seq<Header>, nat)> {
    if Reprintable(headers) then Success((done + headers, next)) else Failure(HeaderValueTooLong)
  }

  lemma ReadBackNone(done: seq<Header>, next: nat)
    ensures ReadBack([], done, next) == Success((done, next))
  {
    assert done + [] == done;
  }

  lemma ReadBackFirst(headers: seq<Header>, done: seq<Header>, next: nat)
    requires headers != []
    ensures var h := headers[0];
      ReadBack(headers, done, next) ==
      if |h.value| <= MAX_HEADER_VALUE_LEN - 2 then ReadBack(headers[1..], done + [h], next)
      else Failure(HeaderValueTooLong)
  {
    var h, rest := headers[0], headers[1..];
    assert done + [h] + rest == done + headers;
    assert |h.value| <= MAX_HEADER_VALUE_LEN - 2 ==> (Reprintable(headers) <==> Reprintable(rest));
  }

  lemma {:induction false} ShownBlockParses(s: bytes, pos: nat, end: nat, headers: seq<Header>, done: seq<Header>)
    requires At(s, pos, ShowHeaders(headers) + CRLF) && pos + |ShowHeaders(headers)| + 2 <= end <= |s|
    requires ValidHeaders(headers) && |done| + |headers| <= MAX_HEADERS
    ensures ParseBlock(s, pos, end, done) == ReadBack(headers, done, pos + |ShowHeaders(headers)| + 2)
    decreases |headers|
  {
    hide ParseBlock, ReadBack, ShowHeader, At, ValidHeader;
    if headers == [] {
      AtSplit(s, pos, [], CRLF);
      BlankStep(s, pos, end, done);
      ReadBackNone(done, pos + 2);
    } else {
      var h, rest := headers[0], headers[1..];
      BlockTextSplit(s, pos, headers);
      ReadBackFirst(headers, done, pos + |ShowHeaders(headers)| + 2);
      HeaderStep(s, pos, end, h, done);
      if |h.value| <= MAX_HEADER_VALUE_LEN - 2 {
        ShownBlockParses(s, pos + |ShowHeader(h)|, end, rest, done + [h]);
      }
    }
  }

  /** The same, when every value is short enough. */
  lemma StandingHeadersParse(s: bytes, pos: nat, headers: seq<Header>, next: nat)
    requires ValidHeaders(headers) && Reprintable(headers) && At(s, pos, ShowHeaders(headers) + CRLF)
    requires next == pos + |ShowHeaders(headers)| + 2
    ensures ParseBlock(s, pos, |s|, []) == Success((headers, next))
  {
    assert |ShowHeaders(headers) + CRLF| == |ShowHeaders(headers)| + 2;
    ShownBlockParses(s, pos, |s|, headers, []);
    assert [] + headers == headers;
  }

  lemma BlockTextSplit(s: bytes, pos: nat, headers: seq<Header>)
    requires headers != [] && At(s, pos, ShowHeaders(headers) + CRLF)
    ensures At(s, pos, ShowHeader(headers[0]))
    ensures At(s, pos + |ShowHeader(headers[0])|, ShowHeaders(headers[1..]) + CRLF)
    ensures |ShowHeaders(headers)| == |ShowHeader(headers[0])| + |ShowHeaders(headers[1..])|
  {
    hide ShowHeader, At;
    var first, rest := ShowHeader(headers[0]), ShowHeaders(headers[1..]) + CRLF;
    assert ShowHeaders(headers) + CRLF == first + rest;
    AtSplit(s, pos, first, rest);
  }

  lemma LineStep(s: bytes, len: nat, line: RequestLine)
    requires ValidRequestLine(line) && At(s, 0, ShowLine(line) + CRLF)
    requires len <= |s| && |ShowLine(line)| + 2 <= TrimOws(s, 0, len)
    ensures ParseRequest(s, len) == HeadFrom(Success(line), s, |ShowLine(line)|, TrimOws(s, 0, len))
  {
    hide ParseLine, ShowLine, ParseBlock, TrimOws;
    LineHasNoCr(line);
    TextIsLine(s, 0, TrimOws(s, 0, len), ShowLine(line));
    ShownLineParses(line);
  }

  lemma ShownHeadStands(s: bytes, line: RequestLine, headers: seq<Header>)
    requires ShowRequest(line, headers) <= s
    ensures At(s, 0, ShowLine(line) + CRLF) && At(s, |ShowLine(line)| + 2, ShowHeaders(headers) + CRLF)
    ensures |ShowRequest(line, headers)| == |ShowLine(line)| + 2 + |ShowHeaders(headers)| + 2
    ensures |ShowRequest(line, headers)| <= TrimOws(s, 0, |s|)
  {
    var text := ShowRequest(line, headers);
    assert s[|text| - 1] == text[|text| - 1] == LF;
    AtSplit(s, 0, ShowLine(line) + CRLF, ShowHeaders(headers) + CRLF);
  }

  lemma StandingBlock(s: bytes, line: RequestLine, headers: seq<Header>, eol: nat, end: nat, next: nat)
    requires ValidHeaders(headers) && At(s, eol + 2, ShowHeaders(headers) + CRLF)
    requires next == eol + 2 + |ShowHeaders(headers)| + 2 <= end <= |s|
    ensures HeadFrom(Success(line), s, eol, end) == HeadOf(line, ReadBack(headers, [], next))
  {
    hide ParseBlock, ReadBack, At;
    ShownBlockParses(s, eol + 2, end, headers, []);
  }

  /**
   A buffer that begins with a printed request head parses back to the same line and headers
   in order and stops where the head ends - unless some value fills its whole buffer, when
   the separator space makes it too long and the request is refused.
   */
  lemma ShownRequestParses(s: bytes, line: RequestLine, headers: seq<Header>)
    requires ValidRequestLine(line) && ValidHeaders(headers) && ShowRequest(line, headers) <= s
    ensures ParseRequest(s, |s|) ==
            if Reprintable(headers) then Success(Head(line, headers, |ShowRequest(line, headers)|))
            else Failure(HeaderValueTooLong)
  {
    hide At, ParseRequest, ParseBlock, HeadFrom, ShowHeaders, ShowLine, TrimOws;
    ShownHeadStands(s, line, headers);
    LineStep(s, |s|, line);
    StandingBlock(s, line, headers, |ShowLine(line)|, TrimOws(s, 0, |s|), |ShowRequest(line, headers)|);
    assert [] + headers == headers;
  }

  lemma {:induction false} HeadersEndInCrlf(headers: seq<Header>)
    requires headers != []
    ensures var t := ShowHeaders(headers); |t| >= 2 && t[|t| - 2] == CR && t[|t| - 1] == LF
  {
    if |headers| == 1 {
      assert headers[1..] == [];
    } else {
      HeadersEndInCrlf(headers[1..]);
    }
  }

  /** A printed head ends with its blank line, so a buffer that begins with it holds a whole head. */
  lemma ShownHeadIsWhole(s: bytes, line: RequestLine, headers: seq<Header>)
    requires ValidRequestLine(line) && ValidHeaders(headers) && Reprintable(headers)
    requires ShowRequest(line, headers) <= s
    ensures HasTerminator(s, |s|) && HeadEnd(s, |s|) == |ShowRequest(line, headers)|
    ensures ParseRequest(s, |s|) == Success(Head(line, headers, |ShowRequest(line, headers)|))
  {
    var text := ShowRequest(line, headers);
    var first := ShowLine(line) + CRLF;
    if headers != [] { HeadersEndInCrlf(headers); }
    assert text == first + ShowHeaders(headers) + CRLF;
    assert TerminatorAt(s, |text| - 4, |s|);
    ShownRequestParses(s, line, headers);
    ScannersAgree(s, |s|);
  }

  lemma {:induction false} ParsedBlockValid(s: bytes, cur: nat, end: nat, headers: seq<Header>)
    requires cur <= end <= |s| && ValidHeaders(headers) && ParseBlock(s, cur, end, headers).Success?
    ensures ValidHeaders(ParseBlock(s, cur, end, headers).value.0)
    decreases end - cur
  {
    if !CrlfIn(s, cur, end) {
      var eol := FindCrlf(s, cur, end);
      var h := ParseHeaderLine(s[cur..eol], ByteAt(s, eol), |headers|).value;
      ParsedHeaderValid(s[cur..eol], ByteAt(s, eol), |headers|);
      ParsedBlockValid(s, eol + 2, end, headers + [h]);
    }
  }

  /** What request_parse stores is always a valid line and valid headers. */
  lemma ParsedRequestValid(s: bytes, len: nat)
    requires len <= |s| && ParseRequest(s, len).Success?
    ensures var head := ParseRequest(s, len).value;
      ValidRequestLine(head.line) && ValidHeaders(head.headers)
  {
    var end := TrimOws(s, 0, len);
    var eol := FindCrlf(s, 0, end);
    ParsedLineShows(s[..eol]);
    HeadFromValid(ParseLine(s[..eol]), s, eol, end);
  }

  lemma HeadFromValid(line: Parsed<RequestLine>, s: bytes, eol: nat, end: nat)
    requires eol <= end <= |s| && (eol < end ==> eol + 2 <= end) && HeadFrom(line, s, eol, end).Success?
    ensures var head := HeadFrom(line, s, eol, end).value;
      line == Success(head.line) && ValidHeaders(head.headers)
  {
    ParsedBlockValid(s, eol + 2, end, []);
  }

  /**
   Printing an accepted request and parsing it again gives the same line and headers if and
   only if every stored value is shorter than the longest the parser accepts.
   */
  lemma ReparseExactly(s: bytes, len: nat, head: Head)
    requires len <= |s| && ParseRequest(s, len) == Success(head)
    ensures var text := ShowRequest(head.line, head.headers);
      ParseRequest(text, |text|) == Success(Head(head.line, head.headers, |text|)) <==> Reprintable(head.headers)
  {
    ParsedRequestValid(s, len);
    ShownRequestParses(ShowRequest(head.line, head.headers), head.line, head.headers);
  }

  /** A request with one header, written without the space that the server would print. */
  function TightRequest(line: RequestLine, h: Header): bytes {
    ShowLine(line) + CRLF + (h.key + [COLON] + h.value + CRLF + CRLF)
  }

  lemma TightHasNoCr(h: Header)
    requires ValidHeader(h)
    ensures CR !in h.key + [COLON] + h.value
  {
    var text := h.key + [COLON] + h.value;
    forall j | 0 <= j < |text| ensures text[j] != CR {
      if j < |h.key| { assert IsTchar(h.key[j]); }
      else if j > |h.key| { assert IsFieldContentByte(h.value[j - |h.key| - 1]); }
    }
  }

  lemma TightHeaderStep(s: bytes, pos: nat, h: Header)
    requires ValidHeader(h) && At(s, pos, h.key + [COLON] + h.value + CRLF + CRLF)
    requires pos + |h.key| + |h.value| + 5 == |s|
    ensures ParseBlock(s, pos, |s|, []) == Success(([h], |s|))
  {
    hide ParseHeaderLine, ValidHeader;
    var text := h.key + [COLON] + h.value;
    TightHasNoCr(h);
    AtSplit(s, pos, text + CRLF, CRLF);
    TextIsLine(s, pos, |s|, text);
    AtByte(s, pos, text + CRLF, 0);
    TightHeaderParses(h, ByteAt(s, pos + |text|), 0);
    BlankStep(s, pos + |text| + 2, |s|, [h]);
    assert !CrlfIn(s, pos, |s|) && [] + [h] == [h];
  }

  /**
   Such a request is accepted with any stored value, of 255 bytes too; printing it with the
   space and parsing that is refused exactly when the value is that long.
   */
  lemma TightRequestParses(line: RequestLine, h: Header)
    requires ValidRequestLine(line) && ValidHeader(h)
    ensures var s := TightRequest(line, h); var text := ShowRequest(line, [h]);
      && ParseRequest(s, |s|) == Success(Head(line, [h], |s|))
      && (ParseRequest(text, |text|) == Failure(HeaderValueTooLong) <==> |h.value| == MAX_HEADER_VALUE_LEN - 1)
  {
    hide ParseLine, ShowLine, ParseBlock, ValidHeader, HeadFrom;
    var s := TightRequest(line, h);
    assert s[0..|s|] == s;
    AtSplit(s, 0, ShowLine(line) + CRLF, h.key + [COLON] + h.value + CRLF + CRLF);
    assert s[|s| - 1] == LF;
    LineStep(s, |s|, line);
    TightHeaderStep(s, |ShowLine(line)| + 2, h);
    TightHead(line, s, |ShowLine(line)|, [h]);
    ValidShort(h);
    ShownRequestParses(ShowRequest(line, [h]), line, [h]);
  }

  lemma TightHead(line: RequestLine, s: bytes, eol: nat, headers: seq<Header>)
    requires eol + 2 <= |s| && ParseBlock(s, eol + 2, |s|, []) == Success((headers, |s|))
    ensures HeadFrom(Success(line), s, eol, |s|) == Success(Head(line, headers, |s|))
  {
    hide ParseBlock;
  }

  lemma ValidShort(h: Header)
    requires ValidHeader(h)
    ensures ValidHeaders([h]) && |h.value| <= MAX_HEADER_VALUE_LEN - 1
    ensures Reprintable([h]) <==> |h.value| != MAX_HEADER_VALUE_LEN - 1
  {
    assert [h][0] == h;
  }

  // ---------------------------------------------------------------- refused heads

  /** Printed headers are read, and then what follows them. */
  lemma {:induction false} ShownThenMore(s: bytes, pos: nat, end: nat, headers: seq<Header>, done: seq<Header>)
    requires At(s, pos, ShowHeaders(headers)) && ValidHeaders(headers) && Reprintable(headers)
    requires |done| + |headers| <= MAX_HEADERS && pos + |ShowHeaders(headers)| <= end <= |s|
    ensures ParseBlock(s, pos, end, done) == ParseBlock(s, pos + |ShowHeaders(headers)|, end, done + headers)
    decreases |headers|
  {
    hide ParseBlock, ShowHeader, At, ValidHeader;
    if headers == [] {
      assert done + [] == done;
    } else {
      var h, rest := headers[0], headers[1..];
      AtSplit(s, pos, ShowHeader(h), ShowHeaders(rest));
      HeaderStep(s, pos, end, h, done);
      ShownThenMore(s, pos + |ShowHeader(h)|, end, rest, done + [h]);
      assert done + [h] + rest == done + headers;
    }
  }

  /** A line that is no header, after a request line and some headers. */
  function HeadWith(line: RequestLine, headers: seq<Header>, bad: bytes): bytes {
    ShowLine(line) + CRLF + (ShowHeaders(headers) + (bad + CRLF))
  }

  lemma BadStands(s: bytes, line: RequestLine, headers: seq<Header>, bad: bytes)
    requires HeadWith(line, headers, bad) <= s
    ensures At(s, 0, ShowLine(line) + CRLF) && At(s, |ShowLine(line)| + 2, ShowHeaders(headers))
    ensures At(s, |ShowLine(line)| + 2 + |ShowHeaders(headers)|, bad + CRLF)
    ensures |ShowLine(line)| + 2 + |ShowHeaders(headers)| + |bad| + 2 <= TrimOws(s, 0, |s|)
  {
    hide ShowLine, ShowHeaders;
    var first, text := ShowLine(line) + CRLF, HeadWith(line, headers, bad);
    assert At(s, 0, text);
    assert s[|text| - 1] == text[|text| - 1] == LF;
    AtSplit(s, 0, first, ShowHeaders(headers) + (bad + CRLF));
    AtSplit(s, |first|, ShowHeaders(headers), bad + CRLF);
  }

  /** The block fails at a line that is no header. */
  lemma BadStep(s: bytes, at: nat, end: nat, bad: bytes, headers: seq<Header>)
    requires CR !in bad && bad != [] && At(s, at, bad + CRLF) && at + |bad| + 2 <= end <= |s|
    requires ParseHeaderLine(bad, CR, |headers|).Failure?
    ensures ParseBlock(s, at, end, headers) == Failure(ParseHeaderLine(bad, CR, |headers|).status)
  {
    hide ParseHeaderLine;
    TextIsLine(s, at, end, bad);
    AtByte(s, at, bad + CRLF, |bad|);
    AtByte(s, at, bad + CRLF, 0);
    BlockStep(s, at, end, headers);
  }

  lemma BlockFails(s: bytes, pos: nat, end: nat, headers: seq<Header>, bad: bytes)
    requires At(s, pos, ShowHeaders(headers)) && At(s, pos + |ShowHeaders(headers)|, bad + CRLF)
    requires ValidHeaders(headers) && Reprintable(headers) && |headers| <= MAX_HEADERS
    requires CR !in bad && bad != [] && pos + |ShowHeaders(headers)| + |bad| + 2 <= end <= |s|
    requires ParseHeaderLine(bad, CR, |headers|).Failure?
    ensures ParseBlock(s, pos, end, []) == Failure(ParseHeaderLine(bad, CR, |headers|).status)
  {
    hide ParseHeaderLine, ParseBlock, ShowHeaders, ValidHeaders, Reprintable, At;
    ShownThenMore(s, pos, end, headers, []);
    assert [] + headers == headers;
    BadStep(s, pos + |ShowHeaders(headers)|, end, bad, headers);
  }

  lemma HeadFromFails(line: RequestLine, s: bytes, eol: nat, end: nat, status: ParseStatus)
    requires eol + 2 <= end <= |s| && ParseBlock(s, eol + 2, end, []) == Failure(status)
    ensures HeadFrom(Success(line), s, eol, end) == Failure(status)
  {
    hide ParseBlock;
  }

  /**
   The first line that is no header decides the refusal, and with what status: however the
   request goes on, it is the status of that line.
   */
  lemma FirstBadHeader(s: bytes, line: RequestLine, headers: seq<Header>, bad: bytes)
    requires ValidRequestLine(line) && ValidHeaders(headers) && Reprintable(headers)
    requires CR !in bad && bad != [] && HeadWith(line, headers, bad) <= s
    requires ParseHeaderLine(bad, CR, |headers|).Failure?
    ensures ParseRequest(s, |s|) == Failure(ParseHeaderLine(bad, CR, |headers|).status)
  {
    hide *;
    BadStands(s, line, headers, bad);
    AtMost(headers);
    StandingBad(s, line, headers, bad, |ShowLine(line)|, TrimOws(s, 0, |s|));
  }

  lemma StandingBad(s: bytes, line: RequestLine, headers: seq<Header>, bad: bytes, eol: nat, end: nat)
    requires ValidRequestLine(line) && At(s, 0, ShowLine(line) + CRLF) && eol == |ShowLine(line)|
    requires At(s, eol + 2, ShowHeaders(headers)) && At(s, eol + 2 + |ShowHeaders(headers)|, bad + CRLF)
    requires end == TrimOws(s, 0, |s|) && eol + 2 + |ShowHeaders(headers)| + |bad| + 2 <= end
    requires ValidHeaders(headers) && Reprintable(headers) && |headers| <= MAX_HEADERS
    requires CR !in bad && bad != [] && ParseHeaderLine(bad, CR, |headers|).Failure?
    ensures ParseRequest(s, |s|) == Failure(ParseHeaderLine(bad, CR, |headers|).status)
  {
    hide *;
    BlockFails(s, eol + 2, end, headers, bad);
    LineStep(s, |s|, line);
    HeadFromFails(line, s, eol, end, ParseHeaderLine(bad, CR, |headers|).status);
  }

  lemma AtMost(headers: seq<Header>)
    requires ValidHeaders(headers)
    ensures |headers| <= MAX_HEADERS
  {
  }

  /** A first line that is refused is the refusal, and with its status. */
  lemma FirstLineDecides(s: bytes, first: bytes)
    requires CR !in first && first + CRLF <= s && ParseLine(first).Failure?
    ensures ParseRequest(s, |s|) == Failure(ParseLine(first).status)
  {
    hide ParseLine;
    assert At(s, 0, first + CRLF);
    assert s[|first| + 1] == (first + CRLF)[|first| + 1] == LF;
    TextIsLine(s, 0, TrimOws(s, 0, |s|), first);
    assert s[..|first|] == first;
  }
}
