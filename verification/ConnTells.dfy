/**
 What a client is told. In every run it reads, with the server's own parsers, the status of each
 final response and whether the connection is to be kept, and how that fits what happens to it.
 */
module ConnTells {
  import opened Bytes
  import opened Config
  import opened Numbers
  import opened ChunkFrame
  import opened RequestLines
  import opened Headers
  import opened Requests
  import opened Admissions
  import opened AdmissionRules
  import opened Responses
  import opened Network
  import opened ConnSpec
  import opened Framing
  import opened ConnWire
  import opened ConnAnswers
  import opened ConnCauses
  import opened ConnEnds
  import opened ConnCloses
  import opened Clients

  // ---------------------------------------------------------------- reading a head

  /** The status on the first line of a text. */
  function StatusSaid(s: bytes): Parsed<nat> { StatusOf(s[..FindCrlf(s, 0, |s|)]) }

  /** The Connection header of the head at the front of a text. */
  function Said(s: bytes): Option<bytes> {
    var eol := FindCrlf(s, 0, |s|);
    if eol == |s| then None
    else
      var block := ParseBlock(s, eol + 2, |s|, []);
      if block.Failure? then None
      else
        match Find(block.value.0, CONNECTION)
        case None => None
        case Some(h) => Some(h.value)
  }

  /** A response a client can read, whose Connection header is left to the server. */
  predicate PlainSpoken(r: Response) {
    && Presentable(r) && CR !in r.reason && 100 <= r.status <= 999
    && (r.kind.BodyBuffer? ==> |r.kind.body| < Power(10, 20))
    && !Has(r.headers, CONNECTION)
  }

  lemma ConnectionNames()
    ensures !EqualIgnoreCase(DATE_KEY, CONNECTION) && EqualIgnoreCase(CONNECTION_KEY, CONNECTION)
    ensures KEEP_ALIVE_TOKEN != CLOSE
  {
    assert |KEEP_ALIVE_TOKEN| != |CLOSE|;
  }

  lemma FindConnection(r: Response, date: Date, keepAlive: bool)
    requires !Has(r.headers, CONNECTION)
    ensures Find(WireHeaders(r, date, keepAlive), CONNECTION) ==
            Some(Header(CONNECTION_KEY, if keepAlive then KEEP_ALIVE_TOKEN else CLOSE))
  {
    ConnectionNames();
    var d, h := Header(DATE_KEY, date), ConnectionHeader(keepAlive);
    hide EqualIgnoreCase;
    FindFirst(r.headers, CONNECTION);
    FindHead(d, [], CONNECTION);
    FindHead(h, [], CONNECTION);
    assert [d] + [] == [d] && [h] + [] == [h];
    FindAppend([d], r.headers, CONNECTION);
    FindAppend([d] + r.headers, [h], CONNECTION);
    FindAppend([d] + r.headers + [h], FramingHeaders(r), CONNECTION);
  }

  /** A head whose first line ends at `eol`. */
  lemma ReadAt(s: bytes, eol: nat, status: nat, headers: seq<Header>, next: nat)
    requires eol + 2 <= |s| && FindCrlf(s, 0, |s|) == eol && StatusOf(s[..eol]) == Success(status)
    requires ParseBlock(s, eol + 2, |s|, []) == Success((headers, next)) && Find(headers, CONNECTION).Some?
    ensures StatusSaid(s) == Success(status) && Said(s) == Some(Find(headers, CONNECTION).value.value)
  {
    hide StatusOf, FindCrlf, ParseBlock, Find;
  }

  lemma HeadSays(r: Response, date: Date, keepAlive: bool, s: bytes)
    requires PlainSpoken(r) && HeadText(r, date, keepAlive) <= s
    ensures StatusSaid(s) == Success(r.status)
    ensures Said(s) == Some(if keepAlive then KEEP_ALIVE_TOKEN else CLOSE)
  {
    hide *;
    SpokenParts(r);
    HeadBegins(r, date, keepAlive, s);
    StatusLineRead(r, s);
    StatusRead(r);
    HeadReadsBack(r, date, keepAlive, s);
    FindConnection(r, date, keepAlive);
    ReadAt(s, |StatusText(r)|, r.status, WireHeaders(r, date, keepAlive), |HeadText(r, date, keepAlive)|);
  }

  /** The framing header behind the others. */
  function Framed(r: Response): seq<Header> {
    if r.kind.BodyStream? then [Header(TRANSFER_ENCODING_KEY, CHUNKED_VALUE)]
    else if r.kind.BodyNone? || r.kind.body == [] || Has(r.headers, CONTENT_LENGTH_KEY) then []
    else [Header(CONTENT_LENGTH_KEY, Digits(|r.kind.body|, 10))]
  }

  /** A text is this first line, these headers and this body. */
  predicate ReadsAs(wire: bytes, first: bytes, headers: seq<Header>, body: bytes) {
    var eol := FindCrlf(wire, 0, |wire|);
    && eol < |wire| && wire[..eol] == first
    && var block := ParseBlock(wire, eol + 2, |wire|, []);
       && block.Success? && block.value.1 <= |wire| && block.value.0 == headers && wire[block.value.1..] == body
  }

  /**
   What a client reads of a serialized response: the status line with its number and reason; the
   date, every header of the handler in order, the Connection header and the framing header;
   and behind the blank line the body, unless only the head is sent.
   */
  lemma ResponseRead(r: Response, date: Date, cap: nat, keepAlive: bool, wire: bytes)
    requires PlainSpoken(r) && Serialize(r, date, cap, keepAlive) == Some(wire)
    ensures ReadsAs(wire, HTTP_1_1_SP + Digits(r.status, 10) + [SP] + r.reason,
                    [Header(DATE_KEY, date)] + r.headers
                    + [Header(CONNECTION_KEY, if keepAlive then KEEP_ALIVE else CLOSE)] + Framed(r),
                    if r.kind.BodyBuffer? && !r.headOnly then r.kind.body else [])
  {
    hide *;
    SerializedParts(r, date, cap, keepAlive, wire);
    FramedIs(r);
    HeadersAre(r, date, keepAlive);
    SpokenParts(r);
    HeadBegins(r, date, keepAlive, wire);
    StatusLineRead(r, wire);
    HeadReadsBack(r, date, keepAlive, wire);
    TextAndBody(r);
    ReadsAt(wire, |StatusText(r)|, WireHeaders(r, date, keepAlive), |HeadText(r, date, keepAlive)|);
  }

  lemma SerializedParts(r: Response, date: Date, cap: nat, keepAlive: bool, wire: bytes)
    requires Serialize(r, date, cap, keepAlive) == Some(wire)
    ensures var head := HeadText(r, date, keepAlive); head <= wire && wire[|head|..] == BodyBytes(r)
  {
    hide HeadText, BodyBytes;
  }

  lemma ReadsAt(wire: bytes, eol: nat, headers: seq<Header>, next: nat)
    requires eol + 2 <= |wire| && FindCrlf(wire, 0, |wire|) == eol && next <= |wire|
    requires ParseBlock(wire, eol + 2, |wire|, []) == Success((headers, next))
    ensures ReadsAs(wire, wire[..eol], headers, wire[next..])
  {
    hide ParseBlock, FindCrlf;
  }

  lemma TextAndBody(r: Response)
    ensures StatusText(r) == HTTP_1_1_SP + Digits(r.status, 10) + [SP] + r.reason
    ensures BodyBytes(r) == if r.kind.BodyBuffer? && !r.headOnly then r.kind.body else []
  {
    hide Digits;
  }

  lemma FramedIs(r: Response)
    ensures FramingHeaders(r) == Framed(r)
  {
    hide EqualIgnoreCase, Digits;
    assert HasContentLength(r.headers) <==> Has(r.headers, CONTENT_LENGTH_KEY) by {
      assert forall i :: 0 <= i < |r.headers| ==>
               Named(r.headers[i], CONTENT_LENGTH_KEY) == EqualIgnoreCase(r.headers[i].key, CONTENT_LENGTH_KEY);
    }
  }

  lemma HeadersAre(r: Response, date: Date, keepAlive: bool)
    ensures WireHeaders(r, date, keepAlive) ==
            [Header(DATE_KEY, date)] + r.headers
            + [Header(CONNECTION_KEY, if keepAlive then KEEP_ALIVE else CLOSE)] + FramingHeaders(r)
  {
    hide FramingHeaders;
  }

  lemma SpokenParts(r: Response)
    requires PlainSpoken(r)
    ensures Presentable(r) && CR !in r.reason && 100 <= r.status <= 999 && !Has(r.headers, CONNECTION)
    ensures r.kind.BodyBuffer? ==> |r.kind.body| < Power(10, 20)
  {
  }

  /** A text says its status and whether the connection is kept. */
  predicate Says(text: bytes, status: nat, keepAlive: bool) {
    StatusSaid(text) == Success(status) && Said(text) == Some(if keepAlive then KEEP_ALIVE_TOKEN else CLOSE)
  }

  lemma SerializedSays(r: Response, date: Date, keepAlive: bool)
    requires PlainSpoken(r)
    ensures var text := Serialize(r, date, RESPONSE_BUFFER_SIZE, keepAlive);
      text.Some? ==> forall more: bytes :: Says(text.value + more, r.status, keepAlive)
  {
    hide StatusSaid, Said, HeadText, PlainSpoken;
    var text := Serialize(r, date, RESPONSE_BUFFER_SIZE, keepAlive);
    if text.Some? {
      forall more: bytes ensures Says(text.value + more, r.status, keepAlive) {
        assert text.value + more == HeadText(r, date, keepAlive) + (BodyBytes(r) + more);
        HeadSays(r, date, keepAlive, text.value + more);
      }
    }
  }

  lemma ErrorSpeaks(status: ParseStatus)
    ensures PlainSpoken(ErrorResponse(status)) && ErrorResponse(status).status == Reason(status).0
  {
    ReasonShort(status);
    ReasonPlain(status);
    BodyWithinPower();
  }

  lemma ErrorSays(status: ParseStatus, date: Date)
    ensures Says(ErrorBytes(status, date), Reason(status).0, false)
  {
    ErrorSpeaks(status);
    ErrorFits(status, date, false);
    SerializedSays(ErrorResponse(status), date, false);
    hide Says, Serialize, ErrorResponse, Reason;
    assert ErrorBytes(status, date) + [] == ErrorBytes(status, date);
  }

  /** A canned error as it is read: its reason, the two plain headers, and its reason with a NUL. */
  lemma RefusalRead(status: ParseStatus, date: Date)
    ensures var (code, reason) := Reason(status);
      ReadsAs(ErrorBytes(status, date), HTTP_1_1_SP + Digits(code, 10) + [SP] + reason,
              [Header(DATE_KEY, date), Header(CONNECTION_KEY, CLOSE),
               Header(CONTENT_LENGTH_KEY, Digits(|reason| + 1, 10))],
              reason + [0])
  {
    ErrorSpeaks(status);
    ErrorFits(status, date, false);
    hide ReadsAs, Serialize, Reason, Digits, PlainSpoken, Has;
    var r := ErrorResponse(status);
    ResponseRead(r, date, RESPONSE_BUFFER_SIZE, false, ErrorBytes(status, date));
    NoneNamed(CONTENT_LENGTH_KEY);
    var first := [Header(DATE_KEY, date)] + r.headers + [Header(CONNECTION_KEY, CLOSE)];
    assert first + Framed(r) == [Header(DATE_KEY, date), Header(CONNECTION_KEY, CLOSE),
                                 Header(CONTENT_LENGTH_KEY, Digits(|Reason(status).1| + 1, 10))];
  }

  lemma NoneNamed(name: bytes)
    ensures !Has([], name)
  {
  }

  /** The status a reply is read with: its own, or 500 when its head or body does not fit the buffer. */
  function StatusTold(r: Response, date: Date, keepAlive: bool): nat {
    if |HeadText(r, date, keepAlive)| < RESPONSE_BUFFER_SIZE
       && |HeadText(r, date, keepAlive)| + |BodyBytes(r)| <= RESPONSE_BUFFER_SIZE then r.status else 500
  }

  /** It fits the buffer exactly when it is read with its own status. */
  lemma FitsSays(r: Response, date: Date, keepAlive: bool)
    requires PlainSpoken(r)
    ensures var text := Serialize(r, date, RESPONSE_BUFFER_SIZE, keepAlive);
      && StatusTold(r, date, keepAlive) == (if text.Some? then r.status else 500)
      && (text.Some? ==> Says(text.value, r.status, keepAlive))
  {
    SerializedSays(r, date, keepAlive);
    hide Says, HeadText, BodyBytes, PlainSpoken;
    var text := Serialize(r, date, RESPONSE_BUFFER_SIZE, keepAlive);
    if text.Some? { assert text.value + [] == text.value; }
  }

  /** The response that replaces one that does not fit. */
  lemma FallbackSays(date: Date, keepAlive: bool)
    ensures var text := Serialize(ErrorResponse(ServerError), date, RESPONSE_BUFFER_SIZE, keepAlive);
      text.Some? && Says(text.value, 500, keepAlive)
  {
    ErrorSpeaks(ServerError);
    ErrorFits(ServerError, date, keepAlive);
    hide Says, Serialize, ErrorResponse, PlainSpoken, StatusTold;
    FitsSays(ErrorResponse(ServerError), date, keepAlive);
  }

  lemma TextSays(r: Response, date: Date, keepAlive: bool)
    requires PlainSpoken(r)
    ensures Says(Text(r, date, keepAlive), StatusTold(r, date, keepAlive), keepAlive)
  {
    hide Says, Serialize, ErrorResponse, PlainSpoken, StatusTold;
    FitsSays(r, date, keepAlive);
    FallbackSays(date, keepAlive);
  }

  lemma ReplySays(reply: Reply, date: Date, keepAlive: bool)
    requires SpokenReply(reply)
    ensures Says(ReplyText(reply, date, keepAlive), StatusTold(reply.Wire(), date, keepAlive), keepAlive)
  {
    match reply
    case Plain(r) => TextSays(r, date, keepAlive);
    case Stream(_, p) => StreamSays(reply, date, keepAlive);
  }

  lemma StreamSays(reply: Reply, date: Date, keepAlive: bool)
    requires SpokenReply(reply) && reply.Stream?
    ensures Says(ReplyText(reply, date, keepAlive), StatusTold(reply.Wire(), date, keepAlive), keepAlive)
  {
    SerializedSays(reply.Wire(), date, keepAlive);
    ErrorSpeaks(ServerError);
    hide Says, Serialize, ErrorResponse, PlainSpoken, StatusTold, Text, StreamText;
    FitsSays(reply.Wire(), date, keepAlive);
    match Serialize(reply.Wire(), date, RESPONSE_BUFFER_SIZE, keepAlive)
    case None =>
      FallbackSays(date, keepAlive);
      FallbackText(date, keepAlive);
    case Some(head) => StreamTextSays(head, reply.producer.script, reply.Wire().status, keepAlive);
  }

  lemma StreamTextSays(head: bytes, script: seq<PullEvent>, status: nat, keepAlive: bool)
    requires forall more: bytes :: Says(head + more, status, keepAlive)
    ensures Says(StreamText(head, script), status, keepAlive)
  {
    hide Says, Frames, DataOf;
    assert StreamText(head, script) == head + (Frames(DataOf(script)) + LAST_FRAME);
  }

  lemma FallbackText(date: Date, keepAlive: bool)
    requires Serialize(ErrorResponse(ServerError), date, RESPONSE_BUFFER_SIZE, keepAlive).Some?
    ensures Text(ErrorResponse(ServerError), date, keepAlive) ==
            Serialize(ErrorResponse(ServerError), date, RESPONSE_BUFFER_SIZE, keepAlive).value
  {
    hide Serialize, ErrorResponse;
  }

  predicate SpokenReply(reply: Reply) {
    PlainSpoken(reply.Wire()) && (reply.Plain? ==> PlainSpoken(reply.response))
  }

  // ---------------------------------------------------------------- every run

  predicate AllSpoken(replies: seq<Reply>) { forall i :: 0 <= i < |replies| ==> SpokenReply(replies[i]) }

  lemma ReplySpoken(o: Origin, n: nat)
    requires AllSpoken(o.replies)
    ensures SpokenReply(ReplyAt(o, n))
  {
    ErrorSpeaks(NotFound);
    hide PlainSpoken, ErrorResponse;
  }

  /** The status a refusal is read with (section 15 of RFC 9110). */
  predicate CodeFits(status: ParseStatus, code: nat) {
    && (code == 413 <==> status == PayloadTooLarge) && (code == 414 <==> status == UriTooLong)
    && (code == 431 <==> status in {HeaderKeyTooLong, HeaderValueTooLong, HeaderTooLong})
    && (code == 501 <==> status == NotImplemented) && (code == 505 <==> status == VersionNotSupported)
    && (code == 404 <==> status == NotFound) && (code == 400 <==> status == BadRequest)
    && code in {400, 404, 413, 414, 431, 500, 501, 505}
  }

  lemma ReasonFits(status: ParseStatus)
    ensures CodeFits(status, Reason(status).0)
  {
  }

  /** What the `i`-th due response says. */
  lemma DueSays(o: Origin, built: seq<Built>, answers: seq<Answer>, i: nat)
    requires AllSpoken(o.replies) && Numbered(answers, |built|) && i < |answers|
    ensures var text := DueAt(o, built, answers, i);
      match answers[i]
      case Refusal(status, _, _) =>
        Said(text) == Some(CLOSE) && StatusSaid(text).Success? && CodeFits(status, StatusSaid(text).value)
      case ReplyTo(nth) =>
        && 0 < nth <= |built|
        && var kept := KeepAliveOf(o, i, built[nth - 1]);
           Says(text, StatusTold(ReplyAt(o, nth - 1).Wire(), DateAt(o, i), kept), kept)
  {
    NumberedBounds(answers, |built|, i);
    hide Said, StatusSaid, ErrorBytes, ReplyText, KeepAliveOf, Reason, CodeFits, SpokenReply, Numbered, ReplyAt;
    hide StatusTold;
    match answers[i]
    case Refusal(status, _, _) =>
      ErrorSays(status, DateAt(o, i));
      ReasonFits(status);
    case ReplyTo(nth) =>
      ReplySpoken(o, nth - 1);
      ReplySays(ReplyAt(o, nth - 1), DateAt(o, i), KeepAliveOf(o, i, built[nth - 1]));
  }

  /** A text says one of the two. */
  predicate Speaks(text: bytes) { Said(text) in {Some(KEEP_ALIVE_TOKEN), Some(CLOSE)} }

  /** What the `i`-th response that has left says, and to what. */
  ghost predicate ToldRightly(o: Origin, s: Sys, i: nat)
    requires i < |s.l.answers|
  {
    i < |Finals(s.l.messages)|
    && var text := Finals(s.l.messages)[i];
       && Speaks(text)
       && match s.l.answers[i]
          case Refusal(status, _, _) =>
            Said(text) == Some(CLOSE) && StatusSaid(text).Success? && CodeFits(status, StatusSaid(text).value)
          case ReplyTo(nth) =>
            && 0 < nth <= |s.l.built|
            && var b := s.l.built[nth - 1];
               var kept := Said(text) == Some(KEEP_ALIVE_TOKEN);
               && (kept <==> (i == 0 && o.keepAlive) || StaysOpen(b.line, b.headers))
               && StatusSaid(text) == Success(StatusTold(ReplyGiven(o, nth - 1), DateAt(o, i), kept))
  }

  /** The handler's reply to the `n`-th request, or "not found" when there is no handler for it. */
  function ReplyGiven(o: Origin, n: nat): Response {
    if n < |o.replies| then o.replies[n].Wire() else Response(404, R_404, [], BodyBuffer(R_404 + [0]), false)
  }

  lemma GivenIs(o: Origin, n: nat)
    ensures ReplyAt(o, n).Wire() == ReplyGiven(o, n)
  {
  }

  lemma AnsweredTold(o: Origin, s: Sys, i: nat)
    requires AllSpoken(o.replies) && Answered(o, s) && i < |Finals(s.l.messages)|
    ensures i < |s.l.answers| && ToldRightly(o, s, i)
  {
    hide DueAt, Said, StatusSaid, CodeFits, Numbered, StaysOpen, WantsKeepAlive, AllSpoken, StatusTold, ReplyGiven;
    hide ReplyAt;
    ConnectionNames();
    assert RecordedAt(o, s.l.built, s.l.answers, Finals(s.l.messages), i);
    DueSays(o, s.l.built, s.l.answers, i);
    hide Finals;
    match s.l.answers[i]
    case Refusal(_, _, _) =>
    case ReplyTo(nth) =>
      GivenIs(o, nth - 1);
      StaysOpenExactly(s.l.built[nth - 1].line, s.l.built[nth - 1].headers);
  }

  /**
   What clients are told, in every run whose replies leave it to the server. Every final response
   that has left says either "keep-alive" or "close". A refusal says "close", with the status of
   its cause. The reply to a request says "keep-alive" if and only if that request asked to stay
   by the rules of admission - or is the first of a connection in a slot left with the flag set -
   and its status is the handler's, 404 without a handler, or 500 when it does not fit.
   */
  lemma ClientTold(c: Conn, w: World, k: nat, i: nat)
    requires c.producer == None && AllSpoken(w.replies)
    requires i < |Finals(Run(Start(c, w), k).l.messages)|
    ensures var s := Run(Start(c, w), k); i < |s.l.answers| && ToldRightly(OriginOf(c, w), s, i)
  {
    OriginIs(c, w);
    hide *;
    RunAnswers(c, w, k);
    AnsweredTold(OriginOf(c, w), Run(Start(c, w), k), i);
  }

  lemma OriginIs(c: Conn, w: World)
    ensures OriginOf(c, w).replies == w.replies && OriginOf(c, w).keepAlive == c.keepAlive
  {
  }

  lemma ReplyKept(o: Origin, s: Sys, i: nat)
    requires i < |s.l.answers| && ToldRightly(o, s, i) && s.l.answers[i].ReplyTo?
    ensures Kept(o, s.l, i) <==> Said(Finals(s.l.messages)[i]) == Some(KEEP_ALIVE_TOKEN)
  {
    hide Finals, Said, StatusSaid, CodeFits, StaysOpen, WantsKeepAlive, StatusTold, ReplyGiven;
    var b := s.l.built[s.l.answers[i].nth - 1];
    StaysOpenExactly(b.line, b.headers);
  }

  /** The reply that says "close" was the last; after one that says "keep-alive" the server did not close. */
  predicate DoneAsTold(w: Net, s: Sys, i: nat, said: Option<bytes>) {
    && (said == Some(CLOSE) ==> i + 1 == s.c.requests && s.c.phase == Closed)
    && (said == Some(KEEP_ALIVE_TOKEN) && i + 1 < MAX_REQUESTS && i + 1 == s.c.requests ==>
          || s.c.phase != Closed
          || FailedLast(w.sends, s.w.net.sends) || HungUp(w.recvs, |s.w.net.recvs|)
          || |s.l.answers| > s.c.requests)
  }

  lemma ClosesAsTold(o: Origin, w: Net, s: Sys, i: nat, said: Option<bytes>)
    requires i < s.c.requests <= |s.l.answers| && (Kept(o, s.l, i) <==> said == Some(KEEP_ALIVE_TOKEN))
    requires forall j: nat :: j < s.c.requests && (!Kept(o, s.l, j) || j + 1 == MAX_REQUESTS) ==>
               j + 1 == s.c.requests && s.c.phase == Closed
    requires s.c.phase == Closed ==> Because(o, w, s)
    ensures DoneAsTold(w, s, i, said)
  {
    ConnectionNames();
    hide Kept, HungUp, FailedLast, ProducerFailed;
  }

  /**
   And it is so, in a slot that was left no length. Where the reply to a request says "close",
   it is the last response and the connection is closed. Where it says "keep-alive" and the
   limit is not reached, and it is the last response all the same, the connection is open,
   or a send has failed, or the peer has left or failed, or another response was begun.
   */
  lemma ToldAndDone(c: Conn, w: World, k: nat, i: nat)
    requires c.bodyLen == 0 && c.producer == None && AllSpoken(w.replies)
    requires i < |Finals(Run(Start(c, w), k).l.messages)|
    requires i < |Run(Start(c, w), k).l.answers| && Run(Start(c, w), k).l.answers[i].ReplyTo?
    ensures var s := Run(Start(c, w), k); DoneAsTold(w.net, s, i, Said(Finals(s.l.messages)[i]))
  {
    OriginIs(c, w);
    hide *;
    var s, o := Run(Start(c, w), k), OriginOf(c, w);
    ClientTold(c, w, k, i);
    ClosesExactly(c, w, k);
    RunAnswers(c, w, k);
    FinalsCounted(o, s);
    ReplyKept(o, s, i);
    ClosesAsTold(o, w.net, s, i, Said(Finals(s.l.messages)[i]));
  }

  lemma FinalsCounted(o: Origin, s: Sys)
    requires Answered(o, s)
    ensures |Finals(s.l.messages)| == s.c.requests
  {
    hide Finals, Numbered;
  }
}
