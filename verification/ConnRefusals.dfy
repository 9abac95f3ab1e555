/**
 Requests that are refused. The error says "Connection: close", but the request stays in the
 buffer and the connection stays open exactly as the request itself asked for.
 */
module ConnRefusals {
  import opened Bytes
  import opened Config
  import opened Numbers
  import opened RequestLines
  import opened Requests
  import opened ChunkSpec
  import opened Headers
  import opened TransferEncoding
  import opened Admissions
  import opened Responses
  import opened Network
  import opened ConnSpec
  import opened Framing
  import opened ConnFraming
  import opened ConnRuns
  import opened ConnSlots
  import opened Samples

  /** A request that is refused for its head or for its chunked body stands in front. */
  predicate RefusedFront(s: Sys) { In(s, ReadingRequest) && FrontOf(s.c.reqBuf) == Refused }

  function StatusOf(s: Sys): ParseStatus
    requires RefusedFront(s)
  {
    RefusalIsFront(s.c.reqBuf);
    RefusalOf(s.c.reqBuf).value
  }

  // ---------------------------------------------------------------- the refusal

  /** `r` is `s` with a refusal on its way: the canned error, with the request still in the buffer. */
  predicate Begins(s: Sys, r: Sys, status: ParseStatus) {
    && In(r, SendingResponse) && r.c.st == StSend(0) && r.c.respBuf == ErrorBytes(status, Now(s.w).0)
    && r.c.reqBuf == s.c.reqBuf && r.c.requests == s.c.requests && r.w == Now(s.w).1
    && r.l == s.l.(current := [], junk := [], due := r.l.due, answers := r.l.answers)
  }

  lemma HeadRefused(s: Sys)
    requires RefusedFront(s)
    requires var p := ParseRequest(s.c.reqBuf, |s.c.reqBuf|);
      p.Failure? || AdmissionOf(p.value.line, p.value.headers).Refuse?
    ensures Begins(s, StepHeader(s), StatusOf(s))
  {
    hide ParseRequest, FindTerminator, AdmissionOf, ErrorBytes, WantsKeepAlive, CodingSeen, HeadEnd;
  }

  /** An empty body is none to refuse. */
  lemma EmptyWaits(cap: nat)
    ensures Decode([], cap).verdict == More
  {
  }

  /** The head of a request with a chunked body of which something is buffered. */
  lemma ChunkedAdmitted(s: Sys, line: RequestLine, headers: seq<Header>)
    requires In(s, ReadingRequest) && HasTerminator(s.c.reqBuf, |s.c.reqBuf|)
    requires ParseRequest(s.c.reqBuf, |s.c.reqBuf|).Success?
    requires ParseRequest(s.c.reqBuf, |s.c.reqBuf|).value.(next := 0) == Head(line, headers, 0)
    requires AdmissionOf(line, headers).Admit? && AdmissionOf(line, headers).coding == TeChunked
    requires HeadEnd(s.c.reqBuf, |s.c.reqBuf|) < |s.c.reqBuf|
    ensures var h := StepHeader(s);
      && In(h, ReadingBodyChunked) && h.w == s.w && h.l == s.l && h.c.reqBuf == s.c.reqBuf
      && h.c.bodyStart == HeadEnd(s.c.reqBuf, |s.c.reqBuf|) && h.c.st == StChunked(0, START) && h.c.dechunked == []
      && h.c.requests == s.c.requests
  {
    hide ParseRequest, FindTerminator, HasTerminator, AdmissionOf, WantsKeepAlive, CodingSeen, HeadEnd;
  }

  lemma ChunkedRefused(h: Sys, status: ParseStatus)
    requires In(h, ReadingBodyChunked) && h.c.st == StChunked(0, START) && h.c.dechunked == []
    requires var v := Decode(RawBody(h.c), MAX_DECHUNK_SIZE).verdict;
      (v == Rejected && status == BadRequest) || (v == TooLarge && status == PayloadTooLarge)
    ensures Begins(h, StepBodyChunked(h), status) && StepBodyChunked(h).c.keepAlive == h.c.keepAlive
  {
    hide Drain, ErrorBytes;
    assert DrainBody(h) == Decode(RawBody(h.c), MAX_DECHUNK_SIZE);
  }

  lemma BodyRefused(s: Sys)
    requires RefusedFront(s)
    requires var p := ParseRequest(s.c.reqBuf, |s.c.reqBuf|);
      p.Success? && AdmissionOf(p.value.line, p.value.headers).Admit?
    ensures var h := StepHeader(s);
      && In(h, ReadingBodyChunked) && Begins(s, StepBodyChunked(h), StatusOf(s))
      && StepBodyChunked(h).c.keepAlive == h.c.keepAlive
  {
    var buf := s.c.reqBuf;
    var e, p := HeadEnd(buf, |buf|), ParseRequest(buf, |buf|);
    EmptyWaits(MAX_DECHUNK_SIZE);
    RefusalIsFront(buf);
    hide ParseRequest, FindTerminator, HasTerminator, AdmissionOf, HeadEnd, StepHeader, StepBodyChunked, ErrorBytes;
    hide Decode;
    assert BodyRefusal(buf[e..], AdmissionOf(p.value.line, p.value.headers)).Some?;
    var raw := buf[e..];
    assert Decode(raw, MAX_DECHUNK_SIZE).verdict != More;
    assert raw != [];
    ChunkedAdmitted(s, p.value.line, p.value.headers);
    ChunkedRefused(StepHeader(s), StatusOf(s));
  }

  /** The connection with the refusal on its way. */
  function Refusing(s: Sys): (r: Sys)
    requires RefusedFront(s)
    ensures In(r, SendingResponse) && r.c.st == StSend(0)
  {
    RefusalSteps(s);
    var h := StepHeader(s);
    if h.c.phase == ReadingBodyChunked then StepBodyChunked(h) else h
  }

  lemma RefusalSteps(s: Sys)
    requires RefusedFront(s)
    ensures var h := StepHeader(s);
      || (h.c.phase == SendingResponse && Begins(s, h, StatusOf(s)))
      || (&& In(h, ReadingBodyChunked) && Begins(s, StepBodyChunked(h), StatusOf(s))
          && StepBodyChunked(h).c.keepAlive == h.c.keepAlive)
  {
    hide ParseRequest, AdmissionOf, StepHeader, StepBodyChunked, ErrorBytes;
    var p := ParseRequest(s.c.reqBuf, |s.c.reqBuf|);
    if p.Failure? || AdmissionOf(p.value.line, p.value.headers).Refuse? {
      HeadRefused(s);
    } else {
      BodyRefused(s);
    }
  }

  lemma RefusalBegins(s: Sys)
    requires RefusedFront(s)
    ensures Begins(s, Refusing(s), StatusOf(s))
    ensures Refusing(s).c.keepAlive <==> s.c.keepAlive || AsksToStay(s.c.reqBuf)
    ensures Dispatch(s) == Dispatch(Refusing(s))
  {
    hide ParseRequest, AdmissionOf, StepHeader, StepBodyChunked, ErrorBytes, StatusOf, WantsKeepAlive, Dispatch;
    RefusalSteps(s);
    KeepAliveExactly(s);
    var h := StepHeader(s);
    DispatchOn(s, h);
    if h.c.phase == ReadingBodyChunked { DispatchOn(h, StepBodyChunked(h)); }
  }

  /** The response on its way leaves in one piece. */
  predicate LeavesWhole(r: Sys)
    requires In(r, SendingResponse)
  {
    SendSome(r, r.c.respBuf, r.c.st.sent).0 == SendOk
  }

  /**
   A refused request is answered but not consumed. When its error response has left in one
   piece, the connection is still open if and only if keep-alive had been left set, or the
   request parses and asks for it, and the limit of responses is not reached. An open one has
   the very same bytes in front of it.
   */
  lemma RefusedStays(s: Sys)
    requires RefusedFront(s) && LeavesWhole(Refusing(s))
    ensures var q := StepSend(Refusing(s));
      && (q.c.phase != Closed <==>
            (s.c.keepAlive || AsksToStay(s.c.reqBuf)) && s.c.requests + 1 < MAX_REQUESTS)
      && (q.c.phase != Closed ==> RefusedFront(q) && !q.c.keepAlive)
      && q.c.reqBuf == s.c.reqBuf && q.l.built == s.l.built && q.c.requests == s.c.requests + 1
      && q.l.messages == s.l.messages + [Buffered(ErrorBytes(StatusOf(s), Now(s.w).0), [])]
  {
    hide FrontOf, StatusOf, ErrorBytes, Refusing, LeavesWhole, StepSend, AsksToStay;
    RefusalBegins(s);
    RefusalLeaves(Refusing(s));
  }

  lemma RefusalLeaves(r: Sys)
    requires In(r, SendingResponse) && r.c.st == StSend(0) && r.l.junk == []
    requires LeavesWhole(r)
    ensures var q := StepSend(r);
      && (q.c.phase != Closed <==> r.c.keepAlive && r.c.requests + 1 < MAX_REQUESTS)
      && (q.c.phase != Closed ==> In(q, ReadingRequest) && !q.c.keepAlive)
      && q.c.reqBuf == r.c.reqBuf && q.l.built == r.l.built && q.c.requests == r.c.requests + 1
      && q.l.messages == r.l.messages + [Buffered(r.c.respBuf, [])]
      && q.w.net == Send(r.w.net, |r.c.respBuf|).1
  {
  }

  // ---------------------------------------------------------------- again and again

  ghost predicate IsRefusal(m: Message, status: ParseStatus) {
    exists date: Date :: m == Buffered(ErrorBytes(status, date), [])
  }

  ghost predicate AllRefusals(messages: seq<Message>, from: nat, status: ParseStatus) {
    forall i :: from <= i < |messages| ==> IsRefusal(messages[i], status)
  }

  lemma OneMoreRefusal(before: seq<Message>, date: Date, all: seq<Message>, status: ParseStatus)
    requires before + [Buffered(ErrorBytes(status, date), [])] <= all && AllRefusals(all, |before| + 1, status)
    ensures before <= all && AllRefusals(all, |before|, status)
  {
    hide ErrorBytes;
    assert all[|before|] == Buffered(ErrorBytes(status, date), []);
    assert IsRefusal(all[|before|], status);
  }

  /** The next `n` sends take whatever they are given. */
  predicate SendsTake(net: Net, n: nat) {
    |net.sends| >= n && forall i :: 0 <= i < n ==> net.sends[i].Accept? && net.sends[i].n >= RESPONSE_BUFFER_SIZE
  }

  lemma OneRefusal(s: Sys)
    requires RefusedFront(s) && SendsTake(s.w.net, MAX_REQUESTS - s.c.requests)
    ensures var r := Refusing(s);
      && LeavesWhole(r) && r.w.net == s.w.net
      && StepSend(r).w.net.sends == s.w.net.sends[1..]
  {
    hide FrontOf, StatusOf, ErrorBytes, Refusing, LeavesWhole, StepSend;
    RefusalBegins(s);
    assert s.w.net.sends[0].Accept?;
    SendTakes(Refusing(s));
  }

  lemma SendTakes(r: Sys)
    requires In(r, SendingResponse) && r.c.st == StSend(0) && r.w.net.sends != []
    requires r.w.net.sends[0].Accept? && r.w.net.sends[0].n >= RESPONSE_BUFFER_SIZE
    ensures LeavesWhole(r) && StepSend(r).w.net.sends == r.w.net.sends[1..]
  {
  }

  /** A request that is refused with this status and asks to stay, and a peer that takes the answers. */
  predicate Stuck(s: Sys, status: ParseStatus) {
    && RefusedFront(s) && StatusOf(s) == status && AsksToStay(s.c.reqBuf) && s.c.requests < MAX_REQUESTS
    && SendsTake(s.w.net, MAX_REQUESTS - s.c.requests)
  }

  /** `q` is `s` after one more refusal. */
  predicate AnsweredOnce(s: Sys, q: Sys, status: ParseStatus) {
    && q.l.messages == s.l.messages + [Buffered(ErrorBytes(status, Now(s.w).0), [])] && q.l.built == s.l.built
    && q.c.requests == s.c.requests + 1
  }

  /** One refusal leaves: then the connection is closed at the limit, or about to refuse again. */
  lemma Turn(s: Sys, e: Sys, status: ParseStatus) returns (q: Sys)
    requires Stuck(s, status) && e == Dispatch(s)
    ensures AnsweredOnce(s, q, status)
    ensures if q.c.phase == Closed then e == q && q.c.requests == MAX_REQUESTS
            else Stuck(q, status) && e == Dispatch(q)
  {
    hide FrontOf, StatusOf, AsksToStay, Refusing, StepSend, LeavesWhole, Dispatch, Begins, ErrorBytes, SendsTake;
    OneRefusal(s);
    RefusalBegins(s);
    RefusedStays(s);
    q := StepSend(Refusing(s));
    FewerSends(s.w.net, q.w.net, MAX_REQUESTS - s.c.requests);
    SameStatus(s, q);
    DispatchOn(Refusing(s), q);
  }

  lemma {:induction false} StuckRepeats(s: Sys, e: Sys, status: ParseStatus)
    requires Stuck(s, status) && e == Dispatch(s)
    ensures e.c.phase == Closed && e.c.requests == MAX_REQUESTS && e.l.built == s.l.built
    ensures |e.l.messages| == |s.l.messages| + (MAX_REQUESTS - s.c.requests) && s.l.messages <= e.l.messages
    ensures AllRefusals(e.l.messages, |s.l.messages|, status)
    decreases MAX_REQUESTS - s.c.requests
  {
    var q := Turn(s, e, status);
    BelowLimit(s);
    hide Stuck, Dispatch, AllRefusals, ErrorBytes;
    if q.c.phase == Closed {
      NoneLeft(q.l.messages, status);
    } else {
      BelowLimit(q);
      StuckRepeats(q, e, status);
    }
    OneMoreRefusal(s.l.messages, Now(s.w).0, e.l.messages, status);
  }

  lemma BelowLimit(s: Sys)
    ensures forall status :: Stuck(s, status) ==> s.c.requests < MAX_REQUESTS
  {
  }

  /**
   The same bytes are refused again until the limit of responses: one request that is refused
   and asks to stay is answered over and over in a single wake-up, and nothing is built.
   */
  lemma RefusedRepeats(s: Sys)
    requires RefusedFront(s) && AsksToStay(s.c.reqBuf) && SendsTake(s.w.net, MAX_REQUESTS - s.c.requests)
    ensures var e := Dispatch(s);
      && e.c.phase == Closed && e.c.requests == MAX_REQUESTS && e.l.built == s.l.built
      && |e.l.messages| == |s.l.messages| + (MAX_REQUESTS - s.c.requests) && s.l.messages <= e.l.messages
      && AllRefusals(e.l.messages, |s.l.messages|, StatusOf(s))
  {
    hide FrontOf, StatusOf, AsksToStay, Dispatch, AllRefusals, SendsTake;
    StuckRepeats(s, Dispatch(s), StatusOf(s));
  }

  lemma SameStatus(s: Sys, q: Sys)
    requires RefusedFront(s) && s.c.reqBuf == q.c.reqBuf
    ensures RefusedFront(q) ==> StatusOf(q) == StatusOf(s)
  {
    hide RefusalOf;
  }

  lemma NoneLeft(messages: seq<Message>, status: ParseStatus)
    ensures AllRefusals(messages, |messages|, status)
  {
  }

  lemma FewerSends(net: Net, rest: Net, n: nat)
    requires SendsTake(net, n) && n > 0 && rest.sends == net.sends[1..]
    ensures SendsTake(rest, n - 1)
  {
  }

  // ---------------------------------------------------------------- nothing behind it

  /**
   Nothing behind a refused request is ever built: once one stands at the front of the buffer,
   the requests built at any time are among those built by then, in every world.
   */
  lemma NothingBehindRefused(c: Conn, w: World, k: nat, later: nat)
    requires c.bodyLen == 0 && FrontOf(Run(Start(c, w), k).c.reqBuf) == Refused
    ensures Run(Start(c, w), later).l.built <= Run(Start(c, w), k).l.built
  {
    hide *;
    var s := Run(Start(c, w), k);
    RunConserves(c, w, k);
    RunStream(c, w, k);
    RunKeepsFraming(c, w, k);
    InvWhole(s);
    RefusedBound(s.l.received, s.w.net.incoming, s.l.built, s.c.reqBuf);
    BuiltPrefix(c, w, later);
  }

  lemma InvWhole(s: Sys)
    requires FrameInv(s)
    ensures AllWhole(s.l.built)
  {
  }

  lemma RefusedBound(received: bytes, incoming: bytes, built: seq<Built>, buf: bytes)
    requires received == Spans(built) + buf && AllWhole(built) && FrontOf(buf) == Refused
    ensures RequestsOf(received + incoming) == built
  {
    hide *;
    RefusedEnds(built, buf, incoming);
    Reassociate(Spans(built), buf, incoming);
  }

  lemma RefusedEnds(built: seq<Built>, buf: bytes, rest: bytes)
    requires AllWhole(built) && FrontOf(buf) == Refused
    ensures RequestsOf(Spans(built) + (buf + rest)) == built
  {
    FrontExtends(buf, rest);
    RequestsOfSpans(built, buf + rest);
    assert RequestsOf(buf + rest) == [];
  }

  // ---------------------------------------------------------------- a witness

  /** A Host and a Content-Length that is no number: refused, and the connection is to stay open. */
  lemma RefusedAndKept(rest: bytes)
    ensures var buf := ShowRequest(LINE, UnreadableLength()) + rest;
      FrontOf(buf) == Refused && RefusalOf(buf) == Some(BadRequest) && AsksToStay(buf)
  {
    hide ParseRequest, AdmissionOf, FindTerminator, WantsKeepAlive;
    var buf := ShowRequest(LINE, UnreadableLength()) + rest;
    UnreadableShown();
    UnreadableRefused();
    ShownHeadIsWhole(buf, LINE, UnreadableLength());
  }

  /** A chunk line that is no size. */
  const NO_SIZE: bytes := [120, 13, 10]

  lemma NoSizeRejected(rest: bytes)
    ensures Decode(NO_SIZE + rest, MAX_DECHUNK_SIZE).verdict == Rejected
  {
    assert CrlfIn(NO_SIZE, 1, 3) && NO_SIZE[0..1] == [120];
    assert FindCrlf(NO_SIZE, 0, 3) == 1 && FindByte(NO_SIZE, SEMICOLON, 0, 1) == 1;
    assert ParseFrom([120], 0, 16, MAX_BODY_LEN, 0) == Failure(BadRequest);
    assert SizeLine(NO_SIZE, 0) == Failure(BadRequest);
    VerdictStable(START, NO_SIZE, rest, 0, [], MAX_DECHUNK_SIZE);
  }

  /** A Host and chunked coding, then no chunk: admitted and asked to stay, and refused for its body. */
  lemma BodyRefusedAndKept(rest: bytes)
    ensures var buf := ShowRequest(LINE, ChunkedHeaders()) + (NO_SIZE + rest);
      FrontOf(buf) == Refused && RefusalOf(buf) == Some(BadRequest) && AsksToStay(buf)
  {
    hide ParseRequest, AdmissionOf, FindTerminator, WantsKeepAlive, Decode;
    var head := ShowRequest(LINE, ChunkedHeaders());
    var buf := head + (NO_SIZE + rest);
    SimpleShown();
    ChunkedHeadAdmitted();
    ChunkedHeadShown();
    ShownHeadIsWhole(buf, LINE, ChunkedHeaders());
    NoSizeRejected(rest);
    assert buf[|head|..] == NO_SIZE + rest;
  }
}
