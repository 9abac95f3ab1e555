/**
 Slots that serve one connection after another. `connection_init` leaves some fields as they
 were: which of them matter, exactly when, and a run that shows it.
 */
module ConnSlots {
  import opened Bytes
  import opened Config
  import opened Numbers
  import opened RequestLines
  import opened Headers
  import opened Requests
  import opened TransferEncoding
  import opened Admissions
  import opened Responses
  import opened Network
  import opened ConnSpec
  import opened Framing
  import opened ConnRuns
  import opened ConnPromises
  import opened Samples

  // ---------------------------------------------------------------- a slot's history

  /** What a slot holds after serving these connections, each in its world for some wake-ups. */
  function SlotAfter(h: seq<(World, nat)>): Conn {
    if h == [] then FRESH
    else Run(Start(SlotAfter(h[..|h| - 1]), h[|h| - 1].0), h[|h| - 1].1).c
  }

  /** Every connection was over before the slot was given to the next. */
  predicate AllClosed(h: seq<(World, nat)>) {
    forall i :: 0 < i <= |h| ==> SlotAfter(h[..i]).phase == Closed
  }

  /**
   No slot hands a producer on, so everything proved about the wire and about producers holds
   of every connection in every slot, whatever its history.
   */
  lemma {:induction false} SlotIdle(h: seq<(World, nat)>)
    requires AllClosed(h)
    ensures SlotAfter(h).producer == None
    decreases |h|
  {
    if h != [] {
      var init := h[..|h| - 1];
      assert h[..|h|] == h;
      forall i | 0 < i <= |init| ensures SlotAfter(init[..i]).phase == Closed {
        assert init[..i] == h[..i];
      }
      SlotIdle(init);
      RunLifecycle(SlotAfter(init), h[|h| - 1].0, h[|h| - 1].1);
    }
  }

  // ---------------------------------------------------------------- next_req_offset

  /** An offset left behind is overwritten on every way to a response: it steers nothing. */
  lemma StaleOffsetIgnored(s: Sys, x: nat)
    requires In(s, ReadingRequest)
    ensures var t := s.(c := s.c.(nextReq := x));
      var r, q := StepHeader(s), StepHeader(t);
      && q.w == r.w && q.l == r.l && q.c.(nextReq := r.c.nextReq) == r.c
      && (r.c.phase == Building ==> q == r)
  {
    hide ParseRequest, FindTerminator, AdmissionOf, ReadHead, HeadArrived;
    ReadHeadOffset(s, x);
    var (status, r) := ReadHead(s);
    AfterHeadOffset(status, r, x);
  }

  predicate SameButOffset(r: Sys, q: Sys) {
    && q.w == r.w && q.l == r.l && q.c.(nextReq := r.c.nextReq) == r.c
    && (r.c.phase == Building ==> q == r)
  }

  lemma AfterHeadOffset(status: HeadStatus, s: Sys, x: nat)
    requires In(s, ReadingRequest) && (status == HeadFound ==> HasTerminator(s.c.reqBuf, |s.c.reqBuf|))
    ensures SameButOffset(AfterHead(status, s), AfterHead(status, s.(c := s.c.(nextReq := x))))
  {
    hide ParseRequest, FindTerminator, AdmissionOf, Admitted, ErrorBytes;
    if status == HeadFound && ParseRequest(s.c.reqBuf, |s.c.reqBuf|).Success? {
      var head := ParseRequest(s.c.reqBuf, |s.c.reqBuf|).value;
      AdmittedOffset(s, head.line, head.headers, AdmissionOf(head.line, head.headers), x);
    }
  }

  lemma AdmittedOffset(s: Sys, line: RequestLine, headers: seq<Header>, a: Admission, x: nat)
    requires In(s, ReadingRequest) && HasTerminator(s.c.reqBuf, |s.c.reqBuf|)
    ensures SameButOffset(Admitted(s, line, headers, a), Admitted(s.(c := s.c.(nextReq := x)), line, headers, a))
  {
    hide FindTerminator, WantsKeepAlive, CodingOf, ErrorBytes, StoreHead, HeadEnd, HasTerminator, Find;
    StoreHeadOffset(s.c, line, headers, x);
  }

  lemma StoreHeadOffset(c: Conn, line: RequestLine, headers: seq<Header>, x: nat)
    requires HasTerminator(c.reqBuf, |c.reqBuf|)
    ensures StoreHead(c.(nextReq := x), line, headers) == StoreHead(c, line, headers).(nextReq := x)
  {
  }

  lemma {:induction false} ReadHeadOffset(s: Sys, x: nat)
    requires In(s, ReadingRequest)
    ensures var t := s.(c := s.c.(nextReq := x));
      var (a, r) := ReadHead(s);
      In(t, ReadingRequest) && ReadHead(t) == (a, r.(c := r.c.(nextReq := x)))
    decreases |s.w.net.recvs|
  {
    hide FindTerminator;
    var t := s.(c := s.c.(nextReq := x));
    if !HasTerminator(s.c.reqBuf, |s.c.reqBuf|) && |s.c.reqBuf| < MAX_REQUEST_LEN {
      match Recv(s.w.net, MAX_REQUEST_LEN - |s.c.reqBuf|)
      case (Got(piece), net) => ReadHeadOffset(Arrive(s, piece, net), x);
      case (Retry, net) => ReadHeadOffset(WithNet(s, net), x);
      case _ =>
    }
  }

  // ---------------------------------------------------------------- keep_alive

  /**
   Keep-alive after a whole head: a flag left behind stays set whatever the request asks for,
   and otherwise the request decides, if it parses.
   */
  lemma KeepAliveExactly(s: Sys)
    requires In(s, ReadingRequest) && HasTerminator(s.c.reqBuf, |s.c.reqBuf|)
    ensures StepHeader(s).c.keepAlive <==>
              var p := ParseRequest(s.c.reqBuf, |s.c.reqBuf|);
              s.c.keepAlive || (p.Success? && WantsKeepAlive(p.value.line, p.value.headers))
  {
    hide ParseRequest, FindTerminator, AdmissionOf, Admitted, ErrorBytes, WantsKeepAlive;
    var p := ParseRequest(s.c.reqBuf, |s.c.reqBuf|);
    if p.Success? { AdmittedKeepAlive(s, p.value.line, p.value.headers, AdmissionOf(p.value.line, p.value.headers)); }
  }

  lemma AdmittedKeepAlive(s: Sys, line: RequestLine, headers: seq<Header>, a: Admission)
    requires In(s, ReadingRequest) && HasTerminator(s.c.reqBuf, |s.c.reqBuf|)
    ensures Admitted(s, line, headers, a).c.keepAlive == (s.c.keepAlive || WantsKeepAlive(line, headers))
  {
    hide FindTerminator, HeadEnd, WantsKeepAlive, CodingOf, ErrorBytes;
  }

  // ---------------------------------------------------------------- concrete streams

  /** A peer that sends `stream` in one piece, and does so with what is sent to it. */
  function InOnePiece(stream: bytes, taken: SendEvent): World {
    World(Net(stream, [Deliver(|stream|)], [taken]), [], [])
  }

  /** A peer that sends `stream` in one piece and takes one response of any length. */
  function OnePiece(stream: bytes): World { InOnePiece(stream, Accept(RESPONSE_BUFFER_SIZE)) }

  // ---------------------------------------------------------------- body_len

  /** The whole stream is received at once and holds a whole head. */
  lemma OnePieceArrives(c: Conn, stream: bytes, taken: SendEvent)
    requires 0 < |stream| <= MAX_REQUEST_LEN && HasTerminator(stream, |stream|)
    ensures var s := Start(c, InOnePiece(stream, taken));
      ReadHead(s) == (HeadFound, Arrive(s, stream, Net([], [], [taken])))
  {
    var s := Start(c, InOnePiece(stream, taken));
    assert !HasTerminator([], 0);
    assert stream[..|stream|] == stream && stream[|stream|..] == [] && [] + stream == stream;
    assert s.w.net.recvs[1..] == [];
    var m := Arrive(s, stream, Net([], [], [taken]));
    assert Recv(s.w.net, MAX_REQUEST_LEN) == (Got(stream), m.w.net);
    assert ReadHead(m) == (HeadFound, m);
  }

  /** A buffer that begins with the simple request, in a slot that was left a length. */
  lemma SimpleWaits(s: Sys)
    requires In(s, ReadingRequest) && SIMPLE <= s.c.reqBuf && s.c.bodyLen > 0
    ensures HasTerminator(s.c.reqBuf, |s.c.reqBuf|) && In(HeadArrived(s), ReadingBodyCl)
    ensures var r := HeadArrived(s);
      && r.w == s.w && r.l == s.l && r.c.reqBuf == s.c.reqBuf && r.c.bodyStart == |SIMPLE|
      && r.c.bodyLen == s.c.bodyLen && r.c.coding == TeNone && r.c.line == LINE && r.c.headers == [HOST_HEADER]
      && r.c.st == StCl(|s.c.reqBuf| - |SIMPLE|)
  {
    SimpleShown();
    ShownHeadIsWhole(s.c.reqBuf, LINE, [HOST_HEADER]);
    SimpleAdmitted();
    SimpleFramed(s);
  }

  lemma SimpleFramed(s: Sys)
    requires In(s, ReadingRequest) && HasTerminator(s.c.reqBuf, |s.c.reqBuf|) && s.c.bodyLen > 0
    requires HeadEnd(s.c.reqBuf, |s.c.reqBuf|) == |SIMPLE| && Find([HOST_HEADER], CONTENT_LENGTH).None?
    requires ParseRequest(s.c.reqBuf, |s.c.reqBuf|) == Success(Head(LINE, [HOST_HEADER], |SIMPLE|))
    requires AdmissionOf(LINE, [HOST_HEADER]) == Admit(TeNone, 0, false)
    ensures var r := HeadArrived(s);
      && r.w == s.w && r.l == s.l && r.c.reqBuf == s.c.reqBuf && r.c.bodyStart == |SIMPLE| && r.c.phase == ReadingBodyCl
      && r.c.bodyLen == s.c.bodyLen && r.c.coding == TeNone && r.c.line == LINE && r.c.headers == [HOST_HEADER]
      && r.c.st == StCl(|s.c.reqBuf| - |SIMPLE|)
  {
    hide ParseRequest, FindTerminator, HeadEnd, HasTerminator, AdmissionOf, ShowRequest;
    hide WantsKeepAlive, CodingSeen, Find;
  }

  lemma SimpleFront(b: Built)
    requires b == Built(LINE, [HOST_HEADER], SIMPLE, [])
    requires HasTerminator(SIMPLE, |SIMPLE|) && HeadEnd(SIMPLE, |SIMPLE|) == |SIMPLE|
    requires ParseRequest(SIMPLE, |SIMPLE|) == Success(Head(LINE, [HOST_HEADER], |SIMPLE|))
    requires AdmissionOf(LINE, [HOST_HEADER]) == Admit(TeNone, 0, false)
    requires SIMPLE[..|SIMPLE|] == SIMPLE && SIMPLE[|SIMPLE|..|SIMPLE|] == []
    ensures FrontOf(SIMPLE) == Whole(b)
  {
    hide ParseRequest, FindTerminator, HeadEnd, HasTerminator, AdmissionOf, ShowRequest;
  }

  /** The simple request is one whole request without a body. */
  lemma SimpleIsWhole()
    ensures RequestsOf(SIMPLE) == [Built(LINE, [HOST_HEADER], SIMPLE, [])]
  {
    hide FrontBody, ParseRequest, AdmissionOf;
    SimpleShown();
    SimpleAdmitted();
    ShownHeadIsWhole(SIMPLE, LINE, [HOST_HEADER]);
    var b := Built(LINE, [HOST_HEADER], SIMPLE, []);
    assert SIMPLE[..|SIMPLE|] == SIMPLE && SIMPLE[|SIMPLE|..|SIMPLE|] == [] && SIMPLE[|SIMPLE|..] == [];
    SimpleFront(b);
    assert !HasTerminator([], 0);
    FirstRequest(SIMPLE, b);
  }

  /**
   In a slot that was left a length, a request without a body is received in full and not
   built: the connection waits for a body that was never declared.
   */
  lemma StaleLengthStalls(c: Conn)
    requires c.bodyLen > 0
    ensures var s := Run(Start(c, OnePiece(SIMPLE)), 1);
      s.l.received == SIMPLE && s.c.phase == ReadingBodyCl && s.l.built == []
  {
    SimpleShort();
    SimpleShown();
    ShownHeadIsWhole(SIMPLE, LINE, [HOST_HEADER]);
    OnePieceArrives(c, SIMPLE, Accept(RESPONSE_BUFFER_SIZE));
    var s := Start(c, OnePiece(SIMPLE));
    var m := Arrive(s, SIMPLE, Net([], [], [Accept(RESPONSE_BUFFER_SIZE)]));
    assert m.c.reqBuf == SIMPLE && m.l.received == SIMPLE;
    SimpleWaits(m);
    Stalls(s, m);
  }

  lemma Stalls(s: Sys, m: Sys)
    requires In(s, ReadingRequest) && In(m, ReadingRequest) && HasTerminator(m.c.reqBuf, |m.c.reqBuf|)
    requires ReadHead(s) == (HeadFound, m) && In(HeadArrived(m), ReadingBodyCl) && HeadArrived(m).w == m.w
    requires HeadArrived(m).c.st == StCl(0) && HeadArrived(m).c.bodyLen > 0 && m.w.net.recvs == []
    requires |HeadArrived(m).c.reqBuf| < MAX_REQUEST_LEN
    ensures Dispatch(s).l == HeadArrived(m).l && Dispatch(s).c.phase == ReadingBodyCl
    ensures Run(s, 1) == Dispatch(s)
  {
    hide ParseRequest, FindTerminator, HasTerminator, HeadArrived, ReadHead;
    var r := HeadArrived(m);
    assert Step(s) == r;
    NothingComes(r);
    hide StepBodyCl, StepHeader;
    assert Dispatch(r) == StepBodyCl(r);
    assert Run(s, 0) == s;
  }

  lemma NothingComes(r: Sys)
    requires In(r, ReadingBodyCl) && r.c.st.received < r.c.bodyLen && r.w.net.recvs == []
    requires |r.c.reqBuf| < MAX_REQUEST_LEN
    ensures StepBodyCl(r).c.phase == ReadingBodyCl && StepBodyCl(r).l == r.l
  {
  }

  /**
   With more bytes behind it, the next `bodyLen` of them are swallowed as its body, whatever
   they are: the request that is built is not the one that was sent.
   */
  lemma StaleLengthSwallows(s: Sys, next: bytes)
    requires In(s, ReadingRequest) && s.c.bodyLen > 0 && SIMPLE + next <= s.c.reqBuf && |next| == s.c.bodyLen
    ensures HasTerminator(s.c.reqBuf, |s.c.reqBuf|)
    ensures var r := HeadArrived(s);
      In(r, ReadingBodyCl) && In(StepBodyCl(r), Building) &&
      StepBuild(StepBodyCl(r)).l.built == s.l.built + [Built(LINE, [HOST_HEADER], SIMPLE + next, next)]
  {
    assert SIMPLE <= SIMPLE + next;
    SimpleWaits(s);
    Swallows(HeadArrived(s), SIMPLE, next);
  }

  lemma Swallows(r: Sys, head: bytes, next: bytes)
    requires In(r, ReadingBodyCl) && r.c.bodyStart == |head| && r.c.bodyLen == |next| > 0 && r.c.coding == TeNone
    requires head + next <= r.c.reqBuf
    ensures In(StepBodyCl(r), Building)
    ensures StepBuild(StepBodyCl(r)).l.built == r.l.built + [Built(r.c.line, r.c.headers, head + next, next)]
  {
    hide StepBuild, Consume;
    var n := |head + next|;
    var q := StepBodyCl(r);
    assert ReadCl(r) == (BodyOk, r);
    assert q.c.reqBuf == r.c.reqBuf && SpanLength(q.c) == n;
    assert q.c.reqBuf[..n] == head + next && q.c.reqBuf[|head|..n] == next;
    BuildTakes(q);
  }

  lemma BuildTakes(q: Sys)
    requires In(q, Building)
    ensures var n := SpanLength(q.c);
      StepBuild(q).l.built == q.l.built + [Built(q.c.line, q.c.headers, q.c.reqBuf[..n], FramedBody(q.c))]
  {
    hide Serialize, Text, HeadText, StreamText;
  }

  // ---------------------------------------------------------------- how a length is left behind

  lemma DispatchOn(s: Sys, r: Sys)
    requires Valid(s.c) && Step(s) == r && r.c.phase != s.c.phase
    ensures Dispatch(s) == if r.c.phase == Closed then r else Dispatch(r)
  {
    hide Step;
  }

  /** The request of the left-behind length: `n` bytes of body, and close. */
  function ClosingText(body: bytes): bytes {
    ShowRequest(LINE, Closing(|body|)) + body
  }

  lemma ClosingShown(body: bytes)
    requires 0 < |body| <= MAX_BODY_LEN
    ensures ValidRequestLine(LINE) && ValidHeaders(Closing(|body|)) && Reprintable(Closing(|body|))
    ensures |ClosingText(body)| <= MAX_REQUEST_LEN
  {
    hide Digits, Power;
    var n := |body|;
    BodyWithinPower();
    LengthHeaderValid(n);
    assert Closing(n)[0] == HOST_HEADER && Closing(n)[1] == CLOSE_HEADER && Closing(n)[2] == LengthHeader(n);
    ShowHeadersAppend([HOST_HEADER] + [CLOSE_HEADER], [LengthHeader(n)]);
    ShowHeadersAppend([HOST_HEADER], [CLOSE_HEADER]);
    ShowOne(HOST_HEADER);
    ShowOne(CLOSE_HEADER);
    ShowOne(LengthHeader(n));
  }

  /** `s` serves a request of `n` body bytes with no handler for it; `keep` says whether it is to stay open. */
  predicate Leaving(s: Sys, phase: ConnPhase, n: nat, keep: bool) {
    && In(s, phase) && s.c.bodyLen == n && s.c.keepAlive == keep && s.c.requests == 0 && s.l.messages == []
    && s.w == World(Net([], [], [Accept(RESPONSE_BUFFER_SIZE)]), [], [])
  }

  lemma ClosingReads(s: Sys, headers: seq<Header>, n: nat)
    requires n > 0 && Leaving(s, ReadingRequest, s.c.bodyLen, s.c.keepAlive)
    requires HasTerminator(s.c.reqBuf, |s.c.reqBuf|)
    requires ParseRequest(s.c.reqBuf, |s.c.reqBuf|) == Success(Head(LINE, headers, HeadEnd(s.c.reqBuf, |s.c.reqBuf|)))
    requires AdmissionOf(LINE, headers) == Admit(TeNone, n, false) && !WantsKeepAlive(LINE, headers)
    requires Find(headers, CONTENT_LENGTH).Some? && |s.c.reqBuf| == HeadEnd(s.c.reqBuf, |s.c.reqBuf|) + n
    ensures Leaving(HeadArrived(s), ReadingBodyCl, n, s.c.keepAlive) && HeadArrived(s).c.st == StCl(n)
  {
    hide ParseRequest, FindTerminator, HeadEnd, HasTerminator, AdmissionOf, WantsKeepAlive, CodingSeen, Find;
  }

  lemma ClosingBuilds(s: Sys, n: nat, keep: bool)
    requires Leaving(s, ReadingBodyCl, n, keep) && s.c.st == StCl(n)
    ensures Leaving(StepBodyCl(s), Building, n, keep) && StepBodyCl(s).c.nextReq == 0
  {
    assert ReadCl(s) == (BodyOk, s);
  }

  /** The 404 of a request without a handler, at the time of an empty clock. */
  function NotFoundText(keep: bool): bytes { Text(ErrorResponse(NotFound), EPOCH, keep) }

  lemma ClosingAnswers(s: Sys, n: nat, keep: bool)
    requires Leaving(s, Building, n, keep) && s.c.nextReq == 0
    ensures var r := StepBuild(s);
      && Leaving(r, SendingResponse, n, keep) && r.c.st == StSend(0) && r.l.junk == []
      && r.c.respBuf == NotFoundText(keep) && r.c.reqBuf == []
  {
    hide Serialize, Text;
  }

  /** Waiting for a request of which nothing has come or will. */
  predicate Idle(s: Sys) { In(s, ReadingRequest) && s.c.reqBuf == [] && s.w.net.recvs == [] }

  lemma IdleWaits(s: Sys)
    requires Idle(s)
    ensures Dispatch(s) == s
  {
    assert !HasTerminator([], 0);
    assert ReadHead(s) == (HeadMore, s);
  }

  lemma ClosingEnds(s: Sys, n: nat, keep: bool)
    requires Leaving(s, SendingResponse, n, keep) && s.c.st == StSend(0) && s.l.junk == [] && s.c.reqBuf == []
    ensures var r := StepSend(s);
      && (if keep then Idle(r) else r.c.phase == Closed && r.c.bodyLen == n)
      && r.l.messages == [Buffered(s.c.respBuf, [])]
  {
  }

  lemma ClosingArrives(c: Conn, body: bytes)
    requires 0 < |body| <= MAX_BODY_LEN
    ensures var s, stream := Start(c, OnePiece(ClosingText(body))), ClosingText(body);
      var m := Arrive(s, stream, Net([], [], [Accept(RESPONSE_BUFFER_SIZE)]));
      && In(s, ReadingRequest) && In(m, ReadingRequest) && ReadHead(s) == (HeadFound, m)
      && HasTerminator(m.c.reqBuf, |m.c.reqBuf|)
      && Leaving(HeadArrived(m), ReadingBodyCl, |body|, c.keepAlive) && HeadArrived(m).c.st == StCl(|body|)
  {
    var n, stream := |body|, ClosingText(body);
    ClosingShown(body);
    ClosingAdmitted(n);
    ShownHeadIsWhole(stream, LINE, Closing(n));
    OnePieceArrives(c, stream, Accept(RESPONSE_BUFFER_SIZE));
    var s := Start(c, OnePiece(stream));
    var m := Arrive(s, stream, Net([], [], [Accept(RESPONSE_BUFFER_SIZE)]));
    assert m.c.reqBuf == stream;
    hide ParseRequest, FindTerminator, HeadEnd, HasTerminator, AdmissionOf, WantsKeepAlive, ClosingText, ReadHead;
    ClosingReads(m, Closing(n), n);
  }

  lemma ClosingRuns(s: Sys, m: Sys, n: nat, keep: bool)
    requires In(s, ReadingRequest) && In(m, ReadingRequest) && ReadHead(s) == (HeadFound, m)
    requires HasTerminator(m.c.reqBuf, |m.c.reqBuf|)
    requires Leaving(HeadArrived(m), ReadingBodyCl, n, keep) && HeadArrived(m).c.st == StCl(n)
    ensures var e := Run(s, 1);
      && (if keep then Idle(e) else e.c.phase == Closed && e.c.bodyLen == n)
      && e.l.messages == [Buffered(NotFoundText(keep), [])]
  {
    hide FindTerminator, HasTerminator, HeadArrived, ReadHead;
    var r := HeadArrived(m);
    ClosingTail(r, n, keep);
    hide Dispatch, Idle;
    DispatchOn(s, r);
    assert Run(s, 0) == s;
  }

  lemma ClosingTail(r: Sys, n: nat, keep: bool)
    requires Leaving(r, ReadingBodyCl, n, keep) && r.c.st == StCl(n)
    ensures var e := Dispatch(r);
      && (if keep then Idle(e) else e.c.phase == Closed && e.c.bodyLen == n)
      && e.l.messages == [Buffered(NotFoundText(keep), [])]
  {
    hide StepBodyCl, StepBuild, StepSend, NotFoundText;
    ClosingBuilds(r, n, keep);
    var r2 := StepBodyCl(r);
    ClosingAnswers(r2, n, keep);
    var r3 := StepBuild(r2);
    ClosingEnds(r3, n, keep);
    if keep { IdleWaits(StepSend(r3)); }
    hide Dispatch;
    DispatchOn(r, r2);
    DispatchOn(r2, r3);
    DispatchOn(r3, StepSend(r3));
  }

  /**
   Every length up to the limit can be left behind, even by a slot's first connection: a
   request with that Content-Length that is answered and then closed. The slot is then unfit.
   */
  lemma LengthLeftBehind(body: bytes)
    requires 0 < |body| <= MAX_BODY_LEN
    ensures var s := Run(Start(FRESH, OnePiece(ClosingText(body))), 1);
      s.c.phase == Closed && s.c.bodyLen == |body| && !SlotFramesRight(s.c)
  {
    hide Leaving, HeadArrived, ReadHead, FindTerminator, ClosingText;
    ClosingArrives(FRESH, body);
    var s, stream := Start(FRESH, OnePiece(ClosingText(body))), ClosingText(body);
    ClosingRuns(s, Arrive(s, stream, Net([], [], [Accept(RESPONSE_BUFFER_SIZE)])), |body|, false);
    SlotFramesExactly(Run(s, 1).c);
  }

  // ---------------------------------------------------------------- how a flag is left behind

  /**
   In any slot, a request that asks for the connection to be closed is answered and the
   connection is then closed if and only if no keep-alive flag was left behind; in a slot with
   the flag the answer says "keep-alive" and the connection waits for the next request.
   */
  lemma LeftFlagDecides(c: Conn, body: bytes)
    requires 0 < |body| <= MAX_BODY_LEN
    ensures !WantsKeepAlive(LINE, Closing(|body|))
    ensures var s := Run(Start(c, OnePiece(ClosingText(body))), 1);
      && (s.c.phase == Closed <==> !c.keepAlive)
      && s.l.messages == [Buffered(Text(ErrorResponse(NotFound), EPOCH, c.keepAlive), [])]
  {
    hide Leaving, HeadArrived, ReadHead, FindTerminator, ClosingText, Text;
    ClosingAdmitted(|body|);
    ClosingArrives(c, body);
    var s, stream := Start(c, OnePiece(ClosingText(body))), ClosingText(body);
    ClosingRuns(s, Arrive(s, stream, Net([], [], [Accept(RESPONSE_BUFFER_SIZE)])), |body|, c.keepAlive);
  }

  /** The simple request is built and its answer is on its way. */
  lemma SimpleAnswered(s: Sys)
    requires In(s, ReadingRequest) && s.c.reqBuf == SIMPLE && s.c.bodyLen == 0
    ensures HasTerminator(s.c.reqBuf, |s.c.reqBuf|)
    ensures var r := HeadArrived(s);
      In(r, Building) && r.c.keepAlive && r.w == s.w && r.c.bodyLen == 0 && r.c.requests == s.c.requests
  {
    SimpleShown();
    ShownHeadIsWhole(s.c.reqBuf, LINE, [HOST_HEADER]);
    SimpleAdmitted();
    hide ParseRequest, FindTerminator, HeadEnd, HasTerminator, AdmissionOf, WantsKeepAlive, CodingSeen, Find;
  }

  /** The peer is gone when the answer is sent. */
  lemma AnswerFails(r: Sys)
    requires In(r, Building) && r.w.replies == [] && r.w.net.sends == [SendPeerClosed]
    ensures var a := StepBuild(r); In(a, SendingResponse) && a.c.keepAlive == r.c.keepAlive
    ensures var e := StepSend(StepBuild(r));
      e.c.phase == Closed && e.c.keepAlive == r.c.keepAlive && e.c.bodyLen == r.c.bodyLen
  {
    hide Text;
  }

  /** The flag can be left behind by a slot's first connection: a peer that does not wait for its answer. */
  lemma FlagLeftBehind()
    ensures var s := Run(Start(FRESH, InOnePiece(SIMPLE, SendPeerClosed)), 1);
      s.c.phase == Closed && s.c.keepAlive && s.c.bodyLen == 0
  {
    hide HasTerminator, HeadArrived, ReadHead, StepBuild, StepSend, Dispatch;
    SimpleArrives(SendPeerClosed);
    var s := Start(FRESH, InOnePiece(SIMPLE, SendPeerClosed));
    var m := Arrive(s, SIMPLE, Net([], [], [SendPeerClosed]));
    SimpleAnswered(m);
    FlagRuns(s, m, HeadArrived(m));
  }

  lemma SimpleArrives(taken: SendEvent)
    ensures var s := Start(FRESH, InOnePiece(SIMPLE, taken));
      var m := Arrive(s, SIMPLE, Net([], [], [taken]));
      && In(s, ReadingRequest) && In(m, ReadingRequest) && ReadHead(s) == (HeadFound, m)
      && HasTerminator(m.c.reqBuf, |m.c.reqBuf|) && m.c.reqBuf == SIMPLE && m.c.bodyLen == 0
  {
    SimpleShort();
    SimpleShown();
    ShownHeadIsWhole(SIMPLE, LINE, [HOST_HEADER]);
    hide HasTerminator, ReadHead;
    OnePieceArrives(FRESH, SIMPLE, taken);
    assert [] + SIMPLE == SIMPLE;
  }

  lemma FlagRuns(s: Sys, m: Sys, r: Sys)
    requires In(s, ReadingRequest) && In(m, ReadingRequest) && ReadHead(s) == (HeadFound, m)
    requires HasTerminator(m.c.reqBuf, |m.c.reqBuf|) && r == HeadArrived(m)
    requires In(r, Building) && r.w.replies == [] && r.w.net.sends == [SendPeerClosed] && r.c.keepAlive
    ensures var e := Run(s, 1); e.c.phase == Closed && e.c.keepAlive && e.c.bodyLen == r.c.bodyLen
  {
    hide HasTerminator, HeadArrived, ReadHead, StepBuild, StepSend;
    AnswerFails(r);
    var a := StepBuild(r);
    hide Dispatch;
    DispatchOn(s, r);
    DispatchOn(r, a);
    DispatchOn(a, StepSend(a));
    assert Run(s, 0) == s;
  }

  /** The same request with `more` behind it: its handler is given the body and all of `more`. */
  lemma ClosingSeesMore(s: Sys, body: bytes, more: bytes)
    requires In(s, ReadingRequest) && 0 < |body| <= MAX_BODY_LEN && s.c.reqBuf == ClosingText(body) + more
    ensures HasTerminator(s.c.reqBuf, |s.c.reqBuf|)
    ensures var r := HeadArrived(s);
      In(r, ReadingBodyCl) && StepBodyCl(r).c.phase == Building
      && FramedBody(StepBodyCl(r).c) == body && StepBodyCl(r).c.body == body + more
  {
    var n, head := |body|, ShowRequest(LINE, Closing(|body|));
    ClosingShown(body);
    ClosingAdmitted(n);
    Reassociate(head, body, more);
    assert head <= head + (body + more);
    ShownHeadIsWhole(s.c.reqBuf, LINE, Closing(n));
    ClosingFramed(s, Closing(n), |head|, n);
    assert s.c.reqBuf[|head|..] == body + more;
    HandlerSeesNext(HeadArrived(s), body, more);
  }

  lemma ClosingFramed(s: Sys, headers: seq<Header>, bodyStart: nat, n: nat)
    requires In(s, ReadingRequest) && n > 0 && HasTerminator(s.c.reqBuf, |s.c.reqBuf|)
    requires HeadEnd(s.c.reqBuf, |s.c.reqBuf|) == bodyStart
    requires ParseRequest(s.c.reqBuf, |s.c.reqBuf|) == Success(Head(LINE, headers, bodyStart))
    requires AdmissionOf(LINE, headers) == Admit(TeNone, n, false) && Find(headers, CONTENT_LENGTH).Some?
    ensures var r := HeadArrived(s);
      && In(r, ReadingBodyCl) && r.c.reqBuf == s.c.reqBuf && r.c.bodyStart == bodyStart
      && r.c.bodyLen == n && r.c.coding == TeNone
  {
    hide ParseRequest, FindTerminator, HeadEnd, HasTerminator, AdmissionOf, WantsKeepAlive, CodingSeen, Find;
  }

  // ---------------------------------------------------------------- exactly when a slot is fit

  /** What has been built is what the reference finds, and all of it when the connection waits. */
  predicate FramesRight(s: Sys, woken: bool) {
    && s.l.built <= RequestsOf(s.l.received)
    && (woken && Reading(s.c.phase) ==> s.l.built == RequestsOf(s.l.received))
  }

  ghost predicate SlotFramesRight(c: Conn) {
    forall w: World, k: nat :: FramesRight(Run(Start(c, w), k), k > 0)
  }

  /**
   A new connection frames every stream right, in every world and after every wake-up, if and
   only if the slot was left no declared length. Nothing else that is left behind matters.
   */
  lemma SlotFramesExactly(c: Conn)
    ensures SlotFramesRight(c) <==> c.bodyLen == 0
  {
    if c.bodyLen == 0 {
      forall w: World, k: nat ensures FramesRight(Run(Start(c, w), k), k > 0) {
        RunConserves(c, w, k);
        if k > 0 && Reading(Run(Start(c, w), k).c.phase) { WaitingMeansAllBuilt(c, w, k); }
      }
    } else {
      StaleLengthStalls(c);
      SimpleIsWhole();
      assert !FramesRight(Run(Start(c, OnePiece(SIMPLE)), 1), 1 > 0);
    }
  }
}
