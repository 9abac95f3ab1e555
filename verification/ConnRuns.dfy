/**
 What the framing invariant says about whole runs: conservation of received bytes, and
 independence of how the network cuts a pipelined stream.
 */
module ConnRuns {
  import opened Bytes
  import opened Config
  import opened ChunkSpec
  import opened Requests
  import opened TransferEncoding
  import opened Admissions
  import opened Network
  import opened ConnSpec
  import opened Framing
  import opened ConnFraming

  predicate Reading(p: ConnPhase) { p.ReadingRequest? || p.ReadingBodyCl? || p.ReadingBodyChunked? }

  // ---------------------------------------------------------------- the peer's stream

  lemma BuildSameStream(s: Sys)
    requires In(s, Building)
    ensures SameStream(s, StepBuild(s))
  {
  }

  lemma {:induction false} StepStreamStream(s: Sys)
    requires In(s, SendingStream)
    ensures SameStream(s, StepStream(s))
    decreases PullsLeft(s.c), StreamRank(s.c.st.stream)
  {
    var (goOn, s') := StreamTurn(s);
    assert SameStream(s, s');
    if goOn { StepStreamStream(s'); }
  }

  lemma HeadArrivedStream(s: Sys)
    requires In(s, ReadingRequest) && HasTerminator(s.c.reqBuf, |s.c.reqBuf|)
    ensures SameStream(s, HeadArrived(s))
  {
    var head := ParseRequest(s.c.reqBuf, |s.c.reqBuf|);
    if head.Success? { AdmittedStream(s, head.value, AdmissionOf(head.value.line, head.value.headers)); }
  }

  lemma AdmittedStream(s: Sys, head: Head, a: Admission)
    requires In(s, ReadingRequest) && HasTerminator(s.c.reqBuf, |s.c.reqBuf|)
    ensures SameStream(s, Admitted(s, head.line, head.headers, a))
  {
  }

  lemma AfterHeadStream(status: HeadStatus, s: Sys)
    requires In(s, ReadingRequest) && (status == HeadFound ==> HasTerminator(s.c.reqBuf, |s.c.reqBuf|))
    ensures SameStream(s, AfterHead(status, s))
  {
    if status == HeadFound { HeadArrivedStream(s); }
  }

  lemma AfterClStream(status: BodyStatus, s: Sys)
    requires In(s, ReadingBodyCl) && (status == BodyOk ==> s.c.st.received >= s.c.bodyLen)
    ensures SameStream(s, AfterCl(status, s))
  {
  }

  lemma AfterChunkedStream(status: BodyStatus, s: Sys)
    requires In(s, ReadingBodyChunked)
    ensures SameStream(s, AfterChunked(status, s))
  {
  }

  lemma ReadStream(s: Sys)
    requires Valid(s.c) && Reading(s.c.phase)
    ensures SameStream(s, Step(s))
  {
    match s.c.phase
    case ReadingRequest =>
      ReadHeadGains(s);
      AfterHeadStream(ReadHead(s).0, ReadHead(s).1);
    case ReadingBodyCl =>
      ReadClGains(s);
      AfterClStream(ReadCl(s).0, ReadCl(s).1);
    case ReadingBodyChunked =>
      ReadChunkedGains(s);
      AfterChunkedStream(ReadChunked(s).0, ReadChunked(s).1);
  }

  lemma StepStreamKept(s: Sys)
    requires Valid(s.c)
    ensures SameStream(s, Step(s))
  {
    if Reading(s.c.phase) {
      ReadStream(s);
    } else {
      match s.c.phase
      case Building => BuildSameStream(s);
      case SendingStream => StepStreamStream(s);
      case _ =>
    }
  }

  lemma {:induction false} DispatchStream(s: Sys)
    requires Valid(s.c)
    ensures SameStream(s, Dispatch(s))
    decreases MAX_REQUESTS - s.c.requests, Rank(s.c.phase)
  {
    StepStreamKept(s);
    var s' := Step(s);
    if s'.c.phase != s.c.phase && s'.c.phase != Closed { DispatchStream(s'); }
  }

  /** A head is too large only in a full buffer. */
  lemma {:induction false} TooLargeIsFull(s: Sys)
    requires In(s, ReadingRequest)
    ensures ReadHead(s).0 == HeadTooLarge ==> |ReadHead(s).1.c.reqBuf| >= MAX_REQUEST_LEN
    decreases |s.w.net.recvs|
  {
    hide FindTerminator;
    if !HasTerminator(s.c.reqBuf, |s.c.reqBuf|) && |s.c.reqBuf| < MAX_REQUEST_LEN {
      match Recv(s.w.net, MAX_REQUEST_LEN - |s.c.reqBuf|)
      case (Got(piece), net) => TooLargeIsFull(Arrive(s, piece, net));
      case (Retry, net) => TooLargeIsFull(WithNet(s, net));
      case _ =>
    }
  }

  // ---------------------------------------------------------------- waiting for input

  lemma ShortBody(c: Conn)
    requires HeadKnown(c)
    requires if c.coding == TeChunked then Decode(RawBody(c), MAX_DECHUNK_SIZE).verdict == More
             else |c.reqBuf| < c.bodyStart + c.bodyLen
    ensures FrontOf(c.reqBuf) == Short
  {
    HeadFront(c.reqBuf, |c.reqBuf|, c.bodyStart, c.line, c.headers, c.coding, c.bodyLen);
    assert c.reqBuf[..|c.reqBuf|] == c.reqBuf;
  }

  lemma HeaderWaits(s: Sys)
    requires In(s, ReadingRequest) && StepHeader(s).c.phase == ReadingRequest
    ensures FrontOf(StepHeader(s).c.reqBuf) == Short
  {
    assert ReadHead(s).0 == HeadMore;
  }

  lemma BodyClWaits(s: Sys)
    requires FrameInv(s) && In(s, ReadingBodyCl) && StepBodyCl(s).c.phase == ReadingBodyCl
    ensures FrontOf(StepBodyCl(s).c.reqBuf) == Short
  {
    ReadClKeeps(s);
    ShortBody(StepBodyCl(s).c);
  }

  lemma BodyChunkedWaits(s: Sys)
    requires FrameInv(s) && In(s, ReadingBodyChunked) && StepBodyChunked(s).c.phase == ReadingBodyChunked
    ensures FrontOf(StepBodyChunked(s).c.reqBuf) == Short
  {
    hide FrontOf, Drain, Decode, HeadIs, ReadChunked;
    ReadChunkedKeeps(s);
    assert ReadChunked(s).0 == BodyMore;
    ShortBody(StepBodyChunked(s).c);
  }

  /** A step that leaves the connection waiting for input has used all it has. */
  lemma StepWaits(s: Sys)
    requires FrameInv(s) && Step(s).c.phase == s.c.phase && Reading(s.c.phase)
    ensures FrontOf(Step(s).c.reqBuf) == Short
  {
    match s.c.phase
    case ReadingRequest => HeaderWaits(s);
    case ReadingBodyCl => BodyClWaits(s);
    case ReadingBodyChunked => BodyChunkedWaits(s);
  }

  lemma {:induction false} DispatchWaits(s: Sys)
    requires FrameInv(s) && Reading(Dispatch(s).c.phase)
    ensures FrontOf(Dispatch(s).c.reqBuf) == Short
    decreases MAX_REQUESTS - s.c.requests, Rank(s.c.phase)
  {
    var s' := Step(s);
    if s'.c.phase != s.c.phase && s'.c.phase != Closed {
      StepKeeps(s);
      DispatchWaits(s');
    } else {
      StepWaits(s);
    }
  }

  // ---------------------------------------------------------------- whole runs

  lemma {:induction false} RunStream(c: Conn, w: World, k: nat)
    ensures var s := Run(Start(c, w), k); s.l.received + s.w.net.incoming == w.net.incoming
    decreases k
  {
    hide Dispatch, Valid;
    if k > 0 {
      RunStream(c, w, k - 1);
      DispatchStream(Run(Start(c, w), k - 1));
    }
  }

  /**
   Conservation. After any number of wake-ups, against any network, handlers and clock: the
   bytes received so far are a prefix of what the peer sent, and they are exactly the spans
   of the requests built, in order, followed by what is in the buffer. Each span is one whole
   request of the byte-stream reference, so it ends where its head, its Content-Length or its
   chunked body ends, and nowhere else.
   */
  lemma RunConserves(c: Conn, w: World, k: nat)
    requires c.bodyLen == 0
    ensures var s := Run(Start(c, w), k);
      && s.l.received <= w.net.incoming
      && s.l.received == Spans(s.l.built) + s.c.reqBuf
      && (forall i: nat :: i < |s.l.built| ==> WholeAt(s.l.built, i))
      && RequestsOf(s.l.received) == s.l.built + RequestsOf(s.c.reqBuf)
  {
    RunKeepsFraming(c, w, k);
    RunStream(c, w, k);
    var s := Run(Start(c, w), k);
    RequestsOfSpans(s.l.built, s.c.reqBuf);
  }

  /**
   When a wake-up ends with the connection waiting for more of a request, every request that
   has fully arrived has been built: the list of requests is a function of the bytes received.
   */
  lemma WaitingMeansAllBuilt(c: Conn, w: World, k: nat)
    requires c.bodyLen == 0 && k > 0 && Reading(Run(Start(c, w), k).c.phase)
    ensures Run(Start(c, w), k).l.built == RequestsOf(Run(Start(c, w), k).l.received)
  {
    var s := Run(Start(c, w), k);
    RunConserves(c, w, k);
    RunWaits(c, w, k);
    NothingWhole(s.l.built, s.c.reqBuf);
  }

  lemma RunWaits(c: Conn, w: World, k: nat)
    requires c.bodyLen == 0 && k > 0 && Reading(Run(Start(c, w), k).c.phase)
    ensures FrontOf(Run(Start(c, w), k).c.reqBuf) == Short
  {
    hide *;
    RunKeepsFraming(c, w, k - 1);
    LastWakeUp(c, w, k);
    DispatchWaits(Run(Start(c, w), k - 1));
  }

  lemma LastWakeUp(c: Conn, w: World, k: nat)
    requires k > 0
    ensures Run(Start(c, w), k) == Dispatch(Run(Start(c, w), k - 1))
  {
    hide Dispatch, Valid;
  }

  lemma NothingWhole(built: seq<Built>, rest: bytes)
    requires FrontOf(rest) == Short
    ensures built + RequestsOf(rest) == built
  {
  }

  lemma BuiltPrefix(c: Conn, w: World, k: nat)
    requires c.bodyLen == 0
    ensures Run(Start(c, w), k).l.built <= RequestsOf(w.net.incoming)
  {
    var s := Run(Start(c, w), k);
    RunConserves(c, w, k);
    PrefixRequests(s.l.received, w.net.incoming, s.l.built, RequestsOf(s.c.reqBuf));
  }

  lemma PrefixRequests(received: bytes, stream: bytes, built: seq<Built>, more: seq<Built>)
    requires received <= stream && RequestsOf(received) == built + more
    ensures built <= RequestsOf(stream)
  {
    RequestsOfExtends(received, stream[|received|..]);
    assert received + stream[|received|..] == stream;
    assert built <= built + more;
  }

  /**
   Split independence of pipelining. Let the same byte stream reach two connections, cut by
   recv in any two ways and served by any handlers. At any two moments, the requests the one
   has built are an initial part of those the other has built, or the other way round: same
   lines, same headers, same spans, same framed bodies. Once both wait for input having
   received the whole stream, they have built the same requests: those of the reference.
   */
  lemma SplitIndependence(c1: Conn, w1: World, k1: nat, c2: Conn, w2: World, k2: nat)
    requires c1.bodyLen == 0 && c2.bodyLen == 0 && w1.net.incoming == w2.net.incoming
    ensures var s1, s2 := Run(Start(c1, w1), k1), Run(Start(c2, w2), k2);
      && (s1.l.built <= s2.l.built || s2.l.built <= s1.l.built)
      && (k1 > 0 && k2 > 0 && Reading(s1.c.phase) && Reading(s2.c.phase)
          && s1.w.net.incoming == [] && s2.w.net.incoming == [] ==>
            s1.l.built == s2.l.built == RequestsOf(w1.net.incoming))
  {
    BuiltPrefix(c1, w1, k1);
    BuiltPrefix(c2, w2, k2);
    RunStream(c1, w1, k1);
    RunStream(c2, w2, k2);
    var s1, s2 := Run(Start(c1, w1), k1), Run(Start(c2, w2), k2);
    if k1 > 0 && Reading(s1.c.phase) && s1.w.net.incoming == [] {
      assert s1.l.received == w1.net.incoming;
      WaitingMeansAllBuilt(c1, w1, k1);
    }
    if k2 > 0 && Reading(s2.c.phase) && s2.w.net.incoming == [] {
      assert s2.l.received == w2.net.incoming;
      WaitingMeansAllBuilt(c2, w2, k2);
    }
  }

  /**
   A Content-Length handler is handed every byte behind the head. That is exactly the
   declared body if and only if nothing of the next request was buffered with it.
   */
  lemma HandlerSeesBodyExactly(s: Sys)
    requires FrameInv(s) && In(s, ReadingBodyCl) && StepBodyCl(s).c.phase == Building
    ensures var c := StepBodyCl(s).c;
      && |c.body| >= c.bodyLen && c.body[..c.bodyLen] == FramedBody(c)
      && (c.body == FramedBody(c) <==> |c.reqBuf| == c.bodyStart + c.bodyLen)
      && (|c.reqBuf| == c.bodyStart + c.bodyLen <==> c.nextReq == 0)
  {
    ReadClKeeps(s);
    GivenBody(ReadCl(s).0, ReadCl(s).1);
  }

  /** The handler is given the framed body, and exactly it unless more is buffered behind a declared length. */
  predicate GivenRightly(c: Conn) {
    && FramedBody(c) <= c.body
    && (c.body == FramedBody(c) <==>
          c.coding == TeChunked || c.bodyLen == 0 || |c.reqBuf| == c.bodyStart + c.bodyLen)
  }

  /**
   Whatever step makes a request ready for its handler, the bytes in front are one whole request
   of the reference and the handler is given its body: the decoded payload of a chunked one,
   nothing where no length was declared, and else every byte buffered behind the head.
   */
  lemma HandlerGivenExactly(s: Sys)
    requires FrameInv(s) && s.c.phase != Building && Step(s).c.phase == Building
    ensures SpanKnown(Step(s).c) && GivenRightly(Step(s).c)
  {
    ConnFraming.StepKeeps(s);
    StepGives(s);
    hide Step, GivenRightly, SpanKnown;
  }

  lemma StepGives(s: Sys)
    requires FrameInv(s) && s.c.phase != Building && Step(s).c.phase == Building
    ensures GivenRightly(Step(s).c)
  {
    hide StepHeader, Step100, StepBodyCl, StepBodyChunked, StepBuild, StepSend, StepStream;
    hide SpanKnown, GivenRightly, Conserved, FramedBody, HeadKnown;
    match s.c.phase
    case ReadingRequest => HeaderGives(s);
    case Sending100 => InterimGives(s);
    case ReadingBodyCl =>
      HandlerSeesBodyExactly(s);
      ClGives(s);
    case ReadingBodyChunked => ChunkedGives(s);
    case SendingResponse => SendGivesNone(s);
    case SendingStream => StreamGivesNone(s);
    case _ =>
  }

  lemma SendGivesNone(s: Sys)
    requires In(s, SendingResponse)
    ensures StepSend(s).c.phase != Building
  {
    hide SendSome;
  }

  lemma {:induction false} StreamGivesNone(s: Sys)
    requires In(s, SendingStream)
    ensures StepStream(s).c.phase != Building
    decreases PullsLeft(s.c), StreamRank(s.c.st.stream)
  {
    TurnGivesNone(s);
    hide StreamTurn;
    var (goOn, r) := StreamTurn(s);
    if goOn { StreamGivesNone(r); }
  }

  lemma TurnGivesNone(s: Sys)
    requires In(s, SendingStream)
    ensures StreamTurn(s).1.c.phase != Building
  {
    hide SendSome;
  }

  lemma HeaderGives(s: Sys)
    requires In(s, ReadingRequest) && StepHeader(s).c.phase == Building
    ensures GivenRightly(StepHeader(s).c)
  {
    hide ReadHead, FindTerminator, HasTerminator, HeadEnd, ParseRequest, AdmissionOf, CodingSeen, WantsKeepAlive;
  }

  lemma InterimGives(s: Sys)
    requires In(s, Sending100) && Step100(s).c.phase == Building
    ensures GivenRightly(Step100(s).c)
  {
    hide SendSome;
  }

  lemma ClGives(s: Sys)
    requires FrameInv(s) && In(s, ReadingBodyCl) && StepBodyCl(s).c.phase == Building
    requires var c := StepBodyCl(s).c;
      && |c.body| >= c.bodyLen && c.body[..c.bodyLen] == FramedBody(c)
      && (c.body == FramedBody(c) <==> |c.reqBuf| == c.bodyStart + c.bodyLen)
    ensures GivenRightly(StepBodyCl(s).c)
  {
    hide ReadCl, Conserved, HeadKnown, FramedBody;
    var (status, m) := ReadCl(s);
  }

  lemma ChunkedGives(s: Sys)
    requires FrameInv(s) && In(s, ReadingBodyChunked) && StepBodyChunked(s).c.phase == Building
    ensures GivenRightly(StepBodyChunked(s).c)
  {
    hide ReadChunked, Conserved, HeadKnown, DecoderKnown;
    var (status, m) := ReadChunked(s);
  }

  /** Whatever is buffered behind the declared body is handed over with it. */
  lemma HandlerSeesNext(s: Sys, body: bytes, more: bytes)
    requires In(s, ReadingBodyCl) && s.c.coding != TeChunked && 0 < s.c.bodyLen == |body|
    requires s.c.reqBuf[s.c.bodyStart..] == body + more
    ensures var c := StepBodyCl(s).c;
      c.phase == Building && FramedBody(c) == body && c.body == body + more
  {
    assert s.c.st.received == |body + more|;
    assert ReadCl(s) == (BodyOk, s);
    SliceTake(s.c.reqBuf, s.c.bodyStart, s.c.bodyLen);
    assert (body + more)[..|body|] == body;
  }

  lemma GivenBody(status: BodyStatus, s: Sys)
    requires In(s, ReadingBodyCl) && s.c.coding != TeChunked && status == BodyOk && s.c.st.received >= s.c.bodyLen > 0
    ensures var c := AfterCl(status, s).c;
      && |c.body| >= c.bodyLen && c.body[..c.bodyLen] == FramedBody(c)
      && (c.body == FramedBody(c) <==> |c.reqBuf| == c.bodyStart + c.bodyLen)
      && (|c.reqBuf| == c.bodyStart + c.bodyLen <==> c.nextReq == 0)
  {
    var c := AfterCl(status, s).c;
    var n := c.bodyStart + c.bodyLen;
    SliceTake(c.reqBuf, c.bodyStart, c.bodyLen);
    if |c.reqBuf| == n { assert c.reqBuf[c.bodyStart..] == c.reqBuf[c.bodyStart..n]; }
  }

  lemma SliceTake(buf: bytes, from: nat, len: nat)
    requires from + len <= |buf|
    ensures buf[from..][..len] == buf[from..from + len]
  {
  }
}
