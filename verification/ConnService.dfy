/**
 Service. A peer that sends whole requests, each asking to stay and fitting the buffer and
 together below the limit, over a network that cooperates, is never cut off: the connection
 stays open until it has built and answered every one of them.
 */
module ConnService {
  import opened Bytes
  import opened Config
  import opened ChunkSpec
  import opened Requests
  import opened TransferEncoding
  import opened Admissions
  import opened Responses
  import opened Network
  import opened ConnSpec
  import opened Framing
  import opened ConnFraming
  import opened ConnRuns
  import ConnWire
  import opened ConnAnswers
  import opened ConnProgress
  import opened ConnSlots
  import opened Samples

  predicate GoodRequest(b: Built) { WantsKeepAlive(b.line, b.headers) && |b.span| <= MAX_REQUEST_LEN }

  /** A stream of whole requests and nothing else, each asking to stay and fitting the buffer. */
  predicate Good(stream: bytes) {
    var rs := RequestsOf(stream);
    Spans(rs) == stream && forall i :: 0 <= i < |rs| ==> GoodRequest(rs[i])
  }

  /** A producer that never fails. */
  predicate Sound(p: Producer) { forall i :: 0 <= i < |p.script| ==> p.script[i].PullOk? }

  predicate SoundReplies(replies: seq<Reply>) {
    forall i :: 0 <= i < |replies| && replies[i].Stream? ==> Sound(replies[i].producer)
  }

  /** The bytes not yet consumed: buffered, or still on their way. */
  function Remaining(s: Sys): bytes { s.c.reqBuf + s.w.net.incoming }

  predicate Healthy(s: Sys) {
    && FrameInv(s) && Cooperative(s.w.net) && s.c.phase != Closed
    && Good(Remaining(s)) && |s.l.built| + |RequestsOf(Remaining(s))| < MAX_REQUESTS
    && s.c.requests + (if Sending(s.c.phase) then 1 else 0) == |s.l.built|
    && (s.c.phase != ReadingRequest ==> s.c.keepAlive)
    && SoundReplies(s.w.replies) && (s.c.producer.Some? ==> Sound(s.c.producer.value))
  }

  // ---------------------------------------------------------------- good streams

  lemma GoodFront(stream: bytes)
    requires Good(stream) && stream != []
    ensures FrontOf(stream).Whole? && GoodRequest(FrontOf(stream).request)
  {
    hide FrontOf, GoodRequest;
    assert RequestsOf(stream) != [];
  }

  lemma GoodTail(b: Built, after: bytes)
    requires IsWhole(b) && Good(b.span + after)
    ensures GoodRequest(b) && Good(after) && |RequestsOf(b.span + after)| == |RequestsOf(after)| + 1
  {
    hide FrontOf, GoodRequest, RequestsOf, IsWhole;
    SpanThenRest(b, after);
    var rs, all := RequestsOf(after), RequestsOf(b.span + after);
    assert all == [b] + rs && all[0] == b && all[1..] == rs;
    assert Spans(all) == b.span + Spans(rs);
    assert Spans(rs) == Spans(all)[|b.span|..] && after == (b.span + after)[|b.span|..];
    assert forall i :: 0 <= i < |rs| ==> rs[i] == all[i + 1];
  }

  /** Of a stream with a whole request in front, any buffer that holds the request holds its head. */
  lemma HeadBuffered(buf: bytes, rest: bytes)
    requires FrontOf(buf + rest).Whole? && |FrontOf(buf + rest).request.span| <= |buf|
    ensures HasTerminator(buf, |buf|)
  {
    hide ParseRequest, AdmissionOf, FrontBody;
    var s := buf + rest;
    var p := HeadEnd(s, |s|) - 4;
    FrontHead(s);
    assert TerminatorAt(buf, p, |buf|);
  }

  lemma FrontHead(s: bytes)
    requires FrontOf(s).Whole?
    ensures HasTerminator(s, |s|) && HeadEnd(s, |s|) <= |FrontOf(s).request.span|
    ensures var p, b := ParseRequest(s, |s|), FrontOf(s).request;
      && p.Success? && b.line == p.value.line && b.headers == p.value.headers
      && AdmissionOf(b.line, b.headers).Admit?
      && FrontBody(s, HeadEnd(s, |s|), b.line, b.headers, AdmissionOf(b.line, b.headers)) == Whole(b)
  {
    hide ParseRequest, AdmissionOf, FindTerminator;
  }

  /** There are such streams. */
  lemma SimpleIsGood()
    ensures Good(SIMPLE) && |RequestsOf(SIMPLE)| == 1
  {
    SimpleIsWhole();
    SimpleAdmitted();
    SimpleShort();
    var rs := RequestsOf(SIMPLE);
    assert rs[1..] == [] && Spans([]) == [] && SIMPLE + [] == SIMPLE;
  }

  // ---------------------------------------------------------------- the head

  lemma GainedRemains(s: Sys, r: Sys)
    requires Gained(s, r)
    ensures Remaining(r) == Remaining(s)
  {
    var n := |s.c.reqBuf|;
    var delta := r.c.reqBuf[n..];
    assert r.c.reqBuf == s.c.reqBuf + delta;
    SameTail(s.l.received, s.w.net.incoming, delta, r.w.net.incoming);
    Reassociate(s.c.reqBuf, delta, r.w.net.incoming);
  }

  lemma SameTail(a: bytes, x: bytes, d: bytes, y: bytes)
    requires a + x == a + d + y
    ensures x == d + y
  {
    assert x == (a + x)[|a|..] && d + y == (a + d + y)[|a|..];
  }

  /** The head is parsed, admitted and asks to stay. */
  lemma HeadIsGood(buf: bytes, rest: bytes)
    requires Good(buf + rest) && HasTerminator(buf, |buf|)
    ensures var p := ParseRequest(buf, |buf|);
      p.Success? && AdmissionOf(p.value.line, p.value.headers).Admit? && WantsKeepAlive(p.value.line, p.value.headers)
  {
    hide ParseRequest, AdmissionOf, FrontOf, WantsKeepAlive, FindTerminator, Good;
    HeadShared(buf, rest);
    GoodFront(buf + rest);
    FrontHead(buf + rest);
  }

  lemma HeadServed(s: Sys)
    requires In(s, ReadingRequest) && HasTerminator(s.c.reqBuf, |s.c.reqBuf|)
    requires var p := ParseRequest(s.c.reqBuf, |s.c.reqBuf|);
      p.Success? && AdmissionOf(p.value.line, p.value.headers).Admit? && WantsKeepAlive(p.value.line, p.value.headers)
    ensures var r := HeadArrived(s);
      && r.c.phase in {Sending100, ReadingBodyCl, ReadingBodyChunked, Building} && r.c.keepAlive
      && r.w == s.w && r.l.built == s.l.built && r.c.requests == s.c.requests && r.c.reqBuf == s.c.reqBuf
      && r.c.producer == s.c.producer
  {
    hide ParseRequest, AdmissionOf, WantsKeepAlive, FindTerminator, HeadEnd, HasTerminator, CodingSeen;
  }

  /** A step that consumes nothing keeps the connection healthy. */
  lemma SameHealth(s: Sys, r: Sys)
    requires Healthy(s) && FrameInv(r) && Remaining(r) == Remaining(s) && Cooperative(r.w.net)
    requires r.c.phase != Closed && r.l.built == s.l.built && r.w.replies == s.w.replies
    requires r.c.requests == s.c.requests && (Sending(r.c.phase) <==> Sending(s.c.phase))
    requires (r.c.phase != ReadingRequest ==> r.c.keepAlive) && r.c.producer == s.c.producer
    ensures Healthy(r)
  {
    hide FrameInv, Good, Cooperative, RequestsOf, Sound;
  }

  lemma HeaderServes(s: Sys)
    requires Healthy(s) && In(s, ReadingRequest)
    ensures Healthy(StepHeader(s))
  {
    hide FrameInv, Good, HeadArrived, FindTerminator, ErrorBytes, ReadHead, RequestsOf, FrontOf, Cooperative;
    hide ParseRequest, AdmissionOf, WantsKeepAlive, Sound, SoundReplies;
    ReadHeadProgress(s);
    ReadHeadGains(s);
    ConnFraming.StepHeaderKeeps(s);
    var (status, m) := ReadHead(s);
    GainedRemains(s, m);
    ReadHeadUnmoved(s);
    HeadFits(s);
    if status == HeadFound {
      HeadIsGood(m.c.reqBuf, m.w.net.incoming);
      HeadServed(m);
    }
    SameHealth(s, StepHeader(s));
  }

  /** A full buffer holds a whole head. */
  lemma HeadFits(s: Sys)
    requires Healthy(s) && In(s, ReadingRequest)
    ensures ReadHead(s).0 != HeadTooLarge
  {
    hide ReadHead, FindTerminator, FrontOf, FrameInv, RequestsOf, Cooperative;
    var m := ReadHead(s).1;
    TooLargeIsFull(s);
    ReadHeadGains(s);
    GainedRemains(s, m);
    if |m.c.reqBuf| >= MAX_REQUEST_LEN {
      GoodFront(Remaining(m));
      HeadBuffered(m.c.reqBuf, m.w.net.incoming);
    }
  }

  // ---------------------------------------------------------------- the body

  /** What stands in front of the stream, when the head of it is known. */
  lemma KnownFront(c: Conn, rest: bytes)
    requires HeadKnown(c) && FrontOf(c.reqBuf + rest).Whole?
    ensures c.bodyStart <= |c.reqBuf| && FramedBy(AdmissionOf(c.line, c.headers), c.coding, c.bodyLen)
    ensures FrontBody(c.reqBuf + rest, c.bodyStart, c.line, c.headers, AdmissionOf(c.line, c.headers)) ==
            FrontOf(c.reqBuf + rest)
  {
    hide ParseRequest, AdmissionOf, FindTerminator, FrontBody;
    HeadShared(c.reqBuf, rest);
  }

  lemma LengthFits(c: Conn, rest: bytes)
    requires HeadKnown(c) && c.coding != TeChunked && Good(c.reqBuf + rest) && c.reqBuf != []
    ensures c.bodyStart + c.bodyLen <= MAX_REQUEST_LEN
  {
    hide HeadKnown, FrontOf, AdmissionOf, WantsKeepAlive;
    GoodFront(c.reqBuf + rest);
    KnownFront(c, rest);
  }

  lemma BodyClServes(s: Sys)
    requires Healthy(s) && In(s, ReadingBodyCl)
    ensures Healthy(StepBodyCl(s))
  {
    hide FrameInv, Good, ReadCl, RequestsOf, FrontOf, Cooperative, Sound, SoundReplies, ErrorBytes;
    ReadClProgress(s);
    ReadClGains(s);
    ConnFraming.StepBodyClKeeps(s);
    ReadClUnmoved(s);
    GainedRemains(s, ReadCl(s).1);
    ClFits(s);
    SameHealth(s, StepBodyCl(s));
  }

  lemma ClFits(s: Sys)
    requires Healthy(s) && In(s, ReadingBodyCl)
    ensures ReadCl(s).0 != BodyTooLarge
  {
    hide ReadCl, Good, RequestsOf, FrontOf, Cooperative, HeadIs, Conserved;
    ReadClProgress(s);
    HeadNotEmpty(s.c);
    LengthFits(s.c, s.w.net.incoming);
  }

  lemma HeadNotEmpty(c: Conn)
    requires HeadKnown(c)
    ensures c.reqBuf != []
  {
  }

  /** A body that decodes decodes from any part of it that is long enough, and is refused by none. */
  lemma PartOfBody(raw: bytes, body: bytes, cap: nat)
    requires raw <= body && Decode(body, cap).verdict == Complete
    ensures Decode(raw, cap).verdict in {More, Complete}
    ensures |raw| >= Decode(body, cap).pos ==> Decode(raw, cap).verdict == Complete
  {
    hide Drain;
    if Decode(raw, cap).verdict != More {
      VerdictStable(START, raw, body[|raw|..], 0, [], cap);
      assert raw + body[|raw|..] == body;
    }
    var n := Decode(body, cap).pos;
    if |raw| >= n {
      DecodePrefix(body, cap);
      VerdictStable(START, body[..n], raw[n..], 0, [], cap);
      assert body[..n] + raw[n..] == raw;
    }
  }

  /** The chunked body that a connection is reading, as the rest of its stream has it. */
  predicate BodyFits(bodyStart: nat, stream: bytes) {
    && bodyStart <= |stream| && var d := Decode(stream[bodyStart..], MAX_DECHUNK_SIZE);
    && d.verdict == Complete && bodyStart + d.pos <= MAX_REQUEST_LEN
  }

  lemma DrainServes(c: Conn, rest: bytes, d: Drained)
    requires DecoderKnown(c) && c.phase == ReadingBodyChunked && BodyFits(c.bodyStart, c.reqBuf + rest)
    requires d == Drain(c.st.dec, RawBody(c), c.st.consumed, c.dechunked, MAX_DECHUNK_SIZE)
    ensures d.verdict in {More, Complete} && (|c.reqBuf| >= MAX_REQUEST_LEN ==> d.verdict == Complete)
  {
    hide Drain;
    assert (c.reqBuf + rest)[c.bodyStart..] == RawBody(c) + rest;
    PartOfBody(RawBody(c), RawBody(c) + rest, MAX_DECHUNK_SIZE);
  }

  lemma {:induction false} ReadChunkedServes(s: Sys)
    requires In(s, ReadingBodyChunked) && DecoderKnown(s.c) && Cooperative(s.w.net)
    requires BodyFits(s.c.bodyStart, Remaining(s))
    ensures ReadChunked(s).0 in {BodyOk, BodyMore}
    decreases |s.w.net.recvs|
  {
    hide Cooperative, Drain, DecoderKnown, BodyFits;
    ScratchIs(s);
    DrainServes(s.c, s.w.net.incoming, DrainBody(s));
    var s' := Drew(s, DrainBody(s));
    if DrainBody(s).verdict == More {
      RecvProgress(s.w.net, MAX_REQUEST_LEN - |s.c.reqBuf|);
      var (r, net) := Recv(s.w.net, MAX_REQUEST_LEN - |s.c.reqBuf|);
      if r.Got? {
        DrewResumes(s, r.piece, net);
        Reassociate(s.c.reqBuf, r.piece, net.incoming);
        ReadChunkedServes(Arrive(s', r.piece, net));
      }
    }
  }

  lemma ScratchIs(s: Sys)
    requires In(s, ReadingBodyChunked) && DecoderKnown(s.c)
    ensures s.c.st.StChunked? && s.c.phase == ReadingBodyChunked
  {
  }

  lemma ChunkedFits(c: Conn, rest: bytes)
    requires HeadKnown(c) && c.coding == TeChunked && Good(c.reqBuf + rest) && c.reqBuf != []
    ensures BodyFits(c.bodyStart, c.reqBuf + rest)
  {
    hide HeadKnown, FrontOf, AdmissionOf, WantsKeepAlive, Drain;
    GoodFront(c.reqBuf + rest);
    KnownFront(c, rest);
  }

  lemma BodyChunkedServes(s: Sys)
    requires In(s, ReadingBodyChunked) && Healthy(s)
    ensures Healthy(StepBodyChunked(s))
  {
    ChunkedParts(s);
    hide FrameInv, Good, ReadChunked, AfterChunked, RequestsOf, FrontOf, Cooperative, Sound, SoundReplies;
    hide BodyFits, DecoderKnown;
    ReadChunkedServes(s);
    ReadChunkedProgress(s);
    ReadChunkedGains(s);
    ConnFraming.StepBodyChunkedKeeps(s);
    ReadChunkedUnmoved(s);
    var (status, m) := ReadChunked(s);
    GainedRemains(s, m);
    AfterBodyServes(s, status, m);
  }

  lemma AfterBodyServes(s: Sys, status: BodyStatus, m: Sys)
    requires In(s, ReadingBodyChunked) && In(m, ReadingBodyChunked) && status in {BodyOk, BodyMore}
    requires Remaining(m) == Remaining(s) && Cooperative(m.w.net) && Unmoved(s, m)
    requires m.c.keepAlive && m.c.producer == s.c.producer && FrameInv(AfterChunked(status, m))
    requires Healthy(s)
    ensures Healthy(AfterChunked(status, m))
  {
    hide FrameInv, Good, AfterChunked, RequestsOf, Cooperative, Sound, SoundReplies;
    AfterBody(status, m);
    SameHealth(s, AfterChunked(status, m));
  }

  lemma AfterBody(status: BodyStatus, m: Sys)
    requires In(m, ReadingBodyChunked)
    ensures var r := AfterChunked(status, m);
      status in {BodyOk, BodyMore} ==>
        && r.c.phase in {Building, ReadingBodyChunked} && r.c.keepAlive == m.c.keepAlive && r.c.reqBuf == m.c.reqBuf
        && r.c.requests == m.c.requests && r.c.producer == m.c.producer && r.w == m.w && r.l == m.l
  {
  }

  lemma ChunkedParts(s: Sys)
    requires Healthy(s) && In(s, ReadingBodyChunked)
    ensures DecoderKnown(s.c) && BodyFits(s.c.bodyStart, Remaining(s))
  {
    hide Good, RequestsOf, Cooperative, HeadIs, Conserved, BodyFits, Resumes;
    HeadNotEmpty(s.c);
    ChunkedFits(s.c, s.w.net.incoming);
  }

  // ---------------------------------------------------------------- the response

  /** The request in front is consumed; what is left is as good. */
  lemma ConsumeServes(s: Sys)
    requires Healthy(s) && In(s, Building)
    ensures var after := s.c.reqBuf[SpanLength(s.c)..] + s.w.net.incoming;
      && Good(after) && |RequestsOf(Remaining(s))| == |RequestsOf(after)| + 1
  {
    hide Good, RequestsOf, FrontOf, Cooperative, Conserved;
    var n := SpanLength(s.c);
    var span, tail := s.c.reqBuf[..n], s.c.reqBuf[n..];
    assert s.c.reqBuf == span + tail;
    Reassociate(span, tail, s.w.net.incoming);
    GoodTail(Built(s.c.line, s.c.headers, span, FramedBody(s.c)), tail + s.w.net.incoming);
  }

  lemma BuildLeaves(s: Sys)
    requires In(s, Building) && SoundReplies(s.w.replies) && (s.c.producer.Some? ==> Sound(s.c.producer.value))
    ensures var r := StepBuild(s);
      && Sending(r.c.phase) && r.c.keepAlive == s.c.keepAlive && r.c.requests == s.c.requests
      && r.c.reqBuf == s.c.reqBuf[SpanLength(s.c)..] && r.w.net == s.w.net && |r.l.built| == |s.l.built| + 1
      && SoundReplies(r.w.replies) && (r.c.producer.Some? ==> Sound(r.c.producer.value))
  {
    hide Serialize, Text, StreamText, FramedBody, SoundReplies, Sound;
    RepliesSound(s.w);
  }

  lemma RepliesSound(w: World)
    requires SoundReplies(w.replies)
    ensures var (reply, rest) := NextReply(w);
      SoundReplies(rest.replies) && (reply.Stream? ==> Sound(reply.producer))
  {
    hide Sound;
  }

  lemma BuildServes(s: Sys)
    requires Healthy(s) && In(s, Building)
    ensures Healthy(StepBuild(s))
  {
    hide FrameInv, Good, RequestsOf, FrontOf, Cooperative, StepBuild, Sound, SoundReplies, SpanLength;
    ConsumeServes(s);
    BuildLeaves(s);
    ConnFraming.StepBuildKeeps(s);
  }

  lemma Step100Serves(s: Sys)
    requires Healthy(s) && In(s, Sending100)
    ensures Healthy(Step100(s))
  {
    hide FrameInv, Good, RequestsOf, FrontOf, Cooperative, Sound, SoundReplies, SendSome;
    SendProgress(s, CONTINUE_100, s.c.st.sent);
    ConnFraming.Step100Keeps(s);
    SendNet(s, CONTINUE_100, s.c.st.sent);
    SameHealth(s, Step100(s));
  }

  /** Sending leaves what is still to arrive alone. */
  lemma SendNet(s: Sys, text: bytes, sent: nat)
    requires sent < |text|
    ensures var r := SendSome(s, text, sent).2;
      r.w.net.incoming == s.w.net.incoming && r.w.replies == s.w.replies && r.l.built == s.l.built
  {
  }

  /** The end of a response: the connection stays open, and waits for the next request. */
  lemma FinishServes(s: Sys, r: Sys)
    requires Healthy(s) && Sending(s.c.phase) && FrameInv(r)
    requires r.c.reqBuf == s.c.reqBuf && r.w.net.incoming == s.w.net.incoming && Cooperative(r.w.net)
    requires r.w.replies == s.w.replies && r.l.built == s.l.built
    requires r.c.producer == s.c.producer || r.c.producer.None?
    requires r.c.requests == s.c.requests + 1 && r.c.phase == ReadingRequest
    ensures Healthy(r)
  {
    hide FrameInv, Good, RequestsOf, Cooperative, Sound;
  }

  lemma Finishes(s: Sys)
    requires Bounded(s.c) && s.c.phase != Closed && s.c.keepAlive && s.c.requests + 1 < MAX_REQUESTS
    ensures var r := NextRequest(s);
      && r.c.phase == ReadingRequest && r.c.reqBuf == s.c.reqBuf && r.c.requests == s.c.requests + 1
      && r.w == s.w && r.l == s.l && r.c.producer == s.c.producer
  {
  }

  lemma SendServes(s: Sys)
    requires Healthy(s) && In(s, SendingResponse)
    ensures Healthy(StepSend(s))
  {
    hide FrameInv, Good, RequestsOf, FrontOf, Cooperative, Sound, SoundReplies, SendSome, NextRequest;
    SendProgress(s, s.c.respBuf, s.c.st.sent);
    ConnFraming.StepSendKeeps(s);
    SendNet(s, s.c.respBuf, s.c.st.sent);
    var (status, _, m) := SendSome(s, s.c.respBuf, s.c.st.sent);
    if status == SendOk {
      Finishes(m.(l := Finished(m.l, Buffered(s.c.respBuf, m.l.junk))));
      FinishServes(s, StepSend(s));
    } else {
      SameHealth(s, StepSend(s));
    }
  }

  lemma TurnServes(s: Sys)
    requires Healthy(s) && In(s, SendingStream)
    ensures Healthy(StreamTurn(s).1)
  {
    hide FrameInv, Good, RequestsOf, FrontOf, Cooperative, SoundReplies, SendSome, NextRequest, Sound;
    ConnFraming.StreamTurnKeeps(s);
    TurnMoves(s);
    match s.c.st.stream {
      case StreamPull => PullServes(s);
      case StreamDone =>
        var m := Release(s.(l := Finished(s.l, Streamed(s.l.head, s.l.payloads, s.l.script))));
        Finishes(m);
        FinishServes(s, StreamTurn(s).1);
      case _ =>
        SendProgress(s, s.c.respBuf, s.c.st.sent);
        SendNet(s, s.c.respBuf, s.c.st.sent);
        SameHealth(s, StreamTurn(s).1);
    }
  }

  lemma PullServes(s: Sys)
    requires In(s, SendingStream) && s.c.st.stream == StreamPull && Healthy(s)
    ensures Healthy(StreamTurn(s).1)
  {
    ConnFraming.StreamTurnKeeps(s);
    hide FrameInv, Good, RequestsOf, FrontOf, Cooperative, SoundReplies;
    var p := s.c.producer.value;
    if p.script != [] {
      assert p.script[0].PullOk?;
      assert Sound(p.(script := p.script[1..]));
    }
  }

  lemma {:induction false} StreamServes(s: Sys, e: Sys)
    requires In(s, SendingStream) && s.c.st.StStream? && e == StepStream(s)
    requires Healthy(s)
    ensures Healthy(e)
    decreases PullsLeft(s.c), StreamRank(s.c.st.stream)
  {
    hide Healthy, StreamTurn;
    TurnServes(s);
    var (goOn, r) := StreamTurn(s);
    if goOn { StreamServes(r, e); }
  }

  // ---------------------------------------------------------------- every run

  lemma StepServes(s: Sys)
    requires Valid(s.c) && Healthy(s)
    ensures Healthy(Step(s))
  {
    IsOpen(s);
    hide Healthy, StepHeader, Step100, StepBodyCl, StepBodyChunked, StepBuild, StepSend, StepStream;
    match s.c.phase
    case ReadingRequest => HeaderServes(s);
    case Sending100 => Step100Serves(s);
    case ReadingBodyCl => BodyClServes(s);
    case ReadingBodyChunked => BodyChunkedServes(s);
    case Building => BuildServes(s);
    case SendingResponse => SendServes(s);
    case SendingStream => StreamServes(s, StepStream(s));
  }

  lemma IsOpen(s: Sys)
    requires Healthy(s)
    ensures Valid(s.c) && s.c.phase != Closed
  {
  }

  lemma {:induction false} DispatchServes(s: Sys, e: Sys)
    requires Valid(s.c) && e == Dispatch(s)
    requires Healthy(s)
    ensures Healthy(e)
    decreases MAX_REQUESTS - s.c.requests, Rank(s.c.phase)
  {
    hide Healthy, Step;
    StepServes(s);
    var r := Step(s);
    if r.c.phase != s.c.phase && r.c.phase != Closed { DispatchServes(r, e); }
  }

  lemma {:induction false} RunServes(s: Sys, k: nat)
    requires Valid(s.c)
    requires Healthy(s)
    ensures Healthy(Run(s, k))
    decreases k
  {
    hide *;
    ConnWire.RunUnfolds(s, k);
    if k > 0 {
      RunServes(s, k - 1);
      DispatchServes(Run(s, k - 1), Run(s, k));
    }
  }

  lemma StartServes(c: Conn, w: World)
    requires c.bodyLen == 0 && c.producer == None && Cooperative(w.net) && SoundReplies(w.replies)
    requires Good(w.net.incoming) && |RequestsOf(w.net.incoming)| < MAX_REQUESTS
    ensures Healthy(Start(c, w))
  {
    hide Good, FrontOf, Cooperative, SoundReplies, RequestsOf;
    assert [] + w.net.incoming == w.net.incoming;
    ConnFraming.StartKeeps(c, w);
  }

  /**
   Service. Let a peer send whole requests and nothing else, each asking to stay and fitting
   the buffer, fewer than the limit, over a cooperative network, to handlers whose producers do
   not fail. The connection is never closed. When a wake-up is over, it is out of sends, or it
   waits for input with none to be had, and once everything has arrived, exactly those
   requests were built, in order, and each was answered.
   */
  lemma Service(c: Conn, w: World, k: nat)
    requires c.bodyLen == 0 && c.producer == None && Cooperative(w.net) && SoundReplies(w.replies)
    requires Good(w.net.incoming) && |RequestsOf(w.net.incoming)| < MAX_REQUESTS
    ensures var s := Run(Start(c, w), k);
      && s.c.phase != Closed
      && (k > 0 && s.w.net.sends != [] && s.w.net.incoming == [] ==>
            s.l.built == RequestsOf(w.net.incoming) && |Finals(s.l.messages)| == |s.l.built|)
  {
    hide *;
    StartServes(c, w);
    RunServes(Start(c, w), k);
    var s := Run(Start(c, w), k);
    IsOpen(s);
    if k > 0 {
      Progress(c, w, k);
      NoRefusals(s);
    }
  }

  lemma NoRefusals(s: Sys)
    requires Healthy(s)
    ensures Reading(s.c.phase) ==> s.c.requests == |s.l.built|
  {
    hide FrameInv, Good;
  }
}
