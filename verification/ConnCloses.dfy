/**
 When a connection closes. In every run of a slot that was left no length, a response is the
 last if and only if what it answers did not ask to stay or the limit is reached; a closed
 connection was closed by such a response, by a failed send, by a peer that left between
 requests, or by a producer that failed.
 */
module ConnCloses {
  import opened Bytes
  import opened Config
  import opened ChunkSpec
  import opened ChunkFrame
  import opened RequestLines
  import opened Headers
  import opened Requests
  import opened TransferEncoding
  import opened Admissions
  import opened Responses
  import opened Network
  import opened ConnSpec
  import opened Framing
  import opened ConnFraming
  import opened ConnRuns
  import opened ConnWire
  import opened ConnAnswers
  import opened ConnCauses
  import opened ConnSends
  import opened ConnEnds

  /** The bytes that stood in front when the `i`-th answer, a refusal, was begun. */
  function RefusedBytes(l: Log, i: nat): bytes
    requires i < |l.answers| && l.answers[i].Refusal?
  {
    var n, at := Replies(l.answers[..i]), l.answers[i].at;
    if n <= |l.built| && |Spans(l.built[..n])| <= at <= |l.received| then l.received[|Spans(l.built[..n])|..at] else []
  }

  /** What the `i`-th response answers asked for the connection to stay open; the first, or the flag left behind. */
  predicate Kept(o: Origin, l: Log, i: nat)
    requires i < |l.answers|
  {
    || (i == 0 && o.keepAlive)
    || match l.answers[i]
       case Refusal(_, _, _) => AsksToStay(RefusedBytes(l, i))
       case ReplyTo(nth) => 0 < nth <= |l.built| && WantsKeepAlive(l.built[nth - 1].line, l.built[nth - 1].headers)
  }

  // ---------------------------------------------------------------- the invariant

  /** The response under way was asked to keep the connection as the flag says. */
  predicate FlagTold(o: Origin, s: Sys) {
    Sending(s.c.phase) ==> s.l.answers != [] && s.c.keepAlive == Kept(o, s.l, |s.l.answers| - 1)
  }

  /** Only the last response of a closed connection may not have been asked to stay. */
  predicate KeptSoFar(o: Origin, s: Sys) {
    forall i: nat :: i < s.c.requests && i < |s.l.answers| && !Kept(o, s.l, i) ==>
                       i + 1 == s.c.requests && s.c.phase == Closed
  }

  /** The producer has failed: its script goes on with a failure behind the payloads pulled. */
  predicate ProducerFailed(l: Log) {
    |l.payloads| < |l.script| && l.script[|l.payloads|].PullFailed?
  }

  /** The last response has left, and it was not asked to stay or it was the last allowed. */
  predicate SaidLast(o: Origin, s: Sys) {
    && 0 < s.c.requests == |s.l.answers|
    && (s.c.requests == MAX_REQUESTS || !Kept(o, s.l, s.c.requests - 1))
  }

  /** No response is under way, and of the next request less than a head has come. */
  predicate BetweenRequests(s: Sys) {
    |s.l.answers| == s.c.requests && NoHead(s.c)
  }

  predicate Because(o: Origin, w: Net, s: Sys) {
    || FailedLast(w.sends, s.w.net.sends)
    || (BetweenRequests(s) && HungUp(w.recvs, |s.w.net.recvs|))
    || (|s.l.answers| == s.c.requests + 1 && ProducerFailed(s.l))
    || SaidLast(o, s)
  }

  predicate CloseInv(o: Origin, w: Net, s: Sys) {
    && LeftOf(w, s.w.net) && FlagTold(o, s) && KeptSoFar(o, s)
    && (s.c.phase == Closed ==> Because(o, w, s))
  }

  // ---------------------------------------------------------------- what stays

  /** The log has only grown. */
  predicate Grown(l: Log, m: Log) {
    l.answers <= m.answers && l.built <= m.built && l.received <= m.received
  }

  lemma KeptStays(o: Origin, recvs: seq<RecvEvent>, l: Log, m: Log, i: nat)
    requires i < |l.answers| && Grown(l, m) && Numbered(l.answers, |l.built|) && ExplainedAt(recvs, l, i)
    ensures Kept(o, m, i) == Kept(o, l, i)
  {
    hide WantsKeepAlive, ParseRequest, FindTerminator, Explains, HungUp, Numbered, AsksToStay;
    NumberedBounds(l.answers, |l.built|, i);
    assert m.answers[i] == l.answers[i] && m.answers[..i] == l.answers[..i];
    if l.answers[i].Refusal? {
      var n := Replies(l.answers[..i]);
      var from, at := |Spans(l.built[..n])|, l.answers[i].at;
      assert m.built[..n] == l.built[..n];
      assert m.received[from..at] == l.received[from..at];
    }
  }

  /** What the other invariants say that is used here. */
  predicate Known(o: Origin, w: Net, s: Sys) {
    AnswerInv(o, s) && WireInv(s) && FrameInv(s) && Causes(w.recvs, s)
  }

  lemma SoFarStays(o: Origin, w: Net, s: Sys, r: Sys)
    requires Known(o, w, s) && KeptSoFar(o, s) && s.c.phase != Closed
    requires Grown(s.l, r.l) && r.c.requests == s.c.requests
    ensures KeptSoFar(o, r)
  {
    hide Kept, Numbered, WireInv, FrameInv, ExplainedAt, Finals, Recorded;
    assert s.c.requests <= |s.l.answers|;
    forall i: nat | i < r.c.requests && i < |r.l.answers| && !Kept(o, r.l, i) ensures false {
      assert ExplainedAt(w.recvs, s.l, i);
      KeptStays(o, w.recvs, s.l, r.l, i);
    }
  }

  lemma LeftSame(w: Net, net: Net, next: Net)
    requires LeftOf(w, net) && LeftOf(net, next)
    ensures LeftOf(w, next)
    ensures FailedLast(net.sends, next.sends) ==> FailedLast(w.sends, next.sends)
    ensures HungUp(net.recvs, |next.recvs|) ==> HungUp(w.recvs, |next.recvs|)
  {
    LeftMore(w, net, next);
    if HungUp(net.recvs, |next.recvs|) { HungUpBefore(w.recvs, net.recvs, |next.recvs|); }
    if FailedLast(net.sends, next.sends) {
      assert w.sends[|w.sends| - |net.sends|..][|net.sends| - |next.sends| - 1] == w.sends[|w.sends| - |next.sends| - 1];
    }
  }

  // ---------------------------------------------------------------- a refusal begins

  /** The buffer in front asks to stay as the flag says, but for a flag left behind. */
  predicate FlagFits(o: Origin, s: Sys) {
    s.c.keepAlive == ((s.l.answers == [] && o.keepAlive) || AsksToStay(s.c.reqBuf))
  }

  lemma RefusalTold(o: Origin, w: Net, s: Sys, status: ParseStatus)
    requires Valid(s.c) && s.c.phase != Closed && Conserved(s) && FlagFits(o, s)
    requires Replies(s.l.answers) == |s.l.built|
    ensures FlagTold(o, SendError(s, status)) && Grown(s.l, SendError(s, status).l)
    ensures SendError(s, status).w.net == s.w.net
  {
    hide ErrorBytes, AsksToStay;
    var r, k := SendError(s, status), |s.l.answers|;
    assert r.l.answers[..k] == s.l.answers && s.l.built[..|s.l.built|] == s.l.built;
    assert s.l.received[|Spans(s.l.built)|..|s.l.received|] == s.c.reqBuf;
    assert RefusedBytes(r.l, k) == s.c.reqBuf;
  }

  lemma HeadFlag(o: Origin, s: Sys)
    requires In(s, ReadingRequest) && HasTerminator(s.c.reqBuf, |s.c.reqBuf|) && FlagKnown(o, s)
    requires ParseRequest(s.c.reqBuf, |s.c.reqBuf|).Success?
    ensures var p := ParseRequest(s.c.reqBuf, |s.c.reqBuf|).value;
      FlagFits(o, s.(c := StoreHead(s.c, p.line, p.headers)))
  {
    hide ParseRequest, FindTerminator, HeadEnd, CodingSeen, WantsKeepAlive;
  }

  /** The head of the request being received is that of the buffer. */
  lemma BodyFlag(o: Origin, s: Sys)
    requires HeadKnown(s.c) && s.c.phase in {ReadingBodyCl, ReadingBodyChunked} && FlagKnown(o, s)
    ensures FlagFits(o, s)
  {
    hide ParseRequest, FindTerminator, AdmissionOf, WantsKeepAlive;
  }

  lemma NoHeadFlag(o: Origin, s: Sys)
    requires s.c.phase == ReadingRequest && FlagKnown(o, s)
    requires HasTerminator(s.c.reqBuf, |s.c.reqBuf|) ==> ParseRequest(s.c.reqBuf, |s.c.reqBuf|).Failure?
    ensures FlagFits(o, s)
  {
    hide ParseRequest, FindTerminator, WantsKeepAlive;
  }

  // ---------------------------------------------------------------- steps that read

  /** What a reading step leaves of the invariant. */
  predicate ReadTold(o: Origin, s: Sys, r: Sys) {
    && Grown(s.l, r.l) && r.c.requests == s.c.requests && FlagTold(o, r)
    && (r.c.phase == Closed ==>
          BetweenRequests(r) && HungUp(s.w.net.recvs, |r.w.net.recvs|))
  }

  lemma HeadArrivedTold(o: Origin, m: Sys)
    requires In(m, ReadingRequest) && HasTerminator(m.c.reqBuf, |m.c.reqBuf|) && FlagKnown(o, m)
    requires Conserved(m) && Replies(m.l.answers) == |m.l.built|
    ensures var r := HeadArrived(m);
      Grown(m.l, r.l) && r.c.requests == m.c.requests && FlagTold(o, r) && r.c.phase != Closed && r.w.net == m.w.net
  {
    hide ParseRequest, FindTerminator, HasTerminator, HeadEnd, AdmissionOf, WantsKeepAlive, CodingSeen, ErrorBytes;
    hide FlagTold, Kept, Conserved;
    var buf := m.c.reqBuf;
    var p := ParseRequest(buf, |buf|);
    if p.Failure? {
      NoHeadFlag(o, m);
      RefusalTold(o, m.w.net, m, p.status);
    } else {
      var line, headers := p.value.line, p.value.headers;
      HeadFlag(o, m);
      AdmittedTold(o, m, line, headers, AdmissionOf(line, headers));
    }
  }

  lemma AdmittedTold(o: Origin, m: Sys, line: RequestLine, headers: seq<Header>, a: Admission)
    requires In(m, ReadingRequest) && HasTerminator(m.c.reqBuf, |m.c.reqBuf|)
    requires Conserved(m) && Replies(m.l.answers) == |m.l.built|
    requires FlagFits(o, m.(c := StoreHead(m.c, line, headers)))
    ensures var r := Admitted(m, line, headers, a);
      Grown(m.l, r.l) && r.c.requests == m.c.requests && FlagTold(o, r) && r.c.phase != Closed && r.w.net == m.w.net
  {
    hide FindTerminator, HasTerminator, HeadEnd, WantsKeepAlive, CodingSeen, ErrorBytes, Kept, FlagFits;
    match a
    case Refuse(status) => RefusalTold(o, m.w.net, m.(c := StoreHead(m.c, line, headers)), status);
    case Admit(_, _, _) =>
  }

  lemma HeaderTold(o: Origin, w: Net, s: Sys)
    requires Known(o, w, s) && In(s, ReadingRequest)
    ensures ReadTold(o, s, StepHeader(s))
  {
    ReadHeadUnmoved(s);
    ReadHeadGains(s);
    ReadHeadEnds(s);
    hide FindTerminator, ReadHead, ParseRequest, Numbered, Recorded, Finals, Kept, AllExplained, AfterHead;
    hide WireInv, HungUp, RecvBlocks, LeftOf, NoHead, ReadTold, HasTerminator;
    var (status, m) := ReadHead(s);
    GainConserves(s, m);
    assert FlagKnown(o, m);
    AfterHeadTold(o, w, status, s, m);
  }

  lemma AfterHeadTold(o: Origin, w: Net, status: HeadStatus, s: Sys, m: Sys)
    requires In(m, ReadingRequest) && (status == HeadFound <==> HasTerminator(m.c.reqBuf, |m.c.reqBuf|))
    requires FlagKnown(o, m) && Conserved(m) && Replies(m.l.answers) == |m.l.built|
    requires Grown(s.l, m.l) && m.c.requests == s.c.requests == |m.l.answers|
    requires status in {HeadClosed, HeadIoError} ==> HungUp(s.w.net.recvs, |m.w.net.recvs|) && NoHead(m.c)
    ensures ReadTold(o, s, AfterHead(status, m))
  {
    hide FindTerminator, HasTerminator, HeadArrived, ParseRequest, Kept, HungUp, ErrorBytes, Conserved, FlagFits;
    match status
    case HeadFound => HeadArrivedTold(o, m);
    case HeadTooLarge =>
      NoHeadFlag(o, m);
      RefusalTold(o, w, m, HeaderTooLong);
    case _ =>
  }

  /** A refusal that begins here is told rightly. */
  predicate Ready(o: Origin, m: Sys) {
    Conserved(m) && Replies(m.l.answers) == |m.l.built| && FlagFits(o, m)
  }

  lemma ReadyParts(o: Origin, w: Net, s: Sys)
    requires Known(o, w, s)
    ensures FlagKnown(o, s) && FrameInv(s) && Replies(s.l.answers) == |s.l.built| && Valid(s.c)
  {
    hide WireInv, Books, Open;
  }

  lemma FlagKept(o: Origin, s: Sys, m: Sys)
    requires FlagKnown(o, s) && s.c.phase in {ReadingBodyCl, ReadingBodyChunked} && m.l.answers == s.l.answers
    requires m.c.phase == s.c.phase && m.c.keepAlive == s.c.keepAlive
    requires m.c.line == s.c.line && m.c.headers == s.c.headers
    ensures FlagKnown(o, m)
  {
    hide WantsKeepAlive;
  }

  /** `m` is `s` after a read of its body. */
  lemma ReadReady(o: Origin, s: Sys, m: Sys)
    requires FlagKnown(o, s) && s.c.phase in {ReadingBodyCl, ReadingBodyChunked}
    requires Replies(s.l.answers) == |s.l.built|
    requires Gained(s, m) && Conserved(m) && HeadKnown(m.c)
    requires m.c == s.c.(reqBuf := m.c.reqBuf, st := m.c.st, dechunked := m.c.dechunked)
    ensures Ready(o, m) && Grown(s.l, m.l) && m.l.answers == s.l.answers
  {
    hide HeadIs, FlagKnown, FlagFits, Accounted;
    FlagKept(o, s, m);
    BodyFlag(o, m);
  }

  lemma AfterClTold(o: Origin, w: Net, status: BodyStatus, s: Sys, m: Sys)
    requires In(m, ReadingBodyCl) && (status == BodyOk ==> m.c.st.received >= m.c.bodyLen)
    requires Ready(o, m) && Grown(s.l, m.l) && m.c.requests == s.c.requests
    ensures ReadTold(o, s, AfterCl(status, m))
  {
    hide ErrorBytes, Kept, FlagFits, Conserved;
    if status !in {BodyOk, BodyMore} { RefusalTold(o, w, m, BadRequest); }
  }

  lemma AfterChunkedTold(o: Origin, w: Net, status: BodyStatus, s: Sys, m: Sys)
    requires In(m, ReadingBodyChunked)
    requires Ready(o, m) && Grown(s.l, m.l) && m.c.requests == s.c.requests
    ensures ReadTold(o, s, AfterChunked(status, m))
  {
    hide ErrorBytes, Kept, FlagFits, Conserved;
    if status !in {BodyOk, BodyMore} {
      RefusalTold(o, w, m, if status == BodyTooLarge then PayloadTooLarge else BadRequest);
    }
  }

  lemma BodyClTold(o: Origin, w: Net, s: Sys)
    requires Known(o, w, s) && In(s, ReadingBodyCl)
    ensures ReadTold(o, s, StepBodyCl(s))
  {
    ReadyParts(o, w, s);
    ReadClGains(s);
    ReadClKeeps(s);
    var (status, m) := ReadCl(s);
    ClParts(m);
    hide ReadCl, Known, FlagKnown, FrameInv, HeadKnown, Conserved, Ready, Gained, Grown, AfterCl, ReadTold;
    ReadReady(o, s, m);
    AfterClTold(o, w, status, s, m);
  }

  lemma BodyChunkedTold(o: Origin, w: Net, s: Sys)
    requires Known(o, w, s) && In(s, ReadingBodyChunked)
    ensures ReadTold(o, s, StepBodyChunked(s))
  {
    ReadyParts(o, w, s);
    ReadChunkedGains(s);
    ReadChunkedKeeps(s);
    var (status, m) := ReadChunked(s);
    hide ReadChunked, Known, FlagKnown, FrameInv, HeadKnown, Conserved, ReadAgrees, Ready, Gained, Grown, AfterChunked, ReadTold;
    ReadReady(o, s, m);
    AfterChunkedTold(o, w, status, s, m);
  }

  lemma ReadingCloses(o: Origin, w: Net, s: Sys)
    requires Known(o, w, s) && CloseInv(o, w, s) && Reading(s.c.phase)
    ensures CloseInv(o, w, Step(s))
  {
    KnownValid(o, w, s);
    hide StepHeader, StepBodyCl, StepBodyChunked, Known, Kept, KeptSoFar, LeftOf, HungUp, FlagTold, SaidLast;
    match s.c.phase {
      case ReadingRequest => HeaderTold(o, w, s);
      case ReadingBodyCl => BodyClTold(o, w, s);
      case ReadingBodyChunked => BodyChunkedTold(o, w, s);
    }
    AllStepsLeave(s);
    LeftSame(w, s.w.net, Step(s).w.net);
    SoFarStays(o, w, s, Step(s));
  }

  lemma KnownValid(o: Origin, w: Net, s: Sys)
    requires Known(o, w, s)
    ensures Valid(s.c)
  {
  }

  // ---------------------------------------------------------------- steps that build and send

  /** Nothing but the wire has moved, and nothing was closed or finished. */
  predicate Steady(s: Sys, r: Sys) {
    && r.l.answers == s.l.answers && r.l.built == s.l.built && r.l.received == s.l.received
    && r.c.requests == s.c.requests
  }

  lemma KeptSame(o: Origin, l: Log, m: Log, i: nat)
    requires i < |l.answers| && m.answers == l.answers && m.built == l.built && m.received == l.received
    ensures Kept(o, m, i) == Kept(o, l, i)
  {
    hide AsksToStay, WantsKeepAlive;
  }

  lemma SteadyCloses(o: Origin, w: Net, s: Sys, r: Sys)
    requires Known(o, w, s) && CloseInv(o, w, s) && s.c.phase != Closed
    requires Steady(s, r) && LeftOf(s.w.net, r.w.net)
    requires Sending(r.c.phase) ==> Sending(s.c.phase) && r.c.keepAlive == s.c.keepAlive
    requires r.c.phase == Closed ==> FailedLast(s.w.net.sends, r.w.net.sends)
    ensures CloseInv(o, w, r)
  {
    hide Known, Kept, KeptSoFar, HungUp, LeftOf, FailedLast;
    LeftSame(w, s.w.net, r.w.net);
    SoFarStays(o, w, s, r);
    if Sending(r.c.phase) { KeptSame(o, s.l, r.l, |s.l.answers| - 1); }
  }

  lemma OpenSending(o: Origin, w: Net, s: Sys)
    requires Known(o, w, s) && Sending(s.c.phase)
    ensures |s.l.answers| == s.c.requests + 1 && s.c.requests < MAX_REQUESTS
  {
    hide Books, FlagKnown, WireInv, FrameInv, Causes;
  }

  /** `r` is `s` with its response finished and counted. */
  predicate Counted(s: Sys, r: Sys) {
    && r.l.answers == s.l.answers && r.l.built == s.l.built && r.l.received == s.l.received
    && r.c.requests == s.c.requests + 1
    && r.c.phase == if !s.c.keepAlive || r.c.requests >= MAX_REQUESTS then Closed else ReadingRequest
  }

  lemma CountedSoFar(o: Origin, s: Sys, r: Sys)
    requires KeptSoFar(o, s) && s.c.phase != Closed && |s.l.answers| == s.c.requests + 1 <= MAX_REQUESTS
    requires s.c.keepAlive == Kept(o, s.l, s.c.requests) && Counted(s, r)
    ensures KeptSoFar(o, r) && (r.c.phase == Closed ==> SaidLast(o, r))
  {
    hide Kept;
    forall i: nat | i < |s.l.answers| ensures Kept(o, r.l, i) == Kept(o, s.l, i) {
      KeptSame(o, s.l, r.l, i);
    }
  }

  /** A response has left: the connection closes as its request asked, or at the limit. */
  lemma FinishCloses(o: Origin, w: Net, s: Sys, r: Sys)
    requires Known(o, w, s) && CloseInv(o, w, s) && Sending(s.c.phase)
    requires Counted(s, r) && LeftOf(s.w.net, r.w.net)
    ensures CloseInv(o, w, r)
  {
    OpenSending(o, w, s);
    hide Known, Kept, KeptSoFar, HungUp, LeftOf, FailedLast, SaidLast, ProducerFailed;
    LeftSame(w, s.w.net, r.w.net);
    CountedSoFar(o, s, r);
  }

  lemma Step100Closes(o: Origin, w: Net, s: Sys)
    requires Known(o, w, s) && CloseInv(o, w, s) && In(s, Sending100)
    ensures CloseInv(o, w, Step100(s))
  {
    Step100Steady(s);
    Step100Leaves(s);
    hide Step100, Known, CloseInv, LeftOf, FailedLast;
    SteadyCloses(o, w, s, Step100(s));
  }

  lemma Step100Steady(s: Sys)
    requires In(s, Sending100)
    ensures Steady(s, Step100(s)) && !Sending(Step100(s).c.phase)
  {
  }

  /** What a send of a buffered response comes to. */
  lemma SendOutcome(s: Sys)
    requires In(s, SendingResponse)
    ensures var r := StepSend(s);
      && r.l.answers == s.l.answers && r.l.built == s.l.built && r.l.received == s.l.received
      && LeftOf(s.w.net, r.w.net)
      && (|| (r.c.requests == s.c.requests && r.c.phase == SendingResponse && r.c.keepAlive == s.c.keepAlive)
          || (r.c.requests == s.c.requests && r.c.phase == Closed && FailedLast(s.w.net.sends, r.w.net.sends))
          || (r.c.requests == s.c.requests + 1
              && r.c.phase == if !s.c.keepAlive || r.c.requests >= MAX_REQUESTS then Closed else ReadingRequest))
  {
    hide SendSome, LeftOf, SendBlocks, FailedLast;
    SomeEnds(s, s.c.respBuf, s.c.st.sent);
  }

  lemma SendCloses(o: Origin, w: Net, s: Sys)
    requires Known(o, w, s) && CloseInv(o, w, s) && In(s, SendingResponse)
    ensures CloseInv(o, w, StepSend(s))
  {
    SendOutcome(s);
    hide StepSend, Known, CloseInv, LeftOf, FailedLast;
    if StepSend(s).c.requests == s.c.requests {
      SteadyCloses(o, w, s, StepSend(s));
    } else {
      FinishCloses(o, w, s, StepSend(s));
    }
  }

  lemma BuildCloses(o: Origin, w: Net, s: Sys)
    requires Known(o, w, s) && CloseInv(o, w, s) && In(s, Building)
    ensures CloseInv(o, w, StepBuild(s))
  {
    BuildEnters(s);
    BuildReceivesNothing(s);
    ConnEnds.BuildLeaves(s);
    BuildFlag(s);
    ReadyParts(o, w, s);
    hide StepBuild, Known, HungUp, LeftOf, KeptSoFar, WantsKeepAlive, ReplyText, FrameInv;
    var r := StepBuild(s);
    LeftSame(w, s.w.net, r.w.net);
    SoFarStays(o, w, s, r);
  }

  lemma BuildFlag(s: Sys)
    requires In(s, Building)
    ensures StepBuild(s).c.keepAlive == s.c.keepAlive
  {
    hide Text, Serialize, StreamText;
  }

  /** The pump goes on or waits, was broken off, or has finished the response. */
  predicate Outcome(s: Sys, r: Sys) {
    && r.l.answers == s.l.answers && r.l.built == s.l.built && r.l.received == s.l.received
    && LeftOf(s.w.net, r.w.net)
    && (|| (r.c.requests == s.c.requests && r.c.phase == SendingStream && r.c.keepAlive == s.c.keepAlive)
        || (r.c.requests == s.c.requests && r.c.phase == Closed
            && (FailedLast(s.w.net.sends, r.w.net.sends) || ProducerFailed(r.l)))
        || (r.c.requests == s.c.requests + 1
            && r.c.phase == if !s.c.keepAlive || r.c.requests >= MAX_REQUESTS then Closed else ReadingRequest))
  }

  /** What one turn of the pump comes to. */
  lemma TurnOutcome(s: Sys)
    requires WireInv(s) && In(s, SendingStream)
    ensures Outcome(s, StreamTurn(s).1)
  {
    if SendsBuffer(s.c.st.stream) {
      StagedOutcome(s);
      hide WireInv, StreamSend, Outcome;
    } else if s.c.st.stream == StreamPull {
      PullOutcome(s);
      LeftItself(s.w.net);
      hide WireInv, StreamPullOne, LeftOf, FailedLast, ProducerFailed;
    } else {
      DoneOutcome(s);
      hide WireInv, Outcome;
    }
  }

  lemma DoneOutcome(s: Sys)
    requires In(s, SendingStream) && s.c.st.stream == StreamDone
    ensures Outcome(s, StreamTurn(s).1)
  {
    LeftItself(s.w.net);
    hide LeftOf, FailedLast, ProducerFailed;
  }

  lemma StagedOutcome(s: Sys)
    requires In(s, SendingStream) && SendsBuffer(s.c.st.stream)
    ensures Outcome(s, StreamSend(s).1)
  {
    hide SendSome, LeftOf, SendBlocks, FailedLast, ProducerFailed;
    SomeEnds(s, s.c.respBuf, s.c.st.sent);
  }

  lemma PullScript(s: Sys)
    requires WireInv(s) && In(s, SendingStream) && s.c.st.stream == StreamPull
    ensures s.l.script == PullsOf(s.l.payloads) + s.c.producer.value.script
  {
    hide WireAccounted, LifeKnown, DueKnown, Produced, Pending;
  }

  lemma PullOutcome(s: Sys)
    requires WireInv(s) && In(s, SendingStream) && s.c.st.stream == StreamPull
    ensures var (goOn, r) := StreamPullOne(s);
      && r.l.answers == s.l.answers && r.l.built == s.l.built && r.l.received == s.l.received
      && r.w.net == s.w.net && r.c.requests == s.c.requests && r.c.keepAlive == s.c.keepAlive
      && (if goOn then r.c.phase == SendingStream else r.c.phase == Closed && ProducerFailed(r.l))
  {
    PullScript(s);
    assert |PullsOf(s.l.payloads)| == |s.l.payloads|;
    hide WireInv, Frame, PullsOf, Valid;
  }

  lemma TurnCloses(o: Origin, w: Net, s: Sys)
    requires Known(o, w, s) && CloseInv(o, w, s) && In(s, SendingStream)
    ensures CloseInv(o, w, StreamTurn(s).1)
  {
    KnownWire(o, w, s);
    TurnOutcome(s);
    hide StreamTurn, Known, LeftOf, FailedLast, ProducerFailed, WireInv;
    var r := StreamTurn(s).1;
    if r.c.requests != s.c.requests {
      FinishCloses(o, w, s, r);
    } else if r.c.phase == Closed && !FailedLast(s.w.net.sends, r.w.net.sends) {
      OpenSending(o, w, s);
      LeftSame(w, s.w.net, r.w.net);
      hide Kept, KeptSoFar, HungUp, SaidLast;
      SoFarStays(o, w, s, r);
    } else {
      hide CloseInv;
      SteadyCloses(o, w, s, r);
    }
  }

  lemma KnownWire(o: Origin, w: Net, s: Sys)
    requires Known(o, w, s)
    ensures WireInv(s) && AnswerInv(o, s) && FrameInv(s) && Causes(w.recvs, s)
  {
  }

  lemma TurnKnown(o: Origin, w: Net, s: Sys)
    requires Known(o, w, s) && In(s, SendingStream)
    ensures Known(o, w, StreamTurn(s).1)
  {
    KnownWire(o, w, s);
    hide StreamTurn, AnswerInv, WireInv, FrameInv, Causes;
    ConnAnswers.StreamTurnKeeps(o, s);
    ConnAnswers.TurnKeepsWire(s);
    ConnFraming.StreamTurnKeeps(s);
    TurnQuiet(s);
    QuietKeeps(w.recvs, s, StreamTurn(s).1);
  }

  lemma {:induction false} StreamCloses(o: Origin, w: Net, s: Sys, e: Sys)
    requires Known(o, w, s) && CloseInv(o, w, s) && In(s, SendingStream) && e == StepStream(s)
    ensures CloseInv(o, w, e)
    decreases PullsLeft(s.c), StreamRank(s.c.st.stream)
  {
    hide Known, CloseInv, StreamTurn;
    TurnCloses(o, w, s);
    TurnKnown(o, w, s);
    var (goOn, r) := StreamTurn(s);
    if goOn { StreamCloses(o, w, r, e); }
  }

  // ---------------------------------------------------------------- every run

  lemma StepCloses(o: Origin, w: Net, s: Sys)
    requires Known(o, w, s) && CloseInv(o, w, s) && Valid(s.c)
    ensures Known(o, w, Step(s)) && CloseInv(o, w, Step(s))
  {
    KnownWire(o, w, s);
    hide Known, CloseInv, StepHeader, Step100, StepBodyCl, StepBodyChunked, StepBuild, StepSend, StepStream;
    hide AnswerInv, WireInv, FrameInv, Causes;
    match s.c.phase {
      case Sending100 => Step100Closes(o, w, s);
      case Building => BuildCloses(o, w, s);
      case SendingResponse => SendCloses(o, w, s);
      case SendingStream => StreamCloses(o, w, s, StepStream(s));
      case Closed =>
      case _ => ReadingCloses(o, w, s);
    }
    StepAnswers(o, s);
    ConnWire.StepKeeps(s);
    ConnFraming.StepKeeps(s);
    StepCauses(w.recvs, s);
    KnownIs(o, w, Step(s));
  }

  lemma KnownIs(o: Origin, w: Net, s: Sys)
    requires WireInv(s) && AnswerInv(o, s) && FrameInv(s) && Causes(w.recvs, s)
    ensures Known(o, w, s)
  {
  }

  lemma {:induction false} DispatchCloses(o: Origin, w: Net, s: Sys)
    requires Known(o, w, s) && CloseInv(o, w, s) && Valid(s.c)
    ensures Known(o, w, Dispatch(s)) && CloseInv(o, w, Dispatch(s))
    decreases MAX_REQUESTS - s.c.requests, Rank(s.c.phase)
  {
    hide Known, CloseInv, Step;
    StepCloses(o, w, s);
    var r := Step(s);
    if r.c.phase != s.c.phase && r.c.phase != Closed { DispatchCloses(o, w, r); }
  }

  lemma {:induction false} RunCloses(o: Origin, w: Net, s: Sys, k: nat)
    requires Known(o, w, s) && CloseInv(o, w, s) && Valid(s.c)
    ensures Known(o, w, Run(s, k)) && CloseInv(o, w, Run(s, k))
    decreases k
  {
    hide Known, CloseInv, Dispatch, Valid;
    RunUnfolds(s, k);
    if k > 0 {
      RunCloses(o, w, s, k - 1);
      DispatchCloses(o, w, Run(s, k - 1));
    }
  }

  lemma StartCloses(c: Conn, w: World)
    requires c.bodyLen == 0 && c.producer == None
    ensures Known(OriginOf(c, w), w.net, Start(c, w)) && CloseInv(OriginOf(c, w), w.net, Start(c, w))
  {
    ConnWire.StartKeeps(c, w);
    ConnFraming.StartKeeps(c, w);
    StartAnswers(c, w);
    LeftItself(w.net);
  }

  lemma InvCloses(o: Origin, w: Net, s: Sys)
    requires Known(o, w, s) && CloseInv(o, w, s)
    ensures s.c.requests <= |s.l.answers| && KeptSoFar(o, s) && (s.c.phase == Closed ==> Because(o, w, s))
  {
    hide WireInv, FrameInv, Causes, Recorded, Numbered, Finals, KeptSoFar, Because;
  }

  /**
   When connections close. In every run, each response that has left and answers something
   that did not ask to stay, or is the last allowed, was the last: the connection is closed.
   And a closed connection has one of four reasons: its last send failed; the peer left or
   failed before the head of a request was there; a producer failed; or its last response was such.
   */
  lemma ClosesExactly(c: Conn, w: World, k: nat)
    requires c.bodyLen == 0 && c.producer == None
    ensures var s, o := Run(Start(c, w), k), OriginOf(c, w);
      && s.c.requests <= |s.l.answers|
      && (forall i: nat :: i < s.c.requests && (!Kept(o, s.l, i) || i + 1 == MAX_REQUESTS) ==>
            i + 1 == s.c.requests && s.c.phase == Closed)
      && (s.c.phase == Closed ==> Because(o, w.net, s))
  {
    StartCloses(c, w);
    RunCloses(OriginOf(c, w), w.net, Start(c, w), k);
    var s, o := Run(Start(c, w), k), OriginOf(c, w);
    InvCloses(o, w.net, s);
    AtLimit(s);
    hide Run, Known, CloseInv, Kept, Because;
  }

  lemma AtLimit(s: Sys)
    requires Valid(s.c)
    ensures s.c.requests <= MAX_REQUESTS && (s.c.requests == MAX_REQUESTS ==> s.c.phase == Closed)
  {
  }
}
