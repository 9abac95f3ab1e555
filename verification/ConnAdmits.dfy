/**
 Who gets in. In every run, in any slot, only requests that the rules of admission let in reach
 a handler, and in a slot that was left no length each is its head and the body the rules give it.
 */
module ConnAdmits {
  import opened Bytes
  import opened Config
  import opened ChunkSpec
  import opened ChunkGrammar
  import opened RequestLines
  import opened Headers
  import opened Requests
  import opened TransferEncoding
  import opened Admissions
  import opened AdmissionRules
  import opened Responses
  import opened Network
  import opened ConnSpec
  import opened ConnWire
  import opened Framing
  import opened ConnFraming

  predicate Welcome(line: RequestLine, headers: seq<Header>) { AdmissionOf(line, headers).Admit? }

  predicate AllWelcome(built: seq<Built>) {
    forall i :: 0 <= i < |built| ==> Welcome(built[i].line, built[i].headers)
  }

  /** The request being received was admitted, and so were all that were built. */
  predicate Gated(s: Sys) {
    && (s.c.phase in {Sending100, ReadingBodyCl, ReadingBodyChunked, Building} ==> Welcome(s.c.line, s.c.headers))
    && AllWelcome(s.l.built)
  }

  // ---------------------------------------------------------------- steps

  lemma {:induction false} ReadHeadBuilds(s: Sys)
    requires In(s, ReadingRequest)
    ensures ReadHead(s).1.l.built == s.l.built
    decreases |s.w.net.recvs|
  {
    hide FindTerminator;
    if !HasTerminator(s.c.reqBuf, |s.c.reqBuf|) && |s.c.reqBuf| < MAX_REQUEST_LEN {
      match Recv(s.w.net, MAX_REQUEST_LEN - |s.c.reqBuf|)
      case (Got(piece), net) => ReadHeadBuilds(Arrive(s, piece, net));
      case (Retry, net) => ReadHeadBuilds(WithNet(s, net));
      case _ =>
    }
  }

  lemma HeadArrivedGated(s: Sys)
    requires In(s, ReadingRequest) && HasTerminator(s.c.reqBuf, |s.c.reqBuf|) && AllWelcome(s.l.built)
    ensures Gated(HeadArrived(s))
  {
    hide ParseRequest, FindTerminator, HeadEnd, HasTerminator, AdmissionOf, CodingSeen, ErrorBytes, WantsKeepAlive;
  }

  lemma HeaderGated(s: Sys)
    requires In(s, ReadingRequest) && AllWelcome(s.l.built)
    ensures Gated(StepHeader(s))
  {
    hide FindTerminator, HeadArrived, ReadHead, ErrorBytes, AdmissionOf;
    ReadHeadBuilds(s);
    var (status, m) := ReadHead(s);
    if status == HeadFound { HeadArrivedGated(m); }
  }

  lemma BodyGated(s: Sys)
    requires Valid(s.c) && s.c.phase in {ReadingBodyCl, ReadingBodyChunked} && Gated(s)
    ensures Gated(Step(s))
  {
    hide ReadCl, ReadChunked, ErrorBytes, AdmissionOf;
    if s.c.phase == ReadingBodyCl { ReadClSilentBuilds(s); } else { ReadChunkedSilentBuilds(s); }
  }

  lemma {:induction false} ReadClSilentBuilds(s: Sys)
    requires In(s, ReadingBodyCl)
    ensures ReadCl(s).1.l.built == s.l.built
    decreases |s.w.net.recvs|
  {
    if s.c.st.received < s.c.bodyLen && |s.c.reqBuf| < MAX_REQUEST_LEN {
      match Recv(s.w.net, MAX_REQUEST_LEN - |s.c.reqBuf|)
      case (Got(piece), net) => ReadClSilentBuilds(ArriveCl(s, piece, net));
      case (Retry, net) => ReadClSilentBuilds(WithNet(s, net));
      case _ =>
    }
  }

  lemma {:induction false} ReadChunkedSilentBuilds(s: Sys)
    requires In(s, ReadingBodyChunked)
    ensures ReadChunked(s).1.l.built == s.l.built
    decreases |s.w.net.recvs|
  {
    var s' := Drew(s, DrainBody(s));
    if DrainBody(s).verdict == More && |s.c.reqBuf| < MAX_REQUEST_LEN {
      match Recv(s.w.net, MAX_REQUEST_LEN - |s.c.reqBuf|)
      case (Got(piece), net) => ReadChunkedSilentBuilds(Arrive(s', piece, net));
      case (Retry, net) => ReadChunkedSilentBuilds(WithNet(s', net));
      case _ =>
    }
  }

  lemma BuildGated(s: Sys)
    requires In(s, Building) && Gated(s)
    ensures Gated(StepBuild(s))
  {
    hide Text, Serialize, StreamText, AdmissionOf;
  }

  lemma {:induction false} StreamGated(s: Sys)
    requires In(s, SendingStream) && AllWelcome(s.l.built)
    ensures Gated(StepStream(s))
    decreases PullsLeft(s.c), StreamRank(s.c.st.stream)
  {
    TurnBuilds(s);
    hide StreamTurn, AllWelcome, Welcome;
    var (goOn, r) := StreamTurn(s);
    if goOn { StreamGated(r); }
  }

  lemma TurnBuilds(s: Sys)
    requires In(s, SendingStream)
    ensures var r := StreamTurn(s).1;
      r.l.built == s.l.built && r.c.phase in {SendingStream, ReadingRequest, Closed}
  {
  }

  lemma StepGated(s: Sys)
    requires Valid(s.c) && Gated(s)
    ensures Gated(Step(s))
  {
    hide StepHeader, StepBodyCl, StepBodyChunked, StepBuild, StepStream, AllWelcome, Welcome;
    match s.c.phase
    case ReadingRequest => HeaderGated(s);
    case Sending100 =>
    case ReadingBodyCl => BodyGated(s);
    case ReadingBodyChunked => BodyGated(s);
    case Building => BuildGated(s);
    case SendingResponse =>
    case SendingStream => StreamGated(s);
    case Closed =>
  }

  lemma {:induction false} DispatchGated(s: Sys)
    requires Valid(s.c) && Gated(s)
    ensures Gated(Dispatch(s))
    decreases MAX_REQUESTS - s.c.requests, Rank(s.c.phase)
  {
    hide Gated, Step;
    StepGated(s);
    var r := Step(s);
    if r.c.phase != s.c.phase && r.c.phase != Closed { DispatchGated(r); }
  }

  lemma {:induction false} RunGated(s: Sys, k: nat)
    requires Valid(s.c) && Gated(s)
    ensures Gated(Run(s, k))
    decreases k
  {
    hide Gated, Dispatch, Valid;
    RunUnfolds(s, k);
    if k > 0 {
      RunGated(s, k - 1);
      DispatchGated(Run(s, k - 1));
    }
  }

  lemma StartGated(c: Conn, w: World)
    ensures Gated(Start(c, w))
  {
  }

  // ---------------------------------------------------------------- every run

  /**
   Only admissible requests are built, in every run and any slot: HTTP/1.0 ones or with a Host,
   with no coding but chunked, in HTTP/1.1 and without a length, or with one within the limit.
   */
  lemma BuiltAdmissible(c: Conn, w: World, k: nat, i: nat) returns (coding: TransferCoding, n: nat)
    requires i < |Run(Start(c, w), k).l.built|
    ensures var b := Run(Start(c, w), k).l.built[i];
      Admissible(b.line, b.headers, coding, n) && HostGiven(b.line, b.headers)
  {
    StartGated(c, w);
    RunGated(Start(c, w), k);
    var b := Run(Start(c, w), k).l.built[i];
    hide Run, AdmissionOf, Admissible, OwedContinue;
    var a := AdmissionOf(b.line, b.headers);
    coding, n := a.coding, a.bodyLen;
    AdmittedExactly(b.line, b.headers, coding, n, a.expects);
    AdmissibleHost(b.line, b.headers, coding, n);
  }

  lemma AdmissibleHost(line: RequestLine, headers: seq<Header>, coding: TransferCoding, n: nat)
    requires Admissible(line, headers, coding, n)
    ensures HostGiven(line, headers)
  {
  }

  /** A request is its head and then its body: as many bytes as declared, or a chunked body of the grammar. */
  ghost predicate HeadAndBody(b: Built, head: bytes, coding: TransferCoding, n: nat) {
    && head <= b.span && ParseRequest(b.span, |b.span|) == Success(Head(b.line, b.headers, |head|))
    && if coding == TeChunked then
         exists body :: ValidBody(body) && b.span == head + BodyText(body) && b.body == Payload(body)
       else b.span == head + b.body && |b.body| == n
  }

  /** In a slot that was left no length, every request that is built is its head and such a body. */
  lemma BuiltFramed(c: Conn, w: World, k: nat, i: nat) returns (head: bytes, coding: TransferCoding, n: nat)
    requires c.bodyLen == 0 && i < |Run(Start(c, w), k).l.built|
    ensures var b := Run(Start(c, w), k).l.built[i];
      Admissible(b.line, b.headers, coding, n) && HeadAndBody(b, head, coding, n)
  {
    RunKeepsFraming(c, w, k);
    var s := Run(Start(c, w), k);
    hide Run, PhaseKnown, Valid, IsWhole, HeadAndBody, Admissible;
    assert WholeAt(s.l.built, i);
    head, coding, n := WholeParts(s.l.built[i]);
  }

  lemma WholeFront(b: Built)
    requires IsWhole(b)
    ensures var s := b.span;
      && HasTerminator(s, |s|)
      && var e := HeadEnd(s, |s|);
         && ParseRequest(s, |s|) == Success(Head(b.line, b.headers, e))
         && FrontBody(s, e, b.line, b.headers, AdmissionOf(b.line, b.headers)) == Whole(b)
  {
    ScannersAgree(b.span, |b.span|);
    hide ParseRequest, FindTerminator, AdmissionOf, Decode;
  }

  /** What the body of a whole request is, when it was admitted so. */
  lemma BodyParts(b: Built, e: nat, a: Admission)
    requires e <= |b.span| && FrontBody(b.span, e, b.line, b.headers, a) == Whole(b)
    ensures a.Admit?
    ensures a.coding != TeChunked ==> b.body == b.span[e..] && |b.body| == a.bodyLen
    ensures a.coding == TeChunked ==>
              var d := Decode(b.span[e..], MAX_DECHUNK_SIZE);
              d.verdict == Complete && d.pos == |b.span[e..]| && d.out == b.body
  {
    hide Drain;
    var s := b.span;
    if a.Admit? {
      if a.coding == TeChunked {
        var n := e + Decode(s[e..], MAX_DECHUNK_SIZE).pos;
        assert |s[..n]| == n;
      } else {
        assert |s[..e + a.bodyLen]| == e + a.bodyLen;
      }
    }
  }

  lemma WholeParts(b: Built) returns (head: bytes, coding: TransferCoding, n: nat)
    requires IsWhole(b)
    ensures Admissible(b.line, b.headers, coding, n) && HeadAndBody(b, head, coding, n)
  {
    WholeFront(b);
    hide ParseRequest, FindTerminator, HasTerminator, AdmissionOf, Decode, Admissible, OwedContinue, FrontBody, HeadEnd;
    var e, a := HeadEnd(b.span, |b.span|), AdmissionOf(b.line, b.headers);
    BodyParts(b, e, a);
    head, coding, n := b.span[..e], a.coding, a.bodyLen;
    AdmittedExactly(b.line, b.headers, coding, n, a.expects);
    assert b.span == head + b.span[e..];
    if coding == TeChunked { var body := ChunkedWhole(b.span[e..]); }
  }

  lemma ChunkedWhole(raw: bytes) returns (body: Body)
    requires var d := Decode(raw, MAX_DECHUNK_SIZE); d.verdict == Complete && d.pos == |raw|
    ensures ValidBody(body) && raw == BodyText(body) && Decode(raw, MAX_DECHUNK_SIZE).out == Payload(body)
  {
    hide Drain;
    body := CompleteIsBody(raw, 0, [], MAX_DECHUNK_SIZE);
    BodyDrains(raw, 0, body, [], MAX_DECHUNK_SIZE);
    assert [] + Payload(body) == Payload(body);
  }

  // ---------------------------------------------------------------- the interim response

  /** What has been buffered is an admissible head that is owed a 100, and nothing behind it. */
  ghost predicate OwedNow(buf: bytes) {
    && HasTerminator(buf, |buf|) && HeadEnd(buf, |buf|) == |buf|
    && var p := ParseRequest(buf, |buf|);
       p.Success? && exists coding, n :: Admissible(p.value.line, p.value.headers, coding, n)
                                        && OwedContinue(p.value.line, p.value.headers, n)
  }

  /** The interim response is begun exactly when it is owed. */
  lemma ContinueExactly(s: Sys)
    requires In(s, ReadingRequest)
    ensures StepHeader(s).c.phase == Sending100 <==> OwedNow(ReadHead(s).1.c.reqBuf)
  {
    hide ReadHead, HeadArrived, FindTerminator, ParseRequest, AdmissionOf, ErrorBytes, HasTerminator, OwedNow;
    var (status, m) := ReadHead(s);
    var buf := m.c.reqBuf;
    if status == HeadFound { ArrivedExactly(m); } else { NotOwed(buf); }
  }

  lemma NotOwed(buf: bytes)
    requires !HasTerminator(buf, |buf|)
    ensures !OwedNow(buf)
  {
  }

  lemma ArrivedExactly(m: Sys)
    requires In(m, ReadingRequest) && HasTerminator(m.c.reqBuf, |m.c.reqBuf|)
    ensures HeadArrived(m).c.phase == Sending100 <==> OwedNow(m.c.reqBuf)
  {
    hide ParseRequest, FindTerminator, HasTerminator, HeadEnd, AdmissionOf, Admitted, SendError;
    hide Admissible, OwedContinue;
    var buf := m.c.reqBuf;
    var p := ParseRequest(buf, |buf|);
    if p.Success? {
      var line, headers := p.value.line, p.value.headers;
      OwedIs(line, headers);
      AdmittedPhase(m, line, headers, AdmissionOf(line, headers));
    }
  }

  lemma OwedIs(line: RequestLine, headers: seq<Header>)
    ensures (exists coding, n :: Admissible(line, headers, coding, n) && OwedContinue(line, headers, n)) <==>
            AdmissionOf(line, headers).Admit? && AdmissionOf(line, headers).expects
  {
    hide AdmissionOf, Admissible, OwedContinue;
    var a := AdmissionOf(line, headers);
    if a.Admit? { AdmittedExactly(line, headers, a.coding, a.bodyLen, a.expects); }
    forall coding, n | Admissible(line, headers, coding, n) && OwedContinue(line, headers, n)
      ensures a.Admit? && a.expects
    {
      AdmittedExactly(line, headers, coding, n, true);
    }
  }

  lemma AdmittedPhase(m: Sys, line: RequestLine, headers: seq<Header>, a: Admission)
    requires In(m, ReadingRequest) && HasTerminator(m.c.reqBuf, |m.c.reqBuf|)
    ensures Admitted(m, line, headers, a).c.phase == Sending100 <==>
            a.Admit? && a.expects && |m.c.reqBuf| == HeadEnd(m.c.reqBuf, |m.c.reqBuf|)
  {
    hide FindTerminator, HasTerminator, HeadEnd, CodingSeen, WantsKeepAlive, ErrorBytes;
  }
}
