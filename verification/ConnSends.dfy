/**
 Sends that fail. In every run the first send that finds the peer gone or fails is the last:
 the connection is closed, and the producer of a stream is released with its cleanup called.
 */
module ConnSends {
  import opened Bytes
  import opened Config
  import opened ChunkSpec
  import opened ChunkFrame
  import opened RequestLines
  import opened Headers
  import opened Requests
  import opened Admissions
  import opened Responses
  import opened Network
  import opened ConnSpec
  import opened ConnWire
  import opened ConnPromises

  predicate Fails(e: SendEvent) { e.SendPeerClosed? || e.SendFailed? }

  /** How many of the sends of a script have been made. */
  function Made(script: seq<SendEvent>, left: seq<SendEvent>): int { |script| - |left| }

  /** The sends still to come are the last of the script. */
  predicate SendsLeft(script: seq<SendEvent>, left: seq<SendEvent>) {
    |left| <= |script| && script[|script| - |left|..] == left
  }

  /** None of the sends made has failed, unless it is the last and the connection is closed. */
  predicate Survived(script: seq<SendEvent>, s: Sys) {
    && SendsLeft(script, s.w.net.sends)
    && forall i :: 0 <= i < Made(script, s.w.net.sends) && Fails(script[i]) ==>
         i == Made(script, s.w.net.sends) - 1 && s.c.phase == Closed
  }

  /** `r` comes after `s`: no send was made, or one and it has not failed, or one and it closed. */
  predicate OneSend(s: Sys, r: Sys) {
    || r.w.net.sends == s.w.net.sends
    || (s.w.net.sends != [] && r.w.net.sends == s.w.net.sends[1..] && (Fails(s.w.net.sends[0]) ==> r.c.phase == Closed))
  }

  lemma OneSendSurvives(script: seq<SendEvent>, s: Sys, r: Sys)
    requires Survived(script, s) && s.c.phase != Closed && OneSend(s, r)
    ensures Survived(script, r)
  {
    var n := |script| - |s.w.net.sends|;
    if s.w.net.sends != [] { assert script[n] == s.w.net.sends[0]; }
    if r.w.net.sends != s.w.net.sends { assert script[n + 1..] == script[n..][1..]; }
  }

  lemma SomeIsOne(s: Sys, text: bytes, sent: nat)
    requires sent < |text|
    ensures var (status, _, r) := SendSome(s, text, sent);
      && (r.w.net.sends == s.w.net.sends || (s.w.net.sends != [] && r.w.net.sends == s.w.net.sends[1..]))
      && (r.w.net.sends != s.w.net.sends && Fails(s.w.net.sends[0]) ==> status in {SendClosed, SendFault})
  {
  }

  // ---------------------------------------------------------------- steps

  lemma Step100Sends(s: Sys)
    requires In(s, Sending100)
    ensures OneSend(s, Step100(s))
  {
    SomeIsOne(s, CONTINUE_100, s.c.st.sent);
    hide SendSome;
  }

  lemma StepSendSends(s: Sys)
    requires In(s, SendingResponse)
    ensures OneSend(s, StepSend(s))
  {
    SomeIsOne(s, s.c.respBuf, s.c.st.sent);
    hide SendSome;
  }

  lemma TurnSends(s: Sys)
    requires In(s, SendingStream)
    ensures OneSend(s, StreamTurn(s).1)
  {
    if SendsBuffer(s.c.st.stream) { SomeIsOne(s, s.c.respBuf, s.c.st.sent); }
    hide SendSome, Frame;
  }

  lemma {:induction false} StepStreamSends(script: seq<SendEvent>, s: Sys)
    requires Survived(script, s) && In(s, SendingStream)
    ensures Survived(script, StepStream(s))
    decreases PullsLeft(s.c), StreamRank(s.c.st.stream)
  {
    hide StreamTurn, Survived;
    TurnSends(s);
    var (goOn, r) := StreamTurn(s);
    OneSendSurvives(script, s, r);
    if goOn { StepStreamSends(script, r); }
  }

  lemma {:induction false} ReadHeadSends(s: Sys)
    requires In(s, ReadingRequest)
    ensures ReadHead(s).1.w.net.sends == s.w.net.sends
    decreases |s.w.net.recvs|
  {
    hide FindTerminator;
    if !HasTerminator(s.c.reqBuf, |s.c.reqBuf|) && |s.c.reqBuf| < MAX_REQUEST_LEN {
      match Recv(s.w.net, MAX_REQUEST_LEN - |s.c.reqBuf|)
      case (Got(piece), net) => ReadHeadSends(Arrive(s, piece, net));
      case (Retry, net) => ReadHeadSends(WithNet(s, net));
      case _ =>
    }
  }

  lemma {:induction false} ReadClSends(s: Sys)
    requires In(s, ReadingBodyCl)
    ensures ReadCl(s).1.w.net.sends == s.w.net.sends
    decreases |s.w.net.recvs|
  {
    if s.c.st.received < s.c.bodyLen && |s.c.reqBuf| < MAX_REQUEST_LEN {
      match Recv(s.w.net, MAX_REQUEST_LEN - |s.c.reqBuf|)
      case (Got(piece), net) => ReadClSends(ArriveCl(s, piece, net));
      case (Retry, net) => ReadClSends(WithNet(s, net));
      case _ =>
    }
  }

  lemma {:induction false} ReadChunkedSends(s: Sys)
    requires In(s, ReadingBodyChunked)
    ensures ReadChunked(s).1.w.net.sends == s.w.net.sends
    decreases |s.w.net.recvs|
  {
    var s' := Drew(s, DrainBody(s));
    if DrainBody(s).verdict == More && |s.c.reqBuf| < MAX_REQUEST_LEN {
      match Recv(s.w.net, MAX_REQUEST_LEN - |s.c.reqBuf|)
      case (Got(piece), net) => ReadChunkedSends(Arrive(s', piece, net));
      case (Retry, net) => ReadChunkedSends(WithNet(s', net));
      case _ =>
    }
  }

  lemma AfterHeadSends(status: HeadStatus, s: Sys)
    requires In(s, ReadingRequest) && (status == HeadFound ==> HasTerminator(s.c.reqBuf, |s.c.reqBuf|))
    ensures AfterHead(status, s).w.net == s.w.net
  {
    hide ParseRequest, FindTerminator, HeadEnd, HasTerminator, CodingSeen, ErrorBytes, WantsKeepAlive;
  }

  lemma ReadingSends(s: Sys)
    requires Valid(s.c) && s.c.phase in {ReadingRequest, ReadingBodyCl, ReadingBodyChunked}
    ensures Step(s).w.net.sends == s.w.net.sends
  {
    hide ErrorBytes, ReadHead, ReadCl, ReadChunked, AfterHead;
    match s.c.phase
    case ReadingRequest =>
      ReadHeadSends(s);
      AfterHeadSends(ReadHead(s).0, ReadHead(s).1);
    case ReadingBodyCl => ReadClSends(s);
    case ReadingBodyChunked => ReadChunkedSends(s);
  }

  lemma BuildSends(s: Sys)
    requires In(s, Building)
    ensures StepBuild(s).w.net == s.w.net
  {
    hide Text, Serialize, StreamText;
  }

  lemma StepSurvives(script: seq<SendEvent>, s: Sys)
    requires Survived(script, s) && Valid(s.c)
    ensures Survived(script, Step(s))
  {
    hide Survived, StepHeader, Step100, StepBodyCl, StepBodyChunked, StepBuild, StepSend, StepStream;
    if s.c.phase == SendingStream {
      StepStreamSends(script, s);
    } else if s.c.phase != Closed {
      match s.c.phase {
        case Sending100 => Step100Sends(s);
        case SendingResponse => StepSendSends(s);
        case Building => BuildSends(s);
        case _ => ReadingSends(s);
      }
      OneSendSurvives(script, s, Step(s));
    }
  }

  // ---------------------------------------------------------------- every run

  lemma {:induction false} DispatchSurvives(script: seq<SendEvent>, s: Sys)
    requires Survived(script, s) && Valid(s.c)
    ensures Survived(script, Dispatch(s))
    decreases MAX_REQUESTS - s.c.requests, Rank(s.c.phase)
  {
    hide Survived, Step;
    StepSurvives(script, s);
    var r := Step(s);
    if r.c.phase != s.c.phase && r.c.phase != Closed { DispatchSurvives(script, r); }
  }

  lemma {:induction false} RunSurvives(script: seq<SendEvent>, s: Sys, k: nat)
    requires Survived(script, s) && Valid(s.c)
    ensures Survived(script, Run(s, k))
    decreases k
  {
    hide Survived, Dispatch, Valid;
    RunUnfolds(s, k);
    if k > 0 {
      RunSurvives(script, s, k - 1);
      DispatchSurvives(script, Run(s, k - 1));
    }
  }

  lemma StartSurvives(c: Conn, w: World)
    ensures Survived(w.net.sends, Start(c, w))
  {
  }

  /**
   A failed send. In every run, in whatever phase - the interim 100, a buffered response or any
   part of a stream - the first send that finds the peer gone or fails is the last that is
   made: the connection is closed, its producer is gone, and every cleanup owed was called.
   */
  lemma FailedSendCloses(c: Conn, w: World, k: nat, i: nat)
    requires c.producer == None
    requires i < Made(w.net.sends, Run(Start(c, w), k).w.net.sends) && Fails(w.net.sends[i])
    ensures var s := Run(Start(c, w), k);
      && i == Made(w.net.sends, s.w.net.sends) - 1
      && s.c.phase == Closed && s.c.producer == None
      && Installs(s.l.events) == Cleanups(s.l.events)
  {
    hide Run;
    StartSurvives(c, w);
    RunSurvives(w.net.sends, Start(c, w), k);
    RunLifecycle(c, w, k);
  }

  // ---------------------------------------------------------------- a stream that is broken off

  /** A stream of which some is staged, and a peer that is gone: the wake-up closes and cleans up. */
  lemma BrokenOffExactly(s: Sys)
    requires WireInv(s) && In(s, SendingStream) && SendsBuffer(s.c.st.stream)
    requires s.w.net.sends != [] && Fails(s.w.net.sends[0])
    ensures var r := Dispatch(s);
      && r.c.phase == Closed && r.c.producer == None && r.c.requests == s.c.requests
      && r.l.wire == s.l.wire && r.l.messages == s.l.messages
      && r.l.events == s.l.events + if s.c.producer.value.hasCleanup then [CleanedUp] else []
  {
    hide WireInv;
    BrokenSend(s);
    assert StepStream(s) == StreamTurn(s).1;
  }

  lemma BrokenSend(s: Sys)
    requires In(s, SendingStream) && SendsBuffer(s.c.st.stream)
    requires s.w.net.sends != [] && Fails(s.w.net.sends[0])
    ensures var (goOn, r) := StreamTurn(s);
      && !goOn && r.c.phase == Closed && r.c.producer == None && r.c.requests == s.c.requests
      && r.l == s.l.(events := s.l.events + if s.c.producer.value.hasCleanup then [CleanedUp] else [])
  {
    assert s.l.events + [] == s.l.events;
  }
}
