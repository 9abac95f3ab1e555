/**
 Progress. On a network that cooperates - every recv delivers something if there is anything,
 every send takes all it is given - a wake-up never stops early: when it is over, the connection
 has built and answered everything that has arrived, or it is closed, or nothing more is taken.
 */
module ConnProgress {
  import opened Bytes
  import opened Config
  import opened ChunkSpec
  import opened Requests
  import opened Responses
  import opened Network
  import opened ConnSpec
  import opened Framing
  import opened ConnWire
  import opened ConnRuns
  import opened ConnAnswers

  /** Every recv delivers something if there is anything, every send takes all it is given. */
  predicate Cooperative(net: Net) {
    && (forall i :: 0 <= i < |net.recvs| ==> net.recvs[i].Deliver?)
    && (forall i :: 0 <= i < |net.sends| ==> net.sends[i].Accept? && net.sends[i].n >= RESPONSE_BUFFER_SIZE)
  }

  /** Nothing more arrives, or nothing more is taken. */
  predicate NoInput(net: Net) { net.recvs == [] || net.incoming == [] }

  /** The connection waits, and has reason to. */
  predicate Starved(s: Sys) {
    if Reading(s.c.phase) then NoInput(s.w.net)
    else s.c.phase in {Sending100, SendingResponse, SendingStream} && s.w.net.sends == []
  }

  lemma RecvProgress(net: Net, room: nat)
    requires Cooperative(net) && room > 0
    ensures var (r, rest) := Recv(net, room);
      Cooperative(rest) && (r.Got? || (r == Again && NoInput(rest)))
  {
  }

  lemma SendProgress(s: Sys, text: bytes, sent: nat)
    requires Cooperative(s.w.net) && sent < |text| <= RESPONSE_BUFFER_SIZE
    ensures var (status, _, r) := SendSome(s, text, sent);
      && Cooperative(r.w.net)
      && if s.w.net.sends == [] then status == SendMore && r.w.net.sends == [] else status == SendOk
  {
  }

  // ---------------------------------------------------------------- reading

  lemma {:induction false} ReadHeadProgress(s: Sys)
    requires In(s, ReadingRequest) && Cooperative(s.w.net)
    ensures var (status, r) := ReadHead(s);
      && Cooperative(r.w.net) && status in {HeadFound, HeadTooLarge, HeadMore}
      && (status == HeadMore ==> NoInput(r.w.net))
    decreases |s.w.net.recvs|
  {
    hide FindTerminator, Cooperative;
    if !HasTerminator(s.c.reqBuf, |s.c.reqBuf|) && |s.c.reqBuf| < MAX_REQUEST_LEN {
      RecvProgress(s.w.net, MAX_REQUEST_LEN - |s.c.reqBuf|);
      var (r, net) := Recv(s.w.net, MAX_REQUEST_LEN - |s.c.reqBuf|);
      if r.Got? { ReadHeadProgress(Arrive(s, r.piece, net)); }
    }
  }

  lemma {:induction false} ReadClProgress(s: Sys)
    requires In(s, ReadingBodyCl) && Cooperative(s.w.net)
    ensures var (status, r) := ReadCl(s);
      && Cooperative(r.w.net) && (status == BodyMore ==> NoInput(r.w.net))
      && status in {BodyOk, BodyMore, BodyTooLarge}
      && (status == BodyTooLarge ==> |r.c.reqBuf| >= MAX_REQUEST_LEN)
    decreases |s.w.net.recvs|
  {
    hide Cooperative;
    if s.c.st.received < s.c.bodyLen && |s.c.reqBuf| < MAX_REQUEST_LEN {
      RecvProgress(s.w.net, MAX_REQUEST_LEN - |s.c.reqBuf|);
      var (r, net) := Recv(s.w.net, MAX_REQUEST_LEN - |s.c.reqBuf|);
      if r.Got? { ReadClProgress(ArriveCl(s, r.piece, net)); }
    }
  }

  lemma {:induction false} ReadChunkedProgress(s: Sys)
    requires In(s, ReadingBodyChunked) && Cooperative(s.w.net)
    ensures var (status, r) := ReadChunked(s);
      && Cooperative(r.w.net) && (status == BodyMore ==> NoInput(r.w.net))
    decreases |s.w.net.recvs|
  {
    hide Cooperative, Drain;
    var s' := Drew(s, DrainBody(s));
    if DrainBody(s).verdict == More && |s.c.reqBuf| < MAX_REQUEST_LEN {
      RecvProgress(s.w.net, MAX_REQUEST_LEN - |s.c.reqBuf|);
      var (r, net) := Recv(s.w.net, MAX_REQUEST_LEN - |s.c.reqBuf|);
      if r.Got? { ReadChunkedProgress(Arrive(s', r.piece, net)); }
    }
  }

  /** What a step leaves on a network that cooperates: one, and a reason if it has not moved. */
  predicate Moves(s: Sys, r: Sys) {
    Cooperative(r.w.net) && (r.c.phase == s.c.phase ==> Starved(r))
  }

  lemma HeadArrivedNet(s: Sys)
    requires In(s, ReadingRequest) && HasTerminator(s.c.reqBuf, |s.c.reqBuf|)
    ensures HeadArrived(s).w.net == s.w.net
  {
    hide ParseRequest, FindTerminator, HeadEnd, HasTerminator, CodingSeen, ErrorBytes;
  }

  lemma HeaderMoves(s: Sys)
    requires In(s, ReadingRequest) && Cooperative(s.w.net)
    ensures Moves(s, StepHeader(s))
  {
    hide HeadArrived, FindTerminator, ErrorBytes, ReadHead;
    ReadHeadProgress(s);
    var (status, r) := ReadHead(s);
    if status == HeadFound { HeadArrivedNet(r); }
  }

  lemma BodyClMoves(s: Sys)
    requires In(s, ReadingBodyCl) && Cooperative(s.w.net)
    ensures Moves(s, StepBodyCl(s))
  {
    hide ErrorBytes, ReadCl;
    ReadClProgress(s);
  }

  lemma BodyChunkedMoves(s: Sys)
    requires In(s, ReadingBodyChunked) && Cooperative(s.w.net)
    ensures Moves(s, StepBodyChunked(s))
  {
    hide ErrorBytes, ReadChunked;
    ReadChunkedProgress(s);
  }

  // ---------------------------------------------------------------- sending

  lemma Step100Moves(s: Sys)
    requires In(s, Sending100) && Cooperative(s.w.net)
    ensures Moves(s, Step100(s))
  {
    hide Cooperative, SendSome;
    SendProgress(s, CONTINUE_100, s.c.st.sent);
  }

  lemma SendMoves(s: Sys)
    requires In(s, SendingResponse) && Cooperative(s.w.net)
    ensures Moves(s, StepSend(s))
  {
    hide Cooperative, SendSome;
    SendProgress(s, s.c.respBuf, s.c.st.sent);
  }

  lemma TurnMoves(s: Sys)
    requires In(s, SendingStream) && Cooperative(s.w.net)
    ensures var (goOn, r) := StreamTurn(s);
      Cooperative(r.w.net) && (!goOn && r.c.phase == SendingStream ==> r.w.net.sends == [])
  {
    hide Cooperative, SendSome, NextRequest;
    if SendsBuffer(s.c.st.stream) { SendProgress(s, s.c.respBuf, s.c.st.sent); }
    if s.c.st.stream == StreamDone { FinishedNet(s); }
  }

  lemma FinishedNet(s: Sys)
    requires Bounded(s.c) && s.c.phase != Closed
    ensures forall m: Message :: NextRequest(Release(s.(l := Finished(s.l, m)))).w == s.w
  {
  }

  lemma {:induction false} StreamMoves(s: Sys)
    requires In(s, SendingStream) && Cooperative(s.w.net)
    ensures Moves(s, StepStream(s))
    decreases PullsLeft(s.c), StreamRank(s.c.st.stream)
  {
    hide Cooperative, StreamTurn;
    TurnMoves(s);
    var (goOn, r) := StreamTurn(s);
    if goOn { StreamMoves(r); }
  }

  lemma BuildMoves(s: Sys)
    requires In(s, Building) && Cooperative(s.w.net)
    ensures Moves(s, StepBuild(s))
  {
    hide Cooperative, Serialize, Text, StreamText;
  }

  lemma StepMoves(s: Sys)
    requires Valid(s.c) && s.c.phase != Closed && Cooperative(s.w.net)
    ensures Moves(s, Step(s))
  {
    hide Cooperative, Moves, StepHeader, Step100, StepBodyCl, StepBodyChunked, StepBuild, StepSend, StepStream;
    match s.c.phase
    case ReadingRequest => HeaderMoves(s);
    case Sending100 => Step100Moves(s);
    case ReadingBodyCl => BodyClMoves(s);
    case ReadingBodyChunked => BodyChunkedMoves(s);
    case Building => BuildMoves(s);
    case SendingResponse => SendMoves(s);
    case SendingStream => StreamMoves(s);
  }

  // ---------------------------------------------------------------- wake-ups

  lemma {:induction false} DispatchProgress(s: Sys)
    requires Valid(s.c) && s.c.phase != Closed && Cooperative(s.w.net)
    ensures var e := Dispatch(s); Cooperative(e.w.net) && (e.c.phase == Closed || Starved(e))
    decreases MAX_REQUESTS - s.c.requests, Rank(s.c.phase)
  {
    hide Cooperative, Starved, Step;
    StepMoves(s);
    var r := Step(s);
    if r.c.phase != s.c.phase && r.c.phase != Closed { DispatchProgress(r); }
  }

  lemma {:induction false} RunProgress(s: Sys, k: nat)
    requires Valid(s.c) && s.c.phase != Closed && Cooperative(s.w.net)
    ensures var e := Run(s, k); Cooperative(e.w.net) && (k > 0 ==> e.c.phase == Closed || Starved(e))
    decreases k
  {
    hide Cooperative, Starved, Dispatch, Valid;
    RunUnfolds(s, k);
    if k > 0 {
      RunProgress(s, k - 1);
      var m := Run(s, k - 1);
      if m.c.phase == Closed { ClosedStays(m); } else { DispatchProgress(m); }
    }
  }

  lemma ClosedStays(m: Sys)
    requires Valid(m.c) && m.c.phase == Closed
    ensures Dispatch(m) == m
  {
  }

  /**
   On a cooperative network every wake-up gets as far as it can. Unless the connection is
   closed or out of sends, it waits for input with none to be had: then every request that has
   arrived in full was built, and every response begun has left.
   */
  lemma Progress(c: Conn, w: World, k: nat)
    requires c.bodyLen == 0 && c.producer == None && Cooperative(w.net) && k > 0
    ensures var s := Run(Start(c, w), k);
      s.c.phase == Closed || s.w.net.sends == [] ||
      (&& Reading(s.c.phase) && NoInput(s.w.net)
       && s.l.built == RequestsOf(s.l.received)
       && |s.l.answers| == |Finals(s.l.messages)| == s.c.requests
       && (s.w.net.incoming == [] ==> s.l.built == RequestsOf(w.net.incoming)))
  {
    var s := Run(Start(c, w), k);
    FreshOpen(c, w);
    RunProgress(Start(c, w), k);
    StarvedReads(s);
    if Reading(s.c.phase) {
      WaitingMeansAllBuilt(c, w, k);
      RunStream(c, w, k);
      EndOfStream(s.l.received, s.w.net.incoming, w.net.incoming);
      hide *;
      ConnWire.StartKeeps(c, w);
      StartAnswers(c, w);
      RunFromAnswers(OriginOf(c, w), Start(c, w), k);
      AllAnswered(OriginOf(c, w), s);
    }
  }

  lemma FreshOpen(c: Conn, w: World)
    ensures Start(c, w).c.phase == ReadingRequest && Start(c, w).w == w
  {
  }

  lemma StarvedReads(s: Sys)
    requires s.c.phase == Closed || Starved(s)
    ensures s.c.phase == Closed || s.w.net.sends == [] || (Reading(s.c.phase) && NoInput(s.w.net))
  {
  }

  lemma EndOfStream(received: bytes, incoming: bytes, stream: bytes)
    requires received + incoming == stream
    ensures incoming == [] ==> received == stream
  {
  }

  lemma AllAnswered(o: Origin, s: Sys)
    requires AnswerInv(o, s) && Reading(s.c.phase)
    ensures |s.l.answers| == |Finals(s.l.messages)| == s.c.requests
  {
  }
}
