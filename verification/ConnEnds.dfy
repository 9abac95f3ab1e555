/**
 How wake-ups and connections end. A wake-up of any run ends closed, or waiting for input that
 the last recv did not have, or for a send that the last one left to do. A connection is closed
 for one of four reasons, and after a response exactly when the request it answers did not ask
 to stay, or at the limit.
 */
module ConnEnds {
  import opened Bytes
  import opened Config
  import opened ChunkSpec
  import opened ChunkFrame
  import opened RequestLines
  import opened Headers
  import opened Requests
  import opened TransferEncoding
  import opened Admissions
  import opened Responses
  import opened Network
  import opened ConnSpec
  import opened Framing
  import opened ConnFraming
  import opened ConnRuns
  import opened ConnWire
  import opened ConnAnswers
  import opened ConnCauses
  import opened ConnSends

  // ---------------------------------------------------------------- waiting

  /** The last recv of the script that was made found nothing for now, or there is none left. */
  predicate RecvBlocks(script: seq<RecvEvent>, net: Net) {
    || net.recvs == []
    || (&& |net.recvs| < |script|
        && var last := script[|script| - |net.recvs| - 1];
           last == WouldBlock || (last.Deliver? && net.incoming == []))
  }

  /** The last send that was made left something to do, or there is none left. */
  predicate SendBlocks(script: seq<SendEvent>, net: Net) {
    || net.sends == []
    || (|net.sends| < |script| && !Fails(script[|script| - |net.sends| - 1]))
  }

  /** A connection that is not closed waits, and has reason to. */
  predicate Waits(w: Net, s: Sys) {
    if Reading(s.c.phase) then RecvBlocks(w.recvs, s.w.net)
    else
      && s.c.phase in {Sending100, SendingResponse, SendingStream} && SendBlocks(w.sends, s.w.net)
      && (s.c.phase == SendingStream && s.c.st.StStream? ==> SendsBuffer(s.c.st.stream))
  }

  /** The scripts of `after` are what is left of those of `before`. */
  predicate LeftOf(before: Net, after: Net) {
    Uses(before.recvs, after.recvs) && SendsLeft(before.sends, after.sends)
  }

  lemma BlocksBefore(before: seq<RecvEvent>, recvs: seq<RecvEvent>, net: Net)
    requires Uses(before, recvs) && RecvBlocks(recvs, net)
    ensures RecvBlocks(before, net)
  {
    if net.recvs != [] {
      assert before[|before| - |recvs|..][|recvs| - |net.recvs| - 1] == before[|before| - |net.recvs| - 1];
    }
  }

  lemma SendBlocksBefore(before: seq<SendEvent>, sends: seq<SendEvent>, net: Net)
    requires SendsLeft(before, sends) && SendBlocks(sends, net)
    ensures SendBlocks(before, net)
  {
    if net.sends != [] {
      assert before[|before| - |sends|..][|sends| - |net.sends| - 1] == before[|before| - |net.sends| - 1];
    }
  }

  lemma LeftMore(a: Net, b: Net, c: Net)
    requires LeftOf(a, b) && LeftOf(b, c)
    ensures LeftOf(a, c)
  {
    UsesMore(a.recvs, b.recvs, c.recvs);
    assert a.sends[|a.sends| - |c.sends|..] == a.sends[|a.sends| - |b.sends|..][|b.sends| - |c.sends|..];
  }

  lemma WaitsBefore(a: Net, b: Net, s: Sys)
    requires LeftOf(a, b) && Waits(b, s)
    ensures Waits(a, s)
  {
    hide RecvBlocks, SendBlocks, Uses, SendsLeft;
    if Reading(s.c.phase) { BlocksBefore(a.recvs, b.recvs, s.w.net); }
    else { SendBlocksBefore(a.sends, b.sends, s.w.net); }
  }

  lemma OneLess<T>(xs: seq<T>)
    ensures xs[|xs| - |xs|..] == xs
    ensures xs != [] ==> xs[|xs| - |xs[1..]|..] == xs[1..] && xs[|xs| - |xs[1..]| - 1] == xs[0]
  {
  }

  lemma RecvEnds(net: Net, room: nat)
    requires room > 0
    ensures var (r, rest) := Recv(net, room);
      && LeftOf(net, rest)
      && (r == Again ==> RecvBlocks(net.recvs, rest))
      && (r in {Eof, RecvError} ==> HungUp(net.recvs, |rest.recvs|))
  {
    OneLess(net.sends);
    OneLess(net.recvs);
    RecvUsesUp(net, room);
  }

  lemma RecvUsesUp(net: Net, room: nat)
    requires room > 0
    ensures var (r, rest) := Recv(net, room);
      && rest.sends == net.sends
      && if net.recvs == [] then r == Again && rest == net
         else && rest.recvs == net.recvs[1..]
              && (r == Again ==> net.recvs[0] == WouldBlock || (net.recvs[0].Deliver? && rest.incoming == []))
              && (r in {Eof, RecvError} ==> net.recvs[0] in {PeerClosed, IoFailed})
  {
  }

  lemma LeftItself(net: Net)
    ensures LeftOf(net, net)
  {
  }

  /** What a read that went on says of the whole. */
  lemma Onwards(a: Net, b: Net, c: Net)
    requires LeftOf(a, b) && LeftOf(b, c)
    ensures LeftOf(a, c)
    ensures RecvBlocks(b.recvs, c) ==> RecvBlocks(a.recvs, c)
    ensures HungUp(b.recvs, |c.recvs|) ==> HungUp(a.recvs, |c.recvs|)
  {
    LeftMore(a, b, c);
    if RecvBlocks(b.recvs, c) { BlocksBefore(a.recvs, b.recvs, c); }
    if HungUp(b.recvs, |c.recvs|) { HungUpBefore(a.recvs, b.recvs, |c.recvs|); }
  }

  /** There is room for more of a head that is not yet whole. */
  predicate NoHead(c: Conn) { |c.reqBuf| < MAX_REQUEST_LEN && !HasTerminator(c.reqBuf, |c.reqBuf|) }

  lemma {:induction false} ReadHeadEnds(s: Sys)
    requires In(s, ReadingRequest)
    ensures var (status, m) := ReadHead(s);
      && LeftOf(s.w.net, m.w.net)
      && (status == HeadMore ==> RecvBlocks(s.w.net.recvs, m.w.net))
      && (status in {HeadClosed, HeadIoError} ==> HungUp(s.w.net.recvs, |m.w.net.recvs|) && NoHead(m.c))
    decreases |s.w.net.recvs|
  {
    hide FindTerminator, HasTerminator, LeftOf, RecvBlocks, HungUp, Recv;
    LeftItself(s.w.net);
    if !HasTerminator(s.c.reqBuf, |s.c.reqBuf|) && |s.c.reqBuf| < MAX_REQUEST_LEN {
      var (r, net) := Recv(s.w.net, MAX_REQUEST_LEN - |s.c.reqBuf|);
      RecvEnds(s.w.net, MAX_REQUEST_LEN - |s.c.reqBuf|);
      if r.Got? || r == Retry {
        var t := if r.Got? then Arrive(s, r.piece, net) else WithNet(s, net);
        ReadHeadEnds(t);
        Onwards(s.w.net, net, ReadHead(t).1.w.net);
      }
    }
  }

  lemma {:induction false} ReadClEnds(s: Sys)
    requires In(s, ReadingBodyCl)
    ensures var (status, m) := ReadCl(s);
      LeftOf(s.w.net, m.w.net) && (status == BodyMore ==> RecvBlocks(s.w.net.recvs, m.w.net))
    decreases |s.w.net.recvs|
  {
    hide LeftOf, RecvBlocks, HungUp, Recv;
    LeftItself(s.w.net);
    if s.c.st.received < s.c.bodyLen && |s.c.reqBuf| < MAX_REQUEST_LEN {
      var (r, net) := Recv(s.w.net, MAX_REQUEST_LEN - |s.c.reqBuf|);
      RecvEnds(s.w.net, MAX_REQUEST_LEN - |s.c.reqBuf|);
      if r.Got? || r == Retry {
        var t := if r.Got? then ArriveCl(s, r.piece, net) else WithNet(s, net);
        ReadClEnds(t);
        Onwards(s.w.net, net, ReadCl(t).1.w.net);
      }
    }
  }

  lemma {:induction false} ReadChunkedEnds(s: Sys)
    requires In(s, ReadingBodyChunked)
    ensures var (status, m) := ReadChunked(s);
      LeftOf(s.w.net, m.w.net) && (status == BodyMore ==> RecvBlocks(s.w.net.recvs, m.w.net))
    decreases |s.w.net.recvs|
  {
    hide LeftOf, RecvBlocks, HungUp, Recv, Drain;
    LeftItself(s.w.net);
    var s' := Drew(s, DrainBody(s));
    if DrainBody(s).verdict == More && |s.c.reqBuf| < MAX_REQUEST_LEN {
      var (r, net) := Recv(s.w.net, MAX_REQUEST_LEN - |s.c.reqBuf|);
      RecvEnds(s.w.net, MAX_REQUEST_LEN - |s.c.reqBuf|);
      if r.Got? || r == Retry {
        var t := if r.Got? then Arrive(s', r.piece, net) else WithNet(s', net);
        ReadChunkedEnds(t);
        Onwards(s.w.net, net, ReadChunked(t).1.w.net);
      }
    }
  }

  // ---------------------------------------------------------------- steps

  /** What a step leaves: the rest of the scripts, and a reason to wait if it has not moved. */
  predicate StepLeaves(s: Sys, r: Sys) {
    LeftOf(s.w.net, r.w.net) && (r.c.phase == s.c.phase ==> Waits(s.w.net, r))
  }

  lemma SomeEnds(s: Sys, text: bytes, sent: nat)
    requires sent < |text|
    ensures var (status, _, r) := SendSome(s, text, sent);
      && LeftOf(s.w.net, r.w.net)
      && (status == SendMore ==> SendBlocks(s.w.net.sends, r.w.net))
      && (status in {SendClosed, SendFault} ==> FailedLast(s.w.net.sends, r.w.net.sends))
  {
    OneLess(s.w.net.sends);
    OneLess(s.w.net.recvs);
    SomeUsesUp(s, text, sent);
    hide SendSome;
  }

  lemma SomeUsesUp(s: Sys, text: bytes, sent: nat)
    requires sent < |text|
    ensures var (status, _, r) := SendSome(s, text, sent);
      && r.w.net.recvs == s.w.net.recvs
      && if s.w.net.sends == [] then status == SendMore && r.w.net.sends == []
         else && r.w.net.sends == s.w.net.sends[1..]
              && (status in {SendClosed, SendFault} <==> Fails(s.w.net.sends[0]))
  {
  }

  /** The last send that was made has failed. */
  predicate FailedLast(script: seq<SendEvent>, left: seq<SendEvent>) {
    |left| < |script| && Fails(script[|script| - |left| - 1])
  }

  lemma HeaderLeaves(s: Sys)
    requires In(s, ReadingRequest)
    ensures StepLeaves(s, StepHeader(s))
  {
    hide FindTerminator, ReadHead, AfterHead, LeftOf, RecvBlocks;
    ReadHeadEnds(s);
    AfterHeadSends(ReadHead(s).0, ReadHead(s).1);
    AfterHeadPhase(ReadHead(s).0, ReadHead(s).1);
  }

  lemma AfterHeadPhase(status: HeadStatus, m: Sys)
    requires In(m, ReadingRequest) && (status == HeadFound ==> HasTerminator(m.c.reqBuf, |m.c.reqBuf|))
    ensures AfterHead(status, m).c.phase == ReadingRequest <==> status == HeadMore
    ensures AfterHead(status, m).c.phase == Closed <==> status in {HeadClosed, HeadIoError}
  {
    hide FindTerminator, HeadArrived, ErrorBytes;
  }

  lemma BodyLeaves(s: Sys)
    requires Valid(s.c) && s.c.phase in {ReadingBodyCl, ReadingBodyChunked}
    ensures StepLeaves(s, Step(s)) && Step(s).c.phase != Closed
  {
    hide ReadCl, ReadChunked, ErrorBytes, LeftOf, RecvBlocks;
    if s.c.phase == ReadingBodyCl { ReadClEnds(s); } else { ReadChunkedEnds(s); }
  }

  lemma BuildLeaves(s: Sys)
    requires In(s, Building)
    ensures StepLeaves(s, StepBuild(s)) && StepBuild(s).c.phase != Closed
  {
    BuildSends(s);
    LeftItself(s.w.net);
    hide StepBuild, LeftOf;
  }

  lemma Step100Leaves(s: Sys)
    requires In(s, Sending100)
    ensures StepLeaves(s, Step100(s))
    ensures Step100(s).c.phase == Closed ==> FailedLast(s.w.net.sends, Step100(s).w.net.sends)
  {
    hide SendSome, LeftOf, SendBlocks, FailedLast;
    SomeEnds(s, CONTINUE_100, s.c.st.sent);
  }

  lemma SendLeaves(s: Sys)
    requires In(s, SendingResponse)
    ensures StepLeaves(s, StepSend(s))
  {
    hide SendSome, LeftOf, SendBlocks, FailedLast;
    SomeEnds(s, s.c.respBuf, s.c.st.sent);
  }

  lemma TurnLeaves(s: Sys)
    requires In(s, SendingStream)
    ensures var (goOn, r) := StreamTurn(s);
      && LeftOf(s.w.net, r.w.net)
      && (!goOn && r.c.phase == SendingStream ==>
            SendBlocks(s.w.net.sends, r.w.net) && SendsBuffer(r.c.st.stream))
  {
    hide SendSome, LeftOf, SendBlocks, FailedLast, Frame;
    LeftItself(s.w.net);
    if SendsBuffer(s.c.st.stream) { SomeEnds(s, s.c.respBuf, s.c.st.sent); }
  }

  lemma {:induction false} StreamLeaves(s: Sys, e: Sys)
    requires In(s, SendingStream) && e == StepStream(s)
    ensures StepLeaves(s, e)
    decreases PullsLeft(s.c), StreamRank(s.c.st.stream)
  {
    hide StreamTurn, LeftOf, SendBlocks;
    TurnLeaves(s);
    var (goOn, r) := StreamTurn(s);
    if goOn {
      StreamLeaves(r, e);
      LeftMore(s.w.net, r.w.net, e.w.net);
      if e.c.phase == SendingStream { WaitsBefore(s.w.net, r.w.net, e); }
    }
  }

  lemma AllStepsLeave(s: Sys)
    requires Valid(s.c) && s.c.phase != Closed
    ensures StepLeaves(s, Step(s))
  {
    hide StepHeader, Step100, StepBodyCl, StepBodyChunked, StepBuild, StepSend, StepStream, StepLeaves;
    match s.c.phase
    case ReadingRequest => HeaderLeaves(s);
    case Sending100 => Step100Leaves(s);
    case ReadingBodyCl => BodyLeaves(s);
    case ReadingBodyChunked => BodyLeaves(s);
    case Building => BuildLeaves(s);
    case SendingResponse => SendLeaves(s);
    case SendingStream => StreamLeaves(s, StepStream(s));
  }

  lemma {:induction false} DispatchLeaves(s: Sys, e: Sys)
    requires Valid(s.c) && e == Dispatch(s)
    ensures LeftOf(s.w.net, e.w.net) && (e.c.phase != Closed ==> Waits(s.w.net, e))
    decreases MAX_REQUESTS - s.c.requests, Rank(s.c.phase)
  {
    hide Step, LeftOf, Waits;
    if s.c.phase == Closed {
      LeftItself(s.w.net);
      ClosedStep(s);
    } else {
      AllStepsLeave(s);
      var r := Step(s);
      if r.c.phase != s.c.phase && r.c.phase != Closed {
        DispatchLeaves(r, e);
        LeftMore(s.w.net, r.w.net, e.w.net);
        if e.c.phase != Closed { WaitsBefore(s.w.net, r.w.net, e); }
      }
    }
  }

  lemma ClosedStep(s: Sys)
    requires Valid(s.c) && s.c.phase == Closed
    ensures Step(s) == s
  {
  }

  lemma {:induction false} RunLeaves(s: Sys, k: nat)
    requires Valid(s.c)
    ensures LeftOf(s.w.net, Run(s, k).w.net)
    ensures k > 0 && Run(s, k).c.phase != Closed ==> Waits(s.w.net, Run(s, k))
    decreases k
  {
    hide Dispatch, Valid, LeftOf, Waits;
    RunUnfolds(s, k);
    if k == 0 {
      LeftItself(s.w.net);
    } else {
      RunLeaves(s, k - 1);
      var m := Run(s, k - 1);
      DispatchLeaves(m, Run(s, k));
      LeftMore(s.w.net, m.w.net, Run(s, k).w.net);
      if Run(s, k).c.phase != Closed { WaitsBefore(s.w.net, m.w.net, Run(s, k)); }
    }
  }

  /**
   Every wake-up of every run, in any slot, ends in one of three ways: closed; reading, and then
   the last recv found nothing for now - never a peer that is gone; or sending, and then the
   last send left something to do - it never failed.
   */
  lemma WakeUpEnds(c: Conn, w: World, k: nat)
    requires k > 0
    ensures var s := Run(Start(c, w), k); s.c.phase == Closed || Waits(w.net, s)
  {
    RunLeaves(Start(c, w), k);
  }
}
