/**
 Why requests are refused. Every refusal of a run is explained by the bytes received until
 then: the request in front of the buffer is refused by the byte-stream reference with that
 very status, or it does not fit the buffer, or its body was cut off by the peer.
 */
module ConnCauses {
  import opened Bytes
  import opened Config
  import opened ChunkSpec
  import opened RequestLines
  import opened Headers
  import opened Requests
  import opened TransferEncoding
  import opened Admissions
  import opened Responses
  import opened Network
  import opened ConnSpec
  import opened Framing
  import opened ConnFraming
  import opened ConnRuns
  import opened ConnAnswers

  // ---------------------------------------------------------------- causes

  /** The request in front has a head that is admitted with chunked coding. */
  predicate ChunkedFront(buf: bytes) {
    var p := ParseRequest(buf, |buf|);
    p.Success? && var a := AdmissionOf(p.value.line, p.value.headers); a.Admit? && a.coding == TeChunked
  }

  /** What is buffered of a request explains that it is refused with this status. */
  predicate Explains(buf: bytes, status: ParseStatus, hungUp: bool) {
    match FrontOf(buf)
    case Whole(_) => false
    case Refused => RefusalOf(buf) == Some(status)
    case Short =>
      if !HasTerminator(buf, |buf|) then |buf| == MAX_REQUEST_LEN && status == HeaderTooLong
      else
        || (|buf| == MAX_REQUEST_LEN && status == if ChunkedFront(buf) then PayloadTooLarge else BadRequest)
        || (hungUp && status == BadRequest)
  }

  /** The last receive before `left` were to come found the peer gone or failed. */
  predicate HungUp(recvs: seq<RecvEvent>, left: nat) {
    left < |recvs| && recvs[|recvs| - left - 1] in {PeerClosed, IoFailed}
  }

  function Replies(answers: seq<Answer>): nat {
    if answers == [] then 0
    else Replies(answers[..|answers| - 1]) + if answers[|answers| - 1].ReplyTo? then 1 else 0
  }

  /** The `i`-th answer, a refusal, is explained by the buffer as it was when it was begun. */
  predicate ExplainedAt(recvs: seq<RecvEvent>, l: Log, i: nat)
    requires i < |l.answers|
  {
    var a, n := l.answers[i], Replies(l.answers[..i]);
    a.Refusal? ==>
      && n <= |l.built| && |Spans(l.built[..n])| <= a.at <= |l.received|
      && Explains(l.received[|Spans(l.built[..n])|..a.at], a.status, HungUp(recvs, a.left))
  }

  predicate AllExplained(recvs: seq<RecvEvent>, l: Log) {
    forall i: nat :: i < |l.answers| ==> ExplainedAt(recvs, l, i)
  }

  /** The receives to come are the last of the script. */
  predicate Uses(before: seq<RecvEvent>, after: seq<RecvEvent>) {
    |after| <= |before| && before[|before| - |after|..] == after
  }

  predicate Causes(recvs: seq<RecvEvent>, s: Sys) {
    && Uses(recvs, s.w.net.recvs) && Replies(s.l.answers) == |s.l.built|
    && AllExplained(recvs, s.l)
  }

  // ---------------------------------------------------------------- moves

  lemma UsesMore(a: seq<RecvEvent>, b: seq<RecvEvent>, c: seq<RecvEvent>)
    requires Uses(a, b) && Uses(b, c)
    ensures Uses(a, c)
  {
    assert a[|a| - |c|..] == a[|a| - |b|..][|b| - |c|..];
  }

  lemma UsesAll(a: seq<RecvEvent>)
    ensures Uses(a, a)
  {
  }

  lemma RecvUses(net: Net, room: nat)
    requires room > 0
    ensures Uses(net.recvs, Recv(net, room).1.recvs)
    ensures Recv(net, room).0 in {Eof, RecvError} ==> HungUp(net.recvs, |Recv(net, room).1.recvs|)
  {
  }

  /** A longer script of which `recvs` is what is left ends alike. */
  lemma HungUpBefore(before: seq<RecvEvent>, recvs: seq<RecvEvent>, left: nat)
    requires Uses(before, recvs) && HungUp(recvs, left)
    ensures HungUp(before, left)
  {
    assert before[|before| - |recvs|..][|recvs| - left - 1] == before[|before| - left - 1];
  }

  /** Answers stay explained as the log grows. */
  lemma ExplainedStays(recvs: seq<RecvEvent>, l: Log, m: Log, i: nat)
    requires i < |l.answers| && ExplainedAt(recvs, l, i)
    requires l.answers <= m.answers && l.built <= m.built && l.received <= m.received
    ensures ExplainedAt(recvs, m, i)
  {
    hide Explains, HungUp;
    var n := Replies(l.answers[..i]);
    assert m.answers[..i] == l.answers[..i];
    if l.answers[i].Refusal? {
      var from, at := |Spans(l.built[..n])|, l.answers[i].at;
      assert m.built[..n] == l.built[..n];
      assert m.received[from..at] == l.received[from..at];
    }
  }

  /** A step that answers nothing. */
  predicate Quiet(s: Sys, r: Sys) {
    r.l.answers == s.l.answers && r.l.built == s.l.built && s.l.received <= r.l.received
    && Uses(s.w.net.recvs, r.w.net.recvs)
  }

  lemma QuietKeeps(recvs: seq<RecvEvent>, s: Sys, r: Sys)
    requires Causes(recvs, s) && Quiet(s, r)
    ensures Causes(recvs, r)
  {
    hide ExplainedAt;
    UsesMore(recvs, s.w.net.recvs, r.w.net.recvs);
    forall i: nat | i < |r.l.answers| ensures ExplainedAt(recvs, r.l, i) {
      ExplainedStays(recvs, s.l, r.l, i);
    }
  }

  /** A refusal that the buffer explains. */
  lemma RefusalExplained(recvs: seq<RecvEvent>, s: Sys, status: ParseStatus)
    requires Causes(recvs, s) && Valid(s.c) && s.c.phase != Closed && Conserved(s)
    requires Explains(s.c.reqBuf, status, HungUp(recvs, |s.w.net.recvs|))
    ensures Causes(recvs, SendError(s, status))
  {
    hide Explains, ErrorBytes, HungUp;
    var r, k := SendError(s, status), |s.l.answers|;
    forall i: nat | i < |r.l.answers| ensures ExplainedAt(recvs, r.l, i) {
      if i < k {
        ExplainedStays(recvs, s.l, r.l, i);
      } else {
        assert r.l.answers[..k] == s.l.answers && s.l.built[..|s.l.built|] == s.l.built;
        assert s.l.received[|Spans(s.l.built)|..|s.l.received|] == s.c.reqBuf;
      }
    }
    assert r.l.answers[..k] == s.l.answers;
  }

  /** A reply to one more request. */
  lemma ReplyKeeps(recvs: seq<RecvEvent>, s: Sys, r: Sys, b: Built, nth: nat)
    requires Causes(recvs, s) && r.l.answers == s.l.answers + [ReplyTo(nth)] && r.l.built == s.l.built + [b]
    requires r.l.received == s.l.received && r.w.net == s.w.net
    ensures Causes(recvs, r)
  {
    hide Explains, HungUp;
    var k := |s.l.answers|;
    assert r.l.answers[..k] == s.l.answers;
    forall i: nat | i < |r.l.answers| ensures ExplainedAt(recvs, r.l, i) {
      if i < k { ExplainedStays(recvs, s.l, r.l, i); }
    }
  }

  // ---------------------------------------------------------------- reading the head

  lemma {:induction false} ReadHeadUses(s: Sys)
    requires In(s, ReadingRequest)
    ensures Uses(s.w.net.recvs, ReadHead(s).1.w.net.recvs)
    decreases |s.w.net.recvs|
  {
    hide FindTerminator, Uses, Recv, HasTerminator;
    UsesAll(s.w.net.recvs);
    if !HasTerminator(s.c.reqBuf, |s.c.reqBuf|) && |s.c.reqBuf| < MAX_REQUEST_LEN {
      var (r, net) := Recv(s.w.net, MAX_REQUEST_LEN - |s.c.reqBuf|);
      RecvUses(s.w.net, MAX_REQUEST_LEN - |s.c.reqBuf|);
      if r.Got? || r == Retry {
        var t := if r.Got? then Arrive(s, r.piece, net) else WithNet(s, net);
        ReadHeadUses(t);
        UsesMore(s.w.net.recvs, net.recvs, ReadHead(t).1.w.net.recvs);
      }
    }
  }

  lemma HeadArrivedCauses(recvs: seq<RecvEvent>, s: Sys)
    requires Causes(recvs, s) && Conserved(s) && In(s, ReadingRequest) && HasTerminator(s.c.reqBuf, |s.c.reqBuf|)
    ensures Causes(recvs, HeadArrived(s))
  {
    hide ParseRequest, FindTerminator, AdmissionOf, ErrorBytes, Causes, Conserved;
    match ParseRequest(s.c.reqBuf, |s.c.reqBuf|)
    case Failure(status) => RefusalExplained(recvs, s, status);
    case Success(head) =>
      AdmittedCauses(recvs, s, head.line, head.headers, AdmissionOf(head.line, head.headers));
  }

  lemma AdmittedCauses(recvs: seq<RecvEvent>, s: Sys, line: RequestLine, headers: seq<Header>, a: Admission)
    requires Causes(recvs, s) && Conserved(s) && In(s, ReadingRequest) && HasTerminator(s.c.reqBuf, |s.c.reqBuf|)
    requires a.Refuse? ==> FrontOf(s.c.reqBuf) == Refused && RefusalOf(s.c.reqBuf) == Some(a.status)
    ensures Causes(recvs, Admitted(s, line, headers, a))
  {
    hide FindTerminator, HeadEnd, HasTerminator, FrontOf, RefusalOf, ErrorBytes, StoreHead, StoreFraming, BodyDispatch;
    match a
    case Refuse(status) =>
      StoredCauses(recvs, s, line, headers);
      RefusalExplained(recvs, s.(c := StoreHead(s.c, line, headers)), status);
    case Admit(_, _, _) =>
      AdmittedQuiet(s, line, headers, a);
      QuietKeeps(recvs, s, Admitted(s, line, headers, a));
  }

  lemma StoredCauses(recvs: seq<RecvEvent>, s: Sys, line: RequestLine, headers: seq<Header>)
    requires Causes(recvs, s) && Conserved(s) && In(s, ReadingRequest) && HasTerminator(s.c.reqBuf, |s.c.reqBuf|)
    ensures var r := s.(c := StoreHead(s.c, line, headers));
      && Causes(recvs, r) && Conserved(r) && In(r, ReadingRequest) && r.c.reqBuf == s.c.reqBuf && r.w == s.w
  {
    hide AllExplained, Accounted;
  }

  lemma AdmittedQuiet(s: Sys, line: RequestLine, headers: seq<Header>, a: Admission)
    requires In(s, ReadingRequest) && HasTerminator(s.c.reqBuf, |s.c.reqBuf|) && a.Admit?
    ensures Quiet(s, Admitted(s, line, headers, a))
  {
    hide FindTerminator, HeadEnd, HasTerminator;
  }

  lemma HeaderCauses(recvs: seq<RecvEvent>, s: Sys)
    requires Causes(recvs, s) && FrameInv(s) && In(s, ReadingRequest)
    ensures Causes(recvs, StepHeader(s))
  {
    hide FindTerminator, ReadHead, HeadArrived, ErrorBytes, Causes, ParseRequest;
    var (status, m) := ReadHead(s);
    ReadHeadUnmoved(s);
    ReadHeadGains(s);
    ReadHeadUses(s);
    GainConserves(s, m);
    QuietKeeps(recvs, s, m);
    match status
    case HeadFound => HeadArrivedCauses(recvs, m);
    case HeadTooLarge =>
      TooLargeIsFull(s);
      RefusalExplained(recvs, m, HeaderTooLong);
    case HeadMore =>
    case _ => QuietKeeps(recvs, m, Close(m));
  }

  // ---------------------------------------------------------------- reading the body

  lemma {:induction false} ReadClUses(s: Sys)
    requires In(s, ReadingBodyCl)
    ensures var (status, m) := ReadCl(s);
      && Uses(s.w.net.recvs, m.w.net.recvs)
      && (status == BodyTooLarge ==> |m.c.reqBuf| >= MAX_REQUEST_LEN)
      && (status in {BodyClosed, BodyIoError} ==> HungUp(s.w.net.recvs, |m.w.net.recvs|))
    decreases |s.w.net.recvs|
  {
    UsesAll(s.w.net.recvs);
    if s.c.st.received < s.c.bodyLen && |s.c.reqBuf| < MAX_REQUEST_LEN {
      var (r, net) := Recv(s.w.net, MAX_REQUEST_LEN - |s.c.reqBuf|);
      RecvUses(s.w.net, MAX_REQUEST_LEN - |s.c.reqBuf|);
      ReadClTurn(s, r, net);
      hide HungUp, Uses, Recv, ReadCl, In;
      if r.Got? || r == Retry {
        var t := if r.Got? then ArriveCl(s, r.piece, net) else WithNet(s, net);
        ReadClUses(t);
        Onward(s.w.net.recvs, net.recvs, ReadCl(t).1.w.net.recvs);
      }
    }
  }

  /** One receive of a Content-Length body. */
  lemma ReadClTurn(s: Sys, r: RecvResult, net: Net)
    requires In(s, ReadingBodyCl) && s.c.st.received < s.c.bodyLen && |s.c.reqBuf| < MAX_REQUEST_LEN
    requires (r, net) == Recv(s.w.net, MAX_REQUEST_LEN - |s.c.reqBuf|)
    ensures r.Got? ==> In(ArriveCl(s, r.piece, net), ReadingBodyCl) && ReadCl(s) == ReadCl(ArriveCl(s, r.piece, net))
    ensures r == Retry ==> In(WithNet(s, net), ReadingBodyCl) && ReadCl(s) == ReadCl(WithNet(s, net))
    ensures !r.Got? && r != Retry ==>
              ReadCl(s) == (if r.Eof? then BodyClosed else if r.Again? then BodyMore else BodyIoError, WithNet(s, net))
  {
    ReadClStays(s, r, net);
    hide Recv, In, WithNet, ArriveCl;
  }

  lemma ReadClStays(s: Sys, r: RecvResult, net: Net)
    requires In(s, ReadingBodyCl) && s.c.st.received < s.c.bodyLen && |s.c.reqBuf| < MAX_REQUEST_LEN
    requires (r, net) == Recv(s.w.net, MAX_REQUEST_LEN - |s.c.reqBuf|)
    ensures r.Got? ==> In(ArriveCl(s, r.piece, net), ReadingBodyCl)
    ensures In(WithNet(s, net), ReadingBodyCl)
  {
    hide Recv;
  }

  lemma Onward(a: seq<RecvEvent>, b: seq<RecvEvent>, c: seq<RecvEvent>)
    requires Uses(a, b) && Uses(b, c)
    ensures Uses(a, c) && (HungUp(b, |c|) ==> HungUp(a, |c|))
  {
    UsesMore(a, b, c);
    if HungUp(b, |c|) { HungUpBefore(a, b, |c|); }
  }

  /** A refusal of what was read of a body, when there is less of it than was declared. */
  lemma BodyExplained(recvs: seq<RecvEvent>, before: seq<RecvEvent>, m: Sys, status: ParseStatus)
    requires Causes(recvs, m) && Conserved(m) && Valid(m.c) && m.c.phase != Closed && HeadKnown(m.c)
    requires FrontOf(m.c.reqBuf) == Short && Uses(recvs, before)
    requires || (HungUp(before, |m.w.net.recvs|) && status == BadRequest)
             || (&& |m.c.reqBuf| >= MAX_REQUEST_LEN
                 && status == if m.c.coding == TeChunked then PayloadTooLarge else BadRequest)
    ensures Causes(recvs, SendError(m, status))
  {
    hide FrontOf, ParseRequest, AdmissionOf, FindTerminator, Causes, Conserved, ErrorBytes, HungUp;
    if HungUp(before, |m.w.net.recvs|) { HungUpBefore(recvs, before, |m.w.net.recvs|); }
    assert ChunkedFront(m.c.reqBuf) <==> m.c.coding == TeChunked;
    RefusalExplained(recvs, m, status);
  }

  lemma AfterClCauses(recvs: seq<RecvEvent>, before: seq<RecvEvent>, status: BodyStatus, m: Sys)
    requires Causes(recvs, m) && In(m, ReadingBodyCl) && (status == BodyOk <==> m.c.st.received >= m.c.bodyLen)
    requires Conserved(m) && HeadKnown(m.c) && m.c.coding != TeChunked && Uses(recvs, before)
    requires status != BodyOk ==> FrontOf(m.c.reqBuf) == Short
    requires status == BodyTooLarge ==> |m.c.reqBuf| >= MAX_REQUEST_LEN
    requires status in {BodyClosed, BodyIoError} ==> HungUp(before, |m.w.net.recvs|)
    requires status != BodyBadData
    ensures Causes(recvs, AfterCl(status, m))
  {
    hide ErrorBytes, Causes, HeadKnown, Conserved, HungUp, FrontOf;
    match status
    case BodyOk => QuietKeeps(recvs, m, AfterCl(status, m));
    case BodyMore =>
    case _ => BodyExplained(recvs, before, m, BadRequest);
  }

  lemma BodyClCauses(recvs: seq<RecvEvent>, s: Sys)
    requires Causes(recvs, s) && FrameInv(s) && In(s, ReadingBodyCl)
    ensures Causes(recvs, StepBodyCl(s))
  {
    var (status, m) := ReadCl(s);
    ReadClUnmoved(s);
    ReadClGains(s);
    ReadClUses(s);
    ReadClKeeps(s);
    ClParts(m);
    UsedHere(recvs, s);
    hide ReadCl, AfterCl, Causes, HeadKnown, FrameInv, Conserved, HungUp, FrontOf, Valid;
    QuietKeeps(recvs, s, m);
    AfterClCauses(recvs, s.w.net.recvs, status, m);
  }

  lemma UsedHere(recvs: seq<RecvEvent>, s: Sys)
    requires Causes(recvs, s)
    ensures Uses(recvs, s.w.net.recvs)
  {
  }

  lemma ClParts(m: Sys)
    requires FrameInv(m) && In(m, ReadingBodyCl)
    ensures Conserved(m) && HeadKnown(m.c) && m.c.coding != TeChunked
    ensures m.c.st.received < m.c.bodyLen ==> FrontOf(m.c.reqBuf) == Short
  {
    if m.c.st.received < m.c.bodyLen { ShortBody(m.c); }
  }

  /** What a chunked read says of the raw body, and of the receive that ended it. */
  predicate ReadTells(status: BodyStatus, before: seq<RecvEvent>, m: Sys) {
    && m.c.bodyStart <= |m.c.reqBuf| && Uses(before, m.w.net.recvs)
    && var v := Decode(RawBody(m.c), MAX_DECHUNK_SIZE).verdict;
       match status
       case BodyOk => true
       case BodyMore => true
       case BodyBadData => v == Rejected
       case BodyTooLarge => v == TooLarge || (v == More && |m.c.reqBuf| >= MAX_REQUEST_LEN)
       case _ => v == More && HungUp(before, |m.w.net.recvs|)
  }

  lemma TellsBefore(status: BodyStatus, before: seq<RecvEvent>, recvs: seq<RecvEvent>, m: Sys)
    requires Uses(before, recvs) && ReadTells(status, recvs, m)
    ensures ReadTells(status, before, m)
  {
    hide Decode, HungUp;
    Onward(before, recvs, m.w.net.recvs);
  }

  /** The decoder has a verdict, or the buffer is full. */
  lemma ReadStops(s: Sys)
    requires In(s, ReadingBodyChunked) && DecoderKnown(s.c)
    requires DrainBody(s).verdict != More || |s.c.reqBuf| >= MAX_REQUEST_LEN
    ensures ReadTells(ReadChunked(s).0, s.w.net.recvs, ReadChunked(s).1)
  {
    InStep(s);
    hide Decode, DrainBody, DecoderKnown, HungUp;
  }

  /** The peer has nothing, is gone or fails. */
  lemma ReadBreaks(s: Sys, r: RecvResult, net: Net)
    requires In(s, ReadingBodyChunked) && DecoderKnown(s.c)
    requires DrainBody(s).verdict == More && |s.c.reqBuf| < MAX_REQUEST_LEN
    requires (r, net) == Recv(s.w.net, MAX_REQUEST_LEN - |s.c.reqBuf|) && !r.Got? && r != Retry
    ensures ReadTells(ReadChunked(s).0, s.w.net.recvs, ReadChunked(s).1)
  {
    InStep(s);
    RecvUses(s.w.net, MAX_REQUEST_LEN - |s.c.reqBuf|);
    DrewSame(s, DrainBody(s), net);
    ReadBroken(s, r, net);
    hide *;
    BrokenTells(r, s.w.net.recvs, RawBody(s.c), WithNet(Drew(s, DrainBody(s)), net));
  }

  lemma BrokenTells(r: RecvResult, before: seq<RecvEvent>, raw: bytes, m: Sys)
    requires m.c.bodyStart <= |m.c.reqBuf| && RawBody(m.c) == raw && Uses(before, m.w.net.recvs)
    requires Decode(raw, MAX_DECHUNK_SIZE).verdict == More && !r.Got? && r != Retry
    requires r in {Eof, RecvError} ==> HungUp(before, |m.w.net.recvs|)
    ensures ReadTells(if r.Eof? then BodyClosed else if r.Again? then BodyMore else BodyIoError, before, m)
  {
    hide Decode, HungUp, Uses, RawBody;
  }

  lemma ReadBroken(s: Sys, r: RecvResult, net: Net)
    requires In(s, ReadingBodyChunked)
    requires DrainBody(s).verdict == More && |s.c.reqBuf| < MAX_REQUEST_LEN
    requires (r, net) == Recv(s.w.net, MAX_REQUEST_LEN - |s.c.reqBuf|) && !r.Got? && r != Retry
    ensures ReadChunked(s) == (if r.Eof? then BodyClosed else if r.Again? then BodyMore else BodyIoError,
                               WithNet(Drew(s, DrainBody(s)), net))
  {
    hide DrainBody, Recv, Drew, WithNet, Bounded, ScratchFits;
  }

  lemma DrewSame(s: Sys, d: Drained, net: Net)
    requires s.c.bodyStart <= |s.c.reqBuf|
    ensures var m := WithNet(Drew(s, d), net);
      m.c.bodyStart <= |m.c.reqBuf| && RawBody(m.c) == RawBody(s.c) && m.c.reqBuf == s.c.reqBuf && m.w.net == net
  {
  }

  lemma InStep(s: Sys)
    requires In(s, ReadingBodyChunked) && DecoderKnown(s.c)
    ensures DrainBody(s).verdict == Decode(RawBody(s.c), MAX_DECHUNK_SIZE).verdict
  {
    hide Drain;
  }

  lemma {:induction false} ReadChunkedTells(s: Sys)
    requires In(s, ReadingBodyChunked) && DecoderKnown(s.c)
    ensures ReadTells(ReadChunked(s).0, s.w.net.recvs, ReadChunked(s).1)
    decreases |s.w.net.recvs|
  {
    hide Drain, HungUp, ReadTells, DecoderKnown;
    var (status, m) := ReadChunked(s);
    if DrainBody(s).verdict == More && |s.c.reqBuf| < MAX_REQUEST_LEN {
      var s' := Drew(s, DrainBody(s));
      var (r, net) := Recv(s.w.net, MAX_REQUEST_LEN - |s.c.reqBuf|);
      RecvUses(s.w.net, MAX_REQUEST_LEN - |s.c.reqBuf|);
      if r.Got? {
        DrewResumes(s, r.piece, net);
        ReadChunkedTells(Arrive(s', r.piece, net));
        TellsBefore(status, s.w.net.recvs, net.recvs, m);
      } else if r == Retry {
        DrewWaits(s, net);
        ReadChunkedTells(WithNet(s', net));
        TellsBefore(status, s.w.net.recvs, net.recvs, m);
      } else {
        ReadBreaks(s, r, net);
      }
    } else {
      ReadStops(s);
    }
  }

  /** What the raw body says is said of the request in front. */
  lemma ChunkedFronts(c: Conn)
    requires HeadKnown(c) && c.coding == TeChunked && c.bodyStart <= |c.reqBuf|
    ensures var v := Decode(RawBody(c), MAX_DECHUNK_SIZE).verdict;
      && (v == More ==> FrontOf(c.reqBuf) == Short)
      && (v == Rejected ==> FrontOf(c.reqBuf) == Refused && RefusalOf(c.reqBuf) == Some(BadRequest))
      && (v == TooLarge ==> FrontOf(c.reqBuf) == Refused && RefusalOf(c.reqBuf) == Some(PayloadTooLarge))
  {
    hide ParseRequest, AdmissionOf, FindTerminator, Drain;
  }

  lemma AfterChunkedCauses(recvs: seq<RecvEvent>, before: seq<RecvEvent>, status: BodyStatus, m: Sys)
    requires Causes(recvs, m) && In(m, ReadingBodyChunked) && Uses(recvs, before)
    requires Conserved(m) && HeadKnown(m.c) && m.c.coding == TeChunked && ReadTells(status, before, m)
    ensures Causes(recvs, AfterChunked(status, m))
  {
    ChunkedFronts(m.c);
    hide ErrorBytes, Causes, HeadKnown, Conserved, HungUp, FrontOf, RefusalOf, Decode;
    match status
    case BodyOk => QuietKeeps(recvs, m, AfterChunked(status, m));
    case BodyMore =>
    case BodyBadData => RefusalExplained(recvs, m, BadRequest);
    case BodyTooLarge =>
      if Decode(RawBody(m.c), MAX_DECHUNK_SIZE).verdict == TooLarge {
        RefusalExplained(recvs, m, PayloadTooLarge);
      } else {
        BodyExplained(recvs, before, m, PayloadTooLarge);
      }
    case _ => BodyExplained(recvs, before, m, BadRequest);
  }

  lemma BodyChunkedCauses(recvs: seq<RecvEvent>, s: Sys)
    requires Causes(recvs, s) && FrameInv(s) && In(s, ReadingBodyChunked)
    ensures Causes(recvs, StepBodyChunked(s))
  {
    var (status, m) := ReadChunked(s);
    ReadChunkedUnmoved(s);
    ReadChunkedGains(s);
    ReadChunkedTells(s);
    ReadChunkedKeeps(s);
    UsedHere(recvs, s);
    hide ReadChunked, AfterChunked, Causes, HeadIs, Conserved, Decode, DecoderKnown;
    QuietKeeps(recvs, s, m);
    AfterChunkedCauses(recvs, s.w.net.recvs, status, m);
  }

  // ---------------------------------------------------------------- the response

  lemma BuildCauses(recvs: seq<RecvEvent>, s: Sys)
    requires Causes(recvs, s) && In(s, Building)
    ensures Causes(recvs, StepBuild(s))
  {
    BuildEnters(s);
    BuildReceivesNothing(s);
    hide StepBuild, Causes, NextReply, Now, ReplyText, FramedBody, SpanLength, Valid, Sending;
    var r, k := StepBuild(s), |s.l.built|;
    ReplyKeeps(recvs, s, r, r.l.built[k], k + 1);
  }

  lemma BuildReceivesNothing(s: Sys)
    requires In(s, Building)
    ensures StepBuild(s).l.received == s.l.received && StepBuild(s).w.net == s.w.net
  {
    hide Text, Serialize;
  }

  lemma Step100Quiet(s: Sys)
    requires In(s, Sending100)
    ensures Quiet(s, Step100(s))
  {
  }

  lemma SendQuiet(s: Sys)
    requires In(s, SendingResponse)
    ensures Quiet(s, StepSend(s))
  {
  }

  lemma TurnQuiet(s: Sys)
    requires In(s, SendingStream)
    ensures Quiet(s, StreamTurn(s).1)
  {
    if SendsBuffer(s.c.st.stream) {
      StagedQuiet(s);
      hide StreamSend;
    } else {
      UsesAll(s.w.net.recvs);
      hide Uses;
    }
  }

  lemma StagedQuiet(s: Sys)
    requires In(s, SendingStream) && SendsBuffer(s.c.st.stream)
    ensures Quiet(s, StreamSend(s).1)
  {
    SomeQuiet(s, s.c.respBuf, s.c.st.sent);
    UsesAll(s.w.net.recvs);
    hide SendSome, Uses;
  }

  lemma SomeQuiet(s: Sys, text: bytes, sent: nat)
    requires sent < |text|
    ensures SendSome(s, text, sent).2.w.net.recvs == s.w.net.recvs
  {
  }

  lemma {:induction false} StreamQuiet(s: Sys)
    requires In(s, SendingStream)
    ensures Quiet(s, StepStream(s))
    decreases PullsLeft(s.c), StreamRank(s.c.st.stream)
  {
    TurnQuiet(s);
    var (goOn, t) := StreamTurn(s);
    hide StreamTurn;
    if goOn {
      StreamQuiet(t);
      UsesMore(s.w.net.recvs, t.w.net.recvs, StepStream(s).w.net.recvs);
    }
  }

  // ---------------------------------------------------------------- every run

  lemma StepCauses(recvs: seq<RecvEvent>, s: Sys)
    requires Causes(recvs, s) && FrameInv(s)
    ensures Causes(recvs, Step(s))
  {
    hide Causes, Conserved, PhaseKnown;
    hide StepHeader, Step100, StepBodyCl, StepBodyChunked, StepBuild, StepSend, StepStream;
    match s.c.phase
    case ReadingRequest => HeaderCauses(recvs, s);
    case Sending100 =>
      Step100Quiet(s);
      QuietKeeps(recvs, s, Step100(s));
    case ReadingBodyCl => BodyClCauses(recvs, s);
    case ReadingBodyChunked => BodyChunkedCauses(recvs, s);
    case Building => BuildCauses(recvs, s);
    case SendingResponse =>
      SendQuiet(s);
      QuietKeeps(recvs, s, StepSend(s));
    case SendingStream =>
      StreamQuiet(s);
      QuietKeeps(recvs, s, StepStream(s));
    case Closed =>
  }

  lemma {:induction false} DispatchCauses(recvs: seq<RecvEvent>, s: Sys, e: Sys)
    requires Causes(recvs, s) && FrameInv(s) && e == Dispatch(s)
    ensures Causes(recvs, e) && FrameInv(e)
    decreases MAX_REQUESTS - s.c.requests, Rank(s.c.phase)
  {
    hide Causes, Conserved, PhaseKnown, Step;
    StepCauses(recvs, s);
    StepKeeps(s);
    var r := Step(s);
    if r.c.phase != s.c.phase && r.c.phase != Closed { DispatchCauses(recvs, r, e); }
  }

  lemma {:induction false} RunCauses(recvs: seq<RecvEvent>, s: Sys, k: nat)
    requires Causes(recvs, s) && FrameInv(s)
    ensures Causes(recvs, Run(s, k)) && FrameInv(Run(s, k))
    decreases k
  {
    hide Causes, Conserved, PhaseKnown, Dispatch;
    if k > 0 {
      RunCauses(recvs, s, k - 1);
      DispatchCauses(recvs, Run(s, k - 1), Run(s, k));
    }
  }

  /**
   No request is refused without cause. In every run each refusal, with the bytes that were
   received until then and the requests built until then, is explained: the rest of those
   bytes begins with a request that the reference refuses with that status; or it is a head,
   a chunked body or another body that fills the buffer and is not whole, and the status is
   431, 413 or 400; or it is a body that the peer left or broke off, and the status is 400.
   */
  lemma RefusalsExplained(c: Conn, w: World, k: nat)
    requires c.bodyLen == 0
    ensures var s := Run(Start(c, w), k);
      && Replies(s.l.answers) == |s.l.built|
      && forall i: nat :: i < |s.l.answers| ==> ExplainedAt(w.net.recvs, s.l, i)
  {
    hide ExplainedAt, FrameInv, Run;
    ConnFraming.StartKeeps(c, w);
    RunCauses(w.net.recvs, Start(c, w), k);
  }
}
