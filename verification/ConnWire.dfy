/**
 What a connection puts on the wire over every run: whole messages in order, streamed
 responses as exactly the framed payloads of their producer, and producers that are pulled and
 cleaned up as their contract demands.

 As for received bytes, the lemmas go from single sends and pulls up to whole runs.
 */
module ConnWire {
  import opened Bytes
  import opened Config
  import opened ChunkSpec
  import opened ChunkFrame
  import opened RequestLines
  import opened Headers
  import opened Requests
  import opened Admissions
  import opened Responses
  import opened Network
  import opened ConnSpec

  // ---------------------------------------------------------------- messages

  function MessageText(m: Message): bytes {
    match m
    case Continue => CONTINUE_100
    case Buffered(text, junk) => junk + text
    case Streamed(head, payloads, _) => head + Frames(payloads) + LAST_FRAME
  }

  function Texts(messages: seq<Message>): bytes {
    if messages == [] then [] else Texts(messages[..|messages| - 1]) + MessageText(messages[|messages| - 1])
  }

  /** The responses among the messages: everything but the interim 100. */
  function ResponseCount(messages: seq<Message>): nat {
    if messages == [] then 0
    else ResponseCount(messages[..|messages| - 1]) + if messages[|messages| - 1].Continue? then 0 else 1
  }

  /** The pulls that yield these payloads. */
  function PullsOf(payloads: seq<bytes>): seq<PullEvent>
    requires forall i :: 0 <= i < |payloads| ==> 0 < |payloads[i]| <= STREAM_CHUNK_SIZE
  {
    seq(|payloads|, i requires 0 <= i < |payloads| => PullOk(payloads[i]))
  }

  predicate Pullable(payloads: seq<bytes>) {
    forall i :: 0 <= i < |payloads| ==> 0 < |payloads[i]| <= STREAM_CHUNK_SIZE
  }

  /** A completed stream carried everything its producer had, up to its end. */
  predicate CarriesAll(m: Message) {
    m.Streamed? ==> Pullable(m.payloads) && m.script == PullsOf(m.payloads)
  }

  predicate CompleteAt(messages: seq<Message>, i: nat)
    requires i < |messages|
  {
    CarriesAll(messages[i])
  }

  predicate AllComplete(messages: seq<Message>) {
    forall i: nat :: i < |messages| ==> CompleteAt(messages, i)
  }

  /** Messages sent, the responses among them, and the message under way. */
  predicate WireAccounted(wire: bytes, messages: seq<Message>, junk: bytes, current: bytes, responses: nat) {
    wire == Texts(messages) + junk + current && ResponseCount(messages) == responses && AllComplete(messages)
  }

  // ---------------------------------------------------------------- the stream under way

  /** What is staged in the response buffer and not yet accepted by send. */
  function Pending(stream: StreamPhase, respBuf: bytes, sent: nat): bytes {
    if SendsBuffer(stream) && sent <= |respBuf| then respBuf[sent..] else []
  }

  /** All that the stream has produced so far. */
  function Produced(stream: StreamPhase, head: bytes, payloads: seq<bytes>): bytes {
    head + Frames(payloads) + if stream in {StreamTrailer, StreamDone} then LAST_FRAME else []
  }

  /** What is on the wire and what is pending make up what has been produced. */
  predicate StreamKnown(stream: StreamPhase, respBuf: bytes, sent: nat, l: Log, rest: seq<PullEvent>) {
    && l.junk == []
    && l.current + Pending(stream, respBuf, sent) == Produced(stream, l.head, l.payloads)
    && Pullable(l.payloads) && l.script == PullsOf(l.payloads) + rest
    && (stream in {StreamTrailer, StreamDone} ==> rest == [])
  }

  predicate SendKnown(c: Conn, l: Log) {
    match c.phase
    case Sending100 =>
      l.junk == [] && c.st.StSend? && c.st.sent <= |CONTINUE_100| && l.current == CONTINUE_100[..c.st.sent]
    case SendingResponse => c.st == StSend(0) && l.current == []
    case SendingStream =>
      c.st.StStream? && c.producer.Some? && StreamKnown(c.st.stream, c.respBuf, c.st.sent, l, c.producer.value.script)
    case Closed => true
    case _ => l.junk == [] && l.current == []
  }

  // ---------------------------------------------------------------- producer lifecycle

  /** A stream is live until its pull reports the end or an error, and owed its cleanup until called. */
  datatype Life = Idle | Live(cleanup: bool) | Ended(cleanup: bool) | Broken

  function Next(l: Life, e: StreamEvent): Life {
    match (l, e)
    case (Idle, Installed(c)) => Live(c)
    case (Live(owed), Installed(c)) => if owed then Life.Broken else Live(c)
    case (Ended(owed), Installed(c)) => if owed then Life.Broken else Live(c)
    case (Live(c), Pulled(data)) => if data then Live(c) else Ended(c)
    case (Live(c), CleanedUp) => if c then Idle else Life.Broken
    case (Ended(c), CleanedUp) => if c then Idle else Life.Broken
    case _ => Life.Broken
  }

  function LifeOf(events: seq<StreamEvent>): Life {
    if events == [] then Idle else Next(LifeOf(events[..|events| - 1]), events[|events| - 1])
  }

  /** No cleanup is owed. */
  predicate Settled(l: Life) {
    l == Idle || l == Live(false) || l == Ended(false)
  }

  predicate LifeKnown(c: Conn, l: Log) {
    if c.phase == SendingStream && c.st.StStream? && c.producer.Some? then
      LifeOf(l.events) == if c.st.stream in {StreamTrailer, StreamDone} then Ended(c.producer.value.hasCleanup)
                          else Live(c.producer.value.hasCleanup)
    else Settled(LifeOf(l.events)) && c.producer == None
  }

  predicate WireInv(s: Sys) {
    && Valid(s.c)
    && WireAccounted(s.l.wire, s.l.messages, s.l.junk, s.l.current, s.c.requests)
    && SendKnown(s.c, s.l) && LifeKnown(s.c, s.l) && DueKnown(s.c, s.l)
  }

  /** The message under way is on the wire as a prefix of itself, even if it is never finished. */
  predicate DueKnown(c: Conn, l: Log) {
    && l.current <= l.due
    && (c.phase == Sending100 ==> l.due == CONTINUE_100)
    && (c.phase == SendingResponse ==> l.due == c.respBuf)
    && (c.phase == SendingStream ==> l.due == StreamText(l.head, l.script))
  }

  lemma LifeStep(events: seq<StreamEvent>, e: StreamEvent)
    ensures LifeOf(events + [e]) == Next(LifeOf(events), e)
  {
    assert (events + [e])[..|events|] == events;
  }

  // ---------------------------------------------------------------- moves on the wire

  lemma EmitAccounts(l: Log, piece: bytes, responses: nat)
    requires WireAccounted(l.wire, l.messages, l.junk, l.current, responses)
    ensures var m := Emitted(l, piece); WireAccounted(m.wire, m.messages, m.junk, m.current, responses)
  {
    assert Texts(l.messages) + l.junk + l.current + piece == Texts(l.messages) + l.junk + (l.current + piece);
  }

  lemma FinishAccounts(l: Log, m: Message, responses: nat)
    requires WireAccounted(l.wire, l.messages, l.junk, l.current, responses)
    requires MessageText(m) == l.junk + l.current && CarriesAll(m)
    ensures var f := Finished(l, m);
      WireAccounted(f.wire, f.messages, f.junk, f.current, responses + if m.Continue? then 0 else 1)
  {
    hide MessageText, CarriesAll;
    var ms := l.messages + [m];
    assert ms[..|l.messages|] == l.messages;
    assert Texts(ms) == Texts(l.messages) + MessageText(m);
    assert l.wire == Texts(ms) + [] + [];
    forall i: nat | i < |ms| ensures CompleteAt(ms, i) {
      if i < |l.messages| { assert CompleteAt(l.messages, i); }
    }
  }

  lemma RestartAccounts(l: Log, responses: nat)
    requires WireAccounted(l.wire, l.messages, l.junk, l.current, responses)
    ensures WireAccounted(l.wire, l.messages, l.junk + l.current, [], responses)
  {
    assert Texts(l.messages) + (l.junk + l.current) + [] == Texts(l.messages) + l.junk + l.current;
  }

  // ---------------------------------------------------------------- steps that read

  /** Nothing was sent and no producer was touched. */
  predicate Silent(s: Sys, r: Sys) {
    && r.c.requests == s.c.requests && r.c.producer == s.c.producer
    && r.l == s.l.(received := r.l.received, built := r.l.built, due := r.l.due, answers := r.l.answers)
  }

  lemma SilentKeeps(s: Sys, r: Sys)
    requires WireInv(s) && Silent(s, r) && Valid(r.c)
    requires s.c.phase !in {Sending100, SendingResponse, SendingStream, Closed}
    requires Quiet(s, r)
    ensures WireInv(r)
  {
    assert CONTINUE_100[..0] == [];
  }

  /** What a reading step may do to the connection, as far as the wire is concerned. */
  predicate Quiet(s: Sys, r: Sys) {
    && Silent(s, r)
    && r.c.phase != SendingStream && (r.c.phase in {Sending100, SendingResponse} ==> r.c.st == StSend(0))
    && (r.c.phase == Sending100 ==> r.l.due == CONTINUE_100)
        && (r.c.phase == SendingResponse ==> r.l.due == r.c.respBuf)
  }

  lemma {:induction false} ReadHeadSilent(s: Sys)
    requires In(s, ReadingRequest)
    ensures Silent(s, ReadHead(s).1)
    decreases |s.w.net.recvs|
  {
    if !HasTerminator(s.c.reqBuf, |s.c.reqBuf|) && |s.c.reqBuf| < MAX_REQUEST_LEN {
      match Recv(s.w.net, MAX_REQUEST_LEN - |s.c.reqBuf|)
      case (Got(piece), net) => ReadHeadSilent(Arrive(s, piece, net));
      case (Retry, net) => ReadHeadSilent(WithNet(s, net));
      case _ =>
    }
  }

  lemma {:induction false} ReadClSilent(s: Sys)
    requires In(s, ReadingBodyCl)
    ensures Silent(s, ReadCl(s).1)
    decreases |s.w.net.recvs|
  {
    if s.c.st.received < s.c.bodyLen && |s.c.reqBuf| < MAX_REQUEST_LEN {
      match Recv(s.w.net, MAX_REQUEST_LEN - |s.c.reqBuf|)
      case (Got(piece), net) => ReadClSilent(ArriveCl(s, piece, net));
      case (Retry, net) => ReadClSilent(WithNet(s, net));
      case _ =>
    }
  }

  lemma {:induction false} ReadChunkedSilent(s: Sys)
    requires In(s, ReadingBodyChunked)
    ensures Silent(s, ReadChunked(s).1)
    decreases |s.w.net.recvs|
  {
    var s' := Drew(s, DrainBody(s));
    if DrainBody(s).verdict == More && |s.c.reqBuf| < MAX_REQUEST_LEN {
      match Recv(s.w.net, MAX_REQUEST_LEN - |s.c.reqBuf|)
      case (Got(piece), net) => ReadChunkedSilent(Arrive(s', piece, net));
      case (Retry, net) => ReadChunkedSilent(WithNet(s', net));
      case _ =>
    }
  }

  predicate Clear(l: Log) { l.junk == [] && l.current == [] }

  lemma AdmittedQuiet(s: Sys, line: RequestLine, headers: seq<Header>, a: Admission)
    requires In(s, ReadingRequest) && HasTerminator(s.c.reqBuf, |s.c.reqBuf|) && Clear(s.l)
    ensures Quiet(s, Admitted(s, line, headers, a))
  {
  }

  lemma AfterHeadQuiet(status: HeadStatus, s: Sys)
    requires In(s, ReadingRequest) && (status == HeadFound ==> HasTerminator(s.c.reqBuf, |s.c.reqBuf|)) && Clear(s.l)
    ensures Quiet(s, AfterHead(status, s))
  {
    if status == HeadFound {
      var head := ParseRequest(s.c.reqBuf, |s.c.reqBuf|);
      if head.Success? {
        var (line, headers) := (head.value.line, head.value.headers);
        AdmittedQuiet(s, line, headers, AdmissionOf(line, headers));
      }
    }
  }

  lemma AfterClQuiet(status: BodyStatus, s: Sys)
    requires In(s, ReadingBodyCl) && (status == BodyOk ==> s.c.st.received >= s.c.bodyLen) && Clear(s.l)
    ensures Quiet(s, AfterCl(status, s))
  {
  }

  lemma AfterChunkedQuiet(status: BodyStatus, s: Sys)
    requires In(s, ReadingBodyChunked) && Clear(s.l)
    ensures Quiet(s, AfterChunked(status, s))
  {
  }

  lemma ReadingKeeps(s: Sys)
    requires WireInv(s) && s.c.phase in {ReadingRequest, ReadingBodyCl, ReadingBodyChunked}
    ensures WireInv(Step(s))
  {
    match s.c.phase
    case ReadingRequest =>
      ReadHeadSilent(s);
      AfterHeadQuiet(ReadHead(s).0, ReadHead(s).1);
      SilentKeeps(s, Step(s));
    case ReadingBodyCl =>
      ReadClSilent(s);
      AfterClQuiet(ReadCl(s).0, ReadCl(s).1);
      SilentKeeps(s, Step(s));
    case ReadingBodyChunked =>
      ReadChunkedSilent(s);
      AfterChunkedQuiet(ReadChunked(s).0, ReadChunked(s).1);
      SilentKeeps(s, Step(s));
  }

  // ---------------------------------------------------------------- steps that send

  lemma SomeAccounts(s: Sys, text: bytes, sent: nat, from: nat)
    requires from <= sent < |text| && s.l.current == text[from..sent]
    requires WireAccounted(s.l.wire, s.l.messages, s.l.junk, s.l.current, s.c.requests)
    ensures var (_, sent', r) := SendSome(s, text, sent);
      && WireAccounted(r.l.wire, r.l.messages, r.l.junk, r.l.current, s.c.requests)
      && r.l.current == text[from..sent'] && r.l.junk == s.l.junk && r.l.due == s.l.due
  {
    var (_, sent', r) := SendSome(s, text, sent);
    EmitAccounts(s.l, text[sent..sent'], s.c.requests);
    assert text[from..sent] + text[sent..sent'] == text[from..sent'];
  }

  lemma BodyDispatchKeeps(s: Sys)
    requires In(s, Sending100) && Clear(s.l) && s.c.producer == None && Settled(LifeOf(s.l.events))
    requires WireAccounted(s.l.wire, s.l.messages, s.l.junk, s.l.current, s.c.requests)
    ensures WireInv(BodyDispatch(s))
  {
  }

  lemma Step100Keeps(s: Sys)
    requires WireInv(s) && In(s, Sending100)
    ensures WireInv(Step100(s))
  {
    SomeAccounts(s, CONTINUE_100, s.c.st.sent, 0);
    var (status, sent, s') := SendSome(s, CONTINUE_100, s.c.st.sent);
    if status == SendOk {
      ContinueAccounts(s'.l, s.c.requests);
      BodyDispatchKeeps(s'.(l := Finished(s'.l, Continue)));
    }
  }

  lemma ContinueAccounts(l: Log, responses: nat)
    requires WireAccounted(l.wire, l.messages, l.junk, l.current, responses)
    requires l.junk == [] && l.current == CONTINUE_100[0..|CONTINUE_100|]
    ensures var f := Finished(l, Continue); WireAccounted(f.wire, f.messages, f.junk, f.current, responses)
  {
    assert [] + l.current == l.current;
    FinishAccounts(l, Continue, responses);
  }

  lemma StepSendKeeps(s: Sys)
    requires WireInv(s) && In(s, SendingResponse)
    ensures WireInv(StepSend(s))
  {
    hide WireAccounted, LifeOf, StreamText;
    assert s.c.respBuf[0..0] == [];
    SomeAccounts(s, s.c.respBuf, 0, 0);
    var (status, sent, s') := SendSome(s, s.c.respBuf, 0);
    if status == SendOk {
      assert s.c.respBuf[0..|s.c.respBuf|] == s.c.respBuf;
      FinishAccounts(s'.l, Buffered(s.c.respBuf, s'.l.junk), s.c.requests);
    } else if status == SendMore {
      RestartAccounts(s'.l, s.c.requests);
    }
  }

  // ---------------------------------------------------------------- building

  lemma ReleaseSettles(s: Sys)
    requires s.c.producer.Some?
        && LifeOf(s.l.events) in {Live(s.c.producer.value.hasCleanup), Ended(s.c.producer.value.hasCleanup)}
    ensures Settled(LifeOf(Release(s).l.events)) && Release(s).c.producer == None
  {
    LifeStep(s.l.events, CleanedUp);
  }

  lemma BuildPlainKeeps(s: Sys, r: Response, date: Date)
    requires In(s, Building) && Clear(s.l) && s.c.producer == None && Settled(LifeOf(s.l.events))
    requires WireAccounted(s.l.wire, s.l.messages, s.l.junk, s.l.current, s.c.requests)
    ensures WireInv(BuildPlain(s, r, date))
  {
  }

  lemma BuildStreamKeeps(s: Sys, r: Response, p: Producer, date: Date)
    requires WireInv(s) && In(s, Building)
    ensures WireInv(BuildStream(s, r, p, date))
  {
    var s1 := Install(s, p);
    LifeStep(s.l.events, Installed(p.hasCleanup));
    match Serialize(r, date, RESPONSE_BUFFER_SIZE, s.c.keepAlive)
    case None =>
      ReleaseSettles(s1);
      BuildPlainKeeps(Release(s1), ErrorResponse(ServerError), date);
    case Some(head) =>
      StreamStarts(head, p.script);
  }

  lemma StreamStarts(head: bytes, script: seq<PullEvent>)
    ensures [] + Pending(StreamHeader, head, 0) == Produced(StreamHeader, head, [])
    ensures Pullable([]) && PullsOf([]) + script == script
  {
    assert head + Frames([]) + [] == head;
    assert [] + head[0..] == head;
  }

  lemma StepBuildKeeps(s: Sys)
    requires WireInv(s) && In(s, Building)
    ensures WireInv(StepBuild(s))
  {
    var (reply, w1) := NextReply(s.w);
    var (date, w2) := Now(w1);
    match reply
    case Plain(_) => BuildPlainKeeps(s.(w := w2), reply.Wire(), date);
    case Stream(_, p) => BuildStreamKeeps(s.(w := w2), reply.Wire(), p, date);
  }

  // ---------------------------------------------------------------- the stream pump

  /** Sending moves bytes from pending to the wire. */
  lemma PendingMoves(stream: StreamPhase, respBuf: bytes, sent: nat, sent': nat, current: bytes)
    requires SendsBuffer(stream) && sent <= sent' <= |respBuf|
    ensures current + Pending(stream, respBuf, sent) ==
            (current + respBuf[sent..sent']) + Pending(stream, respBuf, sent')
  {
    assert respBuf[sent..] == respBuf[sent..sent'] + respBuf[sent'..];
    assert current + (respBuf[sent..sent'] + respBuf[sent'..]) == current + respBuf[sent..sent'] + respBuf[sent'..];
  }

  lemma {:induction false} DataOfPulls(payloads: seq<bytes>, rest: seq<PullEvent>)
    requires Pullable(payloads)
    ensures DataOf(PullsOf(payloads) + rest) == payloads + DataOf(rest)
    decreases |payloads|
  {
    if payloads == [] {
      assert PullsOf(payloads) + rest == rest;
    } else {
      var all := PullsOf(payloads) + rest;
      assert all[1..] == PullsOf(payloads[1..]) + rest;
      DataOfPulls(payloads[1..], rest);
      assert [payloads[0]] + (payloads[1..] + DataOf(rest)) == payloads + DataOf(rest);
    }
  }

  /** What a stream has produced is a prefix of all it is due. */
  lemma ProducedPrefix(stream: StreamPhase, respBuf: bytes, sent: nat, l: Log, rest: seq<PullEvent>)
    requires StreamKnown(stream, respBuf, sent, l, rest)
    ensures l.current + Pending(stream, respBuf, sent) <= StreamText(l.head, l.script)
  {
    DataOfPulls(l.payloads, rest);
    FramesAppend(l.payloads, DataOf(rest));
    PrefixJoin(l.head, Frames(l.payloads), Frames(DataOf(rest)));
    if stream in {StreamTrailer, StreamDone} { assert l.payloads + [] == l.payloads; }
  }

  lemma PrefixJoin(head: bytes, done: bytes, rest: bytes)
    ensures head + done + [] <= head + (done + rest) + LAST_FRAME
  {
    assert head + (done + rest) + LAST_FRAME == (head + done + []) + (rest + LAST_FRAME);
  }

  lemma PrefixOfPrefix(a: bytes, b: bytes, c: bytes)
    requires a + b <= c
    ensures a <= c
  {
    assert a == (a + b)[..|a|];
  }

  lemma MovesOn(stream: StreamPhase, respBuf: bytes, sent: nat, sent': nat, l: Log, rest: seq<PullEvent>)
    requires StreamKnown(stream, respBuf, sent, l, rest) && SendsBuffer(stream) && sent <= sent' <= |respBuf|
    ensures var m := Emitted(l, respBuf[sent..sent']);
      StreamKnown(stream, respBuf, sent', m, rest) && m.current <= StreamText(l.head, l.script)
  {
    PendingMoves(stream, respBuf, sent, sent', l.current);
    ProducedPrefix(stream, respBuf, sent, l, rest);
    PrefixOfPrefix(l.current + respBuf[sent..sent'], Pending(stream, respBuf, sent'), StreamText(l.head, l.script));
  }

  lemma StreamSendKeeps(s: Sys)
    requires WireInv(s) && In(s, SendingStream) && SendsBuffer(s.c.st.stream)
    ensures WireInv(StreamSend(s).1)
    ensures s.w.net.sends != [] && s.w.net.sends[0] in {SendPeerClosed, SendFailed} ==>
              StreamSend(s).1.c.phase == Closed && StreamSend(s).1.c.producer == None
  {
    var (status, sent', s') := SendSome(s, s.c.respBuf, s.c.st.sent);
    EmitAccounts(s.l, s.c.respBuf[s.c.st.sent..sent'], s.c.requests);
    MovesOn(s.c.st.stream, s.c.respBuf, s.c.st.sent, sent', s.l, s.c.producer.value.script);
    match status
    case SendOk =>
      assert s'.l.current + Pending(s.c.st.stream, s.c.respBuf, sent') == s'.l.current;
      assert Produced(AfterSend(s.c.st.stream), s.l.head, s.l.payloads)
          == Produced(s.c.st.stream, s.l.head, s.l.payloads);
      assert Pending(AfterSend(s.c.st.stream), s.c.respBuf, 0) == [];
      assert s'.l.current + [] == s'.l.current;
    case SendMore =>
    case _ => ReleaseSettles(s');
  }

  /** A payload more has been produced, and all of its frame is pending. */
  lemma PayloadPends(l: Log, data: StreamPayload, rest: seq<PullEvent>)
    requires StreamKnown(StreamPull, [], 0, l, [PullOk(data)] + rest)
    ensures var m := l.(payloads := l.payloads + [data]);
      StreamKnown(StreamDrain, Frame(data), 0, m, rest)
  {
    var ps := l.payloads + [data];
    FramesSnoc(l.payloads, data);
    assert l.current == l.head + Frames(l.payloads) by {
      assert l.current + [] == l.current && l.head + Frames(l.payloads) + [] == l.head + Frames(l.payloads);
    }
    assert Frame(data)[0..] == Frame(data);
    assert l.head + Frames(l.payloads) + Frame(data) == l.head + Frames(ps) + [];
    assert PullsOf(l.payloads) + ([PullOk(data)] + rest) == PullsOf(ps) + rest;
  }

  lemma EndPends(l: Log)
    requires StreamKnown(StreamPull, [], 0, l, [])
    ensures StreamKnown(StreamTrailer, LAST_FRAME, 0, l, [])
  {
    assert l.current + [] == l.current && l.head + Frames(l.payloads) + [] == l.head + Frames(l.payloads);
    assert LAST_FRAME[0..] == LAST_FRAME;
  }

  lemma StreamPullKeeps(s: Sys)
    requires WireInv(s) && In(s, SendingStream) && s.c.st.stream == StreamPull
    ensures WireInv(StreamPullOne(s).1)
  {
    hide WireAccounted, StreamText, PullsOf, Frames, Frame;
    var p := s.c.producer.value;
    LifeStep(s.l.events, Pulled(p.script != [] && p.script[0].PullOk?));
    assert StreamKnown(StreamPull, [], 0, s.l, p.script);
    if p.script == [] {
      EndPends(s.l);
    } else {
      assert p.script == [p.script[0]] + p.script[1..];
      match p.script[0]
      case PullFailed => ReleaseSettles(s.(l := s.l.(events := s.l.events + [Pulled(false)])));
      case PullOk(data) => PayloadPends(s.l, data, p.script[1..]);
    }
  }

  lemma StreamDoneKeeps(s: Sys)
    requires WireInv(s) && In(s, SendingStream) && s.c.st.stream == StreamDone
    ensures WireInv(StreamTurn(s).1)
  {
    hide StreamText, Frames, WireAccounted, Texts;
    var m := Streamed(s.l.head, s.l.payloads, s.l.script);
    assert s.l.current + [] == s.l.current && [] + s.l.current == s.l.current;
    assert PullsOf(s.l.payloads) + [] == PullsOf(s.l.payloads);
    FinishAccounts(s.l, m, s.c.requests);
    ReleaseSettles(s);
    ReleaseSettles(s.(l := Finished(s.l, m)));
  }

  lemma {:induction false} StepStreamKeeps(s: Sys)
    requires WireInv(s) && In(s, SendingStream)
    ensures WireInv(StepStream(s))
    decreases PullsLeft(s.c), StreamRank(s.c.st.stream)
  {
    if s.c.st.stream == StreamPull { StreamPullKeeps(s); }
    else if s.c.st.stream == StreamDone { StreamDoneKeeps(s); }
    else { StreamSendKeeps(s); }
    var (goOn, s') := StreamTurn(s);
    if goOn { StepStreamKeeps(s'); }
  }

  // ---------------------------------------------------------------- every run

  lemma StepKeeps(s: Sys)
    requires WireInv(s)
    ensures WireInv(Step(s))
  {
    match s.c.phase
    case ReadingRequest => ReadingKeeps(s);
    case Sending100 => Step100Keeps(s);
    case ReadingBodyCl => ReadingKeeps(s);
    case ReadingBodyChunked => ReadingKeeps(s);
    case Building => StepBuildKeeps(s);
    case SendingResponse => StepSendKeeps(s);
    case SendingStream => StepStreamKeeps(s);
    case Closed =>
  }

  lemma {:induction false} DispatchKeeps(s: Sys)
    requires WireInv(s)
    ensures WireInv(Dispatch(s))
    decreases MAX_REQUESTS - s.c.requests, Rank(s.c.phase)
  {
    StepKeeps(s);
    var s' := Step(s);
    if s'.c.phase != s.c.phase && s'.c.phase != Closed { DispatchKeeps(s'); }
  }

  lemma InvValid(s: Sys)
    requires WireInv(s)
    ensures Valid(s.c)
  {
  }

  lemma RunUnfolds(s: Sys, k: nat)
    requires Valid(s.c)
    ensures Run(s, k) == if k == 0 then s else Dispatch(Run(s, k - 1))
  {
    hide Dispatch, Valid;
  }

  lemma {:induction false} RunFrom(s: Sys, k: nat)
    requires WireInv(s)
    ensures Valid(s.c) && WireInv(Run(s, k))
    decreases k
  {
    hide *;
    InvValid(s);
    RunUnfolds(s, k);
    if k > 0 {
      RunFrom(s, k - 1);
      DispatchKeeps(Run(s, k - 1));
    }
  }

  lemma StartKeeps(c: Conn, w: World)
    requires c.producer == None
    ensures WireInv(Start(c, w))
  {
    assert Texts([]) + [] + [] == [];
  }

  /**
   The invariant holds after any number of wake-ups of a new connection, in any world and in
   any slot whose last connection left no producer.
   */
  lemma RunKeeps(c: Conn, w: World, k: nat)
    requires c.producer == None
    ensures WireInv(Run(Start(c, w), k))
  {
    StartKeeps(c, w);
    RunFrom(Start(c, w), k);
  }
}
