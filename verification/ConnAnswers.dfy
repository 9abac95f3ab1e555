/**
 What the responses say. In every run the final responses on the wire are, in order, what the
 handlers and the clock make them: the serialized reply to each request that was built, with
 the keep-alive that the request asked for, and the canned error for each one refused.
 */
module ConnAnswers {
  import opened Bytes
  import opened Config
  import opened ChunkSpec
  import opened ChunkFrame
  import opened RequestLines
  import opened Headers
  import opened Requests
  import opened Admissions
  import opened Responses
  import opened Network
  import opened ConnSpec
  import opened ConnWire
  import opened ConnPromises

  // ---------------------------------------------------------------- what is due

  /** What a connection starts from: replies and clock readings to come, and the flag left behind. */
  datatype Origin = Origin(replies: seq<Reply>, dates: seq<Date>, keepAlive: bool)

  function Left<T>(xs: seq<T>, n: nat): seq<T> { if n <= |xs| then xs[n..] else [] }

  function ReplyAt(o: Origin, i: nat): Reply {
    if i < |o.replies| then o.replies[i] else Plain(ErrorResponse(NotFound))
  }

  function DateAt(o: Origin, i: nat): Date { if i < |o.dates| then o.dates[i] else EPOCH }

  /** A reply as it goes on the wire; one whose head does not fit becomes a 500. */
  function ReplyText(reply: Reply, date: Date, keepAlive: bool): bytes {
    match reply
    case Plain(r) => Text(r, date, keepAlive)
    case Stream(_, p) =>
      match Serialize(reply.Wire(), date, RESPONSE_BUFFER_SIZE, keepAlive)
      case Some(head) => StreamText(head, p.script)
      case None => Text(ErrorResponse(ServerError), date, keepAlive)
  }

  /** The keep-alive of the `i`-th final response when it answers request `b`. */
  function KeepAliveOf(o: Origin, i: nat, b: Built): bool {
    (i == 0 && o.keepAlive) || WantsKeepAlive(b.line, b.headers)
  }

  /** What the `i`-th final response has to be, byte for byte. */
  function DueAt(o: Origin, built: seq<Built>, answers: seq<Answer>, i: nat): bytes
    requires i < |answers|
  {
    match answers[i]
    case Refusal(status, _, _) => ErrorBytes(status, DateAt(o, i))
    case ReplyTo(nth) =>
      if 0 < nth <= |built| then ReplyText(ReplyAt(o, nth - 1), DateAt(o, i), KeepAliveOf(o, i, built[nth - 1])) else []
  }

  /** The requests built are answered in order, each once: the k-th reply is to the k-th request. */
  predicate Numbered(answers: seq<Answer>, n: nat)
    decreases |answers|
  {
    if answers == [] then n == 0
    else
      match answers[|answers| - 1]
      case Refusal(_, _, _) => Numbered(answers[..|answers| - 1], n)
      case ReplyTo(nth) => nth == n && n > 0 && Numbered(answers[..|answers| - 1], n - 1)
  }

  /** A final response without what restarted sends repeated; nothing for the interim one. */
  function FinalOf(m: Message): seq<bytes> {
    if m.Continue? then [] else if m.Buffered? then [m.text] else [MessageText(m)]
  }

  function Finals(messages: seq<Message>): seq<bytes> {
    if messages == [] then [] else Finals(messages[..|messages| - 1]) + FinalOf(messages[|messages| - 1])
  }

  predicate RecordedAt(o: Origin, built: seq<Built>, answers: seq<Answer>, finals: seq<bytes>, i: nat)
    requires i < |finals| <= |answers|
  {
    finals[i] == DueAt(o, built, answers, i)
  }

  predicate Recorded(o: Origin, built: seq<Built>, answers: seq<Answer>, finals: seq<bytes>) {
    |finals| <= |answers| && forall i: nat :: i < |finals| ==> RecordedAt(o, built, answers, finals, i)
  }

  // ---------------------------------------------------------------- the invariant

  /** Replies and dates are used up one by one, and the finished responses are what was due. */
  predicate Books(o: Origin, s: Sys) {
    && s.w.replies == Left(o.replies, |s.l.built|) && s.w.dates == Left(o.dates, |s.l.answers|)
    && Numbered(s.l.answers, |s.l.built|)
    && |Finals(s.l.messages)| == s.c.requests
    && Recorded(o, s.l.built, s.l.answers, Finals(s.l.messages))
  }

  predicate Sending(p: ConnPhase) { p.SendingResponse? || p.SendingStream? }

  /** One response is under way while sending, none before; a close may cut one short. */
  predicate Open(o: Origin, s: Sys) {
    var n := |s.l.answers|;
    if Sending(s.c.phase) then n == s.c.requests + 1 && s.l.due == DueAt(o, s.l.built, s.l.answers, n - 1)
    else if s.c.phase == Closed then s.c.requests <= n <= s.c.requests + 1
    else n == s.c.requests
  }

  /** The flag left behind counts for the first request only. */
  predicate FlagKnown(o: Origin, s: Sys) {
    var left := s.l.answers == [] && o.keepAlive;
    match s.c.phase
    case ReadingRequest => s.c.keepAlive == left
    case Sending100 => s.c.keepAlive == (left || WantsKeepAlive(s.c.line, s.c.headers))
    case ReadingBodyCl => s.c.keepAlive == (left || WantsKeepAlive(s.c.line, s.c.headers))
    case ReadingBodyChunked => s.c.keepAlive == (left || WantsKeepAlive(s.c.line, s.c.headers))
    case Building => s.c.keepAlive == (left || WantsKeepAlive(s.c.line, s.c.headers))
    case _ => true
  }

  predicate AnswerInv(o: Origin, s: Sys) {
    Valid(s.c) && Books(o, s) && Open(o, s) && FlagKnown(o, s)
  }

  // ---------------------------------------------------------------- the ledger grows

  lemma {:induction false} NumberedBounds(answers: seq<Answer>, n: nat, i: nat)
    requires Numbered(answers, n) && i < |answers|
    ensures answers[i].ReplyTo? ==> 0 < answers[i].nth <= n
    decreases |answers|
  {
    var init := answers[..|answers| - 1];
    if i < |init| {
      assert init[i] == answers[i];
      if answers[|answers| - 1].Refusal? { NumberedBounds(init, n, i); } else { NumberedBounds(init, n - 1, i); }
    }
  }

  lemma DueStays(o: Origin, built: seq<Built>, answers: seq<Answer>, moreBuilt: seq<Built>, a: Answer, i: nat)
    requires Numbered(answers, |built|) && i < |answers|
    ensures DueAt(o, built + moreBuilt, answers + [a], i) == DueAt(o, built, answers, i)
  {
    hide Numbered, ReplyText, ErrorBytes, KeepAliveOf, ReplyAt, DateAt;
    NumberedBounds(answers, |built|, i);
    assert (answers + [a])[i] == answers[i];
    if answers[i].ReplyTo? { assert (built + moreBuilt)[answers[i].nth - 1] == built[answers[i].nth - 1]; }
  }

  /** A response begins: what is finished stays recorded. */
  lemma RecordedStays(o: Origin, built: seq<Built>, answers: seq<Answer>, finals: seq<bytes>,
                      moreBuilt: seq<Built>, a: Answer)
    requires Numbered(answers, |built|) && Recorded(o, built, answers, finals)
    ensures Recorded(o, built + moreBuilt, answers + [a], finals)
  {
    hide Numbered, DueAt;
    forall i: nat | i < |finals| ensures RecordedAt(o, built + moreBuilt, answers + [a], finals, i) {
      assert RecordedAt(o, built, answers, finals, i);
      DueStays(o, built, answers, moreBuilt, a, i);
    }
  }

  /** A response is finished. */
  lemma RecordedMore(o: Origin, built: seq<Built>, answers: seq<Answer>, finals: seq<bytes>, text: bytes)
    requires Recorded(o, built, answers, finals) && |finals| < |answers| && text == DueAt(o, built, answers, |finals|)
    ensures Recorded(o, built, answers, finals + [text])
  {
    hide DueAt;
    forall i: nat | i < |finals + [text]| ensures RecordedAt(o, built, answers, finals + [text], i) {
      if i < |finals| { assert RecordedAt(o, built, answers, finals, i); }
    }
  }

  lemma FinalsMore(messages: seq<Message>, m: Message)
    ensures Finals(messages + [m]) == Finals(messages) + FinalOf(m)
  {
    assert (messages + [m])[..|messages|] == messages;
  }

  lemma NumberedMore(answers: seq<Answer>, n: nat, status: ParseStatus, at: nat, left: nat)
    requires Numbered(answers, n)
    ensures Numbered(answers + [Refusal(status, at, left)], n) && Numbered(answers + [ReplyTo(n + 1)], n + 1)
  {
    assert (answers + [Refusal(status, at, left)])[..|answers|] == answers;
    assert (answers + [ReplyTo(n + 1)])[..|answers|] == answers;
  }

  lemma NowIs(o: Origin, w: World, n: nat)
    requires w.dates == Left(o.dates, n)
    ensures Now(w).0 == DateAt(o, n) && Now(w).1 == w.(dates := Left(o.dates, n + 1))
  {
  }

  lemma NextIs(o: Origin, w: World, n: nat)
    requires w.replies == Left(o.replies, n)
    ensures NextReply(w).0 == ReplyAt(o, n) && NextReply(w).1 == w.(replies := Left(o.replies, n + 1))
  {
  }

  // ---------------------------------------------------------------- steps that read

  /** Nothing in the books has moved. */
  predicate Unmoved(s: Sys, r: Sys) {
    && r.w.replies == s.w.replies && r.w.dates == s.w.dates && r.c.requests == s.c.requests
    && r.l.built == s.l.built && r.l.answers == s.l.answers && r.l.messages == s.l.messages
  }

  lemma {:induction false} ReadHeadUnmoved(s: Sys)
    requires In(s, ReadingRequest)
    ensures Unmoved(s, ReadHead(s).1)
    decreases |s.w.net.recvs|
  {
    hide FindTerminator;
    if !HasTerminator(s.c.reqBuf, |s.c.reqBuf|) && |s.c.reqBuf| < MAX_REQUEST_LEN {
      match Recv(s.w.net, MAX_REQUEST_LEN - |s.c.reqBuf|)
      case (Got(piece), net) => ReadHeadUnmoved(Arrive(s, piece, net));
      case (Retry, net) => ReadHeadUnmoved(WithNet(s, net));
      case _ =>
    }
  }

  lemma {:induction false} ReadClUnmoved(s: Sys)
    requires In(s, ReadingBodyCl)
    ensures Unmoved(s, ReadCl(s).1)
    decreases |s.w.net.recvs|
  {
    if s.c.st.received < s.c.bodyLen && |s.c.reqBuf| < MAX_REQUEST_LEN {
      match Recv(s.w.net, MAX_REQUEST_LEN - |s.c.reqBuf|)
      case (Got(piece), net) => ReadClUnmoved(ArriveCl(s, piece, net));
      case (Retry, net) => ReadClUnmoved(WithNet(s, net));
      case _ =>
    }
  }

  lemma {:induction false} ReadChunkedUnmoved(s: Sys)
    requires In(s, ReadingBodyChunked)
    ensures Unmoved(s, ReadChunked(s).1)
    decreases |s.w.net.recvs|
  {
    var s' := Drew(s, DrainBody(s));
    if DrainBody(s).verdict == More && |s.c.reqBuf| < MAX_REQUEST_LEN {
      match Recv(s.w.net, MAX_REQUEST_LEN - |s.c.reqBuf|)
      case (Got(piece), net) => ReadChunkedUnmoved(Arrive(s', piece, net));
      case (Retry, net) => ReadChunkedUnmoved(WithNet(s', net));
      case _ =>
    }
  }

  lemma UnmovedKeeps(o: Origin, s: Sys, r: Sys)
    requires AnswerInv(o, s) && Unmoved(s, r) && Valid(r.c) && !Sending(s.c.phase) && s.c.phase != Closed
    requires !Sending(r.c.phase) && FlagKnown(o, r)
    ensures AnswerInv(o, r)
  {
    hide Numbered, Recorded, Finals;
  }

  /** A refusal goes on its way. */
  lemma SendErrorKeeps(o: Origin, s: Sys, status: ParseStatus)
    requires Valid(s.c) && s.c.phase != Closed && Books(o, s) && |s.l.answers| == s.c.requests
    ensures AnswerInv(o, SendError(s, status))
  {
    hide Numbered, Recorded, Finals, ErrorBytes;
    var answers := s.l.answers;
    NowIs(o, s.w, |answers|);
    NumberedMore(answers, |s.l.built|, status, |s.l.received|, |s.w.net.recvs|);
    RecordedStays(o, s.l.built, answers, Finals(s.l.messages), [], Refusal(status, |s.l.received|, |s.w.net.recvs|));
    assert s.l.built + [] == s.l.built;
  }

  lemma HeadArrivedKeeps(o: Origin, s: Sys)
    requires AnswerInv(o, s) && In(s, ReadingRequest) && HasTerminator(s.c.reqBuf, |s.c.reqBuf|)
    ensures AnswerInv(o, HeadArrived(s))
  {
    hide ParseRequest, FindTerminator, AdmissionOf, Admitted, SendError, Numbered, Recorded, Finals;
    match ParseRequest(s.c.reqBuf, |s.c.reqBuf|)
    case Failure(status) => SendErrorKeeps(o, s, status);
    case Success(head) => AdmittedKeeps(o, s, head.line, head.headers, AdmissionOf(head.line, head.headers));
  }

  lemma AdmittedKeeps(o: Origin, s: Sys, line: RequestLine, headers: seq<Header>, a: Admission)
    requires AnswerInv(o, s) && In(s, ReadingRequest) && HasTerminator(s.c.reqBuf, |s.c.reqBuf|)
    ensures AnswerInv(o, Admitted(s, line, headers, a))
  {
    hide FindTerminator, HeadEnd, HasTerminator, WantsKeepAlive, CodingSeen, SendError, Numbered, Recorded, Finals;
    match a
    case Refuse(status) => SendErrorKeeps(o, s.(c := StoreHead(s.c, line, headers)), status);
    case Admit(_, _, _) => UnmovedKeeps(o, s, Admitted(s, line, headers, a));
  }

  lemma AfterHeadKeeps(o: Origin, status: HeadStatus, s: Sys)
    requires AnswerInv(o, s) && In(s, ReadingRequest)
    requires status == HeadFound ==> HasTerminator(s.c.reqBuf, |s.c.reqBuf|)
    ensures AnswerInv(o, AfterHead(status, s))
  {
    hide FindTerminator, HeadArrived, SendError, Numbered, Recorded, Finals;
    match status
    case HeadFound => HeadArrivedKeeps(o, s);
    case HeadTooLarge => SendErrorKeeps(o, s, HeaderTooLong);
    case _ =>
  }

  lemma AfterClKeeps(o: Origin, status: BodyStatus, s: Sys)
    requires AnswerInv(o, s) && In(s, ReadingBodyCl) && (status == BodyOk ==> s.c.st.received >= s.c.bodyLen)
    ensures AnswerInv(o, AfterCl(status, s))
  {
    hide SendError, Numbered, Recorded, Finals, WantsKeepAlive;
    match status
    case BodyOk => UnmovedKeeps(o, s, AfterCl(status, s));
    case BodyMore =>
    case _ => SendErrorKeeps(o, s, BadRequest);
  }

  lemma AfterChunkedKeeps(o: Origin, status: BodyStatus, s: Sys)
    requires AnswerInv(o, s) && In(s, ReadingBodyChunked)
    ensures AnswerInv(o, AfterChunked(status, s))
  {
    hide SendError, Numbered, Recorded, Finals, WantsKeepAlive;
    match status
    case BodyOk => UnmovedKeeps(o, s, AfterChunked(status, s));
    case BodyMore =>
    case BodyTooLarge => SendErrorKeeps(o, s, PayloadTooLarge);
    case _ => SendErrorKeeps(o, s, BadRequest);
  }

  lemma StepHeaderKeeps(o: Origin, s: Sys)
    requires AnswerInv(o, s) && In(s, ReadingRequest)
    ensures AnswerInv(o, StepHeader(s))
  {
    hide FindTerminator, AfterHead, ReadHead, Numbered, Recorded, Finals;
    ReadHeadUnmoved(s);
    UnmovedKeeps(o, s, ReadHead(s).1);
    AfterHeadKeeps(o, ReadHead(s).0, ReadHead(s).1);
  }

  lemma StepBodyClKeeps(o: Origin, s: Sys)
    requires AnswerInv(o, s) && In(s, ReadingBodyCl)
    ensures AnswerInv(o, StepBodyCl(s))
  {
    hide AfterCl, ReadCl, Numbered, Recorded, Finals, WantsKeepAlive;
    ReadClUnmoved(s);
    UnmovedKeeps(o, s, ReadCl(s).1);
    AfterClKeeps(o, ReadCl(s).0, ReadCl(s).1);
  }

  lemma StepBodyChunkedKeeps(o: Origin, s: Sys)
    requires AnswerInv(o, s) && In(s, ReadingBodyChunked)
    ensures AnswerInv(o, StepBodyChunked(s))
  {
    hide AfterChunked, ReadChunked, Numbered, Recorded, Finals, WantsKeepAlive;
    ReadChunkedUnmoved(s);
    UnmovedKeeps(o, s, ReadChunked(s).1);
    AfterChunkedKeeps(o, ReadChunked(s).0, ReadChunked(s).1);
  }

  // ---------------------------------------------------------------- building

  /** A reply goes on its way: one more request built, one more answer begun. */
  lemma ReplyBegins(o: Origin, s: Sys, r: Sys, b: Built)
    requires Books(o, s) && |s.l.answers| == s.c.requests
    requires r.w.replies == Left(o.replies, |s.l.built| + 1) && r.w.dates == Left(o.dates, |s.l.answers| + 1)
    requires r.c.requests == s.c.requests && r.l.messages == s.l.messages
    requires r.l.built == s.l.built + [b] && r.l.answers == s.l.answers + [ReplyTo(|s.l.built| + 1)]
    requires Sending(r.c.phase) && Valid(r.c)
    requires var i := |s.l.answers|;
      r.l.due == ReplyText(ReplyAt(o, |s.l.built|), DateAt(o, i), KeepAliveOf(o, i, b))
    ensures AnswerInv(o, r)
  {
    hide Numbered, Recorded, Finals, ReplyText, WantsKeepAlive;
    NumberedMore(s.l.answers, |s.l.built|, BadRequest, 0, 0);
    RecordedStays(o, s.l.built, s.l.answers, Finals(s.l.messages), [b], ReplyTo(|s.l.built| + 1));
    assert r.l.built[|s.l.built|] == b;
  }

  /** What building a response enters into the books. */
  lemma BuildEnters(s: Sys)
    requires In(s, Building)
    ensures var n := SpanLength(s.c);
      var r, (reply, w1) := StepBuild(s), NextReply(s.w);
      var (date, w2) := Now(w1);
      && Sending(r.c.phase) && r.c.requests == s.c.requests && r.w == w2 && r.l.messages == s.l.messages
      && r.l.built == s.l.built + [Built(s.c.line, s.c.headers, s.c.reqBuf[..n], FramedBody(s.c))]
      && r.l.answers == s.l.answers + [ReplyTo(|s.l.built| + 1)]
      && r.l.due == ReplyText(reply, date, s.c.keepAlive)
  {
    hide Text, Serialize, StreamText;
  }

  lemma BuildKeeps(o: Origin, s: Sys)
    requires AnswerInv(o, s) && In(s, Building)
    ensures AnswerInv(o, StepBuild(s))
  {
    hide Numbered, Recorded, Finals, WantsKeepAlive, StepBuild, ReplyText;
    NextIs(o, s.w, |s.l.built|);
    NowIs(o, NextReply(s.w).1, |s.l.answers|);
    BuildEnters(s);
    var n := SpanLength(s.c);
    ReplyBegins(o, s, StepBuild(s), Built(s.c.line, s.c.headers, s.c.reqBuf[..n], FramedBody(s.c)));
  }

  // ---------------------------------------------------------------- sending

  lemma Step100Keeps(o: Origin, s: Sys)
    requires AnswerInv(o, s) && In(s, Sending100)
    ensures AnswerInv(o, Step100(s))
  {
    hide Numbered, Recorded, Finals, WantsKeepAlive;
    var (status, _, s') := SendSome(s, CONTINUE_100, s.c.st.sent);
    FinalsMore(s.l.messages, Continue);
    assert Finals(s.l.messages) + FinalOf(Continue) == Finals(s.l.messages);
  }

  /** A response is finished and counted. */
  lemma FinishKeeps(o: Origin, s: Sys, m: Message)
    requires Bounded(s.c) && s.c.phase != Closed && Books(o, s) && |s.l.answers| == s.c.requests + 1
    requires !m.Continue?
    requires Finals(s.l.messages + [m]) ==
             Finals(s.l.messages) + [DueAt(o, s.l.built, s.l.answers, s.c.requests)]
    ensures AnswerInv(o, NextRequest(s.(l := Finished(s.l, m))))
  {
    hide Numbered, Recorded, Finals, DueAt;
    RecordedMore(o, s.l.built, s.l.answers, Finals(s.l.messages), DueAt(o, s.l.built, s.l.answers, s.c.requests));
  }

  lemma StepSendKeeps(o: Origin, s: Sys)
    requires AnswerInv(o, s) && WireInv(s) && In(s, SendingResponse)
    ensures AnswerInv(o, StepSend(s))
  {
    hide Numbered, Recorded, Finals, DueAt, WireAccounted, LifeKnown, NextRequest;
    var (status, _, s') := SendSome(s, s.c.respBuf, s.c.st.sent);
    if status == SendOk {
      var m := Buffered(s.c.respBuf, s'.l.junk);
      FinalsMore(s.l.messages, m);
      FinishKeeps(o, s', m);
    }
  }

  lemma StreamTurnKeeps(o: Origin, s: Sys)
    requires AnswerInv(o, s) && WireInv(s) && In(s, SendingStream)
    ensures AnswerInv(o, StreamTurn(s).1)
  {
    hide Numbered, Recorded, Finals, DueAt, WireAccounted, LifeKnown, StreamText, Frames, Frame, NextRequest;
    if s.c.st.stream == StreamDone {
      var m := Streamed(s.l.head, s.l.payloads, s.l.script);
      FinalsMore(s.l.messages, m);
      StreamIsDue(s);
      FinishKeeps(o, s, m);
      ReleaseLater(s, m);
      ReleasedKeeps(o, NextRequest(s.(l := Finished(s.l, m))), StreamTurn(s).1);
    }
  }

  lemma StreamIsDue(s: Sys)
    requires WireInv(s) && In(s, SendingStream) && s.c.st.stream == StreamDone
    ensures MessageText(Streamed(s.l.head, s.l.payloads, s.l.script)) == s.l.due
  {
    assert PullsOf(s.l.payloads) + [] == PullsOf(s.l.payloads);
    CompletedText(Streamed(s.l.head, s.l.payloads, s.l.script));
  }

  /** Releasing the producer before or after the response is counted makes no difference to the books. */
  lemma ReleaseLater(s: Sys, m: Message)
    requires In(s, SendingStream)
    ensures var r, q := NextRequest(s.(l := Finished(s.l, m))), NextRequest(Release(s.(l := Finished(s.l, m))));
      Unmoved(r, q) && q.c.phase == r.c.phase && q.c.keepAlive == r.c.keepAlive && q.l.due == r.l.due
  {
  }

  lemma ReleasedKeeps(o: Origin, r: Sys, q: Sys)
    requires AnswerInv(o, r) && Unmoved(r, q) && Valid(q.c) && r.c.phase in {Closed, ReadingRequest}
    requires q.c.phase == r.c.phase && q.c.keepAlive == r.c.keepAlive
    ensures AnswerInv(o, q)
  {
  }

  lemma {:induction false} StepStreamKeeps(o: Origin, s: Sys)
    requires AnswerInv(o, s) && WireInv(s) && In(s, SendingStream)
    ensures AnswerInv(o, StepStream(s))
    decreases PullsLeft(s.c), StreamRank(s.c.st.stream)
  {
    hide AnswerInv, WireInv, StreamTurn;
    StreamTurnKeeps(o, s);
    TurnKeepsWire(s);
    var (goOn, s') := StreamTurn(s);
    if goOn { StepStreamKeeps(o, s'); }
  }

  lemma TurnKeepsWire(s: Sys)
    requires WireInv(s) && In(s, SendingStream)
    ensures WireInv(StreamTurn(s).1)
  {
    hide WireInv;
    if s.c.st.stream == StreamPull { StreamPullKeeps(s); }
    else if s.c.st.stream == StreamDone { StreamDoneKeeps(s); }
    else { StreamSendKeeps(s); }
  }

  // ---------------------------------------------------------------- every run

  lemma StepAnswers(o: Origin, s: Sys)
    requires AnswerInv(o, s) && WireInv(s)
    ensures AnswerInv(o, Step(s))
  {
    hide AnswerInv, WireInv, StepHeader, Step100, StepBodyCl, StepBodyChunked, StepBuild, StepSend, StepStream;
    AnswerValid(o, s);
    match s.c.phase
    case ReadingRequest => StepHeaderKeeps(o, s);
    case Sending100 => Step100Keeps(o, s);
    case ReadingBodyCl => StepBodyClKeeps(o, s);
    case ReadingBodyChunked => StepBodyChunkedKeeps(o, s);
    case Building => BuildKeeps(o, s);
    case SendingResponse => StepSendKeeps(o, s);
    case SendingStream => StepStreamKeeps(o, s);
    case Closed =>
  }

  lemma AnswerValid(o: Origin, s: Sys)
    requires AnswerInv(o, s)
    ensures Valid(s.c)
  {
  }

  lemma {:induction false} DispatchAnswers(o: Origin, s: Sys)
    requires AnswerInv(o, s) && WireInv(s)
    ensures Valid(s.c) && AnswerInv(o, Dispatch(s))
    decreases MAX_REQUESTS - s.c.requests, Rank(s.c.phase)
  {
    hide AnswerInv, WireInv, Step;
    AnswerValid(o, s);
    StepAnswers(o, s);
    StepKeeps(s);
    var s' := Step(s);
    if s'.c.phase != s.c.phase && s'.c.phase != Closed { DispatchAnswers(o, s'); }
  }

  lemma {:induction false} RunFromAnswers(o: Origin, s: Sys, k: nat)
    requires AnswerInv(o, s) && WireInv(s)
    ensures Valid(s.c) && AnswerInv(o, Run(s, k))
    decreases k
  {
    hide *;
    AnswerValid(o, s);
    RunUnfolds(s, k);
    if k > 0 {
      RunFromAnswers(o, s, k - 1);
      RunFrom(s, k - 1);
      DispatchAnswers(o, Run(s, k - 1));
    }
  }

  function OriginOf(c: Conn, w: World): Origin { Origin(w.replies, w.dates, c.keepAlive) }

  lemma StartAnswers(c: Conn, w: World)
    ensures AnswerInv(OriginOf(c, w), Start(c, w))
  {
  }

  /** Every final response that has left is the one due, and so is what is under way. */
  predicate Answered(o: Origin, s: Sys) {
    var finals := Finals(s.l.messages);
    && Numbered(s.l.answers, |s.l.built|)
    && |finals| == s.c.requests <= |s.l.answers| <= s.c.requests + 1
    && (forall i: nat :: i < |finals| ==> RecordedAt(o, s.l.built, s.l.answers, finals, i))
    && (Sending(s.c.phase) ==>
          |s.l.answers| == s.c.requests + 1 && s.l.due == DueAt(o, s.l.built, s.l.answers, s.c.requests))
  }

  lemma InvAnswered(o: Origin, s: Sys)
    requires AnswerInv(o, s)
    ensures Answered(o, s)
  {
    hide Numbered, Finals, DueAt, Valid;
  }

  /**
   Every response says what it has to. After any number of wake-ups, the `i`-th final response
   that has left is, byte for byte, the canned error for a refused request, or the reply of the
   handler to the request it answers, with the `i`-th reading of the clock and the keep-alive
   that request asked for (the first also if the flag was left set). The requests that were
   built are answered in order and once each, and with the refusals they make up all responses
   begun: those finished, and at most one under way.
   */
  lemma RunAnswers(c: Conn, w: World, k: nat)
    requires c.producer == None
    ensures Answered(OriginOf(c, w), Run(Start(c, w), k))
  {
    hide *;
    ConnWire.StartKeeps(c, w);
    StartAnswers(c, w);
    RunFromAnswers(OriginOf(c, w), Start(c, w), k);
    InvAnswered(OriginOf(c, w), Run(Start(c, w), k));
  }
}
