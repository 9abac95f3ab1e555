/**
 The per-connection state machine (src/Connection.c) as functions from one state of the
 connection and its world to the next. A `Log` records what happened and steers nothing.
 */
module ConnSpec {
  import opened Bytes
  import opened Config
  import opened Numbers
  import opened ChunkSpec
  import opened ChunkFrame
  import opened RequestLines
  import opened Headers
  import opened Requests
  import opened TransferEncoding
  import opened Admissions
  import opened Responses
  import opened Network

  datatype ConnPhase =
    | ReadingRequest
    | ReadingBodyCl
    | ReadingBodyChunked
    | Sending100
    | Building
    | SendingResponse
    | SendingStream
    | Closed

  datatype StreamPhase = StreamHeader | StreamPull | StreamDrain | StreamTrailer | StreamDone

  /** The union of per-phase scratch states. */
  datatype Scratch =
    | StSend(sent: nat)
    | StCl(received: nat)
    | StChunked(consumed: nat, dec: Decoder)
    | StStream(stream: StreamPhase, sent: nat)

  datatype Conn = Conn(
    phase: ConnPhase,
    keepAlive: bool,
    reqBuf: bytes,
    respBuf: bytes,
    dechunked: bytes,
    line: RequestLine,
    headers: seq<Header>,
    body: bytes,
    bodyStart: nat,
    bodyLen: nat,
    coding: TransferCoding,
    producer: Option<Producer>,
    nextReq: nat,
    requests: nat,
    st: Scratch)

  const NO_LINE: RequestLine := RequestLine(GET, [], [], [])

  /** An all-zero connection after connection_init. */
  const FRESH: Conn :=
    Conn(ReadingRequest, false, [], [], [], NO_LINE, [], [], 0, 0, TeNone, None, 0, 0, StSend(0))

  /** connection_init on a slot: what it does not clear stays from the slot's last connection. */
  function Reused(c: Conn): Conn {
    FRESH.(keepAlive := c.keepAlive, bodyStart := c.bodyStart, bodyLen := c.bodyLen, coding := c.coding,
           producer := c.producer, nextReq := c.nextReq)
  }

  /** A request as it reached its handler: head, the bytes it spans, its framed body. */
  datatype Built = Built(line: RequestLine, headers: seq<Header>, span: bytes, body: bytes)

  /** A message that left on the wire in full; `junk` is what a restarted send repeated. */
  datatype Message =
    | Continue
    | Buffered(text: bytes, junk: bytes)
    | Streamed(head: bytes, payloads: seq<bytes>, script: seq<PullEvent>)

  /**
   What a final response answers: the `nth` request that was built, or what was refused, after
   `at` bytes had been received and with `left` receives of the script to come.
   */
  datatype Answer = Refusal(status: ParseStatus, at: nat, left: nat) | ReplyTo(nth: nat)

  datatype StreamEvent = Installed(hasCleanup: bool) | Pulled(data: bool) | CleanedUp

  datatype Log = Log(
    received: bytes,         // every byte recv returned
    built: seq<Built>,       // every request that was built
    wire: bytes,             // every byte send accepted
    messages: seq<Message>,  // the messages completed so far
    current: bytes,          // what is on the wire of the message being sent
    junk: bytes,             // what is on the wire of abandoned attempts at it
    due: bytes,              // what it amounts to in full
    head: bytes,             // the streamed response: its head,
    payloads: seq<bytes>,    // the payloads pulled so far,
    script: seq<PullEvent>,  // and all that its producer had to give
    events: seq<StreamEvent>,
    answers: seq<Answer>)    // what the final responses begun so far answer

  const NO_LOG: Log := Log([], [], [], [], [], [], [], [], [], [], [], [])

  datatype Sys = Sys(c: Conn, w: World, l: Log)

  /** "HTTP/1.1 100 Continue\r\n\r\n" */
  const CONTINUE_100: bytes := [72, 84, 84, 80, 47, 49, 46, 49, 32, 49, 48, 48, 32, 67, 111, 110, 116, 105, 110, 117,
                                101, 13, 10, 13, 10]

  // ---------------------------------------------------------------- what each phase relies on

  predicate SendsBuffer(p: StreamPhase) { p.StreamHeader? || p.StreamDrain? || p.StreamTrailer? }

  predicate ScratchFits(c: Conn) {
    match c.phase
    case ReadingRequest => true
    case Sending100 => c.st.StSend? && c.st.sent < |CONTINUE_100| && c.bodyStart <= |c.reqBuf|
    case ReadingBodyCl => c.st.StCl? && c.bodyStart + c.st.received == |c.reqBuf|
    case ReadingBodyChunked => c.st.StChunked? && c.bodyStart + c.st.consumed <= |c.reqBuf| && c.st.dec.Valid()
    case Building => c.nextReq <= |c.reqBuf|
    case SendingResponse => c.st.StSend? && c.st.sent < |c.respBuf|
    case SendingStream =>
      c.st.StStream? && c.producer.Some? && (SendsBuffer(c.st.stream) ==> c.st.sent < |c.respBuf|)
    case Closed => true
  }

  /** Buffers within capacity, requests within the limit. */
  predicate Bounded(c: Conn) {
    && |c.reqBuf| <= MAX_REQUEST_LEN && |c.respBuf| <= RESPONSE_BUFFER_SIZE && |c.dechunked| <= MAX_DECHUNK_SIZE
    && c.requests <= MAX_REQUESTS && (c.phase != Closed ==> c.requests < MAX_REQUESTS)
  }

  predicate Valid(c: Conn) {
    Bounded(c) && ScratchFits(c)
  }

  predicate In(s: Sys, phase: ConnPhase) { Valid(s.c) && s.c.phase == phase }

  /** How far a request has still to go; the dispatcher only ever moves down this scale. */
  function Rank(p: ConnPhase): nat {
    match p
    case ReadingRequest => 5
    case Sending100 => 4
    case ReadingBodyCl => 3
    case ReadingBodyChunked => 3
    case Building => 2
    case SendingResponse => 1
    case SendingStream => 1
    case Closed => 0
  }

  /** A step stays where it is, comes closer to a response, completes one, or closes. */
  predicate Advances(c: Conn, c': Conn) {
    && c'.requests >= c.requests
    && (|| c'.phase == Closed
        || c'.requests > c.requests
        || c'.phase == c.phase
        || Rank(c'.phase) < Rank(c.phase))
  }

  // ---------------------------------------------------------------- shared moves

  /** Bytes arrive behind those already in the request buffer. */
  function Arrive(s: Sys, piece: bytes, net: Net): Sys {
    Sys(s.c.(reqBuf := s.c.reqBuf + piece), s.w.(net := net), s.l.(received := s.l.received + piece))
  }

  function WithNet(s: Sys, net: Net): Sys { s.(w := s.w.(net := net)) }

  function Close(s: Sys): Sys { s.(c := s.c.(phase := Closed)) }

  /** A serialized response starts on its way from byte 0. */
  function SendBegin(s: Sys, text: bytes, why: Answer): (r: Sys)
    requires Bounded(s.c) && s.c.phase != Closed && 0 < |text| <= RESPONSE_BUFFER_SIZE
    ensures In(r, SendingResponse)
    ensures r.c.requests == s.c.requests
  {
    Sys(s.c.(phase := SendingResponse, respBuf := text, st := StSend(0)), s.w,
        s.l.(current := [], junk := [], due := text, answers := s.l.answers + [why]))
  }

  /** response_error_serialize and phase_send_begin: a canned error, with "Connection: close". */
  function SendError(s: Sys, status: ParseStatus): (r: Sys)
    requires Valid(s.c) && s.c.phase != Closed
    ensures In(r, SendingResponse)
    ensures r.c.requests == s.c.requests
  {
    var (date, w) := Now(s.w);
    ErrorFits(status, date, false);
    SendBegin(s.(w := w), ErrorBytes(status, date), Refusal(status, |s.l.received|, |s.w.net.recvs|))
  }

  /** phase_body_dispatch. */
  function BodyDispatch(s: Sys): (r: Sys)
    requires Valid(s.c) && s.c.phase != Closed && s.c.bodyStart <= |s.c.reqBuf|
    ensures Valid(r.c) && r.c.phase in {ReadingBodyCl, ReadingBodyChunked, Building}
    ensures r.c.requests == s.c.requests
  {
    if s.c.coding == TeChunked then
      s.(c := s.c.(phase := ReadingBodyChunked, st := StChunked(0, START), dechunked := []))
    else if s.c.bodyLen == 0 then
      s.(c := s.c.(phase := Building, body := [], nextReq := s.c.bodyStart))
    else
      s.(c := s.c.(phase := ReadingBodyCl, st := StCl(|s.c.reqBuf| - s.c.bodyStart)))
  }

  // ---------------------------------------------------------------- reading the head

  datatype HeadStatus = HeadFound | HeadClosed | HeadTooLarge | HeadIoError | HeadMore

  /** conn_recv_header: receive until a blank line is buffered or nothing more comes for now. */
  function ReadHead(s: Sys): (r: (HeadStatus, Sys))
    requires In(s, ReadingRequest)
    ensures In(r.1, ReadingRequest)
    ensures r.0 == HeadFound <==> HasTerminator(r.1.c.reqBuf, |r.1.c.reqBuf|)
    ensures r.1.c == s.c.(reqBuf := r.1.c.reqBuf)
    decreases |s.w.net.recvs|
  {
    if HasTerminator(s.c.reqBuf, |s.c.reqBuf|) then (HeadFound, s)
    else if |s.c.reqBuf| >= MAX_REQUEST_LEN then (HeadTooLarge, s)
    else
      match Recv(s.w.net, MAX_REQUEST_LEN - |s.c.reqBuf|)
      case (Got(piece), net) => ReadHead(Arrive(s, piece, net))
      case (Retry, net) => ReadHead(WithNet(s, net))
      case (Eof, net) => (HeadClosed, WithNet(s, net))
      case (Again, net) => (HeadMore, WithNet(s, net))
      case (RecvError, net) => (HeadIoError, WithNet(s, net))
  }

  /** What step_header_read does with a buffer that holds a whole head. */
  function HeadArrived(s: Sys): (r: Sys)
    requires In(s, ReadingRequest) && HasTerminator(s.c.reqBuf, |s.c.reqBuf|)
    ensures Valid(r.c) && r.c.phase in {SendingResponse, Sending100, ReadingBodyCl, ReadingBodyChunked, Building}
    ensures r.c.requests == s.c.requests
  {
    match ParseRequest(s.c.reqBuf, |s.c.reqBuf|)
    case Failure(status) => SendError(s, status)
    case Success(head) => Admitted(s, head.line, head.headers, AdmissionOf(head.line, head.headers))
  }

  /** The coding stored on the way: untouched when the Host check already refused. */
  function CodingSeen(c: Conn, line: RequestLine, headers: seq<Header>): TransferCoding {
    if !IsHttp10(line) && Find(headers, HOST).None? then c.coding
    else CodingOf(headers, 0, ParseOk, TeNone).1
  }

  /** The parsed head, the end of its blank line and the keep-alive choice are stored. */
  function StoreHead(c: Conn, line: RequestLine, headers: seq<Header>): Conn
    requires HasTerminator(c.reqBuf, |c.reqBuf|)
  {
    c.(line := line, headers := headers, bodyStart := HeadEnd(c.reqBuf, |c.reqBuf|),
       keepAlive := c.keepAlive || WantsKeepAlive(line, headers), coding := CodingSeen(c, line, headers))
  }

  /** The body framing is stored; the length stays as it was without a Content-Length header. */
  function StoreFraming(c: Conn, coding: TransferCoding, bodyLen: nat): Conn {
    c.(coding := coding, bodyLen := if Find(c.headers, CONTENT_LENGTH).Some? then bodyLen else c.bodyLen)
  }

  function Admitted(s: Sys, line: RequestLine, headers: seq<Header>, a: Admission): (r: Sys)
    requires In(s, ReadingRequest) && HasTerminator(s.c.reqBuf, |s.c.reqBuf|)
    ensures Valid(r.c) && r.c.phase in {SendingResponse, Sending100, ReadingBodyCl, ReadingBodyChunked, Building}
    ensures r.c.requests == s.c.requests
  {
    var s1 := s.(c := StoreHead(s.c, line, headers));
    match a
    case Refuse(status) => SendError(s1, status)
    case Admit(coding, bodyLen, expects) =>
      var s2 := s1.(c := StoreFraming(s1.c, coding, bodyLen));
      if expects && |s.c.reqBuf| == s1.c.bodyStart
      then s2.(c := s2.c.(phase := Sending100, st := StSend(0)), l := s2.l.(current := [], due := CONTINUE_100))
      else BodyDispatch(s2)
  }

  function AfterHead(status: HeadStatus, s: Sys): (r: Sys)
    requires In(s, ReadingRequest) && (status == HeadFound ==> HasTerminator(s.c.reqBuf, |s.c.reqBuf|))
    ensures Valid(r.c)
    ensures Advances(s.c, r.c)
  {
    match status
    case HeadFound => HeadArrived(s)
    case HeadMore => s
    case HeadTooLarge => SendError(s, HeaderTooLong)
    case _ => Close(s)
  }

  /** step_header_read. */
  function StepHeader(s: Sys): (r: Sys)
    requires In(s, ReadingRequest)
    ensures Valid(r.c)
    ensures Advances(s.c, r.c)
  {
    var (status, s') := ReadHead(s);
    AfterHead(status, s')
  }

  // ---------------------------------------------------------------- reading the body

  datatype BodyStatus = BodyOk | BodyClosed | BodyTooLarge | BodyIoError | BodyBadData | BodyMore

  /** Bytes of a Content-Length body arrive and are counted. */
  function ArriveCl(s: Sys, piece: bytes, net: Net): Sys
    requires s.c.st.StCl?
  {
    var s' := Arrive(s, piece, net);
    s'.(c := s'.c.(st := StCl(s.c.st.received + |piece|)))
  }

  /** conn_recv_body_cl: receive until the declared length is buffered. */
  function ReadCl(s: Sys): (r: (BodyStatus, Sys))
    requires In(s, ReadingBodyCl)
    ensures In(r.1, ReadingBodyCl) && r.0 != BodyBadData
    ensures r.0 == BodyOk <==> r.1.c.st.received >= r.1.c.bodyLen
    ensures r.1.c == s.c.(reqBuf := r.1.c.reqBuf, st := r.1.c.st)
    decreases |s.w.net.recvs|
  {
    if s.c.st.received >= s.c.bodyLen then (BodyOk, s)
    else if |s.c.reqBuf| >= MAX_REQUEST_LEN then (BodyTooLarge, s)
    else
      match Recv(s.w.net, MAX_REQUEST_LEN - |s.c.reqBuf|)
      case (Got(piece), net) => ReadCl(ArriveCl(s, piece, net))
      case (Retry, net) => ReadCl(WithNet(s, net))
      case (Eof, net) => (BodyClosed, WithNet(s, net))
      case (Again, net) => (BodyMore, WithNet(s, net))
      case (RecvError, net) => (BodyIoError, WithNet(s, net))
  }

  /** The handler is given every byte behind the head, even those of the next request. */
  function AfterCl(status: BodyStatus, s: Sys): (r: Sys)
    requires In(s, ReadingBodyCl) && (status == BodyOk ==> s.c.st.received >= s.c.bodyLen)
    ensures Valid(r.c)
    ensures Advances(s.c, r.c)
  {
    match status
    case BodyOk =>
      var c := s.c;
      s.(c := c.(phase := Building, body := c.reqBuf[c.bodyStart..],
                 nextReq := if c.st.received > c.bodyLen then c.bodyStart + c.bodyLen else 0))
    case BodyMore => s
    case _ => SendError(s, BadRequest)
  }

  /** step_body_cl_read. */
  function StepBodyCl(s: Sys): (r: Sys)
    requires In(s, ReadingBodyCl)
    ensures Valid(r.c)
    ensures Advances(s.c, r.c)
  {
    var (status, s') := ReadCl(s);
    AfterCl(status, s')
  }

  /** The raw bytes behind the head. */
  function RawBody(c: Conn): bytes
    requires c.bodyStart <= |c.reqBuf|
  {
    c.reqBuf[c.bodyStart..]
  }

  /** Drain what is buffered into the decoder. */
  function DrainBody(s: Sys): Drained
    requires In(s, ReadingBodyChunked)
  {
    Drain(s.c.st.dec, RawBody(s.c), s.c.st.consumed, s.c.dechunked, MAX_DECHUNK_SIZE)
  }

  function Drew(s: Sys, r: Drained): Sys {
    s.(c := s.c.(st := StChunked(r.pos, r.dec), dechunked := r.out))
  }

  /** conn_recv_body_chunked: drain, then receive more, until the decoder has a verdict. */
  function ReadChunked(s: Sys): (r: (BodyStatus, Sys))
    requires In(s, ReadingBodyChunked)
    ensures In(r.1, ReadingBodyChunked)
    ensures r.1.c == s.c.(reqBuf := r.1.c.reqBuf, st := r.1.c.st, dechunked := r.1.c.dechunked)
    decreases |s.w.net.recvs|
  {
    var d := DrainBody(s);
    var s' := Drew(s, d);
    match d.verdict
    case TooLarge => (BodyTooLarge, s')
    case Rejected => (BodyBadData, s')
    case Complete => (BodyOk, s')
    case More =>
      if |s.c.reqBuf| >= MAX_REQUEST_LEN then (BodyTooLarge, s')
      else
        match Recv(s.w.net, MAX_REQUEST_LEN - |s.c.reqBuf|)
        case (Got(piece), net) => ReadChunked(Arrive(s', piece, net))
        case (Retry, net) => ReadChunked(WithNet(s', net))
        case (Eof, net) => (BodyClosed, WithNet(s', net))
        case (Again, net) => (BodyMore, WithNet(s', net))
        case (RecvError, net) => (BodyIoError, WithNet(s', net))
  }

  function AfterChunked(status: BodyStatus, s: Sys): (r: Sys)
    requires In(s, ReadingBodyChunked)
    ensures Valid(r.c)
    ensures Advances(s.c, r.c)
  {
    match status
    case BodyOk =>
      s.(c := s.c.(phase := Building, body := s.c.dechunked, nextReq := s.c.bodyStart + s.c.st.consumed))
    case BodyMore => s
    case BodyTooLarge => SendError(s, PayloadTooLarge)
    case _ => SendError(s, BadRequest)
  }

  /** step_body_chunked_read. */
  function StepBodyChunked(s: Sys): (r: Sys)
    requires In(s, ReadingBodyChunked)
    ensures Valid(r.c)
    ensures Advances(s.c, r.c)
  {
    var (status, s') := ReadChunked(s);
    AfterChunked(status, s')
  }

  // ---------------------------------------------------------------- building the response

  /** The length of the request at the front of the buffer, as request_consume takes it. */
  function SpanLength(c: Conn): nat {
    if c.nextReq > 0 then c.nextReq else |c.reqBuf|
  }

  /** The framed body of the request being built. */
  function FramedBody(c: Conn): bytes {
    if c.coding == TeChunked then c.dechunked
    else if c.bodyStart + c.bodyLen <= |c.reqBuf| then c.reqBuf[c.bodyStart..c.bodyStart + c.bodyLen]
    else []
  }

  /** request_consume: what follows the request moves to the front of the buffer. */
  function Consume(s: Sys): (r: Sys)
    requires Valid(s.c) && s.c.nextReq <= |s.c.reqBuf|
    ensures r.w == s.w && r.c == s.c.(reqBuf := s.c.reqBuf[SpanLength(s.c)..], nextReq := 0)
  {
    var n := SpanLength(s.c);
    var done := Built(s.c.line, s.c.headers, s.c.reqBuf[..n], FramedBody(s.c));
    s.(c := s.c.(reqBuf := s.c.reqBuf[n..], nextReq := 0), l := s.l.(built := s.l.built + [done]))
  }

  /** stream_release: cleanup is called if there is one, and the producer is forgotten. */
  function Release(s: Sys): Sys {
    var called := s.c.producer.Some? && s.c.producer.value.hasCleanup;
    s.(c := s.c.(producer := None), l := if called then s.l.(events := s.l.events + [CleanedUp]) else s.l)
  }

  function Install(s: Sys, p: Producer): Sys {
    s.(c := s.c.(producer := Some(p)), l := s.l.(events := s.l.events + [Installed(p.hasCleanup)]))
  }

  /** The serialized response, or the 500 that replaces one that does not fit. */
  function Text(r: Response, date: Date, keepAlive: bool): (text: bytes)
    ensures 0 < |text| <= RESPONSE_BUFFER_SIZE
  {
    ErrorFits(ServerError, date, keepAlive);
    match Serialize(r, date, RESPONSE_BUFFER_SIZE, keepAlive)
    case Some(text) => text
    case None => Serialize(ErrorResponse(ServerError), date, RESPONSE_BUFFER_SIZE, keepAlive).value
  }

  function BuildPlain(s: Sys, r: Response, date: Date): (s': Sys)
    requires In(s, Building)
    ensures In(s', SendingResponse)
    ensures s'.c.requests == s.c.requests
  {
    SendBegin(Consume(s), Text(r, date, s.c.keepAlive), ReplyTo(|s.l.built| + 1))
  }

  /** The payloads of a producer, up to its end or its first failure. */
  function DataOf(script: seq<PullEvent>): seq<bytes> {
    if script == [] || script[0].PullFailed? then [] else [script[0].data] + DataOf(script[1..])
  }

  /** A streamed response in full: head, every payload framed, last frame. */
  function StreamText(head: bytes, script: seq<PullEvent>): bytes {
    head + Frames(DataOf(script)) + LAST_FRAME
  }

  /** A streamed response starts on its way with its head. */
  function StreamBegin(s: Sys, head: bytes, p: Producer): Sys {
    Sys(s.c.(phase := SendingStream, respBuf := head, st := StStream(StreamHeader, 0)), s.w,
        s.l.(current := [], due := StreamText(head, p.script), head := head, payloads := [], script := p.script,
             answers := s.l.answers + [ReplyTo(|s.l.built|)]))
  }

  function BuildStream(s: Sys, r: Response, p: Producer, date: Date): (s': Sys)
    requires In(s, Building)
    ensures Valid(s'.c) && s'.c.phase in {SendingResponse, SendingStream}
    ensures s'.c.requests == s.c.requests
  {
    var s1 := Install(s, p);
    match Serialize(r, date, RESPONSE_BUFFER_SIZE, s.c.keepAlive)
    case None => BuildPlain(Release(s1), ErrorResponse(ServerError), date)
    case Some(head) =>
      StreamBegin(Consume(s1), head, p)
  }

  /** step_response_build. */
  function StepBuild(s: Sys): (r: Sys)
    requires In(s, Building)
    ensures Valid(r.c) && r.c.phase in {SendingResponse, SendingStream}
    ensures Advances(s.c, r.c)
  {
    var (reply, w1) := NextReply(s.w);
    var (date, w2) := Now(w1);
    var s1 := s.(w := w2);
    match reply
    case Plain(_) => BuildPlain(s1, reply.Wire(), date)
    case Stream(_, p) => BuildStream(s1, reply.Wire(), p, date)
  }

  // ---------------------------------------------------------------- sending

  datatype SendStatus = SendOk | SendClosed | SendMore | SendFault

  /** response_send: one send of what is left of `text`; the accepted bytes go on the wire. */
  function SendSome(s: Sys, text: bytes, sent: nat): (r: (SendStatus, nat, Sys))
    requires sent < |text|
    ensures r.2.c == s.c && sent <= r.1 <= |text|
    ensures r.0 == SendOk <==> r.1 == |text|
    ensures r.2.l == Emitted(s.l, text[sent..r.1])
    ensures r.2.w == s.w.(net := r.2.w.net) && |r.2.w.net.sends| <= |s.w.net.sends|
  {
    match Send(s.w.net, |text| - sent)
    case (Blocked, net) => NothingEmitted(s.l, text, sent); (SendMore, sent, WithNet(s, net))
    case (Gone, net) => NothingEmitted(s.l, text, sent); (SendClosed, sent, WithNet(s, net))
    case (Broken, net) => NothingEmitted(s.l, text, sent); (SendFault, sent, WithNet(s, net))
    case (Sent(n), net) =>
      (if sent + n == |text| then SendOk else SendMore, sent + n,
       WithNet(s.(l := Emitted(s.l, text[sent..sent + n])), net))
  }

  function Emitted(l: Log, piece: bytes): Log {
    l.(wire := l.wire + piece, current := l.current + piece)
  }

  lemma NothingEmitted(l: Log, text: bytes, sent: nat)
    requires sent <= |text|
    ensures Emitted(l, text[sent..sent]) == l
  {
    assert text[sent..sent] == [] && l.wire + [] == l.wire && l.current + [] == l.current;
  }

  /** A message left in full. */
  function Finished(l: Log, m: Message): Log {
    l.(messages := l.messages + [m], current := [], junk := [])
  }

  /** step_send_100. */
  function Step100(s: Sys): (r: Sys)
    requires In(s, Sending100)
    ensures Valid(r.c)
    ensures Advances(s.c, r.c)
  {
    match SendSome(s, CONTINUE_100, s.c.st.sent)
    case (SendMore, sent, s') => s'.(c := s'.c.(st := StSend(sent)))
    case (SendOk, _, s') => BodyDispatch(s'.(l := Finished(s'.l, Continue)))
    case (_, _, s') => Close(s')
  }

  /** connection_reset. */
  function Reset(c: Conn): Conn {
    c.(st := StSend(0), respBuf := [], line := NO_LINE, headers := [], body := [],
       keepAlive := false, bodyStart := 0, bodyLen := 0, coding := TeNone)
  }

  /** The end of a response: count it, then close or wait for the next request. */
  function NextRequest(s: Sys): (r: Sys)
    requires Bounded(s.c) && s.c.phase != Closed
    ensures Valid(r.c) && r.c.phase in {Closed, ReadingRequest} && r.c.requests == s.c.requests + 1
  {
    var c := s.c.(requests := s.c.requests + 1);
    if !c.keepAlive || c.requests >= MAX_REQUESTS then s.(c := c.(phase := Closed))
    else s.(c := Reset(c).(phase := ReadingRequest))
  }

  /** step_response_send: after a partial write the response starts again from its first byte. */
  function StepSend(s: Sys): (r: Sys)
    requires In(s, SendingResponse)
    ensures Valid(r.c)
    ensures Advances(s.c, r.c)
  {
    match SendSome(s, s.c.respBuf, s.c.st.sent)
    case (SendMore, _, s') =>
      s'.(c := s'.c.(st := StSend(0)), l := s'.l.(junk := s'.l.junk + s'.l.current, current := []))
    case (SendOk, _, s') => NextRequest(s'.(l := Finished(s'.l, Buffered(s.c.respBuf, s'.l.junk))))
    case (_, _, s') => Close(s')
  }

  // ---------------------------------------------------------------- streaming

  /** stream_abort. */
  function Abort(s: Sys): Sys
    requires s.c.st.StStream?
  {
    var s' := Close(Release(s));
    s'.(c := s'.c.(st := StStream(StreamDone, s.c.st.sent)))
  }

  function AfterSend(p: StreamPhase): StreamPhase {
    match p
    case StreamHeader => StreamPull
    case StreamDrain => StreamPull
    case _ => StreamDone
  }

  /** One turn of the pump in a phase that sends; the flag says whether the loop goes on. */
  function StreamSend(s: Sys): (r: (bool, Sys))
    requires In(s, SendingStream) && SendsBuffer(s.c.st.stream)
    ensures Valid(r.1.c) && r.1.w.replies == s.w.replies
    ensures r.0 ==> In(r.1, SendingStream) && r.1.c.producer == s.c.producer
    ensures r.0 ==> r.1.c.st.stream == AfterSend(s.c.st.stream)
    ensures r.1.c.requests == s.c.requests && (!r.0 ==> r.1.c.phase in {Closed, SendingStream})
  {
    match SendSome(s, s.c.respBuf, s.c.st.sent)
    case (SendOk, _, s') => (true, s'.(c := s'.c.(st := StStream(AfterSend(s.c.st.stream), 0))))
    case (SendMore, sent, s') => (false, s'.(c := s'.c.(st := StStream(s.c.st.stream, sent))))
    case (_, _, s') => (false, Abort(s'))
  }

  /** One pull: the payload is framed into the response buffer, the end becomes the last frame. */
  function StreamPullOne(s: Sys): (r: (bool, Sys))
    requires In(s, SendingStream) && s.c.st.stream == StreamPull
    ensures Valid(r.1.c)
    ensures r.0 ==> In(r.1, SendingStream) && r.1.c.st.stream in {StreamDrain, StreamTrailer}
    ensures r.0 && r.1.c.st.stream == StreamDrain ==> |r.1.c.producer.value.script| < |s.c.producer.value.script|
    ensures r.0 && r.1.c.st.stream == StreamTrailer ==> r.1.c.producer == s.c.producer
    ensures r.1.c.requests == s.c.requests && (!r.0 ==> r.1.c.phase == Closed)
  {
    var p := s.c.producer.value;
    if p.script == [] then
      var l := s.l.(events := s.l.events + [Pulled(false)]);
      (true, Sys(s.c.(respBuf := LAST_FRAME, st := StStream(StreamTrailer, 0)), s.w, l))
    else
      match p.script[0]
      case PullFailed => (false, Abort(s.(l := s.l.(events := s.l.events + [Pulled(false)]))))
      case PullOk(data) =>
        var l := s.l.(events := s.l.events + [Pulled(true)], payloads := s.l.payloads + [data]);
        FrameFits(data);
        var rest := Some(p.(script := p.script[1..]));
        (true, Sys(s.c.(respBuf := Frame(data), producer := rest, st := StStream(StreamDrain, 0)), s.w, l))
  }

  /** A payload of the pull buffer's size, framed, fits the response buffer. */
  lemma FrameFits(data: StreamPayload)
    ensures 0 < |Frame(data)| <= RESPONSE_BUFFER_SIZE
  {
    assert Power(16, 4) == 16 * (16 * (16 * (16 * Power(16, 0))));
    DigitsLength(|data|, 16, 4);
  }

  function StreamRank(p: StreamPhase): nat {
    match p
    case StreamHeader => 4
    case StreamDrain => 3
    case StreamPull => 2
    case StreamTrailer => 1
    case StreamDone => 0
  }

  function PullsLeft(c: Conn): nat {
    if c.producer.Some? then |c.producer.value.script| else 0
  }

  /** One turn of the pump. */
  function StreamTurn(s: Sys): (r: (bool, Sys))
    requires In(s, SendingStream)
    ensures Valid(r.1.c)
    ensures r.0 ==> In(r.1, SendingStream)
    ensures r.0 ==> PullsLeft(r.1.c) < PullsLeft(s.c) || (PullsLeft(r.1.c) == PullsLeft(s.c)
                    && StreamRank(r.1.c.st.stream) < StreamRank(s.c.st.stream))
    ensures if r.0 then r.1.c.requests == s.c.requests else Advances(s.c, r.1.c)
  {
    if s.c.st.stream == StreamPull then StreamPullOne(s)
    else if s.c.st.stream == StreamDone then
      (false, NextRequest(Release(s.(l := Finished(s.l, Streamed(s.l.head, s.l.payloads, s.l.script))))))
    else StreamSend(s)
  }

  /** step_response_send_stream: turn the pump until the socket or the stream is done with it. */
  function StepStream(s: Sys): (r: Sys)
    requires In(s, SendingStream)
    ensures Valid(r.c)
    ensures Advances(s.c, r.c)
    decreases PullsLeft(s.c), StreamRank(s.c.st.stream)
  {
    var (goOn, s') := StreamTurn(s);
    if goOn then StepStream(s') else s'
  }

  // ---------------------------------------------------------------- the dispatcher

  function Step(s: Sys): (r: Sys)
    requires Valid(s.c)
    ensures Valid(r.c)
    ensures Advances(s.c, r.c)
  {
    match s.c.phase
    case ReadingRequest => StepHeader(s)
    case Sending100 => Step100(s)
    case ReadingBodyCl => StepBodyCl(s)
    case ReadingBodyChunked => StepBodyChunked(s)
    case Building => StepBuild(s)
    case SendingResponse => StepSend(s)
    case SendingStream => StepStream(s)
    case Closed => s
  }

  /** connection_step_process: step until a step changes nothing or the connection closes. */
  function Dispatch(s: Sys): (r: Sys)
    requires Valid(s.c)
    ensures Valid(r.c) && r.c.requests >= s.c.requests
    decreases MAX_REQUESTS - s.c.requests, Rank(s.c.phase)
  {
    var s' := Step(s);
    if s'.c.phase != s.c.phase && s'.c.phase != Closed then Dispatch(s') else s'
  }

  /** A new connection in a slot that last held `c`; a slot never used holds `FRESH`. */
  function Start(c: Conn, w: World): (s: Sys)
    ensures Valid(s.c)
  {
    Sys(Reused(c), w, NO_LOG)
  }

  /** The connection after `k` wake-ups of the poll loop. */
  function Run(s: Sys, k: nat): (r: Sys)
    requires Valid(s.c)
    ensures Valid(r.c)
  {
    if k == 0 then s else Dispatch(Run(s, k - 1))
  }
}
