/**
 The connection in its own form (src/Connection.c): an object whose step methods read, write
 and resume in place. Every method is proved to do exactly what its step function says.
 */
module Connections {
  import opened Bytes
  import opened Config
  import opened Numbers
  import opened Buffers
  import opened ChunkSpec
  import opened ChunkFrame
  import opened ChunkDecoders
  import opened RequestLines
  import opened Headers
  import opened Requests
  import opened TransferEncoding
  import opened Admissions
  import opened Responses
  import opened Network
  import opened ConnSpec

  /** A non-blocking socket. */
  class Socket {
    var net: Net

    /** recv into the free space of `buf`. */
    method RecvInto(buf: HttpBuffer) returns (r: RecvResult)
      requires buf.Valid() && buf.size < buf.data.Length
      modifies this, buf`size, buf.data
      ensures buf.Valid() && (r, net) == Recv(old(net), buf.data.Length - old(buf.size))
      ensures buf.Live() == if r.Got? then old(buf.Live()) + r.piece else old(buf.Live())
    {
      var (result, rest) := Recv(net, buf.data.Length - buf.size);
      net := rest;
      r := result;
      if r.Got? { buf.Append(r.piece); }
    }

    /** send of `len` bytes. */
    method SendOff(len: nat) returns (r: SendResult)
      modifies this
      ensures (r, net) == Send(old(net), len)
    {
      var (result, rest) := Send(net, len);
      net := rest;
      r := result;
    }
  }

  /** The handlers and the clock. */
  class Host {
    var replies: seq<Reply>
    var dates: seq<Date>

    method Clock() returns (date: Date)
      modifies `dates
      ensures forall net :: Now(World(net, replies, old(dates))) == (date, World(net, replies, dates))
    {
      if dates == [] { return EPOCH; }
      date := dates[0];
      dates := dates[1..];
    }

    method Handle() returns (reply: Reply)
      modifies `replies
      ensures forall net :: NextReply(World(net, old(replies), dates)) == (reply, World(net, replies, dates))
    {
      if replies == [] { return Plain(ErrorResponse(NotFound)); }
      reply := replies[0];
      replies := replies[1..];
    }
  }

  class Connection {
    const sock: Socket
    const host: Host
    const reqBuf: HttpBuffer
    const respBuf: HttpBuffer
    const dechunked: HttpBuffer
    const decoder: ChunkDecoder

    var phase: ConnPhase
    var keepAlive: bool
    var line: RequestLine
    var headers: seq<Header>
    var body: bytes
    var bodyStart: nat
    var bodyLen: nat
    var coding: TransferCoding
    var producer: Option<Producer>
    var nextReq: nat
    var requests: nat
    var st: Scratch
    ghost var log: Log

    /** Everything the connection owns, one object each. */
    ghost function Repr(): set<object> {
      {this, sock, host, reqBuf, reqBuf.data, respBuf, respBuf.data, dechunked, dechunked.data, decoder}
    }

    ghost predicate Apart() {
      && reqBuf != respBuf && reqBuf != dechunked && respBuf != dechunked
      && reqBuf.data != respBuf.data && reqBuf.data != dechunked.data && respBuf.data != dechunked.data
      && reqBuf.data.Length == MAX_REQUEST_LEN
      && respBuf.data.Length == RESPONSE_BUFFER_SIZE
      && dechunked.data.Length == MAX_DECHUNK_SIZE
    }

    ghost predicate Valid()
      reads Repr()
    {
      Apart() && reqBuf.Valid() && respBuf.Valid() && dechunked.Valid()
    }

    /** The scratch union; its chunked arm lives in the decoder object. */
    ghost function ScratchState(): Scratch
      reads this, decoder
    {
      if st.StChunked? then StChunked(st.consumed, decoder.State()) else st
    }

    ghost function State(): Conn
      reads Repr()
      requires Valid()
    {
      Conn(phase, keepAlive, reqBuf.Live(), respBuf.Live(), dechunked.Live(), line, headers, body,
           bodyStart, bodyLen, coding, producer, nextReq, requests, ScratchState())
    }

    ghost function System(): Sys
      reads Repr()
      requires Valid()
    {
      Sys(State(), World(sock.net, host.replies, host.dates), log)
    }

    constructor (sock: Socket, host: Host)
      ensures Valid() && System() == Sys(FRESH, World(sock.net, host.replies, host.dates), NO_LOG)
      ensures this.sock == sock && this.host == host && fresh(Repr() - {sock, host})
    {
      this.sock, this.host := sock, host;
      reqBuf := new HttpBuffer(MAX_REQUEST_LEN);
      respBuf := new HttpBuffer(RESPONSE_BUFFER_SIZE);
      dechunked := new HttpBuffer(MAX_DECHUNK_SIZE);
      decoder := new ChunkDecoder();
      phase, keepAlive, requests := ReadingRequest, false, 0;
      line, headers, body := NO_LINE, [], [];
      bodyStart, bodyLen, coding, nextReq := 0, 0, TeNone, 0;
      producer, st := None, StSend(0);
      log := NO_LOG;
    }

    /** connection_init: a new peer takes over the slot; some fields stay as they were. */
    method Init(net: Net)
      requires Valid()
      modifies this, sock, reqBuf`size, respBuf`size, dechunked`size
      ensures Valid() && System() == Start(old(State()), World(net, old(host.replies), old(host.dates)))
    {
      ghost var before := State();
      sock.net := net;
      line, headers, body, st := NO_LINE, [], [], StSend(0);
      reqBuf.size := 0;
      respBuf.size := 0;
      dechunked.size := 0;
      requests, phase, log := 0, ReadingRequest, NO_LOG;
      assert State() == Reused(before);
    }

    // -------------------------------------------------------------- shared moves

    /** recv into the request buffer. */
    method Receive() returns (r: RecvResult)
      requires Valid() && reqBuf.size < MAX_REQUEST_LEN
      modifies sock, reqBuf`size, reqBuf.data, `log
      ensures Valid()
      ensures var (result, net) := Recv(old(sock.net), MAX_REQUEST_LEN - old(reqBuf.size));
        && r == result
        && System() == if r.Got? then Arrive(old(System()), r.piece, net) else WithNet(old(System()), net)
    {
      r := sock.RecvInto(reqBuf);
      if r.Got? { log := log.(received := log.received + r.piece); }
    }

    /** phase_send_begin: the response buffer goes out from byte 0. */
    method SendBeginBuffered(ghost why: Answer)
      requires Valid() && Bounded(State()) && phase != Closed && respBuf.size > 0
      modifies `phase, `st, `log
      ensures Valid() && System() == SendBegin(old(System()), old(respBuf.Live()), why)
    {
      phase, st := SendingResponse, StSend(0);
      log := log.(current := [], junk := [], due := respBuf.Live(), answers := log.answers + [why]);
    }

    /** response_error_serialize, then phase_send_begin. */
    method RespondError(status: ParseStatus)
      requires Valid() && ConnSpec.Valid(State()) && phase != Closed
      modifies host`dates, respBuf`size, respBuf.data, `phase, `st, `log
      ensures Valid() && System() == SendError(old(System()), status)
    {
      var date := host.Clock();
      var size := SerializeResponse(ErrorResponse(status), date, respBuf.data, false);
      ErrorFits(status, date, false);
      respBuf.size := size;
      SendBeginBuffered(Refusal(status, |log.received|, |sock.net.recvs|));
    }

    /** phase_body_dispatch. */
    method DispatchBody()
      requires Valid() && ConnSpec.Valid(State()) && phase != Closed && bodyStart <= reqBuf.size
      modifies decoder, dechunked`size, `phase, `st, `body, `nextReq
      ensures Valid() && System() == BodyDispatch(old(System()))
    {
      if coding == TeChunked {
        decoder.Reset();
        dechunked.size := 0;
        phase, st := ReadingBodyChunked, StChunked(0, START);
      } else if bodyLen == 0 {
        body, nextReq, phase := [], bodyStart, Building;
      } else {
        phase, st := ReadingBodyCl, StCl(reqBuf.size - bodyStart);
      }
    }

    // -------------------------------------------------------------- reading the head

    /** conn_recv_header. */
    method RecvHeader() returns (status: HeadStatus)
      requires Valid() && In(System(), ReadingRequest)
      modifies sock, reqBuf`size, reqBuf.data, `log
      ensures Valid() && (status, System()) == ReadHead(old(System()))
    {
      hide FindTerminator;
      while true
        invariant Valid() && In(System(), ReadingRequest)
        invariant ReadHead(System()) == ReadHead(old(System()))
        decreases |sock.net.recvs|
      {
        var terminator := TerminatorFind(reqBuf.data[..reqBuf.size]);
        if terminator.Some? { return HeadFound; }
        if reqBuf.size >= reqBuf.data.Length { return HeadTooLarge; }
        ghost var before := System();
        var got := Receive();
        match got
        case Eof => return HeadClosed;
        case Again => return HeadMore;
        case RecvError => return HeadIoError;
        case _ =>
      }
    }

    /** The decisions of step_header_read on a parsed request, in the order it takes them. */
    method Decide(line: RequestLine, headers: seq<Header>) returns (a: Admission, keep: bool, seen: TransferCoding)
      ensures a == AdmissionOf(line, headers) && keep == WantsKeepAlive(line, headers)
      ensures seen == CodingSeen(FRESH.(coding := coding), line, headers)
    {
      keep, seen := false, coding;
      var is10 := AsciiIeq(line.version, HTTP_1_0);
      if !is10 {
        var h := HeaderFind(headers, HOST);
        if h.None? { return Refuse(BadRequest), false, coding; }
        var ka := HeaderFind(headers, CONNECTION);
        keep := true;
        if ka.Some? { keep := AsciiIeq(KEEP_ALIVE_TOKEN, ka.value.value); }
      }
      var status;
      status, seen := FindCoding(headers);
      if seen == TeUnsupported { return Refuse(NotImplemented), keep, seen; }
      if status != ParseOk { return Refuse(status), keep, seen; }
      if is10 && seen == TeChunked { return Refuse(BadRequest), keep, seen; }
      var length := HeaderFind(headers, CONTENT_LENGTH);
      if length.Some? && seen == TeChunked { return Refuse(BadRequest), keep, seen; }
      var n := 0;
      if length.Some? {
        var parsed := ParseUint(length.value.value, 10, MAX_BODY_LEN);
        if parsed.Failure? { return Refuse(parsed.status), keep, seen; }
        n := parsed.value;
      }
      var hasBody := seen == TeChunked || n > 0;
      if line.verb == HEAD && hasBody { return Refuse(BadRequest), keep, seen; }
      var interim := HeaderFind(headers, EXPECT);
      var continues := false;
      if interim.Some? { continues := AsciiIeq(CONTINUE_TOKEN, interim.value.value); }
      return Admit(seen, n, !is10 && hasBody && continues), keep, seen;
    }

    /** The loop over the Transfer-Encoding headers. */
    method FindCoding(headers: seq<Header>) returns (status: ParseStatus, seen: TransferCoding)
      ensures (status, seen) == CodingOf(headers, 0, ParseOk, TeNone)
    {
      status, seen := ParseOk, TeNone;
      for i := 0 to |headers|
        invariant CodingOf(headers, i, status, seen) == CodingOf(headers, 0, ParseOk, TeNone)
      {
        if seen == TeUnsupported || status != ParseOk { break; }
        var isCoding := AsciiIeq(headers[i].key, TRANSFER_ENCODING);
        if isCoding { status, seen := TransferEncodingParse(headers[i].value); }
      }
    }

    /** step_header_read. */
    method ReadRequest()
      requires Valid() && In(System(), ReadingRequest)
      modifies Repr()
      ensures Valid() && System() == StepHeader(old(System()))
    {
      var status := RecvHeader();
      match status
      case HeadFound => AcceptHead();
      case HeadMore =>
      case HeadTooLarge => RespondError(HeaderTooLong);
      case _ => phase := Closed;
    }

    method AcceptHead()
      requires Valid() && In(System(), ReadingRequest) && HasTerminator(reqBuf.Live(), |reqBuf.Live()|)
      modifies Repr()
      ensures Valid() && System() == HeadArrived(old(System()))
    {
      var buf := reqBuf.data[..reqBuf.size];
      var parsed := RequestParse(buf, |buf|);
      if parsed.Failure? {
        RespondError(parsed.status);
        return;
      }
      var head := parsed.value;
      ScannersAgree(buf, |buf|);
      var a, keep, seen := Decide(head.line, head.headers);
      AdmitHead(head, a, keep, seen);
    }

    method AdmitHead(head: Head, a: Admission, keep: bool, seen: TransferCoding)
      requires Valid() && In(System(), ReadingRequest) && HasTerminator(reqBuf.Live(), |reqBuf.Live()|)
      requires head.next == HeadEnd(reqBuf.Live(), |reqBuf.Live()|)
      requires keep == WantsKeepAlive(head.line, head.headers) && seen == CodingSeen(State(), head.line, head.headers)
      modifies Repr()
      ensures Valid() && System() == Admitted(old(System()), head.line, head.headers, a)
    {
      hide BodyDispatch, SendError, HasTerminator, HeadEnd, FindTerminator, WantsKeepAlive, CodingSeen, StoreFraming;
      KeepHead(head, keep, seen);
      match a
      case Refuse(status) => RespondError(status);
      case Admit(framing, length, expects) =>
        KeepFraming(framing, length);
        if expects && reqBuf.size == bodyStart { Begin100(); } else { DispatchBody(); }
    }

    method Begin100()
      requires Valid()
      modifies `phase, `st, `log
      ensures Valid() && System() == old(
                var s := System();
                s.(c := s.c.(phase := Sending100, st := StSend(0)), l := s.l.(current := [], due := CONTINUE_100)))
    {
      phase, st := Sending100, StSend(0);
      log := log.(current := [], due := CONTINUE_100);
    }

    method KeepHead(head: Head, keep: bool, seen: TransferCoding)
      requires Valid() && HasTerminator(reqBuf.Live(), |reqBuf.Live()|)
          && head.next == HeadEnd(reqBuf.Live(), |reqBuf.Live()|)
      requires keep == WantsKeepAlive(head.line, head.headers) && seen == CodingSeen(State(), head.line, head.headers)
      modifies `line, `headers, `bodyStart, `keepAlive, `coding
      ensures Valid() && System() == old(System()).(c := StoreHead(old(State()), head.line, head.headers))
    {
      hide HasTerminator, HeadEnd, FindTerminator, WantsKeepAlive, CodingSeen;
      line, headers, bodyStart := head.line, head.headers, head.next;
      if keep { keepAlive := true; }
      coding := seen;
    }

    method KeepFraming(framing: TransferCoding, length: nat)
      requires Valid()
      modifies `coding, `bodyLen
      ensures Valid() && System() == old(System()).(c := StoreFraming(old(State()), framing, length))
    {
      coding := framing;
      var declared := HeaderFind(headers, CONTENT_LENGTH);
      if declared.Some? { bodyLen := length; }
    }

    // -------------------------------------------------------------- reading the body

    /** conn_recv_body_cl. */
    method RecvBodyCl() returns (status: BodyStatus)
      requires Valid() && In(System(), ReadingBodyCl)
      modifies sock, reqBuf`size, reqBuf.data, `st, `log
      ensures Valid() && (status, System()) == ReadCl(old(System()))
    {
      while true
        invariant Valid() && In(System(), ReadingBodyCl)
        invariant ReadCl(System()) == ReadCl(old(System()))
        decreases |sock.net.recvs|
      {
        if st.received >= bodyLen { return BodyOk; }
        if reqBuf.size >= reqBuf.data.Length { return BodyTooLarge; }
        var got := ReceiveCl();
        match got
        case Eof => return BodyClosed;
        case Again => return BodyMore;
        case RecvError => return BodyIoError;
        case _ =>
      }
    }

    method ReceiveCl() returns (r: RecvResult)
      requires Valid() && In(System(), ReadingBodyCl) && reqBuf.size < MAX_REQUEST_LEN
      modifies sock, reqBuf`size, reqBuf.data, `st, `log
      ensures Valid() && In(System(), ReadingBodyCl)
      ensures var (result, net) := Recv(old(sock.net), MAX_REQUEST_LEN - old(reqBuf.size));
        && r == result
        && System() == if r.Got? then ArriveCl(old(System()), r.piece, net) else WithNet(old(System()), net)
    {
      r := Receive();
      if r.Got? { st := StCl(st.received + |r.piece|); }
    }

    /** step_body_cl_read. */
    method ReadBodyCl()
      requires Valid() && In(System(), ReadingBodyCl)
      modifies Repr()
      ensures Valid() && System() == StepBodyCl(old(System()))
    {
      var status := RecvBodyCl();
      FinishCl(status);
    }

    method FinishCl(status: BodyStatus)
      requires Valid() && In(System(), ReadingBodyCl) && (status == BodyOk ==> st.received >= bodyLen)
      modifies Repr()
      ensures Valid() && System() == AfterCl(status, old(System()))
    {
      match status
      case BodyOk =>
        body := reqBuf.data[bodyStart..reqBuf.size];
        assert body == reqBuf.Live()[bodyStart..];
        nextReq := if st.received > bodyLen then bodyStart + bodyLen else 0;
        phase := Building;
      case BodyMore =>
      case _ => RespondError(BadRequest);
    }

    /** The inner loop of conn_recv_body_chunked: advance the decoder over what is buffered. */
    method DrainBuffered() returns (verdict: Verdict)
      requires Valid() && In(System(), ReadingBodyChunked)
      modifies decoder, dechunked`size, dechunked.data, `st
      ensures Valid() && verdict == DrainBody(old(System())).verdict
      ensures System() == Drew(old(System()), DrainBody(old(System())))
    {
      var cap := dechunked.data.Length;
      while true
        invariant Valid() && In(System(), ReadingBodyChunked)
        invariant DrainBody(System()) == DrainBody(old(System()))
        invariant System() == Drew(old(System()), Drained(decoder.State(), More, st.consumed, dechunked.Live()))
        decreases reqBuf.size - bodyStart - st.consumed
      {
        var done, v := AdvanceOnce();
        if done { return v; }
      }
    }

    /** One chunk_advance, its counters updated; done when the inner loop stops. */
    method AdvanceOnce() returns (done: bool, v: Verdict)
      requires Valid() && In(System(), ReadingBodyChunked)
      modifies decoder, dechunked`size, dechunked.data, `st
      ensures Valid() && st.StChunked?
      ensures var a := Advance(old(decoder.State()), old(RawBody(State())), old(st.consumed),
                               MAX_DECHUNK_SIZE - old(dechunked.size));
        && v == StepVerdict(a) && (done <==> !(v == More && a.status == ParseOk))
        && System() == Drew(old(System()), Drained(a.dec, More, a.next, old(dechunked.Live()) + a.out))
    {
      ghost var raw := RawBody(State());
      assert raw == reqBuf.data[bodyStart..reqBuf.size];
      var status, next, written :=
        decoder.AdvanceChunk(reqBuf.data, bodyStart, st.consumed, reqBuf.size, dechunked.data, dechunked.size);
      st := StChunked(next, START);
      dechunked.size := dechunked.size + written;
      if status == PayloadTooLarge { return true, TooLarge; }
      if status != ParseOk && status != Incomplete { return true, Rejected; }
      if decoder.phase == ChunkDone { return true, Complete; }
      if status == Incomplete { return true, More; }
      return false, More;
    }

    /** conn_recv_body_chunked. */
    method RecvBodyChunked() returns (status: BodyStatus)
      requires Valid() && In(System(), ReadingBodyChunked)
      modifies sock, reqBuf`size, reqBuf.data, decoder, dechunked`size, dechunked.data, `st, `log
      ensures Valid() && (status, System()) == ReadChunked(old(System()))
    {
      while true
        invariant Valid() && In(System(), ReadingBodyChunked)
        invariant ReadChunked(System()) == ReadChunked(old(System()))
        decreases |sock.net.recvs|
      {
        var verdict := DrainBuffered();
        match verdict {
          case TooLarge => return BodyTooLarge;
          case Rejected => return BodyBadData;
          case Complete => return BodyOk;
          case More =>
        }
        if reqBuf.size >= reqBuf.data.Length { return BodyTooLarge; }
        var got := Receive();
        match got
        case Eof => return BodyClosed;
        case Again => return BodyMore;
        case RecvError => return BodyIoError;
        case _ =>
      }
    }

    /** step_body_chunked_read. */
    method ReadBodyChunked()
      requires Valid() && In(System(), ReadingBodyChunked)
      modifies Repr()
      ensures Valid() && System() == StepBodyChunked(old(System()))
    {
      var status := RecvBodyChunked();
      FinishChunked(status);
    }

    method FinishChunked(status: BodyStatus)
      requires Valid() && In(System(), ReadingBodyChunked)
      modifies Repr()
      ensures Valid() && System() == AfterChunked(status, old(System()))
    {
      match status
      case BodyOk =>
        body := dechunked.data[..dechunked.size];
        nextReq := bodyStart + st.consumed;
        phase := Building;
      case BodyMore =>
      case BodyTooLarge => RespondError(PayloadTooLarge);
      case _ => RespondError(BadRequest);
    }

    // -------------------------------------------------------------- building the response

    /** stream_release. */
    method ReleaseStream()
      requires Valid()
      modifies `producer, `log
      ensures Valid() && System() == Release(old(System()))
    {
      if producer.Some? && producer.value.hasCleanup { log := log.(events := log.events + [CleanedUp]); }
      producer := None;
    }

    /** request_consume: the bytes behind the request move to the front. */
    method ConsumeRequest()
      requires Valid() && In(System(), Building)
      modifies reqBuf`size, reqBuf.data, `nextReq, `log
      ensures Valid() && System() == Consume(old(System()))
    {
      ghost var span := SpanLength(State());
      ghost var buf := reqBuf.Live();
      log := log.(built := log.built + [Built(line, headers, buf[..span], FramedBody(State()))]);
      if nextReq > 0 {
        var pipelined := reqBuf.data[nextReq..reqBuf.size];
        assert pipelined == buf[span..];
        Memcpy(reqBuf.data, 0, pipelined);
        reqBuf.size := |pipelined|;
      } else {
        reqBuf.size := 0;
      }
      nextReq := 0;
    }

    /** The serialized response, or the 500 that replaces one that does not fit. */
    method SerializeOrFail(r: Response, date: Date)
      requires Valid()
      modifies respBuf`size, respBuf.data
      ensures Valid() && respBuf.size > 0
      ensures System() == old(System()).(c := old(State()).(respBuf := Text(r, date, old(keepAlive))))
    {
      hide Serialize;
      var size := SerializeResponse(r, date, respBuf.data, keepAlive);
      if size < 0 {
        ErrorFits(ServerError, date, keepAlive);
        size := SerializeResponse(ErrorResponse(ServerError), date, respBuf.data, keepAlive);
      }
      assert respBuf.data[..size] == Text(r, date, keepAlive);
      respBuf.size := size;
    }

    /** Serializing before the request is consumed makes no difference. */
    static lemma PlainStages(s: Sys, text: bytes, why: Answer)
      requires In(s, Building) && 0 < |text| <= RESPONSE_BUFFER_SIZE
      ensures SendBegin(Consume(s.(c := s.c.(respBuf := text))), text, why) == SendBegin(Consume(s), text, why)
    {
    }

    method RespondPlain(r: Response, date: Date)
      requires Valid() && In(System(), Building)
      modifies Repr()
      ensures Valid() && System() == BuildPlain(old(System()), r, date)
    {
      hide Text, Consume, SendBegin, SpanLength;
      ghost var why := ReplyTo(|log.built| + 1);
      PlainStages(System(), Text(r, date, keepAlive), why);
      SerializeOrFail(r, date);
      ConsumeRequest();
      SendBeginBuffered(why);
    }

    method RespondStream(r: Response, p: Producer, date: Date)
      requires Valid() && In(System(), Building)
      modifies Repr()
      ensures Valid() && System() == BuildStream(old(System()), r, p, date)
    {
      InstallStream(p);
      ghost var installed := System();
      var head := SerializeResponse(r, date, respBuf.data, keepAlive);
      if head < 0 {
        FailStream(date, installed);
      } else {
        BeginStream(head, p, installed);
      }
    }

    method InstallStream(p: Producer)
      requires Valid()
      modifies `producer, `log
      ensures Valid() && System() == Install(old(System()), p)
    {
      producer := Some(p);
      log := log.(events := log.events + [Installed(p.hasCleanup)]);
    }

    /** The head did not fit: the stream is given back and a 500 is sent instead. */
    method FailStream(date: Date, ghost installed: Sys)
      requires Valid() && In(System(), Building) && In(installed, Building)
      requires System() == installed.(c := installed.c.(respBuf := respBuf.Live()))
      modifies Repr()
      ensures Valid() && System() == BuildPlain(Release(installed), ErrorResponse(ServerError), date)
    {
      ReleaseStream();
      StagingIrrelevant(Release(installed), respBuf.Live(), ErrorResponse(ServerError), date);
      RespondPlain(ErrorResponse(ServerError), date);
    }

    lemma ConsumeKeepsResponse(s: Sys, buf: bytes, p: Producer)
      requires In(s, Building) && |buf| <= RESPONSE_BUFFER_SIZE
      ensures StreamBegin(Consume(s.(c := s.c.(respBuf := buf))), buf, p) == StreamBegin(Consume(s), buf, p)
    {
      hide StreamText;
    }

    method BeginStream(head: nat, p: Producer, ghost installed: Sys)
      requires Valid() && In(System(), Building) && In(installed, Building) && head <= respBuf.data.Length
      requires System() == installed.(c := installed.c.(respBuf := respBuf.Live()))
      modifies Repr()
      ensures Valid() && System() == StreamBegin(Consume(installed), old(respBuf.data[..head]), p)
    {
      hide StreamText, Consume, StreamBegin;
      respBuf.size := head;
      ConsumeKeepsResponse(installed, respBuf.Live(), p);
      ConsumeRequest();
      LaunchStream(p);
    }

    method LaunchStream(p: Producer)
      requires Valid()
      modifies `phase, `st, `log
      ensures Valid() && System() == StreamBegin(old(System()), old(respBuf.Live()), p)
    {
      st, phase := StStream(StreamHeader, 0), SendingStream;
      log := log.(current := [], due := StreamText(respBuf.Live(), p.script), head := respBuf.Live(), payloads := [],
                  script := p.script, answers := log.answers + [ReplyTo(|log.built|)]);
    }

    /** step_response_build. */
    method BuildResponse()
      requires Valid() && In(System(), Building)
      modifies Repr()
      ensures Valid() && System() == StepBuild(old(System()))
    {
      var reply := host.Handle();
      var date := host.Clock();
      match reply
      case Plain(r) => RespondPlain(r, date);
      case Stream(r, p) => RespondStream(r.(kind := BodyStream), p, date);
    }

    // -------------------------------------------------------------- sending

    /** response_send of the response buffer from `sent`. */
    method SendBuffered(sent: nat) returns (status: SendStatus, now: nat)
      requires Valid() && sent < respBuf.size
      modifies sock, `log
      ensures Valid() && (status, now, System()) == SendSome(old(System()), old(respBuf.Live()), sent)
    {
      status, now := SendText(respBuf.data[..respBuf.size], sent);
    }

    method SendText(text: bytes, sent: nat) returns (status: SendStatus, now: nat)
      requires Valid() && sent < |text|
      modifies sock, `log
      ensures Valid() && (status, now, System()) == SendSome(old(System()), text, sent)
    {
      var r := sock.SendOff(|text| - sent);
      match r
      case Blocked => return SendMore, sent;
      case Gone => return SendClosed, sent;
      case Broken => return SendFault, sent;
      case Sent(n) =>
        log := Emitted(log, text[sent..sent + n]);
        return if sent + n == |text| then SendOk else SendMore, sent + n;
    }

    /** step_send_100. */
    method Send100()
      requires Valid() && In(System(), Sending100)
      modifies Repr()
      ensures Valid() && System() == Step100(old(System()))
    {
      hide BodyDispatch, SendSome, Emitted, Advances, Rank;
      var status, sent := SendText(CONTINUE_100, st.sent);
      match status
      case SendMore => st := StSend(sent);
      case SendOk =>
        log := Finished(log, Continue);
        DispatchBody();
      case _ => phase := Closed;
    }

    /** connection_reset. */
    method ResetFields()
      requires Valid()
      modifies `st, respBuf`size, `line, `headers, `body, `keepAlive, `bodyStart, `bodyLen, `coding
      ensures Valid() && System() == old(System()).(c := Reset(old(State())))
    {
      ghost var before := System();
      respBuf.size := 0;
      line, headers, body, st := NO_LINE, [], [], StSend(0);
      keepAlive, bodyStart, bodyLen, coding := false, 0, 0, TeNone;
      assert State() == Reset(before.c);
    }

    /** The end of a response: close, or connection_reset and wait for the next request. */
    method FinishResponse()
      requires Valid() && Bounded(State()) && phase != Closed
      modifies `requests, `phase, `st, respBuf`size, `line, `headers, `body, `keepAlive, `bodyStart, `bodyLen, `coding
      ensures Valid() && System() == NextRequest(old(System()))
    {
      hide Reset;
      requests := requests + 1;
      if !keepAlive || requests >= MAX_REQUESTS {
        phase := Closed;
        return;
      }
      ResetFields();
      phase := ReadingRequest;
    }

    /** step_response_send. */
    method SendResponse()
      requires Valid() && In(System(), SendingResponse)
      modifies Repr()
      ensures Valid() && System() == StepSend(old(System()))
    {
      hide NextRequest, SendSome, Emitted, Advances, Rank;
      var status, sent := SendBuffered(st.sent);
      match status
      case SendMore =>
        st := StSend(0);
        log := log.(junk := log.junk + log.current, current := []);
      case SendOk =>
        log := Finished(log, Buffered(respBuf.Live(), log.junk));
        FinishResponse();
      case _ => phase := Closed;
    }

    // -------------------------------------------------------------- streaming

    /** stream_abort. */
    method AbortStream()
      requires Valid() && st.StStream?
      modifies `producer, `phase, `st, `log
      ensures Valid() && System() == Abort(old(System()))
    {
      ReleaseStream();
      st := StStream(StreamDone, st.sent);
      phase := Closed;
    }

    /** STREAM_HEADER, STREAM_DRAIN and STREAM_TRAILER. */
    method SendStaged() returns (goOn: bool)
      requires Valid() && In(System(), SendingStream) && SendsBuffer(st.stream)
      modifies sock, `producer, `phase, `st, `log
      ensures Valid() && (goOn, System()) == StreamSend(old(System()))
    {
      var status, sent := SendBuffered(st.sent);
      match status
      case SendOk =>
        st := StStream(AfterSend(st.stream), 0);
        return true;
      case SendMore =>
        st := StStream(st.stream, sent);
        return false;
      case _ =>
        AbortStream();
        return false;
    }

    /** STREAM_PULL. */
    method PullStage() returns (goOn: bool)
      requires Valid() && In(System(), SendingStream) && st.stream == StreamPull
      modifies respBuf`size, respBuf.data, `producer, `phase, `st, `log
      ensures Valid() && (goOn, System()) == StreamPullOne(old(System()))
    {
      hide Frame, PullsLeft, StreamText;
      var script := producer.value.script;
      if script == [] {
        log := log.(events := log.events + [Pulled(false)]);
        var f := WriteLastFrame(respBuf.data);
        respBuf.size := f;
        st := StStream(StreamTrailer, 0);
        return true;
      }
      match script[0]
      case PullFailed =>
        log := log.(events := log.events + [Pulled(false)]);
        AbortStream();
        return false;
      case PullOk(data) =>
        log := log.(events := log.events + [Pulled(true)], payloads := log.payloads + [data]);
        producer := Some(producer.value.(script := script[1..]));
        FrameFits(data);
        var f := WriteFrame(data, respBuf.data);
        respBuf.size := f;
        st := StStream(StreamDrain, 0);
        return true;
    }

    /** STREAM_DONE. */
    method FinishStream()
      requires Valid() && In(System(), SendingStream) && st.stream == StreamDone
      modifies Repr()
      ensures Valid() && (false, System()) == StreamTurn(old(System()))
    {
      hide NextRequest, Release, Finished, PullsLeft, StreamRank, StreamPullOne, StreamSend;
      log := Finished(log, Streamed(log.head, log.payloads, log.script));
      ReleaseStream();
      FinishResponse();
    }

    /** step_response_send_stream. */
    method SendStream()
      requires Valid() && In(System(), SendingStream)
      modifies Repr()
      ensures Valid() && System() == StepStream(old(System()))
    {
      while true
        invariant Valid() && In(System(), SendingStream)
        invariant StepStream(System()) == StepStream(old(System()))
        decreases PullsLeft(State()), StreamRank(st.stream)
      {
        var goOn := TurnStream();
        if !goOn { return; }
      }
    }

    method TurnStream() returns (goOn: bool)
      requires Valid() && In(System(), SendingStream)
      modifies Repr()
      ensures Valid() && (goOn, System()) == StreamTurn(old(System()))
    {
      match st.stream
      case StreamPull => goOn := PullStage();
      case StreamDone =>
        FinishStream();
        goOn := false;
      case _ => goOn := SendStaged();
    }

    // -------------------------------------------------------------- the dispatcher

    /** One turn of the dispatcher's switch. */
    method StepOnce()
      requires Valid() && ConnSpec.Valid(State())
      modifies Repr()
      ensures Valid() && System() == Step(old(System()))
    {
      match phase
      case ReadingRequest => ReadRequest();
      case Sending100 => Send100();
      case ReadingBodyCl => ReadBodyCl();
      case ReadingBodyChunked => ReadBodyChunked();
      case Building => BuildResponse();
      case SendingResponse => SendResponse();
      case SendingStream => SendStream();
      case Closed =>
    }

    /** connection_step_process: it always returns, and leaves what the dispatch function says. */
    method StepProcess()
      requires Valid() && ConnSpec.Valid(State())
      modifies Repr()
      ensures Valid() && ConnSpec.Valid(State()) && System() == Dispatch(old(System()))
    {
      while true
        invariant Valid() && ConnSpec.Valid(State())
        invariant Dispatch(System()) == Dispatch(old(System()))
        decreases MAX_REQUESTS - requests, Rank(phase)
      {
        var prev := phase;
        ghost var before := System();
        StepOnce();
        assert System() == Step(before);
        if phase == prev || phase == Closed { return; }
      }
    }

    /** The poll loop's part in a connection: `k` wake-ups, one after the other. */
    method Serve(k: nat)
      requires Valid() && ConnSpec.Valid(State())
      modifies Repr()
      ensures Valid() && System() == Run(old(System()), k)
    {
      for i := 0 to k
        invariant Valid() && ConnSpec.Valid(State()) && System() == Run(old(System()), i)
      {
        StepProcess();
      }
    }
  }

  /** What is left in the response buffer by a failed attempt plays no part in the next. */
  lemma StagingIrrelevant(s: Sys, staged: bytes, r: Response, date: Date)
    requires In(s, Building) && |staged| <= RESPONSE_BUFFER_SIZE
    ensures BuildPlain(s.(c := s.c.(respBuf := staged)), r, date) == BuildPlain(s, r, date)
  {
  }
}
