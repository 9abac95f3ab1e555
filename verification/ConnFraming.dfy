/**
 Conservation and framing over every run of a connection: no received byte is lost, duplicated
 or attributed to the wrong request, however the network cuts the stream.

 The invariant says for each phase what the buffer, the stored head and the decoder know about
 the bytes received so far. The lemmas show that every step keeps it: first single receives,
 then the reading loops, the steps, the dispatcher and whole runs.
 */
module ConnFraming {
  import opened Bytes
  import opened Config
  import opened ChunkSpec
  import opened ChunkGrammar
  import opened RequestLines
  import opened Headers
  import opened Requests
  import opened TransferEncoding
  import opened Admissions
  import opened Responses
  import opened Network
  import opened ConnSpec
  import opened Framing

  // ---------------------------------------------------------------- the invariant

  /** All bytes received are the consumed requests, in order, and then the buffer. */
  predicate Accounted(received: bytes, built: seq<Built>, buffer: bytes) {
    received == Spans(built) + buffer && AllWhole(built)
  }

  predicate Conserved(s: Sys) {
    Accounted(s.l.received, s.l.built, s.c.reqBuf)
  }

  /** A buffer holds a whole head with this end, line, headers and framing. */
  predicate HeadIs(buf: bytes, bodyStart: nat, line: RequestLine, headers: seq<Header>, coding: TransferCoding,
                   bodyLen: nat) {
    && HasTerminator(buf, |buf|) && bodyStart == HeadEnd(buf, |buf|)
    && ParseRequest(buf, |buf|) == Success(Head(line, headers, bodyStart))
    && FramedBy(AdmissionOf(line, headers), coding, bodyLen)
  }

  predicate FramedBy(a: Admission, coding: TransferCoding, bodyLen: nat) {
    a.Admit? && a.coding == coding && a.bodyLen == bodyLen
  }

  /** The stored head, framing and body offset are those of the buffered bytes. */
  predicate HeadKnown(c: Conn) {
    HeadIs(c.reqBuf, c.bodyStart, c.line, c.headers, c.coding, c.bodyLen)
  }

  /** A decoder stands where decoding the whole raw body from its first byte would. */
  predicate Resumes(dec: Decoder, raw: bytes, consumed: nat, out: bytes) {
    && dec.Valid() && consumed <= |raw| && |out| <= MAX_DECHUNK_SIZE
    && SameOutcome(Drain(dec, raw, consumed, out, MAX_DECHUNK_SIZE), Decode(raw, MAX_DECHUNK_SIZE))
  }

  predicate DecoderKnown(c: Conn) {
    && c.st.StChunked? && c.bodyStart <= |c.reqBuf|
    && Resumes(c.st.dec, RawBody(c), c.st.consumed, c.dechunked)
  }

  /** The first `n` bytes of a buffer are exactly one whole request. */
  predicate SpanIs(buf: bytes, n: nat, line: RequestLine, headers: seq<Header>, body: bytes) {
    n <= |buf| && IsWhole(Built(line, headers, buf[..n], body))
  }

  /** The bytes request_consume is about to take are exactly one whole request. */
  predicate SpanKnown(c: Conn) {
    SpanIs(c.reqBuf, SpanLength(c), c.line, c.headers, FramedBody(c))
  }

  predicate PhaseKnown(c: Conn) {
    match c.phase
    case ReadingRequest => c.bodyLen == 0
    case Sending100 => HeadKnown(c)
    case ReadingBodyCl => HeadKnown(c) && c.coding != TeChunked && c.bodyLen > 0
    case ReadingBodyChunked => HeadKnown(c) && c.coding == TeChunked && DecoderKnown(c)
    case Building => SpanKnown(c)
    case _ => true
  }

  predicate FrameInv(s: Sys) {
    Valid(s.c) && Conserved(s) && PhaseKnown(s.c)
  }

  // ---------------------------------------------------------------- moves

  lemma AccountArrival(received: bytes, built: seq<Built>, buffer: bytes, piece: bytes)
    requires Accounted(received, built, buffer)
    ensures Accounted(received + piece, built, buffer + piece)
  {
    assert Spans(built) + buffer + piece == Spans(built) + (buffer + piece);
  }

  /** `r` is `s` after receiving some bytes: they are in the buffer and in the log, nowhere else. */
  predicate Gained(s: Sys, r: Sys) {
    && s.c.reqBuf <= r.c.reqBuf && r.l == s.l.(received := s.l.received + r.c.reqBuf[|s.c.reqBuf|..])
    && SameStream(s, r)
  }

  /** Nothing the peer sent is lost between the wire and the log. */
  predicate SameStream(s: Sys, r: Sys) {
    s.l.received + s.w.net.incoming == r.l.received + r.w.net.incoming
  }

  lemma GainsNothing(s: Sys, r: Sys)
    requires r.l == s.l && r.c.reqBuf == s.c.reqBuf && r.w.net.incoming == s.w.net.incoming
    ensures Gained(s, r)
  {
    assert s.l.received + s.c.reqBuf[|s.c.reqBuf|..] == s.l.received;
  }

  lemma GainsPiece(s: Sys, piece: bytes, net: Net)
    requires piece + net.incoming == s.w.net.incoming
    ensures Gained(s, Arrive(s, piece, net))
  {
    assert (s.c.reqBuf + piece)[|s.c.reqBuf|..] == piece;
    assert s.l.received + (piece + net.incoming) == s.l.received + piece + net.incoming;
  }

  lemma GainsMore(s: Sys, m: Sys, r: Sys)
    requires Gained(s, m) && Gained(m, r)
    ensures Gained(s, r)
  {
    var n, k := |s.c.reqBuf|, |m.c.reqBuf|;
    assert r.c.reqBuf[n..] == m.c.reqBuf[n..] + r.c.reqBuf[k..];
    assert s.l.received + (m.c.reqBuf[n..] + r.c.reqBuf[k..]) == s.l.received + m.c.reqBuf[n..] + r.c.reqBuf[k..];
  }

  lemma GainConserves(s: Sys, r: Sys)
    requires Conserved(s) && Gained(s, r)
    ensures Conserved(r)
  {
    AccountArrival(s.l.received, s.l.built, s.c.reqBuf, r.c.reqBuf[|s.c.reqBuf|..]);
    assert s.c.reqBuf + r.c.reqBuf[|s.c.reqBuf|..] == r.c.reqBuf;
  }

  lemma HeadStays(buf: bytes, longer: bytes, bodyStart: nat, line: RequestLine, headers: seq<Header>,
                  coding: TransferCoding, bodyLen: nat)
    requires HeadIs(buf, bodyStart, line, headers, coding, bodyLen) && buf <= longer
    ensures HeadIs(longer, bodyStart, line, headers, coding, bodyLen)
  {
    HeadShared(buf, longer[|buf|..]);
    assert buf + longer[|buf|..] == longer;
  }

  lemma HeadKnownStays(c: Conn, d: Conn)
    requires HeadKnown(c) && c.reqBuf <= d.reqBuf
    requires d.bodyStart == c.bodyStart && d.line == c.line && d.headers == c.headers
    requires d.coding == c.coding && d.bodyLen == c.bodyLen
    ensures HeadKnown(d)
  {
    HeadStays(c.reqBuf, d.reqBuf, c.bodyStart, c.line, c.headers, c.coding, c.bodyLen);
  }

  /** The head is that of every prefix of the buffer that contains it. */
  lemma HeadFront(buf: bytes, n: nat, bodyStart: nat, line: RequestLine, headers: seq<Header>,
                  coding: TransferCoding, bodyLen: nat)
    requires HeadIs(buf, bodyStart, line, headers, coding, bodyLen) && bodyStart <= n <= |buf|
    ensures FrontOf(buf[..n]) == FrontBody(buf[..n], bodyStart, line, headers, AdmissionOf(line, headers))
  {
    hide FrontBody, AdmissionOf, ParseRequest, FindTerminator;
    var t := buf[..n];
    assert TerminatorAt(t, FindTerminator(buf, 0, |buf|).value, n);
    HeadShared(t, buf[n..]);
    assert t + buf[n..] == buf;
  }

  lemma LengthFront(span: bytes, bodyStart: nat, line: RequestLine, headers: seq<Header>, a: Admission,
                    coding: TransferCoding)
    requires bodyStart <= |span| && FramedBy(a, coding, |span| - bodyStart) && coding != TeChunked
    ensures FrontBody(span, bodyStart, line, headers, a) == Whole(Built(line, headers, span, span[bodyStart..]))
  {
    assert span[..|span|] == span;
  }

  lemma LengthSpan(buf: bytes, n: nat, bodyStart: nat, line: RequestLine, headers: seq<Header>, coding: TransferCoding)
    requires bodyStart <= n <= |buf| && HeadIs(buf, bodyStart, line, headers, coding, n - bodyStart)
        && coding != TeChunked
    ensures SpanIs(buf, n, line, headers, buf[bodyStart..n])
  {
    HeadFront(buf, n, bodyStart, line, headers, coding, n - bodyStart);
    PrefixTail(buf, bodyStart, n);
    LengthFront(buf[..n], bodyStart, line, headers, AdmissionOf(line, headers), coding);
  }

  lemma SpanOfLength(c: Conn)
    requires HeadKnown(c) && c.coding != TeChunked && c.bodyStart + c.bodyLen <= |c.reqBuf|
    requires SpanLength(c) == c.bodyStart + c.bodyLen
    ensures SpanKnown(c)
  {
    hide HeadIs, SpanIs;
    LengthSpan(c.reqBuf, c.bodyStart + c.bodyLen, c.bodyStart, c.line, c.headers, c.coding);
  }

  lemma PrefixTail(buf: bytes, from: nat, n: nat)
    requires from <= n <= |buf|
    ensures buf[..n][from..] == buf[from..n]
  {
  }

  lemma ChunkedFront(span: bytes, bodyStart: nat, line: RequestLine, headers: seq<Header>, a: Admission, bodyLen: nat)
    requires FramedBy(a, TeChunked, bodyLen) && bodyStart <= |span|
    requires var r := Decode(span[bodyStart..], MAX_DECHUNK_SIZE); r.verdict == Complete && bodyStart + r.pos == |span|
    ensures FrontBody(span, bodyStart, line, headers, a) ==
            Whole(Built(line, headers, span, Decode(span[bodyStart..], MAX_DECHUNK_SIZE).out))
  {
    assert span[..|span|] == span;
  }

  lemma SpanOfChunked(c: Conn, r: Drained)
    requires HeadKnown(c) && c.coding == TeChunked && c.bodyStart <= c.nextReq <= |c.reqBuf| && c.nextReq > 0
    requires r == Decode(RawBody(c), MAX_DECHUNK_SIZE) && r.verdict == Complete
    requires r.out == c.dechunked && c.nextReq == c.bodyStart + r.pos
    ensures SpanKnown(c)
  {
    hide FrontBody, FrontOf, Decode, ParseRequest, AdmissionOf, FindTerminator;
    var n := c.nextReq;
    HeadFront(c.reqBuf, n, c.bodyStart, c.line, c.headers, c.coding, c.bodyLen);
    assert c.reqBuf[..n][c.bodyStart..] == RawBody(c)[..r.pos];
    DecodePrefix(RawBody(c), MAX_DECHUNK_SIZE);
    ChunkedFront(c.reqBuf[..n], c.bodyStart, c.line, c.headers, AdmissionOf(c.line, c.headers), c.bodyLen);
  }

  /** A completed decode has looked at nothing beyond what it consumed. */
  lemma DecodePrefix(s: bytes, cap: nat)
    requires Decode(s, cap).verdict == Complete
    ensures Decode(s[..Decode(s, cap).pos], cap) == Decode(s, cap)
  {
    hide Drain, BodyText, Payload;
    var b := CompleteIsBody(s, 0, [], cap);
    BodyDrains(s, 0, b, [], cap);
    DecodeBody(b, [], cap);
    assert BodyText(b) + [] == BodyText(b);
    assert [] + Payload(b) == Payload(b);
  }

  /** Errors leave the buffer and the log of requests alone. */
  lemma SendErrorKeeps(s: Sys, status: ParseStatus)
    requires Valid(s.c) && s.c.phase != Closed && Conserved(s)
    ensures FrameInv(SendError(s, status))
  {
  }

  lemma DispatchKeeps(s: Sys)
    requires Valid(s.c) && s.c.phase != Closed && Conserved(s) && HeadKnown(s.c)
    ensures FrameInv(BodyDispatch(s))
  {
    var r := BodyDispatch(s);
    if s.c.coding != TeChunked && s.c.bodyLen == 0 { SpanOfLength(r.c); }
  }

  // ---------------------------------------------------------------- the head

  lemma {:induction false} ReadHeadGains(s: Sys)
    requires In(s, ReadingRequest)
    ensures Gained(s, ReadHead(s).1)
    decreases |s.w.net.recvs|
  {
    if HasTerminator(s.c.reqBuf, |s.c.reqBuf|) || |s.c.reqBuf| >= MAX_REQUEST_LEN {
      GainsNothing(s, s);
    } else {
      match Recv(s.w.net, MAX_REQUEST_LEN - |s.c.reqBuf|)
      case (Got(piece), net) =>
        var m := Arrive(s, piece, net);
        GainsPiece(s, piece, net);
        ReadHeadGains(m);
        GainsMore(s, m, ReadHead(m).1);
      case (Retry, net) =>
        GainsNothing(s, WithNet(s, net));
        ReadHeadGains(WithNet(s, net));
        GainsMore(s, WithNet(s, net), ReadHead(s).1);
      case (_, net) => GainsNothing(s, WithNet(s, net));
    }
  }

  lemma ReadHeadKeeps(s: Sys)
    requires FrameInv(s) && In(s, ReadingRequest)
    ensures FrameInv(ReadHead(s).1)
  {
    ReadHeadGains(s);
    GainConserves(s, ReadHead(s).1);
  }

  lemma AdmittedKeeps(s: Sys, head: Head)
    requires FrameInv(s) && In(s, ReadingRequest) && HasTerminator(s.c.reqBuf, |s.c.reqBuf|)
    requires ParseRequest(s.c.reqBuf, |s.c.reqBuf|) == Success(head)
    ensures FrameInv(Admitted(s, head.line, head.headers, AdmissionOf(head.line, head.headers)))
  {
    hide ParseRequest, FindTerminator, FrontOf, BodyDispatch, SendError;
    var a := AdmissionOf(head.line, head.headers);
    ScannersAgree(s.c.reqBuf, |s.c.reqBuf|);
    var s1 := s.(c := StoreHead(s.c, head.line, head.headers));
    match a
    case Refuse(status) => SendErrorKeeps(s1, status);
    case Admit(coding, bodyLen, _) =>
      assert Find(head.headers, CONTENT_LENGTH).None? ==> bodyLen == 0;
      DispatchKeeps(s1.(c := StoreFraming(s1.c, coding, bodyLen)));
  }

  lemma AfterHeadKeeps(status: HeadStatus, s: Sys)
    requires FrameInv(s) && In(s, ReadingRequest) && (status == HeadFound ==> HasTerminator(s.c.reqBuf, |s.c.reqBuf|))
    ensures FrameInv(AfterHead(status, s))
  {
    match status
    case HeadFound =>
      match ParseRequest(s.c.reqBuf, |s.c.reqBuf|) {
        case Failure(bad) => SendErrorKeeps(s, bad);
        case Success(head) => AdmittedKeeps(s, head);
      }
    case HeadTooLarge => SendErrorKeeps(s, HeaderTooLong);
    case _ =>
  }

  lemma StepHeaderKeeps(s: Sys)
    requires FrameInv(s) && In(s, ReadingRequest)
    ensures FrameInv(StepHeader(s))
  {
    ReadHeadKeeps(s);
    AfterHeadKeeps(ReadHead(s).0, ReadHead(s).1);
  }

  // ---------------------------------------------------------------- the body

  lemma {:induction false} ReadClGains(s: Sys)
    requires In(s, ReadingBodyCl)
    ensures Gained(s, ReadCl(s).1)
    decreases |s.w.net.recvs|
  {
    if s.c.st.received >= s.c.bodyLen || |s.c.reqBuf| >= MAX_REQUEST_LEN {
      GainsNothing(s, s);
    } else {
      match Recv(s.w.net, MAX_REQUEST_LEN - |s.c.reqBuf|)
      case (Got(piece), net) =>
        var m := ArriveCl(s, piece, net);
        GainsPiece(s, piece, net);
        ReadClGains(m);
        GainsMore(s, m, ReadCl(m).1);
      case (Retry, net) =>
        GainsNothing(s, WithNet(s, net));
        ReadClGains(WithNet(s, net));
        GainsMore(s, WithNet(s, net), ReadCl(s).1);
      case (_, net) => GainsNothing(s, WithNet(s, net));
    }
  }

  lemma ReadClKeeps(s: Sys)
    requires FrameInv(s) && In(s, ReadingBodyCl)
    ensures FrameInv(ReadCl(s).1)
  {
    ReadClGains(s);
    var s' := ReadCl(s).1;
    GainConserves(s, s');
    HeadKnownStays(s.c, s'.c);
  }

  lemma AfterClKeeps(status: BodyStatus, s: Sys)
    requires FrameInv(s) && In(s, ReadingBodyCl) && (status == BodyOk ==> s.c.st.received >= s.c.bodyLen)
    ensures FrameInv(AfterCl(status, s))
  {
    match status
    case BodyOk => SpanOfLength(AfterCl(status, s).c);
    case BodyMore =>
    case _ => SendErrorKeeps(s, BadRequest);
  }

  lemma StepBodyClKeeps(s: Sys)
    requires FrameInv(s) && In(s, ReadingBodyCl)
    ensures FrameInv(StepBodyCl(s))
  {
    ReadClKeeps(s);
    AfterClKeeps(ReadCl(s).0, ReadCl(s).1);
  }

  /** Draining to a standstill and receiving more keeps the decoder in step with the raw body. */
  lemma ResumesOn(dec: Decoder, raw: bytes, consumed: nat, out: bytes, piece: bytes)
    requires Resumes(dec, raw, consumed, out)
    requires Drain(dec, raw, consumed, out, MAX_DECHUNK_SIZE).verdict == More
    ensures var d := Drain(dec, raw, consumed, out, MAX_DECHUNK_SIZE);
      d == Decode(raw, MAX_DECHUNK_SIZE) && Resumes(d.dec, raw + piece, d.pos, d.out)
  {
    DrainResumes(START, raw, piece, 0, [], MAX_DECHUNK_SIZE);
  }

  lemma RawArrives(buf: bytes, bodyStart: nat, piece: bytes)
    requires bodyStart <= |buf|
    ensures (buf + piece)[bodyStart..] == buf[bodyStart..] + piece
  {
  }

  /** What a chunked read returns, in terms of the raw body alone. */
  predicate ReadAgrees(status: BodyStatus, c: Conn) {
    && c.st.StChunked? && c.bodyStart <= |c.reqBuf|
    && (status in {BodyOk, BodyMore, BodyBadData} ==>
          Drained(c.st.dec, VerdictOf(status), c.st.consumed, c.dechunked) == Decode(RawBody(c), MAX_DECHUNK_SIZE))
    && (status == BodyMore ==> DecoderKnown(c))
  }

  /** Draining a decoder that is in step, and then receiving `piece`. */
  lemma DrewResumes(s: Sys, piece: bytes, net: Net)
    requires In(s, ReadingBodyChunked) && DecoderKnown(s.c) && DrainBody(s).verdict == More
    ensures DecoderKnown(Arrive(Drew(s, DrainBody(s)), piece, net).c)
    ensures DrainBody(s) == Decode(RawBody(s.c), MAX_DECHUNK_SIZE)
  {
    ResumesOn(s.c.st.dec, RawBody(s.c), s.c.st.consumed, s.c.dechunked, piece);
    RawArrives(s.c.reqBuf, s.c.bodyStart, piece);
  }

  lemma DrewWaits(s: Sys, net: Net)
    requires In(s, ReadingBodyChunked) && DecoderKnown(s.c) && DrainBody(s).verdict == More
    ensures DecoderKnown(WithNet(Drew(s, DrainBody(s)), net).c)
    ensures DrainBody(s) == Decode(RawBody(s.c), MAX_DECHUNK_SIZE)
  {
    ResumesOn(s.c.st.dec, RawBody(s.c), s.c.st.consumed, s.c.dechunked, []);
    assert RawBody(s.c) + [] == RawBody(s.c);
  }

  lemma {:induction false} ReadChunkedAgrees(s: Sys)
    requires In(s, ReadingBodyChunked) && DecoderKnown(s.c)
    ensures ReadAgrees(ReadChunked(s).0, ReadChunked(s).1.c)
    decreases |s.w.net.recvs|
  {
    hide Drain;
    var d := DrainBody(s);
    if d.verdict == More && |s.c.reqBuf| < MAX_REQUEST_LEN {
      match Recv(s.w.net, MAX_REQUEST_LEN - |s.c.reqBuf|)
      case (Got(piece), net) =>
        DrewResumes(s, piece, net);
        ReadChunkedAgrees(Arrive(Drew(s, d), piece, net));
      case (Retry, net) =>
        DrewWaits(s, net);
        ReadChunkedAgrees(WithNet(Drew(s, d), net));
      case (_, net) => DrewWaits(s, net);
    }
  }

  lemma {:induction false} ReadChunkedGains(s: Sys)
    requires In(s, ReadingBodyChunked)
    ensures Gained(s, ReadChunked(s).1)
    decreases |s.w.net.recvs|
  {
    var d := DrainBody(s);
    var s' := Drew(s, d);
    if d.verdict != More || |s.c.reqBuf| >= MAX_REQUEST_LEN {
      GainsNothing(s, s');
    } else {
      match Recv(s.w.net, MAX_REQUEST_LEN - |s.c.reqBuf|)
      case (Got(piece), net) =>
        var m := Arrive(s', piece, net);
        GainsPiece(s', piece, net);
        ReadChunkedGains(m);
        GainsMore(s, m, ReadChunked(m).1);
      case (Retry, net) =>
        GainsNothing(s, WithNet(s', net));
        ReadChunkedGains(WithNet(s', net));
        GainsMore(s, WithNet(s', net), ReadChunked(s).1);
      case (_, net) => GainsNothing(s, WithNet(s', net));
    }
  }

  lemma ReadChunkedKeeps(s: Sys)
    requires FrameInv(s) && In(s, ReadingBodyChunked)
    ensures var (status, s') := ReadChunked(s);
      ReadAgrees(status, s'.c) && Conserved(s') && HeadKnown(s'.c)
  {
    ReadChunkedAgrees(s);
    ReadChunkedGains(s);
    var s' := ReadChunked(s).1;
    GainConserves(s, s');
    HeadKnownStays(s.c, s'.c);
  }

  function VerdictOf(status: BodyStatus): Verdict {
    match status
    case BodyOk => Complete
    case BodyMore => More
    case BodyBadData => Rejected
    case _ => TooLarge
  }

  lemma AfterChunkedKeeps(status: BodyStatus, s: Sys)
    requires In(s, ReadingBodyChunked) && s.c.coding == TeChunked
    requires ReadAgrees(status, s.c) && Conserved(s) && HeadKnown(s.c)
    ensures FrameInv(AfterChunked(status, s))
  {
    match status
    case BodyOk => SpanOfChunked(AfterChunked(status, s).c, Decode(RawBody(s.c), MAX_DECHUNK_SIZE));
    case BodyMore =>
    case BodyTooLarge => SendErrorKeeps(s, PayloadTooLarge);
    case _ => SendErrorKeeps(s, BadRequest);
  }

  lemma StepBodyChunkedKeeps(s: Sys)
    requires FrameInv(s) && In(s, ReadingBodyChunked)
    ensures FrameInv(StepBodyChunked(s))
  {
    ReadChunkedKeeps(s);
    AfterChunkedKeeps(ReadChunked(s).0, ReadChunked(s).1);
  }

  // ---------------------------------------------------------------- the response

  /**
   request_consume takes exactly one whole request off the front of the buffer, whether it
   was given the offset of the next one or discards everything.
   */
  lemma ConsumeConserves(s: Sys)
    requires Valid(s.c) && Conserved(s) && SpanKnown(s.c) && s.c.nextReq <= |s.c.reqBuf|
    ensures Conserved(Consume(s))
  {
    var n := SpanLength(s.c);
    assert s.c.reqBuf[..n] == s.c.reqBuf[..|s.c.reqBuf[..n]|];
    AccountRequest(s.l.received, s.l.built, s.c.reqBuf, Built(s.c.line, s.c.headers, s.c.reqBuf[..n], FramedBody(s.c)));
  }

  lemma AccountRequest(received: bytes, built: seq<Built>, buffer: bytes, b: Built)
    requires Accounted(received, built, buffer)
    requires IsWhole(b) && |b.span| <= |buffer| && b.span == buffer[..|b.span|]
    ensures Accounted(received, built + [b], buffer[|b.span|..])
  {
    SpansAppend(built, b);
    AllWholeAppend(built, b);
    MoveFront(Spans(built), buffer, |b.span|);
  }

  lemma MoveFront(before: bytes, buffer: bytes, n: nat)
    requires n <= |buffer|
    ensures before + buffer == (before + buffer[..n]) + buffer[n..]
  {
    assert buffer == buffer[..n] + buffer[n..];
  }

  lemma BuildPlainKeeps(s: Sys, r: Response, date: Date)
    requires FrameInv(s) && In(s, Building)
    ensures FrameInv(BuildPlain(s, r, date))
  {
    ConsumeConserves(s);
  }

  lemma StepBuildKeeps(s: Sys)
    requires FrameInv(s) && In(s, Building)
    ensures FrameInv(StepBuild(s))
  {
    var (reply, w1) := NextReply(s.w);
    var (date, w2) := Now(w1);
    var s1 := s.(w := w2);
    match reply
    case Plain(_) => BuildPlainKeeps(s1, reply.Wire(), date);
    case Stream(_, p) =>
      BuildStreamKeeps(s1, reply.Wire(), p, date);
  }

  /** Installing and releasing a producer do not touch the request. */
  lemma ProducerApart(s: Sys, r: Sys)
    requires FrameInv(s) && In(s, Building) && In(r, Building)
    requires r.c == s.c.(producer := r.c.producer) && r.l == s.l.(events := r.l.events)
    ensures FrameInv(r)
  {
    assert SpanLength(r.c) == SpanLength(s.c) && FramedBody(r.c) == FramedBody(s.c);
    assert SpanKnown(r.c);
  }

  lemma BuildStreamKeeps(s: Sys, r: Response, p: Producer, date: Date)
    requires FrameInv(s) && In(s, Building)
    ensures FrameInv(BuildStream(s, r, p, date))
  {
    var s1 := Install(s, p);
    ProducerApart(s, s1);
    if Serialize(r, date, RESPONSE_BUFFER_SIZE, s.c.keepAlive).None? {
      ProducerApart(s1, Release(s1));
      BuildPlainKeeps(Release(s1), ErrorResponse(ServerError), date);
    } else {
      ConsumeConserves(s1);
    }
  }

  // ---------------------------------------------------------------- sending

  /** Sending touches neither the buffer nor the log of requests. */
  lemma Step100Keeps(s: Sys)
    requires FrameInv(s) && In(s, Sending100)
    ensures FrameInv(Step100(s))
  {
    var (status, _, s') := SendSome(s, CONTINUE_100, s.c.st.sent);
    if status == SendOk { DispatchKeeps(s'.(l := Finished(s'.l, Continue))); }
  }

  lemma StepSendKeeps(s: Sys)
    requires FrameInv(s) && In(s, SendingResponse)
    ensures FrameInv(StepSend(s))
  {
  }

  lemma StreamTurnKeeps(s: Sys)
    requires FrameInv(s) && In(s, SendingStream)
    ensures FrameInv(StreamTurn(s).1)
  {
  }

  lemma {:induction false} StepStreamKeeps(s: Sys)
    requires FrameInv(s) && In(s, SendingStream)
    ensures FrameInv(StepStream(s))
    decreases PullsLeft(s.c), StreamRank(s.c.st.stream)
  {
    StreamTurnKeeps(s);
    var (goOn, s') := StreamTurn(s);
    if goOn { StepStreamKeeps(s'); }
  }

  // ---------------------------------------------------------------- every run

  lemma StepKeeps(s: Sys)
    requires FrameInv(s)
    ensures FrameInv(Step(s))
  {
    match s.c.phase
    case ReadingRequest => StepHeaderKeeps(s);
    case Sending100 => Step100Keeps(s);
    case ReadingBodyCl => StepBodyClKeeps(s);
    case ReadingBodyChunked => StepBodyChunkedKeeps(s);
    case Building => StepBuildKeeps(s);
    case SendingResponse => StepSendKeeps(s);
    case SendingStream => StepStreamKeeps(s);
    case Closed =>
  }

  lemma {:induction false} DispatchKeepsFraming(s: Sys)
    requires FrameInv(s)
    ensures FrameInv(Dispatch(s))
    decreases MAX_REQUESTS - s.c.requests, Rank(s.c.phase)
  {
    StepKeeps(s);
    var s' := Step(s);
    if s'.c.phase != s.c.phase && s'.c.phase != Closed { DispatchKeepsFraming(s'); }
  }

  lemma {:induction false} RunFrom(s: Sys, k: nat)
    requires FrameInv(s)
    ensures FrameInv(Run(s, k))
    decreases k
  {
    if k > 0 {
      RunFrom(s, k - 1);
      DispatchKeepsFraming(Run(s, k - 1));
    }
  }

  lemma StartKeeps(c: Conn, w: World)
    requires c.bodyLen == 0
    ensures FrameInv(Start(c, w))
  {
    assert Spans([]) + [] == [];
  }

  /**
   The invariant holds after any number of wake-ups of a new connection, in any world and in
   any slot whose last connection left no declared length.
   */
  lemma RunKeepsFraming(c: Conn, w: World, k: nat)
    requires c.bodyLen == 0
    ensures FrameInv(Run(Start(c, w), k))
  {
    StartKeeps(c, w);
    RunFrom(Start(c, w), k);
  }
}
