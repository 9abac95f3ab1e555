/**
 Requests as a function of the byte stream alone: the reference that the connection, whatever
 the network does to the stream, has to agree with.
 */
module Framing {
  import opened Bytes
  import opened Config
  import opened ChunkSpec
  import opened RequestLines
  import opened Headers
  import opened Requests
  import opened TransferEncoding
  import opened Admissions
  import opened ConnSpec

  /** What stands at the front of a stream: one whole request, a refused one, or too little to say. */
  datatype Front = Whole(request: Built) | Refused | Short

  function FrontOf(s: bytes): (f: Front)
    ensures f.Whole? ==> 4 <= |f.request.span| <= |s| && f.request.span == s[..|f.request.span|]
  {
    if !HasTerminator(s, |s|) then Short
    else
      match ParseRequest(s, |s|)
      case Failure(_) => Refused
      case Success(head) =>
        FrontBody(s, HeadEnd(s, |s|), head.line, head.headers, AdmissionOf(head.line, head.headers))
  }

  /** The head at the front of a buffer is whole, parses and asks for the connection to stay open. */
  predicate AsksToStay(buf: bytes) {
    && HasTerminator(buf, |buf|)
    && var p := ParseRequest(buf, |buf|); p.Success? && WantsKeepAlive(p.value.line, p.value.headers)
  }

  /** The body that follows a head ending at `bodyStart`. */
  function FrontBody(s: bytes, bodyStart: nat, line: RequestLine, headers: seq<Header>, a: Admission): (f: Front)
    requires bodyStart <= |s|
    ensures f.Whole? ==> bodyStart <= |f.request.span| <= |s| && f.request.span == s[..|f.request.span|]
  {
    match a
    case Refuse(_) => Refused
    case Admit(coding, bodyLen, _) =>
      if coding == TeChunked then
        var r := Decode(s[bodyStart..], MAX_DECHUNK_SIZE);
        match r.verdict
        case Complete => Whole(Built(line, headers, s[..bodyStart + r.pos], r.out))
        case More => Short
        case _ => Refused
      else if bodyStart + bodyLen <= |s| then
        Whole(Built(line, headers, s[..bodyStart + bodyLen], s[bodyStart..bodyStart + bodyLen]))
      else Short
  }

  /** Why the request in front is refused: its head does not parse or is not admitted, or its chunked body is bad. */
  function RefusalOf(s: bytes): Option<ParseStatus> {
    if !HasTerminator(s, |s|) then None
    else
      match ParseRequest(s, |s|)
      case Failure(status) => Some(status)
      case Success(head) => BodyRefusal(s[HeadEnd(s, |s|)..], AdmissionOf(head.line, head.headers))
  }

  function BodyRefusal(raw: bytes, a: Admission): Option<ParseStatus> {
    match a
    case Refuse(status) => Some(status)
    case Admit(coding, _, _) =>
      if coding != TeChunked then None
      else
        match Decode(raw, MAX_DECHUNK_SIZE).verdict
        case Rejected => Some(BadRequest)
        case TooLarge => Some(PayloadTooLarge)
        case _ => None
  }

  lemma RefusalIsFront(s: bytes)
    ensures RefusalOf(s).Some? <==> FrontOf(s) == Refused
  {
    hide ParseRequest, AdmissionOf, FindTerminator, Decode;
  }

  /** The requests of a stream, up to the first that is refused or not yet whole. */
  function RequestsOf(s: bytes): seq<Built>
    decreases |s|
  {
    match FrontOf(s)
    case Whole(b) => [b] + RequestsOf(s[|b.span|..])
    case _ => []
  }

  function Spans(built: seq<Built>): bytes {
    if built == [] then [] else built[0].span + Spans(built[1..])
  }

  // ---------------------------------------------------------------- stability

  lemma FrontBodyExtends(s: bytes, t: bytes, bodyStart: nat, line: RequestLine, headers: seq<Header>, a: Admission)
    requires bodyStart <= |s| && FrontBody(s, bodyStart, line, headers, a) != Short
    ensures FrontBody(s + t, bodyStart, line, headers, a) == FrontBody(s, bodyStart, line, headers, a)
  {
    if a.Admit? {
      if a.coding == TeChunked {
        var body := s[bodyStart..];
        assert (s + t)[bodyStart..] == body + t;
        VerdictStable(START, body, t, 0, [], MAX_DECHUNK_SIZE);
        var n := bodyStart + Decode(body, MAX_DECHUNK_SIZE).pos;
        assert (s + t)[..n] == s[..n];
      } else {
        var n := bodyStart + a.bodyLen;
        assert (s + t)[..n] == s[..n] && (s + t)[bodyStart..n] == s[bodyStart..n];
      }
    }
  }

  /** Two buffers with the same first blank line parse alike. */
  lemma HeadShared(s: bytes, t: bytes)
    requires HasTerminator(s, |s|)
    ensures HasTerminator(s + t, |s + t|) && HeadEnd(s + t, |s + t|) == HeadEnd(s, |s|)
    ensures ParseRequest(s + t, |s + t|) == ParseRequest(s, |s|)
  {
    HeadEndExtend(s, t);
    var e := HeadEnd(s, |s|);
    ScannersAgree(s, |s|);
    ScannersAgree(s + t, |s + t|);
    assert (s + t)[..e] == s[..e];
  }

  /** Once the front of a stream is settled, what follows does not change it. */
  lemma FrontExtends(s: bytes, t: bytes)
    requires FrontOf(s) != Short
    ensures FrontOf(s + t) == FrontOf(s)
  {
    HeadShared(s, t);
    var p := ParseRequest(s, |s|);
    if p.Success? {
      var Head(line, headers, _) := p.value;
      FrontBodyExtends(s, t, HeadEnd(s, |s|), line, headers, AdmissionOf(line, headers));
    }
  }

  // ---------------------------------------------------------------- streams of requests

  /** A request is the front of its own bytes. */
  predicate IsWhole(b: Built) { FrontOf(b.span) == Whole(b) }

  predicate WholeAt(built: seq<Built>, i: nat)
    requires i < |built|
  {
    IsWhole(built[i])
  }

  predicate AllWhole(built: seq<Built>) {
    forall i: nat :: i < |built| ==> WholeAt(built, i)
  }

  lemma FirstRequest(s: bytes, b: Built)
    requires FrontOf(s) == Whole(b)
    ensures RequestsOf(s) == [b] + RequestsOf(s[|b.span|..])
  {
  }

  lemma SpanThenRest(b: Built, after: bytes)
    requires IsWhole(b)
    ensures RequestsOf(b.span + after) == [b] + RequestsOf(after)
  {
    FrontExtends(b.span, after);
    assert (b.span + after)[|b.span|..] == after;
    FirstRequest(b.span + after, b);
  }

  /** The requests of consumed spans followed by a buffer. */
  lemma {:induction false} RequestsOfSpans(built: seq<Built>, rest: bytes)
    requires AllWhole(built)
    ensures RequestsOf(Spans(built) + rest) == built + RequestsOf(rest)
    decreases |built|
  {
    if built == [] {
      assert Spans(built) + rest == rest;
    } else {
      var b, tail := built[0], built[1..];
      AllWholeTail(built);
      RequestsOfSpans(tail, rest);
      SpanThenRest(b, Spans(tail) + rest);
      JoinFirst(built, rest, RequestsOf(rest));
    }
  }

  lemma AllWholeTail(built: seq<Built>)
    requires built != [] && AllWhole(built)
    ensures AllWhole(built[1..]) && IsWhole(built[0])
  {
    assert WholeAt(built, 0);
    forall i: nat | i < |built[1..]| ensures WholeAt(built[1..], i) {
      assert WholeAt(built, i + 1);
    }
  }

  lemma AllWholeAppend(built: seq<Built>, b: Built)
    requires AllWhole(built) && IsWhole(b)
    ensures AllWhole(built + [b])
  {
    forall i: nat | i < |built + [b]| ensures WholeAt(built + [b], i) {
      if i < |built| { assert WholeAt(built, i); }
    }
  }

  lemma Reassociate<T>(a: seq<T>, b: seq<T>, c: seq<T>)
    ensures a + b + c == a + (b + c)
  {
  }

  lemma JoinFirst(built: seq<Built>, rest: bytes, more: seq<Built>)
    requires built != []
    ensures Spans(built) + rest == built[0].span + (Spans(built[1..]) + rest)
    ensures [built[0]] + (built[1..] + more) == built + more
  {
    assert [built[0]] + built[1..] == built;
    Reassociate([built[0]], built[1..], more);
    Reassociate(built[0].span, Spans(built[1..]), rest);
  }

  lemma {:induction false} SpansAppend(built: seq<Built>, b: Built)
    ensures Spans(built + [b]) == Spans(built) + b.span
    decreases |built|
  {
    if built == [] {
      assert [b][1..] == [];
      assert b.span + Spans([]) == b.span;
    } else {
      assert (built + [b])[1..] == built[1..] + [b];
      SpansAppend(built[1..], b);
    }
  }

  /** Longer streams only add requests at the end. */
  lemma {:induction false} RequestsOfExtends(s: bytes, t: bytes)
    ensures RequestsOf(s) <= RequestsOf(s + t)
    decreases |s|
  {
    hide FrontOf;
    if FrontOf(s).Whole? {
      var b := FrontOf(s).request;
      RequestsOfExtends(s[|b.span|..], t);
      FirstRequest(s, b);
      FrontExtends(s, t);
      FirstRequest(s + t, b);
      assert (s + t)[|b.span|..] == s[|b.span|..] + t;
    }
  }
}
