/**
 What a parsed request asks of the connection: keep-alive, body framing and 100-continue
 (the decisions of `step_header_read`, src/Connection.c).
 */
module Admissions {
  import opened Bytes
  import opened Config
  import opened Numbers
  import opened RequestLines
  import opened Headers
  import opened TransferEncoding

  /** "host" */
  const HOST: bytes := [104, 111, 115, 116]
  /** "connection" */
  const CONNECTION: bytes := [99, 111, 110, 110, 101, 99, 116, 105, 111, 110]
  /** "keep-alive" */
  const KEEP_ALIVE_TOKEN: bytes := [107, 101, 101, 112, 45, 97, 108, 105, 118, 101]
  /** "transfer-encoding" */
  const TRANSFER_ENCODING: bytes := [116, 114, 97, 110, 115, 102, 101, 114, 45, 101, 110, 99, 111, 100, 105, 110, 103]
  /** "content-length" */
  const CONTENT_LENGTH: bytes := [99, 111, 110, 116, 101, 110, 116, 45, 108, 101, 110, 103, 116, 104]
  /** "expect" */
  const EXPECT: bytes := [101, 120, 112, 101, 99, 116]
  /** "100-continue" */
  const CONTINUE_TOKEN: bytes := [49, 48, 48, 45, 99, 111, 110, 116, 105, 110, 117, 101]
  /** "http/1.0" */
  const HTTP_1_0: bytes := [104, 116, 116, 112, 47, 49, 46, 48]

  /** A request refused with a status, or admitted with its framing. */
  datatype Admission =
    | Refuse(status: ParseStatus)
    | Admit(coding: TransferCoding, bodyLen: nat, expects: bool)

  predicate IsHttp10(line: RequestLine) {
    EqualIgnoreCase(line.version, HTTP_1_0)
  }

  predicate HeaderIs(headers: seq<Header>, name: bytes, value: bytes) {
    Find(headers, name).Some? && EqualIgnoreCase(value, Find(headers, name).value.value)
  }

  /** HTTP/1.1 with a Host header stays open, unless Connection says something else. */
  predicate WantsKeepAlive(line: RequestLine, headers: seq<Header>) {
    && !IsHttp10(line) && Find(headers, HOST).Some?
    && (Find(headers, CONNECTION).None? || HeaderIs(headers, CONNECTION, KEEP_ALIVE_TOKEN))
  }

  /** The loop over the Transfer-Encoding headers; it stops at the first that is not fine. */
  function CodingOf(headers: seq<Header>, i: nat, status: ParseStatus, coding: TransferCoding)
    : (r: (ParseStatus, TransferCoding))
    requires i <= |headers|
    decreases |headers| - i
  {
    if i == |headers| || coding == TeUnsupported || status != ParseOk then (status, coding)
    else if !EqualIgnoreCase(headers[i].key, TRANSFER_ENCODING) then CodingOf(headers, i + 1, status, coding)
    else
      var (status', coding') := Classify(CodingNames(headers[i].value));
      CodingOf(headers, i + 1, status', coding')
  }

  /** The declared Content-Length, 0 when there is none. */
  function LengthOf(headers: seq<Header>): Parsed<nat> {
    match Find(headers, CONTENT_LENGTH)
    case None => Success(0)
    case Some(h) => UintParse(h.value, 10, MAX_BODY_LEN)
  }

  function Admit100(line: RequestLine, headers: seq<Header>, coding: TransferCoding, bodyLen: nat): Admission {
    var hasBody := coding == TeChunked || bodyLen > 0;
    if line.verb == HEAD && hasBody then Refuse(BadRequest)
    else Admit(coding, bodyLen, !IsHttp10(line) && hasBody && HeaderIs(headers, EXPECT, CONTINUE_TOKEN))
  }

  function Classified(line: RequestLine, headers: seq<Header>, te: (ParseStatus, TransferCoding)): Admission {
    var (status, coding) := te;
    if !IsHttp10(line) && Find(headers, HOST).None? then Refuse(BadRequest)
    else if coding == TeUnsupported then Refuse(NotImplemented)
    else if status != ParseOk then Refuse(status)
    else if IsHttp10(line) && coding == TeChunked then Refuse(BadRequest)
    else if Find(headers, CONTENT_LENGTH).Some? && coding == TeChunked then Refuse(BadRequest)
    else
      match LengthOf(headers)
      case Failure(bad) => Refuse(bad)
      case Success(bodyLen) => Admit100(line, headers, coding, bodyLen)
  }

  function AdmissionOf(line: RequestLine, headers: seq<Header>): Admission {
    Classified(line, headers, CodingOf(headers, 0, ParseOk, TeNone))
  }

  // ---------------------------------------------------------------- properties

  lemma {:induction false} CodingShape(headers: seq<Header>, i: nat, status: ParseStatus, coding: TransferCoding)
    requires i <= |headers|
    requires status == ParseOk ==> coding in {TeNone, TeChunked}
    ensures var (s, c) := CodingOf(headers, i, status, coding); s == ParseOk ==> c in {TeNone, TeChunked}
    decreases |headers| - i
  {
    if i < |headers| && status == ParseOk && coding != TeUnsupported {
      if EqualIgnoreCase(headers[i].key, TRANSFER_ENCODING) {
        Verdicts(headers[i].value);
        var (status', coding') := Classify(CodingNames(headers[i].value));
        CodingShape(headers, i + 1, status', coding');
      } else {
        CodingShape(headers, i + 1, status, coding);
      }
    }
  }

  /**
   What an admitted request is framed by: chunked coding, and then it has no Content-Length
   header and is not HTTP/1.0, or a length within bounds. A 100-continue is promised only to a
   request with a body.
   */
  lemma AdmittedFraming(line: RequestLine, headers: seq<Header>)
    requires AdmissionOf(line, headers).Admit?
    ensures var Admit(coding, bodyLen, expects) := AdmissionOf(line, headers);
      && coding in {TeNone, TeChunked}
      && (coding == TeChunked ==> bodyLen == 0 && Find(headers, CONTENT_LENGTH).None? && !IsHttp10(line))
      && bodyLen <= MAX_BODY_LEN
      && (expects ==> (coding == TeChunked || bodyLen > 0) && !IsHttp10(line))
  {
    CodingShape(headers, 0, ParseOk, TeNone);
    if Find(headers, CONTENT_LENGTH).Some? {
      UintParseExact(Find(headers, CONTENT_LENGTH).value.value, 10, MAX_BODY_LEN);
    }
  }

  // ---------------------------------------------------------------- several Transfer-Encoding lines

  /** The coding names of each Transfer-Encoding line, from header `i` on. */
  function CodingLines(headers: seq<Header>, i: nat): seq<seq<bytes>>
    requires i <= |headers|
    decreases |headers| - i
  {
    if i == |headers| then []
    else if EqualIgnoreCase(headers[i].key, TRANSFER_ENCODING) then
      [CodingNames(headers[i].value)] + CodingLines(headers, i + 1)
    else CodingLines(headers, i + 1)
  }

  /** The lines classified one by one: the first that is not fine decides, or the last. */
  function LinesVerdict(lines: seq<seq<bytes>>): (ParseStatus, TransferCoding) {
    if lines == [] then (ParseOk, TeNone)
    else if |lines| == 1 || Classify(lines[0]).0 != ParseOk then Classify(lines[0])
    else LinesVerdict(lines[1..])
  }

  /** All lines as the one list they are together (section 5.3 of RFC 9110). */
  function Joined(lines: seq<seq<bytes>>): seq<bytes> {
    if lines == [] then [] else lines[0] + Joined(lines[1..])
  }

  lemma {:induction false} CodingIsLines(headers: seq<Header>, i: nat, coding: TransferCoding)
    requires i <= |headers| && coding in {TeNone, TeChunked}
    ensures CodingOf(headers, i, ParseOk, coding) ==
            if CodingLines(headers, i) == [] then (ParseOk, coding) else LinesVerdict(CodingLines(headers, i))
    decreases |headers| - i
  {
    hide Classify, CodingNames;
    if i < |headers| {
      if EqualIgnoreCase(headers[i].key, TRANSFER_ENCODING) {
        var names, rest := CodingNames(headers[i].value), CodingLines(headers, i + 1);
        assert CodingLines(headers, i)[1..] == rest;
        ClassifyShape(names);
        if Classify(names).0 == ParseOk { CodingIsLines(headers, i + 1, Classify(names).1); }
      } else {
        CodingIsLines(headers, i + 1, coding);
      }
    }
  }

  lemma ClassifyShape(names: seq<bytes>)
    ensures Classify(names) in {(ParseOk, TeChunked), (NotImplemented, TeUnsupported), (BadRequest, TeNone)}
  {
  }

  /** A list that begins with chunked and goes on is refused. */
  lemma ChunkedThenMore(first: seq<bytes>, rest: seq<bytes>)
    requires Classify(first).0 == ParseOk && rest != []
    ensures Classify(first + rest) == (BadRequest, TeNone)
  {
    assert IsChunked((first + rest)[0]);
  }

  /** Nothing that follows mends a list that is refused. */
  lemma RefusedThenMore(first: seq<bytes>, rest: seq<bytes>)
    requires first != [] && Classify(first) == (BadRequest, TeNone)
    ensures Classify(first + rest) == (BadRequest, TeNone)
  {
    var all := first + rest;
    assert forall i :: 0 <= i < |first| ==> all[i] == first[i];
    assert |all| == 1 ==> all == first;
    if !AllTokens(first) {
      var k :| 0 <= k < |first| && !IsToken(first[k]);
      assert !IsToken(all[k]);
    } else if !HasOther(first) {
      assert IsChunked(first[0]) && IsChunked(all[0]);
    } else {
      var k :| 0 <= k < |first| && IsChunked(first[k]) && k != |first| - 1;
      assert IsChunked(all[k]);
    }
  }

  lemma UnsupportedThenMore(first: seq<bytes>, rest: seq<bytes>)
    requires Classify(first).0 == NotImplemented
    ensures Classify(first + rest) ==
            if AllTokens(rest) && ChunkedOnlyLast(first + rest) then (NotImplemented, TeUnsupported)
            else (BadRequest, TeNone)
  {
    var all := first + rest;
    assert forall i :: 0 <= i < |first| ==> all[i] == first[i];
    assert forall i :: 0 <= i < |rest| ==> all[|first| + i] == rest[i];
    var k :| 0 <= k < |first| && !IsChunked(first[k]);
    assert !IsChunked(all[k]);
    if AllTokens(rest) {
      assert AllTokens(all);
    } else {
      var j :| 0 <= j < |rest| && !IsToken(rest[j]);
      assert !IsToken(all[|first| + j]);
    }
  }

  predicate JustChunked(line: seq<bytes>) { |line| == 1 && IsChunked(line[0]) }

  /** The first line that is not just chunked. */
  function FirstOther(lines: seq<seq<bytes>>): Option<seq<bytes>> {
    if lines == [] then None else if JustChunked(lines[0]) then FirstOther(lines[1..]) else Some(lines[0])
  }

  /** A line that is no good: nothing in it, a name that is no token, or chunked before another name. */
  predicate Malformed(line: seq<bytes>) {
    line == [] || !AllTokens(line) || (exists i :: 0 <= i < |line| - 1 && IsChunked(line[i]))
  }

  /** The lines together are refused exactly when the first that is not just chunked is malformed. */
  lemma {:induction false} RefusedExactly(lines: seq<seq<bytes>>)
    requires lines != []
    ensures LinesVerdict(lines).0 == BadRequest <==> FirstOther(lines).Some? && Malformed(FirstOther(lines).value)
  {
    MalformedExactly(lines[0]);
    ClassifyShape(lines[0]);
    if |lines| > 1 { RefusedExactly(lines[1..]); } else { assert lines[1..] == []; }
  }

  lemma MalformedExactly(line: seq<bytes>)
    ensures Classify(line).0 == BadRequest <==> Malformed(line)
    ensures Classify(line).0 == ParseOk <==> JustChunked(line)
  {
    if JustChunked(line) {
      ChunkedIsToken(line[0]);
    } else if line != [] && !HasOther(line) {
      assert IsChunked(line[0]);
    }
  }

  /**
   The lists of lines that are judged one by one as they are judged together, by the first
   line: just chunked, with more to come, is right only if the others are not all empty and
   the first of them that is not just chunked is malformed; an empty one only if the others
   together are malformed; an unsupported one only if the others list tokens and chunked
   nowhere but last; a malformed one always.
   */
  predicate JudgedAlike(lines: seq<seq<bytes>>)
    requires lines != []
  {
    var first, rest, other := lines[0], Joined(lines[1..]), FirstOther(lines);
    if |lines| == 1 then true
    else if JustChunked(first) then rest != [] && other.Some? && Malformed(other.value)
    else if first == [] then Malformed(rest)
    else if Malformed(first) then true
    else AllTokens(rest) && ChunkedOnlyLast(first + rest)
  }

  lemma {:induction false} LinesShape(lines: seq<seq<bytes>>)
    requires lines != []
    ensures LinesVerdict(lines) in {(ParseOk, TeChunked), (NotImplemented, TeUnsupported), (BadRequest, TeNone)}
  {
    hide Classify;
    ClassifyShape(lines[0]);
    if |lines| > 1 { LinesShape(lines[1..]); }
  }

  lemma {:induction false} AllEmptyRefused(lines: seq<seq<bytes>>)
    requires lines != [] && Joined(lines) == []
    ensures LinesVerdict(lines) == (BadRequest, TeNone)
  {
  }

  lemma LinesAgree(lines: seq<seq<bytes>>)
    requires lines != []
    ensures LinesVerdict(lines) == Classify(Joined(lines)) <==> JudgedAlike(lines)
  {
    var first, rest := lines[0], Joined(lines[1..]);
    if |lines| == 1 {
      assert first + [] == first;
    } else {
      hide Classify, AllTokens, ChunkedOnlyLast, Malformed, JustChunked;
      ClassifyShape(first);
      ClassifyShape(rest);
      MalformedExactly(first);
      MalformedExactly(rest);
      EmptyRefused();
      if JustChunked(first) {
        LinesShape(lines[1..]);
        RefusedExactly(lines[1..]);
        if rest != [] {
          ChunkedThenMore(first, rest);
        } else {
          assert first + rest == first;
          AllEmptyRefused(lines[1..]);
        }
      } else if first == [] {
        assert first + rest == rest;
      } else if Malformed(first) {
        RefusedThenMore(first, rest);
      } else {
        UnsupportedThenMore(first, rest);
      }
    }
  }

  lemma EmptyRefused()
    ensures Classify([]) == (BadRequest, TeNone)
  {
  }

  /**
   Several Transfer-Encoding lines are one list, but the server judges them line by line. Its
   verdict on a request is that of the list exactly when the lines are judged alike.
   */
  lemma CodingAgreesExactly(headers: seq<Header>)
    requires CodingLines(headers, 0) != []
    ensures CodingOf(headers, 0, ParseOk, TeNone) == Classify(Joined(CodingLines(headers, 0))) <==>
            JudgedAlike(CodingLines(headers, 0))
  {
    CodingIsLines(headers, 0, TeNone);
    LinesAgree(CodingLines(headers, 0));
  }

  /** Chunked is accepted exactly when every line is just chunked, once or many times over. */
  lemma {:induction false} ChunkedAcceptedExactly(lines: seq<seq<bytes>>)
    requires lines != []
    ensures LinesVerdict(lines) == (ParseOk, TeChunked) <==>
            forall i :: 0 <= i < |lines| ==> JustChunked(lines[i])
  {
    if |lines| > 1 {
      var rest := lines[1..];
      ChunkedAcceptedExactly(rest);
      assert forall i :: 0 <= i < |rest| ==> rest[i] == lines[i + 1];
    }
  }

  // ---------------------------------------------------------------- several Content-Length lines

  predicate IsLength(h: Header) { EqualIgnoreCase(h.key, CONTENT_LENGTH) }

  /** The same headers with header `j` first. */
  function Promote(headers: seq<Header>, j: nat): seq<Header>
    requires j < |headers|
  {
    [headers[j]] + (headers[..j] + headers[j + 1..])
  }

  lemma {:induction false} FindAppend(a: seq<Header>, b: seq<Header>, name: bytes)
    ensures Find(a + b, name) == if Find(a, name).Some? then Find(a, name) else Find(b, name)
  {
    hide EqualIgnoreCase;
    if a == [] {
      assert a + b == b;
    } else {
      assert (a + b)[1..] == a[1..] + b;
      FindAppend(a[1..], b, name);
    }
  }

  lemma FindHead(h: Header, rest: seq<Header>, name: bytes)
    ensures Find([h] + rest, name) == if EqualIgnoreCase(h.key, name) then Some(h) else Find(rest, name)
  {
    assert ([h] + rest)[1..] == rest;
  }

  lemma FindSplit(a: seq<Header>, h: Header, b: seq<Header>, name: bytes)
    ensures Find([h] + (a + b), name) ==
            if EqualIgnoreCase(h.key, name) then Some(h) else Find(a + b, name)
    ensures !EqualIgnoreCase(h.key, name) ==> Find(a + ([h] + b), name) == Find(a + b, name)
  {
    hide EqualIgnoreCase, Find;
    FindHead(h, a + b, name);
    FindAppend(a, b, name);
    FindAppend(a, [h] + b, name);
    FindHead(h, b, name);
  }

  lemma SplitAt(headers: seq<Header>, j: nat)
    requires j < |headers|
    ensures headers == headers[..j] + ([headers[j]] + headers[j + 1..])
  {
  }

  lemma PromoteFind(headers: seq<Header>, j: nat, name: bytes)
    requires j < |headers|
    ensures Find(Promote(headers, j), name) ==
            if EqualIgnoreCase(headers[j].key, name) then Some(headers[j]) else Find(headers, name)
  {
    hide EqualIgnoreCase, Find;
    FindSplit(headers[..j], headers[j], headers[j + 1..], name);
    SplitAt(headers, j);
  }

  lemma {:induction false} LinesShift(a: seq<Header>, b: seq<Header>, i: nat, d: nat)
    requires i <= |a| && d + i <= |b| && a[i..] == b[d + i..]
    ensures CodingLines(a, i) == CodingLines(b, d + i)
    decreases |a| - i
  {
    if i < |a| {
      assert a[i] == a[i..][0] == b[d + i..][0];
      assert a[i + 1..] == a[i..][1..] == b[d + i + 1..];
      LinesShift(a, b, i + 1, d);
    }
  }

  lemma {:induction false} LinesAppend(a: seq<Header>, b: seq<Header>, i: nat)
    requires i <= |a|
    ensures CodingLines(a + b, i) == CodingLines(a, i) + CodingLines(b, 0)
    decreases |a| - i
  {
    hide EqualIgnoreCase, CodingNames;
    if i == |a| {
      assert (a + b)[|a|..] == b[0..];
      LinesShift(b, a + b, 0, |a|);
    } else {
      LinesAppend(a, b, i + 1);
    }
  }

  lemma LinesHead(h: Header, rest: seq<Header>)
    requires !EqualIgnoreCase(h.key, TRANSFER_ENCODING)
    ensures CodingLines([h] + rest, 0) == CodingLines(rest, 0)
  {
    assert CodingLines([h], 0) == [];
    LinesAppend([h], rest, 0);
  }

  lemma PromoteLines(headers: seq<Header>, j: nat)
    requires j < |headers| && !EqualIgnoreCase(headers[j].key, TRANSFER_ENCODING)
    ensures CodingLines(Promote(headers, j), 0) == CodingLines(headers, 0)
  {
    hide EqualIgnoreCase, CodingLines;
    var a, h, b := headers[..j], headers[j], headers[j + 1..];
    LinesHead(h, a + b);
    LinesAppend(a, b, 0);
    SplitAt(headers, j);
    LinesAppend(a, [h] + b, 0);
    LinesHead(h, b);
  }

  /** Of several Content-Length lines the first is the one that counts. */
  lemma PromotedAdmission(line: RequestLine, headers: seq<Header>, j: nat)
    requires AdmissionOf(line, headers).Admit? && j < |headers| && IsLength(headers[j])
    ensures var Admit(coding, bodyLen, expects) := AdmissionOf(line, headers);
      AdmissionOf(line, Promote(headers, j)) ==
      match UintParse(headers[j].value, 10, MAX_BODY_LEN)
      case Failure(bad) => Refuse(bad)
      case Success(n) => Admit100(line, headers, coding, n)
  {
    hide Find, CodingOf, UintParse;
    PromoteFind(headers, j, HOST);
    PromoteFind(headers, j, EXPECT);
    PromoteFind(headers, j, CONTENT_LENGTH);
    PromoteLines(headers, j);
    CodingIsLines(headers, 0, TeNone);
    CodingIsLines(Promote(headers, j), 0, TeNone);
    LengthPresent(headers, j);
  }

  lemma LengthPresent(headers: seq<Header>, j: nat)
    requires j < |headers| && IsLength(headers[j])
    ensures Find(headers, CONTENT_LENGTH).Some?
  {
  }

  /**
   The framing of an admitted request is independent of the order of its Content-Length lines
   if and only if all of them declare the same length. The server does not check that.
   */
  lemma FramingDeterminedExactly(line: RequestLine, headers: seq<Header>)
    requires AdmissionOf(line, headers).Admit?
    ensures (forall j :: 0 <= j < |headers| && IsLength(headers[j]) ==>
               AdmissionOf(line, Promote(headers, j)) == AdmissionOf(line, headers)) <==>
            (forall j :: 0 <= j < |headers| && IsLength(headers[j]) ==>
               UintParse(headers[j].value, 10, MAX_BODY_LEN) == Success(AdmissionOf(line, headers).bodyLen))
  {
    forall j | 0 <= j < |headers| && IsLength(headers[j])
      ensures AdmissionOf(line, Promote(headers, j)) == AdmissionOf(line, headers) <==>
              UintParse(headers[j].value, 10, MAX_BODY_LEN) == Success(AdmissionOf(line, headers).bodyLen)
    {
      PromotedAdmission(line, headers, j);
      AdmissionIs(line, headers);
    }
  }

  lemma AdmissionIs(line: RequestLine, headers: seq<Header>)
    requires AdmissionOf(line, headers).Admit?
    ensures var Admit(coding, bodyLen, expects) := AdmissionOf(line, headers);
      AdmissionOf(line, headers) == Admit100(line, headers, coding, bodyLen)
  {
  }
}
