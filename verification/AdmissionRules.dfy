/**
 The rules of admission, by which headers a request has: when it is refused and with what
 status, how an admitted one is framed, when it is owed a 100 and when the connection stays open.
 */
module AdmissionRules {
  import opened Bytes
  import opened Config
  import opened Numbers
  import opened RequestLines
  import opened Headers
  import opened TransferEncoding
  import opened Admissions

  predicate Named(h: Header, name: bytes) { EqualIgnoreCase(h.key, name) }

  predicate Has(headers: seq<Header>, name: bytes) {
    exists i :: 0 <= i < |headers| && Named(headers[i], name)
  }

  /** Header `i` is the first of that name. */
  predicate FirstAt(headers: seq<Header>, name: bytes, i: nat) {
    i < |headers| && Named(headers[i], name) && forall j :: 0 <= j < i ==> !Named(headers[j], name)
  }

  /** The first header of that name has this value, up to case. */
  ghost predicate FirstSays(headers: seq<Header>, name: bytes, value: bytes) {
    exists i: nat :: FirstAt(headers, name, i) && EqualIgnoreCase(headers[i].value, value)
  }

  predicate Version10(line: RequestLine) { EqualIgnoreCase(line.version, HTTP_1_0) }

  /** HTTP/1.1 asks for a Host. */
  predicate HostGiven(line: RequestLine, headers: seq<Header>) { Version10(line) || Has(headers, HOST) }

  /** Header `i` is a Transfer-Encoding line that is not just chunked. */
  predicate OtherCoding(headers: seq<Header>, i: nat) {
    i < |headers| && Named(headers[i], TRANSFER_ENCODING) && !JustChunked(CodingNames(headers[i].value))
  }

  ghost predicate OnlyChunked(headers: seq<Header>) { forall i: nat :: !OtherCoding(headers, i) }

  /** The first Content-Length is a number within the limit; without one the length is 0. */
  ghost predicate Declares(headers: seq<Header>, n: nat) {
    if Has(headers, CONTENT_LENGTH) then
      exists i: nat :: FirstAt(headers, CONTENT_LENGTH, i) && IsNumber(headers[i].value, n)
    else n == 0
  }

  predicate IsNumber(v: bytes, n: nat) {
    v != [] && AllDigits(v, 10) && Denoted(v, 10) == n <= MAX_BODY_LEN
  }

  /** The rules: a Host; no coding but chunked, and that only in HTTP/1.1 and without a length; no body for HEAD. */
  ghost predicate Admissible(line: RequestLine, headers: seq<Header>, coding: TransferCoding, n: nat) {
    var chunked := Has(headers, TRANSFER_ENCODING);
    && HostGiven(line, headers) && OnlyChunked(headers)
    && coding == (if chunked then TeChunked else TeNone)
    && (chunked ==> !Version10(line) && !Has(headers, CONTENT_LENGTH))
    && Declares(headers, n)
    && (line.verb == HEAD ==> !chunked && n == 0)
  }

  /** A 100 is owed to a request with a body that expects it, in HTTP/1.1. */
  ghost predicate OwedContinue(line: RequestLine, headers: seq<Header>, n: nat) {
    !Version10(line) && (Has(headers, TRANSFER_ENCODING) || n > 0) && FirstSays(headers, EXPECT, CONTINUE_TOKEN)
  }

  /** HTTP/1.1 with a Host, and no Connection header or a first one that says keep-alive. */
  ghost predicate StaysOpen(line: RequestLine, headers: seq<Header>) {
    && !Version10(line) && Has(headers, HOST)
    && (Has(headers, CONNECTION) ==> FirstSays(headers, CONNECTION, KEEP_ALIVE_TOKEN))
  }

  // ---------------------------------------------------------------- lookups

  lemma {:induction false} FindFirst(headers: seq<Header>, name: bytes)
    ensures Find(headers, name).Some? <==> Has(headers, name)
    ensures forall i: nat :: FirstAt(headers, name, i) ==> Find(headers, name) == Some(headers[i])
    ensures Has(headers, name) ==> exists i: nat :: FirstAt(headers, name, i)
  {
    hide EqualIgnoreCase;
    if headers != [] {
      var rest := headers[1..];
      FindFirst(rest, name);
      if Named(headers[0], name) {
        assert FirstAt(headers, name, 0);
      } else {
        if Has(headers, name) {
          var k :| 0 <= k < |headers| && Named(headers[k], name);
          assert Named(rest[k - 1], name);
          var i: nat :| FirstAt(rest, name, i);
          assert FirstAt(headers, name, i + 1);
        }
        forall i: nat | FirstAt(headers, name, i) ensures Find(headers, name) == Some(headers[i]) {
          assert FirstAt(rest, name, i - 1);
        }
      }
    }
  }

  lemma Same(a: bytes, b: bytes)
    ensures EqualIgnoreCase(a, b) == EqualIgnoreCase(b, a)
  {
  }

  lemma FirstIs(headers: seq<Header>, name: bytes, value: bytes)
    ensures HeaderIs(headers, name, value) <==> FirstSays(headers, name, value)
  {
    hide EqualIgnoreCase;
    FindFirst(headers, name);
    forall i: nat | FirstAt(headers, name, i)
      ensures EqualIgnoreCase(headers[i].value, value) == EqualIgnoreCase(value, headers[i].value)
    {
      Same(headers[i].value, value);
    }
  }

  /** The connection is asked to stay open exactly by these rules. */
  lemma StaysOpenExactly(line: RequestLine, headers: seq<Header>)
    ensures WantsKeepAlive(line, headers) <==> StaysOpen(line, headers)
  {
    FindFirst(headers, HOST);
    FindFirst(headers, CONNECTION);
    FirstIs(headers, CONNECTION, KEEP_ALIVE_TOKEN);
    hide EqualIgnoreCase, FirstSays, HeaderIs;
  }

  // ---------------------------------------------------------------- codings and lengths

  /** The loop over the Transfer-Encoding lines stops at the first that is not just chunked. */
  lemma {:induction false} CodingExact(headers: seq<Header>, i: nat, coding: TransferCoding)
    requires i <= |headers| && coding in {TeNone, TeChunked}
    ensures var r := CodingOf(headers, i, ParseOk, coding);
      && ((forall j: nat :: i <= j ==> !OtherCoding(headers, j)) ==>
            r == (ParseOk, if exists j: nat :: i <= j < |headers| && Named(headers[j], TRANSFER_ENCODING) then TeChunked
                           else coding))
      && (forall j: nat :: i <= j && OtherCoding(headers, j) && (forall k: nat :: i <= k < j ==> !OtherCoding(headers, k)) ==>
            r == Classify(CodingNames(headers[j].value)))
    decreases |headers| - i
  {
    hide EqualIgnoreCase, Classify, CodingNames, JustChunked;
    if i < |headers| {
      var names := CodingNames(headers[i].value);
      if !Named(headers[i], TRANSFER_ENCODING) {
        CodingExact(headers, i + 1, coding);
      } else {
        ClassifyShape(names);
        MalformedExactly(names);
        if JustChunked(names) {
          CodingExact(headers, i + 1, TeChunked);
        } else {
          assert OtherCoding(headers, i);
          assert CodingOf(headers, i, ParseOk, coding) == CodingOf(headers, i + 1, Classify(names).0, Classify(names).1);
        }
      }
    }
  }

  /** The first Transfer-Encoding line that is not just chunked. */
  ghost predicate FirstOtherAt(headers: seq<Header>, i: nat) {
    OtherCoding(headers, i) && forall j: nat :: j < i ==> !OtherCoding(headers, j)
  }

  lemma {:induction false} FirstOtherExists(headers: seq<Header>, k: nat) returns (i: nat)
    requires OtherCoding(headers, k)
    ensures FirstOtherAt(headers, i)
    decreases k
  {
    if j: nat :| j < k && OtherCoding(headers, j) {
      i := FirstOtherExists(headers, j);
    } else {
      i := k;
    }
  }

  lemma LengthExact(headers: seq<Header>, n: nat)
    ensures LengthOf(headers) == Success(n) <==> Declares(headers, n)
    ensures LengthOf(headers) == Failure(PayloadTooLarge) <==> LengthOverflows(headers)
    ensures LengthOf(headers).Failure? ==> LengthOf(headers).status in {BadRequest, PayloadTooLarge}
    ensures LengthOf(headers).Failure? ==> Has(headers, CONTENT_LENGTH)
  {
    FindFirst(headers, CONTENT_LENGTH);
    hide EqualIgnoreCase, UintParse, Overflows, Denoted, AllDigits, Find;
    if Has(headers, CONTENT_LENGTH) {
      var i: nat :| FirstAt(headers, CONTENT_LENGTH, i);
      UintParseExact(headers[i].value, 10, MAX_BODY_LEN);
      forall j: nat | FirstAt(headers, CONTENT_LENGTH, j) ensures headers[j] == headers[i] {}
    }
  }

  /** Digits of the first Content-Length already exceed the limit of a body. */
  ghost predicate LengthOverflows(headers: seq<Header>) {
    exists i: nat :: FirstAt(headers, CONTENT_LENGTH, i) && Overflows(headers[i].value, 10, MAX_BODY_LEN)
  }

  lemma CodingStops(headers: seq<Header>, i: nat)
    requires FirstOtherAt(headers, i)
    ensures var names := CodingNames(headers[i].value);
      CodingOf(headers, 0, ParseOk, TeNone) ==
      if Malformed(names) then (BadRequest, TeNone) else (NotImplemented, TeUnsupported)
  {
    CodingExact(headers, 0, TeNone);
    var names := CodingNames(headers[i].value);
    ClassifyShape(names);
    MalformedExactly(names);
    hide EqualIgnoreCase, Classify, CodingNames, JustChunked, CodingOf, Malformed;
  }

  lemma CodingRunsThrough(headers: seq<Header>)
    requires OnlyChunked(headers)
    ensures CodingOf(headers, 0, ParseOk, TeNone) ==
            (ParseOk, if Has(headers, TRANSFER_ENCODING) then TeChunked else TeNone)
  {
    CodingExact(headers, 0, TeNone);
    hide EqualIgnoreCase, Classify, CodingNames, JustChunked, CodingOf;
    if Has(headers, TRANSFER_ENCODING) {
      var k: nat :| k < |headers| && Named(headers[k], TRANSFER_ENCODING);
    }
  }

  /** What the loop over the codings comes to, by the rules. */
  lemma CodingVerdict(headers: seq<Header>)
    ensures var (status, coding) := CodingOf(headers, 0, ParseOk, TeNone);
      && (OnlyChunked(headers) ==>
            (status, coding) == (ParseOk, if Has(headers, TRANSFER_ENCODING) then TeChunked else TeNone))
      && (!OnlyChunked(headers) ==>
            (status, coding) in {(NotImplemented, TeUnsupported), (BadRequest, TeNone)})
      && (status == NotImplemented <==> CodingUnknown(headers))
  {
    hide EqualIgnoreCase, CodingNames, JustChunked, CodingOf, Malformed;
    if OnlyChunked(headers) {
      CodingRunsThrough(headers);
    } else {
      var k: nat :| OtherCoding(headers, k);
      var i := FirstOtherExists(headers, k);
      CodingStops(headers, i);
      forall j: nat | FirstOtherAt(headers, j) ensures j == i {
        OneFirst(headers, i, j);
      }
    }
  }

  lemma OneFirst(headers: seq<Header>, i: nat, j: nat)
    requires FirstOtherAt(headers, i) && FirstOtherAt(headers, j)
    ensures i == j
  {
    hide OtherCoding;
  }

  /** The first Transfer-Encoding line that is not just chunked lists codings as it should. */
  ghost predicate CodingUnknown(headers: seq<Header>) {
    exists i: nat :: FirstOtherAt(headers, i) && !Malformed(CodingNames(headers[i].value))
  }

  // ---------------------------------------------------------------- admission

  /**
   A request is admitted, with this framing and owed a 100 or not, exactly by the rules.
   */
  lemma AdmittedExactly(line: RequestLine, headers: seq<Header>, coding: TransferCoding, n: nat, expects: bool)
    ensures AdmissionOf(line, headers) == Admit(coding, n, expects) <==>
            Admissible(line, headers, coding, n) && (expects <==> OwedContinue(line, headers, n))
  {
    FindFirst(headers, HOST);
    FindFirst(headers, CONTENT_LENGTH);
    FirstIs(headers, EXPECT, CONTINUE_TOKEN);
    CodingVerdict(headers);
    LengthExact(headers, n);
    hide EqualIgnoreCase, CodingOf, LengthOf, Find, HeaderIs, FirstSays, OnlyChunked, CodingUnknown, Has, Declares;
    if LengthOf(headers).Success? { LengthExact(headers, LengthOf(headers).value); }
  }

  /**
   A refusal is "not implemented", "too large" or a bad request: the first exactly when the Host
   is as it should be and the first coding that is not chunked is well-formed, the second
   exactly when the Host is, there is no coding and the length exceeds the limit.
   */
  lemma RefusedStatusExactly(line: RequestLine, headers: seq<Header>)
    ensures var a := AdmissionOf(line, headers);
      && (a.Refuse? ==> a.status in {BadRequest, NotImplemented, PayloadTooLarge})
      && (a == Refuse(NotImplemented) <==> HostGiven(line, headers) && CodingUnknown(headers))
      && (a == Refuse(PayloadTooLarge) <==>
            HostGiven(line, headers) && !Has(headers, TRANSFER_ENCODING) && LengthOverflows(headers))
  {
    FindFirst(headers, HOST);
    FindFirst(headers, CONTENT_LENGTH);
    CodingVerdict(headers);
    LengthExact(headers, 0);
    NoCodings(headers);
    OverflowNeedsLength(headers);
    hide EqualIgnoreCase, CodingOf, LengthOf, Find, HeaderIs, OnlyChunked, CodingUnknown, Has, Declares, LengthOverflows;
  }

  lemma NoCodings(headers: seq<Header>)
    ensures !Has(headers, TRANSFER_ENCODING) ==> OnlyChunked(headers) && !CodingUnknown(headers)
  {
  }

  lemma OverflowNeedsLength(headers: seq<Header>)
    ensures LengthOverflows(headers) ==> Has(headers, CONTENT_LENGTH)
  {
  }
}
