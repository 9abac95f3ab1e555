/** Header lines and header lookup (src/HttpHeaders.c). A line is the bytes before its CRLF. */
module Headers {
  import opened Bytes
  import opened Config

  datatype Header = Header(key: bytes, value: bytes)

  // ---------------------------------------------------------------- parsing

  /** The key loop from byte `i`; the array keeps a byte for the NUL. */
  function ScanKey(key: bytes, i: nat): ParseStatus
    requires i <= |key|
    decreases |key| - i
  {
    if i == |key| then ParseOk
    else if !IsTchar(key[i]) then BadRequest
    else if i >= MAX_HEADER_KEY_LEN - 1 then HeaderKeyTooLong
    else ScanKey(key, i + 1)
  }

  /** header_key_parse on the bytes before `stop`, the byte that ended the search for ':'. */
  function ParseKey(key: bytes, stop: byte): ParseStatus {
    if |key| == 0 || stop != COLON then BadRequest else ScanKey(key, 0)
  }

  predicate AllFieldContent(v: bytes) {
    forall i :: 0 <= i < |v| ==> IsFieldContentByte(v[i])
  }

  /** The bytes without leading and trailing SP and HTAB. */
  function Trimmed(v: bytes): bytes {
    var from := SkipOws(v, 0, |v|);
    v[from..TrimOws(v, from, |v|)]
  }

  /** header_value_parse on the bytes after the ':'. */
  function ParseValue(raw: bytes): Parsed<bytes> {
    if |raw| > MAX_HEADER_VALUE_LEN - 1 then Failure(HeaderValueTooLong)
    else if !AllFieldContent(Trimmed(raw)) then Failure(BadRequest)
    else Success(Trimmed(raw))
  }

  /** header_line_parse: `stop` is the byte after the line, `count` the headers parsed before. */
  function ParseHeaderLine(line: bytes, stop: byte, count: nat): Parsed<Header> {
    if |line| == 0 then Failure(BadRequest)
    else
      var colon := FindByte(line, COLON, 0, |line|);
      var keyStatus := ParseKey(line[..colon], if colon < |line| then line[colon] else stop);
      if keyStatus != ParseOk then Failure(keyStatus)
      else if colon == |line| then Failure(BadRequest)
      else
        var value :- ParseValue(line[colon + 1..]);
        if count >= MAX_HEADERS then Failure(HeaderTooLong) else Success(Header(line[..colon], value))
  }

  method KeyParse(key: bytes, stop: byte) returns (status: ParseStatus)
    ensures status == ParseKey(key, stop)
  {
    if |key| == 0 || stop != COLON { return BadRequest; }
    for count := 0 to |key|
      invariant ScanKey(key, count) == ScanKey(key, 0)
    {
      if !IsTchar(key[count]) { return BadRequest; }
      if count >= MAX_HEADER_KEY_LEN - 1 { return HeaderKeyTooLong; }
    }
    return ParseOk;
  }

  method ValueParse(raw: bytes) returns (r: Parsed<bytes>)
    ensures r == ParseValue(raw)
  {
    if |raw| > MAX_HEADER_VALUE_LEN - 1 { return Failure(HeaderValueTooLong); }
    var from := OwsSkip(raw, 0, |raw|);
    var end := OwsTrimTrailing(raw, from, |raw|);
    var value := [];
    var cur := from;
    while cur < end
      invariant from <= cur <= end
      invariant value == raw[from..cur] && AllFieldContent(value)
    {
      if !IsFieldContentByte(raw[cur]) {
        assert Trimmed(raw)[cur - from] == raw[cur];
        return Failure(BadRequest);
      }
      value := value + [raw[cur]];
      cur := cur + 1;
    }
    return Success(value);
  }

  method HeaderLineParse(line: bytes, stop: byte, count: nat) returns (r: Parsed<Header>)
    ensures r == ParseHeaderLine(line, stop, count)
  {
    if |line| == 0 { return Failure(BadRequest); }
    var colon := ByteFind(line, COLON, 0, |line|);
    var keyStatus := KeyParse(line[..colon], if colon < |line| then line[colon] else stop);
    if keyStatus != ParseOk { return Failure(keyStatus); }
    if colon == |line| { return Failure(BadRequest); }
    var value := ValueParse(line[colon + 1..]);
    if value.Failure? { return Failure(value.status); }
    if count >= MAX_HEADERS { return Failure(HeaderTooLong); }
    return Success(Header(line[..colon], value.value));
  }

  // ---------------------------------------------------------------- lookup

  /** header_find: the first header of that name, whatever its case. */
  function Find(headers: seq<Header>, name: bytes): (r: Option<Header>)
    ensures r.None? <==> forall i :: 0 <= i < |headers| ==> !EqualIgnoreCase(headers[i].key, name)
    ensures r.Some? ==> r.value in headers && EqualIgnoreCase(r.value.key, name)
  {
    if headers == [] then None
    else if EqualIgnoreCase(headers[0].key, name) then Some(headers[0])
    else Find(headers[1..], name)
  }

  method HeaderFind(headers: seq<Header>, name: bytes) returns (r: Option<Header>)
    ensures r == Find(headers, name)
  {
    for i := 0 to |headers|
      invariant Find(headers[i..], name) == Find(headers, name)
    {
      var eq := AsciiIeq(headers[i].key, name);
      assert headers[i..][1..] == headers[i + 1..];
      if eq { return Some(headers[i]); }
    }
    return None;
  }

  // ---------------------------------------------------------------- printing

  /** response_header_write: "%s: %s\r\n". */
  function ShowHeader(h: Header): bytes {
    h.key + [COLON, SP] + h.value + CRLF
  }

  predicate ValidKey(key: bytes) {
    IsToken(key) && |key| <= MAX_HEADER_KEY_LEN - 1
  }

  /** A value as the parser stores it: OWS-trimmed field content. */
  predicate ValidValue(v: bytes) {
    && |v| <= MAX_HEADER_VALUE_LEN - 1 && AllFieldContent(v)
    && (v != [] ==> !IsOws(v[0]) && !IsOws(v[|v| - 1]))
  }

  predicate ValidHeader(h: Header) {
    ValidKey(h.key) && ValidValue(h.value)
  }

  lemma {:induction false} ScanKeyExact(key: bytes, i: nat)
    requires i <= |key| && i <= MAX_HEADER_KEY_LEN - 1 && forall j :: 0 <= j < i ==> IsTchar(key[j])
    ensures ScanKey(key, i) == ParseOk <==> AllTchar(key) && |key| <= MAX_HEADER_KEY_LEN - 1
    decreases |key| - i
  {
    if i < |key| && IsTchar(key[i]) && i < MAX_HEADER_KEY_LEN - 1 {
      ScanKeyExact(key, i + 1);
    }
  }

  /** What the parser stores is always a valid header. */
  lemma ParsedHeaderValid(line: bytes, stop: byte, count: nat)
    requires ParseHeaderLine(line, stop, count).Success?
    ensures ValidHeader(ParseHeaderLine(line, stop, count).value) && count < MAX_HEADERS
  {
    var colon := FindByte(line, COLON, 0, |line|);
    ScanKeyExact(line[..colon], 0);
  }

  lemma TrimmedSpace(v: bytes)
    requires ValidValue(v)
    ensures Trimmed([SP] + v) == v
  {
    var raw := [SP] + v;
    var from := SkipOws(raw, 0, |raw|);
    if v == [] {
      assert from == 1;
    } else {
      assert raw[1] == v[0] && raw[|raw| - 1] == v[|v| - 1];
      assert from == 1;
      assert TrimOws(raw, 1, |raw|) == |raw|;
    }
  }

  /**
   One printed header line read back: the separator space counts toward the value limit, so
   a stored value of the full 255 bytes is refused and every shorter one is recovered.
   */
  lemma ShownHeaderParses(h: Header, stop: byte, count: nat)
    requires ValidHeader(h) && count < MAX_HEADERS
    ensures ParseHeaderLine(h.key + [COLON, SP] + h.value, stop, count) ==
            if |h.value| <= MAX_HEADER_VALUE_LEN - 2 then Success(h) else Failure(HeaderValueTooLong)
  {
    var line := h.key + [COLON, SP] + h.value;
    var k := |h.key|;
    assert forall j :: 0 <= j < k ==> line[j] == h.key[j] && IsTchar(h.key[j]);
    FindByteUnique(line, COLON, 0, |line|, k);
    assert line[..k] == h.key;
    assert line[k + 1..] == [SP] + h.value;
    ScanKeyExact(h.key, 0);
    TrimmedSpace(h.value);
  }

  /** Without the space any stored value fits, the longest one too. */
  lemma TightHeaderParses(h: Header, stop: byte, count: nat)
    requires ValidHeader(h) && count < MAX_HEADERS
    ensures ParseHeaderLine(h.key + [COLON] + h.value, stop, count) == Success(h)
  {
    var line := h.key + [COLON] + h.value;
    var k := |h.key|;
    assert forall j :: 0 <= j < k ==> line[j] == h.key[j] && IsTchar(h.key[j]);
    FindByteUnique(line, COLON, 0, |line|, k);
    assert line[..k] == h.key && line[k + 1..] == h.value;
    ScanKeyExact(h.key, 0);
    TrimmedWhole(h.value);
  }

  lemma TrimmedWhole(v: bytes)
    requires ValidValue(v)
    ensures Trimmed(v) == v
  {
    assert SkipOws(v, 0, |v|) == 0 && TrimOws(v, 0, |v|) == |v|;
  }

  // ---------------------------------------------------------------- by the grammar

  predicate AllOws(v: bytes) { forall i :: 0 <= i < |v| ==> IsOws(v[i]) }

  predicate NoOwsAtEnds(v: bytes) { v != [] ==> !IsOws(v[0]) && !IsOws(v[|v| - 1]) }

  /** Trimming takes exactly the spaces and tabs at both ends. */
  lemma TrimmedExactly(v: bytes, t: bytes)
    ensures Trimmed(v) == t <==>
            NoOwsAtEnds(t) && exists a, b :: AllOws(a) && AllOws(b) && v == a + t + b
  {
    var from := SkipOws(v, 0, |v|);
    var last := TrimOws(v, from, |v|);
    assert v == v[..from] + v[from..last] + v[last..];
    assert from < last ==> v[from..last][0] == v[from] && v[from..last][last - from - 1] == v[last - 1];
    assert AllOws(v[..from]) && AllOws(v[last..]);
    forall a, b | NoOwsAtEnds(t) && AllOws(a) && AllOws(b) && v == a + t + b ensures Trimmed(v) == t {
      TrimmedOf(v, a, t, b);
    }
  }

  lemma TrimmedOf(v: bytes, a: bytes, t: bytes, b: bytes)
    requires NoOwsAtEnds(t) && AllOws(a) && AllOws(b) && v == a + t + b
    ensures Trimmed(v) == t
  {
    var from := SkipOws(v, 0, |v|);
    var last := TrimOws(v, from, |v|);
    forall i | 0 <= i < |v| ensures v[i] == if i < |a| then a[i] else if i < |a| + |t| then t[i - |a|]
                                            else b[i - |a| - |t|] {}
    if t == [] {
      assert forall i :: 0 <= i < |v| ==> IsOws(v[i]);
    } else {
      assert v[|a|] == t[0] && v[|a| + |t| - 1] == t[|t| - 1];
      assert forall j :: |a| + |t| <= j < |v| ==> IsOws(v[j]);
      assert from == |a|;
      assert last == |a| + |t|;
      assert v[|a|..|a| + |t|] == t;
    }
  }

  lemma {:induction false} ScanKeyLimit(key: bytes, i: nat)
    requires AllTchar(key) && i <= |key| && i <= MAX_HEADER_KEY_LEN - 1
    ensures ScanKey(key, i) == if |key| < MAX_HEADER_KEY_LEN then ParseOk else HeaderKeyTooLong
    decreases |key| - i
  {
    if i < |key| && i < MAX_HEADER_KEY_LEN - 1 { ScanKeyLimit(key, i + 1); }
  }

  /**
   A line with a token before its colon, in order: a key of 64 bytes or more, more than 255 bytes
   behind the colon, bytes that are no field content, and one header too many are refused, each
   with its own status; any other line is stored, its value trimmed.
   */
  lemma HeaderLimits(key: bytes, raw: bytes, stop: byte, count: nat)
    requires IsToken(key)
    ensures ParseHeaderLine(key + [COLON] + raw, stop, count) ==
            if |key| >= 64 then Failure(HeaderKeyTooLong)
            else if |raw| > 255 then Failure(HeaderValueTooLong)
            else if !AllFieldContent(Trimmed(raw)) then Failure(BadRequest)
            else if count >= 32 then Failure(HeaderTooLong)
            else Success(Header(key, Trimmed(raw)))
  {
    hide Trimmed;
    var line := key + [COLON] + raw;
    assert forall j :: 0 <= j < |key| ==> line[j] == key[j] && IsTchar(key[j]);
    FindByteUnique(line, COLON, 0, |line|, |key|);
    assert line[..|key|] == key && line[|key| + 1..] == raw;
    ScanKeyLimit(key, 0);
  }
}
