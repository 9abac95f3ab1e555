/**
 Bytes, byte classes and the cursor searches every parser of the server is built from
 (src/parser.c). A C range [cur, end) is a buffer together with two indices.
 */
module Bytes {

  newtype byte = x: int | 0 <= x < 256

  type bytes = seq<byte>

  const HTAB: byte := 9
  const LF: byte := 10
  const CR: byte := 13
  const SP: byte := 32
  const HASH: byte := 35
  const PERCENT: byte := 37
  const COMMA: byte := 44
  const MINUS: byte := 45
  const DOT: byte := 46
  const SLASH: byte := 47
  const COLON: byte := 58
  const SEMICOLON: byte := 59
  const QUESTION: byte := 63

  const CRLF: bytes := [CR, LF]

  /** How a parse ends (ParseStatus). */
  datatype ParseStatus =
    | ParseOk
    | BadRequest
    | UriTooLong
    | HeaderKeyTooLong
    | HeaderValueTooLong
    | HeaderTooLong
    | VersionNotSupported
    | PayloadTooLarge
    | NotImplemented
    | Incomplete
    | NotFound
    | NotAllowed
    | ServerError

  datatype Option<+T> = None | Some(value: T)

  /** A parsed value, or the status that rejected the input. */
  datatype Parsed<+T> = Success(value: T) | Failure(status: ParseStatus) {
    predicate IsFailure() {
      Failure?
    }

    function PropagateFailure<U>(): Parsed<U>
      requires Failure?
    {
      Failure(status)
    }

    function Extract(): T
      requires Success?
    {
      value
    }
  }

  // ---------------------------------------------------------------- byte classes

  predicate IsOws(c: byte) { c == SP || c == HTAB }

  predicate IsDigit(c: byte) { 48 <= c <= 57 }

  predicate IsUpper(c: byte) { 65 <= c <= 90 }

  predicate IsLower(c: byte) { 97 <= c <= 122 }

  predicate IsHex(c: byte) { IsDigit(c) || 97 <= c <= 102 || 65 <= c <= 70 }

  /** tchar of section 5.6.2 of RFC 9110. */
  predicate IsTchar(c: byte) {
    || c in {33, 35, 36, 37, 38, 39, 42, 43, 45, 46, 94, 95, 96, 124, 126}
    || IsDigit(c) || IsUpper(c) || IsLower(c)
  }

  predicate IsVchar(c: byte) { 0x21 <= c <= 0x7e }

  predicate IsFieldContentByte(c: byte) { IsOws(c) || IsVchar(c) || c >= 0x80 }

  function ToLower(c: byte): byte { if IsUpper(c) then c + 32 else c }

  /** Equality up to the case of ASCII letters. */
  predicate EqualIgnoreCase(a: bytes, b: bytes) {
    |a| == |b| && forall i :: 0 <= i < |a| ==> ToLower(a[i]) == ToLower(b[i])
  }

  predicate AllTchar(s: bytes) { forall i :: 0 <= i < |s| ==> IsTchar(s[i]) }

  predicate IsToken(s: bytes) { |s| > 0 && AllTchar(s) }

  /** is_token: the loop over the bytes of a coding name. */
  method CheckToken(s: bytes) returns (ok: bool)
    ensures ok == IsToken(s)
  {
    if |s| == 0 { return false; }
    for i := 0 to |s|
      invariant forall j :: 0 <= j < i ==> IsTchar(s[j])
    {
      if !IsTchar(s[i]) { return false; }
    }
    return true;
  }

  /** ascii_ieq: both cursors advance until a difference or the end of either string. */
  method AsciiIeq(a: bytes, b: bytes) returns (eq: bool)
    ensures eq == EqualIgnoreCase(a, b)
  {
    var i := 0;
    while i < |a| && i < |b|
      invariant 0 <= i <= |a| && i <= |b|
      invariant forall j :: 0 <= j < i ==> ToLower(a[j]) == ToLower(b[j])
    {
      if ToLower(a[i]) != ToLower(b[i]) { break; }
      i := i + 1;
    }
    return i == |a| && i == |b|;
  }

  // ---------------------------------------------------------------- cursor searches

  /** A CRLF starts at `p` and ends at or before `end`. */
  predicate CrlfIn(s: bytes, p: int, end: int) {
    0 <= p && p + 1 < end <= |s| && s[p] == CR && s[p + 1] == LF
  }

  /** The first CRLF of [cur, end), or `end`. */
  function FindCrlf(s: bytes, cur: nat, end: nat): (p: nat)
    requires cur <= end <= |s|
    ensures cur <= p <= end
    ensures p < end ==> CrlfIn(s, p, end)
    ensures forall j :: cur <= j < p ==> !CrlfIn(s, j, end)
    decreases end - cur
  {
    if cur + 1 >= end then end
    else if CrlfIn(s, cur, end) then cur
    else FindCrlf(s, cur + 1, end)
  }

  /** crlf_find. */
  method CrlfFind(s: bytes, cur: nat, end: nat) returns (p: nat)
    requires cur <= end <= |s|
    ensures p == FindCrlf(s, cur, end)
  {
    p := cur;
    while p + 1 < end
      invariant cur <= p <= end
      invariant FindCrlf(s, p, end) == FindCrlf(s, cur, end)
    {
      if s[p] == CR && s[p + 1] == LF { return p; }
      p := p + 1;
    }
    return end;
  }

  /** The first CRLF is the only position with a CRLF and none before it. */
  lemma FindCrlfUnique(s: bytes, cur: nat, end: nat, p: nat)
    requires cur <= p < end <= |s| && CrlfIn(s, p, end)
    requires forall j :: cur <= j < p ==> !CrlfIn(s, j, end)
    ensures FindCrlf(s, cur, end) == p
  {
  }

  /** The first `c` of [cur, end), or `end` (memchr and colon_find). */
  function FindByte(s: bytes, c: byte, cur: nat, end: nat): (p: nat)
    requires cur <= end <= |s|
    ensures cur <= p <= end
    ensures p < end ==> s[p] == c
    ensures forall j :: cur <= j < p ==> s[j] != c
    decreases end - cur
  {
    if cur == end || s[cur] == c then cur else FindByte(s, c, cur + 1, end)
  }

  method ByteFind(s: bytes, c: byte, cur: nat, end: nat) returns (p: nat)
    requires cur <= end <= |s|
    ensures p == FindByte(s, c, cur, end)
  {
    p := cur;
    while p < end
      invariant cur <= p <= end
      invariant FindByte(s, c, p, end) == FindByte(s, c, cur, end)
    {
      if s[p] == c { return p; }
      p := p + 1;
    }
    return end;
  }

  lemma FindByteUnique(s: bytes, c: byte, cur: nat, end: nat, p: nat)
    requires cur <= p <= end <= |s|
    requires p < end ==> s[p] == c
    requires forall j :: cur <= j < p ==> s[j] != c
    ensures FindByte(s, c, cur, end) == p
  {
  }

  /** The first byte of [cur, end) that is not SP or HTAB, or `end`. */
  function SkipOws(s: bytes, cur: nat, end: nat): (p: nat)
    requires cur <= end <= |s|
    ensures cur <= p <= end
    ensures p < end ==> !IsOws(s[p])
    ensures forall j :: cur <= j < p ==> IsOws(s[j])
    decreases end - cur
  {
    if cur == end || !IsOws(s[cur]) then cur else SkipOws(s, cur + 1, end)
  }

  /** ows_skip. */
  method OwsSkip(s: bytes, cur: nat, end: nat) returns (p: nat)
    requires cur <= end <= |s|
    ensures p == SkipOws(s, cur, end)
  {
    p := cur;
    while p < end && IsOws(s[p])
      invariant cur <= p <= end
      invariant SkipOws(s, p, end) == SkipOws(s, cur, end)
    {
      p := p + 1;
    }
  }

  /** The end of [start, end) without its trailing SP and HTAB bytes. */
  function TrimOws(s: bytes, start: nat, end: nat): (p: nat)
    requires start <= end <= |s|
    ensures start <= p <= end
    ensures start < p ==> !IsOws(s[p - 1])
    ensures forall j :: p <= j < end ==> IsOws(s[j])
    decreases end
  {
    if start == end || !IsOws(s[end - 1]) then end else TrimOws(s, start, end - 1)
  }

  /** ows_trim_trailing. */
  method OwsTrimTrailing(s: bytes, start: nat, end: nat) returns (p: nat)
    requires start <= end <= |s|
    ensures p == TrimOws(s, start, end)
  {
    p := end;
    while start < p && IsOws(s[p - 1])
      invariant start <= p <= end
      invariant TrimOws(s, start, p) == TrimOws(s, start, end)
    {
      p := p - 1;
    }
  }

  // ---------------------------------------------------------------- texts in buffers

  /** `text` stands in `s` at `pos`. */
  predicate At(s: bytes, pos: nat, text: bytes) {
    pos + |text| <= |s| && s[pos..pos + |text|] == text
  }

  lemma AtSplit(s: bytes, pos: nat, a: bytes, b: bytes)
    ensures At(s, pos, a + b) <==> At(s, pos, a) && At(s, pos + |a|, b)
  {
    if pos + |a + b| <= |s| {
      assert s[pos..pos + |a + b|] == s[pos..pos + |a|] + s[pos + |a|..pos + |a| + |b|];
      if At(s, pos, a + b) {
        assert a == (a + b)[..|a|] && b == (a + b)[|a|..];
      }
    }
  }

  lemma AtByte(s: bytes, pos: nat, text: bytes, i: nat)
    requires At(s, pos, text) && i < |text|
    ensures s[pos + i] == text[i]
  {
    assert s[pos..pos + |text|][i] == s[pos + i];
  }

  // ---------------------------------------------------------------- concatenation

  function Concat(parts: seq<bytes>): bytes {
    if parts == [] then [] else parts[0] + Concat(parts[1..])
  }

  lemma {:induction false} ConcatAppend(a: seq<bytes>, b: seq<bytes>)
    ensures Concat(a + b) == Concat(a) + Concat(b)
  {
    if a == [] {
      assert a + b == b;
    } else {
      assert (a + b)[1..] == a[1..] + b;
      ConcatAppend(a[1..], b);
    }
  }
}
