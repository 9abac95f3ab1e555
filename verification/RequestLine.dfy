/**
 The request line: method SP request-target SP version (src/HttpRequestLine.c). A line is
 accepted exactly when it is what `request_line_show` prints for the record it yields.
 */
module RequestLines {
  import opened Bytes
  import opened Config

  datatype HttpMethod = GET | POST | PUT | DELETE | OPTIONS | HEAD | PATCH | UNKNOWN

  datatype RequestLine = RequestLine(verb: HttpMethod, path: bytes, query: bytes, version: bytes)

  const GET_TEXT: bytes := [71, 69, 84]
  const POST_TEXT: bytes := [80, 79, 83, 84]
  const PUT_TEXT: bytes := [80, 85, 84]
  const DELETE_TEXT: bytes := [68, 69, 76, 69, 84, 69]
  const UNKNOWN_TEXT: bytes := [85, 78, 75, 78, 79, 87, 78]
  const HTTP_SLASH: bytes := [72, 84, 84, 80, 47]
  const V_0_9: bytes := [48, 46, 57]
  const V_1_0: bytes := [49, 46, 48]
  const V_1_1: bytes := [49, 46, 49]

  /** http_method_parse. */
  function MethodOf(token: bytes): HttpMethod {
    if token == GET_TEXT then GET
    else if token == POST_TEXT then POST
    else if token == PUT_TEXT then PUT
    else if token == DELETE_TEXT then DELETE
    else UNKNOWN
  }

  /** http_method_show. */
  function MethodText(m: HttpMethod): bytes {
    match m
    case GET => GET_TEXT
    case POST => POST_TEXT
    case PUT => PUT_TEXT
    case DELETE => DELETE_TEXT
    case _ => UNKNOWN_TEXT
  }

  // ---------------------------------------------------------------- parsing

  /** method_parse: the method and the position after the space. */
  function ParseMethod(line: bytes): (r: Parsed<(HttpMethod, nat)>)
    ensures r.Success? ==> r.value.1 <= |line|
  {
    if |line| == 0 || line[0] == SP then Failure(BadRequest)
    else
      var sp := FindByte(line, SP, 0, |line|);
      if sp == |line| || MethodOf(line[..sp]) == UNKNOWN then Failure(BadRequest)
      else Success((MethodOf(line[..sp]), sp + 1))
  }

  /** Path and query gathered so far, and whether a '?' has been seen. */
  datatype Target = Target(path: bytes, query: bytes, inQuery: bool) {
    /** Room is counted in the buffer being written, which keeps a byte for its NUL. */
    function Used(): nat { if inQuery then |query| else |path| }

    function Limit(): nat { if inQuery then MAX_QUERY_LEN - 1 else MAX_PATH_LEN - 1 }

    function Push(more: bytes): Target {
      if inQuery then this.(query := query + more) else this.(path := path + more)
    }
  }

  predicate TargetByte(c: byte) { 0x20 <= c < 0x7f && c != HASH }

  /** The loop of uri_parse over the request-target `t`. */
  function ScanTarget(t: bytes, i: nat, g: Target): Parsed<Target>
    requires i <= |t|
    decreases |t| - i
  {
    if i == |t| then Success(g)
    else if !TargetByte(t[i]) then Failure(BadRequest)
    else if !g.inQuery && t[i] == QUESTION then ScanTarget(t, i + 1, Target(g.path, [QUESTION], true))
    else if g.Used() >= g.Limit() then Failure(UriTooLong)
    else if t[i] == PERCENT then
      if i + 3 > |t| || !IsHex(t[i + 1]) || !IsHex(t[i + 2]) then Failure(BadRequest)
      else if g.Used() + 3 > g.Limit() then Failure(UriTooLong)
      else ScanTarget(t, i + 3, g.Push(t[i..i + 3]))
    else ScanTarget(t, i + 1, g.Push([t[i]]))
  }

  /** uri_parse: path, query and the position after the space. */
  function ParseUri(line: bytes, cur: nat): (r: Parsed<(Target, nat)>)
    requires cur <= |line|
    ensures r.Success? ==> r.value.1 <= |line|
  {
    if cur == |line| then Failure(BadRequest)
    else
      var sp := FindByte(line, SP, cur, |line|);
      if sp == |line| || line[cur] != SLASH then Failure(BadRequest)
      else
        match ScanTarget(line[cur..sp], 0, Target([], [], false))
        case Failure(status) => Failure(status)
        case Success(g) => Success((g, sp + 1))
  }

  /** version_parse. */
  function ParseVersion(v: bytes): Parsed<bytes> {
    if |v| != VERSION_LEN || v[..5] != HTTP_SLASH then Failure(BadRequest)
    else if !IsDigit(v[5]) || !IsDigit(v[7]) || v[6] != DOT then Failure(BadRequest)
    else if v[5..] != V_0_9 && v[5..] != V_1_0 && v[5..] != V_1_1 then Failure(VersionNotSupported)
    else Success(v)
  }

  /** request_line_parse on the bytes of one line, without its CRLF. */
  function ParseLine(line: bytes): Parsed<RequestLine> {
    var (verb, uri) :- ParseMethod(line);
    var (target, version) :- ParseUri(line, uri);
    var v :- ParseVersion(line[version..]);
    Success(RequestLine(verb, target.path, target.query, v))
  }

  method MethodParse(line: bytes) returns (r: Parsed<(HttpMethod, nat)>)
    ensures r == ParseMethod(line)
  {
    if |line| == 0 { return Failure(BadRequest); }
    if line[0] == SP { return Failure(BadRequest); }
    var sp := ByteFind(line, SP, 0, |line|);
    if sp == |line| { return Failure(BadRequest); }
    var m := MethodOf(line[..sp]);
    if m == UNKNOWN { return Failure(BadRequest); }
    return Success((m, sp + 1));
  }

  method UriParse(line: bytes, cur: nat) returns (r: Parsed<(Target, nat)>)
    requires cur <= |line|
    ensures r == ParseUri(line, cur)
  {
    if cur == |line| { return Failure(BadRequest); }
    var sp := ByteFind(line, SP, cur, |line|);
    if sp == |line| { return Failure(BadRequest); }
    if line[cur] != SLASH { return Failure(BadRequest); }
    var t := line[cur..sp];
    var g := TargetScan(t);
    if g.Failure? { return Failure(g.status); }
    return Success((g.value, sp + 1));
  }

  method TargetScan(t: bytes) returns (r: Parsed<Target>)
    ensures r == ScanTarget(t, 0, Target([], [], false))
  {
    var path, query, inQuery := [], [], false;
    var i := 0;
    while i < |t|
      invariant 0 <= i <= |t|
      invariant ScanTarget(t, i, Target(path, query, inQuery)) == ScanTarget(t, 0, Target([], [], false))
      invariant !inQuery ==> query == []
    {
      var c := t[i];
      if c < 0x20 || c >= 0x7f { return Failure(BadRequest); }
      if c == HASH { return Failure(BadRequest); }
      if !inQuery && c == QUESTION {
        inQuery, query, i := true, [c], i + 1;
        continue;
      }
      var used := if inQuery then |query| else |path|;
      var limit := if inQuery then MAX_QUERY_LEN - 1 else MAX_PATH_LEN - 1;
      if used >= limit { return Failure(UriTooLong); }
      var more := [c];
      if c == PERCENT {
        if i + 3 > |t| { return Failure(BadRequest); }
        if !IsHex(t[i + 1]) || !IsHex(t[i + 2]) { return Failure(BadRequest); }
        if used + 3 > limit { return Failure(UriTooLong); }
        more := t[i..i + 3];
      }
      if inQuery { query := query + more; } else { path := path + more; }
      i := i + |more|;
    }
    return Success(Target(path, query, inQuery));
  }

  method VersionParse(v: bytes) returns (r: Parsed<bytes>)
    ensures r == ParseVersion(v)
  {
    if |v| != VERSION_LEN { return Failure(BadRequest); }
    if v[..5] != HTTP_SLASH { return Failure(BadRequest); }
    if !IsDigit(v[5]) || !IsDigit(v[7]) || v[6] != DOT { return Failure(BadRequest); }
    var valid := v[5..] == V_0_9 || v[5..] == V_1_0 || v[5..] == V_1_1;
    if !valid { return Failure(VersionNotSupported); }
    return Success(v);
  }

  method LineParse(line: bytes) returns (r: Parsed<RequestLine>)
    ensures r == ParseLine(line)
  {
    var m := MethodParse(line);
    if m.Failure? { return Failure(m.status); }
    var u := UriParse(line, m.value.1);
    if u.Failure? { return Failure(u.status); }
    var v := VersionParse(line[u.value.1..]);
    if v.Failure? { return Failure(v.status); }
    return Success(RequestLine(m.value.0, u.value.0.path, u.value.0.query, v.value));
  }

  // ---------------------------------------------------------------- printing

  /** What request_line_show prints, without its newline. */
  function ShowLine(l: RequestLine): bytes {
    MethodText(l.verb) + [SP] + (l.path + l.query) + [SP] + l.version
  }

  /** Every '%' starts a percent-encoded triple. */
  predicate Escaped(t: bytes) {
    forall k :: 0 <= k < |t| && t[k] == PERCENT ==> k + 2 < |t| && IsHex(t[k + 1]) && IsHex(t[k + 2])
  }

  predicate AllTargetBytes(t: bytes) {
    forall k :: 0 <= k < |t| ==> TargetByte(t[k]) && t[k] != SP
  }

  predicate ValidPath(p: bytes) {
    && 0 < |p| <= MAX_PATH_LEN - 1 && p[0] == SLASH
    && AllTargetBytes(p) && Escaped(p) && QUESTION !in p
  }

  predicate ValidQuery(q: bytes) {
    q == [] || (|q| <= MAX_QUERY_LEN - 1 && q[0] == QUESTION && AllTargetBytes(q) && Escaped(q))
  }

  predicate ValidVersion(v: bytes) {
    v in {HTTP_SLASH + V_0_9, HTTP_SLASH + V_1_0, HTTP_SLASH + V_1_1}
  }

  predicate ValidRequestLine(l: RequestLine) {
    l.verb in {GET, POST, PUT, DELETE} && ValidPath(l.path) && ValidQuery(l.query) && ValidVersion(l.version)
  }

  // ---------------------------------------------------------------- the target scanner, declaratively

  function QuestionMark(t: bytes): nat { FindByte(t, QUESTION, 0, |t|) }

  /** The first `i` bytes of a target are acceptable, with no percent triple cut at `i`. */
  predicate GoodPrefix(t: bytes, i: nat)
    requires i <= |t|
  {
    && (forall k :: 0 <= k < i ==> TargetByte(t[k]))
    && (forall k :: 0 <= k < i && t[k] == PERCENT ==> k + 2 < i && IsHex(t[k + 1]) && IsHex(t[k + 2]))
    && (if i <= QuestionMark(t) then i <= MAX_PATH_LEN - 1
        else QuestionMark(t) <= MAX_PATH_LEN - 1 && i - QuestionMark(t) <= MAX_QUERY_LEN - 1)
  }

  /** The scanner's state once it has accepted the first `i` bytes of `t`. */
  function Gathered(t: bytes, i: nat): Target
    requires i <= |t|
  {
    var q := QuestionMark(t);
    if i <= q then Target(t[..i], [], false) else Target(t[..q], t[q..i], true)
  }

  lemma GatheredPush(t: bytes, i: nat, j: nat)
    requires i < j <= |t| && (QuestionMark(t) < i || j <= QuestionMark(t))
    ensures Gathered(t, i).Push(t[i..j]) == Gathered(t, j)
  {
    var q := QuestionMark(t);
    if i <= q { assert t[..i] + t[i..j] == t[..j]; } else { assert t[q..i] + t[i..j] == t[q..j]; }
  }

  lemma GoodNext(t: bytes, i: nat)
    requires i < |t| && GoodPrefix(t, i) && TargetByte(t[i]) && t[i] != PERCENT
    requires i == QuestionMark(t) || Gathered(t, i).Used() < Gathered(t, i).Limit()
    ensures GoodPrefix(t, i + 1)
  {
    hide TargetByte, IsHex;
  }

  lemma GoodStops(t: bytes, i: nat)
    requires i < |t| && GoodPrefix(t, i)
    requires !TargetByte(t[i]) || (i != QuestionMark(t) && Gathered(t, i).Used() >= Gathered(t, i).Limit())
    ensures !GoodPrefix(t, |t|)
  {
    hide TargetByte, IsHex;
  }

  lemma AtQuestion(t: bytes, i: nat)
    requires i < |t|
    ensures !Gathered(t, i).inQuery && t[i] == QUESTION <==> i == QuestionMark(t)
    ensures i == QuestionMark(t) ==> Gathered(t, i + 1) == Target(Gathered(t, i).path, [QUESTION], true)
  {
    var q := QuestionMark(t);
    if i == q { assert t[q..i + 1] == [QUESTION]; }
  }

  /** A rejected step means that the whole target is not acceptable. */
  lemma {:induction false} ScanExact(t: bytes, i: nat)
    requires i <= |t| && GoodPrefix(t, i)
    ensures var r := ScanTarget(t, i, Gathered(t, i));
      && (r.Success? <==> GoodPrefix(t, |t|))
      && (r.Success? ==> r.value == Gathered(t, |t|))
    decreases |t| - i
  {
    hide GoodPrefix, TargetByte, IsHex, FindByte, Gathered;
    if i < |t| {
      AtQuestion(t, i);
      if !TargetByte(t[i]) {
        GoodStops(t, i);
      } else if i == QuestionMark(t) {
        GoodNext(t, i);
        ScanExact(t, i + 1);
      } else if Gathered(t, i).Used() >= Gathered(t, i).Limit() {
        GoodStops(t, i);
      } else if t[i] == PERCENT {
        TripleExact(t, i);
      } else {
        GoodNext(t, i);
        PlainPush(t, i);
        ScanExact(t, i + 1);
      }
    }
  }

  lemma PlainPush(t: bytes, i: nat)
    requires i < |t| && i != QuestionMark(t)
    ensures Gathered(t, i).Push([t[i]]) == Gathered(t, i + 1)
  {
    assert t[i..i + 1] == [t[i]];
    GatheredPush(t, i, i + 1);
  }

  lemma {:induction false} TripleExact(t: bytes, i: nat)
    requires i < |t| && GoodPrefix(t, i) && t[i] == PERCENT && Gathered(t, i).Used() < Gathered(t, i).Limit()
    ensures var r := ScanTarget(t, i, Gathered(t, i));
      && (r.Success? <==> GoodPrefix(t, |t|))
      && (r.Success? ==> r.value == Gathered(t, |t|))
    decreases |t| - i, 0
  {
    if i + 3 <= |t| && IsHex(t[i + 1]) && IsHex(t[i + 2]) {
      TripleExtends(t, i);
      if Gathered(t, i).Used() + 3 <= Gathered(t, i).Limit() {
        GatheredPush(t, i, i + 3);
        ScanExact(t, i + 3);
      }
    } else {
      assert !GoodPrefix(t, |t|);
    }
  }

  lemma TripleExtends(t: bytes, i: nat)
    requires i + 3 <= |t| && GoodPrefix(t, i) && t[i] == PERCENT && IsHex(t[i + 1]) && IsHex(t[i + 2])
    ensures QuestionMark(t) < i || i + 3 <= QuestionMark(t)
    ensures if Gathered(t, i).Used() + 3 <= Gathered(t, i).Limit() then GoodPrefix(t, i + 3)
            else !GoodPrefix(t, |t|)
  {
    var q := QuestionMark(t);
    assert q !in {i, i + 1, i + 2};
    assert Gathered(t, i).Used() == if i <= q then i else i - q;
  }

  /** The scanner accepts exactly the targets that are a valid path followed by a valid query. */
  lemma TargetExact(t: bytes)
    requires |t| > 0 && t[0] == SLASH && SP !in t
    ensures var r := ScanTarget(t, 0, Target([], [], false));
      && (r.Success? <==> ValidPath(t[..QuestionMark(t)]) && ValidQuery(t[QuestionMark(t)..]))
      && (r.Success? ==> r.value.path == t[..QuestionMark(t)] && r.value.query == t[QuestionMark(t)..])
  {
    assert Gathered(t, 0) == Target([], [], false);
    ScanExact(t, 0);
    if GoodPrefix(t, |t|) { GoodIsValid(t); }
    if ValidPath(t[..QuestionMark(t)]) && ValidQuery(t[QuestionMark(t)..]) { ValidIsGood(t); }
  }

  lemma GoodIsValid(t: bytes)
    requires |t| > 0 && t[0] == SLASH && SP !in t && GoodPrefix(t, |t|)
    ensures ValidPath(t[..QuestionMark(t)]) && ValidQuery(t[QuestionMark(t)..])
  {
    hide TargetByte;
    var q := QuestionMark(t);
    var p, u := t[..q], t[q..];
    forall k | 0 <= k < |p| && p[k] == PERCENT ensures k + 2 < |p| && IsHex(p[k + 1]) && IsHex(p[k + 2]) {
      assert t[k] == PERCENT;
    }
    forall k | 0 <= k < |u| && u[k] == PERCENT ensures k + 2 < |u| && IsHex(u[k + 1]) && IsHex(u[k + 2]) {
      assert t[q + k] == PERCENT;
    }
  }

  /** Where byte `k` of a target stands in its path or its query. */
  lemma TargetIndex(t: bytes, q: nat, k: nat)
    requires q <= |t| && k < |t|
    ensures t[k] == if k < q then t[..q][k] else t[q..][k - q]
  {
  }

  lemma ValidBytes(t: bytes, q: nat, k: nat)
    requires q <= |t| && k < |t| && AllTargetBytes(t[..q]) && AllTargetBytes(t[q..])
    ensures TargetByte(t[k])
  {
    hide TargetByte;
    TargetIndex(t, q, k);
  }

  lemma ValidTriple(t: bytes, q: nat, k: nat)
    requires q <= |t| && k < |t| && Escaped(t[..q]) && Escaped(t[q..]) && t[k] == PERCENT
    ensures k + 2 < |t| && IsHex(t[k + 1]) && IsHex(t[k + 2])
  {
    hide IsHex;
    var part, i := if k < q then t[..q] else t[q..], if k < q then k else k - q;
    assert part[i] == PERCENT;
    assert part[i + 1] == t[k + 1] && part[i + 2] == t[k + 2];
  }

  lemma ValidIsGood(t: bytes)
    requires ValidPath(t[..QuestionMark(t)]) && ValidQuery(t[QuestionMark(t)..])
    ensures GoodPrefix(t, |t|)
  {
    hide TargetByte, IsHex, AllTargetBytes, Escaped;
    var q := QuestionMark(t);
    EmptyTarget();
    forall k | 0 <= k < |t| ensures TargetByte(t[k]) {
      ValidBytes(t, q, k);
    }
    forall k | 0 <= k < |t| && t[k] == PERCENT ensures k + 2 < |t| && IsHex(t[k + 1]) && IsHex(t[k + 2]) {
      ValidTriple(t, q, k);
    }
  }

  lemma EmptyTarget()
    ensures AllTargetBytes([]) && Escaped([])
  {
  }

  // ---------------------------------------------------------------- round trip

  lemma VersionExact(v: bytes)
    ensures ParseVersion(v).Success? <==> ValidVersion(v)
    ensures ParseVersion(v).Success? ==> ParseVersion(v).value == v
  {
    if |v| == VERSION_LEN { assert v == v[..5] + v[5..]; }
    if ValidVersion(v) { assert v[..5] == HTTP_SLASH; assert v[5..] in {V_0_9, V_1_0, V_1_1}; }
  }

  lemma SplitLine(line: bytes, sp: nat, sp2: nat)
    requires sp < sp2 < |line| && line[sp] == SP && line[sp2] == SP
    ensures line == line[..sp] + [SP] + line[sp + 1..sp2] + [SP] + line[sp2 + 1..]
  {
  }

  lemma JoinLine(m: bytes, t: bytes, v: bytes)
    requires SP !in m && SP !in t
    ensures var line := m + [SP] + t + [SP] + v;
      var sp2 := |m| + 1 + |t|;
      && FindByte(line, SP, 0, |line|) == |m| && line[..|m|] == m
      && FindByte(line, SP, |m| + 1, |line|) == sp2 && line[|m| + 1..sp2] == t && line[sp2 + 1..] == v
  {
    var line := m + [SP] + t + [SP] + v;
    FindByteUnique(line, SP, 0, |line|, |m|);
    FindByteUnique(line, SP, |m| + 1, |line|, |m| + 1 + |t|);
  }

  lemma ParsedMethod(line: bytes)
    requires ParseMethod(line).Success?
    ensures var (m, uri) := ParseMethod(line).value;
      m in {GET, POST, PUT, DELETE} && 0 < uri <= |line| && line[uri - 1] == SP && line[..uri - 1] == MethodText(m)
  {
  }

  lemma ParsedUri(line: bytes, cur: nat)
    requires cur <= |line| && ParseUri(line, cur).Success?
    ensures var (g, next) := ParseUri(line, cur).value;
      && ValidPath(g.path) && ValidQuery(g.query)
      && cur < next <= |line| && line[next - 1] == SP && line[cur..next - 1] == g.path + g.query
  {
    var sp := FindByte(line, SP, cur, |line|);
    var t := line[cur..sp];
    assert SP !in t;
    TargetExact(t);
  }

  lemma ParsedLineShows(line: bytes)
    requires ParseLine(line).Success?
    ensures var l := ParseLine(line).value; ValidRequestLine(l) && line == ShowLine(l)
  {
    var (_, uri) := ParseMethod(line).value;
    var (_, version) := ParseUri(line, uri).value;
    ParsedMethod(line);
    ParsedUri(line, uri);
    VersionExact(line[version..]);
    SplitLine(line, uri - 1, version - 1);
  }

  lemma ShownUri(line: bytes, cur: nat, l: RequestLine)
    requires ValidPath(l.path) && ValidQuery(l.query) && cur <= |line|
    requires var sp := FindByte(line, SP, cur, |line|); sp < |line| && line[cur..sp] == l.path + l.query
    ensures var r := ParseUri(line, cur);
      && r.Success? && r.value.0.path == l.path && r.value.0.query == l.query
      && r.value.1 == FindByte(line, SP, cur, |line|) + 1
  {
    var t := l.path + l.query;
    assert forall k :: 0 <= k < |t| ==> t[k] == if k < |l.path| then l.path[k] else l.query[k - |l.path|];
    FindByteUnique(t, QUESTION, 0, |t|, |l.path|);
    assert t[..|l.path|] == l.path && t[|l.path|..] == l.query;
    assert t[0] == line[cur];
    TargetExact(t);
  }

  lemma ShownMethod(line: bytes, m: HttpMethod)
    requires m in {GET, POST, PUT, DELETE}
    requires var sp := FindByte(line, SP, 0, |line|); sp < |line| && line[..sp] == MethodText(m)
    ensures ParseMethod(line) == Success((m, |MethodText(m)| + 1))
  {
    assert MethodOf(MethodText(m)) == m;
  }

  lemma TargetNoSpace(l: RequestLine)
    requires ValidRequestLine(l)
    ensures SP !in MethodText(l.verb) && SP !in l.path + l.query
  {
    hide TargetByte, Escaped;
  }

  lemma ShownLineParses(l: RequestLine)
    requires ValidRequestLine(l)
    ensures ParseLine(ShowLine(l)) == Success(l)
  {
    hide TargetByte, Escaped, AllTargetBytes, FindByte, ParseMethod, ParseUri, ParseVersion;
    TargetNoSpace(l);
    JoinLine(MethodText(l.verb), l.path + l.query, l.version);
    ShownMethod(ShowLine(l), l.verb);
    ShownUri(ShowLine(l), |MethodText(l.verb)| + 1, l);
    VersionExact(l.version);
  }

  /**
   Request lines round-trip both ways: a line is accepted with record `l` if and only if `l`
   is a valid record and the line is exactly what printing `l` gives.
   */
  lemma RequestLineExact(line: bytes, l: RequestLine)
    ensures ParseLine(line) == Success(l) <==> ValidRequestLine(l) && line == ShowLine(l)
  {
    if ParseLine(line) == Success(l) { ParsedLineShows(line); }
    if ValidRequestLine(l) && line == ShowLine(l) { ShownLineParses(l); }
  }

  // ---------------------------------------------------------------- refused lines

  /** "HTTP/" digit "." digit of a version that is none of the three. */
  predicate OtherVersion(v: bytes) {
    |v| == 8 && v[..5] == HTTP_SLASH && IsDigit(v[5]) && v[6] == DOT && IsDigit(v[7]) && !ValidVersion(v)
  }

  lemma VersionStatus(v: bytes)
    ensures ParseVersion(v) == Failure(VersionNotSupported) <==> OtherVersion(v)
    ensures ParseVersion(v).Failure? ==> ParseVersion(v).status in {VersionNotSupported, BadRequest}
  {
    VersionExact(v);
    if |v| == VERSION_LEN { assert v == v[..5] + v[5..]; }
  }

  /** A record as request_line_show prints one, but for its version. */
  predicate ValidButVersion(l: RequestLine) {
    l.verb in {GET, POST, PUT, DELETE} && ValidPath(l.path) && ValidQuery(l.query)
  }

  /** A target of the right bytes is refused only for its length. */
  lemma {:induction false} OnlyTooLong(t: bytes, i: nat, g: Target)
    requires i <= |t| && AllTargetBytes(t) && Escaped(t)
    ensures var r := ScanTarget(t, i, g); r.Failure? ==> r.status == UriTooLong
    decreases |t| - i
  {
    hide IsHex, TargetByte;
    if i < |t| && (g.inQuery || t[i] != QUESTION) {
      if t[i] == PERCENT {
        if g.Used() + 3 <= g.Limit() { OnlyTooLong(t, i + 3, g.Push(t[i..i + 3])); }
      } else {
        OnlyTooLong(t, i + 1, g.Push([t[i]]));
      }
    } else if i < |t| {
      OnlyTooLong(t, i + 1, Target(g.path, [QUESTION], true));
    }
  }

  /** Path and query of the right bytes: the target is "too long" exactly when one of them is. */
  lemma TooLongExactly(path: bytes, query: bytes)
    requires path != [] && path[0] == SLASH && QUESTION !in path && AllTargetBytes(path) && Escaped(path)
    requires query == [] || (query[0] == QUESTION && AllTargetBytes(query) && Escaped(query))
    ensures ScanTarget(path + query, 0, Target([], [], false)) == Failure(UriTooLong) <==>
            |path| > MAX_PATH_LEN - 1 || |query| > MAX_QUERY_LEN - 1
  {
    var t := path + query;
    forall k | 0 <= k < |t| ensures t[k] == if k < |path| then path[k] else query[k - |path|] {}
    WellFormed(path, query);
    FindByteUnique(t, QUESTION, 0, |t|, |path|);
    assert t[..|path|] == path && t[|path|..] == query;
    TargetExact(t);
    OnlyTooLong(t, 0, Target([], [], false));
  }

  lemma WellFormed(path: bytes, query: bytes)
    requires AllTargetBytes(path) && Escaped(path)
    requires query == [] || (AllTargetBytes(query) && Escaped(query))
    ensures var t := path + query; AllTargetBytes(t) && Escaped(t) && SP !in t
  {
    hide IsHex, TargetByte;
    var t := path + query;
    forall k | 0 <= k < |t| && t[k] == PERCENT ensures k + 2 < |t| && IsHex(t[k + 1]) && IsHex(t[k + 2]) {
      if k >= |path| { assert query[k - |path|] == PERCENT; } else { assert path[k] == PERCENT; }
    }
  }

  lemma ShownPieces(l: RequestLine)
    requires ValidButVersion(l)
    ensures var line := ShowLine(l); var n := |MethodText(l.verb)| + 1;
      && ParseMethod(line) == Success((l.verb, n))
      && ParseUri(line, n).Success? && line[ParseUri(line, n).value.1..] == l.version
  {
    hide TargetByte, Escaped, AllTargetBytes, FindByte, ParseMethod, ParseUri;
    TargetNoSpace(l.(version := HTTP_SLASH + V_1_1));
    JoinLine(MethodText(l.verb), l.path + l.query, l.version);
    ShownMethod(ShowLine(l), l.verb);
    ShownUri(ShowLine(l), |MethodText(l.verb)| + 1, l);
  }

  /** A line is refused for its version exactly when nothing but that is wrong with it. */
  lemma UnsupportedExactly(line: bytes)
    ensures ParseLine(line) == Failure(VersionNotSupported) <==>
            exists l :: ValidButVersion(l) && OtherVersion(l.version) && line == ShowLine(l)
  {
    hide ParseMethod, ParseUri, ParseVersion, ShowLine, ValidButVersion, OtherVersion;
    if ParseLine(line) == Failure(VersionNotSupported) {
      var l := UnsupportedShows(line);
    }
    forall l | ValidButVersion(l) && OtherVersion(l.version) && line == ShowLine(l)
      ensures ParseLine(line) == Failure(VersionNotSupported)
    {
      ShownPieces(l);
      VersionStatus(l.version);
    }
  }

  lemma UnsupportedShows(line: bytes) returns (l: RequestLine)
    requires ParseLine(line) == Failure(VersionNotSupported)
    ensures ValidButVersion(l) && OtherVersion(l.version) && line == ShowLine(l)
  {
    MethodStatus(line);
    hide ScanTarget, FindByte, ValidPath, ValidQuery, TargetByte, OtherVersion, ValidVersion;
    var (m, uri) := ParseMethod(line).value;
    UriStatus(line, uri);
    var (g, version) := ParseUri(line, uri).value;
    VersionStatus(line[version..]);
    ParsedMethod(line);
    ParsedUri(line, uri);
    SplitLine(line, uri - 1, version - 1);
    l := RequestLine(m, g.path, g.query, line[version..]);
  }

  /** The four methods by their names, in upper case, with one space behind them. */
  predicate Names(line: bytes, m: HttpMethod) {
    match m
    case GET => [71, 69, 84, 32] <= line
    case POST => [80, 79, 83, 84, 32] <= line
    case PUT => [80, 85, 84, 32] <= line
    case DELETE => [68, 69, 76, 69, 84, 69, 32] <= line
    case _ => false
  }

  lemma SpaceBehind(line: bytes, name: bytes)
    requires SP !in name
    ensures name + [SP] <= line <==>
            FindByte(line, SP, 0, |line|) == |name| < |line| && line[..|name|] == name
  {
    if name + [SP] <= line {
      assert line[..|name|] == name && line[|name|] == SP;
      assert forall i :: 0 <= i < |name| ==> line[i] == name[i];
    }
  }

  /** A method is read if and only if the line begins with its name and a space; other lines are refused. */
  lemma MethodExactly(line: bytes, m: HttpMethod)
    ensures (exists n :: ParseMethod(line) == Success((m, n))) <==> Names(line, m)
    ensures ParseMethod(line).Failure? <==>
            !Names(line, GET) && !Names(line, POST) && !Names(line, PUT) && !Names(line, DELETE)
  {
    NamesAre();
    SpaceBehind(line, GET_TEXT);
    SpaceBehind(line, POST_TEXT);
    SpaceBehind(line, PUT_TEXT);
    SpaceBehind(line, DELETE_TEXT);
    hide FindByte;
    if Names(line, m) {
      ShownMethod(line, m);
      assert ParseMethod(line) == Success((m, |MethodText(m)| + 1));
    }
  }

  lemma NamesAre()
    ensures GET_TEXT + [SP] == [71, 69, 84, 32] && POST_TEXT + [SP] == [80, 79, 83, 84, 32]
    ensures PUT_TEXT + [SP] == [80, 85, 84, 32] && DELETE_TEXT + [SP] == [68, 69, 76, 69, 84, 69, 32]
  {
  }

  lemma MethodStatus(line: bytes)
    ensures ParseMethod(line).Failure? ==> ParseMethod(line).status == BadRequest
  {
  }

  lemma UriStatus(line: bytes, cur: nat)
    requires cur <= |line|
    ensures ParseUri(line, cur).Failure? ==> ParseUri(line, cur).status in {BadRequest, UriTooLong}
  {
    if cur < |line| { ScanStatus(line[cur..FindByte(line, SP, cur, |line|)], 0, Target([], [], false)); }
  }

  lemma {:induction false} ScanStatus(t: bytes, i: nat, g: Target)
    requires i <= |t|
    ensures ScanTarget(t, i, g).Failure? ==> ScanTarget(t, i, g).status in {BadRequest, UriTooLong}
    decreases |t| - i
  {
    if i < |t| {
      ScanStatus(t, i + 1, Target(g.path, [QUESTION], true));
      ScanStatus(t, i + 1, g.Push([t[i]]));
      if i + 3 <= |t| { ScanStatus(t, i + 3, g.Push(t[i..i + 3])); }
    }
  }
}
