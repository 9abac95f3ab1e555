/**
 Transfer-Encoding (`transfer_encoding_parse`, src/HttpBody.c): the cursor loop against the
 list grammar of section 5.6.1 of RFC 9110 and the rule of section 6.1 of RFC 9112.
 */
module TransferEncoding {
  import opened Bytes
  import opened Headers

  datatype TransferCoding = TeNone | TeChunked | TeUnsupported

  const CHUNKED: bytes := [99, 104, 117, 110, 107, 101, 100]

  predicate IsChunked(name: bytes) { EqualIgnoreCase(name, CHUNKED) }

  // ---------------------------------------------------------------- the list, declaratively

  function SplitCommas(v: bytes): (parts: seq<bytes>)
    ensures |parts| > 0
    decreases |v|
  {
    var c := FindByte(v, COMMA, 0, |v|);
    if c == |v| then [v] else [v[..c]] + SplitCommas(v[c + 1..])
  }

  /** The coding name of a non-empty element: its parameters stripped. */
  function CodingName(element: bytes): bytes {
    element[..TrimOws(element, 0, FindByte(element, SEMICOLON, 0, |element|))]
  }

  /** The coding names of the elements that are not empty. */
  function NamesOf(parts: seq<bytes>): seq<bytes> {
    if parts == [] then []
    else if Trimmed(parts[0]) == [] then NamesOf(parts[1..])
    else [CodingName(Trimmed(parts[0]))] + NamesOf(parts[1..])
  }

  /** Split at commas, trim, drop empty elements, strip parameters. */
  function CodingNames(v: bytes): seq<bytes> {
    NamesOf(SplitCommas(v))
  }

  predicate AllTokens(names: seq<bytes>) {
    forall i :: 0 <= i < |names| ==> IsToken(names[i])
  }

  predicate HasOther(names: seq<bytes>) {
    exists i :: 0 <= i < |names| && !IsChunked(names[i])
  }

  /** chunked is absent, or occurs once and is the final coding. */
  predicate ChunkedOnlyLast(names: seq<bytes>) {
    forall i :: 0 <= i < |names| && IsChunked(names[i]) ==> i == |names| - 1
  }

  /** The verdict on a list of coding names. */
  function Classify(names: seq<bytes>): (ParseStatus, TransferCoding) {
    if |names| == 1 && IsChunked(names[0]) then (ParseOk, TeChunked)
    else if AllTokens(names) && HasOther(names) && ChunkedOnlyLast(names) then (NotImplemented, TeUnsupported)
    else (BadRequest, TeNone)
  }

  // ---------------------------------------------------------------- the loop's counters

  datatype Tally = Tally(total: nat, chunkedAt: int, unsupported: bool)

  function Decide(c: Tally): (ParseStatus, TransferCoding) {
    if c.total == 0 then (BadRequest, TeNone)
    else if c.chunkedAt >= 0 && c.unsupported && c.chunkedAt != c.total - 1 then (BadRequest, TeNone)
    else if c.unsupported then (NotImplemented, TeUnsupported)
    else (ParseOk, TeChunked)
  }

  function Count(c: Tally, name: bytes): Option<Tally> {
    if !IsToken(name) then None
    else if IsChunked(name) then
      if c.chunkedAt >= 0 then None else Some(Tally(c.total + 1, c.total, c.unsupported))
    else Some(Tally(c.total + 1, c.chunkedAt, true))
  }

  function Walk(names: seq<bytes>, c: Tally): (ParseStatus, TransferCoding) {
    if names == [] then Decide(c)
    else
      match Count(c, names[0])
      case None => (BadRequest, TeNone)
      case Some(c') => Walk(names[1..], c')
  }

  const NO_TALLY: Tally := Tally(0, -1, false)

  /** eq_chunked: seven bytes, compared after lower-casing. */
  method EqChunked(name: bytes) returns (eq: bool)
    ensures eq == IsChunked(name)
  {
    if |name| != 7 { return false; }
    for i := 0 to 7
      invariant forall j :: 0 <= j < i ==> ToLower(name[j]) == CHUNKED[j]
    {
      if ToLower(name[i]) != CHUNKED[i] { return false; }
    }
    return true;
  }

  /** transfer_encoding_parse: status and coding are those of the list, whatever its spelling. */
  method TransferEncodingParse(val: bytes) returns (status: ParseStatus, coding: TransferCoding)
    ensures (status, coding) == Classify(CodingNames(val))
  {
    hide FindByte, SkipOws, TrimOws, Trimmed, CodingName, CodingNames, Classify;
    WalkIsClassify(CodingNames(val));
    var cur := 0;
    var total, chunkedAt, unsupported := 0, -1, false;
    while cur < |val|
      invariant 0 <= cur <= |val| && 0 <= total
      invariant Walk(CodingNames(val[cur..]), Tally(total, chunkedAt, unsupported)) == Classify(CodingNames(val))
    {
      var start := cur;
      var tokStart := OwsSkip(val, start, |val|);
      cur := ByteFind(val, COMMA, start, |val|);
      ElementTrim(val, start);
      NamesStep(val, start);
      var tokEnd := OwsTrimTrailing(val, tokStart, cur);
      if tokStart < tokEnd {
        var c := CountElement(val[tokStart..tokEnd], Tally(total, chunkedAt, unsupported));
        if c.None? { return BadRequest, TeNone; }
        total, chunkedAt, unsupported := c.value.total, c.value.chunkedAt, c.value.unsupported;
      }
      if cur < |val| { cur := cur + 1; }
    }
    NamesOfEmpty();
    assert val[cur..] == [];
    if total == 0 { return BadRequest, TeNone; }
    if chunkedAt >= 0 && unsupported && chunkedAt != total - 1 { return BadRequest, TeNone; }
    if unsupported { return NotImplemented, TeUnsupported; }
    return ParseOk, TeChunked;
  }

  /** One non-empty element: its name classified and counted, or refused. */
  method CountElement(element: bytes, c: Tally) returns (r: Option<Tally>)
    ensures r == Count(c, CodingName(element))
  {
    var semi := ByteFind(element, SEMICOLON, 0, |element|);
    var nameEnd := OwsTrimTrailing(element, 0, semi);
    var name := element[..nameEnd];
    if |name| == 0 { return None; }
    var token := CheckToken(name);
    if !token { return None; }
    var chunked := EqChunked(name);
    if chunked {
      if c.chunkedAt >= 0 { return None; }
      return Some(Tally(c.total + 1, c.total, c.unsupported));
    }
    return Some(Tally(c.total + 1, c.chunkedAt, true));
  }

  lemma NamesOfEmpty()
    ensures CodingNames([]) == []
  {
    assert SplitCommas([]) == [[]];
    assert Trimmed([]) == [];
    assert NamesOf([[]]) == NamesOf([[]][1..]);
  }

  lemma SkipOwsUnique(s: bytes, cur: nat, end: nat, p: nat)
    requires cur <= p <= end <= |s| && (p < end ==> !IsOws(s[p]))
    requires forall j :: cur <= j < p ==> IsOws(s[j])
    ensures SkipOws(s, cur, end) == p
  {
  }

  lemma {:induction false} SkipSlice(val: bytes, start: nat, end: nat, cur: nat)
    requires start <= cur <= end <= |val|
    ensures SkipOws(val[start..end], cur - start, end - start) == SkipOws(val, cur, end) - start
    decreases end - cur
  {
    if cur < end { SkipSlice(val, start, end, cur + 1); }
  }

  lemma {:induction false} TrimSlice(val: bytes, start: nat, end: nat, from: nat, last: nat)
    requires start <= from <= last <= end <= |val|
    ensures TrimOws(val[start..end], from - start, last - start) == TrimOws(val, from, last) - start
    decreases last
  {
    if from < last { TrimSlice(val, start, end, from, last - 1); }
  }

  lemma SliceSlice(val: bytes, start: nat, end: nat, from: nat, last: nat)
    requires start <= from <= last <= end <= |val|
    ensures val[start..end][from - start..last - start] == val[from..last]
  {
    var raw := val[start..end];
    var inner := raw[from - start..last - start];
    assert forall i :: 0 <= i < |inner| ==> inner[i] == raw[from - start + i] == val[from + i];
    assert inner == val[from..last];
  }

  lemma TrimmedIs(raw: bytes, from: nat, last: nat)
    requires from <= |raw| && from == SkipOws(raw, 0, |raw|) && last == TrimOws(raw, from, |raw|)
    ensures Trimmed(raw) == raw[from..last]
  {
  }

  lemma SliceTrim(val: bytes, start: nat, end: nat)
    requires start <= end <= |val|
    ensures var from := SkipOws(val, start, end);
      val[from..TrimOws(val, from, end)] == Trimmed(val[start..end])
  {
    var from := SkipOws(val, start, end);
    SkipSlice(val, start, end, start);
    TrimSlice(val, start, end, from, end);
    var raw, last := val[start..end], TrimOws(val, from, end);
    TrimmedIs(raw, from - start, last - start);
    SliceSlice(val, start, end, from, last);
  }

  /** Skipping to the end of the whole value still finds the element's own first byte. */
  lemma ElementTrim(val: bytes, start: nat)
    requires start < |val|
    ensures var comma := FindByte(val, COMMA, start, |val|);
      var from := SkipOws(val, start, |val|);
      from <= comma && val[from..TrimOws(val, from, comma)] == Trimmed(val[start..comma])
  {
    var comma := FindByte(val, COMMA, start, |val|);
    var from := SkipOws(val, start, |val|);
    if comma < |val| { assert !IsOws(val[comma]); }
    SkipOwsUnique(val, start, comma, from);
    SliceTrim(val, start, comma);
  }

  /** The names from `start` on are those of the next element and of what follows its comma. */
  lemma NamesStep(val: bytes, start: nat)
    requires start < |val|
    ensures var comma := FindByte(val, COMMA, start, |val|);
      var element := Trimmed(val[start..comma]);
      var rest := if comma < |val| then CodingNames(val[comma + 1..]) else CodingNames(val[comma..]);
      CodingNames(val[start..]) == if element == [] then rest else [CodingName(element)] + rest
  {
    hide Trimmed, CodingName, FindByte;
    var v := val[start..];
    var comma := FindByte(val, COMMA, start, |val|);
    FindByteUnique(v, COMMA, 0, |v|, comma - start);
    if comma < |val| {
      assert v[..comma - start] == val[start..comma];
      assert v[comma - start + 1..] == val[comma + 1..];
      assert SplitCommas(v)[1..] == SplitCommas(val[comma + 1..]);
    } else {
      assert v == val[start..comma] && val[comma..] == [];
      NamesOfEmpty();
      assert SplitCommas(v) == [v] && [v][1..] == [];
    }
  }

  /** A value that is one token is one coding name. */
  lemma TokenIsName(v: bytes)
    requires IsToken(v)
    ensures CodingNames(v) == [v]
  {
    assert forall i :: 0 <= i < |v| ==> IsTchar(v[i]) && !IsOws(v[i]) && v[i] != COMMA && v[i] != SEMICOLON;
    FindByteUnique(v, COMMA, 0, |v|, |v|);
    FindByteUnique(v, SEMICOLON, 0, |v|, |v|);
    SkipOwsUnique(v, 0, |v|, 0);
    assert TrimOws(v, 0, |v|) == |v| && v[0..|v|] == v && v[..|v|] == v;
    assert SplitCommas(v) == [v] && [v][1..] == [];
    assert Trimmed(v) == v;
    assert CodingName(v) == v;
    assert NamesOf([v]) == [v] + NamesOf([]);
  }

  // ---------------------------------------------------------------- counters against the spec

  /** What the counters say about the names walked so far. */
  ghost predicate Counted(c: Tally, done: seq<bytes>) {
    && AllTokens(done) && c.total == |done| && -1 <= c.chunkedAt < |done|
    && (c.unsupported <==> HasOther(done))
    && (forall i :: 0 <= i < |done| ==> (IsChunked(done[i]) <==> i == c.chunkedAt))
  }

  lemma ChunkedIsToken(name: bytes)
    requires IsChunked(name)
    ensures IsToken(name)
  {
    forall i | 0 <= i < |name| ensures IsTchar(name[i]) {
      assert ToLower(name[i]) == ToLower(CHUNKED[i]);
    }
  }

  lemma DecideIsClassify(c: Tally, done: seq<bytes>)
    requires Counted(c, done)
    ensures Decide(c) == Classify(done)
  {
    if c.chunkedAt >= 0 { assert IsChunked(done[c.chunkedAt]); }
    if !c.unsupported && |done| > 0 {
      assert !HasOther(done);
      assert IsChunked(done[0]) && IsChunked(done[|done| - 1]);
    }
  }

  lemma {:induction false} WalkExact(done: seq<bytes>, names: seq<bytes>, c: Tally)
    requires Counted(c, done)
    ensures Walk(names, c) == Classify(done + names)
    decreases |names|
  {
    if names == [] {
      assert done + names == done;
      DecideIsClassify(c, done);
    } else {
      var name, rest := names[0], names[1..];
      var done' := done + [name];
      assert done' + rest == done + names;
      match Count(c, name)
      case None => CountRefuses(done, names, c);
      case Some(c') =>
        CountedStep(done, name, c);
        WalkExact(done', rest, c');
    }
  }

  lemma CountedStep(done: seq<bytes>, name: bytes, c: Tally)
    requires Counted(c, done) && Count(c, name).Some?
    ensures Counted(Count(c, name).value, done + [name])
  {
    var c', done' := Count(c, name).value, done + [name];
    assert done'[|done|] == name;
    if HasOther(done) {
      var i :| 0 <= i < |done| && !IsChunked(done[i]);
      assert done'[i] == done[i];
    }
  }

  /** The early refusals: a name that is no token, or chunked a second time. */
  lemma CountRefuses(done: seq<bytes>, names: seq<bytes>, c: Tally)
    requires Counted(c, done) && names != [] && Count(c, names[0]).None?
    ensures Classify(done + names) == (BadRequest, TeNone)
  {
    var all := done + names;
    assert all[|done|] == names[0];
    if !IsToken(names[0]) {
      if IsChunked(names[0]) { ChunkedIsToken(names[0]); }
      assert !AllTokens(all);
    } else {
      assert IsChunked(all[c.chunkedAt]) && c.chunkedAt < |done|;
      assert !ChunkedOnlyLast(all);
    }
  }

  lemma WalkIsClassify(names: seq<bytes>)
    ensures Walk(names, NO_TALLY) == Classify(names)
  {
    WalkExact([], names, NO_TALLY);
    assert [] + names == names;
  }

  /**
   The three verdicts as conditions on the list: accepted exactly when one element remains
   and it is chunked; not implemented exactly when all names are tokens, another coding is
   present and chunked is absent or occurs once and last; malformed in every other case.
   */
  lemma Verdicts(v: bytes)
    ensures var names := CodingNames(v);
      var (status, coding) := Classify(names);
      && (status == ParseOk <==> |names| == 1 && IsChunked(names[0]))
      && (status == NotImplemented <==> AllTokens(names) && HasOther(names) && ChunkedOnlyLast(names))
      && (status in {ParseOk, NotImplemented, BadRequest})
      && (status == ParseOk <==> coding == TeChunked) && (status == BadRequest <==> coding == TeNone)
  {
    var names := CodingNames(v);
    if |names| == 1 && IsChunked(names[0]) { assert !HasOther(names); }
  }

  // ---------------------------------------------------------------- the list, by its text

  /** Elements with commas between them. */
  function JoinCommas(parts: seq<bytes>): bytes
    requires parts != []
  {
    if |parts| == 1 then parts[0] else parts[0] + [COMMA] + JoinCommas(parts[1..])
  }

  predicate NoCommas(parts: seq<bytes>) { forall i :: 0 <= i < |parts| ==> COMMA !in parts[i] }

  /** The elements of a value are the one list without commas in them that is joined to it. */
  lemma {:induction false} SplitExactly(v: bytes, parts: seq<bytes>)
    requires parts != []
    ensures SplitCommas(v) == parts <==> NoCommas(parts) && JoinCommas(parts) == v
    decreases |v|
  {
    var c := FindByte(v, COMMA, 0, |v|);
    if c == |v| {
      assert COMMA !in v;
      CommaBetween(parts);
      if |parts| == 1 { assert parts == [parts[0]]; }
    } else {
      assert v == v[..c] + [COMMA] + v[c + 1..];
      assert SplitCommas(v) == [v[..c]] + SplitCommas(v[c + 1..]);
      if |parts| > 1 {
        assert parts == [parts[0]] + parts[1..];
        SplitExactly(v[c + 1..], parts[1..]);
        if NoCommas(parts) && JoinCommas(parts) == v { FirstElement(v, parts, c); }
        if SplitCommas(v) == parts { SplitFirst(v, parts, c); }
      } else {
        assert v[c] == COMMA;
      }
    }
  }

  lemma CommaBetween(parts: seq<bytes>)
    requires parts != []
    ensures |parts| > 1 ==> COMMA in JoinCommas(parts)
  {
    if |parts| > 1 { assert JoinCommas(parts)[|parts[0]|] == COMMA; }
  }

  lemma FirstElement(v: bytes, parts: seq<bytes>, c: nat)
    requires |parts| > 1 && NoCommas(parts) && JoinCommas(parts) == v && c == FindByte(v, COMMA, 0, |v|)
    ensures parts[0] == v[..c] && JoinCommas(parts[1..]) == v[c + 1..] && NoCommas(parts[1..])
  {
    var n := |parts[0]|;
    assert v[..n] == parts[0] && v[n] == COMMA;
    assert forall j :: 0 <= j < n ==> v[j] == parts[0][j];
    FindByteUnique(v, COMMA, 0, |v|, n);
  }

  lemma SplitFirst(v: bytes, parts: seq<bytes>, c: nat)
    requires c == FindByte(v, COMMA, 0, |v|) < |v| && |parts| > 1 && parts == [v[..c]] + parts[1..]
    requires NoCommas(parts[1..]) && JoinCommas(parts[1..]) == v[c + 1..]
    ensures NoCommas(parts) && JoinCommas(parts) == v
  {
    forall i | 0 <= i < |parts| ensures COMMA !in parts[i] {
      if i > 0 { assert parts[i] == parts[1..][i - 1]; }
    }
    assert v == v[..c] + [COMMA] + v[c + 1..];
  }

  /** Elements of spaces only are dropped; the names of the others stand in their order. */
  lemma {:induction false} NamesExactly(a: seq<bytes>, element: bytes, b: seq<bytes>)
    ensures NamesOf(a + [element] + b) ==
            NamesOf(a) + (if AllOws(element) then [] else [CodingName(Trimmed(element))]) + NamesOf(b)
  {
    hide Trimmed, CodingName, AllOws;
    if a == [] {
      TrimmedEmpty(element);
      assert ([element] + b)[1..] == b && [] + [element] + b == [element] + b;
    } else {
      assert (a + [element] + b)[1..] == a[1..] + [element] + b;
      NamesExactly(a[1..], element, b);
    }
  }

  lemma TrimmedEmpty(element: bytes)
    ensures Trimmed(element) == [] <==> AllOws(element)
  {
    TrimmedExactly(element, []);
    if AllOws(element) { assert element == element + [] + [] && AllOws([]); }
  }

  /** An element is a name, then spaces, then its parameters. */
  predicate Spells(element: bytes, name: bytes, spaces: bytes, params: bytes) {
    && SEMICOLON !in name && (name != [] ==> !IsOws(name[|name| - 1]))
    && AllOws(spaces) && (params == [] || params[0] == SEMICOLON) && element == name + spaces + params
  }

  /** The name of an element is what stands before its parameters and the spaces in front of them. */
  lemma NameExactly(element: bytes, name: bytes)
    ensures CodingName(element) == name <==> exists spaces, params :: Spells(element, name, spaces, params)
  {
    hide Spells;
    var spaces, params := NameParts(element);
    forall spaces, params | Spells(element, name, spaces, params) ensures CodingName(element) == name {
      NameOf(element, name, spaces, params);
    }
  }

  lemma NameParts(element: bytes) returns (spaces: bytes, params: bytes)
    ensures Spells(element, CodingName(element), spaces, params)
  {
    var semi := FindByte(element, SEMICOLON, 0, |element|);
    var last := TrimOws(element, 0, semi);
    spaces, params := element[last..semi], element[semi..];
    forall i | 0 <= i < |spaces| ensures IsOws(spaces[i]) {
      assert spaces[i] == element[last + i];
    }
    if 0 < last { assert element[..last][last - 1] == element[last - 1]; }
    assert element == element[..last] + spaces + params;
  }

  lemma NameOf(element: bytes, name: bytes, spaces: bytes, params: bytes)
    requires Spells(element, name, spaces, params)
    ensures CodingName(element) == name
  {
    var n, m := |name|, |name| + |spaces|;
    forall i | 0 <= i < |element| ensures element[i] == if i < n then name[i] else if i < m then spaces[i - n]
                                                        else params[i - m] {}
    FindByteUnique(element, SEMICOLON, 0, |element|, m);
    assert TrimOws(element, 0, m) == n;
    assert element[..n] == name;
  }
}
