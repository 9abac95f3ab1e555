/**
 The trailer-free chunked-body grammar of section 7.1 of RFC 9112, as the server reads it.
 The decoder accepts exactly the inputs that begin with a body.
 */
module ChunkGrammar {
  import opened Bytes
  import opened Config
  import opened Numbers
  import opened ChunkSpec

  datatype Chunk = Chunk(size: bytes, ext: bytes, data: bytes)

  /** Chunks, then the zero-sized one, then the empty trailer. */
  datatype Body = LastChunk(size: bytes, ext: bytes) | ChunkThen(chunk: Chunk, rest: Body)

  predicate NoCrlf(s: bytes) {
    forall j :: 0 <= j < |s| ==> !CrlfIn(s, j, |s|)
  }

  /** A chunk extension is anything from ';' up to the CRLF. */
  predicate ValidExt(ext: bytes) {
    (ext == [] || ext[0] == SEMICOLON) && NoCrlf(ext)
  }

  /** A chunk-size line that gives `n`. */
  predicate ValidLine(size: bytes, ext: bytes, n: nat) {
    |size| > 0 && AllDigits(size, 16) && Denoted(size, 16) == n <= MAX_BODY_LEN && ValidExt(ext)
  }

  predicate ValidChunk(c: Chunk) {
    |c.data| > 0 && ValidLine(c.size, c.ext, |c.data|)
  }

  predicate ValidBody(b: Body) {
    match b
    case LastChunk(size, ext) => ValidLine(size, ext, 0)
    case ChunkThen(chunk, rest) => ValidChunk(chunk) && ValidBody(rest)
  }

  function LineText(size: bytes, ext: bytes): bytes { size + ext + CRLF }

  function ChunkText(c: Chunk): bytes { LineText(c.size, c.ext) + c.data + CRLF }

  function BodyText(b: Body): bytes {
    match b
    case LastChunk(size, ext) => LineText(size, ext) + CRLF
    case ChunkThen(chunk, rest) => ChunkText(chunk) + BodyText(rest)
  }

  function Payload(b: Body): bytes {
    match b
    case LastChunk(_, _) => []
    case ChunkThen(chunk, rest) => chunk.data + Payload(rest)
  }

  // ---------------------------------------------------------------- chunk-size lines

  /** No CRLF starts inside `size ext` when a CRLF follows. */
  lemma LineCrlf(s: bytes, pos: nat, size: bytes, ext: bytes, n: nat)
    requires ValidLine(size, ext, n) && At(s, pos, LineText(size, ext))
    ensures FindCrlf(s, pos, |s|) == pos + |size| + |ext|
  {
    var line := LineText(size, ext);
    var p := pos + |size| + |ext|;
    DigitBytes(size, 16);
    AtByte(s, pos, line, |size| + |ext|);
    AtByte(s, pos, line, |size| + |ext| + 1);
    assert CrlfIn(s, p, |s|);
    forall j | pos <= j < p ensures !CrlfIn(s, j, |s|) {
      AtByte(s, pos, line, j - pos);
      AtByte(s, pos, line, j + 1 - pos);
      if j >= pos + |size| && j + 1 < p { assert !CrlfIn(ext, j - pos - |size|, |ext|); }
    }
    FindCrlfUnique(s, pos, |s|, p);
  }

  lemma LineSize(s: bytes, pos: nat, size: bytes, ext: bytes, n: nat)
    requires ValidLine(size, ext, n) && At(s, pos, LineText(size, ext))
    ensures FindByte(s, SEMICOLON, pos, pos + |size| + |ext|) == pos + |size|
  {
    var line := LineText(size, ext);
    DigitBytes(size, 16);
    if ext != [] { AtByte(s, pos, line, |size|); }
    forall j | pos <= j < pos + |size| ensures s[j] != SEMICOLON {
      AtByte(s, pos, line, j - pos);
    }
    FindByteUnique(s, SEMICOLON, pos, pos + |size| + |ext|, pos + |size|);
  }

  lemma LineReads(s: bytes, pos: nat, size: bytes, ext: bytes, n: nat)
    requires ValidLine(size, ext, n) && At(s, pos, LineText(size, ext))
    ensures SizeLine(s, pos) == Success((n, pos + |LineText(size, ext)|))
  {
    LineCrlf(s, pos, size, ext, n);
    LineSize(s, pos, size, ext, n);
    assert size + (ext + CRLF) == LineText(size, ext);
    AtSplit(s, pos, size, ext + CRLF);
    UintParseExact(size, 16, MAX_BODY_LEN);
  }

  lemma LineSound(s: bytes, pos: nat) returns (size: bytes, ext: bytes)
    requires pos <= |s| && SizeLine(s, pos).Success?
    ensures var (n, next) := SizeLine(s, pos).value;
      ValidLine(size, ext, n) && At(s, pos, LineText(size, ext)) && next == pos + |LineText(size, ext)|
  {
    var crlf := FindCrlf(s, pos, |s|);
    var sizeEnd := FindByte(s, SEMICOLON, pos, crlf);
    size, ext := s[pos..sizeEnd], s[sizeEnd..crlf];
    UintParseExact(size, 16, MAX_BODY_LEN);
    forall j | 0 <= j < |ext| ensures !CrlfIn(ext, j, |ext|) {
      assert !CrlfIn(s, sizeEnd + j, |s|);
    }
    assert s[pos..crlf + 2] == LineText(size, ext);
  }

  // ---------------------------------------------------------------- completeness

  lemma ChunkParts(s: bytes, pos: nat, c: Chunk)
    ensures At(s, pos, ChunkText(c)) <==>
              var line := LineText(c.size, c.ext);
              && At(s, pos, line)
              && At(s, pos + |line|, c.data)
              && At(s, pos + |line| + |c.data|, CRLF)
  {
    var line := LineText(c.size, c.ext);
    AtSplit(s, pos, line + c.data, CRLF);
    AtSplit(s, pos, line, c.data);
  }

  /** The CRLF after the data brings the decoder back to its start. */
  lemma CrlfReturns(s: bytes, pos: nat, out: bytes, cap: nat)
    requires At(s, pos, CRLF) && |out| <= cap
    ensures Drain(Decoder(ChunkTrailCr, 0), s, pos, out, cap) == Drain(START, s, pos + 2, out, cap)
  {
    AtByte(s, pos, CRLF, 0);
    AtByte(s, pos, CRLF, 1);
    assert out + [] == out;
    assert Drain(Decoder(ChunkTrailCr, 0), s, pos, out, cap) == Drain(Decoder(ChunkTrailLf, 0), s, pos + 1, out, cap);
  }

  lemma DataDrains(s: bytes, pos: nat, data: bytes, out: bytes, cap: nat)
    requires At(s, pos, data) && |data| > 0 && |out| <= cap
    ensures var r := Drain(Decoder(ChunkData, |data|), s, pos, out, cap);
      if |out| + |data| <= cap then r == Drain(Decoder(ChunkTrailCr, 0), s, pos + |data|, out + data, cap)
      else r.verdict == TooLarge
  {
  }

  /** A chunk-size line takes the decoder to the data, or to the trailer. */
  lemma LineDrains(s: bytes, pos: nat, n: nat, next: nat, out: bytes, cap: nat)
    requires pos <= |s| && |out| <= cap && SizeLine(s, pos) == Success((n, next))
    ensures Drain(START, s, pos, out, cap) ==
            Drain(if n == 0 then Decoder(ChunkTrailer, 0) else Decoder(ChunkData, n), s, next, out, cap)
  {
    assert out + [] == out;
  }

  lemma LineDataDrains(s: bytes, pos: nat, next: nat, data: bytes, out: bytes, cap: nat)
    requires pos <= |s| && |out| <= cap && |data| > 0 && SizeLine(s, pos) == Success((|data|, next))
    requires At(s, next, data) && At(s, next + |data|, CRLF)
    ensures var r := Drain(START, s, pos, out, cap);
      if |out| + |data| <= cap then r == Drain(START, s, next + |data| + 2, out + data, cap)
      else r.verdict == TooLarge
  {
    hide Drain;
    LineDrains(s, pos, |data|, next, out, cap);
    DataDrains(s, next, data, out, cap);
    if |out| + |data| <= cap { CrlfReturns(s, next + |data|, out + data, cap); }
  }

  /** One whole chunk: consumed with its data delivered, or refused for want of room. */
  lemma ChunkDrains(s: bytes, pos: nat, c: Chunk, out: bytes, cap: nat)
    requires ValidChunk(c) && At(s, pos, ChunkText(c)) && |out| <= cap
    ensures var r := Drain(START, s, pos, out, cap);
      if |out| + |c.data| <= cap then r == Drain(START, s, pos + |ChunkText(c)|, out + c.data, cap)
      else r.verdict == TooLarge
  {
    hide ValidLine, SizeLine, Drain, At;
    ChunkParts(s, pos, c);
    var next := pos + |LineText(c.size, c.ext)|;
    LineReads(s, pos, c.size, c.ext, |c.data|);
    LineDataDrains(s, pos, next, c.data, out, cap);
    assert pos + |ChunkText(c)| == next + |c.data| + 2;
  }

  lemma LastDrains(s: bytes, pos: nat, size: bytes, ext: bytes, out: bytes, cap: nat)
    requires ValidLine(size, ext, 0) && At(s, pos, LineText(size, ext) + CRLF) && |out| <= cap
    ensures Drain(START, s, pos, out, cap) ==
            Drained(Decoder(ChunkDone, 0), Complete, pos + |LineText(size, ext)| + 2, out)
  {
    var line := LineText(size, ext);
    AtSplit(s, pos, line, CRLF);
    LineReads(s, pos, size, ext, 0);
    AtByte(s, pos + |line|, CRLF, 0);
    AtByte(s, pos + |line|, CRLF, 1);
    assert out + [] == out;
    LineDrains(s, pos, 0, pos + |line|, out, cap);
  }

  /** The outcome of draining a body with `payload` that ends at `end`, after `out`. */
  predicate Delivers(r: Drained, end: nat, out: bytes, payload: bytes, cap: nat) {
    if |out| + |payload| <= cap then r == Drained(Decoder(ChunkDone, 0), Complete, end, out + payload)
    else r.verdict == TooLarge
  }

  lemma DeliversFirst(r: Drained, end: nat, out: bytes, data: bytes, payload: bytes, cap: nat)
    requires if |out| + |data| <= cap then Delivers(r, end, out + data, payload, cap) else r.verdict == TooLarge
    ensures Delivers(r, end, out, data + payload, cap)
  {
    assert out + data + payload == out + (data + payload);
  }

  lemma ChunkThenDrains(s: bytes, pos: nat, c: Chunk, out: bytes, end: nat, payload: bytes, cap: nat)
    requires ValidChunk(c) && At(s, pos, ChunkText(c)) && |out| <= cap
    requires |out| + |c.data| <= cap ==>
               Delivers(Drain(START, s, pos + |ChunkText(c)|, out + c.data, cap), end, out + c.data, payload, cap)
    ensures Delivers(Drain(START, s, pos, out, cap), end, out, c.data + payload, cap)
  {
    ChunkDrains(s, pos, c, out, cap);
    DeliversFirst(Drain(START, s, pos, out, cap), end, out, c.data, payload, cap);
  }

  lemma BodySplits(s: bytes, pos: nat, c: Chunk, rest: Body)
    requires ValidBody(ChunkThen(c, rest)) && At(s, pos, BodyText(ChunkThen(c, rest)))
    ensures ValidChunk(c) && ValidBody(rest)
    ensures At(s, pos, ChunkText(c)) && At(s, pos + |ChunkText(c)|, BodyText(rest))
    ensures |BodyText(ChunkThen(c, rest))| == |ChunkText(c)| + |BodyText(rest)|
    ensures Payload(ChunkThen(c, rest)) == c.data + Payload(rest)
  {
    AtSplit(s, pos, ChunkText(c), BodyText(rest));
  }

  lemma {:induction false} BodyDrains(s: bytes, pos: nat, b: Body, out: bytes, cap: nat)
    requires ValidBody(b) && At(s, pos, BodyText(b)) && |out| <= cap
    ensures Delivers(Drain(START, s, pos, out, cap), pos + |BodyText(b)|, out, Payload(b), cap)
    decreases b
  {
    hide Drain;
    match b
    case LastChunk(size, ext) =>
      LastDrains(s, pos, size, ext, out, cap);
      assert out + [] == out;
    case ChunkThen(c, rest) =>
      var next := pos + |ChunkText(c)|;
      BodySplits(s, pos, c, rest);
      if |out| + |c.data| <= cap {
        BodyDrains(s, next, rest, out + c.data, cap);
      }
      ChunkThenDrains(s, pos, c, out, next + |BodyText(rest)|, Payload(rest), cap);
  }

  // ---------------------------------------------------------------- soundness

  /** A body the decoder completes after a positive size line begins with a whole chunk. */
  lemma CompleteHasChunk(s: bytes, pos: nat, out: bytes, cap: nat) returns (c: Chunk)
    requires pos <= |s| && |out| <= cap && Drain(START, s, pos, out, cap).verdict == Complete
    requires SizeLine(s, pos).Success? && SizeLine(s, pos).value.0 > 0
    ensures ValidChunk(c) && At(s, pos, ChunkText(c)) && |out| + |c.data| <= cap
    ensures Drain(START, s, pos + |ChunkText(c)|, out + c.data, cap).verdict == Complete
  {
    hide Drain, SizeLine;
    var (n, next) := SizeLine(s, pos).value;
    var size, ext := LineSound(s, pos);
    LineDrains(s, pos, n, next, out, cap);
    DataCompletes(s, next, n, out, cap);
    c := Chunk(size, ext, s[next..next + n]);
    ChunkParts(s, pos, c);
    ChunkDrains(s, pos, c, out, cap);
  }

  lemma DataCompletes(s: bytes, pos: nat, n: nat, out: bytes, cap: nat)
    requires pos <= |s| && n > 0 && |out| <= cap
    requires Drain(Decoder(ChunkData, n), s, pos, out, cap).verdict == Complete
    ensures |out| + n <= cap && At(s, pos + n, CRLF)
  {
    var out' := out + s[pos..pos + Min(n, |s| - pos)];
    assert |out| + n <= cap && pos + n <= |s|;
    assert out' + [] == out';
    assert Drain(Decoder(ChunkTrailCr, 0), s, pos + n, out', cap).verdict == Complete;
    assert Drain(Decoder(ChunkTrailLf, 0), s, pos + n + 1, out', cap).verdict == Complete;
  }

  lemma LastCompletes(s: bytes, pos: nat, out: bytes, cap: nat) returns (size: bytes, ext: bytes)
    requires pos <= |s| && |out| <= cap && Drain(START, s, pos, out, cap).verdict == Complete
    requires SizeLine(s, pos).Success? && SizeLine(s, pos).value.0 == 0
    ensures ValidLine(size, ext, 0) && At(s, pos, LineText(size, ext) + CRLF)
  {
    var next := SizeLine(s, pos).value.1;
    size, ext := LineSound(s, pos);
    LineDrains(s, pos, 0, next, out, cap);
    assert At(s, next, CRLF);
    AtSplit(s, pos, LineText(size, ext), CRLF);
  }

  lemma CompleteHasLine(s: bytes, pos: nat, out: bytes, cap: nat)
    requires pos <= |s| && |out| <= cap && Drain(START, s, pos, out, cap).verdict == Complete
    ensures SizeLine(s, pos).Success?
  {
  }

  lemma BodyThen(s: bytes, pos: nat, c: Chunk, rest: Body)
    requires ValidChunk(c) && ValidBody(rest)
    requires At(s, pos, ChunkText(c)) && At(s, pos + |ChunkText(c)|, BodyText(rest))
    ensures ValidBody(ChunkThen(c, rest)) && At(s, pos, BodyText(ChunkThen(c, rest)))
    ensures Payload(ChunkThen(c, rest)) == c.data + Payload(rest)
  {
    AtSplit(s, pos, ChunkText(c), BodyText(rest));
  }

  lemma {:induction false} CompleteIsBody(s: bytes, pos: nat, out: bytes, cap: nat) returns (b: Body)
    requires pos <= |s| && |out| <= cap && Drain(START, s, pos, out, cap).verdict == Complete
    ensures ValidBody(b) && At(s, pos, BodyText(b)) && |out| + |Payload(b)| <= cap
    decreases |s| - pos
  {
    hide Drain, SizeLine;
    CompleteHasLine(s, pos, out, cap);
    if SizeLine(s, pos).value.0 == 0 {
      var size, ext := LastCompletes(s, pos, out, cap);
      b := LastChunk(size, ext);
    } else {
      var c := CompleteHasChunk(s, pos, out, cap);
      var rest := CompleteIsBody(s, pos + |ChunkText(c)|, out + c.data, cap);
      b := ChunkThen(c, rest);
      BodyThen(s, pos, c, rest);
    }
  }

  // ---------------------------------------------------------------- main theorems

  /**
   What the decoder does with any input that begins with a body of the grammar: it stops at
   the end of that body with exactly its payload, or refuses it if the payload does not fit.
   */
  lemma DecodeBody(b: Body, rest: bytes, cap: nat)
    requires ValidBody(b)
    ensures var r := Decode(BodyText(b) + rest, cap);
      if |Payload(b)| <= cap
      then r == Drained(Decoder(ChunkDone, 0), Complete, |BodyText(b)|, Payload(b))
      else r.verdict == TooLarge
  {
    hide Drain;
    var s := BodyText(b) + rest;
    assert s[0..|BodyText(b)|] == BodyText(b);
    BodyDrains(s, 0, b, [], cap);
    assert [] + Payload(b) == Payload(b);
  }

  /** The decoder completes if and only if its input begins with a body that fits. */
  lemma DecodeExactly(s: bytes, cap: nat)
    ensures Decode(s, cap).verdict == Complete <==>
              exists b :: ValidBody(b) && At(s, 0, BodyText(b)) && |Payload(b)| <= cap
  {
    if Decode(s, cap).verdict == Complete {
      var b := CompleteIsBody(s, 0, [], cap);
    }
    forall b | ValidBody(b) && At(s, 0, BodyText(b)) && |Payload(b)| <= cap
      ensures Decode(s, cap).verdict == Complete
    {
      BodyDrains(s, 0, b, [], cap);
    }
  }

  lemma LineDetermined(s: bytes, pos: nat, size: bytes, ext: bytes, n: nat, size': bytes, ext': bytes, n': nat)
    requires ValidLine(size, ext, n) && At(s, pos, LineText(size, ext))
    requires ValidLine(size', ext', n') && At(s, pos, LineText(size', ext'))
    ensures size == size' && ext == ext' && n == n'
  {
    LineCrlf(s, pos, size, ext, n);
    LineCrlf(s, pos, size', ext', n');
    LineSize(s, pos, size, ext, n);
    LineSize(s, pos, size', ext', n');
    var text := LineText(size, ext);
    assert text == LineText(size', ext');
    assert size == text[..|size|] && ext == text[|size|..|size| + |ext|];
    assert size' == text[..|size|] && ext' == text[|size|..|size| + |ext|];
  }

  lemma {:induction false} BodyDetermined(s: bytes, pos: nat, b: Body, b': Body)
    requires ValidBody(b) && At(s, pos, BodyText(b))
    requires ValidBody(b') && At(s, pos, BodyText(b'))
    ensures b == b'
    decreases b
  {
    hide ValidLine;
    BodyLine(s, pos, b);
    BodyLine(s, pos, b');
    LineDetermined(s, pos, FirstSize(b), FirstExt(b), FirstLen(b), FirstSize(b'), FirstExt(b'), FirstLen(b'));
    if b.ChunkThen? {
      BodySplits(s, pos, b.chunk, b.rest);
      BodySplits(s, pos, b'.chunk, b'.rest);
      ChunkParts(s, pos, b.chunk);
      ChunkParts(s, pos, b'.chunk);
      BodyDetermined(s, pos + |ChunkText(b.chunk)|, b.rest, b'.rest);
    }
  }

  function FirstSize(b: Body): bytes { if b.LastChunk? then b.size else b.chunk.size }

  function FirstExt(b: Body): bytes { if b.LastChunk? then b.ext else b.chunk.ext }

  function FirstLen(b: Body): nat { if b.LastChunk? then 0 else |b.chunk.data| }

  lemma BodyLine(s: bytes, pos: nat, b: Body)
    requires ValidBody(b) && At(s, pos, BodyText(b))
    ensures ValidLine(FirstSize(b), FirstExt(b), FirstLen(b)) && At(s, pos, LineText(FirstSize(b), FirstExt(b)))
  {
    match b
    case LastChunk(size, ext) => AtSplit(s, pos, LineText(size, ext), CRLF);
    case ChunkThen(c, rest) =>
      AtSplit(s, pos, ChunkText(c), BodyText(rest));
      ChunkParts(s, pos, c);
  }

  /** The grammar is unambiguous and prefix-free: an input begins with at most one body. */
  lemma BodyUnique(s: bytes, b: Body, b': Body)
    requires ValidBody(b) && BodyText(b) <= s
    requires ValidBody(b') && BodyText(b') <= s
    ensures b == b'
  {
    BodyDetermined(s, 0, b, b');
  }
}
