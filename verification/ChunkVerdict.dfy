/**
 What each verdict of the chunked decoder means, in terms of the grammar: when a body is
 refused, when it is too large, and when the server waits for more of it - also in vain.
 */
module ChunkVerdicts {
  import opened Bytes
  import opened Config
  import opened Numbers
  import opened ChunkSpec
  import opened ChunkGrammar

  // ---------------------------------------------------------------- inputs as chunks and a rest

  predicate AllValid(chunks: seq<Chunk>) {
    forall i :: 0 <= i < |chunks| ==> ValidChunk(chunks[i])
  }

  function ChunksText(chunks: seq<Chunk>): bytes {
    if chunks == [] then [] else ChunkText(chunks[0]) + ChunksText(chunks[1..])
  }

  function ChunksData(chunks: seq<Chunk>): bytes {
    if chunks == [] then [] else chunks[0].data + ChunksData(chunks[1..])
  }

  /** What follows the last whole chunk: a line that has not ended, or one that has and more. */
  datatype Rest = Unended(line: bytes) | Ended(size: bytes, ext: bytes, after: bytes)

  function RestText(r: Rest): bytes {
    match r
    case Unended(line) => line
    case Ended(size, ext, after) => LineText(size, ext) + after
  }

  /** A line's size goes up to its first ';', and the line up to the first CRLF. */
  predicate Shaped(r: Rest) {
    match r
    case Unended(line) => NoCrlf(line)
    case Ended(size, ext, _) => SEMICOLON !in size && (ext == [] || ext[0] == SEMICOLON) && NoCrlf(size + ext)
  }

  /** The input is some whole chunks of the grammar and a rest. */
  predicate Outline(s: bytes, chunks: seq<Chunk>, r: Rest) {
    AllValid(chunks) && Shaped(r) && s == ChunksText(chunks) + RestText(r)
  }

  predicate IsSize(size: bytes) {
    size != [] && AllDigits(size, 16) && Denoted(size, 16) <= MAX_BODY_LEN
  }

  /** The length that the rest announces. */
  function Announced(r: Rest): nat
    requires r.Ended? && IsSize(r.size)
  {
    Denoted(r.size, 16)
  }

  /**
   Nothing is wrong with the rest yet, and it is not whole: its line has not ended, or its data
   or the CRLF behind them are not all there, or at most one byte follows the last chunk.
   */
  predicate Waits(r: Rest, room: nat) {
    r.Ended? ==>
      && IsSize(r.size)
      && var n, after := Announced(r), r.after;
         if n == 0 then |after| <= 1
         else |after| <= n + 1 && Min(n, |after|) <= room && (|after| == n + 1 ==> after[n] == CR)
  }

  /** Its line is no size, data are not followed by CRLF, or the last chunk is not: a trailer field, say. */
  ghost predicate Broken(r: Rest, room: nat) {
    && r.Ended?
    && if !IsSize(r.size) then !Overflows(r.size, 16, MAX_BODY_LEN)
       else
         var n, after := Announced(r), r.after;
         if n == 0 then |after| >= 2 && after[..2] != CRLF
         else n <= room && |after| > n && (after[n] != CR || (|after| > n + 1 && after[n + 1] != LF))
  }

  /** Its size exceeds the limit of a body, or more data than there is room for have arrived. */
  ghost predicate Overfull(r: Rest, room: nat) {
    && r.Ended?
    && (|| Overflows(r.size, 16, MAX_BODY_LEN)
        || (IsSize(r.size) && Min(Announced(r), |r.after|) > room))
  }

  /** It is the last chunk and the empty trailer. */
  predicate Closes(r: Rest) {
    r.Ended? && IsSize(r.size) && Announced(r) == 0 && CRLF <= r.after
  }

  /** It begins with one more whole chunk that fits. */
  predicate GoesOn(r: Rest, room: nat) {
    && r.Ended? && IsSize(r.size) && 0 < Announced(r) <= room
    && At(r.after, Announced(r), CRLF)
  }

  // ---------------------------------------------------------------- the decoder on a rest

  lemma OverflowIsNoSize(size: bytes)
    ensures !(IsSize(size) && Overflows(size, 16, MAX_BODY_LEN))
  {
    UintParseExact(size, 16, MAX_BODY_LEN);
  }

  lemma ShapedReads(s: bytes, pos: nat, size: bytes, ext: bytes)
    requires Shaped(Ended(size, ext, [])) && At(s, pos, LineText(size, ext))
    ensures SizeLine(s, pos) ==
            if size == [] then Failure(BadRequest)
            else match UintParse(size, 16, MAX_BODY_LEN)
                 case Failure(status) => Failure(status)
                 case Success(n) => Success((n, pos + |LineText(size, ext)|))
  {
    var line, p := LineText(size, ext), pos + |size| + |ext|;
    AtByte(s, pos, line, |size| + |ext|);
    AtByte(s, pos, line, |size| + |ext| + 1);
    forall j | pos <= j < p ensures !CrlfIn(s, j, |s|) && s[j] == (size + ext)[j - pos] {
      AtByte(s, pos, line, j - pos);
      AtByte(s, pos, line, j + 1 - pos);
      assert !CrlfIn(size + ext, j - pos, |size + ext|);
    }
    FindCrlfUnique(s, pos, |s|, p);
    FindByteUnique(s, SEMICOLON, pos, p, pos + |size|);
    AtSplit(s, pos, size, ext + CRLF);
    assert size + (ext + CRLF) == line;
  }

  lemma UnendedWaits(s: bytes, pos: nat, line: bytes, out: bytes, cap: nat)
    requires NoCrlf(line) && pos <= |s| && s[pos..] == line && |out| <= cap
    ensures Drain(START, s, pos, out, cap).verdict == More
  {
    forall j | pos <= j < |s| ensures !CrlfIn(s, j, |s|) {
      assert !CrlfIn(line, j - pos, |line|);
    }
  }

  lemma DataStep(s: bytes, pos: nat, n: nat, out: bytes, cap: nat)
    requires pos <= |s| && n > 0 && |out| <= cap
    ensures var r, room, had := Drain(Decoder(ChunkData, n), s, pos, out, cap), cap - |out|, |s| - pos;
      && (Min(n, had) > room ==> r.verdict == TooLarge)
      && (Min(n, had) <= room && had < n ==> r.verdict == More)
      && (n <= room && had >= n ==> r == Drain(Decoder(ChunkTrailCr, 0), s, pos + n, out + s[pos..pos + n], cap))
  {
  }

  /** The data and what follows them, once the line announced `n` bytes. */
  lemma DataVerdict(s: bytes, pos: nat, n: nat, after: bytes, out: bytes, cap: nat)
    requires pos <= |s| && s[pos..] == after && n > 0 && |out| <= cap
    ensures var v, room := Drain(Decoder(ChunkData, n), s, pos, out, cap).verdict, cap - |out|;
      && (Min(n, |after|) > room ==> v == TooLarge)
      && (Min(n, |after|) <= room && |after| <= n ==> v == More)
      && (n <= room && |after| > n && after[n] != CR ==> v == Rejected)
      && (n <= room && |after| == n + 1 && after[n] == CR ==> v == More)
      && (n <= room && |after| > n + 1 && after[n] == CR && after[n + 1] != LF ==> v == Rejected)
  {
    hide Drain;
    DataStep(s, pos, n, out, cap);
    if n <= cap - |out| && |after| >= n {
      AfterData(s, pos + n, out + s[pos..pos + n], cap);
      assert |after| > n ==> s[pos + n] == after[n];
      assert |after| > n + 1 ==> s[pos + n + 1] == after[n + 1];
    }
  }

  lemma AfterData(s: bytes, pos: nat, out: bytes, cap: nat)
    requires pos <= |s| && |out| <= cap
    ensures var v := Drain(Decoder(ChunkTrailCr, 0), s, pos, out, cap).verdict;
      && (pos == |s| ==> v == More)
      && (pos < |s| && s[pos] != CR ==> v == Rejected)
      && (pos + 1 == |s| && s[pos] == CR ==> v == More)
      && (pos + 1 < |s| && s[pos] == CR && s[pos + 1] != LF ==> v == Rejected)
  {
    assert out + [] == out;
    if pos < |s| && s[pos] == CR {
      assert Drain(Decoder(ChunkTrailCr, 0), s, pos, out, cap)
          == Drain(Decoder(ChunkTrailLf, 0), s, pos + 1, out, cap);
    }
  }

  lemma TrailerVerdict(s: bytes, pos: nat, after: bytes, out: bytes, cap: nat)
    requires pos <= |s| && s[pos..] == after && |out| <= cap
    ensures Drain(Decoder(ChunkTrailer, 0), s, pos, out, cap).verdict ==
            if |after| < 2 then More else if after[..2] == CRLF then Complete else Rejected
  {
    if |after| >= 2 { assert s[pos] == after[0] && s[pos + 1] == after[1]; }
  }

  /** The verdict on an input whose rest is not one more chunk. */
  ghost predicate Tells(v: Verdict, r: Rest, room: nat) {
    match v
    case More => Waits(r, room)
    case Rejected => Broken(r, room)
    case TooLarge => Overfull(r, room)
    case Complete => Closes(r)
  }

  lemma RestTells(s: bytes, pos: nat, r: Rest, out: bytes, cap: nat)
    requires Shaped(r) && pos <= |s| && s[pos..] == RestText(r) && |out| <= cap && !GoesOn(r, cap - |out|)
    ensures Tells(Drain(START, s, pos, out, cap).verdict, r, cap - |out|)
  {
    hide Drain;
    match r
    case Unended(line) => UnendedWaits(s, pos, line, out, cap);
    case Ended(size, ext, after) =>
      var line := LineText(size, ext);
      assert At(s, pos, line) by { assert s[pos..pos + |line|] == s[pos..][..|line|]; }
      assert s[pos + |line|..] == after by { assert s[pos + |line|..] == s[pos..][|line|..]; }
      ShapedReads(s, pos, size, ext);
      UintParseExact(size, 16, MAX_BODY_LEN);
      LineTells(s, pos, r, out, cap);
  }

  lemma LineTells(s: bytes, pos: nat, r: Rest, out: bytes, cap: nat)
    requires r.Ended? && |out| <= cap && !GoesOn(r, cap - |out|)
    requires var next := pos + |LineText(r.size, r.ext)|;
      && next <= |s| && s[next..] == r.after
      && if IsSize(r.size) then SizeLine(s, pos) == Success((Announced(r), next))
         else SizeLine(s, pos) == Failure(if Overflows(r.size, 16, MAX_BODY_LEN) then PayloadTooLarge else BadRequest)
    ensures Tells(Drain(START, s, pos, out, cap).verdict, r, cap - |out|)
  {
    OverflowIsNoSize(r.size);
    hide SizeLine, Overflows, IsSize, Announced, LineText, Drain, Tells, GoesOn;
    var next := pos + |LineText(r.size, r.ext)|;
    if !IsSize(r.size) {
      BadLineTells(s, pos, r, out, cap);
    } else {
      LineDrains(s, pos, Announced(r), next, out, cap);
      if Announced(r) == 0 {
        LastTells(s, next, r, out, cap);
      } else {
        DataTells(s, next, r, out, cap);
      }
    }
  }

  lemma BadLineTells(s: bytes, pos: nat, r: Rest, out: bytes, cap: nat)
    requires r.Ended? && |out| <= cap && !IsSize(r.size) && pos <= |s|
    requires SizeLine(s, pos) == Failure(if Overflows(r.size, 16, MAX_BODY_LEN) then PayloadTooLarge else BadRequest)
    ensures Tells(Drain(START, s, pos, out, cap).verdict, r, cap - |out|)
  {
    hide SizeLine, Overflows, IsSize, Announced;
    assert Drain(START, s, pos, out, cap).verdict ==
           if Overflows(r.size, 16, MAX_BODY_LEN) then TooLarge else Rejected;
  }

  lemma LastTells(s: bytes, next: nat, r: Rest, out: bytes, cap: nat)
    requires r.Ended? && IsSize(r.size) && Announced(r) == 0 && |out| <= cap
    requires next <= |s| && s[next..] == r.after
    ensures Tells(Drain(Decoder(ChunkTrailer, 0), s, next, out, cap).verdict, r, cap - |out|)
  {
    hide IsSize, Announced, Overflows, Drain;
    TrailerVerdict(s, next, r.after, out, cap);
  }

  lemma DataTells(s: bytes, next: nat, r: Rest, out: bytes, cap: nat)
    requires r.Ended? && IsSize(r.size) && Announced(r) > 0 && |out| <= cap && !GoesOn(r, cap - |out|)
    requires next <= |s| && s[next..] == r.after
    ensures Tells(Drain(Decoder(ChunkData, Announced(r)), s, next, out, cap).verdict, r, cap - |out|)
  {
    hide IsSize, Announced, Overflows, Drain, At;
    DataVerdict(s, next, Announced(r), r.after, out, cap);
    NoCrlfBehind(r.after, Announced(r));
  }

  lemma NoCrlfBehind(after: bytes, n: nat)
    ensures !At(after, n, CRLF) ==> |after| <= n + 1 || after[n] != CR || after[n + 1] != LF
  {
    if |after| > n + 1 { assert after[n..n + 2] == [after[n], after[n + 1]]; }
  }

  // ---------------------------------------------------------------- every input has an outline

  lemma OneKind(r: Rest, room: nat, v: Verdict, w: Verdict)
    requires Tells(v, r, room) && Tells(w, r, room)
    ensures v == w && !GoesOn(r, room)
  {
    if r.Ended? {
      OverflowIsNoSize(r.size);
      hide Overflows, IsSize, Announced;
      if IsSize(r.size) && 0 < Announced(r) && At(r.after, Announced(r), CRLF) {
        AtByte(r.after, Announced(r), CRLF, 0);
        AtByte(r.after, Announced(r), CRLF, 1);
      }
    }
  }

  /** The first line of a text, or all of it. */
  lemma FirstLine(t: bytes) returns (r: Rest)
    ensures Shaped(r) && t == RestText(r)
  {
    var crlf := FindCrlf(t, 0, |t|);
    if crlf == |t| {
      r := Unended(t);
    } else {
      var semi := FindByte(t, SEMICOLON, 0, crlf);
      r := Ended(t[..semi], t[semi..crlf], t[crlf + 2..]);
      assert t[..semi] + t[semi..crlf] == t[..crlf];
      forall j | 0 <= j < crlf ensures !CrlfIn(t[..crlf], j, crlf) {
        assert !CrlfIn(t, j, |t|);
      }
      assert t == t[..crlf] + CRLF + t[crlf + 2..];
    }
  }

  lemma OneMoreChunk(r: Rest, room: nat) returns (c: Chunk, more: bytes)
    requires Shaped(r) && GoesOn(r, room)
    ensures ValidChunk(c) && RestText(r) == ChunkText(c) + more && |c.data| <= room
  {
    var n := Announced(r);
    c, more := Chunk(r.size, r.ext, r.after[..n]), r.after[n + 2..];
    assert r.after == r.after[..n] + CRLF + more;
    assert NoCrlf(r.ext) by {
      forall j | 0 <= j < |r.ext| ensures !CrlfIn(r.ext, j, |r.ext|) {
        assert !CrlfIn(r.size + r.ext, |r.size| + j, |r.size + r.ext|);
      }
    }
    hide Denoted, AllDigits;
    assert LineText(r.size, r.ext) + (r.after[..n] + CRLF + more) == ChunkText(c) + more;
  }

  lemma ChunksCons(c: Chunk, chunks: seq<Chunk>)
    ensures ChunksText([c] + chunks) == ChunkText(c) + ChunksText(chunks)
    ensures ChunksData([c] + chunks) == c.data + ChunksData(chunks)
  {
    assert ([c] + chunks)[1..] == chunks;
  }

  /** Every input is as many whole chunks as fit, and a rest that is not one more. */
  lemma {:induction false} Outlined(s: bytes, room: nat) returns (chunks: seq<Chunk>, r: Rest)
    ensures Outline(s, chunks, r) && |ChunksData(chunks)| <= room && !GoesOn(r, room - |ChunksData(chunks)|)
    decreases |s|
  {
    hide ChunkText, RestText, GoesOn, Shaped, ValidChunk;
    r := FirstLine(s);
    chunks := [];
    assert [] + RestText(r) == RestText(r);
    if GoesOn(r, room) {
      var c, more := OneMoreChunk(r, room);
      ChunkNotEmpty(c);
      var rest;
      rest, r := Outlined(more, room - |c.data|);
      chunks := [c] + rest;
      ChunksCons(c, rest);
      assert ChunkText(c) + (ChunksText(rest) + RestText(r)) == ChunkText(c) + ChunksText(rest) + RestText(r);
    }
  }

  lemma ChunkNotEmpty(c: Chunk)
    ensures |ChunkText(c)| > 0
  {
  }

  /** Whole chunks that fit are drained. */
  lemma {:induction false} ChunksDrain(s: bytes, pos: nat, chunks: seq<Chunk>, out: bytes, cap: nat)
    requires AllValid(chunks) && At(s, pos, ChunksText(chunks)) && |out| + |ChunksData(chunks)| <= cap
    ensures Drain(START, s, pos, out, cap) ==
            Drain(START, s, pos + |ChunksText(chunks)|, out + ChunksData(chunks), cap)
    decreases |chunks|
  {
    hide Drain, ChunkText, ValidChunk, At;
    if chunks == [] {
      assert out + [] == out;
    } else {
      var c, rest := chunks[0], chunks[1..];
      AtSplit(s, pos, ChunkText(c), ChunksText(rest));
      ChunkDrains(s, pos, c, out, cap);
      ChunksDrain(s, pos + |ChunkText(c)|, rest, out + c.data, cap);
      assert out + (c.data + ChunksData(rest)) == out + c.data + ChunksData(rest);
    }
  }

  lemma OutlineTells(s: bytes, chunks: seq<Chunk>, r: Rest, cap: nat)
    requires Outline(s, chunks, r) && |ChunksData(chunks)| <= cap && !GoesOn(r, cap - |ChunksData(chunks)|)
    ensures Tells(Decode(s, cap).verdict, r, cap - |ChunksData(chunks)|)
  {
    hide Drain, Tells, GoesOn, Shaped, At, ChunksText, ChunksData, RestText;
    var text, data := ChunksText(chunks), ChunksData(chunks);
    Parts(s, text, RestText(r));
    assert [] + data == data;
    ChunksDrain(s, 0, chunks, [], cap);
    RestTells(s, |text|, r, data, cap);
  }

  /** An outline of the input whose data fit and whose rest is of the kind of `v`. */
  ghost predicate Shows(s: bytes, cap: nat, chunks: seq<Chunk>, r: Rest, v: Verdict) {
    Outline(s, chunks, r) && |ChunksData(chunks)| <= cap && Tells(v, r, cap - |ChunksData(chunks)|)
  }

  /**
   Every verdict, by the grammar. The decoder refuses a body, finds it too large, waits for
   more of it or completes it if and only if the body is whole chunks whose data fit, and then
   a rest that is broken, overfull, waiting or closing.
   */
  lemma VerdictExactly(s: bytes, cap: nat, v: Verdict)
    ensures Decode(s, cap).verdict == v <==> exists chunks, r :: Shows(s, cap, chunks, r, v)
  {
    hide Drain, Tells, GoesOn, Outline;
    var chunks, r := Outlined(s, cap);
    OutlineTells(s, chunks, r, cap);
    assert Shows(s, cap, chunks, r, Decode(s, cap).verdict);
    forall chunks', r' | Shows(s, cap, chunks', r', v) ensures Decode(s, cap).verdict == v {
      var room := cap - |ChunksData(chunks')|;
      OneKind(r', room, v, v);
      OutlineTells(s, chunks', r', cap);
      OneKind(r', room, v, Decode(s, cap).verdict);
    }
  }

  /** No extension of a refused body is a body. */
  lemma RejectedForGood(s: bytes, cap: nat, t: bytes, b: Body)
    requires Decode(s, cap).verdict == Rejected && ValidBody(b)
    ensures !(BodyText(b) <= s + t)
  {
    hide Drain, ValidBody, BodyText;
    VerdictStable(START, s, t, 0, [], cap);
    if BodyText(b) <= s + t {
      assert s + t == BodyText(b) + (s + t)[|BodyText(b)|..];
      DecodeBody(b, (s + t)[|BodyText(b)|..], cap);
    }
  }

  // ---------------------------------------------------------------- waiting in vain

  /** The digits of the size that has arrived: up to the ';', or to a CR at the end. */
  function SizeSoFar(r: Rest): bytes {
    match r
    case Ended(size, _, _) => size
    case Unended(line) =>
      var semi := FindByte(line, SEMICOLON, 0, |line|);
      if semi < |line| then line[..semi]
      else if line != [] && line[|line| - 1] == CR then line[..|line| - 1]
      else line
  }

  /** A rest that waits can become the rest of a body. */
  predicate Hopeful(r: Rest) {
    || r == Unended([])
    || (&& IsSize(SizeSoFar(r))
        && (r.Ended? && Announced(r) == 0 ==> r.after == [] || r.after[0] == CR))
  }

  /** What it has announced so far fits. */
  predicate Fits(r: Rest, room: nat)
    requires Hopeful(r)
  {
    r != Unended([]) ==> Denoted(SizeSoFar(r), 16) <= room
  }

  /** Chunks followed by the rest of a body. */
  function BodyOf(chunks: seq<Chunk>, last: Body): Body {
    if chunks == [] then last else ChunkThen(chunks[0], BodyOf(chunks[1..], last))
  }

  lemma {:induction false} BodyOfIs(chunks: seq<Chunk>, last: Body)
    requires AllValid(chunks) && ValidBody(last)
    ensures var b := BodyOf(chunks, last);
      && ValidBody(b) && BodyText(b) == ChunksText(chunks) + BodyText(last)
      && Payload(b) == ChunksData(chunks) + Payload(last)
  {
    hide ValidChunk, ChunkText;
    if chunks == [] {
      assert [] + BodyText(last) == BodyText(last) && [] + Payload(last) == Payload(last);
    } else {
      BodyOfIs(chunks[1..], last);
      var c, text, data := chunks[0], ChunksText(chunks[1..]), ChunksData(chunks[1..]);
      assert ChunkText(c) + (text + BodyText(last)) == ChunkText(c) + text + BodyText(last);
      assert c.data + (data + Payload(last)) == c.data + data + Payload(last);
    }
  }

  /** "0", and the last chunk made of it. */
  const ZERO: bytes := [48]

  lemma ZeroCloses()
    ensures ValidBody(LastChunk(ZERO, [])) && Payload(LastChunk(ZERO, [])) == []
    ensures BodyText(LastChunk(ZERO, [])) == ZERO + CRLF + CRLF
  {
    assert ZERO[..0] == [] && ZERO + [] == ZERO;
  }

  lemma ShapedLine(r: Rest)
    requires Shaped(r) && r.Ended? && IsSize(r.size)
    ensures ValidLine(r.size, r.ext, Announced(r))
  {
    forall j | 0 <= j < |r.ext| ensures !CrlfIn(r.ext, j, |r.ext|) {
      assert !CrlfIn(r.size + r.ext, |r.size| + j, |r.size + r.ext|);
    }
  }

  /** Data of which the first bytes, or all of them and a CR, have arrived. */
  lemma DataCompletes(after: bytes, n: nat) returns (data: bytes, t: bytes)
    requires |after| <= n + 1 && (|after| == n + 1 ==> after[n] == CR)
    ensures |data| == n && after + t == data + CRLF
  {
    var k := Min(n, |after|);
    var zeros := seq(n - k, _ => 0);
    data, t := after[..k] + zeros, zeros + CRLF[|after| - k..];
    assert |after| == n + 1 ==> after == after[..n] + [CR];
  }

  lemma ChunkCompletes(size: bytes, ext: bytes, after: bytes, n: nat) returns (t: bytes, b: Body)
    requires ValidLine(size, ext, n) && n > 0 && |after| <= n + 1 && (|after| == n + 1 ==> after[n] == CR)
    ensures ValidBody(b) && BodyText(b) == LineText(size, ext) + after + t && |Payload(b)| == n
  {
    hide ValidLine, LineText;
    var last, line := LastChunk(ZERO, []), LineText(size, ext);
    ZeroCloses();
    var data, t1 := DataCompletes(after, n);
    var c := Chunk(size, ext, data);
    b, t := ChunkThen(c, last), t1 + BodyText(last);
    assert data + [] == data;
    assert BodyText(b) == ChunkText(c) + BodyText(last);
    assert line + data + CRLF == line + (after + t1);
    assert line + (after + t1) + BodyText(last) == line + after + (t1 + BodyText(last));
  }

  lemma LastCompletes(size: bytes, ext: bytes, after: bytes) returns (t: bytes, b: Body)
    requires ValidLine(size, ext, 0) && (after == [] || after == [CR])
    ensures ValidBody(b) && BodyText(b) == LineText(size, ext) + after + t && Payload(b) == []
  {
    hide ValidLine, LineText;
    b, t := LastChunk(size, ext), CRLF[|after|..];
    assert after + t == CRLF;
    assert LineText(size, ext) + (after + t) == LineText(size, ext) + after + t;
  }

  /** The rest of a body whose line has ended: what is missing of it. */
  lemma EndedCompletes(r: Rest, room: nat) returns (t: bytes, b: Body)
    requires Shaped(r) && Waits(r, room) && Hopeful(r) && r.Ended?
    ensures ValidBody(b) && BodyText(b) == RestText(r) + t && |Payload(b)| == Announced(r)
  {
    ShapedLine(r);
    hide ValidLine, IsSize, ValidBody, BodyText, Payload, Denoted, Shaped;
    if Announced(r) == 0 {
      t, b := LastCompletes(r.size, r.ext, r.after);
    } else {
      t, b := ChunkCompletes(r.size, r.ext, r.after, Announced(r));
    }
  }

  /** What is missing of a line that can end. */
  lemma LineCompletes(line: bytes) returns (t: bytes, r: Rest)
    requires NoCrlf(line) && Hopeful(Unended(line)) && line != []
    ensures Shaped(r) && r.Ended? && r.after == [] && r.size == SizeSoFar(Unended(line)) && RestText(r) == line + t
  {
    var size := SizeSoFar(Unended(line));
    DigitBytes(size, 16);
    assert SEMICOLON !in size && CR !in size;
    var ext := if SEMICOLON in line then line[|size|..] else [];
    t := if SEMICOLON !in line && line[|line| - 1] == CR then [LF] else CRLF;
    r := Ended(size, ext, []);
    forall j | 0 <= j < |size + ext| ensures !CrlfIn(size + ext, j, |size + ext|) {
      assert !CrlfIn(line, j, |line|);
    }
    assert size + ext + CRLF + [] == line + t;
  }

  lemma RestCompletes(r: Rest, room: nat) returns (t: bytes, last: Body)
    requires Shaped(r) && Waits(r, room) && Hopeful(r)
    ensures ValidBody(last) && BodyText(last) == RestText(r) + t
    ensures |Payload(last)| == if r == Unended([]) then 0 else Denoted(SizeSoFar(r), 16)
  {
    hide ValidBody, BodyText, Payload, IsSize, Denoted;
    if r == Unended([]) {
      ZeroCloses();
      last, t := LastChunk(ZERO, []), ZERO + CRLF + CRLF;
      assert [] + t == t;
    } else if r.Unended? {
      var t1, ended := LineCompletes(r.line);
      var t2;
      hide SizeSoFar, Shaped;
      assert SizeSoFar(ended) == SizeSoFar(r);
      t2, last := EndedCompletes(ended, 0);
      t := t1 + t2;
      assert r.line + t1 + t2 == r.line + t;
    } else {
      t, last := EndedCompletes(r, room);
    }
  }

  /** The missing part of a hopeful input, and the body it makes. */
  lemma HopeCompletes(s: bytes, chunks: seq<Chunk>, r: Rest, room: nat) returns (t: bytes, b: Body)
    requires Outline(s, chunks, r) && Waits(r, room) && Hopeful(r)
    ensures ValidBody(b) && BodyText(b) == s + t
    ensures |Payload(b)| == |ChunksData(chunks)| + if r == Unended([]) then 0 else Denoted(SizeSoFar(r), 16)
  {
    hide ValidBody, BodyText, RestText, Payload, ChunksText, ChunksData, SizeSoFar, Denoted, IsSize, Shaped, Hopeful;
    hide Waits;
    var last;
    t, last := RestCompletes(r, room);
    BodyOfIs(chunks, last);
    b := BodyOf(chunks, last);
    assert ChunksText(chunks) + (RestText(r) + t) == s + t;
  }

  /** The line of a body of which `line` has arrived. */
  lemma LineSoFar(line: bytes, t: bytes, size: bytes, ext: bytes, n: nat)
    requires NoCrlf(line) && line != [] && ValidLine(size, ext, n) && LineText(size, ext) <= line + t
    ensures IsSize(SizeSoFar(Unended(line))) && Denoted(SizeSoFar(Unended(line)), 16) <= n
  {
    var text, all := LineText(size, ext), line + t;
    var k := |size| + |ext|;
    DigitBytes(size, 16);
    assert |line| <= k + 1 by {
      if |line| > k + 1 { assert line[k] == text[k] && line[k + 1] == text[k + 1] && CrlfIn(line, k, |line|); }
    }
    forall j | 0 <= j < |line| ensures line[j] == text[j] {
      assert all[j] == text[j];
    }
    assert line == text[..|line|];
    var so := SizeSoFar(Unended(line));
    assert so <= size by {
      if SEMICOLON in line {
        assert line[|size|] == text[|size|];
        FindByteUnique(line, SEMICOLON, 0, |line|, |size|);
      } else if |line| > |size| {
        assert line[|size|] == text[|size|];
      }
    }
    DenotedGrows(size, 16, |so|);
    assert so == size[..|so|];
    assert so != [];
  }

  /** After the last chunk of a body comes a CR. */
  lemma LastHasCr(s: bytes, b: Body, after: bytes)
    requires ValidBody(b) && FirstLen(b) == 0 && At(s, 0, BodyText(b)) && after != []
    requires LineText(FirstSize(b), FirstExt(b)) + after <= s
    ensures after[0] == CR
  {
    assert b.LastChunk?;
    hide LineText, ValidBody, At;
    var line := LineText(b.size, b.ext);
    AtSplit(s, 0, line, CRLF);
    AtByte(s, |line|, CRLF, 0);
    assert s[|line|] == (line + after)[|line|];
  }

  lemma RestBegins(r: Rest, t: bytes)
    requires r.Ended?
    ensures LineText(r.size, r.ext) + r.after <= RestText(r) + t && At(RestText(r) + t, 0, LineText(r.size, r.ext))
  {
    hide LineText;
    var s, line := RestText(r) + t, LineText(r.size, r.ext);
    assert s == line + (r.after + t);
  }

  lemma EndedWasHoped(r: Rest, t: bytes, b: Body, room: nat)
    requires Shaped(r) && Waits(r, room) && r.Ended? && ValidBody(b)
    requires At(RestText(r) + t, 0, BodyText(b))
    requires ValidLine(FirstSize(b), FirstExt(b), FirstLen(b))
    requires At(RestText(r) + t, 0, LineText(FirstSize(b), FirstExt(b)))
    ensures Hopeful(r) && FirstLen(b) == Announced(r)
  {
    ShapedLine(r);
    RestBegins(r, t);
    hide ValidLine, LineText, Denoted, AllDigits, Shaped, IsSize, BodyText, ValidBody, At, RestText;
    var s := RestText(r) + t;
    LineDetermined(s, 0, FirstSize(b), FirstExt(b), FirstLen(b), r.size, r.ext, Announced(r));
    if Announced(r) == 0 && r.after != [] { LastHasCr(s, b, r.after); }
  }

  lemma PayloadHoldsFirst(b: Body)
    ensures FirstLen(b) <= |Payload(b)|
  {
  }

  /** A rest that becomes a body with a payload of at most `room` bytes was hopeful. */
  lemma BodyWasHoped(r: Rest, t: bytes, b: Body, room: nat)
    requires Shaped(r) && Waits(r, room) && ValidBody(b) && BodyText(b) <= RestText(r) + t
    ensures Hopeful(r) && (|Payload(b)| <= room ==> Fits(r, room))
  {
    hide ValidLine, ValidBody, BodyText, LineText, Payload, Waits, Denoted, AllDigits, IsSize, Shaped;
    var s := RestText(r) + t;
    assert At(s, 0, BodyText(b));
    BodyLine(s, 0, b);
    PayloadHoldsFirst(b);
    assert LineText(FirstSize(b), FirstExt(b)) <= s;
    if r.Ended? {
      EndedWasHoped(r, t, b, room);
    } else if r.line != [] {
      UnendedShaped(r);
      LineSoFar(r.line, t, FirstSize(b), FirstExt(b), FirstLen(b));
    }
  }

  lemma UnendedShaped(r: Rest)
    requires Shaped(r) && r.Unended?
    ensures NoCrlf(r.line)
  {
  }

  /** A waiting rest and what follows it, in an input that begins with a body. */
  lemma RestIsBody(s: bytes, chunks: seq<Chunk>, r: Rest, t: bytes, cap: nat) returns (b: Body)
    requires Outline(s, chunks, r) && |ChunksData(chunks)| <= cap && Decode(s + t, cap).verdict == Complete
    ensures ValidBody(b) && BodyText(b) <= RestText(r) + t && |ChunksData(chunks)| + |Payload(b)| <= cap
  {
    hide Drain, Shaped, ValidBody, BodyText, At, ChunksText, ChunksData, RestText;
    var text, data := ChunksText(chunks), ChunksData(chunks);
    assert s + t == text + (RestText(r) + t);
    Parts(s + t, text, RestText(r) + t);
    assert [] + data == data;
    ChunksDrain(s + t, 0, chunks, [], cap);
    b := CompleteIsBody(s + t, |text|, data, cap);
    PartBehind(s + t, text, RestText(r) + t, BodyText(b));
  }

  lemma Parts(s: bytes, first: bytes, rest: bytes)
    requires s == first + rest
    ensures At(s, 0, first) && s[|first|..] == rest
  {
  }

  lemma PartBehind(s: bytes, first: bytes, rest: bytes, text: bytes)
    requires s == first + rest && At(s, |first|, text)
    ensures text <= rest
  {
    assert text == s[|first|..][..|text|];
  }

  /** More of the input makes it a body. */
  ghost predicate CanBecomeBody(s: bytes) { exists t, b :: ValidBody(b) && BodyText(b) <= s + t }

  /** More of the input completes it. */
  ghost predicate CanComplete(s: bytes, cap: nat) { exists t :: Decode(s + t, cap).verdict == Complete }

  /**
   When the server waits for a body, it can still become one if and only if the rest is hopeful,
   and can be completed if and only if what the rest announces fits as well.
   */
  lemma HopeExactly(s: bytes, cap: nat, chunks: seq<Chunk>, r: Rest)
    requires Shows(s, cap, chunks, r, More)
    ensures CanBecomeBody(s) <==> Hopeful(r)
    ensures CanComplete(s, cap) <==> Hopeful(r) && Fits(r, cap - |ChunksData(chunks)|)
  {
    hide Drain, Shaped, ValidBody, BodyText, Payload, SizeSoFar, ChunksData, ChunksText;
    var room := cap - |ChunksData(chunks)|;
    if Hopeful(r) {
      var t, b := HopeCompletes(s, chunks, r, room);
      assert BodyText(b) <= s + t;
      assert BodyText(b) + [] == s + t;
      DecodeBody(b, [], cap);
    }
    forall t, b | ValidBody(b) && BodyText(b) <= s + t ensures Hopeful(r) {
      BodyNeeds(s, chunks, r, t, b, room);
    }
    forall t | Decode(s + t, cap).verdict == Complete ensures Hopeful(r) && Fits(r, room) {
      var b := RestIsBody(s, chunks, r, t, cap);
      BodyWasHoped(r, t, b, room);
    }
  }

  lemma BodyNeeds(s: bytes, chunks: seq<Chunk>, r: Rest, t: bytes, b: Body, room: nat)
    requires Outline(s, chunks, r) && Waits(r, room) && ValidBody(b) && BodyText(b) <= s + t
    ensures Hopeful(r)
  {
    hide Drain, Shaped, ValidBody, BodyText, Payload;
    var big := |Payload(b)| + |ChunksData(chunks)|;
    assert s + t == BodyText(b) + (s + t)[|BodyText(b)|..];
    DecodeBody(b, (s + t)[|BodyText(b)|..], big);
    var rest := RestIsBody(s, chunks, r, t, big);
    BodyWasHoped(r, t, rest, room);
  }

  /** "x": no size begins with it, and the server waits for more. */
  lemma WaitsInVain(cap: nat)
    ensures Decode([120], cap).verdict == More && !CanBecomeBody([120])
  {
    var r := Unended([120]);
    XWaits(cap);
    assert !Hopeful(r);
    hide *;
    VerdictExactly([120], cap, More);
    HopeExactly([120], cap, [], r);
  }

  lemma XWaits(cap: nat)
    ensures Shows([120], cap, [], Unended([120]), More)
  {
    assert [] + RestText(Unended([120])) == [120];
  }

  /** "0" CRLF and a trailer field: refused as soon as its first two bytes are there. */
  lemma TrailerFieldRefused(a: byte, b: byte, rest: bytes, cap: nat)
    requires [a, b] != CRLF
    ensures Decode(ZERO + CRLF + [a, b] + rest, cap).verdict == Rejected
  {
    ZeroCloses();
    var r := Ended(ZERO, [], [a, b] + rest);
    var s := ZERO + CRLF + [a, b] + rest;
    assert ZERO + [] == ZERO && r.after[..2] == [a, b];
    assert [] + RestText(r) == s;
    assert Shows(s, cap, [], r, Rejected);
    VerdictExactly(s, cap, Rejected);
  }
}
