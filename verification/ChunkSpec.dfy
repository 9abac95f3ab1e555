/**
 The incremental chunked-body decoder (`chunk_advance`, src/HttpBody.c) as a function, the loop
 that drains buffered bytes through it, and its independence of how they are cut.
 */
module ChunkSpec {
  import opened Bytes
  import opened Config
  import opened Numbers

  datatype ChunkPhase = ChunkSize | ChunkData | ChunkTrailCr | ChunkTrailLf | ChunkTrailer | ChunkDone

  /** Decoder state kept across wake-ups (ChunkDecoder). */
  datatype Decoder = Decoder(phase: ChunkPhase, remaining: nat) {
    predicate Valid() {
      phase == ChunkData ==> remaining > 0
    }
  }

  const START: Decoder := Decoder(ChunkSize, 0)

  /** One step: the new state, its status, the new cursor and the decoded bytes it produced. */
  datatype Advanced = Advanced(dec: Decoder, status: ParseStatus, next: nat, out: bytes)

  /** The chunk-size line at `pos`: the number it gives and the position after its CRLF. */
  function SizeLine(s: bytes, pos: nat): (r: Parsed<(nat, nat)>)
    requires pos <= |s|
    ensures r.Success? ==> pos < r.value.1 <= |s|
    ensures r.Failure? ==> r.status in {Incomplete, BadRequest, PayloadTooLarge}
  {
    var crlf := FindCrlf(s, pos, |s|);
    if crlf == |s| then Failure(Incomplete)
    else
      var sizeEnd := FindByte(s, SEMICOLON, pos, crlf);
      if sizeEnd == pos then Failure(BadRequest)
      else
        UintParseExact(s[pos..sizeEnd], 16, MAX_BODY_LEN);
        match UintParse(s[pos..sizeEnd], 16, MAX_BODY_LEN)
        case Failure(status) => Failure(status)
        case Success(len) => Success((len, crlf + 2))
  }

  function Min(a: nat, b: nat): nat { if a < b then a else b }

  /** chunk_advance on the bytes of `s` from `pos` on, with room for `avail` decoded bytes. */
  function Advance(d: Decoder, s: bytes, pos: nat, avail: nat): (a: Advanced)
    requires d.Valid() && pos <= |s|
    ensures a.dec.Valid() && pos <= a.next <= |s| && |a.out| <= avail
    ensures a.status == ParseOk && a.dec.phase != ChunkDone ==> pos < a.next
    ensures a.status !in {ParseOk, Incomplete} ==> a == Advanced(d, a.status, pos, [])
    ensures a.status == Incomplete && d.phase != ChunkData ==> a == Advanced(d, Incomplete, pos, [])
  {
    match d.phase
    case ChunkSize =>
      (match SizeLine(s, pos)
       case Failure(status) => Advanced(d, status, pos, [])
       case Success((len, next)) =>
         if len == 0 then Advanced(d.(phase := ChunkTrailer), ParseOk, next, [])
         else Advanced(Decoder(ChunkData, len), ParseOk, next, []))
    case ChunkData =>
      var take := Min(d.remaining, |s| - pos);
      if take > avail then Advanced(d, PayloadTooLarge, pos, [])
      else if take == d.remaining then Advanced(Decoder(ChunkTrailCr, 0), ParseOk, pos + take, s[pos..pos + take])
      else Advanced(Decoder(ChunkData, d.remaining - take), Incomplete, pos + take, s[pos..pos + take])
    case ChunkTrailCr =>
      if pos == |s| then Advanced(d, Incomplete, pos, [])
      else if s[pos] != CR then Advanced(d, BadRequest, pos, [])
      else Advanced(d.(phase := ChunkTrailLf), ParseOk, pos + 1, [])
    case ChunkTrailLf =>
      if pos == |s| then Advanced(d, Incomplete, pos, [])
      else if s[pos] != LF then Advanced(d, BadRequest, pos, [])
      else Advanced(d.(phase := ChunkSize), ParseOk, pos + 1, [])
    case ChunkTrailer =>
      if |s| - pos < 2 then Advanced(d, Incomplete, pos, [])
      else if s[pos] != CR || s[pos + 1] != LF then Advanced(d, BadRequest, pos, [])
      else Advanced(d.(phase := ChunkDone), ParseOk, pos + 2, [])
    case ChunkDone =>
      Advanced(d, ParseOk, pos, [])
  }

  // ---------------------------------------------------------------- draining a buffer

  datatype Verdict = More | Complete | Rejected | TooLarge

  /** A body read so far: decoder state, verdict, cursor into the raw bytes, decoded bytes. */
  datatype Drained = Drained(dec: Decoder, verdict: Verdict, pos: nat, out: bytes)

  /** The verdict after one step, before asking whether the loop goes on. */
  function StepVerdict(a: Advanced): Verdict {
    if a.status == PayloadTooLarge then TooLarge
    else if a.status !in {ParseOk, Incomplete} then Rejected
    else if a.dec.phase == ChunkDone then Complete
    else More
  }

  /**
   The inner loop of conn_recv_body_chunked: from cursor `pos`, with `out` already decoded
   and `cap` bytes of output in all, advance until done, rejected or out of input.
   */
  function Drain(d: Decoder, s: bytes, pos: nat, out: bytes, cap: nat): (r: Drained)
    requires d.Valid() && pos <= |s| && |out| <= cap
    ensures r.dec.Valid() && pos <= r.pos <= |s| && |r.out| <= cap
    ensures r.verdict == Complete <==> r.dec.phase == ChunkDone
    decreases |s| - pos
  {
    var a := Advance(d, s, pos, cap - |out|);
    if StepVerdict(a) == More && a.status == ParseOk then Drain(a.dec, s, a.next, out + a.out, cap)
    else Drained(a.dec, StepVerdict(a), a.next, out + a.out)
  }

  /** Draining a whole body from its first byte. */
  function Decode(s: bytes, cap: nat): Drained {
    Drain(START, s, 0, [], cap)
  }

  /**
   Two outcomes a peer cannot tell apart. A chunk that overflows the output is refused as a
   whole or after some of its bytes, depending on how it arrives; everything else is equal.
   */
  predicate SameOutcome(a: Drained, b: Drained) {
    a.verdict == b.verdict && (a.verdict != TooLarge ==> a == b)
  }

  lemma FindExtend(s: bytes, t: bytes, pos: nat)
    requires pos <= |s| && FindCrlf(s, pos, |s|) < |s|
    ensures FindCrlf(s + t, pos, |s + t|) == FindCrlf(s, pos, |s|)
    ensures var p := FindCrlf(s, pos, |s|);
      FindByte(s + t, SEMICOLON, pos, p) == FindByte(s, SEMICOLON, pos, p)
  {
    var p := FindCrlf(s, pos, |s|);
    forall j | pos <= j < p ensures !CrlfIn(s + t, j, |s + t|) {
      assert !CrlfIn(s, j, |s|);
    }
    FindCrlfUnique(s + t, pos, |s + t|, p);
    FindByteUnique(s + t, SEMICOLON, pos, p, FindByte(s, SEMICOLON, pos, p));
  }

  lemma SizeLineExtend(s: bytes, t: bytes, pos: nat)
    requires pos <= |s| && SizeLine(s, pos) != Failure(Incomplete)
    ensures SizeLine(s + t, pos) == SizeLine(s, pos)
  {
    FindExtend(s, t, pos);
    var sizeEnd := FindByte(s, SEMICOLON, pos, FindCrlf(s, pos, |s|));
    assert (s + t)[pos..sizeEnd] == s[pos..sizeEnd];
  }

  /** A step that does not ask for input is unaffected by further input. */
  lemma AdvanceExtend(d: Decoder, s: bytes, t: bytes, pos: nat, avail: nat)
    requires d.Valid() && pos <= |s| && Advance(d, s, pos, avail).status != Incomplete
    ensures Advance(d, s + t, pos, avail) == Advance(d, s, pos, avail)
  {
    match d.phase
    case ChunkSize => SizeLineExtend(s, t, pos);
    case ChunkData =>
      var take := Min(d.remaining, |s| - pos);
      assert (s + t)[pos..pos + take] == s[pos..pos + take];
    case _ =>
  }

  /** Once bytes have a verdict, every extension of them has the same one and the same result. */
  lemma {:induction false} VerdictStable(d: Decoder, s: bytes, t: bytes, pos: nat, out: bytes, cap: nat)
    requires d.Valid() && pos <= |s| && |out| <= cap
    requires Drain(d, s, pos, out, cap).verdict != More
    ensures Drain(d, s + t, pos, out, cap) == Drain(d, s, pos, out, cap)
    decreases |s| - pos
  {
    var a := Advance(d, s, pos, cap - |out|);
    AdvanceExtend(d, s, t, pos, cap - |out|);
    if StepVerdict(a) == More {
      VerdictStable(a.dec, s, t, a.next, out + a.out, cap);
    }
  }

  /**
   Bytes that leave the decoder waiting: draining them together with further input `t` ends
   as draining the longer buffer from where the decoder stopped.
   */
  lemma {:induction false} DrainResumes(d: Decoder, s: bytes, t: bytes, pos: nat, out: bytes, cap: nat)
    requires d.Valid() && pos <= |s| && |out| <= cap
    requires Drain(d, s, pos, out, cap).verdict == More
    ensures var r := Drain(d, s, pos, out, cap);
      SameOutcome(Drain(d, s + t, pos, out, cap), Drain(r.dec, s + t, r.pos, r.out, cap))
    decreases |s| - pos
  {
    var a := Advance(d, s, pos, cap - |out|);
    if a.status == ParseOk {
      AdvanceExtend(d, s, t, pos, cap - |out|);
      DrainResumes(a.dec, s, t, a.next, out + a.out, cap);
    } else {
      WaitResumes(d, s, t, pos, out, cap);
    }
  }

  /** The last step before the cut asks for input. */
  lemma WaitResumes(d: Decoder, s: bytes, t: bytes, pos: nat, out: bytes, cap: nat)
    requires d.Valid() && pos <= |s| && |out| <= cap
    requires Advance(d, s, pos, cap - |out|).status == Incomplete
    ensures var a := Advance(d, s, pos, cap - |out|);
      SameOutcome(Drain(d, s + t, pos, out, cap), Drain(a.dec, s + t, a.next, out + a.out, cap))
  {
    if d.phase == ChunkData {
      DataResumes(d, s, t, pos, out, cap);
      assert s[pos..|s|] == s[pos..];
    } else {
      assert out + [] == out;
    }
  }

  /** The cut falls inside a data chunk. */
  lemma DataResumes(d: Decoder, s: bytes, t: bytes, pos: nat, out: bytes, cap: nat)
    requires d.Valid() && d.phase == ChunkData && pos <= |s| && |out| <= cap
    requires |s| - pos < d.remaining && |out| + |s| - pos <= cap
    ensures SameOutcome(Drain(d, s + t, pos, out, cap),
                        Drain(Decoder(ChunkData, d.remaining - (|s| - pos)), s + t, |s|, out + s[pos..], cap))
  {
    var had := |s| - pos;
    var take := Min(d.remaining - had, |t|);
    if had + take <= cap - |out| {
      assert (s + t)[pos..|s| + take] == s[pos..] + (s + t)[|s|..|s| + take];
      assert out + (s + t)[pos..|s| + take] == (out + s[pos..]) + (s + t)[|s|..|s| + take];
    }
  }

  // ---------------------------------------------------------------- pieces off the wire

  /** The bytes received so far and what draining after each arrival has made of them. */
  datatype Feed = Feed(result: Drained, buffer: bytes)

  predicate FeedValid(f: Feed, cap: nat) {
    f.result.dec.Valid() && f.result.pos <= |f.buffer| && |f.result.out| <= cap
  }

  /** One more piece arrives, unless the verdict is already in. */
  function FeedOne(f: Feed, piece: bytes, cap: nat): (g: Feed)
    requires FeedValid(f, cap)
    ensures FeedValid(g, cap)
  {
    var buffer := f.buffer + piece;
    if f.result.verdict != More then Feed(f.result, buffer)
    else Feed(Drain(f.result.dec, buffer, f.result.pos, f.result.out, cap), buffer)
  }

  function FeedAll(pieces: seq<bytes>, cap: nat): (f: Feed)
    ensures FeedValid(f, cap)
  {
    if pieces == [] then Feed(Drained(START, More, 0, []), [])
    else FeedOne(FeedAll(pieces[..|pieces| - 1], cap), pieces[|pieces| - 1], cap)
  }

  lemma ConcatLast(pieces: seq<bytes>)
    requires pieces != []
    ensures Concat(pieces) == Concat(pieces[..|pieces| - 1]) + pieces[|pieces| - 1]
  {
    var last := pieces[|pieces| - 1];
    assert pieces == pieces[..|pieces| - 1] + [last];
    ConcatAppend(pieces[..|pieces| - 1], [last]);
    assert Concat([last]) == last + Concat([]);
  }

  lemma DecodeEmpty(cap: nat)
    ensures Decode([], cap) == Drained(START, More, 0, [])
  {
    assert FindCrlf([], 0, 0) == 0;
  }

  /**
   Split invariance. However a body is cut into pieces, feeding them gives the verdict of
   the whole, and unless that is "too large", the same decoded bytes, the same consumed
   count and the same decoder state.
   */
  lemma {:induction false} SplitInvariance(pieces: seq<bytes>, cap: nat)
    ensures var f := FeedAll(pieces, cap);
      f.buffer == Concat(pieces) && SameOutcome(f.result, Decode(Concat(pieces), cap))
  {
    if pieces == [] {
      DecodeEmpty(cap);
    } else {
      var init, last := pieces[..|pieces| - 1], pieces[|pieces| - 1];
      SplitInvariance(init, cap);
      ConcatLast(pieces);
      if Decode(Concat(init), cap).verdict == More {
        DrainResumes(START, Concat(init), last, 0, [], cap);
      } else {
        VerdictStable(START, Concat(init), last, 0, [], cap);
      }
    }
  }
}
