/** `chunk_advance` in its own form: a decoder updated in place that copies into an output buffer. */
module ChunkDecoders {
  import opened Bytes
  import opened Config
  import opened Numbers
  import opened Buffers
  import opened ChunkSpec

  class ChunkDecoder {
    var phase: ChunkPhase
    var remaining: nat

    constructor ()
      ensures State() == START
    {
      phase, remaining := ChunkSize, 0;
    }

    ghost function State(): Decoder
      reads this
    {
      Decoder(phase, remaining)
    }

    /** A zeroed decoder, as each chunked body starts with. */
    method Reset()
      modifies this
      ensures State() == START
    {
      phase, remaining := ChunkSize, 0;
    }

    /**
     chunk_advance: decode from `input[base + pos..end]`, writing at `out[outAt..]`. `base` is
     where the body starts; the cursor is relative to it.
     */
    method AdvanceChunk(input: array<byte>, base: nat, pos: nat, end: nat, out: array<byte>, outAt: nat)
      returns (status: ParseStatus, next: nat, written: nat)
      requires base + pos <= end <= input.Length && outAt <= out.Length && input != out
      requires State().Valid()
      modifies this, out
      ensures var a := Advance(old(State()), input[base..end], pos, out.Length - outAt);
        && State() == a.dec && status == a.status && next == a.next && written == |a.out|
        && out[..] == Splice(old(out[..]), outAt, a.out)
    {
      var s := input[base..end];
      next, written := pos, 0;
      match phase
      case ChunkSize =>
        status, next := AdvanceSizeLine(s, pos);
        assert out[..] == Splice(old(out[..]), outAt, []);
      case ChunkData =>
        status, next, written := CopyData(s, pos, out, outAt);
      case ChunkTrailCr =>
        if pos == |s| { status := Incomplete; }
        else if s[pos] != CR { status := BadRequest; }
        else { phase := ChunkTrailLf; status, next := ParseOk, pos + 1; }
        assert out[..] == Splice(old(out[..]), outAt, []);
      case ChunkTrailLf =>
        if pos == |s| { status := Incomplete; }
        else if s[pos] != LF { status := BadRequest; }
        else { phase := ChunkSize; status, next := ParseOk, pos + 1; }
        assert out[..] == Splice(old(out[..]), outAt, []);
      case ChunkTrailer =>
        if |s| - pos < 2 { status := Incomplete; }
        else if s[pos] != CR || s[pos + 1] != LF { status := BadRequest; }
        else { phase := ChunkDone; status, next := ParseOk, pos + 2; }
        assert out[..] == Splice(old(out[..]), outAt, []);
      case ChunkDone =>
        status := ParseOk;
        assert out[..] == Splice(old(out[..]), outAt, []);
    }

    method AdvanceSizeLine(s: bytes, pos: nat) returns (status: ParseStatus, next: nat)
      requires phase == ChunkSize && pos <= |s|
      modifies this
      ensures var a := Advance(old(State()), s, pos, 0);
        State() == a.dec && status == a.status && next == a.next
    {
      var crlf := CrlfFind(s, pos, |s|);
      if crlf == |s| { return Incomplete, pos; }
      var sizeEnd := ByteFind(s, SEMICOLON, pos, crlf);
      if sizeEnd == pos { return BadRequest, pos; }
      var len := ParseUint(s[pos..sizeEnd], 16, MAX_BODY_LEN);
      if len.Failure? { return len.status, pos; }
      if len.value == 0 {
        phase := ChunkTrailer;
      } else {
        remaining := len.value;
        phase := ChunkData;
      }
      return ParseOk, crlf + 2;
    }

    method CopyData(s: bytes, pos: nat, out: array<byte>, outAt: nat)
      returns (status: ParseStatus, next: nat, written: nat)
      requires phase == ChunkData && State().Valid() && pos <= |s| && outAt <= out.Length
      modifies this, out
      ensures var a := Advance(old(State()), s, pos, out.Length - outAt);
        && State() == a.dec && status == a.status && next == a.next && written == |a.out|
        && out[..] == Splice(old(out[..]), outAt, a.out)
    {
      var take := if remaining < |s| - pos then remaining else |s| - pos;
      if take > out.Length - outAt {
        assert out[..] == Splice(old(out[..]), outAt, []);
        return PayloadTooLarge, pos, 0;
      }
      Memcpy(out, outAt, s[pos..pos + take]);
      remaining := remaining - take;
      if remaining == 0 {
        phase := ChunkTrailCr;
        return ParseOk, pos + take, take;
      }
      return Incomplete, pos + take, take;
    }
  }
}
