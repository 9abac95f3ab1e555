/**
 The chunked-body encoder (`chunk_frame`, `chunk_frame_last`, src/HttpResponse.c) and its
 inverse relation to the decoder.
 */
module ChunkFrame {
  import opened Bytes
  import opened Config
  import opened Numbers
  import opened Buffers
  import opened ChunkSpec
  import opened ChunkGrammar

  /** A payload with its hex size line and closing CRLF. */
  function Frame(payload: bytes): bytes {
    Digits(|payload|, 16) + CRLF + payload + CRLF
  }

  /** "0\r\n\r\n" */
  const LAST_FRAME: bytes := [48, CR, LF, CR, LF]

  function Frames(payloads: seq<bytes>): bytes {
    if payloads == [] then [] else Frame(payloads[0]) + Frames(payloads[1..])
  }

  lemma {:induction false} FramesAppend(a: seq<bytes>, b: seq<bytes>)
    ensures Frames(a + b) == Frames(a) + Frames(b)
  {
    if a == [] {
      assert a + b == b;
    } else {
      assert (a + b)[1..] == a[1..] + b;
      FramesAppend(a[1..], b);
    }
  }

  lemma FramesSnoc(a: seq<bytes>, p: bytes)
    ensures Frames(a + [p]) == Frames(a) + Frame(p)
  {
    FramesAppend(a, [p]);
    assert Frames([p]) == Frame(p) + Frames([]);
  }

  /** chunk_frame: the framed payload in `out`, or -1 when it does not fit. */
  method WriteFrame(payload: bytes, out: array<byte>) returns (r: int)
    modifies out
    ensures r == if |Frame(payload)| <= out.Length then |Frame(payload)| else -1
    ensures r >= 0 ==> out[..r] == Frame(payload)
  {
    var head := Digits(|payload|, 16) + CRLF;
    var n := Snprintf(out, 0, out.Length, head);
    if n >= out.Length { return -1; }
    if n + |payload| + 2 > out.Length { return -1; }
    assert out[..n] == head;
    Memcpy(out, n, payload);
    assert out[..n + |payload|] == head + payload;
    Memcpy(out, n + |payload|, CRLF);
    return n + |payload| + 2;
  }

  /** chunk_frame_last. */
  method WriteLastFrame(out: array<byte>) returns (r: int)
    modifies out
    ensures r == if out.Length >= 5 then 5 else -1
    ensures r >= 0 ==> out[..r] == LAST_FRAME
  {
    if out.Length < 5 { return -1; }
    Memcpy(out, 0, LAST_FRAME);
    return 5;
  }

  // ---------------------------------------------------------------- encode, then decode

  /** Payloads a decoder can take back: non-empty and within the size bound of one chunk. */
  predicate Sendable(payloads: seq<bytes>) {
    forall i :: 0 <= i < |payloads| ==> 0 < |payloads[i]| <= MAX_BODY_LEN
  }

  /** The body of the grammar that framing `payloads` writes. */
  function FramesBody(payloads: seq<bytes>): Body {
    if payloads == [] then LastChunk([48], [])
    else ChunkThen(Chunk(Digits(|payloads[0]|, 16), [], payloads[0]), FramesBody(payloads[1..]))
  }

  lemma {:induction false} FramesText(payloads: seq<bytes>)
    requires Sendable(payloads)
    ensures var b := FramesBody(payloads);
      ValidBody(b) && BodyText(b) == Frames(payloads) + LAST_FRAME && Payload(b) == Concat(payloads)
  {
    if payloads == [] {
      assert Digits(0, 16) == [48];
      DigitsDenote(0, 16);
      assert LineText([48], []) + CRLF == LAST_FRAME;
    } else {
      var p := payloads[0];
      DigitsDenote(|p|, 16);
      FramesText(payloads[1..]);
      assert ChunkText(Chunk(Digits(|p|, 16), [], p)) == Frame(p);
    }
  }

  /**
   Encoding is inverted by decoding: framed payloads, the last frame and then any bytes at
   all decode to exactly the concatenated payloads, consuming the frames and none of what
   follows; if the payloads together exceed the output, the verdict is "too large".
   */
  lemma FramesDecode(payloads: seq<bytes>, rest: bytes, cap: nat)
    requires Sendable(payloads)
    ensures var framed := Frames(payloads) + LAST_FRAME;
      var r := Decode(framed + rest, cap);
      if |Concat(payloads)| <= cap
      then r == Drained(Decoder(ChunkDone, 0), Complete, |framed|, Concat(payloads))
      else r.verdict == TooLarge
  {
    FramesText(payloads);
    DecodeBody(FramesBody(payloads), rest, cap);
  }
}
