/** Byte buffers (HttpBuffer) and the library writers that fill them. */
module Buffers {
  import opened Bytes

  /** `s` with `t` written over it from `off` on. */
  function Splice(s: bytes, off: nat, t: bytes): (r: bytes)
    requires off + |t| <= |s|
    ensures |r| == |s| && r[..off] == s[..off] && r[off..off + |t|] == t && r[..off + |t|] == s[..off] + t
  {
    s[..off] + t + s[off + |t|..]
  }

  /** memcpy of `src` to `buf + off`. */
  method Memcpy(buf: array<byte>, off: nat, src: bytes)
    requires off + |src| <= buf.Length
    modifies buf
    ensures buf[..] == Splice(old(buf[..]), off, src)
  {
    for i := 0 to |src|
      invariant buf[..] == Splice(old(buf[..]), off, src[..i])
    {
      buf[off + i] := src[i];
      assert src[..i + 1] == src[..i] + [src[i]];
    }
    assert src[..|src|] == src;
  }

  /** What snprintf leaves in a buffer of `size` bytes: cut short if need be, NUL-terminated. */
  function Printed(text: bytes, size: nat): (p: bytes)
    ensures |p| <= size
    ensures |text| < size ==> p == text + [0]
  {
    if size == 0 then [] else if |text| < size then text + [0] else text[..size - 1] + [0]
  }

  /** snprintf to `buf + off` with `size` bytes of room: returns the full length of the text. */
  method Snprintf(buf: array<byte>, off: nat, size: nat, text: bytes) returns (written: nat)
    requires off + size <= buf.Length
    modifies buf
    ensures written == |text|
    ensures buf[..] == Splice(old(buf[..]), off, Printed(text, size))
  {
    Memcpy(buf, off, Printed(text, size));
    return |text|;
  }

  /** An owning buffer: storage of fixed capacity, of which the first `size` bytes are live. */
  class HttpBuffer {
    const data: array<byte>
    var size: nat

    ghost predicate Valid()
      reads this
    {
      size <= data.Length
    }

    ghost function Live(): bytes
      reads this, data
      requires Valid()
    {
      data[..size]
    }

    constructor (cap: nat)
      ensures Valid() && size == 0 && data.Length == cap && fresh(data)
    {
      data := new byte[cap];
      size := 0;
    }

    /** Bytes arrive behind the live ones, as recv delivers them. */
    method Append(piece: bytes)
      requires Valid() && size + |piece| <= data.Length
      modifies `size, data
      ensures Valid() && size == old(size) + |piece|
      ensures Live() == old(Live()) + piece
    {
      Memcpy(data, size, piece);
      size := size + |piece|;
    }
  }
}
