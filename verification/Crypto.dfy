/**
 The cryptographic primitives as parameters: digests of fixed length and an RC4 keystream that is a
 function of key and position. Nothing else is known about them.
 */
module Crypto {
  import opened Prelude
  import opened Bits

  datatype Primitives = Primitives(
    md4: bytes -> bytes,
    md5: bytes -> bytes,
    hmac: (bytes, bytes) -> bytes,
    sha256: bytes -> bytes,
    keystream: (bytes, nat) -> byte,
    upper: bytes -> bytes)
  {
    /** Digest lengths. */
    ghost predicate Valid() {
      && (forall d :: |md4(d)| == 16)
      && (forall d :: |md5(d)| == 16)
      && (forall k, d :: |hmac(k, d)| == 16)
      && (forall d :: |sha256(d)| == 32)
    }
  }

  function Ascii(s: string): (r: bytes)
    ensures |r| == |s|
  {
    seq(|s|, i requires 0 <= i < |s| => s[i] as int % 0x100)
  }

  function Keystream(c: Primitives, key: bytes, pos: nat, n: nat): (r: bytes)
    ensures |r| == n
  {
    seq<byte>(n, i requires 0 <= i < n => c.keystream(key, pos + i))
  }

  /** RC4 from keystream position `pos`: encryption and decryption alike. */
  function Rc4At(c: Primitives, key: bytes, pos: nat, data: bytes): (r: bytes)
    ensures |r| == |data|
  {
    XorBytes(data, Keystream(c, key, pos, |data|))
  }

  lemma XorByteCancels(a: byte, b: byte)
    ensures XorByte(XorByte(a, b), b) == a
  {
    XorCancel(a, b);
  }

  /** RC4 at the same position twice is the identity. */
  lemma Rc4Involution(c: Primitives, key: bytes, pos: nat, data: bytes)
    ensures Rc4At(c, key, pos, Rc4At(c, key, pos, data)) == data
  {
    hide XorByte;
    forall i | 0 <= i < |data|
      ensures Rc4At(c, key, pos, Rc4At(c, key, pos, data))[i] == data[i]
    {
      XorByteCancels(data[i], c.keystream(key, pos + i));
    }
  }

  /** An RC4 handle: its keystream position persists across calls. */
  class Rc4 {
    const c: Primitives
    const key: bytes
    var pos: nat

    constructor (c: Primitives, key: bytes)
      ensures this.c == c && this.key == key && pos == 0
    {
      this.c, this.key, pos := c, key, 0;
    }

    /** XOR the next keystream bytes into the buffer. */
    method ApplyKeystream(buf: array<byte>)
      modifies this, buf
      ensures buf[..] == Rc4At(c, key, old(pos), old(buf[..]))
      ensures pos == old(pos) + buf.Length
    {
      hide XorByte;
      for i := 0 to buf.Length
        invariant pos == old(pos) + i
        invariant buf[..i] == Rc4At(c, key, old(pos), old(buf[..]))[..i]
        invariant buf[i..] == old(buf[i..])
      {
        ghost var done := buf[..i];
        ghost var rest := buf[i..];
        assert buf[i] == rest[0] == old(buf[..])[i];
        buf[i] := XorByte(buf[i], c.keystream(key, pos));
        pos := pos + 1;
        assert buf[..i + 1] == done + [buf[i]];
        assert buf[i + 1..] == rest[1..];
        assert old(buf[i..])[1..] == old(buf[i + 1..]);
      }
    }
  }
}
