/** Bytes, fixed-width integers on the wire, and the crate's result type. */
module Prelude {

  type byte = x: int | 0 <= x < 0x100
  type u16 = x: int | 0 <= x < 0x1_0000
  type u32 = x: int | 0 <= x < 0x1_0000_0000
  type bytes = seq<byte>

  /** `Error::Protocol` carries a message in the source; here each message is a constructor. */
  datatype Violation =
    | UnsupportedRleBpp | UnknownRleOrder
    | PlanarOverranScanline | PlanarRunOverranScanline
    | UnsupportedBitmapBpp
    | NotFastPath | UnexpectedSecurityFlags
    | BadGfxLength | UnknownSurface | ExternalCodec | UnsupportedCodec
    | BadDerLength | UnexpectedDerTag
    | BadNtlmSignature | UnexpectedNtlmType | SignatureMismatch
    | NoChallengeToken | NoPubKeyAuth | NoSecurityContext | BindingHashMismatch
    | TpktTooLong | BadTpktVersion | TpktShorterThanHeader
    | NotDataTpdu | FragmentedPerLength
    | NotAttachConfirm | MissingInitiator | NotJoinConfirm | NotSendDataIndication
    | BadShareControlLength | ChunkWithoutFirst
    | NoDemandActive | BadCapabilityLength

  datatype Refusal = CredSspErrorCode | AttachUserRefused | ChannelJoinRefused

  /** The crate's error type. `Panic` marks inputs on which the Rust code stops instead of returning. */
  datatype Error =
    | Short(need: nat, have: nat)
    | Protocol(what: Violation)
    | NegotiationFailure(why: Refusal)
    | Io
    | Panic

  datatype Result<+T> = Ok(value: T) | Err(error: Error) {
    predicate IsFailure() {
      Err?
    }

    function PropagateFailure<U>(): Result<U>
      requires Err?
    {
      Err(error)
    }

    function Extract(): T
      requires Ok?
    {
      value
    }
  }

  datatype Option<+T> = None | Some(value: T)

  function Min(a: int, b: int): int {
    if a <= b then a else b
  }

  function Max(a: int, b: int): int {
    if a <= b then b else a
  }

  lemma MulMonotone(a: nat, b: nat, c: nat)
    requires a <= b
    ensures a * c <= b * c
  {
  }

  /** The p-th cell of a grid lies in column `p % width` of row `p / width`. */
  lemma IndexIsPixel(p: nat, width: nat, height: nat)
    requires p < width * height
    ensures width > 0 && p % width < width && p / width < height && p / width * width + p % width == p
  {
    if p / width >= height {
      MulMonotone(height, p / width, width);
      assert false;
    }
  }

  lemma IndexOfPixel(x: nat, y: nat, width: nat, height: nat)
    requires x < width && y < height
    ensures var i := y * width + x; i < width * height && i % width == x && i / width == y
  {
    MulMonotone(y + 1, height, width);
    var i := y * width + x;
    SameQuotient(width, y, x, i / width, i % width);
  }

  lemma SameQuotient(w: nat, q: nat, r: nat, q': nat, r': nat)
    requires r < w && r' < w && q * w + r == q' * w + r'
    ensures q == q' && r == r'
  {
    if q < q' {
      MulMonotone(q + 1, q', w);
      assert false;
    }
    if q > q' {
      MulMonotone(q' + 1, q, w);
      assert false;
    }
  }

  // ----- Fixed-width integers -----

  function U16Le(v: u16): (r: bytes)
    ensures |r| == 2
  {
    [v % 0x100, v / 0x100]
  }

  function U16Be(v: u16): (r: bytes)
    ensures |r| == 2
  {
    [v / 0x100, v % 0x100]
  }

  function U32Le(v: u32): (r: bytes)
    ensures |r| == 4
  {
    [v % 0x100, v / 0x100 % 0x100, v / 0x1_0000 % 0x100, v / 0x100_0000]
  }

  function U16LeAt(b: bytes, i: nat): u16
    requires i + 2 <= |b|
  {
    var lo: int, hi: int := b[i], b[i + 1];
    lo + 0x100 * hi
  }

  function U16BeAt(b: bytes, i: nat): u16
    requires i + 2 <= |b|
  {
    var hi: int, lo: int := b[i], b[i + 1];
    0x100 * hi + lo
  }

  function U32LeAt(b: bytes, i: nat): u32
    requires i + 4 <= |b|
  {
    U16LeAt(b, i) as int + 0x1_0000 * U16LeAt(b, i + 2) as int
  }

  /** An integer stands where its bytes stand. */
  lemma U16LeIn(b: bytes, i: nat, v: u16)
    requires i + 2 <= |b| && b[i..i + 2] == U16Le(v)
    ensures U16LeAt(b, i) == v
  {
    assert b[i] == U16Le(v)[0] && b[i + 1] == U16Le(v)[1];
  }

  lemma U16BeIn(b: bytes, i: nat, v: u16)
    requires i + 2 <= |b| && b[i..i + 2] == U16Be(v)
    ensures U16BeAt(b, i) == v
  {
    assert b[i] == U16Be(v)[0] && b[i + 1] == U16Be(v)[1];
  }

  lemma U32LeIn(b: bytes, i: nat, v: u32)
    requires i + 4 <= |b| && b[i..i + 4] == U32Le(v)
    ensures U32LeAt(b, i) == v
  {
    assert b[i] == U32Le(v)[0] && b[i + 1] == U32Le(v)[1] && b[i + 2] == U32Le(v)[2] && b[i + 3] == U32Le(v)[3];
    U32LeDigits(v);
  }

  /** And its bytes stand where it is read. */
  lemma U32LeAtBytes(b: bytes, i: nat)
    requires i + 4 <= |b|
    ensures U32Le(U32LeAt(b, i)) == b[i..i + 4]
  {
    var b0: int, b1: int, b2: int, b3: int := b[i], b[i + 1], b[i + 2], b[i + 3];
    var v1 := b1 + 0x100 * (b2 + 0x100 * b3);
    var v2 := b2 + 0x100 * b3;
    LowByte(b[i], v1);
    LowByte(b[i + 1], v2);
    LowByte(b[i + 2], b3);
    var v: nat := U32LeAt(b, i);
    assert v == b0 + 0x100 * v1;
    assert v / 0x1_0000 == v / 0x100 / 0x100 && v / 0x100_0000 == v / 0x100 / 0x100 / 0x100;
    assert b[i..i + 4] == [b[i], b[i + 1], b[i + 2], b[i + 3]];
  }

  lemma U32LeDigits(v: u32)
    ensures v == v % 0x100 + 0x100 * (v / 0x100 % 0x100) + 0x1_0000 * (v / 0x1_0000 % 0x100)
            + 0x100_0000 * (v / 0x100_0000)
  {
    var a: nat := v / 0x100;
    var b: nat := a / 0x100;
    assert v == v % 0x100 + 0x100 * a && a == a % 0x100 + 0x100 * b && b == b % 0x100 + 0x100 * (b / 0x100);
    assert b == v / 0x1_0000 && b / 0x100 == v / 0x100_0000;
  }

  lemma Regroup<T>(a: seq<T>, b: seq<T>, c: seq<T>)
    ensures a + (b + c) == (a + b) + c
  {
  }

  lemma SliceJoins<T>(s: seq<T>, i: nat, j: nat, k: nat)
    requires i <= j <= k <= |s|
    ensures s[i..k] == s[i..j] + s[j..k]
  {
  }

  lemma SameSlice(a: bytes, b: bytes, from: nat, to: nat, lo: nat, hi: nat)
    requires from <= lo <= hi <= to <= |a| && to <= |b| && a[from..to] == b[from..to]
    ensures a[lo..hi] == b[lo..hi]
  {
    forall k | lo <= k < hi
      ensures a[k] == b[k]
    {
      assert a[k] == a[from..to][k - from] == b[from..to][k - from] == b[k];
    }
  }

  /** Reduction modulo 2^32 or 2^64 may be put off past an addition. */
  lemma Wrap32(x: nat, n: nat)
    ensures (x % 0x1_0000_0000 + n) % 0x1_0000_0000 == (x + n) % 0x1_0000_0000
  {
    var q, low := x / 0x1_0000_0000, x % 0x1_0000_0000 + n;
    assert x + n == low + q * 0x1_0000_0000;
    assert (low + q * 0x1_0000_0000) / 0x1_0000_0000 == low / 0x1_0000_0000 + q;
  }

  lemma Wrap64(x: nat, n: nat)
    ensures (x % 0x1_0000_0000_0000_0000 * 0x100 + n) % 0x1_0000_0000_0000_0000
            == (x * 0x100 + n) % 0x1_0000_0000_0000_0000
  {
    var q, low := x / 0x1_0000_0000_0000_0000 * 0x100, x % 0x1_0000_0000_0000_0000 * 0x100 + n;
    assert x * 0x100 + n == low + q * 0x1_0000_0000_0000_0000;
    assert (low + q * 0x1_0000_0000_0000_0000) / 0x1_0000_0000_0000_0000 == low / 0x1_0000_0000_0000_0000 + q;
  }

  function Zeros(n: nat): (r: bytes)
    ensures |r| == n
  {
    seq(n, _ => 0)
  }

  /** A value at most `n` little-endian bytes wide, and back. */
  function LeValue(s: bytes): nat {
    if s == [] then 0 else s[0] + 0x100 * LeValue(s[1..])
  }

  function LeBytes(v: nat, n: nat): (r: bytes)
    ensures |r| == n
  {
    if n == 0 then [] else [v % 0x100] + LeBytes(v / 0x100, n - 1)
  }

  function Pow256(n: nat): (r: nat)
    ensures r >= 1
  {
    if n == 0 then 1 else 0x100 * Pow256(n - 1)
  }

  lemma {:induction false} LeBytesOfValue(s: bytes)
    ensures LeBytes(LeValue(s), |s|) == s
    ensures LeValue(s) < Pow256(|s|)
  {
    if s != [] {
      LeBytesOfValue(s[1..]);
      LowByte(s[0], LeValue(s[1..]));
      assert s == [s[0]] + s[1..];
    }
  }

  lemma LowByte(b: byte, v: nat)
    ensures (b + 0x100 * v) % 0x100 == b && (b + 0x100 * v) / 0x100 == v
  {
  }

  lemma {:induction false} LeValueOfBytes(v: nat, n: nat)
    requires v < Pow256(n)
    ensures LeValue(LeBytes(v, n)) == v
  {
    if n > 0 {
      LeValueOfBytes(v / 0x100, n - 1);
      assert LeBytes(v, n)[1..] == LeBytes(v / 0x100, n - 1);
    }
  }

  lemma ScaledProduct(b: nat, p: nat)
    ensures b * (0x100 * p) == 0x100 * (b * p)
  {
  }

  lemma {:induction false} LeValueAppend(s: bytes, b: byte)
    ensures LeValue(s + [b]) == LeValue(s) + b * Pow256(|s|)
  {
    if s == [] {
      assert s + [b] == [b];
    } else {
      LeValueAppend(s[1..], b);
      assert (s + [b])[1..] == s[1..] + [b];
      assert s + [b] != [];
      ScaledProduct(b, Pow256(|s| - 1));
    }
  }
}
