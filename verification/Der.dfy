/** The DER subset of CredSSP: definite lengths, section 8.1.3 of ITU-T X.690. */
module Der {
  import opened Prelude

  const TAG_INTEGER: byte := 0x02
  const TAG_OCTET_STRING: byte := 0x04
  const TAG_SEQUENCE: byte := 0x30
  const TWO_32 := 0x1_0000_0000
  const TWO_64 := 0x1_0000_0000_0000_0000

  function ContextTag(n: nat): byte
    requires n < 0x60
  {
    0xA0 + n
  }

  // ----- Big-endian numbers -----

  /** Without leading zeros; zero is empty. */
  function BigEndian(v: nat): bytes {
    if v == 0 then [] else BigEndian(v / 0x100) + [v % 0x100]
  }

  function BeValue(s: bytes): nat {
    if s == [] then 0 else BeValue(s[..|s| - 1]) * 0x100 + s[|s| - 1] as int
  }

  lemma BigEndianNext(v: nat)
    requires v > 0
    ensures BigEndian(v) == BigEndian(v / 0x100) + [v % 0x100]
  {
  }

  lemma BigEndianOfNone()
    ensures BigEndian(0) == []
  {
  }

  lemma {:induction false} BeValueOfBigEndian(v: nat)
    ensures BeValue(BigEndian(v)) == v
  {
    if v > 0 {
      BeValueOfBigEndian(v / 0x100);
      assert BigEndian(v)[..|BigEndian(v)| - 1] == BigEndian(v / 0x100);
    }
  }

  /** At most four octets exactly when the number fits 32 bits. */
  lemma BigEndianSize(v: nat)
    requires v < TWO_64
    ensures |BigEndian(v)| <= 8
    ensures |BigEndian(v)| <= 4 <==> v < TWO_32
    ensures v > 0 ==> BigEndian(v) != [] && BigEndian(v)[0] > 0
  {
    BigEndianBounds(v, 4);
    BigEndianBounds(v, 8);
    assert Pow256(4) == TWO_32 by {
      assert Pow256(2) == 0x1_0000;
    }
    assert Pow256(8) == TWO_64 by {
      assert Pow256(2) == 0x1_0000;
      assert Pow256(4) == 0x1_0000_0000;
      assert Pow256(6) == 0x1_0000_0000_0000;
    }
    LeadingOctet(v);
  }

  lemma {:induction false} BigEndianBounds(v: nat, n: nat)
    ensures |BigEndian(v)| <= n <==> v < Pow256(n)
  {
    if v > 0 && n > 0 {
      BigEndianBounds(v / 0x100, n - 1);
    }
  }

  lemma {:induction false} LeadingOctet(v: nat)
    ensures v > 0 ==> BigEndian(v) != [] && BigEndian(v)[0] > 0
  {
    if v > 0 {
      LeadingOctet(v / 0x100);
    }
  }

  // ----- Lengths -----

  /** `0x80 | count` keeps the low seven bits of the count. */
  function EncodedLen(len: nat): (r: bytes)
    ensures r != []
  {
    if len < 0x80 then [len]
    else
      var octets := BigEndian(len);
      [0x80 + |octets| % 0x80] + octets
  }

  function DecodedLen(buf: bytes): Result<(nat, nat)> {
    if buf == [] then Err(Short(1, 0))
    else if buf[0] < 0x80 then Ok((buf[0], 1))
    else
      var n := buf[0] as int - 0x80;
      if n == 0 || n > 4 || |buf| < 1 + n then Err(Protocol(BadDerLength))
      else Ok((BeValue(buf[1..1 + n]), 1 + n))
  }

  /** A printed length reads back exactly when it needs at most four octets; a longer one is refused. */
  lemma LenReadsBack(len: nat, rest: bytes)
    requires len < TWO_64
    ensures DecodedLen(EncodedLen(len) + rest)
            == if len < TWO_32 then Ok((len, |EncodedLen(len)|)) else Err(Protocol(BadDerLength))
  {
    hide BigEndian, BeValue;
    if len >= 0x80 {
      BigEndianSize(len);
      BeValueOfBigEndian(len);
      var buf := EncodedLen(len) + rest;
      assert buf[1..1 + |BigEndian(len)|] == BigEndian(len);
    }
  }

  method EncodeLen(len: nat) returns (r: bytes)
    ensures r == EncodedLen(len)
  {
    if len < 0x80 {
      return [len];
    }
    var octets: bytes := [];
    var v := len;
    while v > 0
      invariant v >= 0 && BigEndian(v) + octets == BigEndian(len)
    {
      octets := [v % 0x100] + octets;
      v := v / 0x100;
    }
    assert octets == BigEndian(len);
    r := [0x80 + |octets| % 0x80] + octets;
  }

  method DecodeLen(buf: bytes) returns (r: Result<(nat, nat)>)
    ensures r == DecodedLen(buf)
  {
    if buf == [] {
      return Err(Short(1, 0));
    }
    var first := buf[0];
    if first < 0x80 {
      return Ok((first, 1));
    }
    var n := first as int - 0x80;
    if n == 0 || n > 4 || |buf| < 1 + n {
      return Err(Protocol(BadDerLength));
    }
    var len := 0;
    for k := 0 to n
      invariant len == BeValue(buf[1..1 + k])
    {
      assert buf[1..1 + k + 1][..k] == buf[1..1 + k];
      len := len * 0x100 + buf[1 + k] as int;
    }
    r := Ok((len, 1 + n));
  }

  // ----- Tag, length, value -----

  function Tlv(tag: byte, value: bytes): bytes {
    [tag] + EncodedLen(|value|) + value
  }

  function OctetString(value: bytes): bytes {
    Tlv(TAG_OCTET_STRING, value)
  }

  function Sequence(contents: bytes): bytes {
    Tlv(TAG_SEQUENCE, contents)
  }

  function Context(n: nat, contents: bytes): bytes
    requires n < 0x60
  {
    Tlv(ContextTag(n), contents)
  }

  /** Minimal octets of an unsigned number, with a zero in front when the top bit is set. */
  function IntegerOctets(v: nat): (r: bytes)
    ensures r != []
  {
    var octets := BigEndian(v);
    if v == 0 then [0]
    else if octets == [] || octets[0] >= 0x80 then [0] + octets
    else octets
  }

  function Integer(v: nat): bytes {
    Tlv(TAG_INTEGER, IntegerOctets(v))
  }

  method EncodeInteger(v: nat) returns (r: bytes)
    requires v < TWO_64
    ensures r == Integer(v)
  {
    hide BigEndian, Tlv;
    if v == 0 {
      return Tlv(TAG_INTEGER, [0]);
    }
    BigEndianOfNone();
    var octets: bytes := [];
    var n := v;
    while n > 0
      invariant n >= 0 && BigEndian(n) + octets == BigEndian(v)
    {
      BigEndianNext(n);
      Regroup(BigEndian(n / 0x100), [n % 0x100], octets);
      octets := [n % 0x100] + octets;
      n := n / 0x100;
    }
    assert octets == BigEndian(v);
    LeadingOctet(v);
    if octets[0] >= 0x80 {
      octets := [0] + octets;
    }
    r := Tlv(TAG_INTEGER, octets);
  }

  /** A reader's view of the next TLV: tag, value, and what is left. */
  datatype Item = Item(tag: byte, value: bytes, rest: bytes)

  function NextTlv(buf: bytes): Result<Item> {
    if |buf| < 2 then Err(Short(2, |buf|))
    else
      var (len, header) :- DecodedLen(buf[1..]);
      var end := 1 + header + len;
      if |buf| < end then Err(Short(end, |buf|))
      else Ok(Item(buf[0], buf[1 + header..end], buf[end..]))
  }

  /** The value of the next TLV if its tag is the one wanted. */
  function Expected(buf: bytes, tag: byte): Result<bytes> {
    var item :- NextTlv(buf);
    if item.tag != tag then Err(Protocol(UnexpectedDerTag)) else Ok(item.value)
  }

  /** Octets accumulated in a 64-bit register: higher bits fall off. */
  function Register(octets: bytes): (r: nat)
    ensures r < TWO_64
  {
    if octets == [] then 0 else (Register(octets[..|octets| - 1]) * 0x100 + octets[|octets| - 1] as int) % TWO_64
  }

  function IntegerAt(buf: bytes): Result<nat> {
    var octets :- Expected(buf, TAG_INTEGER);
    Ok(Register(octets))
  }

  lemma {:induction false} RegisterIsValueModulo(octets: bytes)
    ensures Register(octets) == BeValue(octets) % TWO_64
  {
    if octets != [] {
      var n := |octets| - 1;
      RegisterIsValueModulo(octets[..n]);
      Wrap64(BeValue(octets[..n]), octets[n]);
    }
  }

  lemma {:induction false} BeValueZeroFront(s: bytes)
    ensures BeValue([0] + s) == BeValue(s)
  {
    if s == [] {
      assert [0] + s == [0];
    } else {
      BeValueZeroFront(s[..|s| - 1]);
      assert ([0] + s)[..|s|] == [0] + s[..|s| - 1];
    }
  }

  lemma DecodedLenFits(buf: bytes)
    ensures DecodedLen(buf).Ok? ==> 1 <= DecodedLen(buf).value.1 <= |buf|
  {
  }

  /** A printed TLV reads back, leaving what follows it, exactly when its value is shorter than 2^32. */
  lemma TlvReadsBack(tag: byte, value: bytes, rest: bytes)
    requires |value| < TWO_64
    ensures NextTlv(Tlv(tag, value) + rest)
            == if |value| < TWO_32 then Ok(Item(tag, value, rest)) else Err(Protocol(BadDerLength))
  {
    hide EncodedLen, DecodedLen;
    var buf := Tlv(tag, value) + rest;
    assert buf[1..] == EncodedLen(|value|) + (value + rest);
    LenReadsBack(|value|, value + rest);
    if |value| < TWO_32 {
      var start := 1 + |EncodedLen(|value|)|;
      assert buf[start..start + |value|] == value;
      assert buf[start + |value|..] == rest;
    }
  }

  lemma ExpectedReadsBack(tag: byte, value: bytes)
    requires |value| < TWO_32
    ensures Expected(Tlv(tag, value), tag) == Ok(value)
  {
    hide NextTlv;
    TlvReadsBack(tag, value, []);
    assert Tlv(tag, value) + [] == Tlv(tag, value);
  }

  /** A printed integer reads back to its value, sign pad or not. */
  lemma IntegerReadsBack(v: nat)
    requires v < TWO_64
    ensures IntegerAt(Integer(v)) == Ok(v)
  {
    hide BigEndian, Register, Expected, Tlv;
    BigEndianSize(v);
    BeValueOfBigEndian(v);
    BeValueZeroFront(BigEndian(v));
    RegisterIsValueModulo(IntegerOctets(v));
    ExpectedReadsBack(TAG_INTEGER, IntegerOctets(v));
    if v == 0 {
      assert BeValue([0]) == 0;
    }
  }

  /** A cursor over DER bytes. */
  class Reader {
    var buf: bytes

    constructor (buf: bytes)
      ensures this.buf == buf
    {
      this.buf := buf;
    }

    /** On an error nothing is consumed. */
    method ReadTlv() returns (r: Result<(byte, bytes)>)
      modifies this
      ensures match NextTlv(old(buf))
              case Ok(item) => r == Ok((item.tag, item.value)) && buf == item.rest && |buf| < |old(buf)|
              case Err(e) => r == Err(e) && buf == old(buf)
    {
      hide DecodedLen;
      if |buf| < 2 {
        return Err(Short(2, |buf|));
      }
      var tag := buf[0];
      var decoded := DecodeLen(buf[1..]);
      if decoded.Err? {
        return Err(decoded.error);
      }
      var (len, header) := decoded.value;
      var start := 1 + header;
      var end := start + len;
      if |buf| < end {
        return Err(Short(end, |buf|));
      }
      DecodedLenFits(buf[1..]);
      var value := buf[start..end];
      buf := buf[end..];
      r := Ok((tag, value));
    }

    method Expect(tag: byte) returns (r: Result<bytes>)
      modifies this
      ensures r == Expected(old(buf), tag)
      ensures r.Ok? ==> NextTlv(old(buf)).Ok? && buf == NextTlv(old(buf)).value.rest && |buf| < |old(buf)|
    {
      hide NextTlv;
      var item := ReadTlv();
      if item.Err? {
        return Err(item.error);
      }
      if item.value.0 != tag {
        return Err(Protocol(UnexpectedDerTag));
      }
      r := Ok(item.value.1);
    }

    method ReadInteger() returns (r: Result<nat>)
      modifies this
      ensures r == IntegerAt(old(buf))
    {
      hide Expected;
      var octets := Expect(TAG_INTEGER);
      if octets.Err? {
        return Err(octets.error);
      }
      var v := octets.value;
      var n := 0;
      for k := 0 to |v|
        invariant n == Register(v[..k])
      {
        assert v[..k + 1][..k] == v[..k];
        n := (n * 0x100 + v[k] as int) % TWO_64;
      }
      assert v[..|v|] == v;
      r := Ok(n);
    }
  }

  // ----- Errors and minimality -----

  /** The indefinite form, lengths of more than four octets, and lengths that are cut off. */
  lemma BadLengths(buf: bytes)
    ensures buf == [] ==> DecodedLen(buf) == Err(Short(1, 0))
    ensures buf != [] && (buf[0] == 0x80 || buf[0] > 0x84) ==> DecodedLen(buf) == Err(Protocol(BadDerLength))
    ensures buf != [] && 0x80 < buf[0] && |buf| < 1 + (buf[0] as int - 0x80) ==>
              DecodedLen(buf) == Err(Protocol(BadDerLength))
  {
  }

  /** Elements cut off in tag and length, or in the value. */
  lemma BadElements(buf: bytes, tag: byte)
    ensures |buf| < 2 ==> NextTlv(buf) == Err(Short(2, |buf|))
    ensures |buf| >= 2 && buf[1] < 0x80 && |buf| < 2 + buf[1] as int ==>
              NextTlv(buf) == Err(Short(2 + buf[1] as int, |buf|))
    ensures |buf| >= 2 && buf[1] < 0x80 && |buf| >= 2 + buf[1] as int && buf[0] != tag ==>
              Expected(buf, tag) == Err(Protocol(UnexpectedDerTag))
  {
  }

  /** The octets of an integer read as a positive number, and no octet is there in vain. */
  lemma IntegerIsMinimal(v: nat)
    ensures var octets := IntegerOctets(v);
            && octets[0] < 0x80 && BeValue(octets) == v
            && (|octets| > 1 && octets[0] == 0 ==> octets[1] >= 0x80)
  {
    hide BigEndian;
    if v == 0 {
      assert [0][..0] == [];
    } else {
      LeadingOctet(v);
      BeValueOfBigEndian(v);
      ZeroInFront(BigEndian(v));
    }
  }

  lemma {:induction false} ZeroInFront(s: bytes)
    ensures BeValue([0] + s) == BeValue(s)
    decreases |s|
  {
    if s == [] {
      assert [0] + s == [0] && [0][..0] == [];
    } else {
      ZeroInFront(s[..|s| - 1]);
      assert ([0] + s)[..|s|] == [0] + s[..|s| - 1];
    }
  }
}
