/** Aligned PER length determinants: section 10.9 of ITU-T X.691. */
module Per {
  import opened Prelude

  function Length(n: nat): bytes {
    if n < 0x80 then [n]
    else if n < 0x4000 then U16Be(0x8000 + n)
    else [0xC1] + U16Be(n % 0x1_0000)
  }

  /** Value and size of a length. */
  function LengthAt(buf: bytes): (r: Result<(nat, nat)>)
    ensures r.Ok? ==> r.value.1 <= |buf|
  {
    if buf == [] then Err(Short(1, 0))
    else if buf[0] < 0x80 then Ok((buf[0], 1))
    else if buf[0] < 0xC0 then
      if |buf| < 2 then Err(Short(1, 0)) else Ok(((buf[0] as int - 0x80) * 0x100 + buf[1] as int, 2))
    else Err(Protocol(FragmentedPerLength))
  }

  /** What is appended reads back to `n`, in as few bytes as the form allows; from 0x4000 on it is refused. */
  method WriteLength(before: bytes, n: nat) returns (out: bytes)
    ensures out == before + Length(n)
    ensures |out| == |before| + if n < 0x80 then 1 else if n < 0x4000 then 2 else 3
    ensures forall rest :: LengthAt(out[|before|..] + rest)
                           == if n < 0x4000 then Ok((n, |out| - |before|)) else Err(Protocol(FragmentedPerLength))
  {
    out := before;
    if n < 0x80 {
      out := out + [n];
    } else if n < 0x4000 {
      out := out + U16Be(0x8000 + n);
    } else {
      out := out + [0xC1];
      out := out + U16Be(n % 0x1_0000);
    }
    assert out[|before|..] == Length(n);
    forall rest {
      LengthReadsBack(n, rest);
    }
  }

  /** Advance past a length. */
  method ReadLength(buf: bytes) returns (rest: bytes, r: Result<nat>)
    ensures match LengthAt(buf)
            case Ok((n, used)) => r == Ok(n) && rest == buf[used..]
            case Err(e) => r == Err(e)
  {
    rest := buf;
    if rest == [] {
      return rest, Err(Short(1, 0));
    }
    var first := rest[0];
    rest := rest[1..];
    if first < 0x80 {
      return rest, Ok(first);
    }
    if first < 0xC0 {
      if rest == [] {
        return rest, Err(Short(1, 0));
      }
      var lo := rest[0];
      rest := rest[1..];
      return rest, Ok((first as int - 0x80) * 0x100 + lo as int);
    }
    r := Err(Protocol(FragmentedPerLength));
  }

  /** The reader takes back exactly the written lengths below 0x4000, and refuses every other one. */
  lemma LengthReadsBack(n: nat, rest: bytes)
    ensures LengthAt(Length(n) + rest)
            == if n < 0x4000 then Ok((n, |Length(n)|)) else Err(Protocol(FragmentedPerLength))
  {
    var buf := Length(n) + rest;
    if 0x80 <= n < 0x4000 {
      assert buf[0] == Length(n)[0] && buf[1] == Length(n)[1];
    }
  }

  /** The bytes of a length. */
  lemma LengthBytes(n: nat)
    ensures Length(n)
            == if n < 0x80 then [n]
               else if n < 0x4000 then [0x80 + n / 0x100, n % 0x100]
               else [0xC1, n / 0x100 % 0x100, n % 0x100]
  {
    if 0x80 <= n < 0x4000 {
      Marked(n);
    } else if n >= 0x4000 {
      LowWord(n);
    }
  }

  lemma Marked(n: nat)
    ensures (0x8000 + n) / 0x100 == 0x80 + n / 0x100 && (0x8000 + n) % 0x100 == n % 0x100
  {
  }

  lemma LowWord(n: nat)
    ensures n % 0x1_0000 / 0x100 == n / 0x100 % 0x100 && n % 0x1_0000 % 0x100 == n % 0x100
  {
  }

  /** Lengths cut off, and fragmented ones. */
  lemma LengthErrs(buf: bytes)
    ensures buf == [] ==> LengthAt(buf) == Err(Short(1, 0))
    ensures |buf| == 1 && 0x80 <= buf[0] < 0xC0 ==> LengthAt(buf) == Err(Short(1, 0))
    ensures buf != [] && buf[0] >= 0xC0 ==> LengthAt(buf) == Err(Protocol(FragmentedPerLength))
  {
  }
}
