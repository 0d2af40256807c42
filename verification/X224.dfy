/** X.224 Data TPDUs: section 13.7 of ITU-T X.224. */
module X224 {
  import opened Prelude

  const TPDU_DT: byte := 0xF0
  const DATA_HEADER: bytes := [0x02, TPDU_DT, 0x80]

  function Wrapped(payload: bytes): bytes {
    DATA_HEADER + payload
  }

  /** The header's own length octet says where the payload starts; one that points past the end panics. */
  function Unwrapped(buf: bytes): Result<bytes> {
    if |buf| < 3 then Err(Short(3, |buf|))
    else if buf[1] != TPDU_DT then Err(Protocol(NotDataTpdu))
    else if buf[0] as int + 1 > |buf| then Err(Panic)
    else Ok(buf[buf[0] as int + 1..])
  }

  lemma WrappedReadsBack(payload: bytes)
    ensures Unwrapped(Wrapped(payload)) == Ok(payload)
  {
    assert Wrapped(payload)[3..] == payload;
  }

  /** A Data TPDU is `02 F0 80` and the payload; anything else or anything shorter than that is refused. */
  lemma DataErrs(buf: bytes)
    ensures Wrapped(buf) == [0x02, 0xF0, 0x80] + buf
    ensures |buf| < 3 ==> Unwrapped(buf) == Err(Short(3, |buf|))
    ensures |buf| >= 3 && buf[1] != 0xF0 ==> Unwrapped(buf) == Err(Protocol(NotDataTpdu))
  {
  }
}
