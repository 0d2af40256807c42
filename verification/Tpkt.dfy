/** TPKT packets: section 6 of RFC 1006. */
module Tpkt {
  import opened Prelude

  const TPKT_VERSION: byte := 3
  const TPKT_HEADER := 4
  const MAX_TPKT_PAYLOAD := 0xFFFF - TPKT_HEADER

  function Encoded(payload: bytes): Result<bytes> {
    if |payload| > MAX_TPKT_PAYLOAD then Err(Protocol(TpktTooLong))
    else Ok([TPKT_VERSION, 0] + U16Be(|payload| + TPKT_HEADER) + payload)
  }

  /** The declared total length, header included. */
  function TotalLength(buf: bytes): (r: Result<nat>)
    ensures r.Ok? ==> r.value >= TPKT_HEADER
  {
    if |buf| < TPKT_HEADER then Err(Short(TPKT_HEADER, |buf|))
    else if buf[0] != TPKT_VERSION then Err(Protocol(BadTpktVersion))
    else
      var total := U16BeAt(buf, 2);
      if total < TPKT_HEADER then Err(Protocol(TpktShorterThanHeader)) else Ok(total)
  }

  function Decoded(buf: bytes): Result<bytes> {
    var total :- TotalLength(buf);
    if |buf| < total then Err(Short(total, |buf|)) else Ok(buf[TPKT_HEADER..total])
  }

  /** A packet that can be built reads back, whatever follows it. */
  lemma PacketReadsBack(payload: bytes, rest: bytes)
    requires |payload| <= MAX_TPKT_PAYLOAD
    ensures TotalLength(Encoded(payload).value + rest) == Ok(|payload| + TPKT_HEADER)
    ensures Decoded(Encoded(payload).value + rest) == Ok(payload)
  {
    hide U16Be, U16BeAt;
    var buf := Encoded(payload).value + rest;
    U16BeIn(buf, 2, |payload| + TPKT_HEADER);
    assert buf[TPKT_HEADER..|payload| + TPKT_HEADER] == payload;
  }

  /** Packets cut off in the header, of another version, declaring less than their header, or cut off in the payload. */
  lemma PacketErrs(buf: bytes)
    ensures |buf| < 4 ==> Decoded(buf) == Err(Short(4, |buf|))
    ensures |buf| >= 4 && buf[0] != 3 ==> Decoded(buf) == Err(Protocol(BadTpktVersion))
    ensures |buf| >= 4 && buf[0] == 3 ==>
              var total := U16BeAt(buf, 2);
              if total < 4 then Decoded(buf) == Err(Protocol(TpktShorterThanHeader))
              else if |buf| < total then Decoded(buf) == Err(Short(total, |buf|))
              else Decoded(buf).Ok?
    ensures |buf| > 0xFFFB ==> Encoded(buf) == Err(Protocol(TpktTooLong))
  {
    hide U16BeAt;
  }

  /** A packet is version 3, a zero, its length in two bytes, high first, and the payload. */
  lemma PacketIsStandard(payload: bytes)
    requires |payload| <= 0xFFFB
    ensures var n := |payload| + 4; Encoded(payload) == Ok([3, 0, n / 0x100, n % 0x100] + payload)
  {
    var n := |payload| + 4;
    assert [3, 0] + U16Be(n) == [3, 0, n / 0x100, n % 0x100];
  }
}
