/** Share control and share data headers: section 2.2.8.1.1 of [MS-RDPBCGR]. */
module SharePdu {
  import opened Prelude

  const PDUTYPE_DEMANDACTIVE: u16 := 0x1
  const PDUTYPE_CONFIRMACTIVE: u16 := 0x3
  const PDUTYPE_DATA: u16 := 0x7
  const PROTOCOL_VERSION := 0x10

  const PDUTYPE2_CONTROL: byte := 20
  const PDUTYPE2_SYNCHRONIZE: byte := 31
  const PDUTYPE2_FONTLIST: byte := 39

  const STREAM_LOW: byte := 1

  const SHARE_CONTROL_HEADER := 6
  const SHARE_DATA_HEADER := 12

  datatype ControlHeader = ControlHeader(pduType: u16, pduSource: u16)

  /** The type with the version bit set. */
  function Versioned(pduType: u16): u16 {
    if pduType / PROTOCOL_VERSION % 2 == 1 then pduType else pduType + PROTOCOL_VERSION
  }

  /** The total length is stored in 16 bits. */
  function ShareControl(pduType: u16, source: u16, body: bytes): bytes {
    U16Le((|body| + SHARE_CONTROL_HEADER) % 0x1_0000) + U16Le(Versioned(pduType)) + U16Le(source) + body
  }

  function ParsedControl(buf: bytes): Result<(ControlHeader, bytes)> {
    if |buf| < SHARE_CONTROL_HEADER then Err(Short(SHARE_CONTROL_HEADER, |buf|))
    else
      var total := U16LeAt(buf, 0);
      if total < SHARE_CONTROL_HEADER || |buf| < total then Err(Protocol(BadShareControlLength))
      else Ok((ControlHeader(U16LeAt(buf, 2) % 0x10, U16LeAt(buf, 4)), buf[SHARE_CONTROL_HEADER..total]))
  }

  function DataHeader(shareId: u32, pduType2: byte, bodyLen: nat): (r: bytes)
    ensures |r| == SHARE_DATA_HEADER && r[8] == pduType2
  {
    U32Le(shareId) + [0, STREAM_LOW] + U16Le((bodyLen + 4) % 0x1_0000) + [pduType2, 0] + U16Le(0)
  }

  function ShareData(source: u16, shareId: u32, pduType2: byte, body: bytes): bytes {
    ShareControl(PDUTYPE_DATA, source, DataHeader(shareId, pduType2, |body|) + body)
  }

  /** The PDU reads back, headers first, whenever its length fits the header's 16 bits. */
  method BuildShareData(source: u16, shareId: u32, pduType2: byte, body: bytes) returns (out: bytes)
    ensures out == ShareData(source, shareId, pduType2, body)
    ensures |out| == |body| + 18
    ensures |out| < 0x1_0000 ==>
              var r := ParsedControl(out);
              && r.Ok? && r.value.0 == ControlHeader(PDUTYPE_DATA, source) && |r.value.1| >= 4
              && U32LeAt(r.value.1, 0) == shareId
              && ParsedData(r.value.1) == Ok((pduType2, body))
  {
    DataSize(source, shareId, pduType2, body);
    if |body| + 18 < 0x1_0000 {
      DataReadsBack(source, shareId, pduType2, body);
    }
    var data := U32Le(shareId);
    data := data + [0];
    data := data + [STREAM_LOW];
    data := data + U16Le((|body| + 4) % 0x1_0000);
    data := data + [pduType2];
    data := data + [0];
    data := data + U16Le(0);
    assert data == DataHeader(shareId, pduType2, |body|);
    data := data + body;
    out := ShareControl(PDUTYPE_DATA, source, data);
  }

  function ParsedData(body: bytes): Result<(byte, bytes)> {
    if |body| < SHARE_DATA_HEADER then Err(Short(SHARE_DATA_HEADER, |body|))
    else Ok((body[8], body[SHARE_DATA_HEADER..]))
  }

  lemma VersionedType(pduType: u16)
    ensures Versioned(pduType) % 0x10 == pduType % 0x10
  {
  }

  /** A share control PDU that fits its 16-bit length reads back to the low four type bits, the source and the body. */
  lemma ControlReadsBack(pduType: u16, source: u16, body: bytes, rest: bytes)
    requires |body| + SHARE_CONTROL_HEADER < 0x1_0000
    ensures ParsedControl(ShareControl(pduType, source, body) + rest)
            == Ok((ControlHeader(pduType % 0x10, source), body))
  {
    hide U16Le, U16LeAt, Versioned;
    var buf := ShareControl(pduType, source, body) + rest;
    VersionedType(pduType);
    U16LeIn(buf, 0, |body| + SHARE_CONTROL_HEADER);
    U16LeIn(buf, 2, Versioned(pduType));
    U16LeIn(buf, 4, source);
    assert buf[SHARE_CONTROL_HEADER..|body| + SHARE_CONTROL_HEADER] == body;
  }

  lemma DataSize(source: u16, shareId: u32, pduType2: byte, body: bytes)
    ensures |ShareData(source, shareId, pduType2, body)| == |body| + SHARE_DATA_HEADER + SHARE_CONTROL_HEADER
  {
    hide DataHeader, U16Le;
  }

  lemma ShareIdFirst(shareId: u32, pduType2: byte, bodyLen: nat, body: bytes)
    ensures U32LeAt(DataHeader(shareId, pduType2, bodyLen) + body, 0) == shareId
  {
    hide U32Le, U32LeAt, U16Le;
    U32LeIn(DataHeader(shareId, pduType2, bodyLen) + body, 0, shareId);
  }

  lemma DataReadsBack(source: u16, shareId: u32, pduType2: byte, body: bytes)
    requires |ShareData(source, shareId, pduType2, body)| < 0x1_0000
    ensures var r := ParsedControl(ShareData(source, shareId, pduType2, body));
            && r.Ok? && r.value.0 == ControlHeader(PDUTYPE_DATA, source) && |r.value.1| >= 4
            && U32LeAt(r.value.1, 0) == shareId
            && ParsedData(r.value.1) == Ok((pduType2, body))
  {
    hide ParsedControl, DataHeader, U32LeAt;
    var data := DataHeader(shareId, pduType2, |body|) + body;
    ShareIdFirst(shareId, pduType2, |body|, body);
    ControlReadsBack(PDUTYPE_DATA, source, data, []);
    assert ShareControl(PDUTYPE_DATA, source, data) + [] == ShareControl(PDUTYPE_DATA, source, data);
    assert data[SHARE_DATA_HEADER..] == body;
  }

  // ----- Errors -----

  /** Share headers cut off, or declaring less than themselves or more than there is. */
  lemma ShareErrs(buf: bytes)
    ensures |buf| < 6 ==> ParsedControl(buf) == Err(Short(6, |buf|))
    ensures |buf| >= 6 && !(6 <= U16LeAt(buf, 0) <= |buf|)
            ==> ParsedControl(buf) == Err(Protocol(BadShareControlLength))
    ensures |buf| >= 6 && 6 <= U16LeAt(buf, 0) <= |buf| ==> ParsedControl(buf).Ok?
    ensures if |buf| < 12 then ParsedData(buf) == Err(Short(12, |buf|)) else ParsedData(buf).Ok?
  {
    hide U16LeAt;
  }
}
