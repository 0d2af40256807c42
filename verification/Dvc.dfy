/** Dynamic virtual channel PDUs: sections 2.2.2 and 2.2.3 of [MS-RDPEDYC]. */
module Dvc {
  import opened Prelude
  import VChannel

  const CMD_CREATE: byte := 0x01
  const CMD_DATA_FIRST: byte := 0x02
  const CMD_DATA: byte := 0x03
  const CMD_CLOSE: byte := 0x04
  const CMD_CAPABILITY: byte := 0x05

  /** A channel name is its bytes up to the first zero. */
  datatype DvcPdu =
    | Capabilities(version: u16)
    | Create(channel: u32, name: bytes)
    | Data(channel: u32, data: bytes)
    | DataFirst(channel: u32, total: u32, data: bytes)
    | Close(channel: u32)
    | Other(cmd: byte)

  function HeaderByte(cmd: byte, sp: byte, cbChid: byte): byte
    requires cmd < 0x10
  {
    0x10 * cmd as int + 4 * (sp % 4) as int + cbChid as int % 4
  }

  /** Octets of a channel id: one, two or four. */
  function IdWidth(cbChid: byte): nat {
    if cbChid == 0 then 1 else if cbChid == 1 then 2 else 4
  }

  function ChannelId(id: u32, cbChid: byte): bytes {
    if cbChid == 0 then [id % 0x100] else if cbChid == 1 then U16Le(id % 0x1_0000) else U32Le(id)
  }

  function CbChidFor(id: u32): byte {
    if id <= 0xFF then 0 else if id <= 0xFFFF then 1 else 2
  }

  function ChannelIdAt(buf: bytes, cbChid: byte): (r: Result<u32>)
    ensures r.Ok? ==> IdWidth(cbChid) <= |buf|
  {
    if |buf| < IdWidth(cbChid) then Err(Short(IdWidth(cbChid), |buf|))
    else if cbChid == 0 then Ok(buf[0])
    else if cbChid == 1 then Ok(U16LeAt(buf, 0))
    else Ok(U32LeAt(buf, 0))
  }

  /** The bytes before the first zero. */
  function UpToZero(buf: bytes): bytes {
    if buf == [] || buf[0] == 0 then [] else [buf[0]] + UpToZero(buf[1..])
  }

  function Parsed(pdu: bytes): Result<DvcPdu> {
    if pdu == [] then Err(Short(1, 0))
    else
      var header: int := pdu[0];
      ParsedBody(header / 0x10, header / 4 % 4, header % 4, pdu[1..])
  }

  function ParsedBody(cmd: byte, sp: byte, cbChid: byte, buf: bytes): Result<DvcPdu> {
    if cmd == CMD_CAPABILITY then
      if |buf| < 3 then Err(Short(3, |buf|)) else Ok(Capabilities(U16LeAt(buf, 1)))
    else if cmd == CMD_CREATE then
      var channel :- ChannelIdAt(buf, cbChid);
      Ok(Create(channel, UpToZero(buf[IdWidth(cbChid)..])))
    else if cmd == CMD_DATA then
      var channel :- ChannelIdAt(buf, cbChid);
      Ok(Data(channel, buf[IdWidth(cbChid)..]))
    else if cmd == CMD_DATA_FIRST then
      var channel :- ChannelIdAt(buf, cbChid);
      var buf := buf[IdWidth(cbChid)..];
      var total :- ChannelIdAt(buf, sp);
      Ok(DataFirst(channel, total, buf[IdWidth(sp)..]))
    else if cmd == CMD_CLOSE then
      var channel :- ChannelIdAt(buf, cbChid);
      Ok(Close(channel))
    else Ok(Other(cmd))
  }

  function DataPdu(channel: u32, payload: bytes): bytes {
    var cb := CbChidFor(channel);
    [HeaderByte(CMD_DATA, 0, cb)] + ChannelId(channel, cb) + payload
  }

  /**
   An id written at some width reads back exactly when the width is at least the one chosen for it, which is the
   narrowest.
   */
  lemma IdReadsBack(id: u32, cbChid: byte, rest: bytes)
    requires cbChid < 3
    ensures ChannelIdAt(ChannelId(id, cbChid) + rest, cbChid).Ok?
    ensures ChannelIdAt(ChannelId(id, cbChid) + rest, cbChid) == Ok(id) <==> cbChid >= CbChidFor(id)
    ensures |ChannelId(id, cbChid)| == IdWidth(cbChid)
  {
    hide U16Le, U16LeAt, U32Le, U32LeAt;
    if cbChid == 1 {
      U16LeIn(ChannelId(id, cbChid) + rest, 0, id % 0x1_0000);
    } else if cbChid == 2 {
      U32LeIn(ChannelId(id, cbChid) + rest, 0, id);
    }
  }

  lemma DataReadsBack(channel: u32, payload: bytes)
    ensures Parsed(DataPdu(channel, payload)) == Ok(Data(channel, payload))
  {
    hide ChannelId, ChannelIdAt;
    var cb := CbChidFor(channel);
    IdReadsBack(channel, cb, payload);
    assert DataPdu(channel, payload)[1..] == ChannelId(channel, cb) + payload;
    assert (ChannelId(channel, cb) + payload)[IdWidth(cb)..] == payload;
  }

  // ----- Every PDU -----

  /** The id at a width that can hold it: one byte, two, or four for either of the upper codes. */
  ghost predicate IdFits(id: u32, code: byte) {
    code < 4 && (code == 0 ==> id < 0x100) && (code == 1 ==> id < 0x1_0000)
  }

  function PrintId(id: u32, code: byte): bytes
    requires IdFits(id, code)
  {
    if code == 0 then [id] else if code == 1 then U16Le(id) else U32Le(id)
  }

  /** Which widths go with a PDU; a name holds no zero. */
  ghost predicate Printable(pdu: DvcPdu, cb: byte, sp: byte) {
    match pdu
    case Capabilities(_) => cb < 4 && sp < 4
    case Create(channel, name) => IdFits(channel, cb) && sp < 4 && 0 !in name
    case Data(channel, _) => IdFits(channel, cb) && sp < 4
    case DataFirst(channel, total, _) => IdFits(channel, cb) && IdFits(total, sp)
    case Close(channel) => IdFits(channel, cb) && sp < 4
    case Other(cmd) => cb < 4 && sp < 4 && cmd < 0x10 && !(1 <= cmd <= 5)
  }

  /** Command in the upper half of the first byte, the widths in the lower. */
  function FirstByte(cmd: byte, sp: byte, cb: byte): byte
    requires cmd < 0x10 && sp < 4 && cb < 4
  {
    0x10 * cmd as int + 4 * sp as int + cb as int
  }

  function CommandOf(pdu: DvcPdu): byte {
    match pdu
    case Create(_, _) => 1
    case DataFirst(_, _, _) => 2
    case Data(_, _) => 3
    case Close(_) => 4
    case Capabilities(_) => 5
    case Other(cmd) => cmd
  }

  function PrintBody(pdu: DvcPdu, cb: byte, sp: byte, tail: bytes): bytes
    requires Printable(pdu, cb, sp)
  {
    match pdu
    case Create(channel, name) => PrintId(channel, cb) + (name + [0] + tail)
    case DataFirst(channel, total, data) => PrintId(channel, cb) + (PrintId(total, sp) + data)
    case Data(channel, data) => PrintId(channel, cb) + data
    case Close(channel) => PrintId(channel, cb) + tail
    case Capabilities(version) => [0] + U16Le(version) + tail
    case Other(_) => tail
  }

  function PrintPdu(pdu: DvcPdu, cb: byte, sp: byte, tail: bytes): bytes
    requires Printable(pdu, cb, sp)
  {
    [FirstByte(CommandOf(pdu), sp, cb)] + PrintBody(pdu, cb, sp, tail)
  }

  lemma {:induction false} NameEnds(name: bytes, tail: bytes)
    requires 0 !in name
    ensures UpToZero(name + [0] + tail) == name
    decreases |name|
  {
    if name == [] {
      assert name + [0] + tail == [0] + tail;
    } else {
      assert 0 !in name[1..];
      NameEnds(name[1..], tail);
      assert (name + [0] + tail)[1..] == name[1..] + [0] + tail;
    }
  }

  lemma PrintedIdReads(id: u32, code: byte, rest: bytes)
    requires IdFits(id, code)
    ensures ChannelIdAt(PrintId(id, code) + rest, code) == Ok(id) && |PrintId(id, code)| == IdWidth(code)
    ensures (PrintId(id, code) + rest)[IdWidth(code)..] == rest
  {
    hide U16Le, U16LeAt, U32Le, U32LeAt;
    if code == 1 {
      U16LeIn(PrintId(id, code) + rest, 0, id);
    } else if code >= 2 {
      U32LeIn(PrintId(id, code) + rest, 0, id);
    }
  }

  lemma HeaderSplits(cmd: byte, sp: byte, cb: byte)
    requires cmd < 0x10 && sp < 4 && cb < 4
    ensures var h: int := FirstByte(cmd, sp, cb); h / 0x10 == cmd && h / 4 % 4 == sp && h % 4 == cb
  {
    DigitsOfHeader(cmd, sp, cb);
  }

  lemma HeaderParses(cmd: byte, sp: byte, cb: byte, rest: bytes)
    requires cmd < 0x10 && sp < 4 && cb < 4
    ensures Parsed([FirstByte(cmd, sp, cb)] + rest) == ParsedBody(cmd, sp, cb, rest)
  {
    hide ParsedBody, FirstByte;
    HeaderSplits(cmd, sp, cb);
    assert ([FirstByte(cmd, sp, cb)] + rest)[1..] == rest;
  }

  lemma DigitsOfHeader(cmd: int, sp: int, cb: int)
    requires 0 <= cmd && 0 <= sp < 4 && 0 <= cb < 4
    ensures var h := 0x10 * cmd + 4 * sp + cb; h / 0x10 == cmd && h / 4 % 4 == sp && h % 4 == cb
  {
  }

  lemma BodyReadsBack(pdu: DvcPdu, cb: byte, sp: byte, tail: bytes)
    requires Printable(pdu, cb, sp)
    ensures ParsedBody(CommandOf(pdu), sp, cb, PrintBody(pdu, cb, sp, tail)) == Ok(pdu)
  {
    hide ChannelIdAt, IdWidth, PrintId, U16Le, U16LeAt, UpToZero;
    match pdu
    case Create(channel, name) =>
      PrintedIdReads(channel, cb, name + [0] + tail);
      NameEnds(name, tail);
    case DataFirst(channel, total, data) =>
      PrintedIdReads(channel, cb, PrintId(total, sp) + data);
      PrintedIdReads(total, sp, data);
    case Data(channel, data) => PrintedIdReads(channel, cb, data);
    case Close(channel) => PrintedIdReads(channel, cb, tail);
    case Capabilities(version) => U16LeIn(PrintBody(pdu, cb, sp, tail), 1, version);
    case Other(_) =>
  }

  /** Every PDU reads back, at every width that holds its ids; a created channel's name ends at its zero. */
  lemma PduReadsBack(pdu: DvcPdu, cb: byte, sp: byte, tail: bytes)
    requires Printable(pdu, cb, sp)
    ensures Parsed(PrintPdu(pdu, cb, sp, tail)) == Ok(pdu)
  {
    hide Parsed, ParsedBody, PrintBody, FirstByte;
    HeaderParses(CommandOf(pdu), sp, cb, PrintBody(pdu, cb, sp, tail));
    BodyReadsBack(pdu, cb, sp, tail);
  }

  /**
   From any prior state of the reassembler, the chunks of a data PDU yield nothing until the last one,
   and then a message that parses to exactly the channel and payload sent.
   */
  lemma DataCrossesChannel(st: VChannel.Reassembly, channel: u32, payload: bytes)
    ensures var results := VChannel.PushedAll(st, VChannel.Chunks(DataPdu(channel, payload))).0;
            && |results| == VChannel.ChunkCount(|DataPdu(channel, payload)|)
            && (forall k :: 0 <= k < |results| - 1 ==> results[k] == Ok(None))
            && results[|results| - 1].Ok? && results[|results| - 1].value.Some?
            && Parsed(results[|results| - 1].value.value) == Ok(Data(channel, payload))
  {
    hide VChannel.PushedAll, VChannel.Chunks, Parsed, DataPdu;
    VChannel.ChunksShape(DataPdu(channel, payload));
    VChannel.MessageReassembles(st, DataPdu(channel, payload));
    DataReadsBack(channel, payload);
  }

  /** A data PDU is printed in the narrowest width, with nothing in the upper half of its lower nibble. */
  lemma DataIsStandard(channel: u32, payload: bytes)
    ensures var cb: byte := if channel < 0x100 then 0 else if channel < 0x1_0000 then 1 else 2;
            IdFits(channel, cb) && DataPdu(channel, payload) == PrintPdu(Data(channel, payload), cb, 0, [])
  {
    hide U16Le, U32Le;
  }

  /** PDUs without a header byte, or cut off in an id. */
  lemma PduErrs(pdu: bytes, id: bytes, code: byte)
    ensures pdu == [] ==> Parsed(pdu) == Err(Short(1, 0))
    ensures var width := if code == 0 then 1 else if code == 1 then 2 else 4;
            |id| < width ==> ChannelIdAt(id, code) == Err(Short(width, |id|))
    ensures |id| < 3 ==> ParsedBody(5, 0, code, id) == Err(Short(3, |id|))
  {
  }
}
