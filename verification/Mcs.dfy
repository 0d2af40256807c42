/** MCS domain PDUs: sections 2.2.1.5 to 2.2.1.9 of [MS-RDPBCGR]. User ids travel as 16-bit offsets from 1001. */
module Mcs {
  import opened Prelude
  import Per

  const MCS_BASE := 1001
  const IO_CHANNEL: u16 := 1003

  const ERECT_DOMAIN_REQUEST: byte := 1
  const ATTACH_USER_REQUEST: byte := 10
  const ATTACH_USER_CONFIRM: byte := 11
  const CHANNEL_JOIN_REQUEST: byte := 14
  const CHANNEL_JOIN_CONFIRM: byte := 15
  const SEND_DATA_REQUEST: byte := 25
  const SEND_DATA_INDICATION: byte := 26

  function Choice(index: byte): byte
    requires index < 0x40
  {
    4 * index as int
  }

  /** 16-bit offsets wrap around. */
  function Initiator(user: u16): u16 {
    (user - MCS_BASE) % 0x1_0000
  }

  function UserOf(initiator: u16): u16 {
    (initiator + MCS_BASE) % 0x1_0000
  }

  lemma UserOfInitiator(user: u16)
    ensures UserOf(Initiator(user)) == user
  {
  }

  function ErectDomainRequest(): bytes {
    [Choice(ERECT_DOMAIN_REQUEST), 0x01, 0x00, 0x01, 0x00]
  }

  function AttachUserRequest(): bytes {
    [Choice(ATTACH_USER_REQUEST)]
  }

  function ChannelJoinRequest(user: u16, channel: u16): bytes {
    [Choice(CHANNEL_JOIN_REQUEST)] + U16Be(Initiator(user)) + U16Be(channel)
  }

  function AttachedUser(buf: bytes): Result<u16> {
    if |buf| < 2 then Err(Short(2, |buf|))
    else if buf[0] / 4 != ATTACH_USER_CONFIRM then Err(Protocol(NotAttachConfirm))
    else if buf[1] != 0 then Err(NegotiationFailure(AttachUserRefused))
    else if buf[0] / 2 % 2 == 0 || |buf| < 4 then Err(Protocol(MissingInitiator))
    else Ok(UserOf(U16BeAt(buf, 2)))
  }

  /** The confirmed channel id, or the requested one when the confirm does not carry it. */
  function JoinedChannel(buf: bytes): Result<u16> {
    if |buf| < 2 then Err(Short(2, |buf|))
    else if buf[0] / 4 != CHANNEL_JOIN_CONFIRM then Err(Protocol(NotJoinConfirm))
    else if buf[1] != 0 then Err(NegotiationFailure(ChannelJoinRefused))
    else if |buf| < 6 then Err(Short(4, |buf| - 2))
    else if buf[0] / 2 % 2 == 0 then Ok(U16BeAt(buf, 4))
    else if |buf| < 8 then Err(Short(2, |buf| - 6))
    else Ok(U16BeAt(buf, 6))
  }

  function SendDataRequest(user: u16, channel: u16, data: bytes): (r: bytes)
    ensures r != []
  {
    [Choice(SEND_DATA_REQUEST)] + U16Be(Initiator(user)) + U16Be(channel) + [0x70] + Per.Length(|data|) + data
  }

  /**
   What a server that gets the data as an indication reads: channel and data below 0x4000 bytes, a refusal from there
   on.
   */
  method BuildSendDataRequest(user: u16, channel: u16, data: bytes) returns (out: bytes)
    ensures out == SendDataRequest(user, channel, data)
    ensures Indicated(AsIndication(out))
            == if |data| < 0x4000 then Ok((channel, data)) else Err(Protocol(FragmentedPerLength))
  {
    IndicationReadsBack(user, channel, data);
    out := [Choice(SEND_DATA_REQUEST)];
    out := out + U16Be(Initiator(user));
    out := out + U16Be(channel);
    out := out + [0x70];
    out := Per.WriteLength(out, |data|);
    out := out + data;
  }

  /** The same PDU the other way round, as a server sends it. */
  function AsIndication(request: bytes): bytes
    requires request != []
  {
    [Choice(SEND_DATA_INDICATION)] + request[1..]
  }

  /** Channel and payload of a Send Data Indication. */
  function Indicated(buf: bytes): Result<(u16, bytes)> {
    if buf == [] then Err(Short(1, 0))
    else if buf[0] / 4 != SEND_DATA_INDICATION then Err(Protocol(NotSendDataIndication))
    else if |buf| < 6 then Err(Short(5, |buf| - 1))
    else
      var (len, used) :- Per.LengthAt(buf[6..]);
      var payload := buf[6 + used..];
      if |payload| < len then Err(Short(len, |payload|)) else Ok((U16BeAt(buf, 3), payload[..len]))
  }

  method ParseSendDataIndication(buf: bytes) returns (r: Result<(u16, bytes)>)
    ensures r == Indicated(buf)
  {
    if buf == [] {
      return Err(Short(1, 0));
    }
    var tag := buf[0];
    var b := buf[1..];
    if tag / 4 != SEND_DATA_INDICATION {
      return Err(Protocol(NotSendDataIndication));
    }
    if |b| < 5 {
      return Err(Short(5, |b|));
    }
    b := b[2..];
    var channel := U16BeAt(b, 0);
    b := b[2..];
    b := b[1..];
    assert b == buf[6..];
    var len;
    b, len := Per.ReadLength(b);
    if len.Err? {
      return Err(len.error);
    }
    if |b| < len.value {
      return Err(Short(len.value, |b|));
    }
    var consumed := |buf| - |b|;
    assert b == buf[6..][consumed - 6..] == buf[consumed..];
    assert b[..len.value] == buf[consumed..consumed + len.value];
    r := Ok((channel, buf[consumed..consumed + len.value]));
  }

  /**
   A payload sent to a channel and re-tagged as an indication reads back exactly below 0x4000 bytes; a longer one is
   refused.
   */
  lemma IndicationReadsBack(user: u16, channel: u16, data: bytes)
    ensures Indicated(AsIndication(SendDataRequest(user, channel, data)))
            == if |data| < 0x4000 then Ok((channel, data)) else Err(Protocol(FragmentedPerLength))
  {
    hide U16Be, U16BeAt, Per.Length, Per.LengthAt, Initiator;
    var request := SendDataRequest(user, channel, data);
    assert request[1..] == U16Be(Initiator(user)) + U16Be(channel) + [0x70] + Per.Length(|data|) + data;
    var buf := AsIndication(request);
    U16BeIn(buf, 3, channel);
    assert buf[6..] == Per.Length(|data|) + data;
    Per.LengthReadsBack(|data|, data);
    if |data| < 0x4000 {
      assert buf[6 + |Per.Length(|data|)|..] == data && data[..|data|] == data;
    }
  }

  /** Confirms as a server encodes them, with anything after them. */
  lemma ConfirmsReadBack(user: u16, requested: u16, joined: u16, rest: bytes)
    ensures AttachedUser([Choice(ATTACH_USER_CONFIRM) as int + 2, 0] + U16Be(Initiator(user)) + rest) == Ok(user)
    ensures JoinedChannel([Choice(CHANNEL_JOIN_CONFIRM), 0] + U16Be(Initiator(user)) + U16Be(requested) + rest)
            == Ok(requested)
    ensures JoinedChannel([Choice(CHANNEL_JOIN_CONFIRM) as int + 2, 0] + U16Be(Initiator(user)) + U16Be(requested)
              + U16Be(joined) + rest)
            == Ok(joined)
  {
    hide U16Be, U16BeAt, Initiator, UserOf;
    UserOfInitiator(user);
    U16BeIn([Choice(ATTACH_USER_CONFIRM) as int + 2, 0] + U16Be(Initiator(user)) + rest, 2, Initiator(user));
    U16BeIn([Choice(CHANNEL_JOIN_CONFIRM), 0] + U16Be(Initiator(user)) + U16Be(requested) + rest, 4, requested);
    U16BeIn([Choice(CHANNEL_JOIN_CONFIRM) as int + 2, 0] + U16Be(Initiator(user)) + U16Be(requested) + U16Be(joined)
      + rest, 6, joined);
  }

  // ----- Errors -----

  /** Confirms are refused, in this order: cut off, of another kind, unsuccessful, without the field asked for. */
  lemma ConfirmErrs(buf: bytes)
    ensures |buf| < 2 ==> AttachedUser(buf) == JoinedChannel(buf) == Err(Short(2, |buf|))
    ensures |buf| >= 2 && !(0x2C <= buf[0] < 0x30) ==> AttachedUser(buf) == Err(Protocol(NotAttachConfirm))
    ensures |buf| >= 2 && !(0x3C <= buf[0] < 0x40) ==> JoinedChannel(buf) == Err(Protocol(NotJoinConfirm))
    ensures |buf| >= 2 && 0x2C <= buf[0] < 0x30 && buf[1] != 0 ==>
              AttachedUser(buf) == Err(NegotiationFailure(AttachUserRefused))
    ensures |buf| >= 2 && 0x3C <= buf[0] < 0x40 && buf[1] != 0 ==>
              JoinedChannel(buf) == Err(NegotiationFailure(ChannelJoinRefused))
    ensures |buf| >= 2 && 0x2C <= buf[0] < 0x30 && buf[1] == 0 ==>
              if buf[0] < 0x2E || |buf| < 4 then AttachedUser(buf) == Err(Protocol(MissingInitiator))
              else AttachedUser(buf).Ok?
    ensures |buf| >= 2 && 0x3C <= buf[0] < 0x40 && buf[1] == 0 ==>
              if |buf| < 6 then JoinedChannel(buf) == Err(Short(4, |buf| - 2))
              else if buf[0] >= 0x3E && |buf| < 8 then JoinedChannel(buf) == Err(Short(2, |buf| - 6))
              else JoinedChannel(buf).Ok?
  {
    hide U16BeAt;
  }

  /** A Send Data Indication cut off in its header, of another kind, or short of the data it announces. */
  lemma IndicationErrs(buf: bytes)
    ensures buf == [] ==> Indicated(buf) == Err(Short(1, 0))
    ensures buf != [] && !(0x68 <= buf[0] < 0x6C) ==> Indicated(buf) == Err(Protocol(NotSendDataIndication))
    ensures 1 <= |buf| < 6 && 0x68 <= buf[0] < 0x6C ==> Indicated(buf) == Err(Short(5, |buf| - 1))
    ensures |buf| >= 7 && 0x68 <= buf[0] < 0x6C && buf[6] < 0x80 && |buf| - 7 < buf[6] as int ==>
              Indicated(buf) == Err(Short(buf[6], |buf| - 7))
  {
    hide U16BeAt;
  }
}
