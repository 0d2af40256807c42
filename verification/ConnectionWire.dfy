/** The client's encodings in the connection sequence, and what a server makes of them. */
module ConnectionWire {
  import opened Prelude
  import opened Mcs
  import opened SharePdu
  import opened Connection
  import RdpServer
  import Crypto
  import Per

  lemma WireUserReads(user: u16, b: bytes, i: nat)
    requires i + 2 <= |b| && b[i..i + 2] == U16Be(Initiator(user))
    ensures RdpServer.WireUser(user) == U16Be(Initiator(user)) && RdpServer.UserAt(b, i) == user
  {
    WireInitiator(user);
    assert b[i] == b[i..i + 2][0] && b[i + 1] == b[i..i + 2][1];
  }

  lemma WireInitiator(user: u16)
    ensures Initiator(user) == if user >= 1001 then user - 1001 else user + 0x1_0000 - 1001
  {
  }

  lemma WordReads(v: u16, b: bytes, i: nat)
    requires i + 2 <= |b| && b[i..i + 2] == U16Be(v)
    ensures RdpServer.Bytes(v) == U16Be(v) && RdpServer.Word(b, i) == v
  {
    assert b[i] == b[i..i + 2][0] && b[i + 1] == b[i..i + 2][1];
  }

  /** The server reads the requests of the channel connection as they were meant. */
  lemma JoinIsRead(user: u16, channel: u16)
    ensures RdpServer.ReadRequest(ErectDomainRequest()) == Some(RdpServer.ErectDomain)
    ensures RdpServer.ReadRequest(AttachUserRequest()) == Some(RdpServer.AttachUser)
    ensures RdpServer.ReadRequest(ChannelJoinRequest(user, channel)) == Some(RdpServer.JoinChannel(user, channel))
  {
    hide U16Be, Initiator, RdpServer.UserAt, RdpServer.Word;
    var pdu := ChannelJoinRequest(user, channel);
    assert |pdu| == 5 && pdu[0] == 0x38;
    WireUserReads(user, pdu, 1);
    WordReads(channel, pdu, 3);
  }

  lemma SizedReads(data: bytes)
    requires |data| < 0x4000
    ensures RdpServer.Sized(data) == Per.Length(|data|) + data
    ensures RdpServer.Unsized(Per.Length(|data|) + data) == Some(data)
  {
    var b := Per.Length(|data|) + data;
    if |data| >= 0x80 {
      assert 0x8000 + |data| == 0x100 * (0x80 + |data| / 0x100) + |data| % 0x100;
      assert b[2..] == data;
    } else {
      assert b[1..] == data;
    }
  }

  /** And the data sent on a channel, below 0x4000 bytes. */
  lemma DataIsRead(user: u16, channel: u16, data: bytes)
    requires |data| < 0x4000
    ensures RdpServer.ReadRequest(SendDataRequest(user, channel, data)) == Some(RdpServer.SendData(user, channel, data))
    ensures RdpServer.Indication(user, channel, data) == AsIndication(SendDataRequest(user, channel, data))
  {
    hide U16Be, Initiator, RdpServer.UserAt, RdpServer.Word, RdpServer.Unsized, RdpServer.Sized, RdpServer.WireUser,
      RdpServer.Bytes, Per.Length;
    var pdu := SendDataRequest(user, channel, data);
    WireUserReads(user, pdu, 1);
    WordReads(channel, pdu, 3);
    SizedReads(data);
    assert pdu[6..] == Per.Length(|data|) + data;
    assert pdu[1..] == U16Be(Initiator(user)) + U16Be(channel) + [0x70] + (Per.Length(|data|) + data);
  }

  lemma ShareIsControl(kind: u16, source: u16, body: bytes)
    requires kind < 0x10 && |body| + 6 < 0x1_0000
    ensures RdpServer.Share(kind, source, body) == ShareControl(kind, source, body)
  {
    hide Versioned, U16Le, RdpServer.Low;
    VersionAdded(kind);
    LowIsLe(|body| + 6);
    LowIsLe(0x10 + kind);
    LowIsLe(source);
  }

  lemma VersionAdded(kind: u16)
    requires kind < 0x10
    ensures Versioned(kind) == 0x10 + kind
  {
  }

  lemma LowIsLe(v: u16)
    ensures RdpServer.Low(v) == U16Le(v)
  {
  }

  lemma DataIsShareData(source: u16, shareId: u32, kind: byte, body: bytes)
    requires |body| + 18 < 0x1_0000
    ensures RdpServer.Data(source, shareId, kind, body) == ShareData(source, shareId, kind, body)
  {
    hide U32Le, ShareControl, RdpServer.Share;
    var data := DataHeader(shareId, kind, |body|) + body;
    assert RdpServer.Low(|body| + 4) == U16Le((|body| + 4) % 0x1_0000) && U16Le(0) == [0, 0];
    assert data == U32Le(shareId) + [0, 1] + RdpServer.Low(|body| + 4) + [kind, 0, 0, 0] + body;
    ShareIsControl(7, source, data);
  }

  // ----- Confirm Active and finalization -----

  lemma {:induction false} FlattenLast(parts: seq<bytes>, last: bytes)
    ensures Flatten(parts + [last]) == Flatten(parts) + last
    decreases |parts|
  {
    if parts == [] {
      assert [last][1..] == [] && parts + [last] == [last];
    } else {
      hide Flatten;
      FlattenLast(parts[1..], last);
      FlattenNext(parts);
      FlattenNext(parts + [last]);
      assert (parts + [last])[1..] == parts[1..] + [last];
      Regroup(parts[0], Flatten(parts[1..]), last);
    }
  }

  lemma FlattenNext(parts: seq<bytes>)
    requires parts != []
    ensures Flatten(parts) == parts[0] + Flatten(parts[1..])
  {
  }

  lemma {:induction false} FlattenJoins(parts: seq<bytes>)
    ensures Flatten(parts) == RdpServer.Joined(parts)
    decreases |parts|
  {
    if parts != [] {
      hide Flatten;
      var init, last := parts[..|parts| - 1], parts[|parts| - 1];
      FlattenJoins(init);
      FlattenLast(init, last);
      assert parts == init + [last];
    }
  }

  lemma ConfirmIsStandard(user: u16, shareId: u32, sets: seq<bytes>)
    requires |RdpServer.Joined(sets)| + 26 < 0x1_0000 && |sets| < 0x1_0000
    ensures ConfirmActive(user, shareId, sets) == RdpServer.ConfirmActive(user, shareId, sets)
  {
    hide Flatten, RdpServer.Joined, U32Le, ShareControl, RdpServer.Share, Crypto.Ascii;
    FlattenJoins(sets);
    var caps := Flatten(sets);
    SourceDescriptor();
    assert U16Le(0x03EA) == [0xEA, 0x03] && U16Le(6) == [6, 0] && U16Le(0) == [0, 0];
    var body := U32Le(shareId) + [0xEA, 0x03, 6, 0] + RdpServer.Low(|caps| + 4) + [0x4D, 0x53, 0x54, 0x53, 0x43, 0]
      + RdpServer.Low(|sets|) + [0, 0] + caps;
    assert body == U32Le(shareId) + U16Le(0x03EA) + U16Le(6) + U16Le(|caps| + 4) + Crypto.Ascii("MSTSC\0")
                   + U16Le(|sets|) + U16Le(0) + caps;
    ShareIsControl(3, user, body);
  }

  lemma SourceDescriptor()
    ensures Crypto.Ascii("MSTSC\0") == [0x4D, 0x53, 0x54, 0x53, 0x43, 0]
  {
  }

  lemma FinalBodies()
    ensures Synchronize(IO_CHANNEL) == [1, 0, 0xEB, 0x03]
    ensures Control(CTRLACTION_COOPERATE) == [4, 0, 0, 0, 0, 0, 0, 0]
    ensures Control(CTRLACTION_REQUEST_CONTROL) == [1, 0, 0, 0, 0, 0, 0, 0]
    ensures FontList() == [0, 0, 0, 0, 3, 0, 0x32, 0]
  {
  }

  /** The closing PDUs of the client, in order. */
  function ClosingPdus(cfg: Settings, user: u16, shareId: u32): (r: seq<bytes>)
    ensures |r| == 6
  {
    [OnIo(user, cfg.clientInfo), OnIo(user, ConfirmActive(user, shareId, cfg.capabilities))] + FinalPdus(user, shareId)
  }

  /** Client Info and capability sets fit one PDU each. */
  ghost predicate InfoFits(cfg: Settings) {
    |cfg.clientInfo| < 0x4000 && |cfg.capabilities| < 0x1_0000 && |RdpServer.Joined(cfg.capabilities)| + 26 < 0x4000
  }

  /** Each PDU is read as data of the user on the I/O channel, with the payload the standard gives it. */
  ghost predicate ClosingRead(cfg: Settings, pdus: seq<bytes>, user: u16, shareId: u32)
    requires InfoFits(cfg)
  {
    var payloads := RdpServer.ClosingPayloads(user, cfg.clientInfo, shareId, cfg.capabilities);
    && |pdus| == 6
    && forall k :: 0 <= k < 6 ==> RdpServer.ReadRequest(pdus[k]) == Some(RdpServer.SendData(user, 1003, payloads[k]))
  }

  lemma ClosingIsRead(cfg: Settings, user: u16, shareId: u32)
    requires InfoFits(cfg)
    ensures ClosingRead(cfg, ClosingPdus(cfg, user, shareId), user, shareId)
  {
    hide RdpServer.ReadRequest, ClosingPdus, RdpServer.ClosingPayloads, RdpServer.Joined;
    forall k: nat | k < 6
      ensures RdpServer.ReadRequest(ClosingPdus(cfg, user, shareId)[k])
              == Some(RdpServer.SendData(
                   user, 1003, RdpServer.ClosingPayloads(user, cfg.clientInfo, shareId, cfg.capabilities)[k]))
    {
      ClosingPduIsRead(cfg, user, shareId, k);
    }
  }

  lemma ClosingPduIsRead(cfg: Settings, user: u16, shareId: u32, k: nat)
    requires k < 6 && InfoFits(cfg)
    ensures RdpServer.ReadRequest(ClosingPdus(cfg, user, shareId)[k])
            == Some(RdpServer.SendData(
                 user, 1003, RdpServer.ClosingPayloads(user, cfg.clientInfo, shareId, cfg.capabilities)[k]))
  {
    hide RdpServer.ReadRequest, SendDataRequest, ShareData, RdpServer.Data, RdpServer.Joined, RdpServer.ConfirmActive,
      Connection.ConfirmActive, Synchronize, Control, FontList, U32Le;
    ConfirmIsStandard(user, shareId, cfg.capabilities);
    FinalBodies();
    var payload := RdpServer.ClosingPayloads(user, cfg.clientInfo, shareId, cfg.capabilities)[k];
    if k >= 2 {
      var kind: byte := if k == 2 then 31 else if k == 5 then 39 else 20;
      var body: bytes := if k == 2 then Synchronize(IO_CHANNEL) else if k == 3 then Control(CTRLACTION_COOPERATE)
        else if k == 4 then Control(CTRLACTION_REQUEST_CONTROL) else FontList();
      DataIsShareData(user, shareId, kind, body);
      DataSize(user, shareId, kind, body);
    } else {
      ConfirmSize(user, shareId, cfg.capabilities);
    }
    DataIsRead(user, IO_CHANNEL, payload);
  }

  lemma ConfirmSize(user: u16, shareId: u32, sets: seq<bytes>)
    requires |RdpServer.Joined(sets)| + 26 < 0x1_0000 && |sets| < 0x1_0000
    ensures |RdpServer.ConfirmActive(user, shareId, sets)| == |RdpServer.Joined(sets)| + 26
  {
    hide RdpServer.Joined, U32Le;
  }

  // ----- The channel connection -----

  /** The joins in order: user channel, I/O channel, the server's channels, its message channel. */
  function ExpectedJoins(user: u16, server: ServerNetwork): seq<u16> {
    match server.messageChannel
    case None => [user, 1003] + server.channelIds
    case Some(id) => [user, 1003] + server.channelIds + [id]
  }

  /** What a server reads from the beginning of what a client sent. */
  ghost predicate OpeningRead(cfg: Settings, sent: seq<bytes>, user: u16, server: ServerNetwork) {
    var joins := ExpectedJoins(user, server);
    && |sent| >= 3 + |joins| && sent[0] == cfg.connectInitial
    && RdpServer.ReadRequest(sent[1]) == Some(RdpServer.ErectDomain)
    && RdpServer.ReadRequest(sent[2]) == Some(RdpServer.AttachUser)
    && forall k :: 0 <= k < |joins| ==>
         RdpServer.ReadRequest(sent[3 + k]) == Some(RdpServer.JoinChannel(user, joins[k]))
  }

  lemma OpeningIsRead(cfg: Settings, sent: seq<bytes>, user: u16, server: ServerNetwork)
    requires |sent| >= 3 + |ToJoin(user, server)|
    requires sent[..3] == [cfg.connectInitial, ErectDomainRequest(), AttachUserRequest()]
    requires forall k :: 0 <= k < |ToJoin(user, server)| ==>
               sent[3 + k] == ChannelJoinRequest(user, ToJoin(user, server)[k])
    ensures OpeningRead(cfg, sent, user, server)
  {
    hide ErectDomainRequest, AttachUserRequest, ChannelJoinRequest, RdpServer.ReadRequest;
    var joins := ExpectedJoins(user, server);
    assert joins == ToJoin(user, server);
    JoinIsRead(user, 0);
    assert sent[1] == sent[..3][1] && sent[2] == sent[..3][2] && sent[0] == sent[..3][0];
    forall k | 0 <= k < |joins|
      ensures RdpServer.ReadRequest(sent[3 + k]) == Some(RdpServer.JoinChannel(user, joins[k]))
    {
      JoinIsRead(user, joins[k]);
    }
  }

  /** A server reads everything a client sent up to the end of the connection sequence. */
  ghost predicate SessionRead(cfg: Settings, sent: seq<bytes>, user: u16, shareId: u32, server: ServerNetwork)
    requires InfoFits(cfg)
  {
    OpeningRead(cfg, sent, user, server) && ClosingRead(cfg, sent[3 + |ExpectedJoins(user, server)|..], user, shareId)
  }
}
