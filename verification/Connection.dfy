/** The connection sequence: section 1.3.1.1 of [MS-RDPBCGR]. */
module Connection {
  import opened Prelude
  import opened Mcs
  import opened SharePdu
  import Crypto

  const MAX_SKIP := 16
  const CTRLACTION_REQUEST_CONTROL: u16 := 0x0001
  const CTRLACTION_COOPERATE: u16 := 0x0004
  const PROTOCOL_UDPFECR: u16 := 0x01
  const PROTOCOL_UDPFECL: u16 := 0x02

  datatype ServerNetwork = ServerNetwork(ioChannel: u16, channelIds: seq<u16>, messageChannel: Option<u16>)

  /**
   What the connection sequence takes from the settings: the Connect Initial and Client Info PDUs, the
   capability sets, and the parser of the server's Connect Response.
   */
  datatype Settings = Settings(
    connectInitial: bytes, clientInfo: bytes, capabilities: seq<bytes>, networkData: bytes -> Result<ServerNetwork>)

  datatype InitiateRequest = InitiateRequest(requestId: u32, protocol: u16, cookie: bytes)

  datatype Session = Session(
    userId: u16, ioChannel: u16, channelIds: seq<u16>, shareId: u32, multitransport: Option<InitiateRequest>)

  // ----- The network -----

  /** What each `recv` will give, which sends will fail, what was sent so far and how often `recv` was called. */
  datatype Net = Net(inbox: seq<Result<bytes>>, faults: seq<Option<Error>>, sent: seq<bytes>, received: nat)

  datatype Step<T> = Step(result: Result<T>, net: Net)

  function Tail<T>(s: seq<T>): seq<T> {
    if s == [] then [] else s[1..]
  }

  function SendOn(n: Net, pdu: bytes): Step<()> {
    if n.faults != [] && n.faults[0].Some? then Step(Err(n.faults[0].value), n.(faults := Tail(n.faults)))
    else Step(Ok(()), n.(faults := Tail(n.faults), sent := n.sent + [pdu]))
  }

  function RecvOn(n: Net): Step<bytes> {
    Step(if n.inbox == [] then Err(Io) else n.inbox[0], n.(inbox := Tail(n.inbox), received := n.received + 1))
  }

  // ----- Basic settings exchange -----

  function SettingsExchanged(cfg: Settings, n: Net): Step<ServerNetwork> {
    var s := SendOn(n, cfg.connectInitial);
    if s.result.Err? then Step(Err(s.result.error), s.net)
    else
      var r := RecvOn(s.net);
      if r.result.Err? then Step(Err(r.result.error), r.net) else Step(cfg.networkData(r.result.value), r.net)
  }

  // ----- Channel connection -----

  /** User channel, I/O channel, server channels, message channel. */
  function ToJoin(user: u16, server: ServerNetwork): seq<u16> {
    [user, IO_CHANNEL] + server.channelIds + if server.messageChannel.Some? then [server.messageChannel.value] else []
  }

  function Joined(user: u16, channels: seq<u16>, n: Net, joined: seq<u16>): Step<seq<u16>>
    decreases |channels|
  {
    if channels == [] then Step(Ok(joined), n)
    else
      var s := SendOn(n, ChannelJoinRequest(user, channels[0]));
      if s.result.Err? then Step(Err(s.result.error), s.net)
      else
        var r := RecvOn(s.net);
        if r.result.Err? then Step(Err(r.result.error), r.net)
        else
          var confirmed := JoinedChannel(r.result.value);
          if confirmed.Err? then Step(Err(confirmed.error), r.net)
          else Joined(user, channels[1..], r.net, joined + if Wanted(user, channels[0]) then [confirmed.value] else [])
  }

  /** Confirmed ids are kept for requests other than the user and I/O channels. */
  predicate Wanted(user: u16, channel: u16) {
    channel != user && channel != IO_CHANNEL
  }

  function Attached(n: Net): Step<u16> {
    var e := SendOn(n, ErectDomainRequest());
    if e.result.Err? then Step(Err(e.result.error), e.net)
    else
      var a := SendOn(e.net, AttachUserRequest());
      if a.result.Err? then Step(Err(a.result.error), a.net)
      else
        var r := RecvOn(a.net);
        if r.result.Err? then Step(Err(r.result.error), r.net) else Step(AttachedUser(r.result.value), r.net)
  }

  function ChannelsConnected(server: ServerNetwork, n: Net): Step<(u16, seq<u16>)> {
    var a := Attached(n);
    if a.result.Err? then Step(Err(a.result.error), a.net)
    else
      var user := a.result.value;
      var j := Joined(user, ToJoin(user, server), a.net, []);
      if j.result.Err? then Step(Err(j.result.error), j.net) else Step(Ok((user, j.result.value)), j.net)
  }

  // ----- The I/O channel -----

  function OnIo(user: u16, pdu: bytes): bytes {
    SendDataRequest(user, IO_CHANNEL, pdu)
  }

  /** The payload of the next Send Data Indication, whatever its channel. */
  function RecvOnIo(n: Net): Step<bytes> {
    var r := RecvOn(n);
    if r.result.Err? then r
    else
      match Indicated(r.result.value)
      case Err(e) => Step(Err(e), r.net)
      case Ok((_, data)) => Step(Ok(data), r.net)
  }

  // ----- Demand Active -----

  datatype DemandActive = DemandActive(shareId: u32, capabilities: seq<(u16, bytes)>)

  function Capabilities(b: bytes, count: nat, sets: seq<(u16, bytes)>): Result<seq<(u16, bytes)>> {
    if count == 0 then Ok(sets)
    else if |b| < 4 then Err(Short(4, |b|))
    else
      var kind, len := U16LeAt(b, 0), U16LeAt(b, 2);
      if len < 4 || |b| < len then Err(Protocol(BadCapabilityLength))
      else Capabilities(b[len..], count - 1, sets + [(kind, b[4..len])])
  }

  function ParsedDemand(body: bytes): Result<DemandActive> {
    if |body| < 8 then Err(Short(8, |body|))
    else
      var source := U16LeAt(body, 4);
      if |body| - 8 < source + 4 then Err(Short(source + 4, |body| - 8))
      else
        var b := body[8 + source..];
        var sets :- Capabilities(b[4..], U16LeAt(b, 0), []);
        Ok(DemandActive(U32LeAt(body, 0), sets))
  }

  method ParseDemandActive(body: bytes) returns (r: Result<DemandActive>)
    ensures r == ParsedDemand(body)
  {
    if |body| < 8 {
      return Err(Short(8, |body|));
    }
    var shareId := U32LeAt(body, 0);
    var source: int := U16LeAt(body, 4);
    if |body| - 8 < source + 4 {
      return Err(Short(source + 4, |body| - 8));
    }
    var b := body[8 + source..];
    var number := U16LeAt(b, 0);
    b := b[4..];
    ghost var all := b;
    var sets := [];
    for i := 0 to number
      invariant Capabilities(all, number, []) == Capabilities(b, number - i, sets)
    {
      if |b| < 4 {
        return Err(Short(4, |b|));
      }
      var kind := U16LeAt(b, 0);
      var len := U16LeAt(b, 2);
      if len < 4 || |b| < len {
        return Err(Protocol(BadCapabilityLength));
      }
      sets := sets + [(kind, b[4..len])];
      b := b[len..];
    }
    r := Ok(DemandActive(shareId, sets));
  }

  /** An Initiate Multitransport Request at offset 0 or 4, told by its protocol field. */
  function Detected(pdu: bytes): Option<InitiateRequest> {
    if |pdu| >= 24 && UdpProtocol(U16LeAt(pdu, 4)) then Some(RequestAt(pdu, 0))
    else if |pdu| >= 28 && UdpProtocol(U16LeAt(pdu, 8)) then Some(RequestAt(pdu, 4))
    else None
  }

  predicate UdpProtocol(protocol: u16) {
    protocol == PROTOCOL_UDPFECR || protocol == PROTOCOL_UDPFECL
  }

  function RequestAt(pdu: bytes, o: nat): InitiateRequest
    requires o + 24 <= |pdu|
  {
    InitiateRequest(U32LeAt(pdu, o), U16LeAt(pdu, o + 4), pdu[o + 8..o + 24])
  }

  /** Whether a payload is a share control PDU of type Demand Active. */
  predicate IsDemand(pdu: bytes) {
    ParsedControl(pdu).Ok? && ParsedControl(pdu).value.0.pduType == PDUTYPE_DEMANDACTIVE
  }

  /** The first multitransport request among the payloads that are not share control PDUs. */
  function Noticed(pdu: bytes, before: Option<InitiateRequest>): Option<InitiateRequest> {
    if ParsedControl(pdu).Err? && before.None? then Detected(pdu) else before
  }

  function DemandAwaited(n: Net, left: nat,
                         before: Option<InitiateRequest>): Step<(DemandActive, Option<InitiateRequest>)>
    decreases left
  {
    if left == 0 then Step(Err(Protocol(NoDemandActive)), n)
    else
      var r := RecvOnIo(n);
      if r.result.Err? then Step(Err(r.result.error), r.net)
      else if IsDemand(r.result.value) then
        match ParsedDemand(ParsedControl(r.result.value).value.1)
        case Err(e) => Step(Err(e), r.net)
        case Ok(demand) => Step(Ok((demand, before)), r.net)
      else DemandAwaited(r.net, left - 1, Noticed(r.result.value, before))
  }

  // ----- Confirm Active and finalization -----

  function Flatten(parts: seq<bytes>): bytes {
    if parts == [] then [] else parts[0] + Flatten(parts[1..])
  }

  function ConfirmActive(user: u16, shareId: u32, capabilities: seq<bytes>): bytes {
    var caps := Flatten(capabilities);
    ShareControl(PDUTYPE_CONFIRMACTIVE, user,
                 U32Le(shareId) + U16Le(0x03EA) + U16Le(6) + U16Le((|caps| + 4) % 0x1_0000) + Crypto.Ascii("MSTSC\0")
                 + U16Le(|capabilities| % 0x1_0000) + U16Le(0) + caps)
  }

  function Synchronize(target: u16): bytes {
    U16Le(1) + U16Le(target)
  }

  function Control(action: u16): bytes {
    U16Le(action) + U16Le(0) + U32Le(0)
  }

  function FontList(): bytes {
    U16Le(0) + U16Le(0) + U16Le(0x0003) + U16Le(0x0032)
  }

  /** The four finalization PDUs in order. */
  function FinalPdus(user: u16, shareId: u32): (r: seq<bytes>)
    ensures |r| == 4
  {
    [OnIo(user, ShareData(user, shareId, PDUTYPE2_SYNCHRONIZE, Synchronize(IO_CHANNEL))),
     OnIo(user, ShareData(user, shareId, PDUTYPE2_CONTROL, Control(CTRLACTION_COOPERATE))),
     OnIo(user, ShareData(user, shareId, PDUTYPE2_CONTROL, Control(CTRLACTION_REQUEST_CONTROL))),
     OnIo(user, ShareData(user, shareId, PDUTYPE2_FONTLIST, FontList()))]
  }

  function SendAll(n: Net, pdus: seq<bytes>): Step<()>
    decreases |pdus|
  {
    if pdus == [] then Step(Ok(()), n)
    else
      var s := SendOn(n, pdus[0]);
      if s.result.Err? then s else SendAll(s.net, pdus[1..])
  }

  predicate IsShareData(pdu: bytes) {
    ParsedControl(pdu).Ok? && ParsedData(ParsedControl(pdu).value.1).Ok?
  }

  /** Receive until four data PDUs were seen, at most `left` times. */
  function Drained(n: Net, left: nat, seen: nat): Step<()>
    decreases left
  {
    if left == 0 || seen >= 4 then Step(Ok(()), n)
    else
      var r := RecvOnIo(n);
      if r.result.Err? then Step(Err(r.result.error), r.net)
      else Drained(r.net, left - 1, seen + if IsShareData(r.result.value) then 1 else 0)
  }

  function Finalized(user: u16, shareId: u32, n: Net): Step<()> {
    var s := SendAll(n, FinalPdus(user, shareId));
    if s.result.Err? then s else Drained(s.net, MAX_SKIP, 0)
  }

  // ----- The whole sequence -----

  function Activated(cfg: Settings, user: u16, n: Net): Step<(DemandActive, Option<InitiateRequest>)> {
    var info := SendOn(n, OnIo(user, cfg.clientInfo));
    if info.result.Err? then Step(Err(info.result.error), info.net)
    else
      var d := DemandAwaited(info.net, MAX_SKIP, None);
      if d.result.Err? then d
      else
        var shareId := d.result.value.0.shareId;
        var c := SendOn(d.net, OnIo(user, ConfirmActive(user, shareId, cfg.capabilities)));
        if c.result.Err? then Step(Err(c.result.error), c.net)
        else
          var f := Finalized(user, shareId, c.net);
          if f.result.Err? then Step(Err(f.result.error), f.net) else Step(d.result, f.net)
  }

  function Established(cfg: Settings, n: Net): Step<Session> {
    var b := SettingsExchanged(cfg, n);
    if b.result.Err? then Step(Err(b.result.error), b.net)
    else
      var c := ChannelsConnected(b.result.value, b.net);
      if c.result.Err? then Step(Err(c.result.error), c.net)
      else
        var (user, ids) := c.result.value;
        var a := Activated(cfg, user, c.net);
        if a.result.Err? then Step(Err(a.result.error), a.net)
        else
          var (demand, multitransport) := a.result.value;
          Step(Ok(Session(user, IO_CHANNEL, ids, demand.shareId, multitransport)), a.net)
  }

  // ----- The transport object and the sequence over it -----

  class Transport {
    var inbox: seq<Result<bytes>>
    var faults: seq<Option<Error>>
    var sent: seq<bytes>
    var received: nat

    constructor (inbox: seq<Result<bytes>>, faults: seq<Option<Error>>)
      ensures View() == Net(inbox, faults, [], 0)
    {
      this.inbox, this.faults, sent, received := inbox, faults, [], 0;
    }

    ghost function View(): Net
      reads this
    {
      Net(inbox, faults, sent, received)
    }

    method Send(pdu: bytes) returns (r: Result<()>)
      modifies this
      ensures Step(r, View()) == SendOn(old(View()), pdu)
    {
      if faults != [] {
        var fault := faults[0];
        faults := faults[1..];
        if fault.Some? {
          return Err(fault.value);
        }
      }
      sent := sent + [pdu];
      r := Ok(());
    }

    method Recv() returns (r: Result<bytes>)
      modifies this
      ensures Step(r, View()) == RecvOn(old(View()))
    {
      received := received + 1;
      if inbox == [] {
        return Err(Io);
      }
      r := inbox[0];
      inbox := inbox[1..];
    }
  }

  method Establish(t: Transport, cfg: Settings) returns (r: Result<Session>)
    modifies t
    ensures Step(r, t.View()) == Established(cfg, old(t.View()))
  {
    hide SettingsExchanged, ChannelsConnected, DemandAwaited, Finalized, ConfirmActive, SendOn, OnIo;
    var server := BasicSettingsExchange(t, cfg);
    if server.Err? {
      return Err(server.error);
    }
    var connected := ChannelConnection(t, server.value);
    if connected.Err? {
      return Err(connected.error);
    }
    var (user, ids) := connected.value;
    var sent := SendOnIo(t, user, cfg.clientInfo);
    if sent.Err? {
      return Err(sent.error);
    }
    var awaited := WaitForDemandActive(t);
    if awaited.Err? {
      return Err(awaited.error);
    }
    var (demand, multitransport) := awaited.value;
    sent := SendOnIo(t, user, ConfirmActive(user, demand.shareId, cfg.capabilities));
    if sent.Err? {
      return Err(sent.error);
    }
    var final := Finalization(t, user, demand.shareId);
    if final.Err? {
      return Err(final.error);
    }
    r := Ok(Session(user, IO_CHANNEL, ids, demand.shareId, multitransport));
  }

  method BasicSettingsExchange(t: Transport, cfg: Settings) returns (r: Result<ServerNetwork>)
    modifies t
    ensures Step(r, t.View()) == SettingsExchanged(cfg, old(t.View()))
  {
    hide SendOn, RecvOn;
    var sent := t.Send(cfg.connectInitial);
    if sent.Err? {
      return Err(sent.error);
    }
    var response := t.Recv();
    if response.Err? {
      return Err(response.error);
    }
    r := cfg.networkData(response.value);
  }

  method ChannelConnection(t: Transport, server: ServerNetwork) returns (r: Result<(u16, seq<u16>)>)
    modifies t
    ensures Step(r, t.View()) == ChannelsConnected(server, old(t.View()))
  {
    hide SendOn, RecvOn, AttachedUser, JoinedChannel, ChannelJoinRequest, AttachUserRequest, ErectDomainRequest;
    var sent := t.Send(ErectDomainRequest());
    if sent.Err? {
      return Err(sent.error);
    }
    sent := t.Send(AttachUserRequest());
    if sent.Err? {
      return Err(sent.error);
    }
    var confirm := t.Recv();
    if confirm.Err? {
      return Err(confirm.error);
    }
    var attached := AttachedUser(confirm.value);
    if attached.Err? {
      return Err(attached.error);
    }
    var user := attached.value;
    var toJoin := [user, IO_CHANNEL];
    toJoin := toJoin + server.channelIds;
    if server.messageChannel.Some? {
      toJoin := toJoin + [server.messageChannel.value];
    }
    assert toJoin == ToJoin(user, server);
    var joined := JoinAll(t, user, toJoin);
    if joined.Err? {
      return Err(joined.error);
    }
    r := Ok((user, joined.value));
  }

  method JoinAll(t: Transport, user: u16, toJoin: seq<u16>) returns (r: Result<seq<u16>>)
    modifies t
    ensures Step(r, t.View()) == Joined(user, toJoin, old(t.View()), [])
  {
    hide SendOn, RecvOn, JoinedChannel, ChannelJoinRequest;
    var joined := [];
    for i := 0 to |toJoin|
      invariant Joined(user, toJoin, old(t.View()), []) == Joined(user, toJoin[i..], t.View(), joined)
    {
      var channel := toJoin[i];
      assert toJoin[i..][1..] == toJoin[i + 1..];
      var sent := t.Send(ChannelJoinRequest(user, channel));
      if sent.Err? {
        return Err(sent.error);
      }
      var confirm := t.Recv();
      if confirm.Err? {
        return Err(confirm.error);
      }
      var confirmed := JoinedChannel(confirm.value);
      if confirmed.Err? {
        return Err(confirmed.error);
      }
      if channel != user && channel != IO_CHANNEL {
        joined := joined + [confirmed.value];
      } else {
        assert joined + [] == joined;
      }
    }
    r := Ok(joined);
  }

  method SendOnIo(t: Transport, user: u16, pdu: bytes) returns (r: Result<()>)
    modifies t
    ensures Step(r, t.View()) == SendOn(old(t.View()), OnIo(user, pdu))
  {
    hide SendDataRequest, SendOn, Indicated;
    var request := BuildSendDataRequest(user, IO_CHANNEL, pdu);
    r := t.Send(request);
  }

  method ReceiveOnIo(t: Transport) returns (r: Result<bytes>)
    modifies t
    ensures Step(r, t.View()) == RecvOnIo(old(t.View()))
  {
    hide RecvOn, Indicated;
    var mcs := t.Recv();
    if mcs.Err? {
      return mcs;
    }
    var parsed := ParseSendDataIndication(mcs.value);
    if parsed.Err? {
      return Err(parsed.error);
    }
    r := Ok(parsed.value.1);
  }

  method WaitForDemandActive(t: Transport) returns (r: Result<(DemandActive, Option<InitiateRequest>)>)
    modifies t
    ensures Step(r, t.View()) == DemandAwaited(old(t.View()), MAX_SKIP, None)
  {
    hide RecvOnIo, ParsedControl, ParsedDemand, Detected;
    var multitransport: Option<InitiateRequest> := None;
    for i := 0 to MAX_SKIP
      invariant DemandAwaited(old(t.View()), MAX_SKIP, None) == DemandAwaited(t.View(), MAX_SKIP - i, multitransport)
    {
      var pdu := ReceiveOnIo(t);
      if pdu.Err? {
        return Err(pdu.error);
      }
      var control := ParsedControl(pdu.value);
      if control.Ok? {
        if control.value.0.pduType == PDUTYPE_DEMANDACTIVE {
          var demand := ParseDemandActive(control.value.1);
          if demand.Err? {
            return Err(demand.error);
          }
          return Ok((demand.value, multitransport));
        }
      } else if multitransport.None? {
        multitransport := Detected(pdu.value);
      }
    }
    r := Err(Protocol(NoDemandActive));
  }

  method SendData(t: Transport, user: u16, shareId: u32, pduType2: byte, body: bytes) returns (r: Result<()>)
    modifies t
    ensures Step(r, t.View()) == SendOn(old(t.View()), OnIo(user, ShareData(user, shareId, pduType2, body)))
  {
    hide ShareData, SendOn, OnIo, ParsedControl, ParsedData;
    var pdu := BuildShareData(user, shareId, pduType2, body);
    r := SendOnIo(t, user, pdu);
  }

  lemma SendAllNext(n: Net, pdus: seq<bytes>)
    ensures pdus == [] ==> SendAll(n, pdus) == Step(Ok(()), n)
    ensures pdus != [] ==>
              SendAll(n, pdus) == var s := SendOn(n, pdus[0]); if s.result.Err? then s else SendAll(s.net, pdus[1..])
  {
    hide SendOn;
  }

  method SendFinalPdus(t: Transport, user: u16, shareId: u32) returns (r: Result<()>)
    modifies t
    ensures Step(r, t.View()) == SendAll(old(t.View()), FinalPdus(user, shareId))
  {
    hide SendOn, SendAll, OnIo, ShareData, Synchronize, Control, FontList;
    ghost var pdus := FinalPdus(user, shareId);
    SendAllNext(t.View(), pdus);
    r := SendData(t, user, shareId, PDUTYPE2_SYNCHRONIZE, Synchronize(IO_CHANNEL));
    if r.Err? {
      return;
    }
    SendAllNext(t.View(), pdus[1..]);
    r := SendData(t, user, shareId, PDUTYPE2_CONTROL, Control(CTRLACTION_COOPERATE));
    if r.Err? {
      return;
    }
    assert pdus[1..][1..] == pdus[2..];
    SendAllNext(t.View(), pdus[2..]);
    r := SendData(t, user, shareId, PDUTYPE2_CONTROL, Control(CTRLACTION_REQUEST_CONTROL));
    if r.Err? {
      return;
    }
    assert pdus[2..][1..] == pdus[3..];
    SendAllNext(t.View(), pdus[3..]);
    r := SendData(t, user, shareId, PDUTYPE2_FONTLIST, FontList());
    if r.Err? {
      return;
    }
    assert pdus[3..][1..] == pdus[4..];
    SendAllNext(t.View(), pdus[4..]);
    r := Ok(());
  }

  method Finalization(t: Transport, user: u16, shareId: u32) returns (r: Result<()>)
    modifies t
    ensures Step(r, t.View()) == Finalized(user, shareId, old(t.View()))
  {
    hide RecvOnIo, FinalPdus, SendOn, ParsedControl, ParsedData;
    var sent := SendFinalPdus(t, user, shareId);
    if sent.Err? {
      return sent;
    }
    ghost var drained := Drained(t.View(), MAX_SKIP, 0);
    var seen := 0;
    for i := 0 to MAX_SKIP
      invariant seen >= 0 && drained == Drained(t.View(), MAX_SKIP - i, seen)
    {
      if seen >= 4 {
        break;
      }
      var pdu := ReceiveOnIo(t);
      if pdu.Err? {
        return Err(pdu.error);
      }
      var control := ParsedControl(pdu.value);
      if control.Ok? {
        if ParsedData(control.value.1).Ok? {
          seen := seen + 1;
        }
      }
    }
    r := Ok(());
  }
}
