/** The connection sequence against an honest server: it succeeds, with exactly what the server assigned. */
module ConnectionServer {
  import opened Prelude
  import opened Mcs
  import opened SharePdu
  import opened Connection
  import opened ConnectionTrace
  import opened ConnectionWire
  import RdpServer

  // ----- What the server prints -----

  /** The confirms of a server that read the join requests `requests`. */
  function Confirms(requests: seq<bytes>): (r: seq<Result<bytes>>)
    ensures |r| == |requests|
  {
    seq(|requests|, k requires 0 <= k < |requests| => Confirm(RdpServer.ReadRequest(requests[k])))
  }

  /** A join is confirmed with user and channel as they were read; anything else is cut off. */
  function Confirm(request: Option<RdpServer.Request>): Result<bytes> {
    match request
    case Some(JoinChannel(user, channel)) => Ok(RdpServer.JoinConfirm(user, channel))
    case _ => Err(Io)
  }

  function CapabilitySet(kind: u16, data: bytes): bytes
    requires |data| < 0xFFFC
  {
    U16Le(kind) + U16Le(|data| + 4) + data
  }

  function PrintSets(sets: seq<(u16, bytes)>): bytes
    requires forall k :: 0 <= k < |sets| ==> |sets[k].1| < 0xFFFC
  {
    if sets == [] then [] else CapabilitySet(sets[0].0, sets[0].1) + PrintSets(sets[1..])
  }

  /** A Demand Active body; its combined length field is never read. */
  function DemandBody(demand: DemandActive, descriptor: bytes, combined: u16): bytes
    requires |descriptor| < 0x1_0000 && |demand.capabilities| < 0x1_0000
    requires forall k :: 0 <= k < |demand.capabilities| ==> |demand.capabilities[k].1| < 0xFFFC
  {
    U32Le(demand.shareId) + U16Le(|descriptor|) + U16Le(combined) + descriptor
    + U16Le(|demand.capabilities|) + U16Le(0) + PrintSets(demand.capabilities)
  }

  /** A Demand Active as the server prints it: share control type 1. */
  function DemandPdu(source: u16, demand: DemandActive, descriptor: bytes, combined: u16): bytes
    requires |descriptor| < 0x1_0000 && |demand.capabilities| < 0x1_0000
    requires forall k :: 0 <= k < |demand.capabilities| ==> |demand.capabilities[k].1| < 0xFFFC
    requires |DemandBody(demand, descriptor, combined)| + 6 < 0x1_0000
  {
    RdpServer.Share(1, source, DemandBody(demand, descriptor, combined))
  }

  /** What the server sends on a channel, the client receives. */
  lemma IndicationIsRead(user: u16, channel: u16, data: bytes)
    requires |data| < 0x4000
    ensures Payload(Ok(RdpServer.Indication(user, channel, data))) == Some(data)
  {
    hide SendDataRequest, AsIndication, RdpServer.Indication, RdpServer.ReadRequest, Indicated;
    DataIsRead(user, channel, data);
    IndicationReadsBack(user, channel, data);
  }

  // ----- Demand Active reads back -----

  lemma SetReadsBack(item: (u16, bytes), rest: bytes, count: nat, before: seq<(u16, bytes)>)
    requires |item.1| < 0xFFFC && count > 0
    ensures Capabilities(CapabilitySet(item.0, item.1) + rest, count, before)
            == Capabilities(rest, count - 1, before + [item])
  {
    hide U16Le, U16LeAt;
    var b := CapabilitySet(item.0, item.1) + rest;
    U16LeIn(b, 0, item.0);
    U16LeIn(b, 2, |item.1| + 4);
    assert b[4..|item.1| + 4] == item.1 && b[|item.1| + 4..] == rest;
    assert item == (item.0, item.1);
  }

  lemma PrintSetsNext(sets: seq<(u16, bytes)>)
    requires sets != [] && forall k :: 0 <= k < |sets| ==> |sets[k].1| < 0xFFFC
    ensures PrintSets(sets) == CapabilitySet(sets[0].0, sets[0].1) + PrintSets(sets[1..])
  {
  }

  lemma {:induction false} SetsReadBack(sets: seq<(u16, bytes)>, rest: bytes, before: seq<(u16, bytes)>)
    requires forall k :: 0 <= k < |sets| ==> |sets[k].1| < 0xFFFC
    ensures Capabilities(PrintSets(sets) + rest, |sets|, before) == Ok(before + sets)
    decreases |sets|
  {
    if sets == [] {
      assert before + sets == before && PrintSets(sets) + rest == rest;
    } else {
      hide Capabilities, CapabilitySet, PrintSets;
      var head, tail := CapabilitySet(sets[0].0, sets[0].1), PrintSets(sets[1..]);
      PrintSetsNext(sets);
      Regroup(head, tail, rest);
      SetReadsBack(sets[0], tail + rest, |sets|, before);
      SetsReadBack(sets[1..], rest, before + [sets[0]]);
      assert sets == [sets[0]] + sets[1..];
      Regroup(before, [sets[0]], sets[1..]);
    }
  }

  lemma DemandReadsBack(demand: DemandActive, descriptor: bytes, combined: u16, rest: bytes)
    requires |descriptor| < 0x1_0000 && |demand.capabilities| < 0x1_0000
    requires forall k :: 0 <= k < |demand.capabilities| ==> |demand.capabilities[k].1| < 0xFFFC
    ensures ParsedDemand(DemandBody(demand, descriptor, combined) + rest) == Ok(demand)
  {
    hide U16Le, U16LeAt, U32Le, U32LeAt, PrintSets, Capabilities;
    var body := DemandBody(demand, descriptor, combined) + rest;
    var sets := PrintSets(demand.capabilities);
    U32LeIn(body, 0, demand.shareId);
    U16LeIn(body, 4, |descriptor|);
    var b := body[8 + |descriptor|..];
    assert b == U16Le(|demand.capabilities|) + U16Le(0) + sets + rest;
    U16LeIn(b, 0, |demand.capabilities|);
    assert b[4..] == sets + rest;
    SetsReadBack(demand.capabilities, rest, []);
    assert [] + demand.capabilities == demand.capabilities;
  }

  /**
   A Demand Active cut off in its fixed fields or its source, and a capability set cut off or shorter than its header.
   */
  lemma DemandErrs(body: bytes, count: nat, before: seq<(u16, bytes)>)
    ensures |body| < 8 ==> ParsedDemand(body) == Err(Short(8, |body|))
    ensures |body| >= 8 && |body| < 12 + U16LeAt(body, 4) as int ==>
              ParsedDemand(body) == Err(Short(U16LeAt(body, 4) as int + 4, |body| - 8))
    ensures count > 0 && |body| < 4 ==> Capabilities(body, count, before) == Err(Short(4, |body|))
    ensures count > 0 && |body| >= 4 && !(4 <= U16LeAt(body, 2) <= |body|) ==>
              Capabilities(body, count, before) == Err(Protocol(BadCapabilityLength))
  {
    hide U16LeAt, U32LeAt;
  }

  // ----- The honest inbox -----

  /** A Demand Active PDU that fits one Send Data PDU. */
  ghost predicate GoodDemand(reply: Result<bytes>, demand: DemandActive) {
    && Payload(reply).Some? && IsDemand(Payload(reply).value)
    && ParsedDemand(ParsedControl(Payload(reply).value).value.1) == Ok(demand)
  }

  lemma DemandPduIsGood(user: u16, channel: u16, source: u16, demand: DemandActive, descriptor: bytes, combined: u16)
    requires |descriptor| < 0x1_0000 && |demand.capabilities| < 0x1_0000
    requires forall k :: 0 <= k < |demand.capabilities| ==> |demand.capabilities[k].1| < 0xFFFC
    requires |DemandBody(demand, descriptor, combined)| + 6 < 0x4000
    ensures |DemandPdu(source, demand, descriptor, combined)| < 0x4000
    ensures GoodDemand(Ok(RdpServer.Indication(user, channel, DemandPdu(source, demand, descriptor, combined))), demand)
  {
    hide DemandBody, ParsedDemand, Payload, RdpServer.Indication, ParsedControl;
    var body := DemandBody(demand, descriptor, combined);
    var pdu := ShareControl(PDUTYPE_DEMANDACTIVE, source, body);
    ShareIsControl(1, source, body);
    IndicationIsRead(user, channel, pdu);
    ControlReadsBack(PDUTYPE_DEMANDACTIVE, source, body, []);
    assert pdu + [] == pdu;
    DemandReadsBack(demand, descriptor, combined, []);
    assert body + [] == body;
  }

  ghost predicate IsFinal(reply: Result<bytes>) {
    Payload(reply).Some? && IsShareData(Payload(reply).value)
  }

  lemma DataPduIsFinal(user: u16, channel: u16, source: u16, shareId: u32, pduType2: byte, body: bytes)
    requires |body| + 18 < 0x4000
    ensures |RdpServer.Data(source, shareId, pduType2, body)| < 0x4000
    ensures IsFinal(Ok(RdpServer.Indication(user, channel, RdpServer.Data(source, shareId, pduType2, body))))
  {
    hide ShareData, Payload, RdpServer.Data, RdpServer.Indication, ParsedControl, ParsedData;
    DataIsShareData(source, shareId, pduType2, body);
    DataSize(source, shareId, pduType2, body);
    IndicationIsRead(user, channel, ShareData(source, shareId, pduType2, body));
    DataReadsBack(source, shareId, pduType2, body);
  }

  /** The channels asked for beside the user and I/O channels. */
  function WantedOf(user: u16, channels: seq<u16>): seq<u16> {
    if channels == [] then []
    else (if Wanted(user, channels[0]) then [channels[0]] else []) + WantedOf(user, channels[1..])
  }

  lemma {:induction false} JoinsSucceed(user: u16, channels: seq<u16>, n: Net, rest: seq<Result<bytes>>,
                                        joined: seq<u16>)
    requires n.faults == [] && n.inbox == Confirms(JoinRequests(user, channels)) + rest
    ensures var j := Joined(user, channels, n, joined);
            j.result == Ok(joined + WantedOf(user, channels)) && j.net.faults == [] && j.net.inbox == rest
    decreases |channels|
  {
    hide ChannelJoinRequest, JoinedChannel, SendOn, RecvOn, Confirm;
    if channels == [] {
      assert joined + [] == joined;
      assert n.inbox == rest;
    } else {
      SendTrace(n, ChannelJoinRequest(user, channels[0]));
      var s := SendOn(n, ChannelJoinRequest(user, channels[0]));
      RecvHead(s.net);
      ConfirmIsRead(user, channels[0]);
      RequestsNext(user, channels);
      assert n.inbox[0] == Confirm(RdpServer.ReadRequest(ChannelJoinRequest(user, channels[0])));
      assert n.inbox[1..] == Confirms(JoinRequests(user, channels[1..])) + rest;
      var id := if Wanted(user, channels[0]) then [channels[0]] else [];
      JoinsSucceed(user, channels[1..], RecvOn(s.net).net, rest, joined + id);
      assert joined + id + WantedOf(user, channels[1..]) == joined + WantedOf(user, channels);
    }
  }

  lemma ConfirmIsRead(user: u16, channel: u16)
    ensures var r := Confirm(RdpServer.ReadRequest(ChannelJoinRequest(user, channel)));
            r.Ok? && JoinedChannel(r.value) == Ok(channel)
    ensures AttachedUser(RdpServer.AttachConfirm(user)) == Ok(user)
  {
    hide AttachedUser, JoinedChannel, U16Be, RdpServer.ReadRequest, RdpServer.WireUser, RdpServer.Bytes, Initiator,
      ChannelJoinRequest;
    JoinIsRead(user, channel);
    var offset, id := U16Be(Initiator(user)), U16Be(channel);
    assert offset[0..2] == offset && id[0..2] == id;
    WireUserReads(user, offset, 0);
    WordReads(channel, id, 0);
    ConfirmsReadBack(user, channel, channel, []);
    assert RdpServer.JoinConfirm(user, channel) + [] == [0x3E, 0] + offset + id + id;
    assert RdpServer.AttachConfirm(user) + [] == [0x2E, 0] + offset;
  }

  lemma RecvHead(n: Net)
    requires n.inbox != []
    ensures RecvOn(n) == Step(n.inbox[0], n.(inbox := n.inbox[1..], received := n.received + 1))
  {
  }

  lemma {:induction false} DemandArrives(n: Net, left: nat, before: Option<InitiateRequest>, strays: seq<Result<bytes>>,
                                         demand: DemandActive)
    requires |strays| < left && |strays| < |n.inbox| && n.inbox[..|strays|] == strays && n.faults == []
    requires (forall k :: 0 <= k < |strays| ==> IsStray(strays[k])) && GoodDemand(n.inbox[|strays|], demand)
    ensures var d := DemandAwaited(n, left, before);
            d.result.Ok? && d.result.value.0 == demand && d.net.faults == [] && d.net.inbox == n.inbox[|strays| + 1..]
    decreases |strays|
  {
    hide RecvOnIo, Noticed, ParsedControl, ParsedDemand, IsDemand, Payload;
    RecvOnIoTrace(n);
    if strays == [] {
      assert n.inbox[0] == n.inbox[|strays|];
    } else {
      assert n.inbox[0] == strays[0] && IsStray(strays[0]);
      var r := RecvOnIo(n);
      assert r.net.inbox[..|strays| - 1] == strays[1..];
      DemandArrives(r.net, left - 1, Noticed(r.result.value, before), strays[1..], demand);
      assert r.net.inbox[|strays|..] == n.inbox[|strays| + 1..];
    }
  }

  /** What counts as a data PDU: any share control PDU with a body of twelve bytes or more, whatever its type. */
  lemma AnyLongShareCounts(pdu: bytes)
    ensures IsShareData(pdu) <==> |pdu| >= 18 && 18 <= U16LeAt(pdu, 0) <= |pdu|
  {
    hide U16LeAt;
  }

  /** How many of these PDUs are data PDUs. */
  function Finals(replies: seq<Result<bytes>>): nat {
    if replies == [] then 0
    else (if Payload(replies[0]).Some? && IsShareData(Payload(replies[0]).value) then 1 else 0) + Finals(replies[1..])
  }

  /**
   The first `k` PDUs all carry a payload, and the drain ends after them: four data PDUs have been seen, or no
   receive is left.
   */
  ghost predicate DrainsBy(inbox: seq<Result<bytes>>, k: nat, left: nat, seen: nat) {
    && k <= left && k <= |inbox| && (forall j :: 0 <= j < k ==> Payload(inbox[j]).Some?)
    && (k == left || seen + Finals(inbox[..k]) >= 4)
  }

  lemma DrainsLater(inbox: seq<Result<bytes>>, k: nat, left: nat, seen: nat)
    requires inbox != [] && left > 0
    ensures var one := if Payload(inbox[0]).Some? && IsShareData(Payload(inbox[0]).value) then 1 else 0;
            DrainsBy(inbox, k + 1, left, seen)
            <==> Payload(inbox[0]).Some? && DrainsBy(inbox[1..], k, left - 1, seen + one)
  {
    hide Payload, IsShareData;
    if k < |inbox| {
      assert inbox[..k + 1][1..] == inbox[1..][..k];
    }
    if Payload(inbox[0]).Some?
      && DrainsBy(inbox[1..], k, left - 1, seen + if IsShareData(Payload(inbox[0]).value) then 1 else 0) {
      forall j | 0 <= j < k + 1
        ensures Payload(inbox[j]).Some?
      {
        assert j > 0 ==> inbox[j] == inbox[1..][j - 1];
      }
    }
  }

  /** The drain succeeds exactly in those cases; sixteen PDUs that are no data PDUs will do. */
  lemma {:induction false} DrainSucceeds(n: Net, left: nat, seen: nat)
    ensures Drained(n, left, seen).result.Ok? <==> exists k: nat :: DrainsBy(n.inbox, k, left, seen)
    decreases left
  {
    hide RecvOnIo, IsShareData, Payload, Finals;
    if left == 0 || seen >= 4 {
      assert DrainsBy(n.inbox, 0, left, seen);
    } else {
      RecvOnIoTrace(n);
      NoFinals();
      var r := RecvOnIo(n);
      if r.result.Ok? {
        var seen' := seen + if IsShareData(r.result.value) then 1 else 0;
        DrainSucceeds(r.net, left - 1, seen');
        var left' := left - 1;
        if k: nat :| DrainsBy(r.net.inbox, k, left', seen') {
          DrainsLater(n.inbox, k, left, seen);
        }
        if k: nat :| DrainsBy(n.inbox, k, left, seen) {
          EmptyNeverDrains(n.inbox, left, seen);
          DrainsLater(n.inbox, k - 1, left, seen);
        }
      } else if k: nat :| DrainsBy(n.inbox, k, left, seen) {
        EmptyNeverDrains(n.inbox, left, seen);
        assert false;
      }
    }
  }

  lemma EmptyNeverDrains(inbox: seq<Result<bytes>>, left: nat, seen: nat)
    requires left > 0 && seen < 4
    ensures !DrainsBy(inbox, 0, left, seen)
  {
    assert inbox[..0] == [];
  }

  lemma NoFinals()
    ensures Finals([]) == 0
  {
  }

  lemma OpeningSucceeds(cfg: Settings, n: Net, response: bytes, user: u16, rest: seq<Result<bytes>>)
    requires n.faults == [] && n.inbox == [Ok(response), Ok(RdpServer.AttachConfirm(user))] + rest
             && cfg.networkData(response).Ok?
    ensures var b := SettingsExchanged(cfg, n);
            && b.result == cfg.networkData(response)
            && Attached(b.net).result == Ok(user) && Attached(b.net).net.faults == []
            && Attached(b.net).net.inbox == rest
  {
    hide ErectDomainRequest, AttachUserRequest, SendOn, RecvOn, AttachedUser, RdpServer.AttachConfirm;
    SendTrace(n, cfg.connectInitial);
    RecvHead(SendOn(n, cfg.connectInitial).net);
    var b := SettingsExchanged(cfg, n);
    SendTrace(b.net, ErectDomainRequest());
    var e := SendOn(b.net, ErectDomainRequest());
    SendTrace(e.net, AttachUserRequest());
    assert b.net.inbox[0] == Ok(RdpServer.AttachConfirm(user)) && b.net.inbox[1..] == rest;
    RecvHead(SendOn(e.net, AttachUserRequest()).net);
    ConfirmIsRead(user, 0);
  }

  lemma ClosingSucceeds(cfg: Settings, user: u16, n: Net, strays: seq<Result<bytes>>, good: Result<bytes>,
                        demand: DemandActive, rest: seq<Result<bytes>>)
    requires n.faults == [] && n.inbox == strays + [good] + rest && |strays| < MAX_SKIP
    requires (forall k :: 0 <= k < |strays| ==> IsStray(strays[k])) && GoodDemand(good, demand)
    ensures var a := Activated(cfg, user, n);
            && (a.result.Ok? <==> exists k: nat :: DrainsBy(rest, k, MAX_SKIP, 0))
            && (a.result.Ok? ==> a.result.value.0 == demand)
  {
    hide SendOn, SendAll, DemandAwaited, Drained, FinalPdus, ConfirmActive, OnIo, GoodDemand, DrainsBy, IsStray;
    SendTrace(n, OnIo(user, cfg.clientInfo));
    var info := SendOn(n, OnIo(user, cfg.clientInfo));
    assert info.net.inbox[..|strays|] == strays;
    DemandArrives(info.net, MAX_SKIP, None, strays, demand);
    var d := DemandAwaited(info.net, MAX_SKIP, None);
    assert d.net.inbox == rest;
    var confirm := OnIo(user, ConfirmActive(user, demand.shareId, cfg.capabilities));
    SendTrace(d.net, confirm);
    var c := SendOn(d.net, confirm);
    SendAllTrace(c.net, FinalPdus(user, demand.shareId));
    var s := SendAll(c.net, FinalPdus(user, demand.shareId));
    DrainSucceeds(s.net, MAX_SKIP, 0);
  }

  lemma {:induction false} AllWanted(user: u16, ids: seq<u16>)
    ensures WantedOf(user, ids) == ids <==> forall id :: id in ids ==> Wanted(user, id)
    ensures forall id :: id in WantedOf(user, ids) ==> Wanted(user, id)
    decreases |ids|
  {
    if ids != [] {
      var rest := WantedOf(user, ids[1..]);
      AllWanted(user, ids[1..]);
      assert ids == [ids[0]] + ids[1..];
      if Wanted(user, ids[0]) {
        assert ([ids[0]] + rest)[1..] == rest;
      } else {
        assert ids[0] !in rest;
      }
    }
  }

  lemma {:induction false} WantedAppend(user: u16, a: seq<u16>, b: seq<u16>)
    ensures WantedOf(user, a + b) == WantedOf(user, a) + WantedOf(user, b)
    decreases |a|
  {
    hide Wanted;
    if a == [] {
      assert a + b == b && [] + WantedOf(user, b) == WantedOf(user, b);
    } else {
      hide WantedOf;
      WantedAppend(user, a[1..], b);
      WantedNext(user, a);
      WantedNext(user, a + b);
      assert (a + b)[1..] == a[1..] + b;
      Regroup(if Wanted(user, a[0]) then [a[0]] else [], WantedOf(user, a[1..]), WantedOf(user, b));
    }
  }

  lemma WantedNext(user: u16, ids: seq<u16>)
    requires ids != []
    ensures WantedOf(user, ids) == (if Wanted(user, ids[0]) then [ids[0]] else []) + WantedOf(user, ids[1..])
  {
  }

  /**
   The session's channels are the channels the server assigned exactly when none of those is the user or the
   I/O channel and no message channel is joined beside them.
   */
  lemma ServerChannelsOnly(user: u16, server: ServerNetwork)
    ensures WantedOf(user, ToJoin(user, server)) == server.channelIds <==>
            && (forall id :: id in server.channelIds ==> Wanted(user, id))
            && (server.messageChannel.Some? ==> !Wanted(user, server.messageChannel.value))
  {
    hide WantedOf;
    var message := if server.messageChannel.Some? then [server.messageChannel.value] else [];
    var ids := server.channelIds;
    assert ToJoin(user, server) == [user, IO_CHANNEL] + (ids + message);
    WantedAppend(user, [user, IO_CHANNEL], ids + message);
    WantedSplit(user, ids, message);
    OwnChannelsUnwanted(user);
    if server.messageChannel.Some? {
      OneWanted(user, server.messageChannel.value);
    } else {
      NoneWanted(user);
    }
  }

  /** Of two lists the wanted ones are the first list exactly if all of it is wanted and nothing of the second. */
  lemma WantedSplit(user: u16, ids: seq<u16>, more: seq<u16>)
    ensures var all := WantedOf(user, ids + more);
            all == ids <==> (forall id :: id in ids ==> Wanted(user, id)) && WantedOf(user, more) == []
  {
    hide WantedOf, Wanted;
    WantedAppend(user, ids, more);
    AllWanted(user, ids);
    AllWanted(user, ids + more);
    assert WantedOf(user, ids) + [] == WantedOf(user, ids);
  }

  lemma NoneWanted(user: u16)
    ensures WantedOf(user, []) == []
  {
  }

  lemma OneWanted(user: u16, id: u16)
    ensures WantedOf(user, [id]) == if Wanted(user, id) then [id] else []
  {
    assert [id][1..] == [];
  }

  lemma OwnChannelsUnwanted(user: u16)
    ensures WantedOf(user, [user, IO_CHANNEL]) == []
  {
    assert [user, IO_CHANNEL][1..] == [IO_CHANNEL];
    OneWanted(user, IO_CHANNEL);
  }

  /** For example a granted message channel is listed too, and a channel equal to the I/O channel is not. */
  lemma OtherChannels()
    ensures WantedOf(1007, ToJoin(1007, ServerNetwork(IO_CHANNEL, [1004, IO_CHANNEL], Some(1005)))) == [1004, 1005]
  {
    hide WantedOf;
    var network := ServerNetwork(IO_CHANNEL, [1004, IO_CHANNEL], Some(1005));
    assert ToJoin(1007, network) == [1007, IO_CHANNEL] + (([1004] + [IO_CHANNEL]) + [1005]);
    WantedAppend(1007, [1007, IO_CHANNEL], ([1004] + [IO_CHANNEL]) + [1005]);
    OwnChannelsUnwanted(1007);
    WantedAppend(1007, [1004] + [IO_CHANNEL], [1005]);
    WantedAppend(1007, [1004], [IO_CHANNEL]);
    OneWanted(1007, 1004);
    OneWanted(1007, IO_CHANNEL);
    OneWanted(1007, 1005);
  }

  /**
   A server that reads the join requests, confirms each as read, sends fewer than sixteen other PDUs and then a Demand
   Active gives a session exactly if the PDUs after it drain: payloads up to the fourth data PDU, in any order with
   others, or sixteen of them. What it reads are the joins expected for the user it attached. The session has that
   user, the share id it demanded and the wanted channels it assigned, the message channel last.
   */
  lemma HonestServerSucceeds(cfg: Settings, n: Net, response: bytes, user: u16, strays: seq<Result<bytes>>,
                             good: Result<bytes>, demand: DemandActive, rest: seq<Result<bytes>>)
    requires cfg.networkData(response).Ok? && n.faults == []
    requires var requests := JoinRequests(user, ToJoin(user, cfg.networkData(response).value));
             n.inbox == [Ok(response), Ok(RdpServer.AttachConfirm(user))]
               + (Confirms(requests) + (strays + [good] + rest))
    requires |strays| < MAX_SKIP && (forall k :: 0 <= k < |strays| ==> IsStray(strays[k])) && GoodDemand(good, demand)
    ensures var r, sent := Established(cfg, n).result, Established(cfg, n).net.sent;
            var server := cfg.networkData(response).value;
            && n.sent <= sent && OpeningRead(cfg, sent[|n.sent|..], user, server)
            && ConfirmsAsRead(n.inbox, sent[|n.sent|..], |ExpectedJoins(user, server)|)
            && (r.Ok? <==> exists k: nat :: DrainsBy(rest, k, MAX_SKIP, 0))
            && (r.Ok? ==>
                  && r.value.userId == user && r.value.shareId == demand.shareId
                  && r.value.channelIds == WantedOf(user, ToJoin(user, server))
                  && (r.value.channelIds == server.channelIds <==>
                        && (forall id :: id in server.channelIds ==> Wanted(user, id))
                        && (server.messageChannel.Some? ==> !Wanted(user, server.messageChannel.value))))
  {
    hide SettingsExchanged, Attached, Joined, Activated, ToJoin, JoinRequests, Confirms, RdpServer.AttachConfirm,
      WantedOf, GoodDemand, DrainsBy, IsStray, Wanted, OpeningRead, ConfirmsAsRead, ExpectedJoins, Confirm,
      RdpServer.ReadRequest;
    var server := cfg.networkData(response).value;
    var toJoin := ToJoin(user, server);
    var tail := strays + [good] + rest;
    OpeningSucceeds(cfg, n, response, user, Confirms(JoinRequests(user, toJoin)) + tail);
    var a := Attached(SettingsExchanged(cfg, n).net);
    JoinsSucceed(user, toJoin, a.net, tail, []);
    assert [] + WantedOf(user, toJoin) == WantedOf(user, toJoin);
    var j := Joined(user, toJoin, a.net, []).net;
    ClosingSucceeds(cfg, user, j, strays, good, demand, rest);
    ServerChannelsOnly(user, server);
    OpeningTrace(cfg, n);
    JoinTrace(user, toJoin, a.net, []);
    SentOnlyGrows(cfg, user, j);
    JoinsAreRead(cfg, n, Established(cfg, n).net.sent, user, server);
  }

  lemma SentOnlyGrows(cfg: Settings, user: u16, n: Net)
    ensures n.sent <= Activated(cfg, user, n).net.sent
  {
    hide Activated, Closing, Demands, DemandWithin;
    ClosingTrace(cfg, user, n);
  }

  /** The first confirms the client receives are those of a server that read the first requests it sent. */
  ghost predicate ConfirmsAsRead(inbox: seq<Result<bytes>>, sent: seq<bytes>, joins: nat) {
    |inbox| >= 2 + joins && |sent| >= 3 + joins && inbox[2..2 + joins] == Confirms(sent[3..3 + joins])
  }

  /** What was sent begins with the requests the confirms were printed from. */
  lemma JoinsAreRead(cfg: Settings, n: Net, sent: seq<bytes>, user: u16, server: ServerNetwork)
    requires n.sent + Opening(cfg) + JoinRequests(user, ToJoin(user, server)) <= sent
    requires |n.inbox| >= 2 + |ToJoin(user, server)|
    requires n.inbox[2..2 + |ToJoin(user, server)|] == Confirms(JoinRequests(user, ToJoin(user, server)))
    ensures OpeningRead(cfg, sent[|n.sent|..], user, server)
    ensures ConfirmsAsRead(n.inbox, sent[|n.sent|..], |ExpectedJoins(user, server)|)
  {
    hide ErectDomainRequest, AttachUserRequest, ChannelJoinRequest, OpeningRead, ToJoin, Confirm, RdpServer.ReadRequest;
    var toJoin := ToJoin(user, server);
    var requests := JoinRequests(user, toJoin);
    var all := n.sent + Opening(cfg) + requests;
    assert sent[..|all|] == all;
    var mine := sent[|n.sent|..];
    assert mine[..3] == Opening(cfg) by {
      assert mine[..3] == all[|n.sent|..|n.sent| + 3];
    }
    forall k | 0 <= k < |toJoin|
      ensures mine[3 + k] == ChannelJoinRequest(user, toJoin[k])
    {
      assert mine[3 + k] == sent[|n.sent| + 3 + k] == all[|n.sent| + 3 + k] == requests[k];
    }
    assert mine[3..3 + |toJoin|] == requests;
    OpeningIsRead(cfg, mine, user, server);
    JoinCount(user, server);
  }

  lemma JoinCount(user: u16, server: ServerNetwork)
    ensures ExpectedJoins(user, server) == ToJoin(user, server)
  {
  }

  /** Data PDUs at the front drain. */
  lemma FourFinalsDrain(rest: seq<Result<bytes>>)
    requires |rest| >= 4 && (forall k :: 0 <= k < 4 ==> IsFinal(rest[k]))
    ensures DrainsBy(rest, 4, MAX_SKIP, 0)
  {
    hide Payload, IsShareData;
    var s := rest[..4];
    assert s[1..][1..] == s[2..] && s[2..][1..] == s[3..] && s[3..][1..] == s[4..] && |s[4..]| == 0;
    assert Finals(s) == 1 + Finals(s[1..]);
    assert Finals(s[1..]) == 1 + Finals(s[2..]);
    assert Finals(s[2..]) == 1 + Finals(s[3..]);
    assert Finals(s[3..]) == 1 + Finals(s[4..]);
  }

  /** A Demand Active and four data PDUs as a server prints them. */
  function ServerScript(user: u16, source: u16, demand: DemandActive, descriptor: bytes, combined: u16,
                        finals: seq<(byte, bytes)>)
    : seq<Result<bytes>>
    requires |descriptor| < 0x1_0000 && |demand.capabilities| < 0x1_0000 && |finals| == 4
    requires forall k :: 0 <= k < |demand.capabilities| ==> |demand.capabilities[k].1| < 0xFFFC
    requires |DemandBody(demand, descriptor, combined)| + 6 < 0x4000
    requires forall k :: 0 <= k < 4 ==> |finals[k].1| + 18 < 0x4000
  {
    [OnIoFromServer(user, DemandPdu(source, demand, descriptor, combined))]
    + seq(4, k requires 0 <= k < 4 =>
            OnIoFromServer(user, RdpServer.Data(source, demand.shareId, finals[k].0, finals[k].1)))
  }

  function OnIoFromServer(user: u16, pdu: bytes): Result<bytes>
    requires |pdu| < 0x4000
  {
    Ok(RdpServer.Indication(user, 1003, pdu))
  }

  /**
   Such a server exists for every user, channel list, share id, capability sets and finalization bodies that fit their
   PDUs.
   */
  lemma PrintedServerSucceeds(cfg: Settings, n: Net, response: bytes, user: u16, source: u16, demand: DemandActive,
                              descriptor: bytes, combined: u16, finals: seq<(byte, bytes)>)
    requires cfg.networkData(response).Ok? && n.faults == [] && |finals| == 4
    requires |descriptor| < 0x1_0000 && |demand.capabilities| < 0x1_0000
    requires forall k :: 0 <= k < |demand.capabilities| ==> |demand.capabilities[k].1| < 0xFFFC
    requires |DemandBody(demand, descriptor, combined)| + 6 < 0x4000
    requires forall k :: 0 <= k < 4 ==> |finals[k].1| + 18 < 0x4000
    requires n.inbox == [Ok(response), Ok(RdpServer.AttachConfirm(user))]
             + Confirms(JoinRequests(user, ToJoin(user, cfg.networkData(response).value)))
             + ServerScript(user, source, demand, descriptor, combined, finals)
    ensures var r := Established(cfg, n).result; r.Ok? && r.value.userId == user && r.value.shareId == demand.shareId
  {
    hide Established, ToJoin, JoinRequests, Confirms, RdpServer.AttachConfirm, GoodDemand, IsFinal, DrainsBy,
      DemandBody, RdpServer.Data, DemandPdu, WantedOf, Wanted, OpeningRead, ExpectedJoins, RdpServer.ReadRequest,
      Confirm;
    DemandPduIsGood(user, 1003, source, demand, descriptor, combined);
    forall k | 0 <= k < 4
      ensures |RdpServer.Data(source, demand.shareId, finals[k].0, finals[k].1)| < 0x4000
      ensures IsFinal(OnIoFromServer(user, RdpServer.Data(source, demand.shareId, finals[k].0, finals[k].1)))
    {
      DataPduIsFinal(user, 1003, source, demand.shareId, finals[k].0, finals[k].1);
    }
    var script := ServerScript(user, source, demand, descriptor, combined, finals);
    var joins := Confirms(JoinRequests(user, ToJoin(user, cfg.networkData(response).value)));
    FourFinalsDrain(script[1..]);
    assert script == [] + [script[0]] + script[1..];
    assert n.inbox == [Ok(response), Ok(RdpServer.AttachConfirm(user))] + (joins + ([] + [script[0]] + script[1..]));
    HonestServerSucceeds(cfg, n, response, user, [], script[0], demand, script[1..]);
  }

  // ----- Multitransport requests -----

  /** Reliable and lossy UDP are protocols 1 and 2. */
  predicate UdpNumber(protocol: u16) {
    protocol == 1 || protocol == 2
  }

  /** A PDU holds a request exactly if one of the two places for its protocol field has such a number. */
  lemma DetectedExactly(pdu: bytes)
    ensures Detected(pdu).Some? <==>
            || (|pdu| >= 24 && UdpNumber(U16LeAt(pdu, 4)))
            || (|pdu| >= 28 && UdpNumber(U16LeAt(pdu, 8)))
  {
    hide U16LeAt, RequestAt;
  }

  function PrintRequest(req: InitiateRequest, reserved: u16): (r: bytes)
    requires |req.cookie| == 16
    ensures |r| == 24
  {
    U32Le(req.requestId) + U16Le(req.protocol) + U16Le(reserved) + req.cookie
  }

  lemma RequestReadsBack(pre: bytes, req: InitiateRequest, reserved: u16, rest: bytes)
    requires |req.cookie| == 16
    ensures RequestAt(pre + PrintRequest(req, reserved) + rest, |pre|) == req
    ensures U16LeAt(pre + PrintRequest(req, reserved) + rest, |pre| + 4) == req.protocol
    ensures U16LeAt(pre + PrintRequest(req, reserved) + rest, |pre|) == req.requestId % 0x1_0000
  {
    hide U16Le, U32Le, U32LeAt, U16LeAt;
    var pdu := pre + PrintRequest(req, reserved) + rest;
    U32LeIn(pdu, |pre|, req.requestId);
    U16LeIn(pdu, |pre| + 4, req.protocol);
    assert pdu[|pre| + 8..|pre| + 24] == req.cookie;
    LowHalf(pdu, |pre|);
  }

  lemma LowHalf(b: bytes, i: nat)
    requires i + 4 <= |b|
    ensures U32LeAt(b, i) % 0x1_0000 == U16LeAt(b, i)
  {
    hide U16LeAt;
  }

  lemma RequestDetected(req: InitiateRequest, reserved: u16, rest: bytes)
    requires |req.cookie| == 16 && UdpNumber(req.protocol)
    ensures Detected(PrintRequest(req, reserved) + rest) == Some(req)
  {
    hide U16LeAt, RequestAt, PrintRequest;
    RequestReadsBack([], req, reserved, rest);
    assert [] + PrintRequest(req, reserved) + rest == PrintRequest(req, reserved) + rest;
  }

  /** What the scan reads at offset 0 of a request behind a four-byte wrapper. */
  lemma WrapperReads(wrapper: bytes, req: InitiateRequest, reserved: u16, rest: bytes)
    requires |wrapper| == 4 && |req.cookie| == 16
    ensures RequestAt(wrapper + PrintRequest(req, reserved) + rest, 0)
            == InitiateRequest(U32LeAt(wrapper, 0), req.requestId % 0x1_0000, U16Le(req.protocol) + U16Le(reserved)
              + req.cookie[..12])
  {
    hide U16Le, U32Le, U32LeAt, U16LeAt;
    var pdu := wrapper + PrintRequest(req, reserved) + rest;
    RequestReadsBack(wrapper, req, reserved, rest);
    assert pdu[8..24] == U16Le(req.protocol) + U16Le(reserved) + req.cookie[..12];
    assert pdu[0..4] == wrapper == wrapper[0..4];
    U32LeAtBytes(pdu, 0);
    U32LeAtBytes(wrapper, 0);
    U32LeIn(pdu, 0, U32LeAt(wrapper, 0));
  }

  /**
   Behind a four-byte wrapper, the scan stops too early when the low half of the request's id is itself a UDP
   protocol number. The request is found exactly when that is not so, or when wrapper, id and cookie repeat
   so that the wrong place reads the same.
   */
  lemma WrappedRequestDetected(wrapper: bytes, req: InitiateRequest, reserved: u16, rest: bytes)
    requires |wrapper| == 4 && |req.cookie| == 16 && UdpNumber(req.protocol)
    ensures var pdu := wrapper + PrintRequest(req, reserved) + rest;
            Detected(pdu) == Some(if UdpNumber(req.requestId % 0x1_0000) then RequestAt(pdu, 0) else req)
    ensures Detected(wrapper + PrintRequest(req, reserved) + rest) == Some(req) <==>
            || !UdpNumber(req.requestId % 0x1_0000)
            || (&& wrapper == U32Le(req.requestId) && req.protocol == req.requestId % 0x1_0000
                && req.cookie == U16Le(req.protocol) + U16Le(reserved) + req.cookie[..12])
  {
    hide U16Le, U32Le, U16LeAt, U32LeAt, RequestAt, PrintRequest;
    RequestReadsBack(wrapper, req, reserved, rest);
    WrapperReads(wrapper, req, reserved, rest);
    U32LeAtBytes(wrapper, 0);
    assert wrapper[0..4] == wrapper;
    if wrapper == U32Le(req.requestId) {
      U32LeIn(wrapper, 0, req.requestId);
    }
  }

  /** For example request 1 behind four zero bytes is taken for request 0. */
  lemma WrappedRequestMisread(cookie: bytes)
    requires |cookie| == 16
    ensures var found := Detected(Zeros(4) + PrintRequest(InitiateRequest(1, 1, cookie), 0));
            found.Some? && found.value.requestId == 0
  {
    hide U16LeAt, PrintRequest;
    var req := InitiateRequest(1, 1, cookie);
    var pdu := Zeros(4) + PrintRequest(req, 0);
    assert pdu + [] == pdu;
    WrappedRequestDetected(Zeros(4), req, 0, []);
    ZeroWord(pdu);
  }

  lemma ZeroWord(b: bytes)
    requires |b| >= 4 && b[0] == b[1] == b[2] == b[3] == 0
    ensures U32LeAt(b, 0) == 0
  {
  }
}
