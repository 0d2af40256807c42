/** What every run of the connection sequence sends and receives. */
module ConnectionTrace {
  import opened Prelude
  import opened Mcs
  import opened SharePdu
  import opened Connection
  import opened ConnectionWire
  import RdpServer

  // ----- The expected trace -----

  function JoinRequests(user: u16, channels: seq<u16>): (r: seq<bytes>)
    ensures |r| == |channels|
  {
    seq(|channels|, k requires 0 <= k < |channels| => ChannelJoinRequest(user, channels[k]))
  }

  /** Connect Initial, Erect Domain, Attach User, the joins, Client Info, Confirm Active, the four finalization PDUs. */
  function Trace(cfg: Settings, user: u16, toJoin: seq<u16>, shareId: u32): seq<bytes> {
    [cfg.connectInitial, ErectDomainRequest(), AttachUserRequest()] + JoinRequests(user, toJoin)
    + [OnIo(user, cfg.clientInfo), OnIo(user, ConfirmActive(user, shareId, cfg.capabilities))]
      + FinalPdus(user, shareId)
  }

  /** `after` has taken exactly the next `k` PDUs of the inbox. */
  ghost predicate Took(before: Net, after: Net, k: nat) {
    k <= |before.inbox| && after.inbox == before.inbox[k..] && after.received == before.received + k
  }

  function IdIn(reply: Result<bytes>): u16 {
    if reply.Ok? && JoinedChannel(reply.value).Ok? then JoinedChannel(reply.value).value else 0
  }

  /** The ids confirmed in reply to the wanted requests, in request order. */
  function ConfirmedIds(user: u16, channels: seq<u16>, replies: seq<Result<bytes>>): seq<u16>
    requires |replies| >= |channels|
  {
    if channels == [] then []
    else
      (if Wanted(user, channels[0]) then [IdIn(replies[0])] else []) + ConfirmedIds(user, channels[1..], replies[1..])
  }

  /** The next `k` replies are join confirms. */
  ghost predicate AllConfirmed(inbox: seq<Result<bytes>>, k: nat) {
    k <= |inbox| && forall j :: 0 <= j < k ==> inbox[j].Ok? && JoinedChannel(inbox[j].value).Ok?
  }

  /** The payload of a Send Data Indication. */
  function Payload(reply: Result<bytes>): Option<bytes> {
    if reply.Ok? && Indicated(reply.value).Ok? then Some(Indicated(reply.value).value.1) else None
  }

  predicate IsStray(reply: Result<bytes>) {
    Payload(reply).Some? && !IsDemand(Payload(reply).value)
  }

  /** The k-th PDU is the first Demand Active, and it demands `shareId`. */
  ghost predicate DemandAt(inbox: seq<Result<bytes>>, k: nat, shareId: u32) {
    && k < |inbox| && (forall j :: 0 <= j < k ==> IsStray(inbox[j]))
    && Payload(inbox[k]).Some? && IsDemand(Payload(inbox[k]).value)
    && ParsedDemand(ParsedControl(Payload(inbox[k]).value).value.1).Ok?
    && ParsedDemand(ParsedControl(Payload(inbox[k]).value).value.1).value.shareId == shareId
  }

  /** The multitransport request in a PDU, if it is no share control PDU and has one. */
  function RequestIn(reply: Result<bytes>): Option<InitiateRequest> {
    if Payload(reply).Some? && ParsedControl(Payload(reply).value).Err? then Detected(Payload(reply).value) else None
  }

  /** The request noticed after these PDUs: one from before, else the first found among them. */
  function NoticedAmong(replies: seq<Result<bytes>>, before: Option<InitiateRequest>): Option<InitiateRequest> {
    if before.Some? then before
    else if replies == [] then None
    else if RequestIn(replies[0]).Some? then RequestIn(replies[0])
    else NoticedAmong(replies[1..], None)
  }

  lemma NoticedNext(replies: seq<Result<bytes>>, before: Option<InitiateRequest>)
    requires replies != [] && Payload(replies[0]).Some?
    ensures NoticedAmong(replies, before)
            == NoticedAmong(replies[1..], Noticed(Payload(replies[0]).value, before))
  {
    hide Detected, ParsedControl, Payload;
  }

  /**
   One of the first `limit` PDUs is the first Demand Active; it demands `shareId`, and `request` is the
   multitransport request noticed before it.
   */
  ghost predicate DemandWithin(inbox: seq<Result<bytes>>, limit: nat, shareId: u32,
                               before: Option<InitiateRequest>, request: Option<InitiateRequest>) {
    exists k: nat :: k < limit && DemandAt(inbox, k, shareId) && request == NoticedAmong(inbox[..k], before)
  }

  // ----- Phase by phase -----

  lemma SendTrace(n: Net, pdu: bytes)
    ensures var s := SendOn(n, pdu);
            && s.net.inbox == n.inbox && s.net.received == n.received
            && s.net.sent == if s.result.Ok? then n.sent + [pdu] else n.sent
    ensures n.faults == [] ==> SendOn(n, pdu) == Step(Ok(()), n.(sent := n.sent + [pdu]))
  {
  }

  lemma RecvTrace(n: Net)
    ensures var r := RecvOn(n);
            && r.net.sent == n.sent && r.net.received == n.received + 1 && r.net.faults == n.faults
            && (r.result.Ok? ==> n.inbox != [] && n.inbox[0] == r.result && r.net.inbox == n.inbox[1..])
  {
  }

  lemma {:induction false} JoinTrace(user: u16, channels: seq<u16>, n: Net, joined: seq<u16>)
    ensures var j := Joined(user, channels, n, joined);
            && n.sent <= j.net.sent <= n.sent + JoinRequests(user, channels)
            && j.net.received - n.received <= |j.net.sent| - |n.sent|
            && (j.result.Ok? ==>
                  && AllConfirmed(n.inbox, |channels|)
                  && Took(n, j.net, |channels|) && j.net.sent == n.sent + JoinRequests(user, channels)
                  && j.result.value == joined + ConfirmedIds(user, channels, n.inbox[..|channels|]))
    decreases |channels|
  {
    hide ChannelJoinRequest, JoinedChannel, SendOn, RecvOn, Wanted;
    if channels == [] {
      assert joined + [] == joined;
    } else {
      hide ConfirmedIds, JoinRequests;
      var s := SendOn(n, ChannelJoinRequest(user, channels[0]));
      SendTrace(n, ChannelJoinRequest(user, channels[0]));
      RequestsNext(user, channels);
      Regroup(n.sent, [ChannelJoinRequest(user, channels[0])], JoinRequests(user, channels[1..]));
      if s.result.Ok? {
        RecvTrace(s.net);
        var r := RecvOn(s.net);
        if r.result.Ok? && JoinedChannel(r.result.value).Ok? {
          var id := if Wanted(user, channels[0]) then [JoinedChannel(r.result.value).value] else [];
          JoinTrace(user, channels[1..], r.net, joined + id);
          if Joined(user, channels, n, joined).result.Ok? {
            ConfirmedNext(user, channels, n.inbox);
            Regroup(joined, id, ConfirmedIds(user, channels[1..], r.net.inbox[..|channels| - 1]));
          }
        }
      }
    }
  }

  lemma RequestsNext(user: u16, channels: seq<u16>)
    requires channels != []
    ensures JoinRequests(user, channels) == [ChannelJoinRequest(user, channels[0])] + JoinRequests(user, channels[1..])
  {
  }

  lemma ConfirmedNext(user: u16, channels: seq<u16>, inbox: seq<Result<bytes>>)
    requires 0 < |channels| <= |inbox|
    ensures ConfirmedIds(user, channels, inbox[..|channels|])
            == (if Wanted(user, channels[0]) then [IdIn(inbox[0])] else [])
               + ConfirmedIds(user, channels[1..], inbox[1..][..|channels| - 1])
  {
    hide Wanted, IdIn;
    assert inbox[..|channels|][1..] == inbox[1..][..|channels| - 1];
  }

  lemma RecvOnIoTrace(n: Net)
    ensures var r := RecvOnIo(n);
            && r.net.sent == n.sent && r.net.received == n.received + 1 && r.net.faults == n.faults
            && (r.result.Ok? ==>
                  && n.inbox != [] && Payload(n.inbox[0]) == Some(r.result.value)
                  && r.net.inbox == n.inbox[1..])
            && (n.inbox != [] && Payload(n.inbox[0]).Some? ==> r.result == Ok(Payload(n.inbox[0]).value))
  {
    hide Indicated;
  }

  lemma {:induction false} DemandTrace(n: Net, left: nat, before: Option<InitiateRequest>)
    ensures var d := DemandAwaited(n, left, before);
            && d.net.sent == n.sent && d.net.received <= n.received + left
            && (d.result.Ok? ==> DemandWithin(n.inbox, left, d.result.value.0.shareId, before, d.result.value.1))
    decreases left
  {
    hide RecvOnIo, Noticed, ParsedControl, ParsedDemand, IsDemand, Payload;
    if left > 0 {
      RecvOnIoTrace(n);
      var r := RecvOnIo(n);
      if r.result.Ok? {
        if IsDemand(r.result.value) {
          DemandParses(r.result.value);
          var d := DemandAwaited(n, left, before);
          assert d.result.Ok? ==>
              && DemandAt(n.inbox, 0, d.result.value.0.shareId)
              && d.result.value.1 == NoticedAmong(n.inbox[..0], before);
        } else {
          DemandTrace(r.net, left - 1, Noticed(r.result.value, before));
          var d := DemandAwaited(n, left, before);
          if d.result.Ok? {
            var noticed := Noticed(r.result.value, before);
            var k: nat :| k < left - 1 && DemandAt(r.net.inbox, k, d.result.value.0.shareId)
                          && d.result.value.1 == NoticedAmong(r.net.inbox[..k], noticed);
            forall j | 0 <= j < k + 1
              ensures IsStray(n.inbox[j])
            {
              if j > 0 {
                assert n.inbox[j] == r.net.inbox[j - 1];
              }
            }
            assert n.inbox[k + 1] == r.net.inbox[k];
            assert n.inbox[..k + 1][1..] == r.net.inbox[..k];
            NoticedNext(n.inbox[..k + 1], before);
            assert DemandAt(n.inbox, k + 1, d.result.value.0.shareId);
          }
        }
      }
    }
  }

  lemma DemandParses(pdu: bytes)
    requires IsDemand(pdu)
    ensures ParsedControl(pdu).Ok?
  {
  }

  lemma {:induction false} SendAllTrace(n: Net, pdus: seq<bytes>)
    ensures var s := SendAll(n, pdus);
            && n.sent <= s.net.sent <= n.sent + pdus && s.net.inbox == n.inbox && s.net.received == n.received
            && (s.result.Ok? ==> s.net.sent == n.sent + pdus)
            && (n.faults == [] ==> s.result.Ok? && s.net.faults == [])
    decreases |pdus|
  {
    hide SendOn;
    if pdus != [] {
      SendTrace(n, pdus[0]);
      assert n.sent + pdus == (n.sent + [pdus[0]]) + pdus[1..];
      SendAllTrace(SendOn(n, pdus[0]).net, pdus[1..]);
    }
  }

  lemma {:induction false} DrainTrace(n: Net, left: nat, seen: nat)
    ensures var d := Drained(n, left, seen);
            d.net.sent == n.sent && d.net.received <= n.received + left
    decreases left
  {
    hide RecvOnIo, IsShareData;
    if left > 0 && seen < 4 {
      RecvOnIoTrace(n);
      var r := RecvOnIo(n);
      if r.result.Ok? {
        DrainTrace(r.net, left - 1, seen + if IsShareData(r.result.value) then 1 else 0);
      }
    }
  }

  lemma FinalTrace(user: u16, shareId: u32, n: Net)
    ensures var f := Finalized(user, shareId, n);
            && n.sent <= f.net.sent <= n.sent + FinalPdus(user, shareId) && f.net.received <= n.received + MAX_SKIP
            && (|f.net.sent| < |n.sent| + 4 ==> f.net.received == n.received)
            && (f.result.Ok? ==> f.net.sent == n.sent + FinalPdus(user, shareId))
  {
    hide FinalPdus, SendAll, Drained;
    SendAllTrace(n, FinalPdus(user, shareId));
    DrainTrace(SendAll(n, FinalPdus(user, shareId)).net, MAX_SKIP, 0);
  }

  // ----- The whole sequence -----

  function Opening(cfg: Settings): seq<bytes> {
    [cfg.connectInitial, ErectDomainRequest(), AttachUserRequest()]
  }

  function Closing(cfg: Settings, user: u16, shareId: u32): seq<bytes> {
    [OnIo(user, cfg.clientInfo), OnIo(user, ConfirmActive(user, shareId, cfg.capabilities))] + FinalPdus(user, shareId)
  }

  /** Settings exchange and user attachment. */
  lemma OpeningTrace(cfg: Settings, n: Net)
    ensures var b := SettingsExchanged(cfg, n);
            && n.sent <= b.net.sent <= n.sent + Opening(cfg) && |b.net.sent| <= |n.sent| + 1
            && b.net.received - n.received <= |b.net.sent| - |n.sent|
            && (b.result.Ok? ==>
                  && Took(n, b.net, 1) && n.inbox[0].Ok? && b.result == cfg.networkData(n.inbox[0].value)
                  && var a := Attached(b.net);
                     && b.net.sent <= a.net.sent <= n.sent + Opening(cfg)
                     && a.net.received <= n.received + (if |a.net.sent| < |n.sent| + 3 then 1 else 2)
                     && (a.result.Ok? ==>
                           && Took(n, a.net, 2) && a.net.sent == n.sent + Opening(cfg)
                           && n.inbox[1].Ok? && a.result == AttachedUser(n.inbox[1].value)))
  {
    hide ErectDomainRequest, AttachUserRequest, SendOn, RecvOn, AttachedUser;
    SendTrace(n, cfg.connectInitial);
    RecvTrace(SendOn(n, cfg.connectInitial).net);
    var b := SettingsExchanged(cfg, n);
    if b.result.Ok? {
      SendTrace(b.net, ErectDomainRequest());
      var e := SendOn(b.net, ErectDomainRequest());
      SendTrace(e.net, AttachUserRequest());
      RecvTrace(SendOn(e.net, AttachUserRequest()).net);
    }
  }

  /** A Demand Active among the PDUs the client looks at demands `shareId`. */
  ghost predicate Demands(inbox: seq<Result<bytes>>, shareId: u32) {
    exists k: nat :: k < MAX_SKIP && DemandAt(inbox, k, shareId)
  }

  /**
   From Client Info on: nothing after it unless a Demand Active came, and then what follows carries its share
   id; sixteen receives before the last finalization PDU, thirty-two after it.
   */
  lemma ClosingTrace(cfg: Settings, user: u16, n: Net)
    ensures var a := Activated(cfg, user, n);
            var more := |a.net.sent| - |n.sent|;
            && n.sent <= a.net.sent
            && (more <= 1 ==> a.net.sent <= n.sent + [OnIo(user, cfg.clientInfo)])
            && (more > 1 ==>
                  exists shareId :: Demands(n.inbox, shareId) && a.net.sent <= n.sent + Closing(cfg, user, shareId))
            && a.net.received <= n.received + (if more == 0 then 0 else if more < 6 then MAX_SKIP else 2 * MAX_SKIP)
            && (a.result.Ok? ==>
                  && a.net.sent == n.sent + Closing(cfg, user, a.result.value.0.shareId)
                  && DemandWithin(n.inbox, MAX_SKIP, a.result.value.0.shareId, None, a.result.value.1))
  {
    hide SendOn, DemandAwaited, Finalized, FinalPdus, ConfirmActive, OnIo, DemandAt, NoticedAmong;
    var info := SendOn(n, OnIo(user, cfg.clientInfo));
    SendTrace(n, OnIo(user, cfg.clientInfo));
    if info.result.Ok? {
      DemandTrace(info.net, MAX_SKIP, None);
      var d := DemandAwaited(info.net, MAX_SKIP, None);
      if d.result.Ok? {
        var demanded := d.result.value.0.shareId;
        assert Demands(n.inbox, demanded);
        ConfirmedTrace(cfg, user, demanded, d.net);
        Regrouped(n.sent, OnIo(user, cfg.clientInfo), OnIo(user, ConfirmActive(user, demanded, cfg.capabilities)),
          FinalPdus(user, demanded));
      }
    }
  }

  /** Confirm Active and finalization. */
  lemma ConfirmedTrace(cfg: Settings, user: u16, shareId: u32, n: Net)
    ensures var confirm := OnIo(user, ConfirmActive(user, shareId, cfg.capabilities));
            var c := SendOn(n, confirm);
            && c.net.received == n.received && c.net.sent == (if c.result.Ok? then n.sent + [confirm] else n.sent)
            && (c.result.Ok? ==>
                  var f := Finalized(user, shareId, c.net);
                  && n.sent + [confirm] <= f.net.sent <= n.sent + [confirm] + FinalPdus(user, shareId)
                  && f.net.received <= n.received + (if |f.net.sent| - |n.sent| < 5 then 0 else MAX_SKIP)
                  && (f.result.Ok? ==> f.net.sent == n.sent + [confirm] + FinalPdus(user, shareId)))
  {
    hide SendOn, Finalized, FinalPdus, ConfirmActive, OnIo;
    var confirm := OnIo(user, ConfirmActive(user, shareId, cfg.capabilities));
    SendTrace(n, confirm);
    FinalTrace(user, shareId, SendOn(n, confirm).net);
  }

  lemma Regrouped(before: seq<bytes>, x: bytes, y: bytes, others: seq<bytes>)
    ensures before + [x] + [y] + others == before + ([x, y] + others)
    ensures before + [x] <= before + ([x, y] + others)
  {
  }

  /** The attached user and the server's network data, once both have been received. */
  function Assigned(cfg: Settings, inbox: seq<Result<bytes>>): Option<(u16, ServerNetwork)> {
    if |inbox| >= 2 && inbox[0].Ok? && cfg.networkData(inbox[0].value).Ok? && inbox[1].Ok?
      && AttachedUser(inbox[1].value).Ok? then
      Some((AttachedUser(inbox[1].value).value, cfg.networkData(inbox[0].value).value))
    else None
  }

  /** How often a client may have received after sending `s` PDUs, `joins` of which it is to send as joins. */
  function ReceiveBudget(s: nat, joins: nat): nat {
    if s < 3 then Min(s, 1)
    else if s <= 3 + joins then s - 1
    else if s < 9 + joins then 2 + joins + MAX_SKIP
    else 2 + joins + 2 * MAX_SKIP
  }

  /** How far a run can have got, in terms of what its own inbox says. */
  ghost predicate FollowsTrace(cfg: Settings, n: Net, after: Net) {
    n.sent <= after.sent &&
    var s := |after.sent| - |n.sent|;
    match Assigned(cfg, n.inbox)
    case None => s <= 3 && after.sent <= n.sent + Opening(cfg) && after.received <= n.received + ReceiveBudget(s, 0)
    case Some((user, server)) =>
      var toJoin := ToJoin(user, server);
      var joins := n.sent + Opening(cfg) + JoinRequests(user, toJoin);
      && after.received <= n.received + ReceiveBudget(s, |toJoin|)
      && (s <= 3 + |toJoin| ==> after.sent <= joins)
      && (s > 3 + |toJoin| ==> AllConfirmed(n.inbox[2..], |toJoin|))
      && (s == 4 + |toJoin| ==> after.sent == joins + [OnIo(user, cfg.clientInfo)])
      && (s > 4 + |toJoin| ==>
            exists shareId ::
              && Demands(n.inbox[2 + |toJoin|..], shareId)
              && after.sent <= n.sent + Trace(cfg, user, toJoin, shareId))
  }

  lemma TraceParts(cfg: Settings, user: u16, toJoin: seq<u16>, shareId: u32, before: seq<bytes>)
    ensures before + Trace(cfg, user, toJoin, shareId)
            == before + Opening(cfg) + JoinRequests(user, toJoin) + Closing(cfg, user, shareId)
  {
    hide ErectDomainRequest, AttachUserRequest, JoinRequests, FinalPdus, ConfirmActive, OnIo;
  }

  /**
   In every run, whichever sends and receives fail and whatever the server answers: the client stays on the
   expected order of PDUs, for the user it was attached as, the channels it was assigned and the share id it
   was demanded; Client Info waits for every join's confirm and Confirm Active for a Demand Active; and the
   receives never run ahead of the sends they answer.
   */
  lemma EveryRunFollowsTrace(cfg: Settings, n: Net)
    ensures FollowsTrace(cfg, n, Established(cfg, n).net)
  {
    hide SettingsExchanged, Attached, Joined, Activated, ToJoin, Trace, Opening, JoinRequests, Closing, AllConfirmed,
      Demands, AttachedUser;
    OpeningTrace(cfg, n);
    OpeningSize(cfg);
    var b := SettingsExchanged(cfg, n);
    if b.result.Ok? {
      var a := Attached(b.net);
      if a.result.Ok? {
        JoinedRun(cfg, n, a.net, a.result.value, b.result.value);
      }
    }
  }

  lemma OpeningSize(cfg: Settings)
    ensures |Opening(cfg)| == 3
  {
  }

  /** A run that got as far as the joins. */
  lemma JoinedRun(cfg: Settings, n: Net, a: Net, user: u16, server: ServerNetwork)
    requires Took(n, a, 2) && a.sent == n.sent + Opening(cfg) && Assigned(cfg, n.inbox) == Some((user, server))
    ensures var j := Joined(user, ToJoin(user, server), a, []);
            FollowsTrace(cfg, n, if j.result.Ok? then Activated(cfg, user, j.net).net else j.net)
  {
    hide Joined, Activated, ToJoin, Trace, Opening, JoinRequests, Closing, AllConfirmed, Demands, Assigned;
    var toJoin := ToJoin(user, server);
    OpeningSize(cfg);
    JoinTrace(user, toJoin, a, []);
    var j := Joined(user, toJoin, a, []);
    if j.result.Ok? {
      ClosingTrace(cfg, user, j.net);
      var c := Activated(cfg, user, j.net);
      assert j.net.inbox == n.inbox[2 + |toJoin|..];
      if |c.net.sent| - |j.net.sent| > 1 {
        var shareId := ClosedTrace(cfg, n.sent, j.net, c.net, user, toJoin);
      }
    }
  }

  /** What was sent after the joins continues the expected trace. */
  lemma ClosedTrace(cfg: Settings, before: seq<bytes>, j: Net, c: Net, user: u16, toJoin: seq<u16>)
    returns (shareId: u32)
    requires j.sent == before + Opening(cfg) + JoinRequests(user, toJoin)
    requires exists shareId :: Demands(j.inbox, shareId) && c.sent <= j.sent + Closing(cfg, user, shareId)
    ensures Demands(j.inbox, shareId) && c.sent <= before + Trace(cfg, user, toJoin, shareId)
    ensures |c.sent| <= |j.sent| + 6
  {
    hide Trace, Opening, JoinRequests, Closing, Demands;
    shareId :| Demands(j.inbox, shareId) && c.sent <= j.sent + Closing(cfg, user, shareId);
    TraceParts(cfg, user, toJoin, shareId, before);
    ClosingLength(cfg, user, shareId);
  }

  lemma ClosingLength(cfg: Settings, user: u16, shareId: u32)
    ensures |Closing(cfg, user, shareId)| == 6
  {
  }

  /**
   A successful run has sent exactly the expected trace for the attached user, the server's channels and the
   demanded share id; it received at most 2 + joins + 32 times; the channel ids are those confirmed for the
   requests other than the user and I/O channels, in request order; the multitransport request is the first
   one noticed before the Demand Active.
   */
  lemma SessionTrace(cfg: Settings, n: Net)
    requires Established(cfg, n).result.Ok?
    ensures |n.inbox| >= 2 && n.inbox[0].Ok? && n.inbox[1].Ok? && cfg.networkData(n.inbox[0].value).Ok?
    ensures var session, after := Established(cfg, n).result.value, Established(cfg, n).net;
            var toJoin := ToJoin(session.userId, cfg.networkData(n.inbox[0].value).value);
            && AttachedUser(n.inbox[1].value) == Ok(session.userId) && session.ioChannel == IO_CHANNEL
            && after.sent == n.sent + Trace(cfg, session.userId, toJoin, session.shareId)
            && OpeningRead(cfg, after.sent[|n.sent|..], session.userId, cfg.networkData(n.inbox[0].value).value)
            && after.received <= n.received + 2 + |toJoin| + 32
            && |n.inbox| >= 2 + |toJoin|
            && session.channelIds == ConfirmedIds(session.userId, toJoin, n.inbox[2..2 + |toJoin|])
            && DemandWithin(n.inbox[2 + |toJoin|..], MAX_SKIP, session.shareId, None, session.multitransport)
  {
    hide SettingsExchanged, Attached, Joined, Activated, ToJoin, Trace, Opening, JoinRequests, Closing, ConfirmedIds,
      DemandWithin, AttachedUser, OpeningRead;
    OpeningTrace(cfg, n);
    var b := SettingsExchanged(cfg, n);
    var a := Attached(b.net);
    var user := a.result.value;
    var toJoin := ToJoin(user, b.result.value);
    JoinTrace(user, toJoin, a.net, []);
    var j := Joined(user, toJoin, a.net, []);
    ClosingTrace(cfg, user, j.net);
    var session := Established(cfg, n).result.value;
    TraceIsRead(cfg, user, b.result.value, session.shareId);
    assert (n.sent + Trace(cfg, user, toJoin, session.shareId))[|n.sent|..]
           == Trace(cfg, user, toJoin, session.shareId);
    TraceParts(cfg, user, toJoin, session.shareId, n.sent);
    assert a.net.inbox[..|toJoin|] == n.inbox[2..2 + |toJoin|];
    assert j.net.inbox == n.inbox[2 + |toJoin|..];
    assert [] + ConfirmedIds(user, toJoin, n.inbox[2..2 + |toJoin|])
           == ConfirmedIds(user, toJoin, n.inbox[2..2 + |toJoin|]);
  }

  /** The server reads the joins off the trace, for the user and in the order expected. */
  lemma TraceIsRead(cfg: Settings, user: u16, server: ServerNetwork, shareId: u32)
    ensures OpeningRead(cfg, Trace(cfg, user, ToJoin(user, server), shareId), user, server)
  {
    hide ErectDomainRequest, AttachUserRequest, ChannelJoinRequest, OpeningRead, ToJoin, FinalPdus, OnIo, ConfirmActive;
    var sent := Trace(cfg, user, ToJoin(user, server), shareId);
    forall k | 0 <= k < |ToJoin(user, server)|
      ensures sent[3 + k] == ChannelJoinRequest(user, ToJoin(user, server)[k])
    {
      assert sent[3 + k] == JoinRequests(user, ToJoin(user, server))[k];
    }
    OpeningIsRead(cfg, sent, user, server);
  }

  /**
   A successful run whose PDUs fit is read by a server from the first PDU to the last: the joins, then six PDUs of data
   on the I/O channel, from Client Info and the Confirm Active with the demanded share id to the font list.
   */
  lemma SessionIsRead(cfg: Settings, n: Net)
    requires Established(cfg, n).result.Ok? && InfoFits(cfg)
    ensures |n.inbox| >= 1 && n.inbox[0].Ok? && cfg.networkData(n.inbox[0].value).Ok?
    ensures var session, sent := Established(cfg, n).result.value, Established(cfg, n).net.sent;
            n.sent <= sent && SessionRead(cfg, sent[|n.sent|..], session.userId, session.shareId,
                                          cfg.networkData(n.inbox[0].value).value)
  {
    hide Established, OpeningRead, ClosingRead, ConfirmedIds, DemandWithin, AttachedUser, Trace;
    SessionTrace(cfg, n);
    var session, server := Established(cfg, n).result.value, cfg.networkData(n.inbox[0].value).value;
    var toJoin := ToJoin(session.userId, server);
    assert toJoin == ExpectedJoins(session.userId, server);
    var trace := Trace(cfg, session.userId, toJoin, session.shareId);
    assert Established(cfg, n).net.sent[|n.sent|..] == trace;
    ClosingOfTrace(cfg, session.userId, toJoin, session.shareId);
    ClosingIsRead(cfg, session.userId, session.shareId);
  }

  lemma ClosingOfTrace(cfg: Settings, user: u16, toJoin: seq<u16>, shareId: u32)
    ensures var trace := Trace(cfg, user, toJoin, shareId);
            |trace| >= 3 + |toJoin| && trace[3 + |toJoin|..] == ClosingPdus(cfg, user, shareId)
  {
    hide ErectDomainRequest, AttachUserRequest, JoinRequests, FinalPdus, ConfirmActive, OnIo;
  }
}
