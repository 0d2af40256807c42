/** NTLM sealing: sections 3.4.3 and 3.4.4.2 of [MS-NLMP]. */
module Sspi {
  import opened Prelude
  import opened Bits
  import opened Crypto

  const CLIENT_SIGN_MAGIC: bytes := Ascii("session key to client-to-server signing key magic constant\0")
  const SERVER_SIGN_MAGIC: bytes := Ascii("session key to server-to-client signing key magic constant\0")
  const CLIENT_SEAL_MAGIC: bytes := Ascii("session key to client-to-server sealing key magic constant\0")
  const SERVER_SEAL_MAGIC: bytes := Ascii("session key to server-to-client sealing key magic constant\0")

  datatype Role = Client | Server

  /** A security context as a value: keys, keystream positions, sequence numbers. */
  datatype Context = Context(
    ownSigning: bytes, peerSigning: bytes, ownKey: bytes, peerKey: bytes,
    ownPos: nat, peerPos: nat, sendSeq: u32, recvSeq: u32)

  function DeriveKey(c: Primitives, exported: bytes, magic: bytes): bytes {
    c.md5(exported + magic)
  }

  function NewContext(c: Primitives, role: Role, exported: bytes): Context {
    var clientSign, serverSign := DeriveKey(c, exported, CLIENT_SIGN_MAGIC), DeriveKey(c, exported, SERVER_SIGN_MAGIC);
    var clientSeal, serverSeal := DeriveKey(c, exported, CLIENT_SEAL_MAGIC), DeriveKey(c, exported, SERVER_SEAL_MAGIC);
    match role
    case Client => Context(clientSign, serverSign, clientSeal, serverSeal, 0, 0, 0, 0)
    case Server => Context(serverSign, clientSign, serverSeal, clientSeal, 0, 0, 0, 0)
  }

  function Successor(seqNum: u32): u32 {
    (seqNum + 1) % 0x1_0000_0000
  }

  /** First eight HMAC bytes over sequence number and plaintext. */
  function Mac(c: Primitives, signing: bytes, seqNum: u32, plaintext: bytes): (r: bytes)
    requires c.Valid()
    ensures |r| == 8
  {
    c.hmac(signing, U32Le(seqNum) + plaintext)[..8]
  }

  /** The sealed form of a message at one keystream position and sequence number. */
  function Blob(c: Primitives, signing: bytes, key: bytes, pos: nat, seqNum: u32, message: bytes): (r: bytes)
    requires c.Valid()
    ensures |r| == 16 + |message|
  {
    U32Le(1) + Rc4At(c, key, pos + |message|, Mac(c, signing, seqNum, message)) + U32Le(seqNum)
      + Rc4At(c, key, pos, message)
  }

  function Sealed(c: Primitives, ctx: Context, message: bytes): (bytes, Context)
    requires c.Valid()
  {
    (Blob(c, ctx.ownSigning, ctx.ownKey, ctx.ownPos, ctx.sendSeq, message),
     ctx.(ownPos := ctx.ownPos + |message| + 8, sendSeq := Successor(ctx.sendSeq)))
  }

  /** On a bad signature the keystream has moved on but the sequence number has not. */
  function Unsealed(c: Primitives, ctx: Context, blob: bytes): (Result<bytes>, Context)
    requires c.Valid()
  {
    if |blob| < 16 then (Err(Short(16, |blob|)), ctx)
    else
      var plaintext := Rc4At(c, ctx.peerKey, ctx.peerPos, blob[16..]);
      var expected := Rc4At(c, ctx.peerKey, ctx.peerPos + |plaintext|, Mac(c, ctx.peerSigning, ctx.recvSeq, plaintext));
      var ctx := ctx.(peerPos := ctx.peerPos + |plaintext| + 8);
      if blob[4..12] != expected then (Err(Protocol(SignatureMismatch)), ctx)
      else (Ok(plaintext), ctx.(recvSeq := Successor(ctx.recvSeq)))
  }

  // ----- The object -----

  class SecurityContext {
    const c: Primitives
    var ownSigning: bytes
    var peerSigning: bytes
    const ownSeal: Rc4
    const peerSeal: Rc4
    var sendSeq: u32
    var recvSeq: u32

    ghost predicate Valid() {
      c.Valid() && ownSeal != peerSeal && ownSeal.c == c && peerSeal.c == c
    }

    ghost function View(): Context
      reads this, ownSeal, peerSeal
    {
      Context(ownSigning, peerSigning, ownSeal.key, peerSeal.key, ownSeal.pos, peerSeal.pos, sendSeq, recvSeq)
    }

    constructor (c: Primitives, role: Role, exported: bytes)
      requires c.Valid()
      ensures Valid() && this.c == c && fresh(ownSeal) && fresh(peerSeal)
      ensures View() == NewContext(c, role, exported)
    {
      hide DeriveKey;
      var clientSign := DeriveKey(c, exported, CLIENT_SIGN_MAGIC);
      var serverSign := DeriveKey(c, exported, SERVER_SIGN_MAGIC);
      var clientSeal := DeriveKey(c, exported, CLIENT_SEAL_MAGIC);
      var serverSeal := DeriveKey(c, exported, SERVER_SEAL_MAGIC);
      var ownKey, peerKey;
      match role {
        case Client =>
          ownSigning, peerSigning, ownKey, peerKey := clientSign, serverSign, clientSeal, serverSeal;
        case Server =>
          ownSigning, peerSigning, ownKey, peerKey := serverSign, clientSign, serverSeal, clientSeal;
      }
      this.c := c;
      var own := new Rc4(c, ownKey);
      var peer := new Rc4(c, peerKey);
      ownSeal, peerSeal := own, peer;
      sendSeq, recvSeq := 0, 0;
    }

    /** The signature checksum, encrypted on the handle right after the message. */
    static method Checksum(signing: bytes, seqNum: u32, plaintext: bytes, handle: Rc4) returns (cs: bytes)
      requires handle.c.Valid()
      modifies handle
      ensures cs == Rc4At(handle.c, handle.key, old(handle.pos), Mac(handle.c, signing, seqNum, plaintext))
      ensures handle.pos == old(handle.pos) + 8
    {
      var full := handle.c.hmac(signing, U32Le(seqNum) + plaintext);
      var buf := CopyOf(full[..8]);
      handle.ApplyKeystream(buf);
      cs := buf[..];
    }

    method Seal(message: bytes) returns (blob: bytes)
      requires Valid()
      modifies this, ownSeal
      ensures (blob, View()) == Sealed(c, old(View()), message)
    {
      var ciphertext := CopyOf(message);
      ownSeal.ApplyKeystream(ciphertext);
      var cs := Checksum(ownSigning, sendSeq, message, ownSeal);
      blob := U32Le(1) + cs + U32Le(sendSeq) + ciphertext[..];
      sendSeq := Successor(sendSeq);
    }

    method Unseal(blob: bytes) returns (r: Result<bytes>)
      requires Valid()
      modifies this, peerSeal
      ensures (r, View()) == Unsealed(c, old(View()), blob)
    {
      if |blob| < 16 {
        return Err(Short(16, |blob|));
      }
      var plaintext := CopyOf(blob[16..]);
      peerSeal.ApplyKeystream(plaintext);
      var expected := Checksum(peerSigning, recvSeq, plaintext[..], peerSeal);
      if blob[4..12] != expected {
        return Err(Protocol(SignatureMismatch));
      }
      recvSeq := Successor(recvSeq);
      r := Ok(plaintext[..]);
    }
  }

  method CopyOf(s: bytes) returns (a: array<byte>)
    ensures fresh(a) && a[..] == s
  {
    a := new byte[|s|](i requires 0 <= i < |s| => s[i]);
  }

  // ----- One message -----

  /** A context whose peer side stands where a blob was sealed opens it to the message. */
  lemma OpensBlob(c: Primitives, ctx: Context, message: bytes)
    requires c.Valid()
    ensures var blob := Blob(c, ctx.peerSigning, ctx.peerKey, ctx.peerPos, ctx.recvSeq, message);
            Unsealed(c, ctx, blob)
            == (Ok(message), ctx.(peerPos := ctx.peerPos + |message| + 8, recvSeq := Successor(ctx.recvSeq)))
  {
    hide Rc4At, Mac;
    var blob := Blob(c, ctx.peerSigning, ctx.peerKey, ctx.peerPos, ctx.recvSeq, message);
    assert blob[16..] == Rc4At(c, ctx.peerKey, ctx.peerPos, message);
    Rc4Involution(c, ctx.peerKey, ctx.peerPos, message);
  }

  /** Only the checksum of the signature is checked: version and sequence number fields may hold anything. */
  lemma SignatureHeaderUnchecked(c: Primitives, ctx: Context, blob: bytes, other: bytes)
    requires c.Valid() && 16 <= |blob| == |other| && blob[4..12] == other[4..12] && blob[16..] == other[16..]
    ensures Unsealed(c, ctx, blob) == Unsealed(c, ctx, other)
  {
  }

  lemma Rc4Injective(c: Primitives, key: bytes, pos: nat, a: bytes, b: bytes)
    requires Rc4At(c, key, pos, a) == Rc4At(c, key, pos, b)
    ensures a == b
  {
    hide Rc4At;
    Rc4Involution(c, key, pos, a);
    Rc4Involution(c, key, pos, b);
  }

  /** A refused blob uses up keystream all the same, but no sequence number; one without a signature uses up nothing. */
  lemma RefusedBlobMoves(c: Primitives, ctx: Context, blob: bytes)
    requires c.Valid() && Unsealed(c, ctx, blob).0.Err?
    ensures if |blob| < 16 then Unsealed(c, ctx, blob) == (Err(Short(16, |blob|)), ctx)
            else Unsealed(c, ctx, blob) == (Err(Protocol(SignatureMismatch)), ctx.(peerPos := ctx.peerPos + |blob| - 8))
  {
  }

  /** The same checksum and ciphertext; the version and sequence number fields are left out. */
  predicate SameSealing(a: bytes, b: bytes) {
    16 <= |a| == |b| && a[4..12] == b[4..12] && a[16..] == b[16..]
  }

  /** A blob opens to a message exactly if it is the message's own sealing at that position, header fields aside. */
  lemma OnlyOwnSealingOpens(c: Primitives, ctx: Context, blob: bytes, message: bytes)
    requires c.Valid()
    ensures Unsealed(c, ctx, blob).0 == Ok(message) <==>
            SameSealing(blob, Blob(c, ctx.peerSigning, ctx.peerKey, ctx.peerPos, ctx.recvSeq, message))
  {
    hide Rc4At, Mac;
    var own := Blob(c, ctx.peerSigning, ctx.peerKey, ctx.peerPos, ctx.recvSeq, message);
    assert own[16..] == Rc4At(c, ctx.peerKey, ctx.peerPos, message);
    assert own[4..12] == Rc4At(c, ctx.peerKey, ctx.peerPos + |message|, Mac(c, ctx.peerSigning, ctx.recvSeq, message));
    Rc4Involution(c, ctx.peerKey, ctx.peerPos, message);
    if |blob| >= 16 {
      Rc4Involution(c, ctx.peerKey, ctx.peerPos, blob[16..]);
    }
  }

  /** A changed ciphertext under the same checksum is accepted only on a collision of truncated MACs. */
  lemma TamperingNeedsCollision(c: Primitives, ctx: Context, message: bytes, forged: bytes)
    requires c.Valid()
    requires var blob := Blob(c, ctx.peerSigning, ctx.peerKey, ctx.peerPos, ctx.recvSeq, message);
             |forged| == |blob| && forged[4..12] == blob[4..12] && forged[16..] != blob[16..]
    ensures Unsealed(c, ctx, forged).0.Ok? <==>
            exists m :: m != message && |m| == |message| && forged[16..] == Rc4At(c, ctx.peerKey, ctx.peerPos, m)
                        && Mac(c, ctx.peerSigning, ctx.recvSeq, m) == Mac(c, ctx.peerSigning, ctx.recvSeq, message)
  {
    hide Rc4At, Mac;
    var blob := Blob(c, ctx.peerSigning, ctx.peerKey, ctx.peerPos, ctx.recvSeq, message);
    assert blob[16..] == Rc4At(c, ctx.peerKey, ctx.peerPos, message);
    assert blob[4..12] == Rc4At(c, ctx.peerKey, ctx.peerPos + |message|, Mac(c, ctx.peerSigning, ctx.recvSeq, message));
    var m := Rc4At(c, ctx.peerKey, ctx.peerPos, forged[16..]);
    Rc4Involution(c, ctx.peerKey, ctx.peerPos, forged[16..]);
    if Unsealed(c, ctx, forged).0.Ok? {
      Rc4Injective(c, ctx.peerKey, ctx.peerPos + |message|,
                   Mac(c, ctx.peerSigning, ctx.recvSeq, m), Mac(c, ctx.peerSigning, ctx.recvSeq, message));
    }
    forall m' | forged[16..] == Rc4At(c, ctx.peerKey, ctx.peerPos, m')
      ensures m' == m
    {
      Rc4Injective(c, ctx.peerKey, ctx.peerPos, m', m);
    }
  }

  // ----- Two parties -----

  /** A sealed message on its way, with what was sealed. */
  datatype Flight = Flight(blob: bytes, message: bytes)

  /** Both contexts and the two in-order channels between them. */
  datatype World = World(client: Context, server: Context, toServer: seq<Flight>, toClient: seq<Flight>)

  datatype Action = Seal(who: Role, message: bytes) | Deliver(to: Role)

  function StartWorld(c: Primitives, exported: bytes): World {
    World(NewContext(c, Client, exported), NewContext(c, Server, exported), [], [])
  }

  /**
   One action; the second component is what a delivery's `unseal` returned. Delivering from an empty channel does
   nothing.
   */
  function Next(c: Primitives, w: World, a: Action): (World, Option<Result<bytes>>)
    requires c.Valid()
  {
    match a
    case Seal(Client, m) =>
      var (blob, ctx) := Sealed(c, w.client, m);
      (w.(client := ctx, toServer := w.toServer + [Flight(blob, m)]), None)
    case Seal(Server, m) =>
      var (blob, ctx) := Sealed(c, w.server, m);
      (w.(server := ctx, toClient := w.toClient + [Flight(blob, m)]), None)
    case Deliver(Server) =>
      if w.toServer == [] then (w, None)
      else
        var (r, ctx) := Unsealed(c, w.server, w.toServer[0].blob);
        (w.(server := ctx, toServer := w.toServer[1..]), Some(r))
    case Deliver(Client) =>
      if w.toClient == [] then (w, None)
      else
        var (r, ctx) := Unsealed(c, w.client, w.toClient[0].blob);
        (w.(client := ctx, toClient := w.toClient[1..]), Some(r))
  }

  function RunWorld(c: Primitives, w: World, actions: seq<Action>): World
    requires c.Valid()
  {
    if actions == [] then w
    else Next(c, RunWorld(c, w, actions[..|actions| - 1]), actions[|actions| - 1]).0
  }

  /** Keystream bytes the flights use up. */
  function Weight(flights: seq<Flight>): nat {
    if flights == [] then 0 else |flights[0].message| + 8 + Weight(flights[1..])
  }

  function Advance(seqNum: u32, n: nat): u32 {
    (seqNum + n) % 0x1_0000_0000
  }

  lemma AdvanceAdds(seqNum: u32, n: nat)
    ensures Advance(Successor(seqNum), n) == Advance(seqNum, n + 1)
    ensures Successor(Advance(seqNum, n)) == Advance(seqNum, n + 1)
    ensures Advance(seqNum, 0) == seqNum
  {
    Wrap32(seqNum + 1, n);
    Wrap32(seqNum + n, 1);
  }

  /** Each flight was sealed right after the one before it, the first at `pos` and `seqNum`. */
  ghost predicate SealedInTurn(c: Primitives, signing: bytes, key: bytes, pos: nat, seqNum: u32, flights: seq<Flight>)
    requires c.Valid()
    decreases |flights|
  {
    flights == [] ||
    (flights[0].blob == Blob(c, signing, key, pos, seqNum, flights[0].message) &&
     SealedInTurn(c, signing, key, pos + |flights[0].message| + 8, Successor(seqNum), flights[1..]))
  }

  /** One direction: same keys, and the sender ahead of the receiver by exactly what is in flight. */
  ghost predicate ChannelInStep(c: Primitives, sender: Context, receiver: Context, flights: seq<Flight>)
    requires c.Valid()
  {
    && sender.ownSigning == receiver.peerSigning && sender.ownKey == receiver.peerKey
    && sender.ownPos == receiver.peerPos + Weight(flights)
    && sender.sendSeq == Advance(receiver.recvSeq, |flights|)
    && SealedInTurn(c, receiver.peerSigning, receiver.peerKey, receiver.peerPos, receiver.recvSeq, flights)
  }

  ghost predicate Lockstep(c: Primitives, w: World)
    requires c.Valid()
  {
    ChannelInStep(c, w.client, w.server, w.toServer) && ChannelInStep(c, w.server, w.client, w.toClient)
  }

  lemma {:induction false} SealedNext(c: Primitives, signing: bytes, key: bytes, pos: nat, seqNum: u32,
                                      flights: seq<Flight>, m: bytes)
    requires c.Valid() && SealedInTurn(c, signing, key, pos, seqNum, flights)
    ensures var blob := Blob(c, signing, key, pos + Weight(flights), Advance(seqNum, |flights|), m);
            && SealedInTurn(c, signing, key, pos, seqNum, flights + [Flight(blob, m)])
            && Weight(flights + [Flight(blob, m)]) == Weight(flights) + |m| + 8
    decreases |flights|
  {
    hide Blob, Advance, Successor;
    var f := Flight(Blob(c, signing, key, pos + Weight(flights), Advance(seqNum, |flights|), m), m);
    if flights == [] {
      AdvanceAdds(seqNum, 0);
      assert flights + [f] == [f] && [f][1..] == [];
    } else {
      SealedNext(c, signing, key, pos + |flights[0].message| + 8, Successor(seqNum), flights[1..], m);
      assert (flights + [f])[1..] == flights[1..] + [f];
      AdvanceAdds(seqNum, |flights| - 1);
    }
  }

  lemma SealKeepsStep(c: Primitives, sender: Context, receiver: Context, flights: seq<Flight>, m: bytes)
    requires c.Valid() && ChannelInStep(c, sender, receiver, flights)
    ensures var (blob, ctx) := Sealed(c, sender, m);
            ChannelInStep(c, ctx, receiver, flights + [Flight(blob, m)])
  {
    hide Blob, SealedInTurn, Weight, Advance, Successor;
    AdvanceAdds(receiver.recvSeq, |flights|);
    SealedNext(c, receiver.peerSigning, receiver.peerKey, receiver.peerPos, receiver.recvSeq, flights, m);
  }

  lemma DeliverKeepsStep(c: Primitives, sender: Context, receiver: Context, flights: seq<Flight>)
    requires c.Valid() && ChannelInStep(c, sender, receiver, flights) && flights != []
    ensures Unsealed(c, receiver, flights[0].blob).0 == Ok(flights[0].message)
    ensures ChannelInStep(c, sender, Unsealed(c, receiver, flights[0].blob).1, flights[1..])
  {
    hide Blob, Unsealed, Advance, Successor;
    OpensBlob(c, receiver, flights[0].message);
    AdvanceAdds(receiver.recvSeq, |flights| - 1);
  }

  /** Every action keeps both directions in step. */
  lemma NextKeepsLockstep(c: Primitives, w: World, a: Action)
    requires c.Valid() && Lockstep(c, w)
    ensures Lockstep(c, Next(c, w, a).0)
    ensures a.Deliver? ==>
              var channel := if a.to.Server? then w.toServer else w.toClient;
              Next(c, w, a).1 == if channel == [] then None else Some(Ok(channel[0].message))
  {
    hide Sealed, Unsealed, SealedInTurn;
    match a
    case Seal(Client, m) =>
      SealKeepsStep(c, w.client, w.server, w.toServer, m);
      SealLeavesPeerSide(c, w.client, m);
    case Seal(Server, m) =>
      SealKeepsStep(c, w.server, w.client, w.toClient, m);
      SealLeavesPeerSide(c, w.server, m);
    case Deliver(Server) =>
      if w.toServer != [] {
        DeliverKeepsStep(c, w.client, w.server, w.toServer);
        UnsealLeavesOwnSide(c, w.server, w.toServer[0].blob);
      }
    case Deliver(Client) =>
      if w.toClient != [] {
        DeliverKeepsStep(c, w.server, w.client, w.toClient);
        UnsealLeavesOwnSide(c, w.client, w.toClient[0].blob);
      }
  }

  lemma SealLeavesPeerSide(c: Primitives, ctx: Context, m: bytes)
    requires c.Valid()
    ensures var after := Sealed(c, ctx, m).1;
            && after.ownSigning == ctx.ownSigning && after.ownKey == ctx.ownKey
            && after.peerSigning == ctx.peerSigning && after.peerKey == ctx.peerKey
            && after.peerPos == ctx.peerPos && after.recvSeq == ctx.recvSeq
  {
  }

  lemma UnsealLeavesOwnSide(c: Primitives, ctx: Context, blob: bytes)
    requires c.Valid()
    ensures var after := Unsealed(c, ctx, blob).1;
            && after.ownSigning == ctx.ownSigning && after.ownKey == ctx.ownKey
            && after.peerSigning == ctx.peerSigning && after.peerKey == ctx.peerKey
            && after.ownPos == ctx.ownPos && after.sendSeq == ctx.sendSeq
  {
  }

  lemma {:induction false} RunKeepsLockstep(c: Primitives, w: World, actions: seq<Action>)
    requires c.Valid() && Lockstep(c, w)
    ensures Lockstep(c, RunWorld(c, w, actions))
    decreases |actions|
  {
    hide Lockstep, Next;
    if actions != [] {
      RunKeepsLockstep(c, w, actions[..|actions| - 1]);
      NextKeepsLockstep(c, RunWorld(c, w, actions[..|actions| - 1]), actions[|actions| - 1]);
    }
  }

  lemma StartInLockstep(c: Primitives, exported: bytes)
    requires c.Valid()
    ensures Lockstep(c, StartWorld(c, exported))
  {
    hide DeriveKey;
  }

  /** In any interleaving of seals and in-order deliveries, every delivery opens to the message that was sealed. */
  lemma EveryDeliveryOpens(c: Primitives, exported: bytes, actions: seq<Action>, to: Role)
    requires c.Valid()
    ensures var w := RunWorld(c, StartWorld(c, exported), actions);
            var channel := if to.Server? then w.toServer else w.toClient;
            channel != [] ==> Next(c, w, Deliver(to)).1 == Some(Ok(channel[0].message))
  {
    hide Lockstep, Next, RunWorld, StartWorld;
    StartInLockstep(c, exported);
    RunKeepsLockstep(c, StartWorld(c, exported), actions);
    NextKeepsLockstep(c, RunWorld(c, StartWorld(c, exported), actions), Deliver(to));
  }

  /** Keystream bytes used by the messages a role has sealed. */
  function TotalSealed(actions: seq<Action>, role: Role): nat {
    if actions == [] then 0
    else
      var a := actions[|actions| - 1];
      TotalSealed(actions[..|actions| - 1], role) + if a.Seal? && a.who == role then |a.message| + 8 else 0
  }

  function CountSealed(actions: seq<Action>, role: Role): nat {
    if actions == [] then 0
    else
      var a := actions[|actions| - 1];
      CountSealed(actions[..|actions| - 1], role) + if a.Seal? && a.who == role then 1 else 0
  }

  /** Only a role's own seals move its sending side. */
  lemma NextMovesSenders(c: Primitives, w: World, a: Action)
    requires c.Valid()
    ensures var after := Next(c, w, a).0;
            var byClient, byServer := a.Seal? && a.who.Client?, a.Seal? && a.who.Server?;
            && after.client.ownPos == w.client.ownPos + (if byClient then |a.message| + 8 else 0)
            && after.client.sendSeq == (if byClient then Successor(w.client.sendSeq) else w.client.sendSeq)
            && after.server.ownPos == w.server.ownPos + (if byServer then |a.message| + 8 else 0)
            && after.server.sendSeq == (if byServer then Successor(w.server.sendSeq) else w.server.sendSeq)
  {
    hide Blob, Unsealed;
    if w.toServer != [] {
      UnsealLeavesOwnSide(c, w.server, w.toServer[0].blob);
    }
    if w.toClient != [] {
      UnsealLeavesOwnSide(c, w.client, w.toClient[0].blob);
    }
  }

  /** Each sender's keystream position is the sum of length plus eight over its messages; its counter wraps at 2^32. */
  lemma {:induction false} SenderPosition(c: Primitives, exported: bytes, actions: seq<Action>)
    requires c.Valid()
    ensures var w := RunWorld(c, StartWorld(c, exported), actions);
            && w.client.ownPos == TotalSealed(actions, Client)
            && w.client.sendSeq == Advance(0, CountSealed(actions, Client))
            && w.server.ownPos == TotalSealed(actions, Server)
            && w.server.sendSeq == Advance(0, CountSealed(actions, Server))
    decreases |actions|
  {
    hide Next, DeriveKey, Advance, Successor;
    if actions == [] {
      AdvanceAdds(0, 0);
    } else {
      var n := |actions| - 1;
      AdvanceAdds(0, CountSealed(actions[..n], Client));
      AdvanceAdds(0, CountSealed(actions[..n], Server));
      SenderPosition(c, exported, actions[..n]);
      NextMovesSenders(c, RunWorld(c, StartWorld(c, exported), actions[..n]), actions[n]);
    }
  }

  /** The receiver of each direction is behind by exactly the messages in flight. */
  lemma ReceiverPosition(c: Primitives, exported: bytes, actions: seq<Action>)
    requires c.Valid()
    ensures var w := RunWorld(c, StartWorld(c, exported), actions);
            && w.server.peerPos + Weight(w.toServer) == TotalSealed(actions, Client)
            && Advance(w.server.recvSeq, |w.toServer|) == Advance(0, CountSealed(actions, Client))
            && w.client.peerPos + Weight(w.toClient) == TotalSealed(actions, Server)
            && Advance(w.client.recvSeq, |w.toClient|) == Advance(0, CountSealed(actions, Server))
  {
    hide RunWorld, StartWorld, TotalSealed, CountSealed, Weight, SealedInTurn, Advance;
    StartInLockstep(c, exported);
    RunKeepsLockstep(c, StartWorld(c, exported), actions);
    SenderPosition(c, exported, actions);
  }
}
