/** The whole CredSSP exchange against an honest server, and what holds in every run of the client. */
module NlaExchange {
  import opened Prelude
  import opened Crypto
  import opened Der
  import opened CredSsp
  import opened Ntlm
  import opened NlaClient
  import opened NlaServer
  import opened Bits
  import Sspi

  function ChallengeRequest(m: ChallengeMessage): bytes {
    EncodedRequest(Request().(negoTokens := [EncodedChallenge(m)]))
  }

  // ----- The client's formulas are the server's -----

  lemma CryptedIsRc4(c: Primitives, key: bytes, pos: nat, data: bytes)
    ensures Crypted(c, key, pos, data) == Rc4At(c, key, pos, data)
  {
    hide XorByte;
  }

  /** The context sends on this channel next. */
  ghost predicate Sends(ctx: Sspi.Context, ch: Channel) {
    ch == Channel(ctx.ownSigning, ctx.ownKey, ctx.ownPos, ctx.sendSeq)
  }

  /** The context receives on this channel next. */
  ghost predicate Receives(ctx: Sspi.Context, ch: Channel) {
    ch == Channel(ctx.peerSigning, ctx.peerKey, ctx.peerPos, ctx.recvSeq)
  }

  /** A new client context stands at the beginning of both of the server's channels. */
  lemma ClientStarts(c: Primitives, exported: bytes)
    ensures Sends(Sspi.NewContext(c, Sspi.Client, exported), NewChannel(c, exported, ToServer))
    ensures Receives(Sspi.NewContext(c, Sspi.Client, exported), NewChannel(c, exported, ToClient))
  {
    hide Ascii;
  }

  lemma ChecksumIsMac(c: Primitives, ch: Channel, message: bytes)
    requires c.Valid()
    ensures Checksum(c, ch, message)
            == Rc4At(c, ch.sealing, ch.pos + |message|, Sspi.Mac(c, ch.signing, ch.seqNum, message))
  {
    CryptedIsRc4(c, ch.sealing, ch.pos + |message|, Sspi.Mac(c, ch.signing, ch.seqNum, message));
  }

  lemma BlobIsSealed(c: Primitives, ch: Channel, message: bytes)
    requires c.Valid()
    ensures SealedOn(c, ch, message) == Sspi.Blob(c, ch.signing, ch.sealing, ch.pos, ch.seqNum, message)
  {
    hide Rc4At, Crypted, Checksum, Sspi.Mac;
    ChecksumIsMac(c, ch, message);
    CryptedIsRc4(c, ch.sealing, ch.pos, message);
    assert U32Le(1) == [1, 0, 0, 0];
  }

  /** What the client seals, the server opens, checking every field; both channels have then moved alike. */
  lemma ServerOpens(c: Primitives, ctx: Sspi.Context, ch: Channel, message: bytes)
    requires c.Valid() && Sends(ctx, ch)
    ensures OpenedOn(c, ch, Sspi.Sealed(c, ctx, message).0) == Some(message)
    ensures Sends(Sspi.Sealed(c, ctx, message).1, Moved(ch, message))
  {
    hide Rc4At, Crypted, Checksum, Sspi.Blob;
    BlobIsSealed(c, ch, message);
    var blob := SealedOn(c, ch, message);
    assert blob[16..] == Crypted(c, ch.sealing, ch.pos, message);
    assert blob[..16] == [1, 0, 0, 0] + Checksum(c, ch, message) + U32Le(ch.seqNum);
    CryptedIsRc4(c, ch.sealing, ch.pos, message);
    CryptedIsRc4(c, ch.sealing, ch.pos, blob[16..]);
    Rc4Involution(c, ch.sealing, ch.pos, message);
  }

  /** What the server seals, the client opens. */
  lemma ClientOpens(c: Primitives, ctx: Sspi.Context, ch: Channel, message: bytes)
    requires c.Valid() && Receives(ctx, ch)
    ensures var (r, after) := Sspi.Unsealed(c, ctx, SealedOn(c, ch, message));
            && r == Ok(message) && Receives(after, Moved(ch, message))
            && (forall own :: Sends(ctx, own) ==> Sends(after, own))
  {
    hide SealedOn, Sspi.Blob, Sspi.Unsealed;
    BlobIsSealed(c, ch, message);
    Sspi.OpensBlob(c, ctx, message);
  }

  lemma BindingIsStandard(c: Primitives, nonce: bytes, key: bytes)
    ensures ClientHash(c, nonce, key) == BindingOf(c, ToServer, nonce, key)
    ensures ServerHash(c, nonce, key) == BindingOf(c, ToClient, nonce, key)
  {
  }

  // ----- Sizes -----

  /** The limits of the 16-bit NTLM length fields, and a password that fits a 32-bit DER length. */
  ghost predicate WithinLimits(cfg: Config, m: ChallengeMessage) {
    && |cfg.creds.domain| < 0x1_0000 && |cfg.creds.username| < 0x1_0000 && |cfg.creds.password| < 0x8000_0000
    && 48 + |m.targetInfo| < 0x1_0000
  }

  lemma TlvSize(tag: byte, value: bytes)
    requires |value| < TWO_32
    ensures |value| + 2 <= |Tlv(tag, value)| <= |value| + 6
  {
    BigEndianSize(|value|);
  }

  lemma OctetsSize(n: nat, value: bytes)
    requires n < 0x60 && |value| < 0xF000_0000
    ensures |OctetsField(n, Some(value))| <= |value| + 12
  {
    hide Tlv;
    TlvSize(TAG_OCTET_STRING, value);
    TlvSize(ContextTag(n), OctetString(value));
  }

  lemma TokenSize(r: TsRequest)
    requires |r.negoTokens| <= 1 && (forall k :: 0 <= k < |r.negoTokens| ==> |r.negoTokens[k]| < 0xF000_0000)
    ensures |TokensField(r)| <= (if r.negoTokens == [] then 0 else |r.negoTokens[0]|) + 30
  {
    hide Tlv;
    if r.negoTokens != [] {
      var token := r.negoTokens[0];
      assert TokenItems(r.negoTokens) == TokenItem(token) by {
        assert TokenItems(r.negoTokens[1..]) == [];
      }
      TlvSize(TAG_OCTET_STRING, token);
      TlvSize(ContextTag(0), OctetString(token));
      TlvSize(TAG_SEQUENCE, Context(0, OctetString(token)));
      TlvSize(TAG_SEQUENCE, TokenItem(token));
      TlvSize(ContextTag(1), Sequence(TokenItem(token)));
    }
  }

  lemma VersionSize(r: TsRequest)
    ensures |VersionField(r)| <= 20
  {
    hide Tlv;
    BigEndianSize(r.version);
    TlvSize(TAG_INTEGER, IntegerOctets(r.version));
    TlvSize(ContextTag(0), Integer(r.version));
  }

  /** A request with at most one token and no error code reads back when its parts are not near 2^32 bytes. */
  lemma RequestReads(r: TsRequest)
    requires r.Valid() && r.errorCode.None? && |r.negoTokens| <= 1
    requires r.negoTokens != [] ==> |r.negoTokens[0]| < 0x1000_0000
    requires r.authInfo.Some? ==> |r.authInfo.value| < 0xE000_0000
    requires r.pubKeyAuth.Some? ==> |r.pubKeyAuth.value| < 0x100_0000
    ensures DecodedRequest(EncodedRequest(r)) == Ok(r)
  {
    hide DecodedRequest, EncodedRequest, VersionField, TokensField, OctetsField;
    VersionSize(r);
    TokenSize(r);
    NoOctets(2);
    NoOctets(3);
    NoOctets(5);
    if r.authInfo.Some? { OctetsSize(2, r.authInfo.value); }
    if r.pubKeyAuth.Some? { OctetsSize(3, r.pubKeyAuth.value); }
    if r.clientNonce.Some? { OctetsSize(5, r.clientNonce.value); }
    RequestRoundTrip(r, []);
    assert EncodedRequest(r) + [] == EncodedRequest(r);
  }

  lemma NoOctets(n: nat)
    requires n < 0x60
    ensures OctetsField(n, None) == []
  {
  }

  lemma CredentialsSize(creds: PasswordCreds)
    requires |creds.domain| < 0x1_0000 && |creds.username| < 0x1_0000 && |creds.password| < 0x8000_0000
    ensures |TsCredentials(creds)| < 0x9000_0000
  {
    hide Tlv;
    TlvSize(TAG_OCTET_STRING, creds.domain);
    TlvSize(TAG_OCTET_STRING, creds.username);
    TlvSize(TAG_OCTET_STRING, creds.password);
    TlvSize(ContextTag(0), OctetString(creds.domain));
    TlvSize(ContextTag(1), OctetString(creds.username));
    TlvSize(ContextTag(2), OctetString(creds.password));
    var strings := Context(0, OctetString(creds.domain)) + Context(1, OctetString(creds.username))
      + Context(2, OctetString(creds.password));
    TlvSize(TAG_SEQUENCE, strings);
    TlvSize(TAG_OCTET_STRING, EncodedCreds(creds));
    TlvSize(ContextTag(1), OctetString(EncodedCreds(creds)));
    BigEndianSize(1);
    TlvSize(TAG_INTEGER, IntegerOctets(1));
    TlvSize(ContextTag(0), Integer(1));
    TlvSize(TAG_SEQUENCE, Context(0, Integer(1)) + Context(1, OctetString(EncodedCreds(creds))));
  }

  // ----- The AUTHENTICATE message -----

  lemma PayloadTotal(m: AuthenticateMessage)
    ensures |Concat(Payloads(m))|
            == |m.lmResponse| + |m.ntResponse| + |m.domain| + |m.user| + |m.workstation| + |m.sessionKey|
  {
    hide Concat;
    var parts := Payloads(m);
    ConcatEmpty(parts);
    ConcatNext(parts, 0);
    ConcatNext(parts, 1);
    ConcatNext(parts, 2);
    ConcatNext(parts, 3);
    ConcatNext(parts, 4);
    ConcatNext(parts, 5);
    assert parts[..6] == parts;
  }

  /** The client's search finds the first timestamp, and nothing exactly if there is none. */
  lemma {:induction false} FirstTimestampIsFirst(pairs: seq<(u16, bytes)>)
    ensures FirstTimestamp(pairs).None? <==> NoTime(pairs)
    ensures forall k: nat :: FirstTime(pairs, k) ==> FirstTimestamp(pairs) == Some(pairs[k].1)
    ensures FirstTimestamp(pairs).Some? ==> |FirstTimestamp(pairs).value| == 8
  {
    if pairs != [] {
      FirstTimestampIsFirst(pairs[1..]);
      if NoTime(pairs) {
        forall j | 0 <= j < |pairs[1..]|
          ensures !IsTimestamp(pairs[1..][j])
        {
          assert pairs[1..][j] == pairs[j + 1];
        }
      }
      if NoTime(pairs[1..]) && !IsTimestamp(pairs[0]) {
        forall j | 0 <= j < |pairs|
          ensures !IsTimestamp(pairs[j])
        {
          assert j > 0 ==> pairs[j] == pairs[1..][j - 1];
        }
      }
      forall k: nat | FirstTime(pairs, k)
        ensures FirstTimestamp(pairs) == Some(pairs[k].1)
      {
        if k > 0 {
          assert !IsTimestamp(pairs[0]);
          assert forall j :: 0 <= j < k - 1 ==> pairs[1..][j] == pairs[j + 1];
          assert FirstTime(pairs[1..], k - 1);
        }
      }
    }
  }

  /** The blob in the NT response is what the server expects, client challenge included. */
  lemma BlobHolds(cfg: Config, m: ChallengeMessage, time: bytes)
    requires |time| == 8 && |cfg.entropy.clientChallenge| == 8
    ensures var t, n := Temp(time, cfg.entropy.clientChallenge, m.targetInfo), |m.targetInfo|;
            && |t| == 32 + n && t[..8] == [1, 1, 0, 0, 0, 0, 0, 0] && t[8..16] == time
            && t[16..24] == cfg.entropy.clientChallenge && AllZero(t[24..28])
            && t[28..28 + n] == m.targetInfo && AllZero(t[28 + n..])
  {
    hide Temp;
    TempLayout(time, cfg.entropy.clientChallenge, m.targetInfo);
  }

  /** A slice of the part behind the first sixteen bytes. */
  lemma Shifted(head: bytes, t: bytes, i: nat, j: nat)
    requires |head| == 16 && i <= j <= |t|
    ensures (head + t)[16 + i..16 + j] == t[i..j] && (head + t)[..16] == head && (head + t)[16..] == t
  {
  }

  lemma TimeOfClient(m: ChallengeMessage)
    ensures var ts := FirstTimestamp(AvPairs(m.targetInfo, []));
            var time := if ts.Some? then ts.value else Zeros(8);
            |time| == 8 && TimeHolds(AvPairs(m.targetInfo, []), time)
  {
    hide AvPairs, FirstTimestamp, FirstTime;
    FirstTimestampIsFirst(AvPairs(m.targetInfo, []));
  }

  lemma ProofOfClient(c: Primitives, cfg: Config, m: ChallengeMessage)
    requires c.Valid() && cfg.Valid() && m.Valid()
    ensures ProofHolds(c, Ntowf(c, cfg.creds), m, Response(c, cfg, m).ntResponse)
    ensures Response(c, cfg, m).ntResponse[32..40] == cfg.entropy.clientChallenge
  {
    hide AvPairs, FirstTimestamp, FirstTime, TimeHolds, Temp, AllZero;
    TimeOfClient(m);
    var ts := FirstTimestamp(AvPairs(m.targetInfo, []));
    var time := if ts.Some? then ts.value else Zeros(8);
    BlobHolds(cfg, m, time);
    var t, n := TempFor(cfg, m), |m.targetInfo|;
    var proof := NtProof(c, Ntowf(c, cfg.creds), m.serverChallenge, t);
    Shifted(proof, t, 0, 8);
    Shifted(proof, t, 8, 16);
    Shifted(proof, t, 16, 24);
    Shifted(proof, t, 24, 28);
    Shifted(proof, t, 28, 28 + n);
    Shifted(proof, t, 28 + n, 32 + n);
  }

  lemma LmOfClient(c: Primitives, cfg: Config, m: ChallengeMessage)
    requires c.Valid() && cfg.Valid() && m.Valid()
    ensures var a := Response(c, cfg, m);
            |a.ntResponse| >= 40 && LmHolds(c, Ntowf(c, cfg.creds), m, a.lmResponse, a.ntResponse)
  {
    hide AvPairs, FirstTimestamp, FirstTime, TimeHolds, Temp, ProofHolds, NoTime, NtowfV2, EncryptedSessionKey;
    ProofOfClient(c, cfg, m);
    ProofLength(c, Ntowf(c, cfg.creds), m, Response(c, cfg, m).ntResponse);
    FirstTimestampIsFirst(AvPairs(m.targetInfo, []));
    var lm := LmResponse(c, Ntowf(c, cfg.creds), m.serverChallenge, cfg.entropy.clientChallenge);
    assert lm[16..] == cfg.entropy.clientChallenge;
    assert lm[..16] == c.hmac(Ntowf(c, cfg.creds), m.serverChallenge + cfg.entropy.clientChallenge);
  }

  lemma ProofLength(c: Primitives, ntowf: bytes, m: ChallengeMessage, nt: bytes)
    requires ProofHolds(c, ntowf, m, nt)
    ensures |nt| == 48 + |m.targetInfo|
  {
  }

  lemma ClientFlags()
    ensures CLIENT_FLAGS == 0xE288_8231
  {
  }

  lemma ResponseFits(c: Primitives, cfg: Config, m: ChallengeMessage)
    requires c.Valid() && cfg.Valid() && m.Valid() && WithinLimits(cfg, m)
    ensures var a := Response(c, cfg, m);
            && a.Valid() && a.Fits() && HEADER_LEN + |Concat(Payloads(a))| < 0x10_0000
            && a.flags == 0xE288_8231 && a.domain == cfg.creds.domain && a.user == cfg.creds.username
            && |a.ntResponse| >= 16
            && a.sessionKey == EncryptedSessionKey(c, c.hmac(Ntowf(c, cfg.creds), a.ntResponse[..16]),
                 cfg.entropy.exported)
  {
    hide AvPairs, FirstTimestamp, Concat, Payloads, EncryptedSessionKey, NtowfV2;
    FirstTimestampIsFirst(AvPairs(m.targetInfo, []));
    ClientFlags();
    PayloadTotal(Response(c, cfg, m));
  }

  /** The server accepts the client's token and recovers the client's exported key by RC4 involution. */
  lemma ServerRecoversKey(c: Primitives, cfg: Config, m: ChallengeMessage, negotiate: bytes)
    requires c.Valid() && cfg.Valid() && m.Valid() && WithinLimits(cfg, m)
    ensures var token := AuthenticateToken(c, cfg, negotiate, EncodedChallenge(m), m);
            && |token| < 0x10_0000
            && Accepted(c, cfg.creds.password, m, negotiate, token) == Some(cfg.entropy.exported)
  {
    hide Response, Concat, Payloads, EncodedAuthenticate, EncodedChallenge, DecodedAuthenticate, Rc4At, Crypted,
      ProofHolds, LmHolds;
    var a := Response(c, cfg, m);
    var exported := cfg.entropy.exported;
    ResponseFits(c, cfg, m);
    ProofOfClient(c, cfg, m);
    LmOfClient(c, cfg, m);
    var sent := WithMic(c, a, exported, negotiate, EncodedChallenge(m));
    SamePayloads(a, sent);
    AuthenticateRoundTrip(sent);
    PayloadReads(sent, 0);
    MicVerifies(c, a, exported, negotiate, EncodedChallenge(m));
    FixedFields(sent);
    var base := c.hmac(Ntowf(c, cfg.creds), a.ntResponse[..16]);
    CryptedIsRc4(c, base, 0, a.sessionKey);
    Rc4Involution(c, base, 0, exported);
  }

  lemma SamePayloads(m: AuthenticateMessage, n: AuthenticateMessage)
    requires n == m.(mic := n.mic)
    ensures Payloads(n) == Payloads(m)
  {
  }

  /**
   On the wire, for target info printed from any pairs: with a timestamp among them the LM response is 24 zeros;
   without one its last eight bytes are the client challenge and the sixteen before them are the HMAC, under the key
   of the password, of the server's challenge and those eight bytes.
   */
  lemma LmResponseOnWire(c: Primitives, cfg: Config, m: ChallengeMessage, negotiate: bytes, pairs: seq<(u16, bytes)>)
    requires c.Valid() && cfg.Valid() && m.Valid() && WithinLimits(cfg, m)
    requires forall k :: 0 <= k < |pairs| ==> |pairs[k].1| < 0x1_0000 && pairs[k].0 != 0
    requires m.targetInfo == PrintPairs(pairs)
    ensures var r := DecodedAuthenticate(AuthenticateToken(c, cfg, negotiate, EncodedChallenge(m), m));
            var ntowf := c.hmac(c.md4(cfg.creds.password), c.upper(cfg.creds.username) + cfg.creds.domain);
            && r.Ok? && |r.value.lmResponse| == 24
            && if exists k :: 0 <= k < |pairs| && IsTimestamp(pairs[k]) then AllZero(r.value.lmResponse)
               else r.value.lmResponse[16..] == cfg.entropy.clientChallenge
                    && r.value.lmResponse[..16] == c.hmac(ntowf, m.serverChallenge + cfg.entropy.clientChallenge)
  {
    hide Response, Concat, Payloads, EncodedAuthenticate, EncodedChallenge, DecodedAuthenticate, ProofHolds,
      PrintPairs, AvPairs;
    var a := Response(c, cfg, m);
    ResponseFits(c, cfg, m);
    ProofOfClient(c, cfg, m);
    LmOfClient(c, cfg, m);
    var sent := WithMic(c, a, cfg.entropy.exported, negotiate, EncodedChallenge(m));
    SamePayloads(a, sent);
    AuthenticateRoundTrip(sent);
    PairsReadBack(pairs, [], []);
    assert PrintPairs(pairs) + [] == PrintPairs(pairs) && [] + pairs == pairs;
  }

  // ----- Three sealed messages -----

  /** Client to server, server to client, client to server: each opens to what was sealed. */
  lemma ThreeMessages(c: Primitives, exported: bytes, m1: bytes, m2: bytes, m3: bytes)
    requires c.Valid()
    ensures var (b1, client1) := Sspi.Sealed(c, Sspi.NewContext(c, Sspi.Client, exported), m1);
            var (r1, server1) := Sspi.Unsealed(c, Sspi.NewContext(c, Sspi.Server, exported), b1);
            var (b2, server2) := Sspi.Sealed(c, server1, m2);
            var (r2, client2) := Sspi.Unsealed(c, client1, b2);
            var (b3, client3) := Sspi.Sealed(c, client2, m3);
            r1 == Ok(m1) && r2 == Ok(m2) && Sspi.Unsealed(c, server2, b3).0 == Ok(m3)
  {
    hide Sspi.Sealed, Sspi.Unsealed, Sspi.NewContext, Sspi.Lockstep;
    var w0 := Sspi.StartWorld(c, exported);
    Sspi.StartInLockstep(c, exported);
    var w1 := Step(c, w0, Sspi.Seal(Sspi.Client, m1));
    var w2 := Step(c, w1, Sspi.Deliver(Sspi.Server));
    var w3 := Step(c, w2, Sspi.Seal(Sspi.Server, m2));
    var w4 := Step(c, w3, Sspi.Deliver(Sspi.Client));
    var w5 := Step(c, w4, Sspi.Seal(Sspi.Client, m3));
    var w6 := Step(c, w5, Sspi.Deliver(Sspi.Server));
  }

  lemma Step(c: Primitives, w: Sspi.World, a: Sspi.Action) returns (after: Sspi.World)
    requires c.Valid() && Sspi.Lockstep(c, w)
    ensures Sspi.Lockstep(c, after) && after == Sspi.Next(c, w, a).0
    ensures a.Deliver? ==>
              var channel := if a.to.Server? then w.toServer else w.toClient;
              Sspi.Next(c, w, a).1 == if channel == [] then None else Some(Ok(channel[0].message))
  {
    Sspi.NextKeepsLockstep(c, w, a);
    after := Sspi.Next(c, w, a).0;
  }

  // ----- The whole flow -----

  lemma NegotiateSize()
    ensures |NegotiateToken()| == 40
  {
    hide Ascii, U32Le;
  }

  lemma ServerFindsNegotiate(st: ClientState)
    ensures NegotiateIn(Started(st).0) == Some(NegotiateToken())
  {
    hide EncodedRequest, DecodedRequest, EncodedNegotiate, DecodedNegotiate;
    NegotiateSize();
    RequestReads(Request().(negoTokens := [NegotiateToken()]));
    NegotiateRoundTrip(CLIENT_FLAGS, Some(NTLM_VERSION));
    ClientFlags();
  }

  lemma ClientFindsChallenge(m: ChallengeMessage)
    requires m.Valid()
    ensures ChallengeIn(ChallengeRequest(m)) == Ok((EncodedChallenge(m), m))
  {
    hide EncodedRequest, DecodedRequest, EncodedChallenge, DecodedChallenge;
    ChallengeFixedFields(m);
    RequestReads(Request().(negoTokens := [EncodedChallenge(m)]));
    ChallengeRoundTrip(m);
  }

  lemma ClientFindsHash(blob: bytes)
    requires |blob| < 0x100_0000
    ensures SealedHashIn(EncodedRequest(Request().(pubKeyAuth := Some(blob)))) == Ok(blob)
  {
    hide EncodedRequest, DecodedRequest;
    RequestReads(Request().(pubKeyAuth := Some(blob)));
  }

  lemma SealedSize(c: Primitives, ctx: Sspi.Context, m: bytes)
    requires c.Valid()
    ensures |Sspi.Sealed(c, ctx, m).0| == 16 + |m|
  {
  }

  /** The server answers the client's second request, holding the client's exported key. */
  lemma ServerAnswers(c: Primitives, cfg: Config, m: ChallengeMessage, negotiate: bytes, token: bytes)
    requires c.Valid() && cfg.Valid() && |token| < 0x10_0000
    requires Accepted(c, cfg.creds.password, m, negotiate, token) == Some(cfg.entropy.exported)
    ensures var exported, nonce, key := cfg.entropy.exported, cfg.entropy.nonce, cfg.serverPublicKey;
            var toServer, toClient := NewChannel(c, exported, ToServer), NewChannel(c, exported, ToClient);
            var reply := ServerHash(c, nonce, key);
            Answered(c, cfg.creds.password, key, m, negotiate, EncodedRequest(AuthenticateRequest(c, cfg, token)))
            == Some(Session(Blank().(pubKeyAuth := Some(SealedOn(c, toClient, reply))), exported,
                            Moved(toServer, ClientHash(c, nonce, key)), Moved(toClient, reply)))
  {
    hide EncodedRequest, DecodedRequest, Accepted, Sspi.Sealed, Sspi.NewContext, BindingHash, BindingOf, NewChannel,
      SealedOn, OpenedOn, Moved, Sends;
    var exported, nonce, key := cfg.entropy.exported, cfg.entropy.nonce, cfg.serverPublicKey;
    SealedSize(c, Sspi.NewContext(c, Sspi.Client, exported), ClientHash(c, nonce, key));
    HashSize(c, CLIENT_SERVER_MAGIC, nonce, key);
    RequestReads(AuthenticateRequest(c, cfg, token));
    BindingIsStandard(c, nonce, key);
    ClientStarts(c, exported);
    ServerOpens(c, Sspi.NewContext(c, Sspi.Client, exported), NewChannel(c, exported, ToServer),
      ClientHash(c, nonce, key));
  }

  lemma HashSize(c: Primitives, magic: bytes, nonce: bytes, key: bytes)
    requires c.Valid()
    ensures |BindingHash(c, magic, nonce, key)| == 32
  {
  }

  lemma SealedOnSize(c: Primitives, ch: Channel, message: bytes)
    requires c.Valid()
    ensures |SealedOn(c, ch, message)| == 16 + |message|
  {
  }

  /** The server's hash opens at the client, and the client's credentials at the server. */
  lemma HashAndCredentials(c: Primitives, cfg: Config)
    requires c.Valid()
    ensures var exported, hash := cfg.entropy.exported, ServerHash(c, cfg.entropy.nonce, cfg.serverPublicKey);
            var toServer := Moved(NewChannel(c, exported, ToServer),
              ClientHash(c, cfg.entropy.nonce, cfg.serverPublicKey));
            var blob := SealedOn(c, NewChannel(c, exported, ToClient), hash);
            var (r, ctx) := Sspi.Unsealed(c, Bound(c, cfg).1, blob);
            var sealed := Sspi.Sealed(c, ctx, TsCredentials(cfg.creds)).0;
            && |blob| == 48 && r == Ok(hash) && |sealed| == 16 + |TsCredentials(cfg.creds)|
            && OpenedOn(c, toServer, sealed) == Some(TsCredentials(cfg.creds))
  {
    hide Sspi.Sealed, Sspi.Unsealed, Sspi.NewContext, BindingHash, TsCredentials, NewChannel, SealedOn, OpenedOn,
      Moved, Sends, Receives;
    var exported, nonce, key := cfg.entropy.exported, cfg.entropy.nonce, cfg.serverPublicKey;
    var toServer, toClient := NewChannel(c, exported, ToServer), NewChannel(c, exported, ToClient);
    var ctx := Sspi.NewContext(c, Sspi.Client, exported);
    ClientStarts(c, exported);
    ServerOpens(c, ctx, toServer, ClientHash(c, nonce, key));
    SealedKeepsPeer(c, ctx, toClient, ClientHash(c, nonce, key));
    ClientOpens(c, Bound(c, cfg).1, toClient, ServerHash(c, nonce, key));
    HashSize(c, SERVER_CLIENT_MAGIC, nonce, key);
    SealedOnSize(c, toClient, ServerHash(c, nonce, key));
    var after := Sspi.Unsealed(c, Bound(c, cfg).1, SealedOn(c, toClient, ServerHash(c, nonce, key))).1;
    ServerOpens(c, after, Moved(toServer, ClientHash(c, nonce, key)), TsCredentials(cfg.creds));
    SealedSize(c, after, TsCredentials(cfg.creds));
  }

  lemma SealedKeepsPeer(c: Primitives, ctx: Sspi.Context, ch: Channel, message: bytes)
    requires c.Valid() && Receives(ctx, ch)
    ensures Receives(Sspi.Sealed(c, ctx, message).1, ch)
  {
  }

  /**
   For all credentials, public keys and entropy within the field limits, and whatever the client did before:
   start, the server's challenge, the client's answer, the server's hash and the client's credentials all
   go through. The server, which has formulas of its own, ends up with the client's exported key and exactly the
   client's credentials.
   */
  lemma WholeFlow(c: Primitives, cfg: Config, m: ChallengeMessage, before: ClientState)
    requires c.Valid() && cfg.Valid() && m.Valid() && WithinLimits(cfg, m)
    ensures var (first, st1) := Started(before);
            var negotiate := NegotiateIn(first);
            var (second, st2) := Challenged(c, cfg, st1, ChallengeRequest(m));
            && negotiate.Some? && second.Ok?
            && var session := Answered(c, cfg.creds.password, cfg.serverPublicKey, m, negotiate.value, second.value);
               session.Some? && session.value.exported == cfg.entropy.exported
               && var (third, st3) := PubKeyed(c, cfg, st2, EncodedRequest(session.value.reply));
                  third.Ok? && Delegated(c, session.value.toServer, third.value) == Some(cfg.creds)
  {
    hide Accepted, Answered, AuthenticateToken, EncodedChallenge, ChallengeRequest, ChallengeIn, NegotiateIn,
      SealedHashIn, EncodedRequest, DecodedRequest, Sspi.Sealed, Sspi.Unsealed, Sspi.NewContext, BindingHash,
      TsCredentials, ReadCreds, NewChannel, SealedOn, OpenedOn, Moved;
    ServerFindsNegotiate(before);
    ClientFindsChallenge(m);
    var token := AuthenticateToken(c, cfg, NegotiateToken(), EncodedChallenge(m), m);
    ServerRecoversKey(c, cfg, m, NegotiateToken());
    HashAndCredentials(c, cfg);
    ServerAnswers(c, cfg, m, NegotiateToken(), token);
    var blob := SealedOn(c, NewChannel(c, cfg.entropy.exported, ToClient),
                         ServerHash(c, cfg.entropy.nonce, cfg.serverPublicKey));
    ClientFindsHash(blob);
    var sealed := Sspi.Sealed(c, Sspi.Unsealed(c, Bound(c, cfg).1, blob).1, TsCredentials(cfg.creds)).0;
    CredentialsSize(cfg.creds);
    RequestReads(CredentialsRequest(sealed));
    CredsReadBack(cfg.creds);
  }

  // ----- The bytes of the three requests -----

  lemma LengthIsMinimal(n: nat)
    requires n < TWO_32
    ensures EncodedLen(n) == LengthOctets(n) && 1 <= |EncodedLen(n)| <= 5
  {
    hide BigEndian;
    var a, b, d := n / 0x100, n / 0x1_0000, n / 0x100_0000;
    assert a / 0x100 == b && b / 0x100 == d && d / 0x100 == 0;
    BigEndianOfNone();
    if n > 0 { BigEndianNext(n); }
    if a > 0 { BigEndianNext(a); }
    if b > 0 { BigEndianNext(b); }
    if d > 0 { BigEndianNext(d); }
  }

  lemma TlvIsElement(tag: byte, value: bytes)
    requires |value| < TWO_32
    ensures Tlv(tag, value) == Element(tag, value) && |value| + 2 <= |Tlv(tag, value)| <= |value| + 6
  {
    hide EncodedLen, LengthOctets;
    LengthIsMinimal(|value|);
  }

  lemma SmallInteger(v: byte)
    requires 0 < v < 0x80
    ensures Context(0, Integer(v)) == [0xA0, 3, 0x02, 1, v]
  {
    BigEndianOfNone();
    BigEndianNext(v);
    assert BigEndian(v) == [v];
    assert EncodedLen(1) == [1] && EncodedLen(3) == [3];
  }

  lemma OctetsAreElement(n: nat, value: bytes)
    requires n < 0x60 && |value| < 0xF000_0000
    ensures OctetsField(n, Some(value)) == Element(0xA0 + n, Element(0x04, value))
    ensures |value| + 4 <= |OctetsField(n, Some(value))| <= |value| + 12
  {
    hide Tlv, Element;
    TlvIsElement(TAG_OCTET_STRING, value);
    TlvIsElement(ContextTag(n), OctetString(value));
  }

  lemma TokensAreElement(r: TsRequest, token: bytes)
    requires r.negoTokens == [token] && |token| < 0xE000_0000
    ensures TokensField(r) == TokenField(token) && |TokensField(r)| <= |token| + 30
  {
    hide Tlv, Element;
    assert TokenItems(r.negoTokens) == TokenItem(token) by {
      assert r.negoTokens[1..] == [] && TokenItems([]) == [];
    }
    TlvIsElement(TAG_OCTET_STRING, token);
    TlvIsElement(ContextTag(0), OctetString(token));
    TlvIsElement(TAG_SEQUENCE, Context(0, OctetString(token)));
    TlvIsElement(TAG_SEQUENCE, TokenItem(token));
    TlvIsElement(ContextTag(1), Sequence(TokenItem(token)));
  }

  /** The three requests are the bytes the standard gives them. */
  lemma RequestsAreStandard(token: bytes, sealed: bytes, nonce: bytes)
    requires |token| < 0x1000_0000 && |sealed| < 0xE000_0000 && |nonce| == 32
    ensures EncodedRequest(Request().(negoTokens := [token])) == FirstBytes(token)
    ensures |sealed| < 0x100_0000 ==>
              EncodedRequest(Request().(negoTokens := [token], pubKeyAuth := Some(sealed), clientNonce := Some(nonce)))
              == SecondBytes(token, sealed, nonce)
    ensures EncodedRequest(CredentialsRequest(sealed)) == ThirdBytes(sealed)
  {
    hide Tlv, Element, Integer, OctetsField, TokensField, TokenField;
    SmallInteger(6);
    NoOctets(2);
    NoOctets(3);
    NoOctets(5);
    var first := Request().(negoTokens := [token]);
    TokensAreElement(first, token);
    RequestIsElement(first, VersionSix + TokenField(token));
    OctetsAreElement(5, nonce);
    if |sealed| < 0x100_0000 {
      var second := Request().(negoTokens := [token], pubKeyAuth := Some(sealed), clientNonce := Some(nonce));
      TokensAreElement(second, token);
      OctetsAreElement(3, sealed);
      RequestIsElement(second, VersionSix + TokenField(token) + OctetsField(3, Some(sealed))
        + OctetsField(5, Some(nonce)));
    }
    OctetsAreElement(2, sealed);
    NoTokensField(CredentialsRequest(sealed));
    RequestIsElement(CredentialsRequest(sealed), VersionSix + OctetsField(2, Some(sealed)));
  }

  lemma NoTokensField(r: TsRequest)
    requires r.negoTokens == []
    ensures TokensField(r) == []
  {
  }

  lemma RequestIsElement(r: TsRequest, body: bytes)
    requires Body(r) == body && |body| < TWO_32
    ensures EncodedRequest(r) == Element(0x30, body)
  {
    hide Body, Tlv, Element;
    TlvIsElement(TAG_SEQUENCE, body);
  }

  /** And so are the credentials. */
  lemma CredentialsAreStandard(creds: PasswordCreds)
    requires |creds.domain| < 0x1_0000 && |creds.username| < 0x1_0000 && |creds.password| < 0x8000_0000
    ensures TsCredentials(creds) == CredentialBytes(creds)
  {
    hide Tlv, Element, Integer;
    SmallInteger(1);
    TlvIsElement(TAG_OCTET_STRING, creds.domain);
    TlvIsElement(TAG_OCTET_STRING, creds.username);
    TlvIsElement(TAG_OCTET_STRING, creds.password);
    TlvIsElement(ContextTag(0), OctetString(creds.domain));
    TlvIsElement(ContextTag(1), OctetString(creds.username));
    TlvIsElement(ContextTag(2), OctetString(creds.password));
    var strings := Context(0, OctetString(creds.domain)) + Context(1, OctetString(creds.username))
      + Context(2, OctetString(creds.password));
    TlvIsElement(TAG_SEQUENCE, strings);
    TlvIsElement(TAG_OCTET_STRING, EncodedCreds(creds));
    TlvIsElement(ContextTag(1), OctetString(EncodedCreds(creds)));
    TlvIsElement(TAG_SEQUENCE, Context(0, Integer(1)) + Context(1, OctetString(EncodedCreds(creds))));
  }

  // ----- Every run -----

  datatype Call = Start | ProcessChallenge(msg: bytes) | ProcessPubkey(msg: bytes)

  function AfterCall(c: Primitives, cfg: Config, st: ClientState, call: Call): (Result<bytes>, ClientState)
    requires c.Valid()
  {
    match call
    case Start => (Ok(Started(st).0), Started(st).1)
    case ProcessChallenge(msg) => Challenged(c, cfg, st, msg)
    case ProcessPubkey(msg) => PubKeyed(c, cfg, st, msg)
  }

  function AfterCalls(c: Primitives, cfg: Config, calls: seq<Call>): ClientState
    requires c.Valid()
  {
    if calls == [] then Fresh
    else AfterCall(c, cfg, AfterCalls(c, cfg, calls[..|calls| - 1]), calls[|calls| - 1]).1
  }

  ghost predicate ChallengeSucceeds(c: Primitives, cfg: Config, calls: seq<Call>, k: nat)
    requires c.Valid()
  {
    k < |calls| && calls[k].ProcessChallenge? && Challenged(c, cfg, AfterCalls(c, cfg, calls[..k]), calls[k].msg).0.Ok?
  }

  /** Same keys as the client context of the exported key; sequence numbers and positions may have moved. */
  ghost predicate KeyedBy(c: Primitives, exported: bytes, ctx: Sspi.Context) {
    var start := Sspi.NewContext(c, Sspi.Client, exported);
    ctx.ownSigning == start.ownSigning && ctx.peerSigning == start.peerSigning && ctx.ownKey == start.ownKey
    && ctx.peerKey == start.peerKey
  }

  lemma SealedKeys(c: Primitives, exported: bytes, ctx: Sspi.Context, m: bytes)
    requires c.Valid()
    ensures KeyedBy(c, exported, Sspi.Sealed(c, ctx, m).1) == KeyedBy(c, exported, ctx)
  {
    hide Sspi.Blob, Sspi.NewContext;
  }

  lemma UnsealedKeys(c: Primitives, exported: bytes, ctx: Sspi.Context, blob: bytes)
    requires c.Valid()
    ensures KeyedBy(c, exported, Sspi.Unsealed(c, ctx, blob).1) == KeyedBy(c, exported, ctx)
  {
    hide Sspi.NewContext;
  }

  /**
   After any calls whatever: the remembered NEGOTIATE bytes are those of a `start`, and there is a security
   context exactly if some challenge was processed successfully; its keys are the exported key's.
   */
  lemma {:induction false} RunInvariant(c: Primitives, cfg: Config, calls: seq<Call>)
    requires c.Valid()
    ensures var st := AfterCalls(c, cfg, calls);
            && st.negotiate == (if Start in calls then NegotiateToken() else [])
            && (st.security.Some? <==> exists k :: ChallengeSucceeds(c, cfg, calls, k))
            && (st.security.Some? ==> KeyedBy(c, cfg.entropy.exported, st.security.value))
    decreases |calls|
  {
    if calls == [] {
      NoChallengeYet(c, cfg);
    } else {
      hide NegotiateToken, AfterCall, KeyedBy, ChallengeSucceeds;
      var n := |calls| - 1;
      var before := calls[..n];
      RunInvariant(c, cfg, before);
      CallKeeps(c, cfg, AfterCalls(c, cfg, before), calls[n]);
      assert calls == before + [calls[n]];
      ChallengesNext(c, cfg, calls);
    }
  }

  lemma NoChallengeYet(c: Primitives, cfg: Config)
    requires c.Valid()
    ensures forall k :: !ChallengeSucceeds(c, cfg, [], k)
  {
  }

  /** The last call adds to the challenges that succeeded only itself. */
  lemma ChallengesNext(c: Primitives, cfg: Config, calls: seq<Call>)
    requires c.Valid() && calls != []
    ensures var before, last := calls[..|calls| - 1], calls[|calls| - 1];
            (exists k :: ChallengeSucceeds(c, cfg, calls, k)) <==>
            || (exists k :: ChallengeSucceeds(c, cfg, before, k))
            || (last.ProcessChallenge? && AfterCall(c, cfg, AfterCalls(c, cfg, before), last).0.Ok?)
  {
    hide Challenged, AfterCalls;
    var n := |calls| - 1;
    var before := calls[..n];
    if k: nat :| ChallengeSucceeds(c, cfg, calls, k) {
      assert k < n ==> before[..k] == calls[..k] && ChallengeSucceeds(c, cfg, before, k);
    }
    if k: nat :| ChallengeSucceeds(c, cfg, before, k) {
      assert before[..k] == calls[..k] && ChallengeSucceeds(c, cfg, calls, k);
    }
    if calls[n].ProcessChallenge? && AfterCall(c, cfg, AfterCalls(c, cfg, before), calls[n]).0.Ok? {
      assert ChallengeSucceeds(c, cfg, calls, n);
    }
  }

  lemma CallKeeps(c: Primitives, cfg: Config, st: ClientState, call: Call)
    requires c.Valid()
    ensures var (r, after) := AfterCall(c, cfg, st, call);
            && after.negotiate == (if call.Start? then NegotiateToken() else st.negotiate)
            && (after.security.Some? <==> st.security.Some? || (call.ProcessChallenge? && r.Ok?))
            && ((st.security.Some? ==> KeyedBy(c, cfg.entropy.exported, st.security.value))
                ==> (after.security.Some? ==> KeyedBy(c, cfg.entropy.exported, after.security.value)))
  {
    hide KeyedBy, Sspi.Sealed, Sspi.Unsealed, Sspi.NewContext, ChallengeIn, SealedHashIn, EncodedRequest,
      AuthenticateToken, TsCredentials, BindingHash, NegotiateToken;
    var exported := cfg.entropy.exported;
    match call
    case Start =>
    case ProcessChallenge(msg) =>
      StartKeyed(c, exported);
      SealedKeys(c, exported, Sspi.NewContext(c, Sspi.Client, exported),
        ClientHash(c, cfg.entropy.nonce, cfg.serverPublicKey));
    case ProcessPubkey(msg) =>
      if SealedHashIn(msg).Ok? && st.security.Some? {
        UnsealedKeys(c, exported, st.security.value, SealedHashIn(msg).value);
        SealedKeys(c, exported, Sspi.Unsealed(c, st.security.value, SealedHashIn(msg).value).1,
          TsCredentials(cfg.creds));
      }
  }

  lemma StartKeyed(c: Primitives, exported: bytes)
    ensures KeyedBy(c, exported, Sspi.NewContext(c, Sspi.Client, exported))
  {
  }

  /**
   In every run, credentials leave the client exactly when the server's message carries no error, a challenge was
   answered before, and the sealed hash is the expected binding hash sealed with the exported key's server keys at
   the client's own position, the two unchecked header fields aside. What leaves is then the credentials sealed
   right after the opened hash.
   */
  lemma CredentialsOnlyAfterBinding(c: Primitives, cfg: Config, calls: seq<Call>, msg: bytes)
    requires c.Valid()
    ensures var st := AfterCalls(c, cfg, calls);
            var (r, after) := PubKeyed(c, cfg, st, msg);
            && (r.Ok? <==>
                && SealedHashIn(msg).Ok?
                && (exists k :: ChallengeSucceeds(c, cfg, calls, k))
                && st.security.Some?
                && Sspi.SameSealing(SealedHashIn(msg).value, ExpectedSealing(c, cfg, st.security.value)))
            && (r.Ok? ==>
                && KeyedBy(c, cfg.entropy.exported, st.security.value)
                && r.value == EncodedRequest(CredentialsRequest(
                     Sspi.Sealed(c, Sspi.Unsealed(c, st.security.value, SealedHashIn(msg).value).1,
                       TsCredentials(cfg.creds)).0)))
  {
    hide KeyedBy, Sspi.Sealed, Sspi.Unsealed, Sspi.Blob, Sspi.SameSealing, SealedHashIn, EncodedRequest, TsCredentials,
      BindingHash, NegotiateToken, ChallengeSucceeds;
    RunInvariant(c, cfg, calls);
    var st := AfterCalls(c, cfg, calls);
    if SealedHashIn(msg).Ok? && st.security.Some? {
      Sspi.OnlyOwnSealingOpens(c, st.security.value, SealedHashIn(msg).value,
        ServerHash(c, cfg.entropy.nonce, cfg.serverPublicKey));
    }
  }

  /** The server's binding hash sealed where a context expects the server's next message. */
  function ExpectedSealing(c: Primitives, cfg: Config, ctx: Sspi.Context): bytes
    requires c.Valid()
  {
    Sspi.Blob(c, ctx.peerSigning, ctx.peerKey, ctx.peerPos, ctx.recvSeq,
      ServerHash(c, cfg.entropy.nonce, cfg.serverPublicKey))
  }

  /**
   A call stops the client exactly if it is given a request whose first token is a cut CHALLENGE; its state is kept.
   */
  lemma CallStops(c: Primitives, cfg: Config, st: ClientState, call: Call)
    requires c.Valid()
    ensures var (r, after) := AfterCall(c, cfg, st, call);
            && (r == Err(Panic) <==>
                && call.ProcessChallenge? && DecodedRequest(call.msg).Ok?
                && DecodedRequest(call.msg).value.negoTokens != []
                && CutChallenge(DecodedRequest(call.msg).value.negoTokens[0]))
            && (r == Err(Panic) ==> after == st)
  {
    hide DecodedRequest, DecodedChallenge, CutChallenge, Sspi.Sealed, EncodedRequest, AuthenticateToken, TsCredentials,
      BindingHash;
    if !call.Start? {
      RequestErrs(call.msg);
      if DecodedRequest(call.msg).Ok? && DecodedRequest(call.msg).value.negoTokens != [] {
        ChallengeStops(DecodedRequest(call.msg).value.negoTokens[0]);
      }
    }
  }

  /** One such request, to a client in any state: a token of signature and message type only. */
  lemma CutChallengeStops(c: Primitives, cfg: Config, st: ClientState)
    requires c.Valid()
    ensures Challenged(c, cfg, st, EncodedRequest(Request().(negoTokens := [SIGNATURE + U32Le(2)]))) == (Err(Panic), st)
  {
    hide EncodedRequest, DecodedRequest, DecodedChallenge, CutChallenge;
    var token := SIGNATURE + U32Le(2);
    RequestReads(Request().(negoTokens := [token]));
    ChallengeStops(token);
    CallStops(c, cfg, st, ProcessChallenge(EncodedRequest(Request().(negoTokens := [token]))));
  }

  /** A request with a non-zero error code, or without a pubKeyAuth, never yields credentials and changes nothing. */
  lemma RefusalsYieldNothing(c: Primitives, cfg: Config, st: ClientState, req: TsRequest)
    requires c.Valid() && req.Valid() && |Body(req)| < TWO_32
    requires (req.errorCode.Some? && req.errorCode.value != 0) || req.pubKeyAuth.None?
    ensures PubKeyed(c, cfg, st, EncodedRequest(req)).0.Err? && PubKeyed(c, cfg, st, EncodedRequest(req)).1 == st
  {
    hide EncodedRequest, DecodedRequest, Body;
    RequestRoundTrip(req, []);
    assert EncodedRequest(req) + [] == EncodedRequest(req);
  }
}
