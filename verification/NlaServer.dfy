/**
 The server of section 3.1.5 of [MS-CSSP], with the formulas of sections 3.3.2, 3.4.4 and 3.4.5 of [MS-NLMP] written
 out in their own constants: it shares no formula with the client.
 */
module NlaServer {
  import opened Prelude
  import opened Bits
  import opened Crypto
  import opened CredSsp
  import opened Ntlm

  // ----- Sealing -----

  datatype Direction = ToServer | ToClient

  /** Signing and sealing keys are digests of the exported key and a zero-terminated sentence. */
  function SigningKey(c: Primitives, exported: bytes, d: Direction): bytes {
    match d
    case ToServer => c.md5(exported + Ascii("session key to client-to-server signing key magic constant\0"))
    case ToClient => c.md5(exported + Ascii("session key to server-to-client signing key magic constant\0"))
  }

  function SealingKey(c: Primitives, exported: bytes, d: Direction): bytes {
    match d
    case ToServer => c.md5(exported + Ascii("session key to client-to-server sealing key magic constant\0"))
    case ToClient => c.md5(exported + Ascii("session key to server-to-client sealing key magic constant\0"))
  }

  /** One direction: its keys, how much of its keystream is used, and its next sequence number. */
  datatype Channel = Channel(signing: bytes, sealing: bytes, pos: nat, seqNum: u32)

  function NewChannel(c: Primitives, exported: bytes, d: Direction): Channel {
    Channel(SigningKey(c, exported, d), SealingKey(c, exported, d), 0, 0)
  }

  function Crypted(c: Primitives, key: bytes, pos: nat, data: bytes): (r: bytes)
    ensures |r| == |data|
  {
    seq(|data|, i requires 0 <= i < |data| => XorByte(data[i], c.keystream(key, pos + i)))
  }

  /** Eight HMAC bytes over sequence number and message, encrypted right after the message. */
  function Checksum(c: Primitives, ch: Channel, message: bytes): (r: bytes)
    requires c.Valid()
    ensures |r| == 8
  {
    Crypted(c, ch.sealing, ch.pos + |message|, c.hmac(ch.signing, U32Le(ch.seqNum) + message)[..8])
  }

  /** Version 1, checksum, sequence number, encrypted message. */
  function SealedOn(c: Primitives, ch: Channel, message: bytes): bytes
    requires c.Valid()
  {
    [1, 0, 0, 0] + Checksum(c, ch, message) + U32Le(ch.seqNum) + Crypted(c, ch.sealing, ch.pos, message)
  }

  /** All three fields of the signature are checked. */
  function OpenedOn(c: Primitives, ch: Channel, blob: bytes): Option<bytes>
    requires c.Valid()
  {
    if |blob| < 16 then None
    else
      var message := Crypted(c, ch.sealing, ch.pos, blob[16..]);
      if blob[..16] == [1, 0, 0, 0] + Checksum(c, ch, message) + U32Le(ch.seqNum) then Some(message) else None
  }

  /** Message and checksum use up the keystream; sequence numbers wrap around. */
  function Moved(ch: Channel, message: bytes): Channel {
    ch.(pos := ch.pos + |message| + 8, seqNum := if ch.seqNum == 0xFFFF_FFFF then 0 else ch.seqNum + 1)
  }

  // ----- The AUTHENTICATE message -----

  predicate IsTimestamp(pair: (u16, bytes)) {
    pair.0 == 7 && |pair.1| == 8
  }

  /** The first timestamp among the pairs. */
  ghost predicate FirstTime(pairs: seq<(u16, bytes)>, k: nat) {
    k < |pairs| && IsTimestamp(pairs[k]) && forall j :: 0 <= j < k ==> !IsTimestamp(pairs[j])
  }

  ghost predicate NoTime(pairs: seq<(u16, bytes)>) {
    forall j :: 0 <= j < |pairs| ==> !IsTimestamp(pairs[j])
  }

  ghost predicate AllZero(s: bytes) {
    forall j :: 0 <= j < |s| ==> s[j] == 0
  }

  /** The client echoes the server's timestamp, or zeros when there is none. */
  ghost predicate TimeHolds(pairs: seq<(u16, bytes)>, time: bytes) {
    (NoTime(pairs) ==> AllZero(time)) && forall k: nat :: FirstTime(pairs, k) ==> time == pairs[k].1
  }

  /** A proof over the server's challenge and a blob with the server's own target info and timestamp. */
  ghost predicate ProofHolds(c: Primitives, ntowf: bytes, m: ChallengeMessage, nt: bytes) {
    var n := |m.targetInfo|;
    && |nt| == 48 + n && nt[..16] == c.hmac(ntowf, m.serverChallenge + nt[16..])
    && nt[16..24] == [1, 1, 0, 0, 0, 0, 0, 0] && TimeHolds(AvPairs(m.targetInfo, []), nt[24..32])
    && AllZero(nt[40..44]) && nt[44..44 + n] == m.targetInfo && AllZero(nt[44 + n..])
  }

  /**
   With a timestamp in the target info the LM response is 24 zeros. Without one it is a proof over both challenges,
   followed by the client's, which also stands in the blob.
   */
  ghost predicate LmHolds(c: Primitives, ntowf: bytes, m: ChallengeMessage, lm: bytes, nt: bytes) {
    && |lm| == 24 && |nt| >= 40
    && if NoTime(AvPairs(m.targetInfo, []))
       then lm[..16] == c.hmac(ntowf, m.serverChallenge + lm[16..]) && lm[16..] == nt[32..40]
       else AllZero(lm)
  }

  /**
   Unicode, signing, sealing, NTLM, always sign, extended security, target info, version, 128 bit, key exchange, 56
   bit.
   */
  predicate FlagsHold(flags: u32) {
    flags == 0xE288_8231
  }

  /** The exported key a server recovers from an AUTHENTICATE message whose proofs and MIC it accepts. */
  ghost function Accepted(c: Primitives, password: bytes, m: ChallengeMessage, negotiate: bytes,
                          token: bytes): Option<bytes> {
    match DecodedAuthenticate(token)
    case Err(_) => None
    case Ok(auth) =>
      var ntowf := c.hmac(c.md4(password), c.upper(auth.user) + auth.domain);
      if |token| < 88 || !FlagsHold(auth.flags) || !ProofHolds(c, ntowf, m, auth.ntResponse)
         || !LmHolds(c, ntowf, m, auth.lmResponse, auth.ntResponse) then None
      else
        var exported := Crypted(c, c.hmac(ntowf, auth.ntResponse[..16]), 0, auth.sessionKey);
        var zeroed := token[..72] + Zeros(16) + token[88..];
        if auth.mic == c.hmac(exported, negotiate + EncodedChallenge(m) + zeroed) then Some(exported) else None
  }

  // ----- The exchange -----

  /** What a server remembers once it has answered: the exported key, and what has gone each way. */
  datatype Session = Session(reply: TsRequest, exported: bytes, toServer: Channel, toClient: Channel)

  function BindingOf(c: Primitives, from: Direction, nonce: bytes, key: bytes): bytes {
    c.sha256(Ascii(if from.ToServer? then "CredSSP Client-To-Server Binding Hash"
                   else "CredSSP Server-To-Client Binding Hash") + [0] + nonce + key)
  }

  /** A request of version 6 with nothing in it. */
  function Blank(): TsRequest {
    TsRequest(6, [], None, None, None, None)
  }

  /** The NEGOTIATE token of the client's first request, if it offers what the server needs. */
  function NegotiateIn(msg: bytes): Option<bytes> {
    match DecodedRequest(msg)
    case Err(_) => None
    case Ok(req) =>
      if |req.negoTokens| != 1 || req != Blank().(negoTokens := req.negoTokens) then None
      else
        match DecodedNegotiate(req.negoTokens[0])
        case Err(_) => None
        case Ok((flags, _)) => if FlagsHold(flags) then Some(req.negoTokens[0]) else None
  }

  /** The answer to the client's second request: the server's binding hash, sealed, once the client's has opened. */
  ghost function Answered(c: Primitives, password: bytes, key: bytes, m: ChallengeMessage, negotiate: bytes,
                          msg: bytes): Option<Session>
    requires c.Valid()
  {
    match DecodedRequest(msg)
    case Err(_) => None
    case Ok(req) =>
      if |req.negoTokens| != 1 || req.pubKeyAuth.None? || req.clientNonce.None? || req.version != 6 then None
      else
        var exported := Accepted(c, password, m, negotiate, req.negoTokens[0]);
        if exported.None? then None
        else
          var toServer := NewChannel(c, exported.value, ToServer);
          var toClient := NewChannel(c, exported.value, ToClient);
          var hash := BindingOf(c, ToServer, req.clientNonce.value, key);
          var reply := BindingOf(c, ToClient, req.clientNonce.value, key);
          if OpenedOn(c, toServer, req.pubKeyAuth.value) != Some(hash) then None
          else
            Some(Session(Blank().(pubKeyAuth := Some(SealedOn(c, toClient, reply))), exported.value,
                         Moved(toServer, hash), Moved(toClient, reply)))
  }

  /** The credentials a server reads from the client's third request. */
  function Delegated(c: Primitives, toServer: Channel, msg: bytes): Option<PasswordCreds>
    requires c.Valid()
  {
    match DecodedRequest(msg)
    case Err(_) => None
    case Ok(req) =>
      if req.authInfo.None? || req.version != 6 then None
      else
        match OpenedOn(c, toServer, req.authInfo.value)
        case None => None
        case Some(plain) => if ReadCreds(plain).Ok? then Some(ReadCreds(plain).value) else None
  }

  // ----- The bytes of its requests: section 2.2.1 of [MS-CSSP], in the encoding of ITU-T X.690 -----

  /** Tag, definite length in as few octets as it needs, value; lengths below 2^32. */
  function Element(tag: byte, value: bytes): bytes {
    [tag] + LengthOctets(|value|) + value
  }

  function LengthOctets(n: nat): bytes {
    if n < 0x80 then [n]
    else if n < 0x100 then [0x81, n]
    else if n < 0x1_0000 then [0x82, n / 0x100, n % 0x100]
    else if n < 0x100_0000 then [0x83, n / 0x1_0000, n / 0x100 % 0x100, n % 0x100]
    else [0x84, n / 0x100_0000 % 0x100, n / 0x1_0000 % 0x100, n / 0x100 % 0x100, n % 0x100]
  }

  /** Version 6. */
  const VersionSix: bytes := [0xA0, 3, 0x02, 1, 6]

  function TokenField(token: bytes): bytes {
    Element(0xA1, Element(0x30, Element(0x30, Element(0xA0, Element(0x04, token)))))
  }

  function FirstBytes(negotiate: bytes): bytes {
    Element(0x30, VersionSix + TokenField(negotiate))
  }

  function SecondBytes(authenticate: bytes, sealedHash: bytes, nonce: bytes): bytes {
    Element(0x30, VersionSix + TokenField(authenticate) + Element(0xA3, Element(0x04, sealedHash))
                  + Element(0xA5, Element(0x04, nonce)))
  }

  function ThirdBytes(sealedCredentials: bytes): bytes {
    Element(0x30, VersionSix + Element(0xA2, Element(0x04, sealedCredentials)))
  }

  /** Credentials of type 1: domain, user and password. */
  function CredentialBytes(creds: PasswordCreds): bytes {
    var strings := Element(0xA0, Element(0x04, creds.domain)) + Element(0xA1, Element(0x04, creds.username))
      + Element(0xA2, Element(0x04, creds.password));
    Element(0x30, [0xA0, 3, 0x02, 1, 1] + Element(0xA1, Element(0x04, Element(0x30, strings))))
  }
}
