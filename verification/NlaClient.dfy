/** The CredSSP client: section 3.1.5 of [MS-CSSP]. */
module NlaClient {
  import opened Prelude
  import opened Crypto
  import opened CredSsp
  import opened Ntlm
  import Sspi

  const CREDSSP_VERSION: u32 := 6
  const NTLM_VERSION: bytes := [10, 0, 0x4A, 0x4A, 0, 0, 0, 0x0F]

  /** Distinct bits, so their union is their sum. */
  const CLIENT_FLAGS: u32 :=
    UNICODE as int + NTLM + EXTENDED_SESSIONSECURITY + ALWAYS_SIGN + SIGN + SEAL + KEY_EXCH + TARGET_INFO + VERSION
    + NEGOTIATE_128 + NEGOTIATE_56

  /** The three random values of one exchange. */
  datatype Entropy = Entropy(clientChallenge: bytes, nonce: bytes, exported: bytes)

  /** What a client is built from; it never changes afterwards. */
  datatype Config = Config(creds: PasswordCreds, serverPublicKey: bytes, entropy: Entropy) {
    ghost predicate Valid() {
      |entropy.clientChallenge| == 8 && |entropy.nonce| == 32 && |entropy.exported| == 16
    }
  }

  /** What a client's calls change: the NEGOTIATE bytes sent, and the security context once there is one. */
  datatype ClientState = ClientState(negotiate: bytes, security: Option<Sspi.Context>)

  const Fresh := ClientState([], None)

  function Request(): TsRequest {
    NewRequest(CREDSSP_VERSION)
  }

  // ----- Step 1 -----

  function NegotiateToken(): bytes {
    EncodedNegotiate(CLIENT_FLAGS, Some(NTLM_VERSION))
  }

  function Started(st: ClientState): (bytes, ClientState) {
    (EncodedRequest(Request().(negoTokens := [NegotiateToken()])), st.(negotiate := NegotiateToken()))
  }

  // ----- Step 3 -----

  function Ntowf(c: Primitives, creds: PasswordCreds): bytes {
    NtowfV2(c, creds.password, creds.username, creds.domain)
  }

  function TempFor(cfg: Config, challenge: ChallengeMessage): bytes {
    var ts := FirstTimestamp(AvPairs(challenge.targetInfo, []));
    Temp(if ts.Some? then ts.value else Zeros(8), cfg.entropy.clientChallenge, challenge.targetInfo)
  }

  /**
   The AUTHENTICATE message before its MIC is computed; the LM response is zero when the target info has a timestamp.
   */
  function Response(c: Primitives, cfg: Config, challenge: ChallengeMessage): AuthenticateMessage {
    var ntowf := Ntowf(c, cfg.creds);
    var temp := TempFor(cfg, challenge);
    var proof := NtProof(c, ntowf, challenge.serverChallenge, temp);
    var lm := if FirstTimestamp(AvPairs(challenge.targetInfo, [])).Some? then Zeros(24)
              else LmResponse(c, ntowf, challenge.serverChallenge, cfg.entropy.clientChallenge);
    AuthenticateMessage(
      CLIENT_FLAGS, cfg.creds.domain, cfg.creds.username, [], lm, proof + temp,
      EncryptedSessionKey(c, SessionBaseKey(c, ntowf, proof), cfg.entropy.exported), NTLM_VERSION, Zeros(16))
  }

  function AuthenticateToken(c: Primitives, cfg: Config, negotiate: bytes, challengeBytes: bytes,
                             challenge: ChallengeMessage): bytes {
    EncodedAuthenticate(WithMic(c, Response(c, cfg, challenge), cfg.entropy.exported, negotiate, challengeBytes))
  }

  /** The client's context right after it sealed the public key's binding hash, and the sealed hash. */
  function Bound(c: Primitives, cfg: Config): (bytes, Sspi.Context)
    requires c.Valid()
  {
    Sspi.Sealed(c, Sspi.NewContext(c, Sspi.Client, cfg.entropy.exported),
      ClientHash(c, cfg.entropy.nonce, cfg.serverPublicKey))
  }

  function AuthenticateRequest(c: Primitives, cfg: Config, token: bytes): TsRequest
    requires c.Valid()
  {
    Request().(negoTokens := [token], pubKeyAuth := Some(Bound(c, cfg).0), clientNonce := Some(cfg.entropy.nonce))
  }

  /** The first token of a server's request, decoded. */
  function ChallengeIn(msg: bytes): Result<(bytes, ChallengeMessage)> {
    var req :- DecodedRequest(msg);
    if req.negoTokens == [] then Err(Protocol(NoChallengeToken))
    else
      var challenge :- DecodedChallenge(req.negoTokens[0]);
      Ok((req.negoTokens[0], challenge))
  }

  function Challenged(c: Primitives, cfg: Config, st: ClientState, msg: bytes): (Result<bytes>, ClientState)
    requires c.Valid()
  {
    match ChallengeIn(msg)
    case Err(e) => (Err(e), st)
    case Ok((challengeBytes, challenge)) =>
      var token := AuthenticateToken(c, cfg, st.negotiate, challengeBytes, challenge);
      (Ok(EncodedRequest(AuthenticateRequest(c, cfg, token))), st.(security := Some(Bound(c, cfg).1)))
  }

  // ----- Step 5 -----

  /** The sealed hash of a server's request: no non-zero error code, and a pubKeyAuth. */
  function SealedHashIn(msg: bytes): Result<bytes> {
    var req :- DecodedRequest(msg);
    if req.errorCode.Some? && req.errorCode.value != 0 then Err(NegotiationFailure(CredSspErrorCode))
    else if req.pubKeyAuth.None? then Err(Protocol(NoPubKeyAuth))
    else Ok(req.pubKeyAuth.value)
  }

  function CredentialsRequest(authInfo: bytes): TsRequest {
    Request().(authInfo := Some(authInfo))
  }

  /** A reply that fails to open, or opens to another hash, still moves the security context on. */
  function PubKeyed(c: Primitives, cfg: Config, st: ClientState, msg: bytes): (Result<bytes>, ClientState)
    requires c.Valid()
  {
    match SealedHashIn(msg)
    case Err(e) => (Err(e), st)
    case Ok(sealed) =>
      if st.security.None? then (Err(Protocol(NoSecurityContext)), st)
      else
        var (hash, ctx) := Sspi.Unsealed(c, st.security.value, sealed);
        if hash.Err? then (Err(hash.error), st.(security := Some(ctx)))
        else if hash.value != ServerHash(c, cfg.entropy.nonce, cfg.serverPublicKey) then
          (Err(Protocol(BindingHashMismatch)), st.(security := Some(ctx)))
        else
          var (authInfo, ctx) := Sspi.Sealed(c, ctx, TsCredentials(cfg.creds));
          (Ok(EncodedRequest(CredentialsRequest(authInfo))), st.(security := Some(ctx)))
  }

  // ----- The object -----

  class CredSspClient {
    const c: Primitives
    const cfg: Config
    var negotiateBytes: bytes
    var security: Sspi.SecurityContext?

    ghost predicate Valid()
      reads this
    {
      c.Valid() && (security != null ==> security.Valid() && security.c == c)
    }

    ghost function Footprint(): set<object>
      reads this
    {
      if security == null then {} else {security, security.ownSeal, security.peerSeal}
    }

    ghost function View(): ClientState
      reads this, Footprint()
    {
      ClientState(negotiateBytes, if security == null then None else Some(security.View()))
    }

    constructor (c: Primitives, cfg: Config)
      requires c.Valid()
      ensures Valid() && this.c == c && this.cfg == cfg && View() == Fresh
    {
      this.c, this.cfg := c, cfg;
      negotiateBytes, security := [], null;
    }

    method Start() returns (out: bytes)
      requires Valid()
      modifies this
      ensures Valid() && security == old(security)
      ensures (out, View()) == Started(old(View()))
    {
      hide EncodedNegotiate, EncodedRequest, Sspi.NewContext;
      negotiateBytes := EncodedNegotiate(CLIENT_FLAGS, Some(NTLM_VERSION));
      var req := NewRequest(CREDSSP_VERSION);
      req := req.(negoTokens := [negotiateBytes]);
      out := Encode(req);
    }

    method ProcessChallenge(msg: bytes) returns (r: Result<bytes>)
      requires Valid()
      modifies this
      ensures Valid() && fresh(Footprint() - old(Footprint()))
      ensures (r, View()) == Challenged(c, cfg, old(View()), msg)
    {
      hide DecodedRequest, EncodedRequest, DecodedChallenge, AvPairs, FirstTimestamp, Temp, EncodedAuthenticate,
        Sspi.NewContext, Sspi.Sealed, BindingHash, EncryptedSessionKey;
      var decoded := Decode(msg);
      if decoded.Err? {
        return Err(decoded.error);
      }
      if decoded.value.negoTokens == [] {
        return Err(Protocol(NoChallengeToken));
      }
      var challengeBytes := decoded.value.negoTokens[0];
      var parsed := DecodedChallenge(challengeBytes);
      if parsed.Err? {
        return Err(parsed.error);
      }
      var challenge := parsed.value;
      var auth := Authenticate(challenge);
      ghost var unsigned := auth;
      auth := ComputeMic(c, auth, cfg.entropy.exported, negotiateBytes, challengeBytes);
      OnlyMicVerifies(c, unsigned, auth, cfg.entropy.exported, negotiateBytes, challengeBytes);
      var token := EncodeAuthenticate(auth);

      var ctx := new Sspi.SecurityContext(c, Sspi.Client, cfg.entropy.exported);
      var blob := ctx.Seal(ClientHash(c, cfg.entropy.nonce, cfg.serverPublicKey));
      security := ctx;

      var req := NewRequest(CREDSSP_VERSION);
      req := req.(negoTokens := [token], pubKeyAuth := Some(blob), clientNonce := Some(cfg.entropy.nonce));
      var out := Encode(req);
      r := Ok(out);
    }

    method Authenticate(challenge: ChallengeMessage) returns (auth: AuthenticateMessage)
      ensures auth == Response(c, cfg, challenge)
    {
      hide AvPairs, FirstTimestamp, EncryptedSessionKey;
      var ntowf := NtowfV2(c, cfg.creds.password, cfg.creds.username, cfg.creds.domain);
      var timestamp, found := ExtractTimestamp(challenge.targetInfo);
      var t := Temp(timestamp, cfg.entropy.clientChallenge, challenge.targetInfo);
      var proof := NtProof(c, ntowf, challenge.serverChallenge, t);
      var lm := Zeros(24);
      if !found {
        lm := LmResponse(c, ntowf, challenge.serverChallenge, cfg.entropy.clientChallenge);
      }
      var sbk := SessionBaseKey(c, ntowf, proof);
      var key := EncryptedSessionKey(c, sbk, cfg.entropy.exported);
      auth := AuthenticateMessage(
        CLIENT_FLAGS, cfg.creds.domain, cfg.creds.username, [], lm, proof + t, key, NTLM_VERSION, Zeros(16));
    }

    method ProcessPubkey(msg: bytes) returns (r: Result<bytes>)
      requires Valid()
      modifies Footprint()
      ensures Valid() && Footprint() == old(Footprint())
      ensures (r, View()) == PubKeyed(c, cfg, old(View()), msg)
    {
      hide DecodedRequest, EncodedRequest, Sspi.Sealed, Sspi.Unsealed, BindingHash, TsCredentials;
      var decoded := Decode(msg);
      if decoded.Err? {
        return Err(decoded.error);
      }
      var req := decoded.value;
      if req.errorCode.Some? {
        if req.errorCode.value != 0 {
          return Err(NegotiationFailure(CredSspErrorCode));
        }
      }
      if req.pubKeyAuth.None? {
        return Err(Protocol(NoPubKeyAuth));
      }
      if security == null {
        return Err(Protocol(NoSecurityContext));
      }
      var hash := security.Unseal(req.pubKeyAuth.value);
      if hash.Err? {
        return Err(hash.error);
      }
      if hash.value != ServerHash(c, cfg.entropy.nonce, cfg.serverPublicKey) {
        return Err(Protocol(BindingHashMismatch));
      }
      var authInfo := security.Seal(TsCredentials(cfg.creds));
      var reply := NewRequest(CREDSSP_VERSION);
      reply := reply.(authInfo := Some(authInfo));
      var out := Encode(reply);
      r := Ok(out);
    }
  }
}
