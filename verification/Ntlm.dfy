/** NTLM messages and NTLMv2 keys: sections 2.2.1, 3.3.2 and 3.4.5 of [MS-NLMP]. */
module Ntlm {
  import opened Prelude
  import opened Crypto

  const SIGNATURE: bytes := Ascii("NTLMSSP\0")
  const HEADER_LEN := 88
  const MIC_OFFSET := 72

  const UNICODE: u32 := 0x0000_0001
  const SIGN: u32 := 0x0000_0010
  const SEAL: u32 := 0x0000_0020
  const NTLM: u32 := 0x0000_0200
  const ALWAYS_SIGN: u32 := 0x0000_8000
  const EXTENDED_SESSIONSECURITY: u32 := 0x0008_0000
  const TARGET_INFO: u32 := 0x0080_0000
  const VERSION: u32 := 0x0200_0000
  const NEGOTIATE_128: u32 := 0x2000_0000
  const KEY_EXCH: u32 := 0x4000_0000
  const NEGOTIATE_56: u32 := 0x8000_0000

  const AV_EOL: u16 := 0x0000
  const AV_TIMESTAMP: u16 := 0x0007

  // ----- Security buffers -----

  /** Length and offset of a payload. */
  datatype Field = Field(len: u16, offset: u32)

  function WriteField(f: Field): (r: bytes)
    ensures |r| == 8
  {
    U16Le(f.len) + U16Le(f.len) + U32Le(f.offset)
  }

  function FieldAt(msg: bytes, i: nat): Field
    requires i + 8 <= |msg|
  {
    Field(U16LeAt(msg, i), U32LeAt(msg, i + 4))
  }

  function Slice(f: Field, msg: bytes): Result<bytes> {
    var end: nat := f.offset + f.len;
    if end > |msg| then Err(Short(end, |msg|)) else Ok(msg[f.offset..end])
  }

  /** The descriptor of a payload placed at `offset`: length and offset are stored in 16 and 32 bits. */
  function Placed(payload: bytes, offset: nat): Field {
    Field(|payload| % 0x1_0000, offset % 0x1_0000_0000)
  }

  lemma FieldReadsBack(pre: bytes, f: Field, post: bytes)
    ensures FieldAt(pre + WriteField(f) + post, |pre|) == f
  {
    hide U16Le, U16LeAt, U32Le, U32LeAt;
    U16LeIn(pre + WriteField(f) + post, |pre|, f.len);
    U32LeIn(pre + WriteField(f) + post, |pre| + 4, f.offset);
  }

  function CheckSignature(msg: bytes, expected: u32): Result<()> {
    if |msg| < 12 then Err(Short(12, |msg|))
    else if msg[..8] != SIGNATURE then Err(Protocol(BadNtlmSignature))
    else if U32LeAt(msg, 8) != expected then Err(Protocol(UnexpectedNtlmType))
    else Ok(())
  }

  // ----- NEGOTIATE -----

  function EncodedNegotiate(flags: u32, version: Option<bytes>): bytes {
    var headerLen := if version.Some? then 40 else 32;
    SIGNATURE + U32Le(1) + U32Le(flags) + WriteField(Field(0, headerLen)) + WriteField(Field(0, headerLen))
    + (if version.Some? then version.value else [])
  }

  predicate HasVersion(flags: u32) {
    flags / VERSION % 2 == 1
  }

  /** Flags and version; the two empty fields are skipped unread. */
  function DecodedNegotiate(msg: bytes): Result<(u32, Option<bytes>)> {
    var _ :- CheckSignature(msg, 1);
    if |msg| < 32 then Err(Panic)
    else Ok((U32LeAt(msg, 12), if HasVersion(U32LeAt(msg, 12)) && |msg| >= 40 then Some(msg[32..40]) else None))
  }

  /** A NEGOTIATE message reads back exactly when its version flag says whether a version follows. */
  lemma NegotiateRoundTrip(flags: u32, version: Option<bytes>)
    requires version.Some? ==> |version.value| == 8
    ensures DecodedNegotiate(EncodedNegotiate(flags, version)) == Ok((flags, version))
            <==> (version.Some? ==> HasVersion(flags))
  {
    hide U32Le, U32LeAt, WriteField;
    var msg := EncodedNegotiate(flags, version);
    var field := WriteField(Field(0, if version.Some? then 40 else 32));
    var tail := if version.Some? then version.value else [];
    assert msg == SIGNATURE + U32Le(1) + U32Le(flags) + field + field + tail;
    assert msg[..8] == SIGNATURE && msg[8..12] == U32Le(1) && msg[12..16] == U32Le(flags) && msg[32..] == tail;
    U32LeIn(msg, 8, 1);
    U32LeIn(msg, 12, flags);
    assert version.Some? ==> msg[32..40] == tail;
  }

  // ----- CHALLENGE -----

  datatype ChallengeMessage = ChallengeMessage(flags: u32, serverChallenge: bytes, targetName: bytes,
                                               targetInfo: bytes) {
    ghost predicate Valid() {
      |serverChallenge| == 8 && |targetName| < 0x1_0000 && |targetInfo| < 0x1_0000
    }
  }

  function SliceOrEmpty(f: Field, msg: bytes): bytes {
    if Slice(f, msg).Ok? then Slice(f, msg).value else []
  }

  /** The fixed fields are read without length checks except one, so some truncated messages panic. */
  function DecodedChallenge(msg: bytes): Result<ChallengeMessage> {
    var _ :- CheckSignature(msg, 2);
    if |msg| < 24 then Err(Panic)
    else if |msg| < 40 then Err(Short(16, |msg| - 24))
    else if |msg| < 48 then Err(Panic)
    else Ok(ChallengeMessage(U32LeAt(msg, 20), msg[24..32], SliceOrEmpty(FieldAt(msg, 12), msg),
      SliceOrEmpty(FieldAt(msg, 40), msg)))
  }

  function EncodedChallenge(m: ChallengeMessage): bytes {
    SIGNATURE + U32Le(2) + WriteField(Placed(m.targetName, 48)) + U32Le(m.flags) + m.serverChallenge + Zeros(8)
    + WriteField(Placed(m.targetInfo, 48 + |m.targetName|)) + m.targetName + m.targetInfo
  }

  lemma ChallengeFixedFields(m: ChallengeMessage)
    requires m.Valid()
    ensures var msg := EncodedChallenge(m);
            && |msg| == 48 + |m.targetName| + |m.targetInfo|
            && CheckSignature(msg, 2) == Ok(())
            && U32LeAt(msg, 20) == m.flags && msg[24..32] == m.serverChallenge
  {
    hide WriteField, U32Le, U32LeAt;
    var msg := EncodedChallenge(m);
    assert msg[..8] == SIGNATURE;
    U32LeIn(msg, 8, 2);
    U32LeIn(msg, 20, m.flags);
  }

  /** A descriptor and, further on, the payload it designates. */
  lemma PlacedReads(pre: bytes, mid: bytes, payload: bytes, post: bytes)
    requires |payload| < 0x1_0000 && |pre| + 8 + |mid| < 0x1_0000_0000
    ensures var msg := pre + WriteField(Placed(payload, |pre| + 8 + |mid|)) + mid + payload + post;
            SliceOrEmpty(FieldAt(msg, |pre|), msg) == payload
  {
    hide WriteField, FieldAt;
    var f := Placed(payload, |pre| + 8 + |mid|);
    var msg := pre + WriteField(f) + mid + payload + post;
    assert msg == pre + WriteField(f) + (mid + payload + post);
    FieldReadsBack(pre, f, mid + payload + post);
    var head := pre + WriteField(f) + mid;
    assert msg == head + payload + post && |head| == f.offset;
  }

  lemma ChallengePayloads(m: ChallengeMessage)
    requires m.Valid()
    ensures var msg := EncodedChallenge(m);
            && |msg| >= 48
            && SliceOrEmpty(FieldAt(msg, 12), msg) == m.targetName
            && SliceOrEmpty(FieldAt(msg, 40), msg) == m.targetInfo
  {
    hide WriteField, FieldAt, U32Le, SliceOrEmpty;
    var msg := EncodedChallenge(m);
    var head := SIGNATURE + U32Le(2);
    var middle := U32Le(m.flags) + m.serverChallenge + Zeros(8);
    var nameField := WriteField(Placed(m.targetName, 48));
    var infoField := WriteField(Placed(m.targetInfo, 48 + |m.targetName|));
    PlacedReads(head, middle + infoField, m.targetName, m.targetInfo);
    assert msg == head + nameField + (middle + infoField) + m.targetName + m.targetInfo;
    PlacedReads(head + nameField + middle, m.targetName, m.targetInfo, []);
    assert msg == head + nameField + middle + infoField + m.targetName + m.targetInfo + [];
  }

  lemma ChallengeRoundTrip(m: ChallengeMessage)
    requires m.Valid()
    ensures DecodedChallenge(EncodedChallenge(m)) == Ok(m)
  {
    hide EncodedChallenge, CheckSignature, FieldAt, SliceOrEmpty;
    ChallengeFixedFields(m);
    ChallengePayloads(m);
  }

  /** A CHALLENGE of full length is never refused: payloads that lie outside it are taken to be empty. */
  lemma ChallengeIsLenient(msg: bytes)
    requires CheckSignature(msg, 2).Ok? && |msg| >= 48
    ensures DecodedChallenge(msg).Ok?
    ensures FieldAt(msg, 12).offset as int + FieldAt(msg, 12).len as int > |msg| ==>
              DecodedChallenge(msg).value.targetName == []
    ensures FieldAt(msg, 40).offset as int + FieldAt(msg, 40).len as int > |msg| ==>
              DecodedChallenge(msg).value.targetInfo == []
  {
    hide CheckSignature, FieldAt, U32LeAt;
  }

  // ----- Messages the code stops on -----

  /** A CHALLENGE cut inside its first descriptor or flags, or inside its second descriptor. */
  predicate CutChallenge(msg: bytes) {
    CheckSignature(msg, 2).Ok? && (|msg| < 24 || 40 <= |msg| < 48)
  }

  lemma ChallengeStops(msg: bytes)
    ensures DecodedChallenge(msg) == Err(Panic) <==> CutChallenge(msg)
    ensures DecodedNegotiate(msg) == Err(Panic) <==> CheckSignature(msg, 1).Ok? && |msg| < 32
    ensures DecodedAuthenticate(msg) == Err(Panic) <==> CheckSignature(msg, 3).Ok? && |msg| < 64
    ensures CutChallenge(SIGNATURE + U32Le(2))
  {
    hide U32Le, U32LeAt, FieldAt;
    var cut := SIGNATURE + U32Le(2);
    U32LeIn(cut, 8, 2);
    assert cut[..8] == SIGNATURE;
  }

  // ----- AUTHENTICATE -----

  datatype AuthenticateMessage = AuthenticateMessage(
    flags: u32, domain: bytes, user: bytes, workstation: bytes, lmResponse: bytes, ntResponse: bytes,
    sessionKey: bytes, version: bytes, mic: bytes)
  {
    ghost predicate Valid() {
      |version| == 8 && |mic| == 16
    }

    /** Every payload length fits its 16-bit descriptor. */
    ghost predicate Fits() {
      && |lmResponse| < 0x1_0000 && |ntResponse| < 0x1_0000 && |domain| < 0x1_0000
      && |user| < 0x1_0000 && |workstation| < 0x1_0000 && |sessionKey| < 0x1_0000
    }
  }

  /** The payloads in wire order. */
  function Payloads(m: AuthenticateMessage): (r: seq<bytes>)
    ensures |r| == 6
  {
    [m.lmResponse, m.ntResponse, m.domain, m.user, m.workstation, m.sessionKey]
  }

  function Concat(parts: seq<bytes>): bytes {
    if parts == [] then [] else Concat(parts[..|parts| - 1]) + parts[|parts| - 1]
  }

  /** Where the k-th payload starts. */
  function PayloadOffset(m: AuthenticateMessage, k: nat): nat
    requires k <= 6
  {
    HEADER_LEN + |Concat(Payloads(m)[..k])|
  }

  function Descriptors(m: AuthenticateMessage, n: nat): (r: bytes)
    requires n <= 6
    ensures |r| == 8 * n
  {
    if n == 0 then [] else Descriptors(m, n - 1) + WriteField(Placed(Payloads(m)[n - 1], PayloadOffset(m, n - 1)))
  }

  function Prefix(m: AuthenticateMessage): bytes {
    SIGNATURE + U32Le(3) + Descriptors(m, 6) + U32Le(m.flags) + m.version
  }

  function EncodedAuthenticate(m: AuthenticateMessage): bytes {
    Prefix(m) + m.mic + Concat(Payloads(m))
  }

  /** Lay out the payloads with a running offset, recording their descriptors. */
  method EncodeAuthenticate(m: AuthenticateMessage) returns (out: bytes)
    ensures out == EncodedAuthenticate(m)
  {
    hide WriteField;
    var payload: bytes, fields: bytes, off: nat := [], [], HEADER_LEN;
    var parts := Payloads(m);
    for k := 0 to 6
      invariant payload == Concat(parts[..k]) && fields == Descriptors(m, k) && off == PayloadOffset(m, k)
    {
      ConcatNext(parts, k);
      fields := fields + WriteField(Placed(parts[k], off));
      payload := payload + parts[k];
      off := off + |parts[k]|;
    }
    assert parts[..6] == parts;
    out := SIGNATURE + U32Le(3) + fields + U32Le(m.flags) + m.version + m.mic + payload;
  }

  lemma ConcatNext(parts: seq<bytes>, k: nat)
    requires k < |parts|
    ensures Concat(parts[..k + 1]) == Concat(parts[..k]) + parts[k]
  {
    assert parts[..k + 1][..k] == parts[..k];
  }

  function DecodedAuthenticate(msg: bytes): Result<AuthenticateMessage> {
    var _ :- CheckSignature(msg, 3);
    if |msg| < 64 then Err(Panic)
    else if |msg| < 88 then Err(Short(24, |msg| - 64))
    else
      var domain :- Slice(FieldAt(msg, 28), msg);
      var user :- Slice(FieldAt(msg, 36), msg);
      var workstation :- Slice(FieldAt(msg, 44), msg);
      var lm :- Slice(FieldAt(msg, 12), msg);
      var nt :- Slice(FieldAt(msg, 20), msg);
      var key :- Slice(FieldAt(msg, 52), msg);
      Ok(AuthenticateMessage(U32LeAt(msg, 60), domain, user, workstation, lm, nt, key, msg[64..72], msg[72..88]))
  }

  lemma {:induction false} ConcatSplit(parts: seq<bytes>, k: nat)
    requires k < |parts|
    ensures |Concat(parts[..k])| + |parts[k]| <= |Concat(parts)|
    ensures Concat(parts)[|Concat(parts[..k])|..|Concat(parts[..k])| + |parts[k]|] == parts[k]
    decreases |parts|
  {
    var n := |parts| - 1;
    if k < n {
      ConcatSplit(parts[..n], k);
      assert parts[..n][..k] == parts[..k];
    }
  }

  lemma {:induction false} DescriptorAt(m: AuthenticateMessage, n: nat, k: nat)
    requires k < n <= 6
    ensures Descriptors(m, n)[8 * k..8 * k + 8] == WriteField(Placed(Payloads(m)[k], PayloadOffset(m, k)))
    decreases n
  {
    hide WriteField, Payloads, PayloadOffset;
    if k < n - 1 {
      DescriptorAt(m, n - 1, k);
    }
  }

  lemma SliceInside(s: bytes, at: nat, full: nat, len: nat)
    requires at + full <= |s| && len <= full
    ensures s[at..at + full][..len] == s[at..at + len]
  {
  }

  lemma SliceAfter(pre: bytes, s: bytes, at: nat, len: nat)
    requires at + len <= |s|
    ensures (pre + s)[|pre| + at..|pre| + at + len] == s[at..at + len]
  {
  }

  /** The beginning of the k-th payload stands where the payloads before it end. */
  lemma PayloadSlice(pre: bytes, parts: seq<bytes>, k: nat, len: nat)
    requires k < |parts| && len <= |parts[k]|
    ensures var at := |pre| + |Concat(parts[..k])|;
            at + len <= |pre + Concat(parts)| && (pre + Concat(parts))[at..at + len] == parts[k][..len]
  {
    hide Concat;
    ConcatSplit(parts, k);
    SliceInside(Concat(parts), |Concat(parts[..k])|, |parts[k]|, len);
    SliceAfter(pre, Concat(parts), |Concat(parts[..k])|, len);
  }

  lemma DescriptorInPlace(m: AuthenticateMessage, k: nat)
    requires m.Valid() && k < 6
    ensures var msg, i := EncodedAuthenticate(m), 12 + 8 * k;
            && i + 8 <= HEADER_LEN <= |msg|
            && msg[i..i + 8] == WriteField(Placed(Payloads(m)[k], PayloadOffset(m, k)))
  {
    hide WriteField, Payloads, Descriptors, Concat, PayloadOffset, U32Le;
    var rest := U32Le(m.flags) + m.version + m.mic + Concat(Payloads(m));
    var head := SIGNATURE + U32Le(3);
    assert EncodedAuthenticate(m) == head + (Descriptors(m, 6) + rest);
    assert |head| == 12;
    SliceAfter(head, Descriptors(m, 6) + rest, 8 * k, 8);
    DescriptorAt(m, 6, k);
    assert (Descriptors(m, 6) + rest)[8 * k..8 * k + 8] == Descriptors(m, 6)[8 * k..8 * k + 8];
  }

  lemma FieldIn(msg: bytes, i: nat, f: Field)
    requires i + 8 <= |msg| && msg[i..i + 8] == WriteField(f)
    ensures FieldAt(msg, i) == f
  {
    hide WriteField, FieldAt;
    assert msg == msg[..i] + WriteField(f) + msg[i + 8..];
    FieldReadsBack(msg[..i], f, msg[i + 8..]);
  }

  /** As much of a payload as its 16-bit length describes. */
  function Described(payload: bytes): bytes {
    payload[..|payload| % 0x1_0000]
  }

  /** The descriptor read from the wire message and the bytes it designates. */
  lemma PayloadReads(m: AuthenticateMessage, k: nat)
    requires m.Valid() && k < 6 && HEADER_LEN + |Concat(Payloads(m))| < 0x1_0000_0000
    ensures |EncodedAuthenticate(m)| == HEADER_LEN + |Concat(Payloads(m))|
    ensures var msg := EncodedAuthenticate(m);
            && FieldAt(msg, 12 + 8 * k) == Placed(Payloads(m)[k], PayloadOffset(m, k))
            && Slice(FieldAt(msg, 12 + 8 * k), msg) == Ok(Described(Payloads(m)[k]))
  {
    hide WriteField, FieldAt, Payloads, Prefix, Concat;
    var parts := Payloads(m);
    var f := Placed(parts[k], PayloadOffset(m, k));
    DescriptorInPlace(m, k);
    FieldIn(EncodedAuthenticate(m), 12 + 8 * k, f);
    PrefixSize(m);
    ConcatSplit(parts, k);
    PayloadSlice(Prefix(m) + m.mic, parts, k, f.len);
  }

  lemma PrefixSize(m: AuthenticateMessage)
    requires m.Valid()
    ensures |Prefix(m)| == MIC_OFFSET
  {
  }

  lemma FixedFields(m: AuthenticateMessage)
    requires m.Valid()
    ensures var msg := EncodedAuthenticate(m);
            && |msg| >= HEADER_LEN && CheckSignature(msg, 3) == Ok(())
            && U32LeAt(msg, 60) == m.flags && msg[64..72] == m.version && msg[72..88] == m.mic
  {
    hide Descriptors, Concat, Payloads, U32Le, U32LeAt;
    var msg := EncodedAuthenticate(m);
    assert msg[..8] == SIGNATURE;
    U32LeIn(msg, 8, 3);
    U32LeIn(msg, 60, m.flags);
  }

  /** Decoding inverts encoding for all six payloads exactly when every one of them fits a 16-bit length. */
  lemma AuthenticateRoundTrip(m: AuthenticateMessage)
    requires m.Valid() && HEADER_LEN + |Concat(Payloads(m))| < 0x1_0000_0000
    ensures DecodedAuthenticate(EncodedAuthenticate(m)) == Ok(m) <==> m.Fits()
  {
    hide EncodedAuthenticate, Concat, FieldAt, Slice, CheckSignature;
    FixedFields(m);
    PayloadReads(m, 0);
    PayloadReads(m, 1);
    PayloadReads(m, 2);
    PayloadReads(m, 3);
    PayloadReads(m, 4);
    PayloadReads(m, 5);
    if m.Fits() {
      assert forall k :: 0 <= k < 6 ==> Payloads(m)[k][..|Payloads(m)[k]| % 0x1_0000] == Payloads(m)[k];
    }
  }

  /** When everything fits, a descriptor holds its payload's place and whole length. */
  lemma DescriptorReads(m: AuthenticateMessage, k: nat)
    requires m.Valid() && m.Fits() && k < 6 && HEADER_LEN + |Concat(Payloads(m))| < 0x1_0000_0000
    ensures |EncodedAuthenticate(m)| == HEADER_LEN + |Concat(Payloads(m))|
    ensures var f := FieldAt(EncodedAuthenticate(m), 12 + 8 * k);
            f.offset == PayloadOffset(m, k) && f.len == |Payloads(m)[k]|
  {
    hide EncodedAuthenticate, FieldAt, Slice, Concat;
    PayloadReads(m, k);
    ConcatLonger(Payloads(m), k);
  }

  lemma NextPayloadOffset(m: AuthenticateMessage, k: nat)
    requires k < 6
    ensures PayloadOffset(m, k + 1) == PayloadOffset(m, k) + |Payloads(m)[k]|
  {
    hide Concat, Payloads;
    ConcatNext(Payloads(m), k);
  }

  /** The six descriptors are disjoint, in order, and tile the message from offset 88 to its end. */
  lemma DescriptorsTile(m: AuthenticateMessage)
    requires m.Valid() && m.Fits() && HEADER_LEN + |Concat(Payloads(m))| < 0x1_0000_0000
    ensures var msg := EncodedAuthenticate(m);
            && |msg| >= HEADER_LEN
            && FieldAt(msg, 12).offset == HEADER_LEN
            && (forall k :: 0 <= k < 5 ==>
                  FieldAt(msg, 12 + 8 * (k + 1)).offset
                    == FieldAt(msg, 12 + 8 * k).offset + FieldAt(msg, 12 + 8 * k).len)
            && FieldAt(msg, 52).offset + FieldAt(msg, 52).len == |msg|
  {
    hide EncodedAuthenticate, FieldAt, PayloadOffset, Payloads, Concat;
    var msg := EncodedAuthenticate(m);
    DescriptorReads(m, 0);
    forall k | 0 <= k < 5
      ensures FieldAt(msg, 12 + 8 * (k + 1)).offset == FieldAt(msg, 12 + 8 * k).offset + FieldAt(msg, 12 + 8 * k).len
    {
      DescriptorReads(m, k);
      DescriptorReads(m, k + 1);
      NextPayloadOffset(m, k);
    }
    DescriptorReads(m, 5);
    NextPayloadOffset(m, 5);
    EndOffsets(m);
  }

  lemma EndOffsets(m: AuthenticateMessage)
    ensures PayloadOffset(m, 0) == HEADER_LEN && PayloadOffset(m, 6) == HEADER_LEN + |Concat(Payloads(m))|
  {
    hide Payloads;
    ConcatEmpty(Payloads(m));
    assert Payloads(m)[..6] == Payloads(m);
  }

  lemma ConcatEmpty(parts: seq<bytes>)
    ensures Concat(parts[..0]) == []
  {
  }

  lemma ConcatLonger(parts: seq<bytes>, k: nat)
    requires k < |parts|
    ensures |Concat(parts[..k])| <= |Concat(parts)|
  {
    ConcatSplit(parts, k);
  }

  // ----- Message integrity code -----

  /** HMAC over NEGOTIATE, CHALLENGE and AUTHENTICATE with its MIC field zeroed. */
  function Mic(c: Primitives, m: AuthenticateMessage, exported: bytes, negotiate: bytes, challenge: bytes): bytes {
    c.hmac(exported, negotiate + challenge + EncodedAuthenticate(m.(mic := Zeros(16))))
  }

  function WithMic(c: Primitives, m: AuthenticateMessage, exported: bytes, negotiate: bytes,
                   challenge: bytes): AuthenticateMessage {
    m.(mic := Mic(c, m, exported, negotiate, challenge))
  }

  /** The wire message with bytes 72..88 zeroed. */
  function ZeroMic(msg: bytes): bytes
    requires |msg| >= HEADER_LEN
  {
    msg[..MIC_OFFSET] + Zeros(16) + msg[HEADER_LEN..]
  }

  /** What a receiver checks: bytes 72..88 of the wire message are the HMAC of the messages with those bytes zeroed. */
  predicate MicHolds(c: Primitives, msg: bytes, exported: bytes, negotiate: bytes, challenge: bytes) {
    |msg| >= HEADER_LEN && msg[MIC_OFFSET..HEADER_LEN] == c.hmac(exported, negotiate + challenge + ZeroMic(msg))
  }

  /** Sets the MIC and nothing else, so that the receiver's check holds. */
  method ComputeMic(c: Primitives, m0: AuthenticateMessage, exported: bytes, negotiate: bytes, challenge: bytes)
    returns (m: AuthenticateMessage)
    requires c.Valid() && m0.Valid()
    ensures m == m0.(mic := m.mic) && m.Valid()
    ensures MicHolds(c, EncodedAuthenticate(m), exported, negotiate, challenge)
  {
    hide EncodedAuthenticate, MicHolds;
    m := m0.(mic := Zeros(16));
    var zeroed := EncodeAuthenticate(m);
    var data := negotiate + challenge + zeroed;
    m := m.(mic := c.hmac(exported, data));
    MicVerifies(c, m0, exported, negotiate, challenge);
  }

  lemma ZeroedMessage(m: AuthenticateMessage)
    requires m.Valid()
    ensures |EncodedAuthenticate(m)| >= HEADER_LEN
    ensures ZeroMic(EncodedAuthenticate(m)) == EncodedAuthenticate(m.(mic := Zeros(16)))
  {
    hide Prefix, Concat, Payloads;
    var zeroed := m.(mic := Zeros(16));
    PrefixSize(m);
    SamePrefix(m, zeroed);
    var msg := EncodedAuthenticate(m);
    assert msg[..MIC_OFFSET] == Prefix(m) && msg[HEADER_LEN..] == Concat(Payloads(m));
  }

  /** The computed MIC passes the receiver's check. */
  lemma MicVerifies(c: Primitives, m: AuthenticateMessage, exported: bytes, negotiate: bytes, challenge: bytes)
    requires c.Valid() && m.Valid()
    ensures WithMic(c, m, exported, negotiate, challenge).Valid()
    ensures MicHolds(c, EncodedAuthenticate(WithMic(c, m, exported, negotiate, challenge)), exported, negotiate,
              challenge)
  {
    hide EncodedAuthenticate, ZeroMic;
    var stored := WithMic(c, m, exported, negotiate, challenge);
    FixedFields(stored);
    ZeroedMessage(stored);
  }

  /** And it is the only one that does. */
  lemma OnlyMicVerifies(c: Primitives, m0: AuthenticateMessage, m: AuthenticateMessage, exported: bytes,
                        negotiate: bytes, challenge: bytes)
    requires c.Valid() && m.Valid() && m == m0.(mic := m.mic)
    ensures MicHolds(c, EncodedAuthenticate(m), exported, negotiate, challenge)
            <==> m == WithMic(c, m0, exported, negotiate, challenge)
  {
    hide EncodedAuthenticate, ZeroMic;
    FixedFields(m);
    ZeroedMessage(m);
  }

  lemma SamePrefix(m: AuthenticateMessage, n: AuthenticateMessage)
    requires m.Valid() && n == m.(mic := n.mic)
    ensures |Prefix(m)| == 72 && Prefix(n) == Prefix(m) && Payloads(n) == Payloads(m)
  {
    SameDescriptors(m, n, 6);
  }

  lemma {:induction false} SameDescriptors(m: AuthenticateMessage, n: AuthenticateMessage, k: nat)
    requires k <= 6 && Payloads(m) == Payloads(n)
    ensures Descriptors(m, k) == Descriptors(n, k)
  {
    hide WriteField, Payloads;
    if k > 0 {
      SameDescriptors(m, n, k - 1);
    }
  }

  // ----- AV pairs -----

  function AvPairs(ti: bytes, pairs: seq<(u16, bytes)>): seq<(u16, bytes)>
    decreases |ti|
  {
    if |ti| < 4 then pairs
    else
      var id, len := U16LeAt(ti, 0), U16LeAt(ti, 2);
      var rest := ti[4..];
      if id == AV_EOL || |rest| < len then pairs
      else AvPairs(rest[len..], pairs + [(id, rest[..len])])
  }

  method ParseAvPairs(targetInfo: bytes) returns (pairs: seq<(u16, bytes)>)
    ensures pairs == AvPairs(targetInfo, [])
  {
    var ti := targetInfo;
    pairs := [];
    while |ti| >= 4
      invariant AvPairs(targetInfo, []) == AvPairs(ti, pairs)
      decreases |ti|
    {
      var id := U16LeAt(ti, 0);
      var len := U16LeAt(ti, 2);
      ti := ti[4..];
      if id == AV_EOL {
        return;
      }
      if |ti| < len {
        return;
      }
      pairs := pairs + [(id, ti[..len])];
      ti := ti[len..];
    }
  }

  function PrintPairs(pairs: seq<(u16, bytes)>): bytes
    requires forall k :: 0 <= k < |pairs| ==> |pairs[k].1| < 0x1_0000
  {
    if pairs == [] then U16Le(AV_EOL) + U16Le(0)
    else U16Le(pairs[0].0) + U16Le(|pairs[0].1|) + pairs[0].1 + PrintPairs(pairs[1..])
  }

  lemma PairReadsBack(pair: (u16, bytes), before: seq<(u16, bytes)>, tail: bytes)
    requires |pair.1| < 0x1_0000 && pair.0 != AV_EOL
    ensures AvPairs(U16Le(pair.0) + U16Le(|pair.1|) + pair.1 + tail, before) == AvPairs(tail, before + [pair])
  {
    hide U16Le, U16LeAt;
    var ti := U16Le(pair.0) + U16Le(|pair.1|) + pair.1 + tail;
    U16LeIn(ti, 0, pair.0);
    U16LeIn(ti, 2, |pair.1|);
    assert ti[4..] == pair.1 + tail;
    assert ti[4..][..|pair.1|] == pair.1 && ti[4..][|pair.1|..] == tail;
    assert pair == (pair.0, pair.1);
  }

  lemma NoPairsReadBack(before: seq<(u16, bytes)>, rest: bytes)
    ensures AvPairs(PrintPairs([]) + rest, before) == before
  {
    hide U16Le, U16LeAt;
    U16LeIn(PrintPairs([]) + rest, 0, AV_EOL);
  }

  /** A list of pairs and its terminator read back, whatever follows. */
  lemma {:induction false} PairsReadBack(pairs: seq<(u16, bytes)>, before: seq<(u16, bytes)>, rest: bytes)
    requires forall k :: 0 <= k < |pairs| ==> |pairs[k].1| < 0x1_0000 && pairs[k].0 != AV_EOL
    ensures AvPairs(PrintPairs(pairs) + rest, before) == before + pairs
    decreases |pairs|
  {
    hide AvPairs, U16Le;
    if pairs == [] {
      assert before + pairs == before;
      NoPairsReadBack(before, rest);
    } else {
      var head, tail := U16Le(pairs[0].0) + U16Le(|pairs[0].1|) + pairs[0].1, PrintPairs(pairs[1..]);
      Regroup(head, tail, rest);
      PairReadsBack(pairs[0], before, tail + rest);
      PairsReadBack(pairs[1..], before + [pairs[0]], rest);
      assert pairs == [pairs[0]] + pairs[1..];
      Regroup(before, [pairs[0]], pairs[1..]);
    }
  }

  /** Pairs without a terminator end where the next does not fit. */
  lemma {:induction false} CutPairs(pairs: seq<(u16, bytes)>, before: seq<(u16, bytes)>, cut: bytes)
    requires forall k :: 0 <= k < |pairs| ==> |pairs[k].1| < 0x1_0000 && pairs[k].0 != AV_EOL
    requires |cut| < 4 || |cut| - 4 < U16LeAt(cut, 2)
    ensures AvPairs(PairBytes(pairs) + cut, before) == before + pairs
    decreases |pairs|
  {
    hide U16Le, U16LeAt;
    if pairs == [] {
      assert PairBytes(pairs) + cut == cut && before + pairs == before;
    } else {
      hide AvPairs;
      var head, tail := U16Le(pairs[0].0) + U16Le(|pairs[0].1|) + pairs[0].1, PairBytes(pairs[1..]);
      Regroup(head, tail, cut);
      PairReadsBack(pairs[0], before, tail + cut);
      CutPairs(pairs[1..], before + [pairs[0]], cut);
      assert pairs == [pairs[0]] + pairs[1..];
      Regroup(before, [pairs[0]], pairs[1..]);
    }
  }

  /** Pairs on the wire, without a terminator. */
  function PairBytes(pairs: seq<(u16, bytes)>): bytes
    requires forall k :: 0 <= k < |pairs| ==> |pairs[k].1| < 0x1_0000
  {
    if pairs == [] then []
    else U16Le(pairs[0].0) + U16Le(|pairs[0].1|) + pairs[0].1 + PairBytes(pairs[1..])
  }

  /** The first eight-byte timestamp among the pairs. */
  function FirstTimestamp(pairs: seq<(u16, bytes)>): Option<bytes> {
    if pairs == [] then None
    else if pairs[0].0 == AV_TIMESTAMP && |pairs[0].1| == 8 then Some(pairs[0].1)
    else FirstTimestamp(pairs[1..])
  }

  method ExtractTimestamp(targetInfo: bytes) returns (ts: bytes, found: bool)
    ensures found == FirstTimestamp(AvPairs(targetInfo, [])).Some?
    ensures ts == if found then FirstTimestamp(AvPairs(targetInfo, [])).value else Zeros(8)
  {
    var pairs := ParseAvPairs(targetInfo);
    for k := 0 to |pairs|
      invariant FirstTimestamp(pairs) == FirstTimestamp(pairs[k..])
    {
      assert pairs[k..][1..] == pairs[k + 1..];
      if pairs[k].0 == AV_TIMESTAMP && |pairs[k].1| == 8 {
        return pairs[k].1, true;
      }
    }
    return Zeros(8), false;
  }

  // ----- NTLMv2 -----

  function NtowfV2(c: Primitives, password: bytes, user: bytes, domain: bytes): bytes {
    c.hmac(c.md4(password), c.upper(user) + domain)
  }

  function Temp(time: bytes, clientChallenge: bytes, targetInfo: bytes): bytes {
    [1, 1] + Zeros(6) + time + clientChallenge + Zeros(4) + targetInfo + Zeros(4)
  }

  /** Time, client challenge and target info stand where a server finds them. */
  lemma TempLayout(time: bytes, clientChallenge: bytes, targetInfo: bytes)
    requires |time| == 8 && |clientChallenge| == 8
    ensures var t := Temp(time, clientChallenge, targetInfo);
            && |t| == 32 + |targetInfo| && t[..8] == [1, 1, 0, 0, 0, 0, 0, 0]
            && t[8..16] == time && t[16..24] == clientChallenge && t[28..28 + |targetInfo|] == targetInfo
            && (forall k :: 24 <= k < 28 || 28 + |targetInfo| <= k < |t| ==> t[k] == 0)
  {
  }

  function NtProof(c: Primitives, ntowf: bytes, serverChallenge: bytes, temp: bytes): bytes {
    c.hmac(ntowf, serverChallenge + temp)
  }

  function LmResponse(c: Primitives, ntowf: bytes, serverChallenge: bytes, clientChallenge: bytes): bytes {
    c.hmac(ntowf, serverChallenge + clientChallenge) + clientChallenge
  }

  function SessionBaseKey(c: Primitives, ntowf: bytes, proof: bytes): bytes {
    c.hmac(ntowf, proof)
  }

  /** RC4 under the key exchange key, from the start of its keystream; also the inverse. */
  function EncryptedSessionKey(c: Primitives, key: bytes, exported: bytes): (r: bytes)
    ensures |r| == |exported|
  {
    Rc4At(c, key, 0, exported)
  }

  // ----- Errors -----

  /** A payload that lies outside its message names where it would have ended. */
  lemma PayloadOutside(f: Field, msg: bytes)
    ensures f.offset as int + f.len as int > |msg|
            ==> Slice(f, msg) == Err(Short(f.offset as int + f.len as int, |msg|))
  {
  }

  /** Messages cut off before their type, with another signature, of another type, or cut off before their fixed end. */
  lemma MessageErrs(msg: bytes, kind: u32)
    ensures |msg| < 12 ==> CheckSignature(msg, kind) == Err(Short(12, |msg|))
    ensures |msg| >= 12 && msg[..8] != [0x4E, 0x54, 0x4C, 0x4D, 0x53, 0x53, 0x50, 0] ==>
              CheckSignature(msg, kind) == Err(Protocol(BadNtlmSignature))
    ensures |msg| >= 12 && msg[..8] == [0x4E, 0x54, 0x4C, 0x4D, 0x53, 0x53, 0x50, 0] && U32LeAt(msg, 8) != kind ==>
              CheckSignature(msg, kind) == Err(Protocol(UnexpectedNtlmType))
    ensures CheckSignature(msg, 2).Ok? && 24 <= |msg| < 40 ==> DecodedChallenge(msg) == Err(Short(16, |msg| - 24))
    ensures CheckSignature(msg, 3).Ok? && 64 <= |msg| < 88 ==> DecodedAuthenticate(msg) == Err(Short(24, |msg| - 64))
  {
    hide U32LeAt;
    assert SIGNATURE == [0x4E, 0x54, 0x4C, 0x4D, 0x53, 0x53, 0x50, 0];
  }
}
