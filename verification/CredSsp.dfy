/** CredSSP structures: section 2.2.1 of [MS-CSSP]. */
module CredSsp {
  import opened Prelude
  import opened Crypto
  import opened Der

  const CLIENT_SERVER_MAGIC: bytes := Ascii("CredSSP Client-To-Server Binding Hash")
  const SERVER_CLIENT_MAGIC: bytes := Ascii("CredSSP Server-To-Client Binding Hash")

  function BindingHash(c: Primitives, magic: bytes, nonce: bytes, key: bytes): bytes {
    c.sha256(magic + [0] + nonce + key)
  }

  function ClientHash(c: Primitives, nonce: bytes, key: bytes): bytes {
    BindingHash(c, CLIENT_SERVER_MAGIC, nonce, key)
  }

  function ServerHash(c: Primitives, nonce: bytes, key: bytes): bytes {
    BindingHash(c, SERVER_CLIENT_MAGIC, nonce, key)
  }

  // ----- Credentials -----

  /** Domain, user and password, already in UTF-16LE. */
  datatype PasswordCreds = PasswordCreds(domain: bytes, username: bytes, password: bytes)

  function EncodedCreds(creds: PasswordCreds): bytes {
    Sequence(Context(0, OctetString(creds.domain)) + Context(1, OctetString(creds.username))
      + Context(2, OctetString(creds.password)))
  }

  function TsCredentials(creds: PasswordCreds): bytes {
    Sequence(Context(0, Integer(1)) + Context(1, OctetString(EncodedCreds(creds))))
  }

  // ----- TSRequest -----

  datatype TsRequest = TsRequest(
    version: u32, negoTokens: seq<bytes>, authInfo: Option<bytes>, pubKeyAuth: Option<bytes>,
    errorCode: Option<u32>, clientNonce: Option<bytes>)
  {
    /** The nonce is a 32-byte array in the source. */
    ghost predicate Valid() {
      clientNonce.Some? ==> |clientNonce.value| == 32
    }
  }

  const EmptyRequest := TsRequest(0, [], None, None, None, None)

  function NewRequest(version: u32): TsRequest {
    EmptyRequest.(version := version)
  }

  function TokenItem(token: bytes): bytes {
    Sequence(Context(0, OctetString(token)))
  }

  function TokenItems(tokens: seq<bytes>): bytes {
    if tokens == [] then [] else TokenItem(tokens[0]) + TokenItems(tokens[1..])
  }

  function VersionField(r: TsRequest): bytes {
    Context(0, Integer(r.version))
  }

  function TokensField(r: TsRequest): bytes {
    if r.negoTokens == [] then [] else Context(1, Sequence(TokenItems(r.negoTokens)))
  }

  function OctetsField(n: nat, v: Option<bytes>): bytes
    requires n < 0x60
  {
    if v.None? then [] else Context(n, OctetString(v.value))
  }

  function ErrorField(r: TsRequest): bytes {
    if r.errorCode.None? then [] else Context(4, Integer(r.errorCode.value))
  }

  function Body(r: TsRequest): bytes {
    VersionField(r) + TokensField(r) + OctetsField(2, r.authInfo) + OctetsField(3, r.pubKeyAuth)
    + ErrorField(r) + OctetsField(5, r.clientNonce)
  }

  function EncodedRequest(r: TsRequest): bytes {
    Sequence(Body(r))
  }

  method EncodeTokens(tokens: seq<bytes>) returns (items: bytes)
    ensures items == TokenItems(tokens)
  {
    hide TokenItem;
    items := [];
    for k := 0 to |tokens|
      invariant items + TokenItems(tokens[k..]) == TokenItems(tokens)
    {
      assert tokens[k..][1..] == tokens[k + 1..];
      items := items + TokenItem(tokens[k]);
    }
  }

  method Encode(r: TsRequest) returns (out: bytes)
    ensures out == EncodedRequest(r)
  {
    hide Tlv, IntegerOctets, TokenItems;
    var body := Context(0, Integer(r.version));
    if r.negoTokens != [] {
      var items := EncodeTokens(r.negoTokens);
      body := body + Context(1, Sequence(items));
    }
    assert body == VersionField(r) + TokensField(r);
    if r.authInfo.Some? {
      body := body + Context(2, OctetString(r.authInfo.value));
    }
    assert body == VersionField(r) + TokensField(r) + OctetsField(2, r.authInfo);
    if r.pubKeyAuth.Some? {
      body := body + Context(3, OctetString(r.pubKeyAuth.value));
    }
    ghost var half := VersionField(r) + TokensField(r) + OctetsField(2, r.authInfo) + OctetsField(3, r.pubKeyAuth);
    assert body == half;
    if r.errorCode.Some? {
      body := body + Context(4, Integer(r.errorCode.value));
    }
    assert body == half + ErrorField(r);
    if r.clientNonce.Some? {
      body := body + Context(5, OctetString(r.clientNonce.value));
    }
    assert body == half + ErrorField(r) + OctetsField(5, r.clientNonce);
    out := Sequence(body);
  }

  /** The tokens of a SEQUENCE OF SEQUENCE { [0] OCTET STRING }, after those already read. */
  function Tokens(list: bytes, tokens: seq<bytes>): Result<seq<bytes>>
    decreases |list|
  {
    if list == [] then Ok(tokens)
    else
      var item :- Expected(list, TAG_SEQUENCE);
      var tok :- Expected(item, ContextTag(0));
      var octets :- Expected(tok, TAG_OCTET_STRING);
      NextTlvShrinks(list);
      Tokens(NextTlv(list).value.rest, tokens + [octets])
  }

  lemma NextTlvShrinks(buf: bytes)
    ensures NextTlv(buf).Ok? ==> |NextTlv(buf).value.rest| < |buf|
  {
    hide DecodedLen;
    if |buf| >= 2 {
      DecodedLenFits(buf[1..]);
    }
  }

  /** What one field does to the request read so far; unknown tags and nonces of the wrong length are ignored. */
  function WithField(req: TsRequest, tag: byte, value: bytes): Result<TsRequest> {
    if tag == ContextTag(0) then
      var v :- IntegerAt(value);
      Ok(req.(version := v % TWO_32))
    else if tag == ContextTag(1) then
      var list :- Expected(value, TAG_SEQUENCE);
      var tokens :- Tokens(list, req.negoTokens);
      Ok(req.(negoTokens := tokens))
    else if tag == ContextTag(2) then
      var v :- Expected(value, TAG_OCTET_STRING);
      Ok(req.(authInfo := Some(v)))
    else if tag == ContextTag(3) then
      var v :- Expected(value, TAG_OCTET_STRING);
      Ok(req.(pubKeyAuth := Some(v)))
    else if tag == ContextTag(4) then
      var v :- IntegerAt(value);
      Ok(req.(errorCode := Some(v % TWO_32)))
    else if tag == ContextTag(5) then
      var v :- Expected(value, TAG_OCTET_STRING);
      Ok(if |v| == 32 then req.(clientNonce := Some(v)) else req)
    else Ok(req)
  }

  function Fields(buf: bytes, req: TsRequest): Result<TsRequest>
    decreases |buf|
  {
    if buf == [] then Ok(req)
    else
      var item :- NextTlv(buf);
      var next :- WithField(req, item.tag, item.value);
      NextTlvShrinks(buf);
      Fields(item.rest, next)
  }

  function DecodedRequest(buf: bytes): Result<TsRequest> {
    var inner :- Expected(buf, TAG_SEQUENCE);
    Fields(inner, EmptyRequest)
  }

  method DecodeTokens(list: bytes, before: seq<bytes>) returns (r: Result<seq<bytes>>)
    ensures r == Tokens(list, before)
  {
    hide Expected, NextTlv;
    var tokens := before;
    var lr := new Reader(list);
    while lr.buf != []
      invariant Tokens(list, before) == Tokens(lr.buf, tokens)
      decreases |lr.buf|
    {
      var item := lr.Expect(TAG_SEQUENCE);
      if item.Err? { return Err(item.error); }
      var ir := new Reader(item.value);
      var tok := ir.Expect(ContextTag(0));
      if tok.Err? { return Err(tok.error); }
      var tr := new Reader(tok.value);
      var octets := tr.Expect(TAG_OCTET_STRING);
      if octets.Err? { return Err(octets.error); }
      tokens := tokens + [octets.value];
    }
    r := Ok(tokens);
  }

  method DecodeField(req: TsRequest, tag: byte, value: bytes) returns (r: Result<TsRequest>)
    ensures r == WithField(req, tag, value)
  {
    hide Expected, NextTlv, Tokens, IntegerAt;
    var vr := new Reader(value);
    if tag == ContextTag(0) {
      var v := vr.ReadInteger();
      if v.Err? { return Err(v.error); }
      r := Ok(req.(version := v.value % TWO_32));
    } else if tag == ContextTag(1) {
      var list := vr.Expect(TAG_SEQUENCE);
      if list.Err? { return Err(list.error); }
      var tokens := DecodeTokens(list.value, req.negoTokens);
      if tokens.Err? { return Err(tokens.error); }
      r := Ok(req.(negoTokens := tokens.value));
    } else if tag == ContextTag(2) {
      var v := vr.Expect(TAG_OCTET_STRING);
      if v.Err? { return Err(v.error); }
      r := Ok(req.(authInfo := Some(v.value)));
    } else if tag == ContextTag(3) {
      var v := vr.Expect(TAG_OCTET_STRING);
      if v.Err? { return Err(v.error); }
      r := Ok(req.(pubKeyAuth := Some(v.value)));
    } else if tag == ContextTag(4) {
      var v := vr.ReadInteger();
      if v.Err? { return Err(v.error); }
      r := Ok(req.(errorCode := Some(v.value % TWO_32)));
    } else if tag == ContextTag(5) {
      var v := vr.Expect(TAG_OCTET_STRING);
      if v.Err? { return Err(v.error); }
      r := Ok(if |v.value| == 32 then req.(clientNonce := Some(v.value)) else req);
    } else {
      r := Ok(req);
    }
  }

  method Decode(buf: bytes) returns (r: Result<TsRequest>)
    ensures r == DecodedRequest(buf)
  {
    hide Expected, NextTlv, WithField;
    var top := new Reader(buf);
    var inner := top.Expect(TAG_SEQUENCE);
    if inner.Err? { return Err(inner.error); }
    var fields := new Reader(inner.value);
    var req := EmptyRequest;
    while fields.buf != []
      invariant DecodedRequest(buf) == Fields(fields.buf, req)
      decreases |fields.buf|
    {
      var item := fields.ReadTlv();
      if item.Err? { return Err(item.error); }
      var next := DecodeField(req, item.value.0, item.value.1);
      if next.Err? { return Err(next.error); }
      req := next.value;
    }
    r := Ok(req);
  }

  // ----- Errors only -----

  lemma ElementErrs(buf: bytes, tag: byte)
    ensures NextTlv(buf) != Err(Panic) && Expected(buf, tag) != Err(Panic) && IntegerAt(buf) != Err(Panic)
  {
    hide BeValue, Register;
  }

  lemma {:induction false} TokensErr(list: bytes, tokens: seq<bytes>)
    ensures Tokens(list, tokens) != Err(Panic)
    decreases |list|
  {
    hide Expected, NextTlv;
    if list != [] {
      ElementErrs(list, TAG_SEQUENCE);
      if Expected(list, TAG_SEQUENCE).Ok? {
        var item := Expected(list, TAG_SEQUENCE).value;
        ElementErrs(item, ContextTag(0));
        if Expected(item, ContextTag(0)).Ok? {
          var tok := Expected(item, ContextTag(0)).value;
          ElementErrs(tok, TAG_OCTET_STRING);
          NextTlvShrinks(list);
          if Expected(tok, TAG_OCTET_STRING).Ok? {
            ExpectedIsNext(list, TAG_SEQUENCE);
            TokensErr(NextTlv(list).value.rest, tokens + [Expected(tok, TAG_OCTET_STRING).value]);
          }
        }
      }
    }
  }

  lemma ExpectedIsNext(buf: bytes, tag: byte)
    ensures Expected(buf, tag).Ok? ==> NextTlv(buf).Ok?
  {
    hide NextTlv;
  }

  lemma FieldErrs(req: TsRequest, tag: byte, value: bytes)
    ensures WithField(req, tag, value) != Err(Panic)
  {
    hide Expected, IntegerAt, Tokens;
    ElementErrs(value, TAG_SEQUENCE);
    ElementErrs(value, TAG_OCTET_STRING);
    if Expected(value, TAG_SEQUENCE).Ok? {
      TokensErr(Expected(value, TAG_SEQUENCE).value, req.negoTokens);
    }
  }

  lemma {:induction false} FieldsErr(buf: bytes, req: TsRequest)
    ensures Fields(buf, req) != Err(Panic)
    decreases |buf|
  {
    hide NextTlv, WithField;
    if buf != [] {
      ElementErrs(buf, 0);
      if NextTlv(buf).Ok? {
        var item := NextTlv(buf).value;
        FieldErrs(req, item.tag, item.value);
        NextTlvShrinks(buf);
        if WithField(req, item.tag, item.value).Ok? {
          FieldsErr(item.rest, WithField(req, item.tag, item.value).value);
        }
      }
    }
  }

  /** Decoding a TSRequest never stops: every malformed message is an error. */
  lemma RequestErrs(buf: bytes)
    ensures DecodedRequest(buf) != Err(Panic)
  {
    hide Expected, Fields;
    ElementErrs(buf, TAG_SEQUENCE);
    if Expected(buf, TAG_SEQUENCE).Ok? {
      FieldsErr(Expected(buf, TAG_SEQUENCE).value, EmptyRequest);
    }
  }

  /** Fields of other tags, and nonces that are not 32 bytes long, are passed over. */
  lemma FieldsPassedOver(req: TsRequest, tag: byte, nonce: bytes)
    requires |nonce| < TWO_32
    ensures !(0xA0 <= tag <= 0xA5) ==> forall value :: WithField(req, tag, value) == Ok(req)
    ensures |nonce| != 32 ==> WithField(req, 0xA5, Tlv(0x04, nonce)) == Ok(req)
  {
    hide Expected, IntegerAt, Tokens, Tlv;
    ExpectedReadsBack(TAG_OCTET_STRING, nonce);
  }

  /** Of two fields of one kind the later counts; tokens add up. */
  lemma LaterFieldCounts(req: TsRequest, first: TsRequest, tag: byte, value: bytes, other: bytes)
    requires 0xA0 <= tag <= 0xA5 && tag != 0xA1 && WithField(req, tag, other) == Ok(first)
    requires tag == 0xA5 ==>
               WithField(EmptyRequest, tag, value).Ok? && WithField(EmptyRequest, tag, value).value.clientNonce.Some?
    ensures WithField(first, tag, value) == WithField(req, tag, value)
  {
    hide Expected, IntegerAt, Tokens;
  }

  // ----- Round trip -----

  lemma OneField(n: nat, content: bytes, rest: bytes, req: TsRequest, next: TsRequest)
    requires n < 0x60 && |content| < TWO_32 && WithField(req, ContextTag(n), content) == Ok(next)
    ensures Fields(Context(n, content) + rest, req) == Fields(rest, next)
  {
    hide WithField, NextTlv;
    TlvReadsBack(ContextTag(n), content, rest);
  }

  lemma OctetsFieldReads(n: nat, v: Option<bytes>, rest: bytes, req: TsRequest, next: TsRequest)
    requires n == 2 || n == 3 || n == 5
    requires |OctetsField(n, v)| < TWO_32
    requires v.None? ==> next == req
    requires v.Some? ==>
               && (n == 2 ==> next == req.(authInfo := v))
               && (n == 3 ==> next == req.(pubKeyAuth := v))
               && (n == 5 ==> |v.value| == 32 && next == req.(clientNonce := v))
    ensures Fields(OctetsField(n, v) + rest, req) == Fields(rest, next)
  {
    hide Fields, Expected, EncodedLen;
    if v.None? {
      assert OctetsField(n, v) + rest == rest;
    } else {
      ExpectedReadsBack(TAG_OCTET_STRING, v.value);
      OneField(n, OctetString(v.value), rest, req, next);
    }
  }

  lemma VersionReads(r: TsRequest, rest: bytes, req: TsRequest)
    ensures Fields(VersionField(r) + rest, req) == Fields(rest, req.(version := r.version))
  {
    hide Fields, IntegerAt, Integer;
    IntegerReadsBack(r.version);
    IntegerIsShort(r.version);
    OneField(0, Integer(r.version), rest, req, req.(version := r.version));
  }

  lemma ErrorReads(r: TsRequest, rest: bytes, req: TsRequest)
    requires req.errorCode.None?
    ensures Fields(ErrorField(r) + rest, req) == Fields(rest, req.(errorCode := r.errorCode))
  {
    hide Fields, IntegerAt, Integer;
    if r.errorCode.None? {
      assert ErrorField(r) + rest == rest;
    } else {
      IntegerReadsBack(r.errorCode.value);
      IntegerIsShort(r.errorCode.value);
      OneField(4, Integer(r.errorCode.value), rest, req, req.(errorCode := r.errorCode));
    }
  }

  lemma IntegerIsShort(v: u32)
    ensures |Integer(v)| < TWO_32
  {
    BigEndianSize(v);
  }

  lemma {:induction false} TokensRead(tokens: seq<bytes>, before: seq<bytes>)
    requires |TokenItems(tokens)| < TWO_32
    ensures Tokens(TokenItems(tokens), before) == Ok(before + tokens)
    decreases |tokens|
  {
    hide Expected, NextTlv, Tlv, EncodedLen;
    if tokens == [] {
      assert before + tokens == before;
    } else {
      var token, rest := tokens[0], TokenItems(tokens[1..]);
      var tok := OctetString(token);
      var inner := Context(0, tok);
      TlvLonger(TAG_OCTET_STRING, token);
      TlvLonger(ContextTag(0), tok);
      TlvLonger(TAG_SEQUENCE, inner);
      ExpectedReadsBack(TAG_OCTET_STRING, token);
      ExpectedReadsBack(ContextTag(0), tok);
      ExpectedPrefix(TAG_SEQUENCE, inner, rest);
      TokensRead(tokens[1..], before + [token]);
      assert before + tokens == before + [token] + tokens[1..];
      assert TokenItem(token) != [] by {
        TlvLonger(TAG_SEQUENCE, inner);
      }
    }
  }

  lemma TlvLonger(tag: byte, value: bytes)
    ensures |Tlv(tag, value)| >= |value| + 2
  {
  }

  lemma ExpectedPrefix(tag: byte, value: bytes, rest: bytes)
    requires |value| < TWO_32
    ensures Expected(Tlv(tag, value) + rest, tag) == Ok(value)
    ensures NextTlv(Tlv(tag, value) + rest).Ok? && NextTlv(Tlv(tag, value) + rest).value.rest == rest
  {
    hide NextTlv;
    TlvReadsBack(tag, value, rest);
  }

  lemma TokensFieldReads(r: TsRequest, rest: bytes, req: TsRequest)
    requires req.negoTokens == [] && |TokensField(r)| < TWO_32
    ensures Fields(TokensField(r) + rest, req) == Fields(rest, req.(negoTokens := r.negoTokens))
  {
    hide Fields, Tokens, Expected, Tlv, TokenItems;
    if r.negoTokens == [] {
      assert TokensField(r) + rest == rest;
    } else {
      var items := TokenItems(r.negoTokens);
      TlvLonger(TAG_SEQUENCE, items);
      TlvLonger(ContextTag(1), Sequence(items));
      ExpectedReadsBack(TAG_SEQUENCE, items);
      TokensRead(r.negoTokens, []);
      assert [] + r.negoTokens == r.negoTokens;
      OneField(1, Sequence(items), rest, req, req.(negoTokens := r.negoTokens));
    }
  }

  /** Reading the printed body restores every field. */
  lemma BodyReadsBack(r: TsRequest)
    requires r.Valid() && |Body(r)| < TWO_32
    ensures Fields(Body(r), EmptyRequest) == Ok(r)
  {
    hide Fields, VersionField, TokensField, OctetsField, ErrorField;
    var v, t, a, p, e, n := VersionField(r), TokensField(r), OctetsField(2, r.authInfo), OctetsField(3, r.pubKeyAuth),
                            ErrorField(r), OctetsField(5, r.clientNonce);
    var r0 := EmptyRequest.(version := r.version);
    var r1 := r0.(negoTokens := r.negoTokens);
    var r2 := r1.(authInfo := r.authInfo);
    var r3 := r2.(pubKeyAuth := r.pubKeyAuth);
    var r4 := r3.(errorCode := r.errorCode);
    assert Body(r) == v + (t + (a + (p + (e + (n + [])))));
    VersionReads(r, t + (a + (p + (e + (n + [])))), EmptyRequest);
    TokensFieldReads(r, a + (p + (e + (n + []))), r0);
    OctetsFieldReads(2, r.authInfo, p + (e + (n + [])), r1, r2);
    OctetsFieldReads(3, r.pubKeyAuth, e + (n + []), r2, r3);
    ErrorReads(r, n + [], r3);
    OctetsFieldReads(5, r.clientNonce, [], r4, r);
    NoFields(r);
  }

  lemma NoFields(req: TsRequest)
    ensures Fields([], req) == Ok(req)
  {
  }

  /**
   Decoding inverts encoding, with any bytes after the message, exactly when the body is shorter than
   2^32 bytes; a longer one is refused for its length.
   */
  lemma RequestRoundTrip(r: TsRequest, rest: bytes)
    requires r.Valid() && |Body(r)| < TWO_64
    ensures DecodedRequest(EncodedRequest(r) + rest)
            == if |Body(r)| < TWO_32 then Ok(r) else Err(Protocol(BadDerLength))
  {
    hide Fields, Body, NextTlv;
    TlvReadsBack(TAG_SEQUENCE, Body(r), rest);
    if |Body(r)| < TWO_32 {
      BodyReadsBack(r);
    }
  }

  // ----- Credentials read back -----

  /** The three strings of a TSCredentials, as a server reads them. */
  function ReadCreds(buf: bytes): Result<PasswordCreds> {
    var outer :- Expected(buf, TAG_SEQUENCE);
    var kind :- NextTlv(outer);
    var wrapped :- Expected(kind.rest, ContextTag(1));
    var inner :- Expected(wrapped, TAG_OCTET_STRING);
    var strings :- Expected(inner, TAG_SEQUENCE);
    var domain :- NextTlv(strings);
    var user :- NextTlv(domain.rest);
    var password :- NextTlv(user.rest);
    var d :- Expected(domain.value, TAG_OCTET_STRING);
    var u :- Expected(user.value, TAG_OCTET_STRING);
    var p :- Expected(password.value, TAG_OCTET_STRING);
    Ok(PasswordCreds(d, u, p))
  }

  lemma CredsReadBack(creds: PasswordCreds)
    requires |TsCredentials(creds)| < TWO_32
    ensures ReadCreds(TsCredentials(creds)) == Ok(creds)
  {
    hide Expected, NextTlv, Tlv, IntegerOctets;
    var d, u, p := OctetString(creds.domain), OctetString(creds.username), OctetString(creds.password);
    var cd, cu, cp := Context(0, d), Context(1, u), Context(2, p);
    var strings := cd + cu + cp;
    var inner := EncodedCreds(creds);
    var wrapped := OctetString(inner);
    var kind, creds1 := Context(0, Integer(1)), Context(1, wrapped);
    TlvLonger(TAG_OCTET_STRING, creds.domain);
    TlvLonger(TAG_OCTET_STRING, creds.username);
    TlvLonger(TAG_OCTET_STRING, creds.password);
    TlvLonger(ContextTag(0), d);
    TlvLonger(ContextTag(1), u);
    TlvLonger(ContextTag(2), p);
    TlvLonger(TAG_SEQUENCE, strings);
    TlvLonger(TAG_OCTET_STRING, inner);
    TlvLonger(ContextTag(1), wrapped);
    TlvLonger(ContextTag(0), Integer(1));
    TlvLonger(TAG_SEQUENCE, kind + creds1);
    ExpectedReadsBack(TAG_SEQUENCE, kind + creds1);
    TlvReadsBack(ContextTag(0), Integer(1), creds1);
    ExpectedReadsBack(ContextTag(1), wrapped);
    ExpectedReadsBack(TAG_OCTET_STRING, inner);
    ExpectedReadsBack(TAG_SEQUENCE, strings);
    assert strings == cd + (cu + cp);
    TlvReadsBack(ContextTag(0), d, cu + cp);
    TlvReadsBack(ContextTag(1), u, cp);
    assert cp == cp + [];
    TlvReadsBack(ContextTag(2), p, []);
    ExpectedReadsBack(TAG_OCTET_STRING, creds.domain);
    ExpectedReadsBack(TAG_OCTET_STRING, creds.username);
    ExpectedReadsBack(TAG_OCTET_STRING, creds.password);
  }
}
