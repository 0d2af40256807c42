/** Fast-path output PDUs: section 2.2.9.1.2 of [MS-RDPBCGR]. */
module FastPath {
  import opened Prelude

  const UPDATETYPE_BITMAP: byte := 0x1
  const UPDATETYPE_PTR_NULL: byte := 0x5
  const UPDATETYPE_PTR_POSITION: byte := 0x8
  const UPDATETYPE_COLOR: byte := 0x9
  const UPDATETYPE_POINTER: byte := 0xB

  const FRAGMENT_SINGLE: byte := 0
  const FRAGMENT_LAST: byte := 1
  const FRAGMENT_FIRST: byte := 2
  const FRAGMENT_NEXT: byte := 3

  datatype FastPathUpdate = FastPathUpdate(code: byte, fragmentation: byte, data: bytes)

  /** Value and size of a length field: one byte, or two big-endian bytes when the top bit is set. */
  function FpLength(buf: bytes): Result<(nat, nat)> {
    if buf == [] then Err(Short(1, 0))
    else if buf[0] < 0x80 then Ok((buf[0], 1))
    else if |buf| < 2 then Err(Short(2, |buf|))
    else Ok(((buf[0] - 0x80) * 0x100 + buf[1] as int, 2))
  }

  /** The updates of a PDU body, after those already in `updates`. */
  function ParseUpdates(body: bytes, updates: seq<FastPathUpdate>): Result<seq<FastPathUpdate>>
    decreases |body|
  {
    if body == [] then Ok(updates)
    else
      var header := body[0];
      var compressed := header / 0x80 == 1;
      var rest := body[1..];
      if compressed && rest == [] then Err(Short(1, 0))
      else
        var rest := if compressed then rest[1..] else rest;
        if |rest| < 2 then Err(Short(2, |rest|))
        else
          var size := U16LeAt(rest, 0);
          var rest := rest[2..];
          if |rest| < size then Err(Short(size, |rest|))
          else ParseUpdates(rest[size..], updates + [FastPathUpdate(header % 0x10, header / 0x10 % 4, rest[..size])])
  }

  /** The declared length counts the header; a declared length below it means the whole buffer. */
  function ParsedPdu(pdu: bytes): Result<seq<FastPathUpdate>> {
    if pdu == [] then Err(Short(1, 0))
    else if pdu[0] % 4 != 0 then Err(Protocol(NotFastPath))
    else if pdu[0] >= 0x40 then Err(Protocol(UnexpectedSecurityFlags))
    else
      var (total, used) :- FpLength(pdu[1..]);
      var buf := pdu[1 + used..];
      var bodyLen := if total >= 1 + used then total - (1 + used) else |buf|;
      if |buf| < bodyLen then Err(Short(bodyLen, |buf|))
      else ParseUpdates(buf[..bodyLen], [])
  }

  method ReadFpLength(buf: bytes) returns (rest: bytes, r: Result<nat>)
    ensures match FpLength(buf)
            case Ok((len, used)) => r == Ok(len) && used <= |buf| && rest == buf[used..]
            case Err(e) => r == Err(e)
  {
    if buf == [] {
      return buf, Err(Short(1, 0));
    }
    var b0 := buf[0];
    if b0 < 0x80 {
      return buf[1..], Ok(b0);
    }
    if |buf| < 2 {
      return buf, Err(Short(2, |buf|));
    }
    var len := (b0 - 0x80) * 0x100 + buf[1] as int;
    return buf[2..], Ok(len);
  }

  method ParseOutputPdu(pdu: bytes) returns (r: Result<seq<FastPathUpdate>>)
    ensures r == ParsedPdu(pdu)
  {
    if pdu == [] {
      return Err(Short(1, 0));
    }
    var header := pdu[0];
    if header % 4 != 0 {
      return Err(Protocol(NotFastPath));
    }
    if header >= 0x40 {
      return Err(Protocol(UnexpectedSecurityFlags));
    }
    var buf, total := ReadFpLength(pdu[1..]);
    if total.Err? {
      return Err(total.error);
    }
    var consumed := |pdu| - |buf|;
    var bodyLen := if total.value >= consumed then total.value - consumed else |buf|;
    if |buf| < bodyLen {
      return Err(Short(bodyLen, |buf|));
    }
    var updates := ParseBody(buf[..bodyLen]);
    r := updates;
  }

  method ParseBody(all: bytes) returns (r: Result<seq<FastPathUpdate>>)
    ensures r == ParseUpdates(all, [])
  {
    var body := all;
    var updates := [];
    while body != []
      invariant ParseUpdates(all, []) == ParseUpdates(body, updates)
      decreases |body|
    {
      var header := body[0];
      body := body[1..];
      if header / 0x80 == 1 {
        if body == [] {
          return Err(Short(1, 0));
        }
        body := body[1..];
      }
      if |body| < 2 {
        return Err(Short(2, |body|));
      }
      var size := U16LeAt(body, 0);
      body := body[2..];
      if |body| < size {
        return Err(Short(size, |body|));
      }
      updates := updates + [FastPathUpdate(header % 0x10, header / 0x10 % 4, body[..size])];
      body := body[size..];
    }
    r := Ok(updates);
  }

  // ----- Printing -----

  /** An update on the wire: its compression bits, and the flags byte that goes with the upper one. */
  datatype Wire = Wire(update: FastPathUpdate, compression: byte, flags: byte)

  ghost predicate Sendable(w: Wire) {
    w.update.code < 0x10 && w.update.fragmentation < 4 && w.compression < 4 && |w.update.data| < 0x1_0000
  }

  function UpdateHeader(w: Wire): byte
    requires Sendable(w)
  {
    w.update.code + 0x10 * w.update.fragmentation + 0x40 * w.compression
  }

  function PrintUpdate(w: Wire): bytes
    requires Sendable(w)
  {
    [UpdateHeader(w)] + (if w.compression >= 2 then [w.flags] else []) + U16Le(|w.update.data|) + w.update.data
  }

  ghost predicate AllSendable(ws: seq<Wire>) {
    forall k :: 0 <= k < |ws| ==> Sendable(ws[k])
  }

  function PrintBody(ws: seq<Wire>): bytes
    requires AllSendable(ws)
  {
    if ws == [] then [] else PrintUpdate(ws[0]) + PrintBody(ws[1..])
  }

  function UpdatesOf(ws: seq<Wire>): (r: seq<FastPathUpdate>)
    ensures |r| == |ws|
  {
    seq(|ws|, k requires 0 <= k < |ws| => ws[k].update)
  }

  /** A PDU is short form when its total length fits seven bits; the long form always may be used below 2^15. */
  function PduLength(total: nat, long: bool): bytes
    requires if long then total < 0x8000 else total < 0x80
  {
    if long then [0x80 + total / 0x100, total % 0x100] else [total]
  }

  function TotalLength(ws: seq<Wire>, long: bool): nat
    requires AllSendable(ws)
  {
    (if long then 3 else 2) + |PrintBody(ws)|
  }

  ghost predicate PduFits(header: byte, ws: seq<Wire>, long: bool) {
    && header % 4 == 0 && header < 0x40 && AllSendable(ws)
    && (if long then TotalLength(ws, long) < 0x8000 else TotalLength(ws, long) < 0x80)
  }

  function PrintPdu(header: byte, ws: seq<Wire>, long: bool): bytes
    requires PduFits(header, ws, long)
  {
    [header] + PduLength(TotalLength(ws, long), long) + PrintBody(ws)
  }

  lemma HeaderBits(w: Wire)
    requires Sendable(w)
    ensures var header := UpdateHeader(w);
            header % 0x10 == w.update.code && header / 0x10 % 4 == w.update.fragmentation
            && (header / 0x80 == 1 <==> w.compression >= 2)
  {
  }

  lemma UpdateReadsBack(w: Wire, rest: bytes, before: seq<FastPathUpdate>)
    requires Sendable(w)
    ensures ParseUpdates(PrintUpdate(w) + rest, before) == ParseUpdates(rest, before + [w.update])
  {
    hide U16Le, U16LeAt, UpdateHeader;
    HeaderBits(w);
    var body := PrintUpdate(w) + rest;
    SizedData(w.update.data, rest);
    var after := U16Le(|w.update.data|) + w.update.data + rest;
    if w.compression >= 2 {
      assert body[1..] == [w.flags] + after && body[1..][1..] == after;
    } else {
      assert body[1..] == after;
    }
    assert w.update == FastPathUpdate(w.update.code, w.update.fragmentation, w.update.data);
  }

  lemma SizedData(data: bytes, rest: bytes)
    requires |data| < 0x1_0000
    ensures var after := U16Le(|data|) + data + rest;
            && |after| >= 2 && U16LeAt(after, 0) == |data|
            && after[2..] == data + rest && after[2..][..|data|] == data && after[2..][|data|..] == rest
  {
    hide U16Le, U16LeAt;
    U16LeIn(U16Le(|data|) + data + rest, 0, |data|);
  }

  lemma {:induction false} BodyReadsBack(ws: seq<Wire>, before: seq<FastPathUpdate>)
    requires AllSendable(ws)
    ensures ParseUpdates(PrintBody(ws), before) == Ok(before + UpdatesOf(ws))
    decreases |ws|
  {
    hide PrintUpdate, Sendable;
    if ws == [] {
      assert before + UpdatesOf(ws) == before;
    } else {
      UpdateReadsBack(ws[0], PrintBody(ws[1..]), before);
      BodyReadsBack(ws[1..], before + [ws[0].update]);
      assert before + UpdatesOf(ws) == before + [ws[0].update] + UpdatesOf(ws[1..]);
    }
  }

  /** Under both length forms, a PDU reads back to its updates, whatever follows it. */
  lemma PduReadsBack(header: byte, ws: seq<Wire>, long: bool, rest: bytes)
    requires PduFits(header, ws, long)
    ensures ParsedPdu(PrintPdu(header, ws, long) + rest) == Ok(UpdatesOf(ws))
  {
    hide ParseUpdates, PrintBody;
    var pdu := PrintPdu(header, ws, long) + rest;
    var used := if long then 2 else 1;
    assert pdu[1..] == PduLength(TotalLength(ws, long), long) + (PrintBody(ws) + rest);
    assert pdu[1 + used..] == PrintBody(ws) + rest;
    assert pdu[1 + used..][..|PrintBody(ws)|] == PrintBody(ws);
    BodyReadsBack(ws, []);
    assert [] + UpdatesOf(ws) == UpdatesOf(ws);
  }

  /** A declared length that does not even cover the header stands for all bytes there are. */
  lemma ZeroLengthTakesAll(header: byte, ws: seq<Wire>, declared: nat, long: bool)
    requires header % 4 == 0 && header < 0x40 && AllSendable(ws) && declared < if long then 3 else 2
    ensures ParsedPdu([header] + (if long then [0x80, declared] else [declared]) + PrintBody(ws)) == Ok(UpdatesOf(ws))
  {
    hide ParseUpdates, PrintBody;
    var length: bytes := if long then [0x80, declared] else [declared];
    var pdu := [header] + length + PrintBody(ws);
    assert pdu[1..] == length + PrintBody(ws);
    assert pdu[1 + |length|..] == PrintBody(ws) && PrintBody(ws)[..|PrintBody(ws)|] == PrintBody(ws);
    BodyReadsBack(ws, []);
    assert [] + UpdatesOf(ws) == UpdatesOf(ws);
  }

  // ----- Errors -----

  /** Every error of a PDU header, by the bytes that cause it. */
  lemma BadPdus(pdu: bytes)
    ensures pdu == [] ==> ParsedPdu(pdu) == Err(Short(1, 0))
    ensures pdu != [] && pdu[0] % 4 != 0 ==> ParsedPdu(pdu) == Err(Protocol(NotFastPath))
    ensures pdu != [] && pdu[0] % 4 == 0 && pdu[0] >= 0x40 ==> ParsedPdu(pdu) == Err(Protocol(UnexpectedSecurityFlags))
    ensures |pdu| == 1 && pdu[0] % 4 == 0 && pdu[0] < 0x40 ==> ParsedPdu(pdu) == Err(Short(1, 0))
    ensures |pdu| == 2 && pdu[0] % 4 == 0 && pdu[0] < 0x40 && pdu[1] >= 0x80 ==> ParsedPdu(pdu) == Err(Short(2, 1))
  {
  }

  /** A printed PDU cut off behind its length is short by exactly what was cut off. */
  lemma CutPdu(header: byte, ws: seq<Wire>, long: bool, n: nat)
    requires PduFits(header, ws, long)
    requires (if long then 3 else 2) <= n < |PrintPdu(header, ws, long)|
    ensures var h := if long then 3 else 2;
            ParsedPdu(PrintPdu(header, ws, long)[..n]) == Err(Short(|PrintBody(ws)|, n - h))
  {
    hide ParseUpdates, PrintBody;
    var pdu := PrintPdu(header, ws, long);
    var total := TotalLength(ws, long);
    var len := PduLength(total, long);
    var h := 1 + |len|;
    assert pdu == [header] + len + PrintBody(ws);
    assert pdu[..n][1..] == len + PrintBody(ws)[..n - h];
    assert FpLength(pdu[..n][1..]) == Ok((total, |len|));
    assert |pdu[..n][h..]| == n - h;
  }

  /** An update cut off inside names what it misses: its flags, its size, or the rest of its data. */
  lemma CutUpdate(w: Wire, before: seq<FastPathUpdate>, n: nat)
    requires Sendable(w) && 0 < n < |PrintUpdate(w)|
    ensures var h := if w.compression >= 2 then 2 else 1;
            ParseUpdates(PrintUpdate(w)[..n], before)
            == if n < h then Err(Short(1, 0))
               else if n < h + 2 then Err(Short(2, n - h))
               else Err(Short(|w.update.data|, n - h - 2))
  {
    hide U16Le, U16LeAt, UpdateHeader;
    HeaderBits(w);
    var h := if w.compression >= 2 then 2 else 1;
    var body := PrintUpdate(w)[..n];
    if n >= h + 2 {
      SizedData(w.update.data, []);
      var sized := U16Le(|w.update.data|) + w.update.data + [];
      assert body[h..] == sized[..n - h];
      assert sized[..n - h][0..2] == U16Le(|w.update.data|);
      U16LeIn(body[h..], 0, |w.update.data|);
    }
    assert h == 2 && n >= 2 ==> body[1..][1..] == body[2..];
  }
}
