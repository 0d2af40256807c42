/** Frames of the server's byte stream: slow-path TPKT packets and fast-path PDUs, told apart by their first byte. */
module Demux {
  import opened Prelude
  import Der
  import FastPath
  import Tpkt
  import X224

  /** Slow path: the MCS PDU. Fast path: the whole PDU with its header. */
  datatype Frame = SlowPath(pdu: bytes) | FastPath(pdu: bytes)

  /** What a read returns, and the bytes of the stream it leaves. */
  datatype Read<T> = Read(result: Result<T>, rest: bytes)

  /** `read_exact`: all `n` bytes, or an I/O error at the end of the stream. */
  function Exact(s: bytes, n: nat): Read<bytes> {
    if n <= |s| then Read(Ok(s[..n]), s[n..]) else Read(Err(Io), [])
  }

  function SlowFrame(s: bytes): Read<Frame> {
    var head := Exact(s, 3);
    if head.result.Err? then Read(Err(head.result.error), head.rest)
    else
      var total := U16BeAt(head.result.value, 1);
      var body := Exact(head.rest, Max(0, total - 4));
      if body.result.Err? then Read(Err(body.result.error), body.rest)
      else
        match X224.Unwrapped(body.result.value)
        case Ok(pdu) => Read(Ok(SlowPath(pdu)), body.rest)
        case Err(e) => Read(Err(e), body.rest)
  }

  function FastFrame(first: byte, s: bytes): Read<Frame> {
    match FastPath.FpLength(s)
    case Err(_) => Read(Err(Io), [])
    case Ok((total, used)) =>
      var body := Exact(s[used..], Max(0, total - (1 + used)));
      if body.result.Err? then Read(Err(body.result.error), body.rest)
      else Read(Ok(FastPath([first] + s[..used] + body.result.value)), body.rest)
  }

  function NextFrame(s: bytes): Read<Frame> {
    if s == [] then Read(Err(Io), [])
    else if s[0] == Tpkt.TPKT_VERSION then SlowFrame(s[1..])
    else FastFrame(s[0], s[1..])
  }

  /** One TPKT packet's payload. */
  function NextTpkt(s: bytes): Read<bytes> {
    var head := Exact(s, Tpkt.TPKT_HEADER);
    if head.result.Err? then Read(Err(head.result.error), head.rest)
    else
      match Tpkt.TotalLength(head.result.value)
      case Err(e) => Read(Err(e), head.rest)
      case Ok(total) =>
        var body := Exact(head.rest, total - Tpkt.TPKT_HEADER);
        if body.result.Err? then Read(Err(body.result.error), body.rest)
        else Read(Tpkt.Decoded(head.result.value + body.result.value), body.rest)
  }

  /** `recv`: one TPKT packet, X.224 header stripped. */
  function Received(s: bytes): Read<bytes> {
    var packet := NextTpkt(s);
    match packet.result
    case Err(e) => Read(Err(e), packet.rest)
    case Ok(payload) => Read(X224.Unwrapped(payload), packet.rest)
  }

  /** One DER element: tag, definite length of any number of octets, content; the length register keeps 64 bits. */
  function NextDer(s: bytes): Read<bytes> {
    var head := Exact(s, 2);
    if head.result.Err? then Read(Err(head.result.error), head.rest)
    else
      var first := head.result.value[1];
      var octets := Exact(head.rest, if first < 0x80 then 0 else first - 0x80);
      if octets.result.Err? then Read(Err(octets.result.error), octets.rest)
      else
        var len := if first < 0x80 then first as int else Der.BeValue(octets.result.value) % Der.TWO_64;
        var content := Exact(octets.rest, len);
        if content.result.Err? then Read(Err(content.result.error), content.rest)
        else Read(Ok(head.result.value + octets.result.value + content.result.value), content.rest)
  }

  // ----- The stream object -----

  class Stream {
    var remaining: bytes

    constructor (all: bytes)
      ensures remaining == all
    {
      remaining := all;
    }

    method ReadExact(n: nat) returns (r: Result<bytes>)
      modifies this
      ensures Read(r, remaining) == Exact(old(remaining), n)
    {
      if n <= |remaining| {
        r := Ok(remaining[..n]);
        remaining := remaining[n..];
      } else {
        r := Err(Io);
        remaining := [];
      }
    }

    method ReadFrame() returns (r: Result<Frame>)
      modifies this
      ensures Read(r, remaining) == NextFrame(old(remaining))
    {
      hide SlowFrame, FastFrame;
      var first := ReadExact(1);
      if first.Err? {
        return Err(first.error);
      }
      r := ReadFrameBody(first.value[0]);
    }

    method ReadFrameBody(first: byte) returns (r: Result<Frame>)
      modifies this
      ensures Read(r, remaining)
              == if first == Tpkt.TPKT_VERSION then SlowFrame(old(remaining)) else FastFrame(first, old(remaining))
    {
      if first == Tpkt.TPKT_VERSION {
        var rest := ReadExact(3);
        if rest.Err? {
          return Err(rest.error);
        }
        var total: int := U16BeAt(rest.value, 1);
        var body := ReadExact(Max(0, total - 4));
        if body.Err? {
          return Err(body.error);
        }
        var pdu := X224.Unwrapped(body.value);
        if pdu.Err? {
          return Err(pdu.error);
        }
        return Ok(SlowPath(pdu.value));
      }
      ghost var s := remaining;
      var lb := ReadExact(1);
      if lb.Err? {
        return Err(Io);
      }
      var lengthBytes := lb.value;
      var total: nat := lb.value[0];
      if lb.value[0] >= 0x80 {
        var lb2 := ReadExact(1);
        if lb2.Err? {
          return Err(Io);
        }
        lengthBytes := lengthBytes + lb2.value;
        total := (lb.value[0] - 0x80) * 0x100 + lb2.value[0] as int;
      }
      var headerLen := 1 + |lengthBytes|;
      assert lengthBytes == s[..|lengthBytes|] && remaining == s[|lengthBytes|..];
      assert FastPath.FpLength(s) == Ok((total, |lengthBytes|));
      var body := ReadExact(Max(0, total - headerLen));
      if body.Err? {
        return Err(body.error);
      }
      r := Ok(FastPath([first] + lengthBytes + body.value));
    }

    method Recv() returns (r: Result<bytes>)
      modifies this
      ensures Read(r, remaining) == Received(old(remaining))
    {
      var header := ReadExact(Tpkt.TPKT_HEADER);
      if header.Err? {
        return Err(header.error);
      }
      var total := Tpkt.TotalLength(header.value);
      if total.Err? {
        return Err(total.error);
      }
      var rest := ReadExact(total.value - Tpkt.TPKT_HEADER);
      if rest.Err? {
        return Err(rest.error);
      }
      // A packet read by its own declared length always decodes.
      WholePacketDecodes(header.value, rest.value);
      r := X224.Unwrapped(Tpkt.Decoded(header.value + rest.value).value);
    }

    method ReadDerTlv() returns (r: Result<bytes>)
      modifies this
      ensures Read(r, remaining) == NextDer(old(remaining))
    {
      ghost var s := remaining;
      var head := ReadExact(2);
      if head.Err? {
        return Err(head.error);
      }
      var out := head.value;
      var first := out[1];
      var contentLen: nat := first;
      if first >= 0x80 {
        var lenBytes := ReadExact(first - 0x80);
        if lenBytes.Err? {
          return Err(lenBytes.error);
        }
        out := out + lenBytes.value;
        contentLen := Fold(lenBytes.value);
      } else {
        assert s[2..][..0] == [] && s[2..][0..] == s[2..];
      }
      var content := ReadExact(contentLen);
      if content.Err? {
        return Err(content.error);
      }
      assert first < 0x80 ==> out == s[..2] + s[2..][..0];
      r := Ok(out + content.value);
    }

    /** Shift the octets into a 64-bit register. */
    static method Fold(octets: bytes) returns (v: nat)
      ensures v == Der.BeValue(octets) % Der.TWO_64
    {
      v := 0;
      for i := 0 to |octets|
        invariant v == Der.BeValue(octets[..i]) % Der.TWO_64
      {
        Wrap64(Der.BeValue(octets[..i]), octets[i]);
        assert octets[..i + 1][..i] == octets[..i];
        v := (v * 0x100 + octets[i] as int) % Der.TWO_64;
      }
      assert octets[..|octets|] == octets;
    }
  }

  /** Header and body read off the stream make a packet that decodes. */
  lemma WholePacketDecodes(header: bytes, body: bytes)
    requires |header| == Tpkt.TPKT_HEADER && Tpkt.TotalLength(header) == Ok(|header| + |body|)
    ensures Tpkt.Decoded(header + body).Ok?
  {
    assert header + body == [header[0], header[1], header[2], header[3]] + body;
  }

  // ----- Streams the code stops on -----

  /** A whole packet whose X.224 header is that of a Data TPDU and claims more octets than the packet has. */
  predicate HeaderOverruns(s: bytes) {
    && |s| >= 7 && s[0] == Tpkt.TPKT_VERSION && 7 <= U16BeAt(s, 2) <= |s|
    && s[5] == X224.TPDU_DT && s[4] + 5 > U16BeAt(s, 2)
  }

  /**
   Both readers stop on exactly those streams, for example on the seven bytes below; no fast-path PDU is among them.
   */
  lemma ReadsStop(s: bytes)
    ensures NextFrame(s).result == Err(Panic) <==> HeaderOverruns(s)
    ensures Received(s).result == Err(Panic) <==> HeaderOverruns(s)
    ensures HeaderOverruns([3, 0, 0, 7, 3, 0xF0, 0])
  {
    hide U16BeAt;
    BigEndianSeven();
    if |s| >= 4 {
      assert s[1..][..3] == s[1..4] && s[1..][3..] == s[4..];
      SameLength(s);
      if s[0] == Tpkt.TPKT_VERSION && 4 <= U16BeAt(s, 2) <= |s| {
        var body := s[4..][..U16BeAt(s, 2) - 4];
        WholePacketDecodes(s[..4], body);
        assert (s[..4] + body)[4..U16BeAt(s, 2)] == body;
      }
    }
  }

  lemma BigEndianSeven()
    ensures U16BeAt([3, 0, 0, 7, 3, 0xF0, 0], 2) == 7
  {
  }

  lemma SameLength(s: bytes)
    requires |s| >= 4
    ensures U16BeAt(s[1..][..3], 1) == U16BeAt(s, 2) == U16BeAt(s[..4], 2)
    ensures forall more: bytes :: U16BeAt(s[..4] + more, 2) == U16BeAt(s, 2)
  {
  }

  // ----- Round trips -----

  /** A well-formed frame on the wire. */
  datatype WireFrame =
    | Slow(mcs: bytes)
    | Fast(header: byte, updates: seq<FastPath.Wire>, long: bool)

  ghost predicate WellFormed(w: WireFrame) {
    match w
    case Slow(mcs) => |mcs| + 3 <= Tpkt.MAX_TPKT_PAYLOAD
    case Fast(header, updates, long) => FastPath.PduFits(header, updates, long)
  }

  ghost function Printed(w: WireFrame): bytes
    requires WellFormed(w)
  {
    match w
    case Slow(mcs) => Tpkt.Encoded(X224.Wrapped(mcs)).value
    case Fast(header, updates, long) => FastPath.PrintPdu(header, updates, long)
  }

  ghost function FrameOf(w: WireFrame): Frame
    requires WellFormed(w)
  {
    match w
    case Slow(mcs) => SlowPath(mcs)
    case Fast(_, _, _) => FastPath(Printed(w))
  }

  lemma ExactPrefix(a: bytes, b: bytes)
    ensures Exact(a + b, |a|) == Read(Ok(a), b)
  {
  }

  lemma SlowReadsBack(mcs: bytes, rest: bytes)
    requires |mcs| + 3 <= Tpkt.MAX_TPKT_PAYLOAD
    ensures NextFrame(Tpkt.Encoded(X224.Wrapped(mcs)).value + rest) == Read(Ok(SlowPath(mcs)), rest)
  {
    hide Exact, U16Be, U16BeAt, X224.Unwrapped;
    var payload := X224.Wrapped(mcs);
    var len := U16Be(|payload| + 4);
    var s := Tpkt.Encoded(payload).value + rest;
    assert s[1..] == ([0] + len) + (payload + rest);
    ExactPrefix([0] + len, payload + rest);
    U16BeIn([0] + len, 1, |payload| + 4);
    ExactPrefix(payload, rest);
    X224.WrappedReadsBack(mcs);
  }

  lemma FastReadsBack(header: byte, updates: seq<FastPath.Wire>, long: bool, rest: bytes)
    requires FastPath.PduFits(header, updates, long)
    ensures var pdu := FastPath.PrintPdu(header, updates, long);
            NextFrame(pdu + rest) == Read(Ok(FastPath(pdu)), rest)
  {
    hide Exact, FastPath.PrintBody;
    var pdu := FastPath.PrintPdu(header, updates, long);
    var total := FastPath.TotalLength(updates, long);
    var len, body := FastPath.PduLength(total, long), FastPath.PrintBody(updates);
    var s := (pdu + rest)[1..];
    assert s == len + (body + rest);
    assert FastPath.FpLength(s) == Ok((total, |len|));
    assert s[..|len|] == len && s[|len|..] == body + rest;
    ExactPrefix(body, rest);
    assert pdu == [header] + len + body;
  }

  ghost function PrintedStream(ws: seq<WireFrame>): bytes
    requires forall k :: 0 <= k < |ws| ==> WellFormed(ws[k])
  {
    if ws == [] then [] else Printed(ws[0]) + PrintedStream(ws[1..])
  }

  ghost function FramesOf(ws: seq<WireFrame>): (r: seq<Frame>)
    requires forall k :: 0 <= k < |ws| ==> WellFormed(ws[k])
    ensures |r| == |ws|
  {
    seq(|ws|, k requires 0 <= k < |ws| => FrameOf(ws[k]))
  }

  /** `n` calls of `read_frame`, up to the first error. */
  function Frames(s: bytes, n: nat, frames: seq<Frame>): Read<seq<Frame>> {
    if n == 0 then Read(Ok(frames), s)
    else
      var next := NextFrame(s);
      match next.result
      case Err(e) => Read(Err(e), next.rest)
      case Ok(frame) => Frames(next.rest, n - 1, frames + [frame])
  }

  lemma FrameReadsBack(w: WireFrame, rest: bytes)
    requires WellFormed(w)
    ensures NextFrame(Printed(w) + rest) == Read(Ok(FrameOf(w)), rest)
  {
    hide NextFrame, FastPath.PduFits, FastPath.PrintPdu;
    match w
    case Slow(mcs) => SlowReadsBack(mcs, rest);
    case Fast(header, updates, long) => FastReadsBack(header, updates, long, rest);
  }

  lemma {:induction false} FramesReadBack(ws: seq<WireFrame>, rest: bytes, before: seq<Frame>)
    requires forall k :: 0 <= k < |ws| ==> WellFormed(ws[k])
    ensures Frames(PrintedStream(ws) + rest, |ws|, before) == Read(Ok(before + FramesOf(ws)), rest)
    decreases |ws|
  {
    hide NextFrame, WellFormed, Printed, FrameOf;
    if ws == [] {
      assert PrintedStream(ws) + rest == rest;
      assert before + FramesOf(ws) == before;
    } else {
      assert PrintedStream(ws) + rest == Printed(ws[0]) + (PrintedStream(ws[1..]) + rest);
      FrameReadsBack(ws[0], PrintedStream(ws[1..]) + rest);
      FramesReadBack(ws[1..], rest, before + [FrameOf(ws[0])]);
      assert before + FramesOf(ws) == before + [FrameOf(ws[0])] + FramesOf(ws[1..]);
    }
  }

  /**
   Repeated reads of any concatenation of well-formed frames return exactly those frames, in order, and
   leave exactly what follows them; each fast-path frame then parses to its updates.
   */
  lemma StreamDemultiplexes(ws: seq<WireFrame>, rest: bytes)
    requires forall k :: 0 <= k < |ws| ==> WellFormed(ws[k])
    ensures Frames(PrintedStream(ws) + rest, |ws|, []) == Read(Ok(FramesOf(ws)), rest)
    ensures forall k :: 0 <= k < |ws| && ws[k].Fast? ==>
              FramesOf(ws)[k].FastPath?
              && FastPath.ParsedPdu(FramesOf(ws)[k].pdu) == Ok(FastPath.UpdatesOf(ws[k].updates))
  {
    hide Frames, FastPath.PrintPdu, FastPath.ParsedPdu;
    FramesReadBack(ws, rest, []);
    assert [] + FramesOf(ws) == FramesOf(ws);
    forall k | 0 <= k < |ws| && ws[k].Fast?
      ensures FramesOf(ws)[k].FastPath?
              && FastPath.ParsedPdu(FramesOf(ws)[k].pdu) == Ok(FastPath.UpdatesOf(ws[k].updates))
    {
      assert WellFormed(ws[k]);
      FastPath.PduReadsBack(ws[k].header, ws[k].updates, ws[k].long, []);
      assert Printed(ws[k]) + [] == Printed(ws[k]);
    }
  }

  lemma SlowIsSelfDelimiting(s: bytes, other: bytes)
    requires SlowFrame(s).result.Ok?
    ensures var r := SlowFrame(s);
            && |r.rest| <= |s| && s[|s| - |r.rest|..] == r.rest
            && SlowFrame(s[..|s| - |r.rest|] + other) == Read(r.result, other)
  {
    hide X224.Unwrapped, Exact;
    ExactSplits(s, 3);
    var total: int := U16BeAt(s[..3], 1);
    var n: nat := Max(0, total - 4);
    var tail := s[3..];
    ExactSplits(tail, n);
    var body := tail[..n];
    assert s[..3 + n] + other == s[..3] + (body + other);
    ExactPrefix(s[..3], body + other);
    ExactPrefix(body, other);
  }

  lemma FastIsSelfDelimiting(first: byte, s: bytes, other: bytes)
    requires FastFrame(first, s).result.Ok?
    ensures var r := FastFrame(first, s);
            && |r.rest| <= |s| && s[|s| - |r.rest|..] == r.rest
            && FastFrame(first, s[..|s| - |r.rest|] + other) == Read(r.result, other)
  {
    hide Exact;
    var total: int, used: nat := FastPath.FpLength(s).value.0, FastPath.FpLength(s).value.1;
    var n: nat := Max(0, total - (1 + used));
    var tail := s[used..];
    ExactSplits(tail, n);
    var body := tail[..n];
    var again := s[..used + n] + other;
    assert again == s[..used] + (body + other);
    assert FastPath.FpLength(again) == Ok((total, used));
    assert again[..used] == s[..used] && again[used..] == body + other;
    ExactPrefix(body, other);
  }

  /** A frame is read from its own bytes alone: what follows is left as it is. */
  lemma FrameIsSelfDelimiting(s: bytes, other: bytes)
    requires NextFrame(s).result.Ok?
    ensures var r := NextFrame(s);
            && |r.rest| < |s| && s[|s| - |r.rest|..] == r.rest
            && NextFrame(s[..|s| - |r.rest|] + other) == Read(r.result, other)
  {
    hide SlowFrame, FastFrame;
    if s[0] == Tpkt.TPKT_VERSION {
      SlowIsSelfDelimiting(s[1..], other);
    } else {
      FastIsSelfDelimiting(s[0], s[1..], other);
    }
    var rest := NextFrame(s).rest;
    assert (s[..|s| - |rest|] + other)[1..] == s[1..][..|s| - 1 - |rest|] + other;
  }

  lemma ExactSplits(s: bytes, n: nat)
    ensures Exact(s, n).result.Ok? <==> n <= |s|
    ensures n <= |s| ==> Exact(s, n) == Read(Ok(s[..n]), s[n..])
  {
  }

  /** What `send` writes, `recv` reads: exactly the PDUs that fit a packet can be sent. */
  lemma SendReceive(mcs: bytes, rest: bytes)
    ensures Tpkt.Encoded(X224.Wrapped(mcs)).Ok? <==> |mcs| + 3 <= Tpkt.MAX_TPKT_PAYLOAD
    ensures |mcs| + 3 <= Tpkt.MAX_TPKT_PAYLOAD ==>
              Received(Tpkt.Encoded(X224.Wrapped(mcs)).value + rest) == Read(Ok(mcs), rest)
  {
    hide Exact, U16Be, X224.Unwrapped, Tpkt.TotalLength, Tpkt.Decoded;
    var payload := X224.Wrapped(mcs);
    if |payload| <= Tpkt.MAX_TPKT_PAYLOAD {
      var header := [Tpkt.TPKT_VERSION, 0] + U16Be(|payload| + Tpkt.TPKT_HEADER);
      assert Tpkt.Encoded(payload).value + rest == header + (payload + rest);
      ExactPrefix(header, payload + rest);
      HeaderLength(payload);
      ExactPrefix(payload, rest);
      Tpkt.PacketReadsBack(payload, []);
      assert Tpkt.Encoded(payload).value + [] == header + payload;
      X224.WrappedReadsBack(mcs);
    }
  }

  lemma HeaderLength(payload: bytes)
    requires |payload| <= Tpkt.MAX_TPKT_PAYLOAD
    ensures Tpkt.TotalLength([Tpkt.TPKT_VERSION, 0] + U16Be(|payload| + Tpkt.TPKT_HEADER))
            == Ok(|payload| + Tpkt.TPKT_HEADER)
  {
    hide U16Be, U16BeAt;
    U16BeIn([Tpkt.TPKT_VERSION, 0] + U16Be(|payload| + Tpkt.TPKT_HEADER), 2, |payload| + Tpkt.TPKT_HEADER);
  }

  /** A DER element of any length the encoder writes is taken from the stream whole, and nothing after it. */
  lemma DerElementRead(tag: byte, value: bytes, rest: bytes)
    requires |value| < Der.TWO_64
    ensures NextDer(Der.Tlv(tag, value) + rest) == Read(Ok(Der.Tlv(tag, value)), rest)
  {
    hide Exact, Der.BigEndian, Der.BeValue;
    var len := Der.EncodedLen(|value|);
    var octets := if |value| < 0x80 then [] else Der.BigEndian(|value|);
    var s := Der.Tlv(tag, value) + rest;
    Der.BigEndianSize(|value|);
    Der.BeValueOfBigEndian(|value|);
    assert len == [len[0]] + octets;
    assert s == [tag, len[0]] + (octets + (value + rest));
    ExactPrefix([tag, len[0]], octets + (value + rest));
    ExactPrefix(octets, value + rest);
    ExactPrefix(value, rest);
    assert Der.Tlv(tag, value) == [tag, len[0]] + octets + value;
  }

  // ----- Errors -----

  /** A stream that ends before a frame does, or does not begin with a packet where one is expected. */
  lemma StreamErrs(s: bytes)
    ensures s == [] ==> NextFrame(s).result == Err(Io)
    ensures 1 <= |s| < 4 && s[0] == 3 ==> NextFrame(s).result == Err(Io)
    ensures |s| >= 4 && s[0] == 3 && |s| < U16BeAt(s, 2) ==> NextFrame(s).result == Err(Io)
    ensures |s| == 1 ==> NextFrame(s).result == Err(Io)
    ensures |s| < 4 ==> Received(s).result == Err(Io)
    ensures |s| >= 4 && s[0] != 3 ==> Received(s).result == Err(Protocol(BadTpktVersion))
  {
    hide U16BeAt;
    if |s| >= 4 {
      SameLength(s);
    }
  }

  /** The length octet 0x80 counts no octets: such an element is taken to be empty. */
  lemma EmptyLength(tag: byte, rest: bytes)
    ensures NextDer([tag, 0x80] + rest) == Read(Ok([tag, 0x80]), rest)
  {
    var head: bytes, s := [tag, 0x80], [tag, 0x80] + rest;
    assert Exact(s, 2) == Read(Ok(head), rest) by {
      ExactPrefix(head, rest);
    }
    assert Exact(rest, 0) == Read(Ok(rest[..0]), rest);
    assert Der.BeValue(rest[..0]) == 0;
    assert head + rest[..0] + rest[..0] == head;
  }
}
