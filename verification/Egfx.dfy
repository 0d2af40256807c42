/** The graphics pipeline's framing and surface store: sections 2.2.1.5 and 2.2.2 of [MS-RDPEGFX]. */
module Egfx {
  import opened Prelude
  import opened Framebuffers
  import Bitmap
  import PlanarFormat
  import PlanarDecoder
  import PlanarInverse

  const CMDID_WIRETOSURFACE_1: u16 := 0x0001
  const CMDID_CREATESURFACE: u16 := 0x0009
  const CMDID_DELETESURFACE: u16 := 0x000A
  const CMDID_STARTFRAME: u16 := 0x000B
  const CMDID_ENDFRAME: u16 := 0x000C
  const CMDID_RESETGRAPHICS: u16 := 0x000E
  const CMDID_MAPSURFACETOOUTPUT: u16 := 0x000F
  const CMDID_CAPSCONFIRM: u16 := 0x0013

  const CODECID_UNCOMPRESSED: u16 := 0x0000
  const CODECID_PLANAR: u16 := 0x000A
  const CODECID_AVC420: u16 := 0x000B
  const CODECID_AVC444: u16 := 0x000E

  const GFX_HEADER := 8

  /** Right and bottom are exclusive; a reversed rectangle is empty. */
  datatype Rect16 = Rect16(left: u16, top: u16, right: u16, bottom: u16) {
    function Width(): nat {
      Max(0, right as int - left as int)
    }

    function Height(): nat {
      Max(0, bottom as int - top as int)
    }
  }

  datatype Command =
    | CreateSurface(id: u16, width: u16, height: u16, pixelFormat: byte)
    | DeleteSurface(id: u16)
    | MapSurfaceToOutput(id: u16, x: u32, y: u32)
    | StartFrame(frame: u32)
    | EndFrame(frame: u32)
    | ResetGraphics(outWidth: u32, outHeight: u32)
    | WireToSurface1(id: u16, codec: u16, pixelFormat: byte, dest: Rect16, data: bytes)
    | CapsConfirm(version: u32)
    | Other(cmdId: u16)

  // ----- Parsing -----

  function ParseBody(cmdId: u16, body: bytes): Result<Command> {
    if cmdId == CMDID_CREATESURFACE then
      if |body| < 7 then Err(Short(7, |body|))
      else Ok(CreateSurface(U16LeAt(body, 0), U16LeAt(body, 2), U16LeAt(body, 4), body[6]))
    else if cmdId == CMDID_DELETESURFACE then
      if |body| < 2 then Err(Short(2, |body|)) else Ok(DeleteSurface(U16LeAt(body, 0)))
    else if cmdId == CMDID_MAPSURFACETOOUTPUT then
      if |body| < 12 then Err(Short(12, |body|))
      else Ok(MapSurfaceToOutput(U16LeAt(body, 0), U32LeAt(body, 4), U32LeAt(body, 8)))
    else if cmdId == CMDID_STARTFRAME then
      if |body| < 8 then Err(Short(8, |body|)) else Ok(StartFrame(U32LeAt(body, 4)))
    else if cmdId == CMDID_ENDFRAME then
      if |body| < 4 then Err(Short(4, |body|)) else Ok(EndFrame(U32LeAt(body, 0)))
    else if cmdId == CMDID_RESETGRAPHICS then
      if |body| < 8 then Err(Short(8, |body|)) else Ok(ResetGraphics(U32LeAt(body, 0), U32LeAt(body, 4)))
    else if cmdId == CMDID_WIRETOSURFACE_1 then
      if |body| < 17 then Err(Short(17, |body|))
      else
        var len := U32LeAt(body, 13);
        if |body| - 17 < len then Err(Short(len, |body| - 17))
        else
          Ok(WireToSurface1(U16LeAt(body, 0), U16LeAt(body, 2), body[4],
                            Rect16(U16LeAt(body, 5), U16LeAt(body, 7), U16LeAt(body, 9), U16LeAt(body, 11)),
                              body[17..17 + len]))
    else if cmdId == CMDID_CAPSCONFIRM then
      if |body| < 4 then Err(Short(4, |body|)) else Ok(CapsConfirm(U32LeAt(body, 0)))
    else Ok(Other(cmdId))
  }

  /** One command and the bytes it takes, header included. */
  function ParsedCommand(buf: bytes): (r: Result<(Command, nat)>)
    ensures r.Ok? ==> GFX_HEADER <= r.value.1 <= |buf|
  {
    if |buf| < GFX_HEADER then Err(Short(GFX_HEADER, |buf|))
    else
      var len := U32LeAt(buf, 4);
      if len < GFX_HEADER || |buf| < len then Err(Protocol(BadGfxLength))
      else
        var cmd :- ParseBody(U16LeAt(buf, 0), buf[GFX_HEADER..len]);
        Ok((cmd, len))
  }

  function ParsedAll(buf: bytes, cmds: seq<Command>): Result<seq<Command>>
    decreases |buf|
  {
    if buf == [] then Ok(cmds)
    else
      var (cmd, used) :- ParsedCommand(buf);
      ParsedAll(buf[used..], cmds + [cmd])
  }

  method ParseAll(all: bytes) returns (r: Result<seq<Command>>)
    ensures r == ParsedAll(all, [])
  {
    hide ParsedCommand;
    var buf, cmds := all, [];
    while buf != []
      invariant ParsedAll(all, []) == ParsedAll(buf, cmds)
      decreases |buf|
    {
      var parsed := ParsedCommand(buf);
      if parsed.Err? {
        return Err(parsed.error);
      }
      cmds := cmds + [parsed.value.0];
      buf := buf[parsed.value.1..];
    }
    r := Ok(cmds);
  }

  // ----- Printing -----

  /** A command as a server frames it: header flags, reserved bytes inside the body, and bytes after its fields. */
  datatype Framed = Framed(cmd: Command, flags: u16, reserved: bytes, tail: bytes)

  function CommandId(cmd: Command): u16 {
    match cmd
    case CreateSurface(_, _, _, _) => 0x0009
    case DeleteSurface(_) => 0x000A
    case MapSurfaceToOutput(_, _, _) => 0x000F
    case StartFrame(_) => 0x000B
    case EndFrame(_) => 0x000C
    case ResetGraphics(_, _) => 0x000E
    case WireToSurface1(_, _, _, _, _) => 0x0001
    case CapsConfirm(_) => 0x0013
    case Other(cmdId) => cmdId
  }

  predicate KnownId(cmdId: u16) {
    cmdId == 0x0001 || 0x0009 <= cmdId <= 0x000C || cmdId == 0x000E || cmdId == 0x000F || cmdId == 0x0013
  }

  function ReservedSize(cmd: Command): nat {
    match cmd
    case MapSurfaceToOutput(_, _, _) => 2
    case StartFrame(_) => 4
    case _ => 0
  }

  ghost predicate Sendable(f: Framed) {
    && |f.reserved| == ReservedSize(f.cmd)
    && (f.cmd.Other? ==> !KnownId(f.cmd.cmdId))
    && (f.cmd.WireToSurface1? ==> |f.cmd.data| < 0x1_0000_0000)
    && GFX_HEADER + |PrintBody(f)| < 0x1_0000_0000
  }

  function PrintRect16(r: Rect16): (s: bytes)
    ensures |s| == 8
  {
    U16Le(r.left) + U16Le(r.top) + U16Le(r.right) + U16Le(r.bottom)
  }

  function PrintBody(f: Framed): bytes {
    match f.cmd
    case CreateSurface(id, width, height, pixelFormat) => U16Le(id) + U16Le(width) + U16Le(height) + [pixelFormat]
      + f.tail
    case DeleteSurface(id) => U16Le(id) + f.tail
    case MapSurfaceToOutput(id, x, y) => U16Le(id) + f.reserved + U32Le(x) + U32Le(y) + f.tail
    case StartFrame(frame) => f.reserved + U32Le(frame) + f.tail
    case EndFrame(frame) => U32Le(frame) + f.tail
    case ResetGraphics(width, height) => U32Le(width) + U32Le(height) + f.tail
    case WireToSurface1(id, codec, pixelFormat, dest, data) =>
      U16Le(id) + U16Le(codec) + [pixelFormat] + PrintRect16(dest) + U32Le(|data| % 0x1_0000_0000) + data + f.tail
    case CapsConfirm(version) => U32Le(version) + f.tail
    case Other(_) => f.tail
  }

  /** RDPGFX_HEADER, whose length counts itself, and a body. */
  function WithHeader(cmdId: u16, flags: u16, body: bytes): bytes {
    U16Le(cmdId) + U16Le(flags) + U32Le((GFX_HEADER + |body|) % 0x1_0000_0000) + body
  }

  function PrintCommand(f: Framed): bytes {
    WithHeader(CommandId(f.cmd), f.flags, PrintBody(f))
  }

  function PrintAll(fs: seq<Framed>): bytes {
    if fs == [] then [] else PrintCommand(fs[0]) + PrintAll(fs[1..])
  }

  function CommandsOf(fs: seq<Framed>): (r: seq<Command>)
    ensures |r| == |fs|
  {
    seq(|fs|, k requires 0 <= k < |fs| => fs[k].cmd)
  }

  lemma WireBodyReadsBack(f: Framed)
    requires f.cmd.WireToSurface1? && |f.cmd.data| < 0x1_0000_0000
    ensures ParseBody(0x0001, PrintBody(f)) == Ok(f.cmd)
  {
    hide U16Le, U16LeAt, U32Le, U32LeAt;
    var body := PrintBody(f);
    U16LeIn(body, 0, f.cmd.id);
    U16LeIn(body, 2, f.cmd.codec);
    U16LeIn(body, 5, f.cmd.dest.left);
    U16LeIn(body, 7, f.cmd.dest.top);
    U16LeIn(body, 9, f.cmd.dest.right);
    U16LeIn(body, 11, f.cmd.dest.bottom);
    U32LeIn(body, 13, |f.cmd.data|);
    assert body[17..17 + |f.cmd.data|] == f.cmd.data;
  }

  lemma BodyReadsBack(f: Framed)
    requires |f.reserved| == ReservedSize(f.cmd) && !f.cmd.WireToSurface1? && (f.cmd.Other? ==> !KnownId(f.cmd.cmdId))
    ensures ParseBody(CommandId(f.cmd), PrintBody(f)) == Ok(f.cmd)
  {
    hide U16Le, U16LeAt, U32Le, U32LeAt;
    var body := PrintBody(f);
    match f.cmd
    case CreateSurface(id, width, height, _) =>
      U16LeIn(body, 0, id);
      U16LeIn(body, 2, width);
      U16LeIn(body, 4, height);
    case DeleteSurface(id) => U16LeIn(body, 0, id);
    case MapSurfaceToOutput(id, x, y) =>
      U16LeIn(body, 0, id);
      U32LeIn(body, 4, x);
      U32LeIn(body, 8, y);
    case StartFrame(frame) => U32LeIn(body, 4, frame);
    case EndFrame(frame) => U32LeIn(body, 0, frame);
    case ResetGraphics(width, height) =>
      U32LeIn(body, 0, width);
      U32LeIn(body, 4, height);
    case CapsConfirm(version) => U32LeIn(body, 0, version);
    case Other(_) =>
  }

  lemma HeaderReadsBack(cmdId: u16, flags: u16, body: bytes, rest: bytes)
    requires GFX_HEADER + |body| < 0x1_0000_0000
    ensures var buf := WithHeader(cmdId, flags, body) + rest;
            && |buf| == GFX_HEADER + |body| + |rest| && U16LeAt(buf, 0) == cmdId
            && U32LeAt(buf, 4) == GFX_HEADER + |body|
            && buf[GFX_HEADER..GFX_HEADER + |body|] == body && buf[GFX_HEADER + |body|..] == rest
  {
    hide U16Le, U16LeAt, U32Le, U32LeAt;
    var buf := WithHeader(cmdId, flags, body) + rest;
    U16LeIn(buf, 0, cmdId);
    U32LeIn(buf, 4, GFX_HEADER + |body|);
  }

  lemma CommandReadsBack(f: Framed, rest: bytes)
    requires Sendable(f)
    ensures ParsedCommand(PrintCommand(f) + rest) == Ok((f.cmd, |PrintCommand(f)|))
    ensures (PrintCommand(f) + rest)[|PrintCommand(f)|..] == rest
  {
    hide ParseBody, PrintBody;
    HeaderReadsBack(CommandId(f.cmd), f.flags, PrintBody(f), rest);
    if f.cmd.WireToSurface1? {
      WireBodyReadsBack(f);
    } else {
      BodyReadsBack(f);
    }
  }

  lemma {:induction false} CommandsReadBack(fs: seq<Framed>, before: seq<Command>)
    requires forall k :: 0 <= k < |fs| ==> Sendable(fs[k])
    ensures ParsedAll(PrintAll(fs), before) == Ok(before + CommandsOf(fs))
    decreases |fs|
  {
    hide Sendable, ParsedCommand, PrintCommand;
    if fs == [] {
      assert before + CommandsOf(fs) == before;
    } else {
      CommandReadsBack(fs[0], PrintAll(fs[1..]));
      CommandsReadBack(fs[1..], before + [fs[0].cmd]);
      assert before + CommandsOf(fs) == before + [fs[0].cmd] + CommandsOf(fs[1..]);
    }
  }

  /** A concatenation of framed commands parses to exactly those commands. */
  lemma StreamReadsBack(fs: seq<Framed>)
    requires forall k :: 0 <= k < |fs| ==> Sendable(fs[k])
    ensures ParsedAll(PrintAll(fs), []) == Ok(CommandsOf(fs))
  {
    hide ParsedAll, PrintAll, CommandsOf, Sendable;
    CommandsReadBack(fs, []);
    assert [] + CommandsOf(fs) == CommandsOf(fs);
  }

  // ----- Commands that do not parse -----

  /** The bytes a command's fields take before any bitmap data. */
  function FieldBytes(cmdId: u16): nat {
    match cmdId
    case 0x0001 => 17
    case 0x0009 => 7
    case 0x000A => 2
    case 0x000B => 8
    case 0x000C => 4
    case 0x000E => 8
    case 0x000F => 12
    case 0x0013 => 4
    case _ => 0
  }

  /** A body is refused exactly when its fields are cut off, or the bitmap data its length field announces. */
  lemma BodyErrs(cmdId: u16, body: bytes)
    ensures ParseBody(cmdId, body).Err? <==>
            || |body| < FieldBytes(cmdId)
            || (cmdId == 0x0001 && |body| - 17 < U32LeAt(body, 13))
    ensures ParseBody(cmdId, body).Err? ==>
              ParseBody(cmdId, body).error
              == if |body| < FieldBytes(cmdId) then Short(FieldBytes(cmdId), |body|)
                 else Short(U32LeAt(body, 13), |body| - 17)
  {
    hide U16LeAt, U32LeAt;
  }

  /**
   A command is refused for its header alone when that is cut off, or declares less than itself or more than there is.
   */
  lemma HeaderErrs(buf: bytes)
    ensures |buf| < 8 ==> ParsedCommand(buf) == Err(Short(8, |buf|))
    ensures |buf| >= 8 && (U32LeAt(buf, 4) < 8 || U32LeAt(buf, 4) > |buf|) ==>
              ParsedCommand(buf) == Err(Protocol(BadGfxLength))
  {
    hide ParseBody, U32LeAt;
  }

  // ----- Surface bits -----

  /** The first `n` BGRX pixels as opaque RGBA. */
  function OpaqueRgba(data: bytes, n: nat): (r: bytes)
    requires 4 * n <= |data|
    ensures |r| == 4 * n
  {
    if n == 0 then [] else OpaqueRgba(data, n - 1) + [data[4 * n - 2], data[4 * n - 3], data[4 * n - 4], 255]
  }

  function SurfaceBits(codec: u16, dest: Rect16, data: bytes): (r: Result<bytes>) {
    var w, h := dest.Width(), dest.Height();
    if codec == CODECID_UNCOMPRESSED then
      if |data| < w * h * 4 then
        assert w * h >= 0;
        Err(Short(w * h * 4, |data|))
      else
        assert w * h >= 0;
        Ok(OpaqueRgba(data, w * h))
    else if codec == CODECID_PLANAR then PlanarFormat.Decoded(data, w, h)
    else if codec == CODECID_AVC420 || codec == CODECID_AVC444 then Err(Protocol(ExternalCodec))
    else Err(Protocol(UnsupportedCodec))
  }

  /** What the planar decoder demands of a non-empty RLE bitmap. */
  ghost predicate Safe(cmd: Command) {
    cmd.WireToSurface1? && cmd.codec == CODECID_PLANAR ==>
      PlanarDecoder.SizeAllowed(cmd.data, cmd.dest.Width(), cmd.dest.Height())
  }

  method DecodeSurfaceBits(codec: u16, dest: Rect16, data: bytes) returns (r: Result<bytes>)
    requires codec == CODECID_PLANAR ==> PlanarDecoder.SizeAllowed(data, dest.Width(), dest.Height())
    ensures r == SurfaceBits(codec, dest, data)
  {
    hide PlanarFormat.Decoded, PlanarDecoder.SizeAllowed;
    var w, h := dest.Width(), dest.Height();
    var n := w * h;
    assert n >= 0;
    if codec == CODECID_UNCOMPRESSED {
      if |data| < n * 4 {
        return Err(Short(n * 4, |data|));
      }
      var rgba := OpaqueCopy(data, n);
      return Ok(rgba);
    }
    if codec == CODECID_PLANAR {
      r := PlanarDecoder.Decode(data, w, h);
    } else if codec == CODECID_AVC420 || codec == CODECID_AVC444 {
      r := Err(Protocol(ExternalCodec));
    } else {
      r := Err(Protocol(UnsupportedCodec));
    }
  }

  lemma OpaqueNone(data: bytes)
    ensures OpaqueRgba(data, 0) == []
  {
  }

  lemma OpaqueNext(data: bytes, i: nat)
    requires 4 * (i + 1) <= |data|
    ensures OpaqueRgba(data, i + 1)
            == OpaqueRgba(data, i) + [data[4 * i + 2], data[4 * i + 1], data[4 * i], 255]
  {
  }

  method OpaqueCopy(data: bytes, n: nat) returns (r: bytes)
    requires 4 * n <= |data|
    ensures r == OpaqueRgba(data, n)
  {
    hide OpaqueRgba;
    var rgba := new byte[n * 4](_ => 0);
    OpaqueNone(data);
    for i := 0 to n
      invariant rgba[..4 * i] == OpaqueRgba(data, i)
    {
      ghost var done := rgba[..4 * i];
      OpaqueNext(data, i);
      rgba[i * 4] := data[i * 4 + 2];
      rgba[i * 4 + 1] := data[i * 4 + 1];
      rgba[i * 4 + 2] := data[i * 4];
      rgba[i * 4 + 3] := 255;
      assert rgba[..4 * (i + 1)] == done + [data[4 * i + 2], data[4 * i + 1], data[4 * i], 255];
    }
    assert rgba[..4 * n] == rgba[..];
    r := rgba[..];
  }

  lemma SurfaceBitsLength(codec: u16, dest: Rect16, data: bytes)
    ensures SurfaceBits(codec, dest, data).Ok?
            ==> |SurfaceBits(codec, dest, data).value| == 4 * (dest.Width() * dest.Height())
  {
    hide PlanarFormat.Decoded;
    Bitmap.PlanarDecodedLength(data, dest.Width(), dest.Height());
  }

  lemma {:induction false} OpaqueAt(data: bytes, n: nat, i: nat)
    requires 4 * n <= |data| && i < n
    ensures Four(OpaqueRgba(data, n), 4 * i) == [data[4 * i + 2], data[4 * i + 1], data[4 * i], 255]
    decreases n
  {
    if i < n - 1 {
      OpaqueAt(data, n - 1, i);
    }
  }

  /** An uncompressed pixel keeps its row and column, swaps red with blue and becomes opaque. */
  lemma UncompressedPixel(dest: Rect16, data: bytes, x: nat, y: nat)
    requires x < dest.Width() && y < dest.Height() && |data| >= 4 * (dest.Width() * dest.Height())
    ensures SurfaceBits(CODECID_UNCOMPRESSED, dest, data).Ok?
    ensures var o := Offset(x, y, dest.Width());
            && o + 4 <= |data|
            && |SurfaceBits(CODECID_UNCOMPRESSED, dest, data).value| >= 4 * (dest.Width() * dest.Height())
            && RectPixel(SurfaceBits(CODECID_UNCOMPRESSED, dest, data).value, dest.Width(), dest.Height(), x, y)
               == [data[o + 2], data[o + 1], data[o], 255]
  {
    hide OpaqueRgba, Four;
    PixelFits(x, y, dest.Width(), dest.Height());
    OpaqueAt(data, dest.Width() * dest.Height(), y * dest.Width() + x);
  }

  /** A destination covers the pixels from left and top up to, not including, right and bottom. */
  lemma DestinationCovers(dest: Rect16, x: nat, y: nat)
    ensures Covers(dest.left, dest.top, dest.Width(), dest.Height(), x, y)
            <==> dest.left <= x < dest.right && dest.top <= y < dest.bottom
  {
  }

  /** What codec 0 lacks, which codecs are left to others, and which are unknown. */
  lemma CodecErrs(codec: u16, dest: Rect16, data: bytes)
    ensures var n := 4 * (dest.Width() * dest.Height());
            && (codec == 0 && |data| < n ==> SurfaceBits(codec, dest, data) == Err(Short(n, |data|)))
            && (codec == 0x000B || codec == 0x000E ==> SurfaceBits(codec, dest, data) == Err(Protocol(ExternalCodec)))
            && (codec !in {0, 0x000A, 0x000B, 0x000E} ==>
                  SurfaceBits(codec, dest, data) == Err(Protocol(UnsupportedCodec)))
  {
  }

  /** Under codec 10, a bitmap printed from coded planes has at each pixel its own byte of each plane. */
  lemma PlanarSurfacePixel(dest: Rect16, f: PlanarFormat.Format, reserved: nat, a: bytes, p: bytes, q: bytes, s: bytes,
                           alpha: bytes, red: bytes, green: bytes, blue: bytes, x: nat, y: nat, i: nat)
    requires f.cll == 0 && !f.cs && reserved < 4 && (f.rle || !f.hasAlpha || reserved != 0)
    requires PlanarInverse.CodesStream(f, a, p, q, s, alpha, red, green, blue, dest.Width(), dest.Height())
    requires x < dest.Width() && y < dest.Height() && i == y * dest.Width() + x
    ensures i < |red| && i < |green| && i < |blue| && (f.hasAlpha ==> i < |alpha|)
    ensures var r := SurfaceBits(0x000A, dest, PlanarInverse.Stream(f, reserved, a, p, q, s));
            && r.Ok? && |r.value| >= 4 * (dest.Width() * dest.Height())
            && RectPixel(r.value, dest.Width(), dest.Height(), x, y)
               == [red[i], green[i], blue[i], if f.hasAlpha then alpha[i] else 0xFF]
  {
    hide PlanarFormat.Decoded, PlanarInverse.CodesStream, PlanarInverse.Stream;
    PlanarInverse.LosslessRoundTrip(f, reserved, a, p, q, s, alpha, red, green, blue, dest.Width(), dest.Height());
    PixelFits(x, y, dest.Width(), dest.Height());
    PlanarInverse.LosslessPixel(f, reserved, a, p, q, s, alpha, red, green, blue, dest.Width(), dest.Height(), i);
    SurfaceBitsLength(0x000A, dest, PlanarInverse.Stream(f, reserved, a, p, q, s));
  }

  // ----- The store as a value -----

  datatype Store = Store(surfaces: map<u16, Image>, mapped: map<u16, (u32, u32)>) {
    ghost predicate Valid() {
      forall id :: id in surfaces ==> surfaces[id].Valid()
    }
  }

  const EmptyStore := Store(map[], map[])

  function Painted(st: Store, id: u16, dest: Rect16, rgba: bytes): (r: Store)
    requires st.Valid() && id in st.surfaces && |rgba| == 4 * (dest.Width() * dest.Height())
    ensures r.Valid()
  {
    st.(surfaces := st.surfaces[id := Blit(st.surfaces[id], dest.left, dest.top, dest.Width(), dest.Height(), rgba)])
  }

  /**
   The surface to present again, if any, and the new store; an unknown surface is refused before its bits are decoded.
   */
  function Applied(st: Store, cmd: Command): (r: (Result<Option<u16>>, Store))
    requires st.Valid()
    ensures r.1.Valid()
  {
    match cmd
    case CreateSurface(id, width, height, _) => (Ok(None), st.(surfaces := st.surfaces[id := Blank(width, height)]))
    case DeleteSurface(id) => (Ok(None), Store(st.surfaces - {id}, st.mapped - {id}))
    case MapSurfaceToOutput(id, x, y) => (Ok(None), st.(mapped := st.mapped[id := (x, y)]))
    case WireToSurface1(id, codec, _, dest, data) =>
      if id !in st.surfaces then (Err(Protocol(UnknownSurface)), st)
      else
        SurfaceBitsLength(codec, dest, data);
        var bits := SurfaceBits(codec, dest, data);
        if bits.Err? then (Err(bits.error), st) else (Ok(Some(id)), Painted(st, id, dest, bits.value))
    case _ => (Ok(None), st)
  }

  /** All commands in order; a caller goes on after an error. */
  function AppliedAll(cmds: seq<Command>): (r: Store)
    ensures r.Valid()
  {
    if cmds == [] then EmptyStore else Applied(AppliedAll(cmds[..|cmds| - 1]), cmds[|cmds| - 1]).1
  }

  // ----- The store object -----

  class SurfaceStore {
    var surfaces: map<u16, Framebuffer>
    var mapped: map<u16, (u32, u32)>

    /** Every surface has its own pixels. */
    ghost predicate Valid()
      reads this
    {
      && (forall id :: id in surfaces ==> surfaces[id].Valid())
      && (forall id, other :: id in surfaces && other in surfaces && id != other ==>
            surfaces[id].pixels != surfaces[other].pixels)
    }

    ghost function Buffers(): set<array<byte>>
      reads this
    {
      set id | id in surfaces :: surfaces[id].pixels
    }

    ghost function View(): (st: Store)
      requires Valid()
      reads this, Buffers()
      ensures st.Valid()
    {
      Store(map id | id in surfaces :: surfaces[id].View(), mapped)
    }

    constructor ()
      ensures Valid() && View() == EmptyStore
    {
      surfaces, mapped := map[], map[];
    }

    method Apply(cmd: Command) returns (r: Result<Option<u16>>)
      requires Valid() && Safe(cmd)
      modifies this, Buffers()
      ensures Valid() && fresh(Buffers() - old(Buffers()))
      ensures (r, View()) == Applied(old(View()), cmd)
    {
      hide Blit, Blank, SurfaceBits, PlanarDecoder.SizeAllowed;
      match cmd {
        case CreateSurface(id, width, height, _) =>
          Create(id, width, height);
          r := Ok(None);
        case DeleteSurface(id) =>
          Delete(id);
          r := Ok(None);
        case MapSurfaceToOutput(id, x, y) =>
          mapped := mapped[id := (x, y)];
          assert View().surfaces == old(View()).surfaces;
          r := Ok(None);
        case WireToSurface1(id, codec, _, dest, data) =>
          if id !in surfaces {
            return Err(Protocol(UnknownSurface));
          }
          r := Wire(id, codec, dest, data);
        case _ =>
          assert View() == old(View());
          r := Ok(None);
      }
    }

    method Create(id: u16, width: u16, height: u16)
      requires Valid()
      modifies this`surfaces
      ensures Valid() && fresh(Buffers() - old(Buffers()))
      ensures View() == old(View()).(surfaces := old(View()).surfaces[id := Blank(width, height)])
    {
      hide Blank;
      var fb := new Framebuffer(width, height);
      surfaces := surfaces[id := fb];
      assert View().surfaces == old(View()).surfaces[id := Blank(width, height)];
    }

    method Delete(id: u16)
      requires Valid()
      modifies this
      ensures Valid() && Buffers() <= old(Buffers())
      ensures View() == Store(old(View()).surfaces - {id}, old(View()).mapped - {id})
    {
      surfaces := surfaces - {id};
      mapped := mapped - {id};
      assert View().surfaces == old(View()).surfaces - {id};
    }

    method Wire(id: u16, codec: u16, dest: Rect16, data: bytes) returns (r: Result<Option<u16>>)
      requires Valid() && id in surfaces
      requires codec == CODECID_PLANAR ==> PlanarDecoder.SizeAllowed(data, dest.Width(), dest.Height())
      modifies surfaces[id].pixels
      ensures Valid()
      ensures match SurfaceBits(codec, dest, data)
              case Err(e) => r == Err(e) && View() == old(View())
              case Ok(rgba) =>
                && r == Ok(Some(id)) && |rgba| == 4 * (dest.Width() * dest.Height())
                && View() == Painted(old(View()), id, dest, rgba)
    {
      hide Blit, SurfaceBits, PlanarDecoder.SizeAllowed;
      var fb := surfaces[id];
      SurfaceBitsLength(codec, dest, data);
      var rgba := DecodeSurfaceBits(codec, dest, data);
      if rgba.Err? {
        return Err(rgba.error);
      }
      fb.BlitRgba(dest.left, dest.top, dest.Width(), dest.Height(), rgba.value);
      r := Ok(Some(id));
    }
  }

  // ----- Properties of every run -----

  /**
   A command fails exactly when it is a bitmap for an unknown surface or one that does not decode; the store is then
   untouched.
   */
  lemma ErrorsLeaveStore(st: Store, cmd: Command)
    requires st.Valid()
    ensures Applied(st, cmd).0.Err? <==>
            cmd.WireToSurface1? && (cmd.id !in st.surfaces || SurfaceBits(cmd.codec, cmd.dest, cmd.data).Err?)
    ensures Applied(st, cmd).0.Err? ==> Applied(st, cmd).1 == st
  {
    hide SurfaceBits, Painted;
  }

  /** Which error it is, and what a command that succeeds asks to present: the surface it painted, otherwise nothing. */
  lemma AppliedAnswers(st: Store, cmd: Command)
    requires st.Valid()
    ensures cmd.WireToSurface1? ==>
              Applied(st, cmd).0
              == if cmd.id !in st.surfaces then Err(Protocol(UnknownSurface))
                 else
                   match SurfaceBits(cmd.codec, cmd.dest, cmd.data)
                   case Err(e) => Err(e)
                   case Ok(_) => Ok(Some(cmd.id))
    ensures !cmd.WireToSurface1? ==> Applied(st, cmd).0 == Ok(None)
  {
    hide SurfaceBits, Painted;
  }

  /** The size given by the latest create of a surface that was not deleted since. */
  function LatestSize(cmds: seq<Command>, id: u16): Option<(u16, u16)> {
    if cmds == [] then None
    else
      var last := cmds[|cmds| - 1];
      if last.CreateSurface? && last.id == id then Some((last.width, last.height))
      else if last.DeleteSurface? && last.id == id then None
      else LatestSize(cmds[..|cmds| - 1], id)
  }

  /** The position given by the latest mapping of a surface that was not deleted since. */
  function LatestMapping(cmds: seq<Command>, id: u16): Option<(u32, u32)> {
    if cmds == [] then None
    else
      var last := cmds[|cmds| - 1];
      if last.MapSurfaceToOutput? && last.id == id then Some((last.x, last.y))
      else if last.DeleteSurface? && last.id == id then None
      else LatestMapping(cmds[..|cmds| - 1], id)
  }

  /** The bitmap decodes, is for this surface and covers the pixel. */
  ghost predicate Paints(cmd: Command, id: u16, x: nat, y: nat) {
    && cmd.WireToSurface1? && cmd.id == id && SurfaceBits(cmd.codec, cmd.dest, cmd.data).Ok?
    && Covers(cmd.dest.left, cmd.dest.top, cmd.dest.Width(), cmd.dest.Height(), x, y)
  }

  function ColorAt(cmd: Command, id: u16, x: nat, y: nat): bytes
    requires Paints(cmd, id, x, y)
  {
    SurfaceBitsLength(cmd.codec, cmd.dest, cmd.data);
    RectPixel(SurfaceBits(cmd.codec, cmd.dest, cmd.data).value, cmd.dest.Width(), cmd.dest.Height(),
              x - cmd.dest.left, y - cmd.dest.top)
  }

  /**
   The color of the latest bitmap on a pixel since its surface was created; black and transparent if there is none.
   */
  ghost function LatestColor(cmds: seq<Command>, id: u16, x: nat, y: nat): bytes {
    if cmds == [] then [0, 0, 0, 0]
    else
      var last := cmds[|cmds| - 1];
      if last.CreateSurface? && last.id == id then [0, 0, 0, 0]
      else if Paints(last, id, x, y) then ColorAt(last, id, x, y)
      else LatestColor(cmds[..|cmds| - 1], id, x, y)
  }

  /** After any commands, the surfaces are the created and not deleted ones, with the size of their latest creation. */
  lemma {:induction false} SurfacesOfRun(cmds: seq<Command>, id: u16)
    ensures var st := AppliedAll(cmds);
            && (id in st.surfaces <==> LatestSize(cmds, id).Some?)
            && (id in st.surfaces ==> (st.surfaces[id].width, st.surfaces[id].height) == LatestSize(cmds, id).value)
            && (id in st.mapped <==> LatestMapping(cmds, id).Some?)
            && (id in st.mapped ==> st.mapped[id] == LatestMapping(cmds, id).value)
    decreases |cmds|
  {
    hide SurfaceBits, Blit;
    if cmds != [] {
      SurfacesOfRun(cmds[..|cmds| - 1], id);
    }
  }

  lemma BlankPixel(width: nat, height: nat, x: nat, y: nat)
    requires x < width && y < height
    ensures Pixel(Blank(width, height), x, y) == [0, 0, 0, 0]
  {
    hide Offset;
    PixelFits(x, y, width, height);
  }

  /** One command changes a pixel of a surface only by creating the surface anew or painting the pixel. */
  lemma AppliedPixel(st: Store, cmd: Command, id: u16, x: nat, y: nat)
    requires st.Valid() && id in Applied(st, cmd).1.surfaces
    requires var img := Applied(st, cmd).1.surfaces[id]; x < img.width && y < img.height
    ensures var pixel := Pixel(Applied(st, cmd).1.surfaces[id], x, y);
            if cmd.CreateSurface? && cmd.id == id then pixel == [0, 0, 0, 0]
            else
              && id in st.surfaces && x < st.surfaces[id].width && y < st.surfaces[id].height
              && pixel == if Paints(cmd, id, x, y) then ColorAt(cmd, id, x, y) else Pixel(st.surfaces[id], x, y)
  {
    hide SurfaceBits, Blit, Pixel, RectPixel;
    if cmd.CreateSurface? && cmd.id == id {
      BlankPixel(cmd.width, cmd.height, x, y);
    } else if cmd.WireToSurface1? && cmd.id == id && SurfaceBits(cmd.codec, cmd.dest, cmd.data).Ok? {
      SurfaceBitsLength(cmd.codec, cmd.dest, cmd.data);
      BlitPixel(st.surfaces[id], cmd.dest.left, cmd.dest.top, cmd.dest.Width(), cmd.dest.Height(),
                SurfaceBits(cmd.codec, cmd.dest, cmd.data).value, x, y);
    }
  }

  /**
   The painter's law for surfaces: after any commands, every pixel has the latest color painted on it since its
   surface's creation.
   */
  lemma {:induction false} PixelsOfRun(cmds: seq<Command>, id: u16, x: nat, y: nat)
    requires id in AppliedAll(cmds).surfaces
    requires x < AppliedAll(cmds).surfaces[id].width && y < AppliedAll(cmds).surfaces[id].height
    ensures Pixel(AppliedAll(cmds).surfaces[id], x, y) == LatestColor(cmds, id, x, y)
    decreases |cmds|
  {
    hide Applied, Pixel, Paints, ColorAt;
    if cmds != [] {
      var n := |cmds| - 1;
      AppliedPixel(AppliedAll(cmds[..n]), cmds[n], id, x, y);
      if !(cmds[n].CreateSurface? && cmds[n].id == id) {
        PixelsOfRun(cmds[..n], id, x, y);
      }
    }
  }
}
