/**
 The meaning of an interleaved-RLE stream, order by order.

 An order is a list of cells. A cell either puts a pixel value down or blends one (XOR) with the
 pixel one scanline back, which counts as zero for an order begun on the first scanline.
 */
module RleOrders {
  import opened Prelude
  import opened Bits

  /** Pixel size, scanline size in bytes, and the white pixel of one bitmap. */
  datatype Geometry = Geometry(ps: nat, rowDelta: nat, white: nat) {
    ghost predicate Valid() {
      1 <= ps <= 3 && white < Pow256(ps) && (rowDelta == 0 || ps <= rowDelta)
    }
  }

  datatype Kind =
    | BackgroundRun | ForegroundRun | SetForegroundRun | DitheredRun | ColorRun
    | FgBgImage | SetFgBgImage | ColorImage | SpecialOne | SpecialTwo | White | Black

  datatype Order =
    | Background(len: nat)
    | Foreground(len: nat, pel: Option<nat>)
    | Dithered(len: nat, a: nat, b: nat)
    | Color(len: nat, a: nat)
    | FgBg(len: nat, pel: Option<nat>, masks: bytes)
    | Image(len: nat, raw: bytes)
    | Special(mask: byte)
    | WhitePixel
    | BlackPixel

  datatype Parse = Parsed(order: Order, next: nat) | Bad(error: Error, painted: nat)

  /** Bytes of `n` pixels: `n * ps`, as a sum so that no proof multiplies. */
  function Span(ps: nat, n: nat): nat {
    if n == 0 then 0 else Span(ps, n - 1) + ps
  }

  lemma {:induction false} SpanIsProduct(ps: nat, n: nat)
    ensures Span(ps, n) == n * ps
  {
    if n > 0 {
      SpanIsProduct(ps, n - 1);
    }
  }

  // ----- Headers -----

  function PixelSize(bpp: nat): Result<nat> {
    match bpp
    case 8 => Ok(1)
    case 15 => Ok(2)
    case 16 => Ok(2)
    case 24 => Ok(3)
    case _ => Err(Protocol(UnsupportedRleBpp))
  }

  function WhiteValue(bpp: nat): nat {
    match bpp
    case 15 => 0x7FFF
    case 16 => 0xFFFF
    case 24 => 0xFF_FFFF
    case _ => 0xFF
  }

  /** Top two bits not both set: three-bit code. Top nibble F: the whole byte. Otherwise the top nibble. */
  function CodeId(hdr: byte): byte {
    if hdr < 0xC0 then hdr / 0x20 else if hdr >= 0xF0 then hdr else hdr / 0x10
  }

  function KindOf(code: byte): Option<Kind> {
    match code
    case 0x0 => Some(BackgroundRun)
    case 0xF0 => Some(BackgroundRun)
    case 0x1 => Some(ForegroundRun)
    case 0xF1 => Some(ForegroundRun)
    case 0xC => Some(SetForegroundRun)
    case 0xF6 => Some(SetForegroundRun)
    case 0xE => Some(DitheredRun)
    case 0xF8 => Some(DitheredRun)
    case 0x3 => Some(ColorRun)
    case 0xF3 => Some(ColorRun)
    case 0x2 => Some(FgBgImage)
    case 0xF2 => Some(FgBgImage)
    case 0xD => Some(SetFgBgImage)
    case 0xF7 => Some(SetFgBgImage)
    case 0x4 => Some(ColorImage)
    case 0xF4 => Some(ColorImage)
    case 0xF9 => Some(SpecialOne)
    case 0xFA => Some(SpecialTwo)
    case 0xFD => Some(White)
    case 0xFE => Some(Black)
    case _ => None
  }

  /** (run length, header byte count) for an order at the front of `src`. */
  function RunLength(code: byte, src: bytes): Result<(nat, nat)>
    requires src != []
  {
    var b0 := src[0];
    if code == 0x2 then Extended(b0 % 0x20, 8, 1, src)
    else if code == 0xD then Extended(b0 % 0x10, 8, 1, src)
    else if code == 0x0 || code == 0x1 || code == 0x3 || code == 0x4 then Extended(b0 % 0x20, 1, 32, src)
    else if code == 0xC || code == 0xE then Extended(b0 % 0x10, 1, 16, src)
    else if 0xF0 <= code <= 0xF8 then
      if |src| < 3 then Err(Short(3, |src|)) else Ok((U16LeAt(src, 1), 3))
    else Ok((0, 1))
  }

  /** Length `r` units in the header byte, or, when that is zero, a second byte plus `base`. */
  function Extended(r: nat, unit: nat, base: nat, src: bytes): Result<(nat, nat)> {
    if r != 0 then Ok((r * unit, 1))
    else if |src| < 2 then Err(Short(2, |src|))
    else Ok((src[1] as int + base, 2))
  }

  // ----- Orders -----

  function MaskCount(len: nat): nat {
    (len + 7) / 8
  }

  function ParseOrder(data: bytes, i: nat, ps: nat): Parse
    requires i < |data|
  {
    var code := CodeId(data[i]);
    match KindOf(code)
    case None => Bad(Protocol(UnknownRleOrder), 0)
    case Some(kind) =>
      match RunLength(code, data[i..])
      case Err(e) => Bad(e, 0)
      case Ok((len, hlen)) => ParsePayload(kind, len, data, i + hlen, ps)
  }

  function ParsePayload(kind: Kind, len: nat, data: bytes, j: nat, ps: nat): Parse {
    match kind
    case BackgroundRun => Parsed(Background(len), j)
    case ForegroundRun => Parsed(Foreground(len, None), j)
    case SetForegroundRun =>
      if j + ps > |data| then Bad(Short(j + ps, |data|), 0)
      else Parsed(Foreground(len, Some(LeValue(data[j..j + ps]))), j + ps)
    case DitheredRun =>
      if j + 2 * ps > |data| then Bad(Short(j + 2 * ps, |data|), 0)
      else Parsed(Dithered(len, LeValue(data[j..j + ps]), LeValue(data[j + ps..j + 2 * ps])), j + 2 * ps)
    case ColorRun =>
      if j + ps > |data| then Bad(Short(j + ps, |data|), 0)
      else Parsed(Color(len, LeValue(data[j..j + ps])), j + ps)
    case FgBgImage => ParseMasks(len, None, data, j)
    case SetFgBgImage =>
      if j + ps > |data| then Bad(Short(j + ps, |data|), 0)
      else ParseMasks(len, Some(LeValue(data[j..j + ps])), data, j + ps)
    case ColorImage =>
      if j + Span(ps, len) > |data| then Bad(Short(j + Span(ps, len), |data|), 0)
      else Parsed(Image(len, data[j..j + Span(ps, len)]), j + Span(ps, len))
    case SpecialOne => Parsed(Special(0x03), j)
    case SpecialTwo => Parsed(Special(0x05), j)
    case White => Parsed(WhitePixel, j)
    case Black => Parsed(BlackPixel, j)
  }

  /** Mask bytes are fetched one by one, so a truncated image paints the masks it has before failing. */
  function ParseMasks(len: nat, pel: Option<nat>, data: bytes, j: nat): Parse {
    if j + MaskCount(len) <= |data| then
      Parsed(FgBg(len, pel, data[j..j + MaskCount(len)]), j + MaskCount(len))
    else
      Bad(Short(|data| + 1, |data|), if j <= |data| then 8 * (|data| - j) else 0)
  }

  // ----- Cells -----

  datatype Cell = Put(v: nat) | Blend(v: nat)

  function Repeat(c: Cell, n: nat): (r: seq<Cell>)
    ensures |r| == n
  {
    seq(n, _ => c)
  }

  function PelOr(pel: Option<nat>, fg: nat): nat {
    if pel.Some? then pel.value else fg
  }

  /** One mask byte: a set bit blends the foreground, a clear bit copies the pixel above. */
  function MaskCells(mask: byte, bits: nat, fg: nat): (r: seq<Cell>)
    ensures |r| == bits
  {
    seq(bits, k requires 0 <= k < bits => Blend(if Bit(mask, k) then fg else 0))
  }

  function ImageCells(len: nat, fg: nat, masks: bytes): (r: seq<Cell>)
    requires |masks| == MaskCount(len)
    ensures |r| == len
  {
    seq(len, k requires 0 <= k < len => Blend(if Bit(masks[k / 8], k % 8) then fg else 0))
  }

  ghost predicate WellFormed(o: Order, ps: nat) {
    match o
    case Foreground(_, pel) => pel.Some? ==> pel.value < Pow256(ps)
    case Dithered(_, a, b) => a < Pow256(ps) && b < Pow256(ps)
    case Color(_, a) => a < Pow256(ps)
    case FgBg(len, pel, masks) => |masks| == MaskCount(len) && (pel.Some? ==> pel.value < Pow256(ps))
    case Image(len, raw) => |raw| == Span(ps, len)
    case Special(mask) => mask == 0x03 || mask == 0x05
    case _ => true
  }

  function PixelCount(o: Order): nat {
    match o
    case Background(len) => len
    case Foreground(len, _) => len
    case Dithered(len, _, _) => 2 * len
    case Color(len, _) => len
    case FgBg(len, _, _) => len
    case Image(len, _) => len
    case Special(_) => 8
    case WhitePixel => 1
    case BlackPixel => 1
  }

  /** One cell for each pixel of a raw image. */
  function RawCells(len: nat, raw: bytes, ps: nat): (r: seq<Cell>)
    requires |raw| == Span(ps, len)
    ensures |r| == len
  {
    if len == 0 then []
    else RawCells(len - 1, raw[..|raw| - ps], ps) + [Put(LeValue(raw[|raw| - ps..]))]
  }

  function Cells(o: Order, fg: nat, insertFg: bool, g: Geometry): (r: seq<Cell>)
    requires WellFormed(o, g.ps)
    ensures |r| == PixelCount(o)
  {
    match o
    case Background(len) =>
      if insertFg && len > 0 then [Blend(fg)] + Repeat(Blend(0), len - 1) else Repeat(Blend(0), len)
    case Foreground(len, pel) => Repeat(Blend(PelOr(pel, fg)), len)
    case Dithered(len, a, b) => seq(2 * len, k requires 0 <= k < 2 * len => Put(if k % 2 == 0 then a else b))
    case Color(len, a) => Repeat(Put(a), len)
    case FgBg(len, pel, masks) => ImageCells(len, PelOr(pel, fg), masks)
    case Image(len, raw) => RawCells(len, raw, g.ps)
    case Special(mask) => MaskCells(mask, 8, fg)
    case WhitePixel => [Put(g.white)]
    case BlackPixel => [Put(0)]
  }

  // ----- Painting -----

  /** The pixel one scanline back from the end of `out`; zero on the first scanline. */
  function Above(out: bytes, firstLine: bool, g: Geometry): nat {
    if firstLine || g.rowDelta < g.ps || |out| < g.rowDelta then 0
    else LeValue(out[|out| - g.rowDelta..|out| - g.rowDelta + g.ps])
  }

  function CellValue(out: bytes, c: Cell, firstLine: bool, g: Geometry): nat {
    match c
    case Put(v) => v
    case Blend(v) => Xor(Above(out, firstLine, g), v)
  }

  function PutCell(out: bytes, c: Cell, firstLine: bool, g: Geometry): (r: bytes)
    ensures |r| == |out| + g.ps
  {
    out + LeBytes(CellValue(out, c, firstLine, g), g.ps)
  }

  function Paint(out: bytes, cells: seq<Cell>, firstLine: bool, g: Geometry): bytes {
    if cells == [] then out
    else PutCell(Paint(out, cells[..|cells| - 1], firstLine, g), cells[|cells| - 1], firstLine, g)
  }

  /** What the decoder carries from order to order. */
  datatype Brush = Brush(out: bytes, fg: nat, insertFg: bool, firstLine: bool)

  /** Leaving the first scanline happens only between orders and forgets a pending insertion. */
  function BeginOrder(b: Brush, g: Geometry): Brush {
    if b.firstLine && |b.out| >= g.rowDelta then b.(firstLine := false, insertFg := false) else b
  }

  function NewForeground(o: Order, fg: nat): nat {
    match o
    case Foreground(_, pel) => PelOr(pel, fg)
    case FgBg(_, pel, _) => PelOr(pel, fg)
    case _ => fg
  }

  function ApplyOrder(b: Brush, o: Order, g: Geometry): Brush
    requires WellFormed(o, g.ps)
  {
    var b := BeginOrder(b, g);
    Brush(Paint(b.out, Cells(o, b.fg, b.insertFg, g), b.firstLine, g), NewForeground(o, b.fg), o.Background?,
      b.firstLine)
  }

  /** The whole stream from offset `i`. */
  function Run(data: bytes, i: nat, b: Brush, g: Geometry): Result<Brush>
    requires 1 <= g.ps
    decreases |data| - i
  {
    if i >= |data| then Ok(b)
    else
      ParsedIsWellFormed(data, i, g.ps);
      match ParseOrder(data, i, g.ps)
      case Bad(e, _) => Err(e)
      case Parsed(o, next) => Run(data, next, ApplyOrder(b, o, g), g)
  }

  function Start(g: Geometry): Brush {
    Brush([], g.white, false, true)
  }

  /** Decoded bitmap: the pixels painted, then zeros up to `width * height` pixels. */
  function Decoded(data: bytes, width: nat, height: nat, bpp: nat): Result<bytes> {
    match PixelSize(bpp)
    case Err(e) => Err(e)
    case Ok(ps) =>
      var g := Geometry(ps, width * ps, WhiteValue(bpp));
      match Run(data, 0, Start(g), g)
      case Err(e) => Err(e)
      case Ok(b) => Ok(PadTo(b.out, width * ps * height))
  }

  function PadTo(out: bytes, n: nat): (r: bytes)
    ensures |r| == n
  {
    if |out| <= n then out + Zeros(n - |out|) else out[..n]
  }

  // ----- Facts about orders -----

  lemma HeaderFits(code: byte, src: bytes)
    requires src != [] && RunLength(code, src).Ok?
    ensures 1 <= RunLength(code, src).value.1 <= |src|
  {
  }

  lemma MasksWellFormed(len: nat, pel: Option<nat>, data: bytes, j: nat, ps: nat)
    requires j <= |data| && (pel.Some? ==> pel.value < Pow256(ps))
    ensures var p := ParseMasks(len, pel, data, j);
            p.Parsed? ==> j <= p.next <= |data| && WellFormed(p.order, ps)
  {
  }

  lemma PayloadWellFormed(kind: Kind, len: nat, data: bytes, j: nat, ps: nat)
    requires j <= |data| && 1 <= ps
    ensures var p := ParsePayload(kind, len, data, j, ps);
            p.Parsed? ==> j <= p.next <= |data| && WellFormed(p.order, ps)
  {
    if j + ps <= |data| {
      LeBytesOfValue(data[j..j + ps]);
    }
    match kind {
      case DitheredRun =>
        if j + 2 * ps <= |data| {
          LeBytesOfValue(data[j + ps..j + 2 * ps]);
        }
      case FgBgImage => MasksWellFormed(len, None, data, j, ps);
      case SetFgBgImage =>
        if j + ps <= |data| {
          MasksWellFormed(len, Some(LeValue(data[j..j + ps])), data, j + ps, ps);
        }
      case _ =>
    }
  }

  /** Every order consumes at least its header byte and stays inside the stream. */
  lemma ParsedIsWellFormed(data: bytes, i: nat, ps: nat)
    requires i < |data| && 1 <= ps
    ensures var p := ParseOrder(data, i, ps);
            p.Parsed? ==> i < p.next <= |data| && WellFormed(p.order, ps)
  {
    var code := CodeId(data[i]);
    if KindOf(code).Some? && RunLength(code, data[i..]).Ok? {
      HeaderFits(code, data[i..]);
      var (len, hlen) := RunLength(code, data[i..]).value;
      PayloadWellFormed(KindOf(code).value, len, data, i + hlen, ps);
    }
  }
}
