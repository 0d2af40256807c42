/** Bitmap updates: parsing rectangles, converting their pixels, and compositing them. */
module Bitmap {
  import opened Prelude
  import opened Bits
  import opened Framebuffers
  import RleOrders
  import RleBudget
  import RleDecoder
  import PlanarFormat
  import PlanarDecoder
  import PlanarInverse

  const BITMAP_COMPRESSION_BIT := 0
  const NO_BITMAP_COMPRESSION_HDR_BIT := 10

  datatype BitmapRect = BitmapRect(
    left: u16, top: u16, width: u16, height: u16, bpp: u16, compressed: bool, data: bytes)

  // ----- Parsing -----

  /** One rectangle off the front of `buf`, and the bytes after it. */
  function ParseRect(buf: bytes): Result<(BitmapRect, bytes)> {
    if |buf| < 18 then Err(Short(18, |buf|))
    else
      var flags := U16LeAt(buf, 14);
      var compressed := Bit(flags, BITMAP_COMPRESSION_BIT);
      var hasHeader := compressed && !Bit(flags, NO_BITMAP_COMPRESSION_HDR_BIT);
      var rest := buf[18..];
      if hasHeader && |rest| < 8 then Err(Short(8, |rest|))
      else
        var len := if hasHeader then U16LeAt(rest, 2) else U16LeAt(buf, 16);
        var body := if hasHeader then rest[8..] else rest;
        if |body| < len then Err(Short(len, |body|))
        else
          Ok((BitmapRect(U16LeAt(buf, 0), U16LeAt(buf, 2), U16LeAt(buf, 8), U16LeAt(buf, 10), U16LeAt(buf, 12),
            compressed, body[..len]),
              body[len..]))
  }

  function ParseRects(buf: bytes, count: nat, rects: seq<BitmapRect>): Result<seq<BitmapRect>>
    decreases count
  {
    if count == 0 then Ok(rects)
    else
      var (rect, rest) :- ParseRect(buf);
      ParseRects(rest, count - 1, rects + [rect])
  }

  function ParsedUpdate(buf: bytes): Result<seq<BitmapRect>> {
    if |buf| < 4 then Err(Short(4, |buf|)) else ParseRects(buf[4..], U16LeAt(buf, 2), [])
  }

  method ParseBitmapUpdate(data: bytes) returns (r: Result<seq<BitmapRect>>)
    ensures r == ParsedUpdate(data)
  {
    hide ParseRect;
    var buf := data;
    if |buf| < 4 {
      return Err(Short(4, |buf|));
    }
    var count := U16LeAt(buf, 2);
    buf := buf[4..];
    var rects := [];
    for i := 0 to count
      invariant ParsedUpdate(data) == ParseRects(buf, count - i, rects)
    {
      var parsed := ParseRect(buf);
      if parsed.Err? {
        return Err(parsed.error);
      }
      rects := rects + [parsed.value.0];
      buf := parsed.value.1;
    }
    r := Ok(rects);
  }

  /** The optional compression header a compressed rectangle may carry. */
  datatype Framing = Bare | Headed(firstRow: u16, scanWidth: u16, uncompressed: u16)

  ghost predicate Printable(rect: BitmapRect, framing: Framing) {
    |rect.data| < 0x1_0000 && (framing.Headed? ==> rect.compressed)
  }

  function PrintRect(rect: BitmapRect, right: u16, bottom: u16, framing: Framing): bytes
    requires Printable(rect, framing)
  {
    var flags := (if rect.compressed then 0x0001 else 0) + (if rect.compressed && framing.Bare? then 0x0400 else 0);
    U16Le(rect.left) + U16Le(rect.top) + U16Le(right) + U16Le(bottom) +
    U16Le(rect.width) + U16Le(rect.height) + U16Le(rect.bpp) + U16Le(flags) + U16Le(|rect.data|) +
    (match framing
     case Bare => []
     case Headed(f, s, u) => U16Le(f) + U16Le(|rect.data|) + U16Le(s) + U16Le(u)) +
    rect.data
  }

  lemma FlagBits()
    ensures !Bit(0, 0) && !Bit(0, 10) && Bit(0x0001, 0) && !Bit(0x0001, 10) && Bit(0x0401, 0) && Bit(0x0401, 10)
  {
    assert Bit(0x0401, 10) == Bit(0x0100, 8) == Bit(0x0040, 6) == Bit(0x0010, 4) == Bit(4, 2) == Bit(1, 0);
    assert Bit(0, 10) == Bit(0, 8) == Bit(0, 6) == Bit(0, 4) == Bit(0, 2) == Bit(0, 0);
    assert Bit(0x0001, 10) == Bit(0, 9) == Bit(0, 7) == Bit(0, 5) == Bit(0, 3) == Bit(0, 1);
  }

  /** A printed rectangle reads back with any bytes after it, in either framing. */
  lemma RectReadsBack(rect: BitmapRect, right: u16, bottom: u16, framing: Framing, rest: bytes)
    requires Printable(rect, framing)
    ensures ParseRect(PrintRect(rect, right, bottom, framing) + rest) == Ok((rect, rest))
  {
    hide Bit;
    FlagBits();
    var buf := PrintRect(rect, right, bottom, framing) + rest;
    var n := if framing.Bare? then 18 else 26;
    assert buf[n..] == rect.data + rest;
    if framing.Headed? {
      assert buf[18..][8..] == buf[26..];
    }
  }

  datatype Framed = Framed(rect: BitmapRect, right: u16, bottom: u16, framing: Framing)

  ghost predicate AllPrintable(framed: seq<Framed>) {
    forall k :: 0 <= k < |framed| ==> Printable(framed[k].rect, framed[k].framing)
  }

  function PrintRects(framed: seq<Framed>): bytes
    requires AllPrintable(framed)
  {
    if framed == [] then []
    else PrintRect(framed[0].rect, framed[0].right, framed[0].bottom, framed[0].framing) + PrintRects(framed[1..])
  }

  function RectsOf(framed: seq<Framed>): (r: seq<BitmapRect>)
    ensures |r| == |framed|
  {
    seq(|framed|, k requires 0 <= k < |framed| => framed[k].rect)
  }

  lemma {:induction false} RectsReadBack(framed: seq<Framed>, rest: bytes, before: seq<BitmapRect>)
    requires AllPrintable(framed)
    ensures ParseRects(PrintRects(framed) + rest, |framed|, before) == Ok(before + RectsOf(framed))
    decreases |framed|
  {
    hide ParseRect, PrintRect, Printable;
    if framed == [] {
      assert before + RectsOf(framed) == before;
    } else {
      var f := framed[0];
      var tail := PrintRects(framed[1..]) + rest;
      RectReadsBack(f.rect, f.right, f.bottom, f.framing, tail);
      assert PrintRects(framed) + rest == PrintRect(f.rect, f.right, f.bottom, f.framing) + tail;
      RectsReadBack(framed[1..], rest, before + [f.rect]);
      assert before + RectsOf(framed) == before + [f.rect] + RectsOf(framed[1..]);
    }
  }

  /** A whole update, whatever its update type field, reads back to its rectangles. */
  lemma UpdateReadsBack(updateType: u16, framed: seq<Framed>, rest: bytes)
    requires AllPrintable(framed) && |framed| < 0x1_0000
    ensures ParsedUpdate(U16Le(updateType) + U16Le(|framed|) + PrintRects(framed) + rest) == Ok(RectsOf(framed))
  {
    hide ParseRects, PrintRects, Printable, U16Le, U16LeAt;
    var buf := U16Le(updateType) + U16Le(|framed|) + PrintRects(framed) + rest;
    U16LeIn(buf, 2, |framed|);
    assert buf[4..] == PrintRects(framed) + rest;
    RectsReadBack(framed, rest, []);
    assert [] + RectsOf(framed) == RectsOf(framed);
  }

  /** An update or rectangle cut off names the first part it lacks: its fields, its compression header, its data. */
  lemma CutRect(buf: bytes, updateType: bytes)
    ensures |buf| < 4 ==> ParsedUpdate(buf) == Err(Short(4, |buf|))
    ensures |buf| < 18 ==> ParseRect(buf) == Err(Short(18, |buf|))
    ensures |buf| >= 18 ==>
              var flags := U16LeAt(buf, 14);
              var headed := Bit(flags, 0) && !Bit(flags, 10);
              && (headed && |buf| < 26 ==> ParseRect(buf) == Err(Short(8, |buf| - 18)))
              && (headed && |buf| >= 26 && |buf| - 26 < U16LeAt(buf, 20) ==>
                    ParseRect(buf) == Err(Short(U16LeAt(buf, 20), |buf| - 26)))
              && (!headed && |buf| - 18 < U16LeAt(buf, 16) ==>
                    ParseRect(buf) == Err(Short(U16LeAt(buf, 16), |buf| - 18)))
  {
    hide Bit;
  }

  // ----- Pixel conversion -----

  function BytesPerPixel(bpp: nat): Result<nat> {
    match bpp
    case 15 => Ok(2)
    case 16 => Ok(2)
    case 24 => Ok(3)
    case 32 => Ok(4)
    case _ => Err(Protocol(UnsupportedBitmapBpp))
  }

  /** An n-bit channel scaled to eight bits, rounded. */
  function Scale(v: nat, max: nat): (r: byte)
    requires (max == 31 || max == 63) && v <= max
    ensures r == 0 <==> v == 0
    ensures r == 0xFF <==> v == max
  {
    (v * 255 + max / 2) / max
  }

  /** One source pixel at byte offset `o` as opaque RGBA. */
  function Convert(src: bytes, o: nat, bpp: nat): (r: bytes)
    requires BytesPerPixel(bpp).Ok? && o + BytesPerPixel(bpp).value <= |src|
    ensures |r| == 4
  {
    match bpp
    case 16 =>
      var p := U16LeAt(src, o);
      [Scale(p / 0x800 % 0x20, 31), Scale(p / 0x20 % 0x40, 63), Scale(p % 0x20, 31), 0xFF]
    case 15 =>
      var p := U16LeAt(src, o);
      [Scale(p / 0x400 % 0x20, 31), Scale(p / 0x20 % 0x20, 31), Scale(p % 0x20, 31), 0xFF]
    case _ => [src[o + 2], src[o + 1], src[o], 0xFF]
  }

  /** The scaled channel is the nearest to `255 * v / max`. */
  lemma ScaleRounds(v: nat, max: nat)
    requires (max == 31 || max == 63) && v <= max
    ensures -(max as int) <= 2 * (Scale(v, max) * max - 255 * v) <= max
  {
  }

  lemma DigitsOf(hi: nat, lo: nat, base: nat)
    requires (base == 0x20 || base == 0x40) && lo < base
    ensures (base * hi + lo) / base == hi && (base * hi + lo) % base == lo
  {
    if base == 0x20 {
      assert (0x20 * hi + lo) / 0x20 == hi;
    } else {
      assert (0x40 * hi + lo) / 0x40 == hi;
    }
  }

  lemma DivTwice(p: nat)
    ensures p / 0x800 == p / 0x20 / 0x40 && p / 0x400 == p / 0x20 / 0x20
  {
  }

  lemma Unpacked(r: nat, g: nat, b: nat)
    requires r < 32 && g < 64 && b < 32
    ensures var p := 0x800 * r + 0x20 * g + b;
            p < 0x1_0000 && p / 0x800 % 0x20 == r && p / 0x20 % 0x40 == g && p % 0x20 == b
    ensures g < 32 ==>
              var p := 0x400 * r + 0x20 * g + b;
              p < 0x1_0000 && p / 0x400 % 0x20 == r && p / 0x20 % 0x20 == g && p % 0x20 == b
  {
    DigitsOf(0x40 * r + g, b, 0x20);
    DigitsOf(r, g, 0x40);
    DivTwice(0x800 * r + 0x20 * g + b);
    if g < 32 {
      DigitsOf(0x20 * r + g, b, 0x20);
      DigitsOf(r, g, 0x20);
      DivTwice(0x400 * r + 0x20 * g + b);
    }
  }

  /** Packed channels are unpacked from their own bits, in either 16-bit layout. */
  lemma PackedPixel(r: nat, g: nat, b: nat, rest: bytes)
    requires r < 32 && b < 32 && g < 64
    ensures Convert(U16Le(0x800 * r + 0x20 * g + b) + rest, 0, 16) == [Scale(r, 31), Scale(g, 63), Scale(b, 31), 0xFF]
    ensures g < 32 ==>
              Convert(U16Le(0x400 * r + 0x20 * g + b) + rest, 0, 15) == [Scale(r, 31), Scale(g, 31), Scale(b, 31), 0xFF]
  {
    hide U16Le, U16LeAt, Scale;
    Unpacked(r, g, b);
    U16LeIn(U16Le(0x800 * r + 0x20 * g + b) + rest, 0, 0x800 * r + 0x20 * g + b);
    if g < 32 {
      U16LeIn(U16Le(0x400 * r + 0x20 * g + b) + rest, 0, 0x400 * r + 0x20 * g + b);
    }
  }

  /** Of the true-color depths only blue, green and red are looked at, in this order. */
  lemma TrueColorPixel(r: byte, g: byte, b: byte, x: byte, rest: bytes)
    ensures Convert([b, g, r] + rest, 0, 24) == [r, g, b, 0xFF]
    ensures Convert([b, g, r, x] + rest, 0, 32) == [r, g, b, 0xFF]
  {
  }

  /** The white pixel of an RLE stream is white at every depth the conversion knows. */
  lemma WhiteIsWhite(bpp: nat)
    requires bpp == 15 || bpp == 16 || bpp == 24
    ensures RleOrders.PixelSize(bpp) == BytesPerPixel(bpp)
    ensures Convert(LeBytes(RleOrders.WhiteValue(bpp), BytesPerPixel(bpp).value), 0, bpp) == [0xFF, 0xFF, 0xFF, 0xFF]
  {
    hide LeBytes, Convert;
    WhiteBytes();
    PackedPixel(31, 63, 31, []);
    PackedPixel(31, 31, 31, []);
    TrueColorPixel(0xFF, 0xFF, 0xFF, 0, []);
    var two, three: bytes := U16Le(0xFFFF), [0xFF, 0xFF, 0xFF];
    assert two + [] == two && three + [] == three && U16Le(0x7FFF) + [] == U16Le(0x7FFF);
  }

  lemma WhiteBytes()
    ensures LeBytes(0x7FFF, 2) == U16Le(0x7FFF) && LeBytes(0xFFFF, 2) == U16Le(0xFFFF)
    ensures LeBytes(0xFF_FFFF, 3) == [0xFF, 0xFF, 0xFF]
  {
    assert LeBytes(0x7F, 1) == [0x7F] && LeBytes(0xFF, 1) == [0xFF];
    assert LeBytes(0xFFFF, 2) == [0xFF] + LeBytes(0xFF, 1);
    assert LeBytes(0x7FFF, 2) == [0xFF] + LeBytes(0x7F, 1);
    assert LeBytes(0xFF_FFFF, 3) == [0xFF] + LeBytes(0xFFFF, 2);
  }

  /** Where pixel (x, y) of the picture starts in a bottom-up bitmap. */
  function SourceOffset(x: nat, y: nat, width: nat, height: nat, bytesPer: nat): (o: nat)
    requires x < width && y < height
    ensures o + bytesPer <= width * bytesPer * height
  {
    PixelFits(x, height - 1 - y, width, height);
    var p := (height - 1 - y) * width + x;
    MulMonotone(p + 1, width * height, bytesPer);
    assert width * bytesPer * height == width * height * bytesPer;
    assert (p + 1) * bytesPer == p * bytesPer + bytesPer;
    MulMonotone(0, p, bytesPer);
    p * bytesPer
  }

  /** Source scanlines run bottom-up: pixel (x, y) of the picture comes from row `height - 1 - y`. */
  function FlippedPixel(pixels: bytes, width: nat, height: nat, bpp: nat, x: nat, y: nat): (r: bytes)
    requires BytesPerPixel(bpp).Ok? && x < width && y < height
    requires |pixels| >= width * BytesPerPixel(bpp).value * height
    ensures |r| == 4
  {
    Convert(pixels, SourceOffset(x, y, width, height, BytesPerPixel(bpp).value), bpp)
  }

  /** The i-th pixel of the picture, row by row. */
  function NthFlipped(pixels: bytes, width: nat, height: nat, bpp: nat, i: nat): (r: bytes)
    requires BytesPerPixel(bpp).Ok? && i < width * height
    requires |pixels| >= width * BytesPerPixel(bpp).value * height
    ensures |r| == 4
  {
    IndexIsPixel(i, width, height);
    FlippedPixel(pixels, width, height, bpp, i % width, i / width)
  }

  /** The first `n` pixels of the picture, row by row. */
  function Flipped(pixels: bytes, width: nat, height: nat, bpp: nat, n: nat): (r: bytes)
    requires BytesPerPixel(bpp).Ok? && n <= width * height
    requires |pixels| >= width * BytesPerPixel(bpp).value * height
    ensures |r| == 4 * n
  {
    if n == 0 then [] else Flipped(pixels, width, height, bpp, n - 1) + NthFlipped(pixels, width, height, bpp, n - 1)
  }

  function Rgba(pixels: bytes, width: nat, height: nat, bpp: nat): (r: Result<bytes>)
    ensures r.Ok? ==> |r.value| == 4 * (width * height)
  {
    var n :- BytesPerPixel(bpp);
    if |pixels| < width * n * height then
      assert width * n * height >= 0;
      Err(Short(width * n * height, |pixels|))
    else
      assert width * height >= 0;
      Ok(Flipped(pixels, width, height, bpp, width * height))
  }

  lemma {:induction false} FlippedAt(pixels: bytes, width: nat, height: nat, bpp: nat, n: nat, i: nat)
    requires BytesPerPixel(bpp).Ok? && i < n <= width * height
    requires |pixels| >= width * BytesPerPixel(bpp).value * height
    ensures Four(Flipped(pixels, width, height, bpp, n), 4 * i) == NthFlipped(pixels, width, height, bpp, i)
    decreases n
  {
    hide NthFlipped;
    if i < n - 1 {
      FlippedAt(pixels, width, height, bpp, n - 1, i);
    }
  }

  /** The bytes of the pixel in row `height - 1 - y` and column x of a bottom-up bitmap. */
  ghost predicate SourcePixel(pixels: bytes, width: nat, height: nat, n: nat, x: nat, y: nat, px: bytes) {
    var o := ((height - 1 - y) * width + x) * n;
    0 <= o && o + n <= |pixels| && px == pixels[o..o + n]
  }

  lemma ConvertSlice(src: bytes, o: nat, bpp: nat)
    requires BytesPerPixel(bpp).Ok? && o + BytesPerPixel(bpp).value <= |src|
    ensures Convert(src, o, bpp) == Convert(src[o..o + BytesPerPixel(bpp).value], 0, bpp)
  {
    hide Scale;
  }

  lemma FlippedIsSource(pixels: bytes, width: nat, height: nat, bpp: nat, x: nat, y: nat)
    requires BytesPerPixel(bpp).Ok? && x < width && y < height
    requires |pixels| >= width * BytesPerPixel(bpp).value * height
    ensures exists px :: SourcePixel(pixels, width, height, BytesPerPixel(bpp).value, x, y, px)
    ensures forall px :: SourcePixel(pixels, width, height, BytesPerPixel(bpp).value, x, y, px) ==>
              |px| == BytesPerPixel(bpp).value && FlippedPixel(pixels, width, height, bpp, x, y) == Convert(px, 0, bpp)
  {
    hide Convert;
    var n := BytesPerPixel(bpp).value;
    var o := SourceOffset(x, y, width, height, n);
    ConvertSlice(pixels, o, bpp);
    assert SourcePixel(pixels, width, height, n, x, y, pixels[o..o + n]);
  }

  /** Every pixel of a converted bitmap is the converted source pixel of the mirrored row. */
  lemma RgbaPixel(pixels: bytes, width: nat, height: nat, bpp: nat, x: nat, y: nat) returns (px: bytes)
    requires Rgba(pixels, width, height, bpp).Ok? && x < width && y < height
    ensures BytesPerPixel(bpp).Ok? && SourcePixel(pixels, width, height, BytesPerPixel(bpp).value, x, y, px)
    ensures |px| == BytesPerPixel(bpp).value
    ensures RectPixel(Rgba(pixels, width, height, bpp).value, width, height, x, y) == Convert(px, 0, bpp)
  {
    hide Flipped, FlippedPixel, NthFlipped, Convert, SourcePixel;
    FlippedIsSource(pixels, width, height, bpp, x, y);
    px :| SourcePixel(pixels, width, height, BytesPerPixel(bpp).value, x, y, px);
    NthIsPixel(pixels, width, height, bpp, x, y);
    FlippedAt(pixels, width, height, bpp, width * height, y * width + x);
  }

  method ToRgba(pixels: bytes, width: nat, height: nat, bpp: nat) returns (r: Result<bytes>)
    ensures r == Rgba(pixels, width, height, bpp)
  {
    hide Flipped;
    var n :- BytesPerPixel(bpp);
    var need := width * n * height;
    assert need >= 0;
    if |pixels| < need {
      return Err(Short(need, |pixels|));
    }
    var out := ConvertRows(pixels, width, height, bpp);
    r := Ok(out);
  }

  /** The first `n` pixels of the picture are in place. */
  ghost predicate ConvertedUpTo(out: array<byte>, pixels: bytes, width: nat, height: nat, bpp: nat, n: nat)
    reads out
  {
    && BytesPerPixel(bpp).Ok? && |pixels| >= width * BytesPerPixel(bpp).value * height
    && n <= width * height && out.Length == 4 * (width * height)
    && out[..4 * n] == Flipped(pixels, width, height, bpp, n)
  }

  method ConvertRows(pixels: bytes, width: nat, height: nat, bpp: nat) returns (r: bytes)
    requires BytesPerPixel(bpp).Ok? && |pixels| >= width * BytesPerPixel(bpp).value * height
    ensures width * height >= 0 && r == Flipped(pixels, width, height, bpp, width * height)
  {
    hide Flipped, BytesPerPixel, ConvertedUpTo;
    assert width * height >= 0;
    var out := new byte[4 * (width * height)](_ => 0);
    ConvertedNone(out, pixels, width, height, bpp);
    for row := 0 to height
      invariant row * width >= 0
      invariant ConvertedUpTo(out, pixels, width, height, bpp, row * width)
    {
      assert (row + 1) * width == row * width + width;
      ConvertRow(out, pixels, width, height, bpp, row, row * width);
    }
    ConvertedAll(out, pixels, width, height, bpp);
    r := out[..];
  }

  lemma ConvertedNone(out: array<byte>, pixels: bytes, width: nat, height: nat, bpp: nat)
    requires BytesPerPixel(bpp).Ok? && |pixels| >= width * BytesPerPixel(bpp).value * height
    requires out.Length == 4 * (width * height)
    ensures ConvertedUpTo(out, pixels, width, height, bpp, 0)
  {
    FlippedNone(pixels, width, height, bpp);
  }

  lemma ConvertedAll(out: array<byte>, pixels: bytes, width: nat, height: nat, bpp: nat)
    requires ConvertedUpTo(out, pixels, width, height, bpp, height * width)
    ensures BytesPerPixel(bpp).Ok? && |pixels| >= width * BytesPerPixel(bpp).value * height
    ensures width * height >= 0 && out[..] == Flipped(pixels, width, height, bpp, width * height)
  {
    hide Flipped, BytesPerPixel;
    assert height * width == width * height;
    assert out[..out.Length] == out[..];
  }

  lemma FlippedNone(pixels: bytes, width: nat, height: nat, bpp: nat)
    requires BytesPerPixel(bpp).Ok? && |pixels| >= width * BytesPerPixel(bpp).value * height
    ensures width * height >= 0 && Flipped(pixels, width, height, bpp, 0) == []
  {
  }

  lemma FlippedNext(pixels: bytes, width: nat, height: nat, bpp: nat, x: nat, y: nat, i: nat)
    requires BytesPerPixel(bpp).Ok? && x < width && y < height && i == y * width + x
    requires |pixels| >= width * BytesPerPixel(bpp).value * height
    ensures i < width * height
    ensures Flipped(pixels, width, height, bpp, i + 1)
            == Flipped(pixels, width, height, bpp, i) + FlippedPixel(pixels, width, height, bpp, x, y)
  {
    hide FlippedPixel, NthFlipped;
    IndexOfPixel(x, y, width, height);
    NthIsPixel(pixels, width, height, bpp, x, y);
  }

  lemma NthIsPixel(pixels: bytes, width: nat, height: nat, bpp: nat, x: nat, y: nat)
    requires BytesPerPixel(bpp).Ok? && x < width && y < height
    requires |pixels| >= width * BytesPerPixel(bpp).value * height
    ensures y * width + x < width * height
    ensures NthFlipped(pixels, width, height, bpp, y * width + x) == FlippedPixel(pixels, width, height, bpp, x, y)
  {
    hide FlippedPixel, BytesPerPixel;
    IndexOfPixel(x, y, width, height);
  }

  method ConvertRow(out: array<byte>, pixels: bytes, width: nat, height: nat, bpp: nat, row: nat, base: nat)
    requires row < height && base == row * width
    requires ConvertedUpTo(out, pixels, width, height, bpp, base)
    modifies out
    ensures ConvertedUpTo(out, pixels, width, height, bpp, base + width)
  {
    hide ConvertedUpTo, BytesPerPixel;
    for col := 0 to width
      invariant ConvertedUpTo(out, pixels, width, height, bpp, base + col)
    {
      ConvertPixel(out, pixels, width, height, bpp, col, row, base + col);
    }
  }

  method ConvertPixel(out: array<byte>, pixels: bytes, width: nat, height: nat, bpp: nat, col: nat, row: nat, i: nat)
    requires col < width && row < height && i == row * width + col
    requires ConvertedUpTo(out, pixels, width, height, bpp, i)
    modifies out
    ensures ConvertedUpTo(out, pixels, width, height, bpp, i + 1)
  {
    hide Flipped, Convert, BytesPerPixel, SourceOffset;
    FlippedNext(pixels, width, height, bpp, col, row, i);
    var px := Convert(pixels, SourceOffset(col, row, width, height, BytesPerPixel(bpp).value), bpp);
    PutFour(out, 4 * i, px);
  }

  method PutFour(out: array<byte>, o: nat, px: bytes)
    requires o + 4 <= out.Length && |px| == 4
    modifies out
    ensures out[..o + 4] == old(out[..o]) + px
  {
    out[o] := px[0];
    out[o + 1] := px[1];
    out[o + 2] := px[2];
    out[o + 3] := px[3];
  }

  // ----- One rectangle -----

  /** Top-down RGBA of a rectangle: planar for compressed 32 bpp, interleaved RLE for the other compressed depths. */
  function DecodedRect(rect: BitmapRect): (r: Result<bytes>) {
    if rect.compressed && rect.bpp == 32 then PlanarFormat.Decoded(rect.data, rect.width, rect.height)
    else if rect.compressed then
      var pixels :- RleOrders.Decoded(rect.data, rect.width, rect.height, rect.bpp);
      Rgba(pixels, rect.width, rect.height, rect.bpp)
    else Rgba(rect.data, rect.width, rect.height, rect.bpp)
  }

  lemma DecodedRectLength(rect: BitmapRect)
    ensures DecodedRect(rect).Ok? ==> |DecodedRect(rect).value| == 4 * (rect.width * rect.height)
  {
    hide PlanarFormat.Lossless, PlanarFormat.Lossy;
    if rect.compressed && rect.bpp == 32 {
      PlanarDecodedLength(rect.data, rect.width, rect.height);
    }
  }

  lemma PlanarDecodedLength(data: bytes, width: nat, height: nat)
    ensures PlanarFormat.Decoded(data, width, height).Ok?
            ==> |PlanarFormat.Decoded(data, width, height).value| == 4 * (width * height)
  {
    if data != [] && data[0] != 0 {
      var f := PlanarFormat.FormatOf(data[0]);
      if f.cll != 0 || f.cs {
        LossyLength(data, width, height, f);
      } else {
        LosslessLength(data, width, height, f);
      }
    } else {
      assert width * height >= 0;
    }
  }

  lemma LosslessLength(data: bytes, width: nat, height: nat, f: PlanarFormat.Format)
    ensures var r := PlanarFormat.Lossless(data, width, height, f); r.Ok? ==> |r.value| == 4 * (width * height)
  {
    var alpha := PlanarFormat.AlphaPlane(data, 1, width, height, f.hasAlpha, f.rle);
    if alpha.Ok? {
      PlanarFormat.PlaneLength(data, alpha.value.1, width, height, f.rle);
    }
  }

  lemma LossyLength(data: bytes, width: nat, height: nat, f: PlanarFormat.Format)
    ensures var r := PlanarFormat.Lossy(data, width, height, f); r.Ok? ==> |r.value| == 4 * (width * height)
  {
    assert width * height >= 0;
  }

  /** What the decoders demand: RLE must not paint past the bitmap, planar RLE needs a first row. */
  ghost predicate Safe(rect: BitmapRect) {
    rect.compressed ==>
      if rect.bpp == 32 then PlanarDecoder.SizeAllowed(rect.data, rect.width, rect.height)
      else var ps := RleOrders.PixelSize(rect.bpp);
           ps.Ok? ==> RleBudget.Budget(rect.data, 0, ps.value) <= rect.width * rect.height
  }

  function PaintRect(img: Image, rect: BitmapRect): (r: Image)
    requires img.Valid()
    ensures r.Valid() && r.width == img.width && r.height == img.height
  {
    DecodedRectLength(rect);
    match DecodedRect(rect)
    case Err(_) => img
    case Ok(rgba) => Blit(img, rect.left, rect.top, rect.width, rect.height, rgba)
  }

  /** Decode a rectangle and blit it; a rectangle that fails leaves the framebuffer alone. */
  method Apply(fb: Framebuffer, rect: BitmapRect) returns (r: Result<()>)
    requires fb.Valid() && Safe(rect)
    modifies fb.pixels
    ensures fb.View() == PaintRect(old(fb.View()), rect)
    ensures r == match DecodedRect(rect) case Ok(_) => Ok(()) case Err(e) => Err(e)
  {
    hide Blit, PlanarFormat.Decoded, RleOrders.Decoded, RleBudget.Budget, Rgba;
    DecodedRectLength(rect);
    var rgba: Result<bytes>;
    if rect.compressed && rect.bpp == 32 {
      rgba := PlanarDecoder.Decode(rect.data, rect.width, rect.height);
    } else if rect.compressed {
      var pixels := RleDecoder.Decompress(rect.data, rect.width, rect.height, rect.bpp);
      if pixels.Err? {
        return Err(pixels.error);
      }
      rgba := ToRgba(pixels.value, rect.width, rect.height, rect.bpp);
    } else {
      rgba := ToRgba(rect.data, rect.width, rect.height, rect.bpp);
    }
    if rgba.Err? {
      return Err(rgba.error);
    }
    fb.BlitRgba(rect.left, rect.top, rect.width, rect.height, rgba.value);
    r := Ok(());
  }

  /** Eight bits a pixel decode as RLE but have no conversion: such a rectangle never paints anything. */
  lemma EightBitsNeverPaint(rect: BitmapRect)
    requires rect.bpp == 8
    ensures DecodedRect(rect).Err?
  {
    hide RleOrders.Decoded;
  }

  /** The depths that convert, and what is refused otherwise. */
  lemma DepthsConvert(pixels: bytes, width: nat, height: nat, bpp: nat)
    ensures bpp !in {15, 16, 24, 32} ==> Rgba(pixels, width, height, bpp) == Err(Protocol(UnsupportedBitmapBpp))
    ensures bpp in {15, 16, 24, 32} ==>
              var need := width * (if bpp < 24 then 2 else bpp / 8) * height;
              if |pixels| < need then Rgba(pixels, width, height, bpp) == Err(Short(need, |pixels|))
              else Rgba(pixels, width, height, bpp).Ok?
  {
    hide Flipped;
  }

  // ----- Many rectangles -----

  function PaintAll(img: Image, rects: seq<BitmapRect>): (r: Image)
    requires img.Valid()
    ensures r.Valid() && r.width == img.width && r.height == img.height
  {
    if rects == [] then img else PaintRect(PaintAll(img, rects[..|rects| - 1]), rects[|rects| - 1])
  }

  lemma {:induction false} PaintAllAppend(img: Image, a: seq<BitmapRect>, b: seq<BitmapRect>)
    requires img.Valid()
    ensures PaintAll(img, a + b) == PaintAll(PaintAll(img, a), b)
    decreases |b|
  {
    hide PaintRect;
    if b == [] {
      assert a + b == a;
    } else {
      PaintAllAppend(img, a, b[..|b| - 1]);
      assert (a + b)[..|a + b| - 1] == a + b[..|b| - 1];
    }
  }

  /** The rectangle decodes and covers the pixel. */
  ghost predicate Paints(rect: BitmapRect, x: nat, y: nat) {
    DecodedRect(rect).Ok? && Covers(rect.left, rect.top, rect.width, rect.height, x, y)
  }

  /** The color a rectangle gives to a framebuffer pixel it covers. */
  function ColorAt(rect: BitmapRect, x: nat, y: nat): bytes
    requires Paints(rect, x, y)
  {
    DecodedRectLength(rect);
    RectPixel(DecodedRect(rect).value, rect.width, rect.height, x - rect.left, y - rect.top)
  }

  lemma PaintRectPixel(img: Image, rect: BitmapRect, x: nat, y: nat)
    requires img.Valid() && x < img.width && y < img.height
    ensures Pixel(PaintRect(img, rect), x, y) == if Paints(rect, x, y) then ColorAt(rect, x, y) else Pixel(img, x, y)
  {
    hide DecodedRect, Blit, Pixel, RectPixel;
    DecodedRectLength(rect);
    if DecodedRect(rect).Ok? {
      BlitPixel(img, rect.left, rect.top, rect.width, rect.height, DecodedRect(rect).value, x, y);
    }
  }

  /** The last rectangle that decodes and covers the pixel. */
  ghost function LastPainter(rects: seq<BitmapRect>, x: nat, y: nat): (k: Option<nat>)
    ensures k.Some? ==> k.value < |rects| && Paints(rects[k.value], x, y)
  {
    if rects == [] then None
    else if Paints(rects[|rects| - 1], x, y) then Some(|rects| - 1)
    else LastPainter(rects[..|rects| - 1], x, y)
  }

  /** No later rectangle paints the pixel, and none at all if there is no last painter. */
  lemma {:induction false} NoLaterPainter(rects: seq<BitmapRect>, x: nat, y: nat, j: nat)
    requires j < |rects| && (LastPainter(rects, x, y).Some? ==> LastPainter(rects, x, y).value < j)
    ensures !Paints(rects[j], x, y)
    decreases |rects|
  {
    hide Paints;
    if j < |rects| - 1 {
      NoLaterPainter(rects[..|rects| - 1], x, y, j);
    }
  }

  /**
   The painter's law: after any rectangles, a pixel has the color given it by the last of them that
   decodes and covers it, and its old color if there is none.
   */
  lemma {:induction false} LastRectWins(img: Image, rects: seq<BitmapRect>, x: nat, y: nat)
    requires img.Valid() && x < img.width && y < img.height
    ensures Pixel(PaintAll(img, rects), x, y)
            == match LastPainter(rects, x, y)
               case Some(k) => ColorAt(rects[k], x, y)
               case None => Pixel(img, x, y)
    decreases |rects|
  {
    hide Paints, ColorAt, PaintRect, Pixel;
    if rects != [] {
      var n := |rects| - 1;
      LastRectWins(img, rects[..n], x, y);
      PaintRectPixel(PaintAll(img, rects[..n]), rects[n], x, y);
    }
  }

  /** For an uncompressed or RLE rectangle the color is the converted pixel of the mirrored source row. */
  lemma ColorOfPixels(rect: BitmapRect, x: nat, y: nat) returns (px: bytes)
    requires Paints(rect, x, y) && !(rect.compressed && rect.bpp == 32)
    ensures var source := if rect.compressed then RleOrders.Decoded(rect.data, rect.width, rect.height, rect.bpp)
                          else Ok(rect.data);
            && source.Ok? && BytesPerPixel(rect.bpp).Ok? && |px| == BytesPerPixel(rect.bpp).value
            && SourcePixel(source.value, rect.width, rect.height, |px|, x - rect.left, y - rect.top, px)
    ensures ColorAt(rect, x, y) == Convert(px, 0, rect.bpp)
  {
    hide Rgba, RleOrders.Decoded, BytesPerPixel, Convert, SourcePixel;
    var source := if rect.compressed then RleOrders.Decoded(rect.data, rect.width, rect.height, rect.bpp)
                  else Ok(rect.data);
    px := RgbaPixel(source.value, rect.width, rect.height, rect.bpp, x - rect.left, y - rect.top);
  }

  /** For a planar rectangle the color is the decoder's own pixel, top row first and with its alpha. */
  lemma ColorOfPlanar(rect: BitmapRect, x: nat, y: nat)
    requires Paints(rect, x, y) && rect.compressed && rect.bpp == 32
    ensures var r, i := PlanarFormat.Decoded(rect.data, rect.width, rect.height), (y - rect.top) * rect.width
            + (x - rect.left);
            r.Ok? && 0 <= i && 4 * i + 4 <= |r.value| && ColorAt(rect, x, y) == PlanarInverse.FourAt(r.value, i)
  {
    hide PlanarFormat.Decoded;
    DecodedRectLength(rect);
    PixelFits(x - rect.left, y - rect.top, rect.width, rect.height);
  }

  /** A planar rectangle printed from coded planes has at each pixel the bytes its planes have there. */
  lemma ColorOfPlanes(rect: BitmapRect, f: PlanarFormat.Format, reserved: nat, a: bytes, p: bytes, q: bytes, s: bytes,
                      alpha: bytes, red: bytes, green: bytes, blue: bytes, x: nat, y: nat, i: nat)
    requires f.cll == 0 && !f.cs && reserved < 4 && (f.rle || !f.hasAlpha || reserved != 0)
    requires PlanarInverse.CodesStream(f, a, p, q, s, alpha, red, green, blue, rect.width, rect.height)
    requires rect.compressed && rect.bpp == 32 && rect.data == PlanarInverse.Stream(f, reserved, a, p, q, s)
    requires Covers(rect.left, rect.top, rect.width, rect.height, x, y)
    requires i == (y - rect.top) * rect.width + (x - rect.left)
    ensures Paints(rect, x, y) && i < |red| && i < |green| && i < |blue| && (f.hasAlpha ==> i < |alpha|)
    ensures ColorAt(rect, x, y) == [red[i], green[i], blue[i], if f.hasAlpha then alpha[i] else 0xFF]
  {
    hide PlanarFormat.Decoded, PlanarInverse.CodesStream, PlanarInverse.Stream, PlanarInverse.FourAt, ColorAt;
    PlanarInverse.LosslessRoundTrip(f, reserved, a, p, q, s, alpha, red, green, blue, rect.width, rect.height);
    PixelFits(x - rect.left, y - rect.top, rect.width, rect.height);
    PlanarInverse.LosslessPixel(f, reserved, a, p, q, s, alpha, red, green, blue, rect.width, rect.height, i);
    ColorOfPlanar(rect, x, y);
  }
}
