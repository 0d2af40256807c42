/**
 The RDP 6.0 planar bitmap format: what a stream means, as functions on byte sequences.
 Section 2.2.2.5.1 of [MS-RDPEGDI].
 */
module PlanarFormat {
  import opened Prelude

  // ----- Run-length coded scanlines -----

  /** The byte a run repeats: the one before it on the same scanline, zero at the start. */
  function LastByte(line: bytes): byte {
    if line == [] then 0 else line[|line| - 1]
  }

  function Repeated(b: byte, n: nat): (r: bytes)
    ensures |r| == n
  {
    seq(n, _ => b)
  }

  /** A control byte's literal count and run length: run nibbles 1 and 2 take the other nibble as run length. */
  function SplitControl(control: byte): (nat, nat) {
    var nRun, cRaw := control % 0x10, control / 0x10;
    if nRun == 1 then (0, 16 + cRaw) else if nRun == 2 then (0, 32 + cRaw) else (cRaw, nRun)
  }

  /** One scanline, `line` of which has been read: the whole line and where it ends. */
  function ParseLine(data: bytes, pos: nat, width: nat, line: bytes): Result<(bytes, nat)>
    decreases |data| - pos
  {
    if |line| >= width then Ok((line, pos))
    else if pos >= |data| then Err(Short(pos + 1, |data|))
    else
      var (cRaw, nRun) := SplitControl(data[pos]);
      var p := pos + 1;
      if p + cRaw > |data| || |line| + cRaw > width then Err(Protocol(PlanarOverranScanline))
      else
        var line := line + data[p..p + cRaw];
        if |line| + nRun > width then Err(Protocol(PlanarRunOverranScanline))
        else ParseLine(data, p + cRaw, width, line + Repeated(LastByte(line), nRun))
  }

  /** `rows` more scanlines after the bytes `raw` of the earlier ones. */
  function ParseGrid(data: bytes, pos: nat, width: nat, rows: nat, raw: bytes): Result<(bytes, nat)>
    decreases rows
  {
    if rows == 0 then Ok((raw, pos))
    else
      var (line, p) :- ParseLine(data, pos, width, []);
      ParseGrid(data, p, width, rows - 1, raw + line)
  }

  // ----- Vertical deltas -----

  /** Sign in the low bit: even bytes add their half, odd bytes subtract their half plus one. */
  function Delta(d: byte): int {
    if d % 2 == 0 then d / 2 else -(d / 2 + 1)
  }

  /**
   The byte that a delta byte adds after the plane so far: itself in the first row, later the sum with the byte above,
   modulo 256.
   */
  function Undone(plane: bytes, d: byte, width: nat): byte {
    if |plane| < width || width == 0 then d else (plane[|plane| - width] as int + Delta(d)) % 0x100
  }

  /** First row absolute, every later byte a delta against the byte `width` earlier. */
  function Undelta(raw: bytes, width: nat): (plane: bytes)
    ensures |plane| == |raw|
  {
    if raw == [] then []
    else
      var n := |raw| - 1;
      var above := Undelta(raw[..n], width);
      above + [Undone(above, raw[n], width)]
  }

  // ----- Planes -----

  function RlePlane(data: bytes, pos: nat, width: nat, height: nat): Result<(bytes, nat)> {
    var (raw, p) :- ParseGrid(data, pos, width, height, []);
    Ok((Undelta(raw, width), p))
  }

  function RawPlane(data: bytes, pos: nat, width: nat, height: nat): Result<(bytes, nat)> {
    if |data| < pos + width * height then Err(Short(pos + width * height, |data|))
    else Ok((data[pos..pos + width * height], pos + width * height))
  }

  function Plane(data: bytes, pos: nat, width: nat, height: nat, rle: bool): Result<(bytes, nat)> {
    if rle then RlePlane(data, pos, width, height) else RawPlane(data, pos, width, height)
  }

  /** The alpha plane when the header does not say it is absent. */
  function AlphaPlane(data: bytes, pos: nat, width: nat, height: nat, hasAlpha: bool,
                      rle: bool): Result<(Option<bytes>, nat)> {
    if hasAlpha then
      var (a, p) :- Plane(data, pos, width, height, rle);
      Ok((Some(a), p))
    else Ok((None, pos))
  }

  function Opaque(n: nat): (r: bytes)
    ensures |r| == n
  {
    seq(n, _ => 0xFF)
  }

  function AlphaOr(alpha: Option<bytes>, n: nat): bytes {
    if alpha.Some? then alpha.value else Opaque(n)
  }

  /** Four planes woven into RGBA pixels. */
  function Weave(r: bytes, g: bytes, b: bytes, a: bytes): (rgba: bytes)
    requires |r| == |g| == |b| == |a|
    ensures |rgba| == 4 * |r|
  {
    if r == [] then []
    else
      var n := |r| - 1;
      Weave(r[..n], g[..n], b[..n], a[..n]) + [r[n], g[n], b[n], a[n]]
  }

  // ----- Lossy color -----

  function Signed(b: byte): int {
    if b < 0x80 then b else b - 0x100
  }

  function Clamp(v: int): byte {
    if v < 0 then 0 else if v > 0xFF then 0xFF else v
  }

  function Shift(cll: nat): nat {
    if cll == 0 then 1 else 2 * Shift(cll - 1)
  }

  function CeilHalf(n: nat): nat {
    (n + 1) / 2
  }

  function ChromaSize(n: nat, cs: bool): nat {
    if cs then CeilHalf(n) else n
  }

  /** Where pixel (x, y) finds its chroma sample: nearest of a 2x2 block when subsampled. */
  function ChromaIndex(x: nat, y: nat, cw: nat, ch: nat, cs: bool): int {
    var sx, sy := if cs then x / 2 else x, if cs then y / 2 else y;
    Min(sy, ch - 1) * cw + Min(sx, cw - 1)
  }

  lemma ChromaInRange(x: nat, y: nat, width: nat, height: nat, cs: bool)
    requires x < width && y < height
    ensures var cw, ch := ChromaSize(width, cs), ChromaSize(height, cs);
            0 <= ChromaIndex(x, y, cw, ch, cs) < cw * ch
  {
    var cw, ch := ChromaSize(width, cs), ChromaSize(height, cs);
    var sx, sy := if cs then x / 2 else x, if cs then y / 2 else y;
    assert sx < cw && sy < ch;
    IndexInGrid(sx, sy, cw, ch);
  }

  lemma IndexInGrid(x: nat, y: nat, width: nat, height: nat)
    requires x < width && y < height
    ensures y * width + x < width * height
  {
    assert y * width + x < (y + 1) * width <= height * width;
  }

  /** The scaled chroma of pixel (x, y). */
  function Chroma(plane: bytes, x: nat, y: nat, width: nat, height: nat, cs: bool, cll: nat): int
    requires x < width && y < height && |plane| == ChromaSize(width, cs) * ChromaSize(height, cs)
  {
    ChromaInRange(x, y, width, height, cs);
    Signed(plane[ChromaIndex(x, y, ChromaSize(width, cs), ChromaSize(height, cs), cs)]) * Shift(cll)
  }

  datatype Rgb = Rgb(r: int, g: int, b: int)

  /** The exact linear map; the B axis is +Co and the R axis -Co. */
  function FromYCoCg(y: int, co: int, cg: int): Rgb {
    Rgb(y - co - cg, y + cg, y + co - cg)
  }

  function LossyPixel(y: bytes, co: bytes, cg: bytes, width: nat, height: nat, f: Format, i: nat): Rgb
    requires i < |y| == width * height
    requires |co| == |cg| == ChromaSize(width, f.cs) * ChromaSize(height, f.cs)
  {
    IndexIsPixel(i, width, height);
    FromYCoCg(y[i],
              Chroma(co, i % width, i / width, width, height, f.cs, f.cll),
              Chroma(cg, i % width, i / width, width, height, f.cs, f.cll))
  }

  /** The first `n` pixels, row by row. */
  function LossyPixels(y: bytes, co: bytes, cg: bytes, width: nat, height: nat, f: Format, n: nat): (r: seq<Rgb>)
    requires n <= |y| == width * height
    requires |co| == |cg| == ChromaSize(width, f.cs) * ChromaSize(height, f.cs)
    ensures |r| == n
  {
    seq(n, i requires 0 <= i < n => LossyPixel(y, co, cg, width, height, f, i))
  }

  function Reds(px: seq<Rgb>): (r: bytes)
    ensures |r| == |px|
  {
    seq(|px|, i requires 0 <= i < |px| => Clamp(px[i].r))
  }

  function Greens(px: seq<Rgb>): (r: bytes)
    ensures |r| == |px|
  {
    seq(|px|, i requires 0 <= i < |px| => Clamp(px[i].g))
  }

  function Blues(px: seq<Rgb>): (r: bytes)
    ensures |r| == |px|
  {
    seq(|px|, i requires 0 <= i < |px| => Clamp(px[i].b))
  }

  // ----- Whole bitmaps -----

  datatype Format = Format(cll: nat, cs: bool, rle: bool, hasAlpha: bool)

  /** Bits 0-2 color loss level, 3 chroma subsampling, 4 RLE, 5 no alpha; bits 6 and 7 are not looked at. */
  function FormatOf(header: byte): Format {
    Format(header % 8, header / 0x08 % 2 == 1, header / 0x10 % 2 == 1, header / 0x20 % 2 == 0)
  }

  /** Header zero: interleaved BGRA pixels, top row first. */
  function Uncompressed(data: bytes, width: nat, height: nat): Result<bytes>
    requires data != []
  {
    var n := width * height;
    if |data| < 1 + n * 4 then Err(Short(1 + n * 4, |data|))
    else Ok(SwapBgra(data[1..1 + n * 4], n))
  }

  function SwapBgra(px: bytes, n: nat): (rgba: bytes)
    requires |px| == 4 * n
    ensures |rgba| == 4 * n
  {
    if n == 0 then []
    else
      var k := 4 * n - 4;
      SwapBgra(px[..k], n - 1) + [px[k + 2], px[k + 1], px[k], px[k + 3]]
  }

  function Lossless(data: bytes, width: nat, height: nat, f: Format): Result<bytes> {
    var (alpha, p0) :- AlphaPlane(data, 1, width, height, f.hasAlpha, f.rle);
    var (red, p1) :- Plane(data, p0, width, height, f.rle);
    var (green, p2) :- Plane(data, p1, width, height, f.rle);
    var (blue, _) :- Plane(data, p2, width, height, f.rle);
    AlphaLength(data, 1, width, height, f.hasAlpha, f.rle);
    PlaneLength(data, p0, width, height, f.rle);
    PlaneLength(data, p1, width, height, f.rle);
    PlaneLength(data, p2, width, height, f.rle);
    Ok(Weave(red, green, blue, AlphaOr(alpha, width * height)))
  }

  function Lossy(data: bytes, width: nat, height: nat, f: Format): Result<bytes> {
    var cw, ch := ChromaSize(width, f.cs), ChromaSize(height, f.cs);
    var (alpha, p0) :- AlphaPlane(data, 1, width, height, f.hasAlpha, f.rle);
    var (y, p1) :- Plane(data, p0, width, height, f.rle);
    var (co, p2) :- Plane(data, p1, cw, ch, f.rle);
    var (cg, _) :- Plane(data, p2, cw, ch, f.rle);
    AlphaLength(data, 1, width, height, f.hasAlpha, f.rle);
    PlaneLength(data, p0, width, height, f.rle);
    PlaneLength(data, p1, cw, ch, f.rle);
    PlaneLength(data, p2, cw, ch, f.rle);
    var px := LossyPixels(y, co, cg, width, height, f, width * height);
    Ok(Weave(Reds(px), Greens(px), Blues(px), AlphaOr(alpha, width * height)))
  }

  function Decoded(data: bytes, width: nat, height: nat): Result<bytes> {
    if data == [] then Err(Short(1, 0))
    else if data[0] == 0 then Uncompressed(data, width, height)
    else
      var f := FormatOf(data[0]);
      if f.cll != 0 || f.cs then Lossy(data, width, height, f) else Lossless(data, width, height, f)
  }

  /** One more delta byte adds one byte to the plane. */
  lemma UndeltaLast(raw: bytes, d: byte, width: nat)
    ensures Undelta(raw + [d], width) == Undelta(raw, width) + [Undone(Undelta(raw, width), d, width)]
  {
    hide Undone;
    assert (raw + [d])[..|raw|] == raw;
  }

  // ----- Lengths -----

  lemma {:induction false} LineLength(data: bytes, pos: nat, width: nat, line: bytes)
    requires |line| <= width
    ensures var r := ParseLine(data, pos, width, line);
            r.Ok? ==>
              && |r.value.0| == width && line <= r.value.0 && pos <= r.value.1
              && (pos <= |data| ==> r.value.1 <= |data|)
    decreases |data| - pos
  {
    hide LastByte;
    if |line| < width && pos < |data| {
      var (cRaw, nRun) := SplitControl(data[pos]);
      var p := pos + 1;
      if p + cRaw <= |data| && |line| + cRaw <= width {
        var line1 := line + data[p..p + cRaw];
        if |line1| + nRun <= width {
          LineLength(data, p + cRaw, width, line1 + Repeated(LastByte(line1), nRun));
        }
      }
    }
  }

  lemma {:induction false} GridLength(data: bytes, pos: nat, width: nat, rows: nat, raw: bytes)
    ensures var r := ParseGrid(data, pos, width, rows, raw);
            r.Ok? ==> |r.value.0| == |raw| + rows * width && pos <= r.value.1 && (pos <= |data| ==> r.value.1 <= |data|)
    decreases rows
  {
    if rows > 0 {
      LineLength(data, pos, width, []);
      var line := ParseLine(data, pos, width, []);
      if line.Ok? {
        GridLength(data, line.value.1, width, rows - 1, raw + line.value.0);
        assert rows * width == (rows - 1) * width + width;
      }
    }
  }

  lemma PlaneLength(data: bytes, pos: nat, width: nat, height: nat, rle: bool)
    ensures var r := Plane(data, pos, width, height, rle);
            r.Ok? ==> |r.value.0| == width * height && pos <= r.value.1 && (pos <= |data| ==> r.value.1 <= |data|)
  {
    GridLength(data, pos, width, height, []);
    assert 0 <= width * height == height * width;
  }

  lemma AlphaLength(data: bytes, pos: nat, width: nat, height: nat, hasAlpha: bool, rle: bool)
    ensures var r := AlphaPlane(data, pos, width, height, hasAlpha, rle);
            r.Ok? ==> |AlphaOr(r.value.0, width * height)| == width * height
                      && pos <= r.value.1 && (pos <= |data| ==> r.value.1 <= |data|)
  {
    PlaneLength(data, pos, width, height, rle);
    assert 0 <= width * height;
  }
}
