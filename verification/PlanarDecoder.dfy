/** The planar decoder: loops over plane and pixel buffers, proved against PlanarFormat. */
module PlanarDecoder {
  import opened Prelude
  import opened PlanarFormat

  /** Copy a segment's literal bytes, keeping the last one. */
  method ReadLiterals(raw: array<byte>, base: nat, x0: nat, data: bytes, pos0: nat, cRaw: nat, width: nat, last0: byte)
    returns (x: nat, pos: nat, last: byte, ok: bool)
    requires x0 <= width && base + width <= raw.Length && pos0 <= |data| && last0 == LastByte(raw[base..base + x0])
    modifies raw
    ensures raw[..base] == old(raw[..base])
    ensures ok <==> pos0 + cRaw <= |data| && x0 + cRaw <= width
    ensures ok ==> x == x0 + cRaw && pos == pos0 + cRaw
    ensures ok ==> raw[base..base + x] == old(raw[base..base + x0]) + data[pos0..pos]
    ensures ok ==> last == LastByte(raw[base..base + x])
  {
    x, pos, last, ok := x0, pos0, last0, true;
    for k := 0 to cRaw
      invariant pos == pos0 + k <= |data| && x == x0 + k <= width
      invariant raw[..base] == old(raw[..base])
      invariant raw[base..base + x] == old(raw[base..base + x0]) + data[pos0..pos]
      invariant last == LastByte(raw[base..base + x])
    {
      if pos >= |data| || x >= width {
        ok := false;
        return;
      }
      ghost var line := raw[base..base + x];
      last := data[pos];
      raw[base + x] := last;
      assert data[pos0..pos + 1] == data[pos0..pos] + [last];
      pos := pos + 1;
      x := x + 1;
      assert raw[base..base + x] == line + [last];
    }
  }

  method WriteRun(raw: array<byte>, base: nat, x0: nat, nRun: nat, width: nat, last: byte) returns (x: nat, ok: bool)
    requires x0 <= width && base + width <= raw.Length && last == LastByte(raw[base..base + x0])
    modifies raw
    ensures raw[..base] == old(raw[..base])
    ensures ok <==> x0 + nRun <= width
    ensures ok ==> x == x0 + nRun && raw[base..base + x] == old(raw[base..base + x0]) + Repeated(last, nRun)
    ensures ok ==> last == LastByte(raw[base..base + x])
  {
    x, ok := x0, true;
    for k := 0 to nRun
      invariant x == x0 + k <= width
      invariant raw[..base] == old(raw[..base])
      invariant raw[base..base + x] == old(raw[base..base + x0]) + Repeated(last, k)
    {
      if x >= width {
        ok := false;
        return;
      }
      ghost var line := raw[base..base + x];
      raw[base + x] := last;
      x := x + 1;
      RepeatedNext(last, k);
      assert raw[base..base + x] == line + [last];
    }
    LastOfRun(old(raw[base..base + x0]), last, nRun);
  }

  /** A pixel buffer row `base..base + width` filled left to right from run-length coded bytes. */
  method ReadScanline(raw: array<byte>, base: nat, data: bytes, pos0: nat, width: nat) returns (pos: nat, r: Result<()>)
    requires base + width <= raw.Length
    modifies raw
    ensures raw[..base] == old(raw[..base])
    ensures match ParseLine(data, pos0, width, [])
            case Ok((line, p)) => r.Ok? && pos == p && raw[base..base + width] == line
            case Err(e) => r == Err(e)
  {
    hide Repeated, LastByte;
    var x: nat, last: byte := 0, 0;
    assert raw[base..base + 0] == [] && LastByte([]) == 0 by {
      NoLastByte();
    }
    pos := pos0;
    while x < width
      invariant x <= width
      invariant last == LastByte(raw[base..base + x])
      invariant raw[..base] == old(raw[..base])
      invariant ParseLine(data, pos0, width, []) == ParseLine(data, pos, width, raw[base..base + x])
      decreases |data| - pos
    {
      ghost var line0 := raw[base..base + x];
      if pos >= |data| {
        return pos, Err(Short(pos + 1, |data|));
      }
      var control := data[pos];
      pos := pos + 1;
      var (cRaw, nRun) := SplitControl(control);
      ghost var p := pos;
      var ok;
      x, pos, last, ok := ReadLiterals(raw, base, x, data, pos, cRaw, width, last);
      if !ok {
        return pos, Err(Protocol(PlanarOverranScanline));
      }
      assert raw[base..base + x] == line0 + data[p..p + cRaw];
      x, ok := WriteRun(raw, base, x, nRun, width, last);
      if !ok {
        return pos, Err(Protocol(PlanarRunOverranScanline));
      }
    }
    r := Ok(());
  }

  lemma NoLastByte()
    ensures LastByte([]) == 0
  {
  }

  lemma RepeatedNext(b: byte, k: nat)
    ensures Repeated(b, k + 1) == Repeated(b, k) + [b]
  {
  }

  lemma LastOfRun(line: bytes, b: byte, n: nat)
    requires b == LastByte(line)
    ensures LastByte(line + Repeated(b, n)) == b
  {
    if n == 0 {
      assert line + Repeated(b, n) == line;
    }
  }

  lemma RowStart(y: nat, width: nat, height: nat)
    requires y < height
    ensures y * width + width == (y + 1) * width <= width * height
  {
    MulMonotone(y + 1, height, width);
  }

  /** Recover the byte grid, then undo the vertical delta row by row. */
  method DecodeRlePlane(data: bytes, cursor: nat, width: nat, height: nat) returns (pos: nat, r: Result<bytes>)
    requires height >= 1 || width == 0
    ensures match RlePlane(data, cursor, width, height)
            case Ok((plane, p)) => r == Ok(plane) && pos == p
            case Err(e) => r == Err(e)
  {
    hide ParseLine, Undelta;
    var raw := new byte[width * height](_ => 0);
    pos := cursor;
    assert raw[..0] == [];
    for y := 0 to height
      invariant y * width <= raw.Length
      invariant ParseGrid(data, cursor, width, height, []) == ParseGrid(data, pos, width, height - y, raw[..y * width])
    {
      RowStart(y, width, height);
      var line;
      pos, line := ReadScanline(raw, y * width, data, pos, width);
      if line.Err? {
        return pos, Err(line.error);
      }
      assert raw[..(y + 1) * width] == raw[..y * width] + raw[y * width..y * width + width];
    }
    assert raw[..height * width] == raw[..];
    var plane := UndoDeltas(raw[..], width, height);
    r := Ok(plane);
  }

  lemma UndeltaNext(raw: bytes, i: nat, width: nat)
    requires i < |raw|
    ensures Undelta(raw[..i + 1], width) == Undelta(raw[..i], width) + [Undone(Undelta(raw[..i], width), raw[i], width)]
  {
    hide Undelta, Undone;
    UndeltaLast(raw[..i], raw[i], width);
    assert raw[..i + 1] == raw[..i] + [raw[i]];
  }

  lemma {:induction false} FirstRowAbsolute(raw: bytes, n: nat, width: nat)
    requires n <= |raw| && n <= width
    ensures Undelta(raw[..n], width) == raw[..n]
  {
    if n == 0 {
      NothingUndone(raw, width);
    } else {
      hide Undelta;
      FirstRowAbsolute(raw, n - 1, width);
      UndeltaNext(raw, n - 1, width);
      assert raw[..n] == raw[..n - 1] + [raw[n - 1]];
    }
  }

  lemma NothingUndone(raw: bytes, width: nat)
    ensures Undelta(raw[..0], width) == raw[..0]
  {
  }

  method UndoDeltas(raw: bytes, width: nat, height: nat) returns (r: bytes)
    requires |raw| == width * height && (height >= 1 || width == 0)
    ensures r == Undelta(raw, width)
  {
    hide Undelta;
    var plane := new byte[width * height](_ => 0);
    FirstRowFits(width, height);
    forall x | 0 <= x < width {
      plane[x] := raw[x];
    }
    FirstRowAbsolute(raw, width, width);
    assert plane[..width] == raw[..width];
    var y := 1;
    while y < height
      invariant 1 <= y && (y <= height || height == 0)
      invariant y * width <= plane.Length
      invariant plane[..y * width] == Undelta(raw[..y * width], width)
    {
      RowStart(y, width, height);
      MulMonotone(1, y, width);
      UndoRow(plane, raw, y * width, width);
      y := y + 1;
    }
    if height == 0 {
      assert plane[..] == plane[..width] && raw == raw[..width];
    } else {
      assert plane[..height * width] == plane[..] && raw[..height * width] == raw;
    }
    r := plane[..];
  }

  lemma FirstRowFits(width: nat, height: nat)
    requires height >= 1 || width == 0
    ensures width <= width * height
  {
    if height >= 1 {
      MulMonotone(1, height, width);
    }
  }

  /** Row bytes `base..base + width`: the wrapping 8-bit sum of the byte above and the signed delta. */
  method UndoRow(plane: array<byte>, raw: bytes, base: nat, width: nat)
    requires width <= base && base + width <= plane.Length == |raw|
    requires plane[..base] == Undelta(raw[..base], width)
    modifies plane
    ensures plane[..base + width] == Undelta(raw[..base + width], width)
  {
    hide Undelta;
    for x := 0 to width
      invariant plane[..base + x] == Undelta(raw[..base + x], width)
    {
      var d := raw[base + x];
      var delta := Delta(d);
      var above: int := plane[base - width + x];
      UndeltaNext(raw, base + x, width);
      ghost var before := plane[..base + x];
      plane[base + x] := (above + delta) % 0x100;
      assert plane[..base + x + 1] == before + [plane[base + x]];
    }
  }

  method ReadPlane(data: bytes, cursor: nat, width: nat, height: nat, rle: bool) returns (pos: nat, r: Result<bytes>)
    requires rle ==> height >= 1 || width == 0
    ensures match Plane(data, cursor, width, height, rle)
            case Ok((plane, p)) => r == Ok(plane) && pos == p && |plane| == width * height
            case Err(e) => r == Err(e)
  {
    PlaneLength(data, cursor, width, height, rle);
    if rle {
      pos, r := DecodeRlePlane(data, cursor, width, height);
    } else {
      var need := width * height;
      if |data| < cursor + need {
        return cursor, Err(Short(cursor + need, |data|));
      }
      pos, r := cursor + need, Ok(data[cursor..cursor + need]);
    }
  }

  method ReadAlpha(data: bytes, width: nat, height: nat, hasAlpha: bool, rle: bool)
    returns (pos: nat, r: Result<Option<bytes>>)
    requires rle ==> height >= 1 || width == 0
    ensures match AlphaPlane(data, 1, width, height, hasAlpha, rle)
            case Ok((alpha, p)) => r == Ok(alpha) && pos == p && |AlphaOr(alpha, width * height)| == width * height
            case Err(e) => r == Err(e)
  {
    AlphaLength(data, 1, width, height, hasAlpha, rle);
    if !hasAlpha {
      return 1, Ok(None);
    }
    var plane;
    pos, plane := ReadPlane(data, 1, width, height, rle);
    if plane.Err? {
      return pos, Err(plane.error);
    }
    r := Ok(Some(plane.value));
  }

  lemma WeaveNext(r: bytes, g: bytes, b: bytes, a: bytes, i: nat)
    requires i < |r| == |g| == |b| == |a|
    ensures Weave(r[..i + 1], g[..i + 1], b[..i + 1], a[..i + 1])
            == Weave(r[..i], g[..i], b[..i], a[..i]) + [r[i], g[i], b[i], a[i]]
  {
    assert r[..i + 1][..i] == r[..i] && g[..i + 1][..i] == g[..i] && b[..i + 1][..i] == b[..i]
           && a[..i + 1][..i] == a[..i];
  }

  method WritePixel(rgba: array<byte>, i: nat, r: byte, g: byte, b: byte, a: byte)
    requires 4 * i + 4 <= rgba.Length
    modifies rgba
    ensures rgba[..4 * i + 4] == old(rgba[..4 * i]) + [r, g, b, a]
  {
    rgba[i * 4] := r;
    rgba[i * 4 + 1] := g;
    rgba[i * 4 + 2] := b;
    rgba[i * 4 + 3] := a;
  }

  method DecodeLossless(data: bytes, width: nat, height: nat, f: Format) returns (r: Result<bytes>)
    requires f.rle ==> height >= 1 || width == 0
    ensures r == Lossless(data, width, height, f)
  {
    hide Plane, AlphaPlane, AlphaOr, Weave;
    var p0, alpha := ReadAlpha(data, width, height, f.hasAlpha, f.rle);
    if alpha.Err? { return Err(alpha.error); }
    var p1, red := ReadPlane(data, p0, width, height, f.rle);
    if red.Err? { return Err(red.error); }
    var p2, green := ReadPlane(data, p1, width, height, f.rle);
    if green.Err? { return Err(green.error); }
    var p3, blue := ReadPlane(data, p2, width, height, f.rle);
    if blue.Err? { return Err(blue.error); }
    var rgba := WeavePlanes(red.value, green.value, blue.value, alpha.value, width * height);
    r := Ok(rgba);
  }

  method WeavePlanes(red: bytes, green: bytes, blue: bytes, alpha: Option<bytes>, n: nat) returns (r: bytes)
    requires |red| == |green| == |blue| == |AlphaOr(alpha, n)| == n
    ensures r == Weave(red, green, blue, AlphaOr(alpha, n))
  {
    hide Weave;
    var rgba := new byte[n * 4](_ => 0);
    ghost var a := AlphaOr(alpha, n);
    WeaveNone(red, green, blue, a);
    for i := 0 to n
      invariant rgba[..4 * i] == Weave(red[..i], green[..i], blue[..i], a[..i])
    {
      WeaveNext(red, green, blue, a, i);
      WritePixel(rgba, i, red[i], green[i], blue[i], if alpha.Some? then alpha.value[i] else 0xFF);
    }
    assert red[..n] == red && green[..n] == green && blue[..n] == blue && a[..n] == a;
    r := rgba[..];
  }

  lemma WeaveNone(r: bytes, g: bytes, b: bytes, a: bytes)
    requires |r| == |g| == |b| == |a|
    ensures Weave(r[..0], g[..0], b[..0], a[..0]) == []
  {
  }

  /** Upsample the chroma and run the inverse YCoCg transform, row by row. */
  method DecodeLossy(data: bytes, width: nat, height: nat, f: Format) returns (r: Result<bytes>)
    requires f.rle ==> height >= 1 || width == 0
    ensures r == Lossy(data, width, height, f)
  {
    hide Plane, AlphaPlane, AlphaOr, Weave, LossyPixels;
    var cw, ch := ChromaSize(width, f.cs), ChromaSize(height, f.cs);
    var p0, alpha := ReadAlpha(data, width, height, f.hasAlpha, f.rle);
    if alpha.Err? { return Err(alpha.error); }
    var p1, y := ReadPlane(data, p0, width, height, f.rle);
    if y.Err? { return Err(y.error); }
    var p2, co := ReadPlane(data, p1, cw, ch, f.rle);
    if co.Err? { return Err(co.error); }
    var p3, cg := ReadPlane(data, p2, cw, ch, f.rle);
    if cg.Err? { return Err(cg.error); }
    var rgba := TransformPixels(y.value, co.value, cg.value, alpha.value, width, height, f);
    r := Ok(rgba);
  }

  lemma LossyNext(y: bytes, co: bytes, cg: bytes, a: bytes, width: nat, height: nat, f: Format, i: nat)
    requires i < |y| == |a| == width * height
    requires |co| == |cg| == ChromaSize(width, f.cs) * ChromaSize(height, f.cs)
    ensures var px := LossyPixels(y, co, cg, width, height, f, i);
            var px1 := LossyPixels(y, co, cg, width, height, f, i + 1);
            var c := LossyPixel(y, co, cg, width, height, f, i);
            Weave(Reds(px1), Greens(px1), Blues(px1), a[..i + 1])
            == Weave(Reds(px), Greens(px), Blues(px), a[..i]) + [Clamp(c.r), Clamp(c.g), Clamp(c.b), a[i]]
  {
    hide LossyPixel, Clamp, Weave;
    var px := LossyPixels(y, co, cg, width, height, f, i);
    var px1 := LossyPixels(y, co, cg, width, height, f, i + 1);
    WeaveNext(Reds(px1), Greens(px1), Blues(px1), a[..i + 1], i);
    assert Reds(px1)[..i] == Reds(px) && Greens(px1)[..i] == Greens(px) && Blues(px1)[..i] == Blues(px);
    assert Reds(px1)[..i + 1] == Reds(px1) && Greens(px1)[..i + 1] == Greens(px1) && Blues(px1)[..i + 1] == Blues(px1);
    assert a[..i + 1][..i] == a[..i] && a[..i + 1][..i + 1] == a[..i + 1];
  }

  method TransformPixels(y: bytes, co: bytes, cg: bytes, alpha: Option<bytes>, width: nat, height: nat, f: Format)
    returns (r: bytes)
    requires |y| == |AlphaOr(alpha, width * height)| == width * height
    requires |co| == |cg| == ChromaSize(width, f.cs) * ChromaSize(height, f.cs)
    ensures var px := LossyPixels(y, co, cg, width, height, f, width * height);
            r == Weave(Reds(px), Greens(px), Blues(px), AlphaOr(alpha, width * height))
  {
    hide Weave, LossyPixels, Reds, Greens, Blues, AlphaOr, WovenUpTo, ChromaSize;
    var n := |y|;
    var rgba := new byte[4 * n](_ => 0);
    WovenNone(rgba, y, co, cg, AlphaOr(alpha, n), width, height, f);
    for row := 0 to height
      invariant row * width <= n
      invariant WovenUpTo(rgba, y, co, cg, AlphaOr(alpha, n), width, height, f, row * width)
    {
      RowStart(row, width, height);
      TransformRow(rgba, y, co, cg, alpha, width, height, f, row, row * width);
    }
    WovenAll(rgba, y, co, cg, AlphaOr(alpha, n), width, height, f);
    r := rgba[..];
  }

  lemma WovenAll(rgba: array<byte>, y: bytes, co: bytes, cg: bytes, a: bytes, width: nat, height: nat, f: Format)
    requires rgba.Length == 4 * |y| && WovenUpTo(rgba, y, co, cg, a, width, height, f, height * width)
    ensures |y| == |a| == width * height && |co| == |cg| == ChromaSize(width, f.cs) * ChromaSize(height, f.cs)
    ensures var px := LossyPixels(y, co, cg, width, height, f, width * height);
            rgba[..] == Weave(Reds(px), Greens(px), Blues(px), a)
  {
    hide Weave, LossyPixels, Reds, Greens, Blues, ChromaSize;
    assert height * width == |y|;
    assert a[..|y|] == a && rgba[..4 * |y|] == rgba[..];
  }

  method TransformRow(rgba: array<byte>, y: bytes, co: bytes, cg: bytes, alpha: Option<bytes>,
                      width: nat, height: nat, f: Format, row: nat, base: nat)
    requires row < height && base == row * width && base + width <= |y|
    requires 4 * |y| <= rgba.Length
    requires WovenUpTo(rgba, y, co, cg, AlphaOr(alpha, |y|), width, height, f, base)
    modifies rgba
    ensures WovenUpTo(rgba, y, co, cg, AlphaOr(alpha, |y|), width, height, f, base + width)
  {
    hide Weave, LossyPixels, LossyPixel, Reds, Greens, Blues, Chroma, FromYCoCg, Clamp;
    ghost var a := AlphaOr(alpha, |y|);
    for x := 0 to width
      invariant WovenUpTo(rgba, y, co, cg, a, width, height, f, base + x)
    {
      var i := base + x;
      LossyNext(y, co, cg, a, width, height, f, i);
      PixelAtIndex(y, co, cg, width, height, f, x, row);
      var co1 := Chroma(co, x, row, width, height, f.cs, f.cll);
      var cg1 := Chroma(cg, x, row, width, height, f.cs, f.cll);
      var c := FromYCoCg(y[i], co1, cg1);
      WritePixel(rgba, i, Clamp(c.r), Clamp(c.g), Clamp(c.b), if alpha.Some? then alpha.value[i] else 0xFF);
    }
  }

  lemma PixelAtIndex(y: bytes, co: bytes, cg: bytes, width: nat, height: nat, f: Format, x: nat, row: nat)
    requires x < width && row < height && |y| == width * height
    requires |co| == |cg| == ChromaSize(width, f.cs) * ChromaSize(height, f.cs)
    ensures row * width + x < |y|
    ensures LossyPixel(y, co, cg, width, height, f, row * width + x)
            == FromYCoCg(y[row * width + x],
                         Chroma(co, x, row, width, height, f.cs, f.cll),
                         Chroma(cg, x, row, width, height, f.cs, f.cll))
  {
    hide Chroma, FromYCoCg;
    IndexOfPixel(x, row, width, height);
  }

  ghost predicate WovenUpTo(rgba: array<byte>, y: bytes, co: bytes, cg: bytes, a: bytes, width: nat, height: nat,
                            f: Format, n: nat)
    reads rgba
  {
    && n <= |y| == |a| == width * height
    && |co| == |cg| == ChromaSize(width, f.cs) * ChromaSize(height, f.cs)
    && 4 * n <= rgba.Length
    && var px := LossyPixels(y, co, cg, width, height, f, n);
       rgba[..4 * n] == Weave(Reds(px), Greens(px), Blues(px), a[..n])
  }

  lemma WovenNone(rgba: array<byte>, y: bytes, co: bytes, cg: bytes, a: bytes, width: nat, height: nat, f: Format)
    requires |y| == |a| == width * height
    requires |co| == |cg| == ChromaSize(width, f.cs) * ChromaSize(height, f.cs)
    ensures WovenUpTo(rgba, y, co, cg, a, width, height, f, 0)
  {
  }

  method DecodeUncompressed(data: bytes, width: nat, height: nat) returns (r: Result<bytes>)
    requires data != []
    ensures r == Uncompressed(data, width, height)
  {
    var n := width * height;
    assert n >= 0;
    if |data| < 1 + n * 4 {
      return Err(Short(1 + n * 4, |data|));
    }
    var rgba := SwapPixels(data[1..1 + n * 4], n);
    r := Ok(rgba);
  }

  method SwapPixels(px: bytes, n: nat) returns (r: bytes)
    requires |px| == 4 * n
    ensures r == SwapBgra(px, n)
  {
    var rgba := new byte[n * 4](_ => 0);
    for i := 0 to n
      invariant rgba[..4 * i] == SwapBgra(px[..4 * i], i)
    {
      assert px[..4 * (i + 1)][..4 * i] == px[..4 * i];
      WritePixel(rgba, i, px[i * 4 + 2], px[i * 4 + 1], px[i * 4], px[i * 4 + 3]);
    }
    assert px[..4 * n] == px && rgba[..4 * n] == rgba[..];
    r := rgba[..];
  }

  /** Planar RLE slices the first row unconditionally: a zero-height bitmap must have zero width. */
  predicate SizeAllowed(data: bytes, width: nat, height: nat) {
    data != [] && data[0] != 0 && FormatOf(data[0]).rle ==> height >= 1 || width == 0
  }

  method Decode(data: bytes, width: nat, height: nat) returns (r: Result<bytes>)
    requires SizeAllowed(data, width, height)
    ensures r == Decoded(data, width, height)
  {
    if data == [] {
      return Err(Short(1, 0));
    }
    if data[0] == 0 {
      r := DecodeUncompressed(data, width, height);
    } else {
      var f := FormatOf(data[0]);
      if f.cll != 0 || f.cs {
        r := DecodeLossy(data, width, height, f);
      } else {
        r := DecodeLossless(data, width, height, f);
      }
    }
  }
}
