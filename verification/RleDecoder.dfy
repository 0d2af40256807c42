/** The interleaved-RLE decoder: orders painted in place into the destination buffer. */
module RleDecoder {
  import opened Prelude
  import opened Bits
  import opened RleOrders
  import opened RleBudget

  // ----- Pixels in the buffer -----

  /** `|=` of a byte above everything read so far is an addition. */
  method ReadPx(buf: bytes, idx: nat, ps: nat) returns (v: nat)
    requires idx + ps <= |buf|
    ensures v == LeValue(buf[idx..idx + ps])
    ensures v < Pow256(ps)
  {
    v := 0;
    var shift: nat := 1;
    for k := 0 to ps
      invariant v == LeValue(buf[idx..idx + k])
      invariant shift == Pow256(k)
    {
      LeValueAppend(buf[idx..idx + k], buf[idx + k]);
      assert buf[idx..idx + k] + [buf[idx + k]] == buf[idx..idx + k + 1];
      v := v + buf[idx + k] * shift;
      shift := 0x100 * shift;
    }
    LeBytesOfValue(buf[idx..idx + ps]);
  }

  method WritePx(dst: array<byte>, idx: nat, val: nat, ps: nat)
    requires idx + ps <= dst.Length
    modifies dst
    ensures dst[..idx] == old(dst[..idx])
    ensures dst[idx..idx + ps] == LeBytes(val, ps)
    ensures dst[idx + ps..] == old(dst[idx + ps..])
  {
    var rest := val;
    for k := 0 to ps
      invariant dst[..idx] == old(dst[..idx])
      invariant dst[idx..idx + k] + LeBytes(rest, ps - k) == LeBytes(val, ps)
      invariant dst[idx + k..] == old(dst[idx + k..])
    {
      ghost var before := dst[idx..idx + k];
      ghost var tail := old(dst[idx + k..]);
      dst[idx + k] := rest % 0x100;
      assert dst[idx..idx + k + 1] == before + [rest % 0x100];
      assert old(dst[idx + k + 1..]) == tail[1..];
      rest := rest / 0x100;
    }
  }

  /** What a write at `d` needs: room for `n` pixels, and a scanline behind them once past the first. */
  ghost predicate Ready(dst: array<byte>, d: nat, n: nat, firstLine: bool, g: Geometry) {
    g.Valid() && d + Span(g.ps, n) <= dst.Length && (n > 0 && !firstLine ==> g.ps <= g.rowDelta <= d)
  }

  ghost predicate ReadyForOne(dst: array<byte>, d: nat, firstLine: bool, g: Geometry) {
    g.Valid() && d + g.ps <= dst.Length && (!firstLine ==> g.ps <= g.rowDelta <= d)
  }

  lemma SpanOfNone(ps: nat)
    ensures Span(ps, 0) == 0
  {
  }

  lemma SliceOfPrefix(s: bytes, d: nat, i: nat, j: nat)
    requires i <= j <= d <= |s|
    ensures s[i..j] == s[..d][i..j]
  {
  }

  /** Write `v` over the background: `v` itself on the first scanline, `above ^ v` later. */
  method BlendPx(dst: array<byte>, d: nat, v: nat, firstLine: bool, g: Geometry) returns (d': nat)
    requires ReadyForOne(dst, d, firstLine, g)
    modifies dst
    ensures d' == d + g.ps
    ensures dst[..d'] == PutCell(old(dst[..d]), Blend(v), firstLine, g)
    ensures dst[d'..] == old(dst[d'..])
  {
    hide LeValue, LeBytes, Xor, Pow256;
    var px := v;
    if firstLine {
      XorZero(v);
    } else {
      var above := ReadPx(dst[..], d - g.rowDelta, g.ps);
      SliceOfPrefix(dst[..], d, d - g.rowDelta, d - g.rowDelta + g.ps);
      assert dst[..][..d] == dst[..d];
      px := Xor(above, v);
    }
    d' := AppendPx(dst, d, px, g.ps);
  }

  /** Write a pixel right after the first `d` bytes. */
  method AppendPx(dst: array<byte>, d: nat, v: nat, ps: nat) returns (d': nat)
    requires d + ps <= dst.Length
    modifies dst
    ensures d' == d + ps
    ensures dst[..d'] == old(dst[..d]) + LeBytes(v, ps)
    ensures dst[d'..] == old(dst[d'..])
  {
    WritePx(dst, d, v, ps);
    d' := d + ps;
    assert dst[..d'] == dst[..d] + dst[d..d'];
  }

  /** Write the background: black on the first scanline, the pixel above later. */
  method CopyPx(dst: array<byte>, d: nat, firstLine: bool, g: Geometry) returns (d': nat)
    requires ReadyForOne(dst, d, firstLine, g)
    modifies dst
    ensures d' == d + g.ps
    ensures dst[..d'] == PutCell(old(dst[..d]), Blend(0), firstLine, g)
    ensures dst[d'..] == old(dst[d'..])
  {
    hide LeValue, LeBytes, Xor, Pow256;
    var px := 0;
    if !firstLine {
      px := ReadPx(dst[..], d - g.rowDelta, g.ps);
      SliceOfPrefix(dst[..], d, d - g.rowDelta, d - g.rowDelta + g.ps);
      assert dst[..][..d] == dst[..d];
    }
    XorZero(px);
    d' := AppendPx(dst, d, px, g.ps);
  }

  method PutPx(dst: array<byte>, d: nat, v: nat, ghost firstLine: bool, g: Geometry) returns (d': nat)
    requires d + g.ps <= dst.Length
    modifies dst
    ensures d' == d + g.ps
    ensures dst[..d'] == PutCell(old(dst[..d]), Put(v), firstLine, g)
    ensures dst[d'..] == old(dst[d'..])
  {
    d' := AppendPx(dst, d, v, g.ps);
  }

  lemma PaintNext(out: bytes, cells: seq<Cell>, k: nat, firstLine: bool, g: Geometry)
    requires k < |cells|
    ensures Paint(out, cells[..k + 1], firstLine, g)
            == PutCell(Paint(out, cells[..k], firstLine, g), cells[k], firstLine, g)
  {
    assert cells[..k + 1][..k] == cells[..k];
  }

  /** Room for `n` pixels, `k` of them written, leaves room for one more. */
  lemma {:induction false} RoomForOne(ps: nat, n: nat, k: nat, d: nat, length: nat)
    requires k < n && d + Span(ps, n) <= length
    ensures d + Span(ps, k) + ps <= length
    ensures Span(ps, k + 1) == Span(ps, k) + ps
  {
    SpanAdd(ps, k + 1, n - k - 1);
  }

  // ----- Orders -----

  method PaintBackground(dst: array<byte>, d0: nat, len: nat, fg: nat, insertFg: bool, firstLine: bool, g: Geometry)
    returns (d: nat)
    requires Ready(dst, d0, len, firstLine, g)
    modifies dst
    ensures d == d0 + Span(g.ps, len)
    ensures dst[..d] == Paint(old(dst[..d0]), Cells(Background(len), fg, insertFg, g), firstLine, g)
    ensures dst[d..] == old(dst[d..])
  {
    hide PutCell, Span, Paint, Pow256;
    SpanOfNone(g.ps);
    ghost var cells := Cells(Background(len), fg, insertFg, g);
    PaintNone(dst[..d0], cells, firstLine, g);
    d := d0;
    var start := 0;
    if insertFg && len > 0 {
      RoomForOne(g.ps, len, 0, d0, dst.Length);
      PaintNext(dst[..d0], cells, 0, firstLine, g);
      d := BlendPx(dst, d, fg, firstLine, g);
      start := 1;
    }
    for k := start to len
      invariant d == d0 + Span(g.ps, k) <= dst.Length
      invariant dst[..d] == Paint(old(dst[..d0]), cells[..k], firstLine, g)
      invariant dst[d..] == old(dst[d..])
    {
      RoomForOne(g.ps, len, k, d0, dst.Length);
      PaintNext(old(dst[..d0]), cells, k, firstLine, g);
      ghost var tail := dst[d..];
      d := CopyPx(dst, d, firstLine, g);
      assert dst[d..] == tail[g.ps..] == old(dst[d..]);
    }
    assert cells[..len] == cells;
  }

  method PaintForeground(dst: array<byte>, d0: nat, len: nat, fg: nat, firstLine: bool, g: Geometry) returns (d: nat)
    requires Ready(dst, d0, len, firstLine, g)
    modifies dst
    ensures d == d0 + Span(g.ps, len)
    ensures dst[..d] == Paint(old(dst[..d0]), Repeat(Blend(fg), len), firstLine, g)
    ensures dst[d..] == old(dst[d..])
  {
    hide PutCell, Span, Paint, Pow256;
    SpanOfNone(g.ps);
    ghost var cells := Repeat(Blend(fg), len);
    PaintNone(dst[..d0], cells, firstLine, g);
    d := d0;
    for k := 0 to len
      invariant d == d0 + Span(g.ps, k) <= dst.Length
      invariant dst[..d] == Paint(old(dst[..d0]), cells[..k], firstLine, g)
      invariant dst[d..] == old(dst[d..])
    {
      RoomForOne(g.ps, len, k, d0, dst.Length);
      PaintNext(old(dst[..d0]), cells, k, firstLine, g);
      ghost var tail := dst[d..];
      d := BlendPx(dst, d, fg, firstLine, g);
      assert dst[d..] == tail[g.ps..] == old(dst[d..]);
    }
    assert cells[..len] == cells;
  }

  lemma PaintPair(out: bytes, len: nat, a: nat, b: nat, k: nat, firstLine: bool, g: Geometry)
    requires k < len && a < Pow256(g.ps) && b < Pow256(g.ps)
    ensures var cells := Cells(Dithered(len, a, b), 0, false, g);
            Paint(out, cells[..2 * (k + 1)], firstLine, g)
            == PutCell(PutCell(Paint(out, cells[..2 * k], firstLine, g), Put(a), firstLine, g), Put(b), firstLine, g)
  {
    hide PutCell;
    var cells := Cells(Dithered(len, a, b), 0, false, g);
    PaintNext(out, cells, 2 * k, firstLine, g);
    PaintNext(out, cells, 2 * k + 1, firstLine, g);
    assert cells[2 * k] == Put(a) && cells[2 * k + 1] == Put(b);
  }

  /** The two pixels of one step of a dithered run. */
  method PutPair(dst: array<byte>, d: nat, a: nat, b: nat, ghost firstLine: bool, g: Geometry) returns (d': nat)
    requires d + 2 * g.ps <= dst.Length
    modifies dst
    ensures d' == d + 2 * g.ps
    ensures dst[..d'] == PutCell(PutCell(old(dst[..d]), Put(a), firstLine, g), Put(b), firstLine, g)
    ensures dst[d'..] == old(dst[d'..])
  {
    hide PutCell;
    DropTwice(dst[d..], g.ps, g.ps);
    ghost var tail := dst[d + g.ps..];
    d' := PutPx(dst, d, a, firstLine, g);
    assert dst[d'..] == tail;
    d' := PutPx(dst, d', b, firstLine, g);
    assert dst[d'..] == tail[g.ps..];
  }

  method PaintDithered(dst: array<byte>, d0: nat, len: nat, a: nat, b: nat, ghost firstLine: bool, g: Geometry)
    returns (d: nat)
    requires g.Valid() && a < Pow256(g.ps) && b < Pow256(g.ps) && d0 + Span(g.ps, 2 * len) <= dst.Length
    modifies dst
    ensures d == d0 + Span(g.ps, 2 * len)
    ensures dst[..d] == Paint(old(dst[..d0]), Cells(Dithered(len, a, b), 0, false, g), firstLine, g)
    ensures dst[d..] == old(dst[d..])
  {
    hide PutCell, Span, Paint, Pow256;
    SpanOfNone(g.ps);
    ghost var cells := Cells(Dithered(len, a, b), 0, false, g);
    PaintNone(dst[..d0], cells, firstLine, g);
    d := d0;
    for k := 0 to len
      invariant d == d0 + Span(g.ps, 2 * k) <= dst.Length
      invariant dst[..d] == Paint(old(dst[..d0]), cells[..2 * k], firstLine, g)
      invariant dst[d..] == old(dst[d..])
    {
      RoomForOne(g.ps, 2 * len, 2 * k, d0, dst.Length);
      RoomForOne(g.ps, 2 * len, 2 * k + 1, d0, dst.Length);
      PaintPair(old(dst[..d0]), len, a, b, k, firstLine, g);
      ghost var tail := dst[d..];
      d := PutPair(dst, d, a, b, firstLine, g);
      assert dst[d..] == tail[2 * g.ps..];
    }
    assert cells[..2 * len] == cells;
  }

  method PaintColor(dst: array<byte>, d0: nat, len: nat, a: nat, ghost firstLine: bool, g: Geometry) returns (d: nat)
    requires d0 + Span(g.ps, len) <= dst.Length
    modifies dst
    ensures d == d0 + Span(g.ps, len)
    ensures dst[..d] == Paint(old(dst[..d0]), Repeat(Put(a), len), firstLine, g)
    ensures dst[d..] == old(dst[d..])
  {
    hide PutCell, Span, Paint, Pow256;
    SpanOfNone(g.ps);
    ghost var cells := Repeat(Put(a), len);
    PaintNone(dst[..d0], cells, firstLine, g);
    d := d0;
    for k := 0 to len
      invariant d == d0 + Span(g.ps, k) <= dst.Length
      invariant dst[..d] == Paint(old(dst[..d0]), cells[..k], firstLine, g)
      invariant dst[d..] == old(dst[d..])
    {
      RoomForOne(g.ps, len, k, d0, dst.Length);
      PaintNext(old(dst[..d0]), cells, k, firstLine, g);
      ghost var tail := dst[d..];
      d := PutPx(dst, d, a, firstLine, g);
      assert dst[d..] == tail[g.ps..] == old(dst[d..]);
    }
    assert cells[..len] == cells;
  }

  /** Up to eight pixels of one mask byte. */
  method WriteFgBg(dst: array<byte>, d0: nat, mask: byte, fg: nat, bits: nat, firstLine: bool, g: Geometry)
    returns (d: nat)
    requires Ready(dst, d0, bits, firstLine, g)
    modifies dst
    ensures d == d0 + Span(g.ps, bits)
    ensures dst[..d] == Paint(old(dst[..d0]), MaskCells(mask, bits, fg), firstLine, g)
    ensures dst[d..] == old(dst[d..])
  {
    hide PutCell, Span;
    SpanOfNone(g.ps);
    ghost var cells := MaskCells(mask, bits, fg);
    d := d0;
    for k := 0 to bits
      invariant d == d0 + Span(g.ps, k) <= dst.Length
      invariant dst[..d] == Paint(old(dst[..d0]), cells[..k], firstLine, g)
      invariant dst[d..] == old(dst[d..])
    {
      RoomForOne(g.ps, bits, k, d0, dst.Length);
      PaintNext(old(dst[..d0]), cells, k, firstLine, g);
      ghost var tail := dst[d..];
      if Bit(mask, k) {
        d := BlendPx(dst, d, fg, firstLine, g);
      } else {
        d := CopyPx(dst, d, firstLine, g);
      }
      assert dst[d..] == tail[g.ps..] == old(dst[d..]);
    }
    assert cells[..bits] == cells;
  }

  /** The raw bytes of a color image are its pixels' cells painted one after the other. */
  lemma {:induction false} RawCellsPaintRaw(out: bytes, raw: bytes, len: nat, firstLine: bool, g: Geometry)
    requires |raw| == Span(g.ps, len)
    ensures Paint(out, RawCells(len, raw, g.ps), firstLine, g) == out + raw
    decreases len
  {
    if len == 0 {
      assert raw == [] && out + raw == out;
    } else {
      hide PutCell, Paint, RawCells, Span;
      SpanNext(g.ps, len);
      var init, last := raw[..|raw| - g.ps], raw[|raw| - g.ps..];
      RawCellsPaintRaw(out, init, len - 1, firstLine, g);
      RawCellsLast(raw, len, g.ps);
      PaintLast(out, RawCells(len - 1, init, g.ps), Put(LeValue(last)), firstLine, g);
      RawCellPaintsRaw(out + init, last, firstLine, g);
      Regroup(out, init, last);
      assert raw == init + last;
    }
  }

  lemma PaintLast(out: bytes, cells: seq<Cell>, c: Cell, firstLine: bool, g: Geometry)
    ensures Paint(out, cells + [c], firstLine, g) == PutCell(Paint(out, cells, firstLine, g), c, firstLine, g)
  {
    assert (cells + [c])[..|cells|] == cells;
  }

  lemma RawCellPaintsRaw(out: bytes, last: bytes, firstLine: bool, g: Geometry)
    requires |last| == g.ps
    ensures PutCell(out, Put(LeValue(last)), firstLine, g) == out + last
  {
    LeBytesOfValue(last);
  }

  method PaintImage(dst: array<byte>, d0: nat, raw: bytes, ghost len: nat, ghost firstLine: bool, g: Geometry)
    returns (d: nat)
    requires |raw| == Span(g.ps, len) && d0 + |raw| <= dst.Length
    modifies dst
    ensures d == d0 + |raw|
    ensures dst[..d] == Paint(old(dst[..d0]), RawCells(len, raw, g.ps), firstLine, g)
    ensures dst[d..] == old(dst[d..])
  {
    forall k | 0 <= k < |raw| {
      dst[d0 + k] := raw[k];
    }
    d := d0 + |raw|;
    RawCellsPaintRaw(old(dst[..d0]), raw, len, firstLine, g);
    assert dst[..d] == old(dst[..d0]) + raw;
  }

  lemma {:induction false} RoomForMore(ps: nat, n: nat, k: nat, m: nat, d: nat, length: nat)
    requires k + m <= n && d + Span(ps, n) <= length
    ensures d + Span(ps, k) + Span(ps, m) <= length
    ensures Span(ps, k + m) == Span(ps, k) + Span(ps, m)
  {
    SpanAdd(ps, k, m);
    SpanAdd(ps, k + m, n - k - m);
  }

  lemma MaskOfImage(len: nat, fg: nat, masks: bytes, m: nat, bits: nat)
    requires |masks| == MaskCount(len) && 8 * m < len && bits == Min(len - 8 * m, 8)
    ensures m < |masks|
    ensures ImageCells(len, fg, masks)[8 * m..8 * m + bits] == MaskCells(masks[m], bits, fg)
  {
    hide Bit;
    var cells := ImageCells(len, fg, masks);
    forall k | 0 <= k < bits
      ensures cells[8 * m..8 * m + bits][k] == MaskCells(masks[m], bits, fg)[k]
    {
      assert (8 * m + k) / 8 == m && (8 * m + k) % 8 == k;
    }
  }

  lemma PaintMask(out: bytes, len: nat, fg: nat, masks: bytes, m: nat, bits: nat, firstLine: bool, g: Geometry)
    requires |masks| == MaskCount(len) && 8 * m < len && bits == Min(len - 8 * m, 8)
    ensures m < |masks|
    ensures var cells := ImageCells(len, fg, masks);
            Paint(out, cells[..8 * m + bits], firstLine, g)
            == Paint(Paint(out, cells[..8 * m], firstLine, g), MaskCells(masks[m], bits, fg), firstLine, g)
  {
    hide Paint;
    MaskOfImage(len, fg, masks, m, bits);
    var cells := ImageCells(len, fg, masks);
    assert cells[..8 * m + bits] == cells[..8 * m] + cells[8 * m..8 * m + bits];
    PaintAppend(out, cells[..8 * m], cells[8 * m..8 * m + bits], firstLine, g);
  }

  /** Pixels of a foreground/background image that have a mask byte in the stream. */
  function MaskedPixels(len: nat, data: bytes, i: nat): nat
    requires i <= |data|
  {
    if i + MaskCount(len) <= |data| then len else 8 * (|data| - i)
  }

  lemma PaintNone(out: bytes, cells: seq<Cell>, firstLine: bool, g: Geometry)
    ensures Paint(out, cells[..0], firstLine, g) == out
  {
  }

  /** After `k` of `n` pixels the next `m` are ready. */
  lemma ReadyForMore(dst: array<byte>, d: nat, n: nat, k: nat, m: nat, firstLine: bool, g: Geometry)
    requires Ready(dst, d, n, firstLine, g) && k + m <= n
    ensures Ready(dst, d + Span(g.ps, k), m, firstLine, g)
    ensures d + Span(g.ps, k) + Span(g.ps, m) <= dst.Length && Span(g.ps, k + m) == Span(g.ps, k) + Span(g.ps, m)
  {
    hide Span;
    RoomForMore(g.ps, n, k, m, d, dst.Length);
  }

  lemma DropTwice(s: bytes, a: nat, b: nat)
    requires a + b <= |s|
    ensures s[a..][b..] == s[a + b..]
  {
  }

  /** One more mask byte: it covers `bits` more pixels and there is room for them. */
  lemma MaskProgress(len: nat, left: nat, m: nat, data: bytes, i0: nat)
    requires left <= len && i0 + m <= |data| && (left > 0 ==> len - left == 8 * m)
    ensures left > 0 ==> m < MaskCount(len)
    ensures left > 0 && i0 + m < |data| ==>
              var bits := Min(left, 8);
              && (if left - bits > 0 then len - (left - bits) == 8 * (m + 1) else m + 1 == MaskCount(len))
              && len - left + bits <= MaskedPixels(len, data, i0)
    ensures len == 0 ==> MaskCount(len) == 0
  {
  }

  /** The first `done` pixels of an image are painted, the buffer beyond them is as it was. */
  ghost predicate ImageUpTo(dst: array<byte>, d: nat, done: nat, start: bytes, d0: nat, cells: seq<Cell>,
                            firstLine: bool, g: Geometry)
    reads dst
  {
    && |start| == dst.Length && d == d0 + Span(g.ps, done) <= dst.Length && dst[d..] == start[d..]
    && (done <= |cells| ==> dst[..d] == Paint(start[..d0], cells[..done], firstLine, g))
  }

  /** The pixels of one mask byte. */
  method PaintMaskByte(dst: array<byte>, d0: nat, d: nat, mask: byte, bits: nat, fg: nat, firstLine: bool, g: Geometry,
                       ghost m: nat, ghost len: nat, ghost masks: bytes, ghost start: bytes)
    returns (d': nat)
    requires Ready(dst, d, bits, firstLine, g) && |masks| == MaskCount(len) && 8 * m < len
             && bits == Min(len - 8 * m, 8)
    requires m < |masks| ==> masks[m] == mask
    requires ImageUpTo(dst, d, 8 * m, start, d0, ImageCells(len, fg, masks), firstLine, g)
    modifies dst
    ensures ImageUpTo(dst, d', 8 * m + bits, start, d0, ImageCells(len, fg, masks), firstLine, g)
  {
    hide Span, Bit, Paint, ImageCells, MaskCells, MaskCount;
    SpanAdd(g.ps, 8 * m, bits);
    PaintMask(start[..d0], len, fg, masks, m, bits, firstLine, g);
    ghost var tail := dst[d..];
    DropTwice(start, d, Span(g.ps, bits));
    DropTwice(dst[..], d, Span(g.ps, bits));
    d' := WriteFgBg(dst, d, mask, fg, bits, firstLine, g);
    assert dst[d'..] == tail[Span(g.ps, bits)..];
  }

  method PaintMasks(dst: array<byte>, d0: nat, data: bytes, i0: nat, len: nat, fg: nat, firstLine: bool, g: Geometry)
    returns (d: nat, i: nat, r: Result<()>)
    requires i0 <= |data| && Ready(dst, d0, MaskedPixels(len, data, i0), firstLine, g)
    modifies dst
    ensures r.Ok? <==> i0 + MaskCount(len) <= |data|
    ensures r.Err? ==> r == Err(Short(|data| + 1, |data|))
    ensures d <= dst.Length && dst[d..] == old(dst[..])[d..]
    ensures r.Ok? ==> i == i0 + MaskCount(len) && d == d0 + Span(g.ps, len)
    ensures r.Ok? ==> dst[..d] == Paint(old(dst[..d0]), ImageCells(len, fg, data[i0..i]), firstLine, g)
  {
    hide ImageUpTo, Ready, Span, Bit, Paint, ImageCells, MaskCount, MaskedPixels;
    MaskProgress(len, len, 0, data, i0);
    ghost var start := dst[..];
    ghost var fits := i0 + MaskCount(len) <= |data|;
    ghost var masks := if fits then data[i0..i0 + MaskCount(len)] else MasksBegin(len, data[i0..]);
    NothingPainted(dst, d0, MaskedPixels(len, data, i0), ImageCells(len, fg, masks), firstLine, g);
    ghost var m := 0;
    d, i := d0, i0;
    var left := len;
    while left > 0
      invariant 0 <= left <= len && i == i0 + m <= |data|
      invariant if left > 0 then len - left == 8 * m else m == MaskCount(len)
      invariant d == d0 + Span(g.ps, len - left)
      invariant ImageUpTo(dst, d, len - left, start, d0, ImageCells(len, fg, masks), firstLine, g)
    {
      var bits := Min(left, 8);
      MaskProgress(len, left, m, data, i0);
      if i + 1 > |data| {
        PaintedSoFar(dst, d, len - left, start, d0, ImageCells(len, fg, masks), firstLine, g);
        return d, i, Err(Short(i + 1, |data|));
      }
      var mask := data[i];
      i := i + 1;
      ReadyForMore(dst, d0, MaskedPixels(len, data, i0), len - left, bits, firstLine, g);
      assert masks[m] == mask;
      d := PaintMaskByte(dst, d0, d, mask, bits, fg, firstLine, g, m, len, masks, start);
      PaintedSoFar(dst, d, 8 * m + bits, start, d0, ImageCells(len, fg, masks), firstLine, g);
      left := left - bits;
      m := m + 1;
    }
    PaintedSoFar(dst, d, len, start, d0, ImageCells(len, fg, masks), firstLine, g);
    r := Ok(());
    assert ImageCells(len, fg, masks)[..len] == ImageCells(len, fg, masks);
    assert start[..d0] == old(dst[..d0]);
  }

  /** The mask bytes there are, padded to the length of the image. */
  function MasksBegin(len: nat, have: bytes): (r: bytes)
    requires |have| < MaskCount(len)
    ensures |r| == MaskCount(len) && r[..|have|] == have
  {
    have + Zeros(MaskCount(len) - |have|)
  }

  lemma NothingPainted(dst: array<byte>, d0: nat, n: nat, cells: seq<Cell>, firstLine: bool, g: Geometry)
    requires Ready(dst, d0, n, firstLine, g)
    ensures d0 <= dst.Length && Span(g.ps, 0) == 0 && ImageUpTo(dst, d0, 0, dst[..], d0, cells, firstLine, g)
  {
    PaintNone(dst[..d0], cells, firstLine, g);
    assert dst[..][..d0] == dst[..d0] && dst[..][d0..] == dst[d0..];
  }

  lemma PaintedSoFar(dst: array<byte>, d: nat, done: nat, start: bytes, d0: nat, cells: seq<Cell>, firstLine: bool,
                     g: Geometry)
    requires ImageUpTo(dst, d, done, start, d0, cells, firstLine, g)
    ensures |start| == dst.Length && d == d0 + Span(g.ps, done) <= dst.Length && dst[d..] == start[d..]
    ensures done <= |cells| ==> dst[..d] == Paint(start[..d0], cells[..done], firstLine, g)
  {
  }

  /** Orders that bring their pixels with them or have them fixed; they leave the foreground alone. */
  method PaintPixels(dst: array<byte>, d0: nat, kind: Kind, len: nat, data: bytes, i0: nat, fg: nat, firstLine: bool,
                     g: Geometry)
    returns (d: nat, i: nat, r: Result<()>)
    requires kind in {DitheredRun, ColorRun, ColorImage, SpecialOne, SpecialTwo, White, Black} && i0 <= |data|
    requires match ParsePayload(kind, len, data, i0, g.ps)
             case Parsed(o, _) => WellFormed(o, g.ps) && Ready(dst, d0, PixelCount(o), firstLine, g)
             case Bad(_, painted) => Ready(dst, d0, painted, firstLine, g)
    modifies dst
    ensures r.Err? ==>
              ParsePayload(kind, len, data, i0, g.ps).Bad? && r.error == ParsePayload(kind, len, data, i0, g.ps).error
    ensures r.Ok? ==> ParsePayload(kind, len, data, i0, g.ps).Parsed?
    ensures r.Ok? ==> var o := ParsePayload(kind, len, data, i0, g.ps).order;
                      && i == ParsePayload(kind, len, data, i0, g.ps).next
                      && d == d0 + Span(g.ps, PixelCount(o)) <= dst.Length
                      && dst[..d] == Paint(old(dst[..d0]), Cells(o, fg, false, g), firstLine, g)
    ensures d <= dst.Length && dst[d..] == old(dst[..])[d..]
  {
    hide Span, Bit, Paint, Repeat, ImageCells, MaskCells, RawCells, LeValue, Pow256, MaskCount;
    d, i, r := d0, i0, Ok(());
    match kind {
      case DitheredRun =>
        if i + 2 * g.ps > |data| {
          return d, i, Err(Short(i + 2 * g.ps, |data|));
        }
        var a := ReadPx(data, i, g.ps);
        var b := ReadPx(data, i + g.ps, g.ps);
        i := i + 2 * g.ps;
        d := PaintDithered(dst, d, len, a, b, firstLine, g);
      case ColorRun =>
        if i + g.ps > |data| {
          return d, i, Err(Short(i + g.ps, |data|));
        }
        var a := ReadPx(data, i, g.ps);
        i := i + g.ps;
        d := PaintColor(dst, d, len, a, firstLine, g);
      case ColorImage =>
        var byteCount := Span(g.ps, len);
        if i + byteCount > |data| {
          return d, i, Err(Short(i + byteCount, |data|));
        }
        d := PaintImage(dst, d, data[i..i + byteCount], len, firstLine, g);
        i := i + byteCount;
      case SpecialOne =>
        d := WriteFgBg(dst, d, 0x03, fg, 8, firstLine, g);
      case SpecialTwo =>
        d := WriteFgBg(dst, d, 0x05, fg, 8, firstLine, g);
      case White =>
        d := PaintOne(dst, d, g.white, firstLine, g);
      case Black =>
        d := PaintOne(dst, d, 0, firstLine, g);
    }
  }

  /** An order's payload and pixels, once its header has been read. */
  method PaintPayload(dst: array<byte>, d0: nat, kind: Kind, len: nat, data: bytes, i0: nat,
                      fg0: nat, insertFg0: bool, firstLine: bool, g: Geometry)
    returns (d: nat, i: nat, fg: nat, insertFg: bool, r: Result<()>)
    requires i0 <= |data|
    requires match ParsePayload(kind, len, data, i0, g.ps)
             case Parsed(o, _) => WellFormed(o, g.ps) && Ready(dst, d0, PixelCount(o), firstLine, g)
             case Bad(_, painted) => Ready(dst, d0, painted, firstLine, g)
    modifies dst
    ensures r.Err? ==>
              ParsePayload(kind, len, data, i0, g.ps).Bad? && r.error == ParsePayload(kind, len, data, i0, g.ps).error
    ensures r.Ok? ==> ParsePayload(kind, len, data, i0, g.ps).Parsed?
    ensures r.Ok? ==> var o := ParsePayload(kind, len, data, i0, g.ps).order;
                      && i == ParsePayload(kind, len, data, i0, g.ps).next
                      && d == d0 + Span(g.ps, PixelCount(o)) <= dst.Length
                      && dst[..d] == Paint(old(dst[..d0]), Cells(o, fg0, insertFg0, g), firstLine, g)
                      && fg == NewForeground(o, fg0)
                      && insertFg == o.Background?
    ensures d <= dst.Length && dst[d..] == old(dst[..])[d..]
  {
    hide Span, Bit, Paint, Repeat, ImageCells, MaskCells, RawCells, LeValue, Pow256, MaskCount;
    d, i, fg, insertFg, r := d0, i0, fg0, false, Ok(());
    match kind {
      case BackgroundRun =>
        d := PaintBackground(dst, d, len, fg, insertFg0, firstLine, g);
        insertFg := true;
      case ForegroundRun =>
        d := PaintForeground(dst, d, len, fg, firstLine, g);
      case SetForegroundRun =>
        if i + g.ps > |data| {
          return d, i, fg, insertFg, Err(Short(i + g.ps, |data|));
        }
        fg := ReadPx(data, i, g.ps);
        i := i + g.ps;
        d := PaintForeground(dst, d, len, fg, firstLine, g);
      case FgBgImage =>
        d, i, r := PaintMasks(dst, d, data, i, len, fg, firstLine, g);
      case SetFgBgImage =>
        if i + g.ps > |data| {
          return d, i, fg, insertFg, Err(Short(i + g.ps, |data|));
        }
        fg := ReadPx(data, i, g.ps);
        i := i + g.ps;
        d, i, r := PaintMasks(dst, d, data, i, len, fg, firstLine, g);
      case _ =>
        d, i, r := PaintPixels(dst, d, kind, len, data, i, fg, firstLine, g);
    }
  }

  method PaintOne(dst: array<byte>, d0: nat, v: nat, ghost firstLine: bool, g: Geometry) returns (d: nat)
    requires d0 + Span(g.ps, 1) <= dst.Length
    modifies dst
    ensures d == d0 + Span(g.ps, 1)
    ensures dst[..d] == Paint(old(dst[..d0]), [Put(v)], firstLine, g)
    ensures dst[d..] == old(dst[d..])
  {
    PaintNext(dst[..d0], [Put(v)], 0, firstLine, g);
    assert Span(g.ps, 0) == 0;
    d := PutPx(dst, d0, v, firstLine, g);
  }

  // ----- The stream -----

  /** One order: the body of the decoding loop, after the end-of-first-line check. */
  method PaintOrder(dst: array<byte>, d0: nat, data: bytes, i0: nat, fg0: nat, insertFg0: bool, firstLine: bool,
                    g: Geometry)
    returns (d: nat, i: nat, fg: nat, insertFg: bool, r: Result<()>)
    requires i0 < |data| && Ready(dst, d0, OrderExtent(data, i0, g.ps).pixels, firstLine, g)
    modifies dst
    ensures r.Err? ==> ParseOrder(data, i0, g.ps).Bad? && r.error == ParseOrder(data, i0, g.ps).error
    ensures r.Ok? ==> ParseOrder(data, i0, g.ps).Parsed? && WellFormed(ParseOrder(data, i0, g.ps).order, g.ps)
    ensures r.Ok? ==> var o := ParseOrder(data, i0, g.ps).order;
                      && i == ParseOrder(data, i0, g.ps).next
                      && d == d0 + Span(g.ps, PixelCount(o)) <= dst.Length
                      && dst[..d] == Paint(old(dst[..d0]), Cells(o, fg0, insertFg0, g), firstLine, g)
                      && fg == NewForeground(o, fg0)
                      && insertFg == o.Background?
    ensures d <= dst.Length && dst[d..] == old(dst[..])[d..]
  {
    hide Span, Paint, RunLength, Cells, PixelCount, ParsePayload, OrderExtent, WellFormed, NewForeground;
    ParsedIsWellFormed(data, i0, g.ps);
    ExtentOfOrder(data, i0, g.ps);
    d, i, fg, insertFg, r := d0, i0, fg0, false, Ok(());
    var code := CodeId(data[i]);
    var kind := KindOf(code);
    if kind == None {
      return d, i, fg, insertFg, Err(Protocol(UnknownRleOrder));
    }
    var rl := RunLength(code, data[i..]);
    if rl.Err? {
      return d, i, fg, insertFg, Err(rl.error);
    }
    HeaderFits(code, data[i..]);
    var (len, hlen) := rl.value;
    i := i + hlen;
    d, i, fg, insertFg, r := PaintPayload(dst, d, kind.value, len, data, i, fg, insertFg0, firstLine, g);
  }

  ghost predicate OnlyZerosFrom(dst: array<byte>, d: nat)
    requires d <= dst.Length
    reads dst
  {
    dst[d..] == Zeros(dst.Length - d)
  }

  /** Painting an order uses up its share of the budget and leaves room for the rest. */
  lemma RoomForRest(data: bytes, i: nat, ps: nat, d: nat, length: nat)
    requires i < |data| && 1 <= ps && d + Span(ps, Budget(data, i, ps)) <= length
    ensures d + Span(ps, OrderExtent(data, i, ps).pixels) <= length
    ensures var p := ParseOrder(data, i, ps);
            p.Parsed? ==> d + Span(ps, PixelCount(p.order)) + Span(ps, Budget(data, p.next, ps)) <= length
  {
    hide ParseOrder, OrderExtent;
    var e := OrderExtent(data, i, ps);
    ExtentOfOrder(data, i, ps);
    BudgetOfExtent(data, i, ps);
    SpanAdd(ps, e.pixels, Budget(data, e.end, ps));
  }

  /** The decoding loop. */
  method DecodeStream(dst: array<byte>, data: bytes, g: Geometry) returns (r: Result<()>, ghost b: Brush)
    requires g.Valid() && Span(g.ps, Budget(data, 0, g.ps)) <= dst.Length
    requires dst.Length > 0 ==> g.ps <= g.rowDelta
    requires OnlyZerosFrom(dst, 0)
    modifies dst
    ensures Run(data, 0, Start(g), g) == if r.Ok? then Ok(b) else Err(r.error)
    ensures r.Ok? ==> |b.out| <= dst.Length && dst[..|b.out|] == b.out && OnlyZerosFrom(dst, |b.out|)
  {
    hide Run, ParseOrder, OrderExtent, Budget, WellFormed, Span, Paint, Cells, PixelCount, NewForeground;
    var i: nat, d: nat, fg: nat, insertFg, firstLine := 0, 0, g.white, false, true;
    b := Start(g);
    assert dst[..d] == [];
    while i < |data|
      invariant i <= |data| && d <= dst.Length
      invariant d + Span(g.ps, Budget(data, i, g.ps)) <= dst.Length
      invariant firstLine || g.rowDelta <= d
      invariant OnlyZerosFrom(dst, d)
      invariant b == Brush(dst[..d], fg, insertFg, firstLine)
      invariant Run(data, 0, Start(g), g) == Run(data, i, b, g)
    {
      ghost var i0 := i;
      if firstLine && d >= g.rowDelta {
        firstLine := false;
        insertFg := false;
      }
      RoomForRest(data, i, g.ps, d, dst.Length);
      SpanPositive(g.ps, OrderExtent(data, i, g.ps).pixels);
      var step;
      d, i, fg, insertFg, step := PaintOrder(dst, d, data, i, fg, insertFg, firstLine, g);
      if step.Err? {
        RunFails(data, i0, b, g);
        return Err(step.error), b;
      }
      RunStep(data, i0, b, g);
      b := ApplyOrder(b, ParseOrder(data, i0, g.ps).order, g);
    }
    RunDone(data, i, b, g);
    r := Ok(());
  }

  lemma SpanPositive(ps: nat, n: nat)
    ensures n > 0 ==> ps <= Span(ps, n)
  {
  }

  /**
   The decoder. The destination is never checked against the stream, so the caller owes it enough
   room: the stream's budget, read off its headers, must not exceed the bitmap.
   */
  method Decompress(data: bytes, width: nat, height: nat, bpp: nat) returns (r: Result<bytes>)
    requires PixelSize(bpp).Ok? ==> Budget(data, 0, PixelSize(bpp).value) <= width * height
    ensures r == Decoded(data, width, height, bpp)
  {
    hide Run, Budget, Span;
    var ps :- PixelSize(bpp);
    var g := Geometry(ps, width * ps, WhiteValue(bpp));
    var dst := new byte[g.rowDelta * height](_ => 0);
    BufferIsSpan(ps, width, height);
    SpanMonotone(ps, Budget(data, 0, ps), width * height);
    GeometryIsValid(bpp, width);
    var run, b := DecodeStream(dst, data, g);
    if run.Err? {
      return Err(run.error);
    }
    assert dst[..] == dst[..|b.out|] + dst[|b.out|..];
    r := Ok(dst[..]);
  }
}
