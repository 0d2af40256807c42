/**
 A reference encoder for interleaved RLE and the proof that the decoder undoes it.

 The first scanline goes out as raw color images. Every later pixel is described by its XOR against
 the pixel above: background runs where that is zero, set-foreground runs where it repeats, and
 set-foreground mask images where it alternates with zero.
 */
module RleEncoder {
  import opened Prelude
  import opened Bits
  import opened RleOrders
  import opened RleBudget
  import opened RlePrinter

  // ----- Pixels and their bytes -----

  ghost predicate PixelsFit(px: seq<nat>, ps: nat) {
    forall k :: 0 <= k < |px| ==> px[k] < Pow256(ps)
  }

  function Flat(px: seq<nat>, ps: nat): (r: bytes)
    ensures |r| == Span(ps, |px|)
  {
    if px == [] then [] else Flat(px[..|px| - 1], ps) + LeBytes(px[|px| - 1], ps)
  }

  function Pixels(buf: bytes, ps: nat, n: nat): (px: seq<nat>)
    requires |buf| == Span(ps, n)
    ensures |px| == n
    decreases n
  {
    if n == 0 then [] else Pixels(buf[..|buf| - ps], ps, n - 1) + [LeValue(buf[|buf| - ps..])]
  }

  /** Every buffer of whole pixels is the bytes of its pixels. */
  lemma {:induction false} FlatOfPixels(buf: bytes, ps: nat, n: nat)
    requires |buf| == Span(ps, n)
    ensures Flat(Pixels(buf, ps, n), ps) == buf && PixelsFit(Pixels(buf, ps, n), ps)
    decreases n
  {
    hide LeValue, LeBytes, Pow256, Flat;
    if n == 0 {
      FlatOfNone(ps);
    } else {
      var init, last := buf[..|buf| - ps], buf[|buf| - ps..];
      FlatOfPixels(init, ps, n - 1);
      LeBytesOfValue(last);
      FlatNext(Pixels(init, ps, n - 1), LeValue(last), ps);
      assert buf == init + last;
    }
  }

  lemma FlatNext(a: seq<nat>, v: nat, ps: nat)
    ensures Flat(a + [v], ps) == Flat(a, ps) + LeBytes(v, ps)
  {
    hide LeBytes, Span;
    assert (a + [v])[..|a|] == a;
  }

  lemma {:induction false} FlatAppend(a: seq<nat>, b: seq<nat>, ps: nat)
    ensures Flat(a + b, ps) == Flat(a, ps) + Flat(b, ps)
    decreases |b|
  {
    hide LeBytes, Span, Flat;
    if b == [] {
      assert a + b == a;
      FlatOfNone(ps);
    } else {
      var init, last := b[..|b| - 1], b[|b| - 1];
      FlatAppend(a, init, ps);
      FlatNext(a + init, last, ps);
      FlatNext(init, last, ps);
      assert b == init + [last];
      Regroup(a, init, [last]);
      Regroup(Flat(a, ps), Flat(init, ps), LeBytes(last, ps));
    }
  }

  lemma PixelInFlat(px: seq<nat>, ps: nat, k: nat)
    requires k < |px| && PixelsFit(px, ps)
    ensures Span(ps, k) + ps <= |Flat(px, ps)|
    ensures LeValue(Flat(px, ps)[Span(ps, k)..Span(ps, k) + ps]) == px[k]
  {
    hide LeValue, LeBytes, Pow256;
    var before, after := px[..k], px[k + 1..];
    assert px == before + [px[k]] + after;
    FlatAppend(before + [px[k]], after, ps);
    FlatAppend(before, [px[k]], ps);
    assert [px[k]][..0] == [];
    assert Flat([px[k]], ps) == LeBytes(px[k], ps);
    LeValueOfBytes(px[k], ps);
    assert Flat(px, ps)[Span(ps, k)..Span(ps, k) + ps] == LeBytes(px[k], ps);
  }

  // ----- Painting pixel by pixel -----

  /** The value of a cell given the pixels so far. */
  function PixelOf(px: seq<nat>, c: Cell, firstLine: bool, width: nat): nat {
    match c
    case Put(v) => v
    case Blend(v) => Xor(if firstLine || width == 0 || |px| < width then 0 else px[|px| - width], v)
  }

  /** The cells paint pixels `n..n + |cells|` of the image `px`. */
  ghost predicate Draws(px: seq<nat>, n: nat, cells: seq<Cell>, firstLine: bool, width: nat) {
    n + |cells| <= |px| &&
    forall k :: 0 <= k < |cells| ==> PixelOf(px[..n + k], cells[k], firstLine, width) == px[n + k]
  }

  lemma SpanBounds(ps: nat, n: nat)
    ensures Span(ps, 0) == 0 && (n > 0 ==> Span(ps, n) >= ps)
  {
  }

  lemma AboveInFlat(px: seq<nat>, firstLine: bool, width: nat, g: Geometry)
    requires PixelsFit(px, g.ps) && g.rowDelta == Span(g.ps, width) && 1 <= g.ps
    ensures Above(Flat(px, g.ps), firstLine, g)
            == if firstLine || width == 0 || |px| < width then 0 else px[|px| - width]
  {
    hide LeValue, LeBytes, Pow256, Flat, Span, PixelsFit;
    SpanBounds(g.ps, width);
    if width > 0 {
      if |px| >= width {
        SpanAdd(g.ps, |px| - width, width);
        PixelInFlat(px, g.ps, |px| - width);
      } else {
        SpanAdd(g.ps, |px|, width - |px|);
        SpanBounds(g.ps, width - |px|);
      }
    }
  }

  /** Drawing pixels one after the other paints their bytes. */
  lemma {:induction false} DrawnCellsPaint(px: seq<nat>, n: nat, cells: seq<Cell>, firstLine: bool, width: nat,
                                           g: Geometry)
    requires Draws(px, n, cells, firstLine, width) && PixelsFit(px, g.ps)
    requires g.rowDelta == Span(g.ps, width) && 1 <= g.ps
    ensures Paint(Flat(px[..n], g.ps), cells, firstLine, g) == Flat(px[..n + |cells|], g.ps)
    decreases |cells|
  {
    hide LeValue, LeBytes, Pow256, Span, Flat, Above, PixelsFit;
    if cells != [] {
      var m := |cells| - 1;
      DrawnCellsPaint(px, n, cells[..m], firstLine, width, g);
      PixelsFitBefore(px, n + m, g.ps);
      AboveInFlat(px[..n + m], firstLine, width, g);
      FlatNext(px[..n + m], px[n + m], g.ps);
      assert px[..n + |cells|] == px[..n + m] + [px[n + m]];
    }
  }

  lemma PixelsFitBefore(px: seq<nat>, n: nat, ps: nat)
    requires n <= |px| && PixelsFit(px, ps)
    ensures PixelsFit(px[..n], ps)
  {
  }

  // ----- Adjacent background runs -----

  lemma BlendDiffers(out: bytes, fg: nat, firstLine: bool, g: Geometry)
    requires fg < Pow256(g.ps)
    ensures PutCell(out, Blend(fg), firstLine, g) == PutCell(out, Blend(0), firstLine, g) <==> fg == 0
  {
    var above := Above(out, firstLine, g);
    assert above < Pow256(g.ps) by {
      if g.ps <= g.rowDelta <= |out| {
        LeBytesOfValue(out[|out| - g.rowDelta..|out| - g.rowDelta + g.ps]);
      }
    }
    XorWithin(above, fg, g.ps);
    XorZero(above);
    XorSelf(above);
    XorCancel(above, fg);
    LeValueOfBytes(above, g.ps);
    LeValueOfBytes(Xor(above, fg), g.ps);
    if PutCell(out, Blend(fg), firstLine, g) == PutCell(out, Blend(0), firstLine, g) {
      assert PutCell(out, Blend(fg), firstLine, g)[|out|..] == LeBytes(Xor(above, fg), g.ps);
      assert PutCell(out, Blend(0), firstLine, g)[|out|..] == LeBytes(above, g.ps);
    }
  }

  lemma PaintHeadThenTail(out: bytes, c: Cell, tail: seq<Cell>, firstLine: bool, g: Geometry)
    ensures Paint(out, [c] + tail, firstLine, g) == Paint(PutCell(out, c, firstLine, g), tail, firstLine, g)
  {
    hide PutCell;
    PaintAppend(out, [c], tail, firstLine, g);
    assert [c][..0] == [];
  }

  /** A run that starts with a foreground pixel paints what one without it paints exactly if the foreground is zero. */
  lemma InsertionShows(out: bytes, fg: nat, n: nat, firstLine: bool, g: Geometry)
    requires fg < Pow256(g.ps) && n > 0
    ensures Paint(out, [Blend(fg)] + Repeat(Blend(0), n - 1), firstLine, g)
            == Paint(out, Repeat(Blend(0), n), firstLine, g)
            <==> fg == 0
  {
    hide PutCell, Paint;
    var tail := Repeat(Blend(0), n - 1);
    assert Repeat(Blend(0), n) == [Blend(0)] + tail;
    PaintHeadThenTail(out, Blend(fg), tail, firstLine, g);
    PaintHeadThenTail(out, Blend(0), tail, firstLine, g);
    BlendDiffers(out, fg, firstLine, g);
    var x, y := PutCell(out, Blend(fg), firstLine, g), PutCell(out, Blend(0), firstLine, g);
    PaintPrefix(x, tail, firstLine, g);
    PaintPrefix(y, tail, firstLine, g);
    if x != y {
      assert Paint(x, tail, firstLine, g)[..|x|] != Paint(y, tail, firstLine, g)[..|x|];
    }
  }

  lemma {:induction false} ZeroRun(out: bytes, n: nat, g: Geometry)
    ensures Paint(out, Repeat(Blend(0), n), true, g) == out + Zeros(Span(g.ps, n))
  {
    hide LeBytes, Xor;
    if n > 0 {
      ZeroRun(out, n - 1, g);
      assert Repeat(Blend(0), n)[..n - 1] == Repeat(Blend(0), n - 1);
      XorZero(0);
      ZeroBytes(g.ps);
    }
  }

  lemma {:induction false} ZeroBytes(ps: nat)
    ensures LeBytes(0, ps) == Zeros(ps)
  {
    if ps > 0 {
      ZeroBytes(ps - 1);
    }
  }

  /** Past the first scanline a background run copies the bytes one scanline back. */
  lemma {:induction false} CopyRun(out: bytes, n: nat, g: Geometry)
    requires g.ps <= g.rowDelta <= |out|
    ensures var r := Paint(out, Repeat(Blend(0), n), false, g);
            && |r| == |out| + Span(g.ps, n) && r[..|out|] == out
            && (forall k :: |out| <= k < |r| ==> r[k] == r[k - g.rowDelta])
  {
    hide PutCell;
    if n > 0 {
      CopyRun(out, n - 1, g);
      assert Repeat(Blend(0), n)[..n - 1] == Repeat(Blend(0), n - 1);
      CopyCell(Paint(out, Repeat(Blend(0), n - 1), false, g), g);
    }
  }

  lemma CopyCell(r: bytes, g: Geometry)
    requires g.ps <= g.rowDelta <= |r|
    ensures PutCell(r, Blend(0), false, g) == r + r[|r| - g.rowDelta..|r| - g.rowDelta + g.ps]
  {
    hide LeBytes, LeValue, Xor;
    var above := r[|r| - g.rowDelta..|r| - g.rowDelta + g.ps];
    XorZero(LeValue(above));
    LeBytesOfValue(above);
  }

  /** The first `n` pixels of the last scanline painted, or all of it, are zero. */
  ghost predicate ZeroAbove(out: bytes, n: nat, g: Geometry)
    requires g.rowDelta <= |out|
  {
    forall k :: |out| - g.rowDelta <= k < |out| && k < |out| - g.rowDelta + Span(g.ps, n) ==> out[k] == 0
  }

  /** A run past the first scanline paints zeros exactly if it finds zeros above. */
  lemma CopiesZeros(out: bytes, n: nat, g: Geometry)
    requires 1 <= g.ps <= g.rowDelta <= |out|
    ensures Paint(out, Repeat(Blend(0), n), false, g) == Paint(out, Repeat(Blend(0), n), true, g)
            <==> ZeroAbove(out, n, g)
  {
    hide Paint, Span;
    CopyRun(out, n, g);
    ZeroRun(out, n, g);
    var r := Paint(out, Repeat(Blend(0), n), false, g);
    if ZeroAbove(out, n, g) {
      CopiedZeros(r, |out|, g.rowDelta, |r|);
      assert r == out + Zeros(Span(g.ps, n));
    }
    if r == out + Zeros(Span(g.ps, n)) {
      forall k | |out| - g.rowDelta <= k < |out| && k < |out| - g.rowDelta + Span(g.ps, n)
        ensures out[k] == 0
      {
        assert out[k] == r[..|out|][k] == r[k + g.rowDelta];
      }
    }
  }

  lemma {:induction false} CopiedZeros(r: bytes, start: nat, row: nat, end: nat)
    requires 0 < row <= start <= end <= |r| && (forall k :: start <= k < |r| ==> r[k] == r[k - row])
    requires forall k :: start - row <= k < start && k < end - row ==> r[k] == 0
    ensures forall k :: start <= k < end ==> r[k] == 0
    decreases end
  {
    if start < end {
      CopiedZeros(r, start, row, end - 1);
      assert r[end - 1] == r[end - 1 - row];
    }
  }

  lemma RunCells(m: nat, n: nat, fg: nat, insertFg: bool, g: Geometry)
    requires m > 0 || !insertFg
    ensures Cells(Background(m + n), fg, insertFg, g) == Cells(Background(m), fg, insertFg, g) + Repeat(Blend(0), n)
  {
  }

  /**
   When two adjacent background runs are one longer run. If the first of them finishes the first scanline, the
   second forgets its inserted pixel and copies that scanline, which the longer run would not: it must be zero as
   far as it is copied. Otherwise the second inserts a foreground pixel, which must be zero, unless the first run
   is empty and the longer one inserts that pixel too.
   */
  lemma AdjacentBackgroundRuns(b: Brush, m: nat, n: nat, g: Geometry)
    requires b.fg < Pow256(g.ps) && g.Valid() && n > 0
    ensures var one := ApplyOrder(b, Background(m), g);
            ApplyOrder(one, Background(n), g).out == ApplyOrder(b, Background(m + n), g).out
            <==> if one.firstLine && |one.out| >= g.rowDelta then ZeroAbove(one.out, n, g)
                 else b.fg == 0 || (m == 0 && BeginOrder(b, g).insertFg)
  {
    hide PutCell, Paint, Cells, ZeroAbove;
    var b' := BeginOrder(b, g);
    var one := ApplyOrder(b, Background(m), g);
    SecondRun(one, n, g);
    if m == 0 && b'.insertFg {
      NoCells(b', g);
    } else {
      RunCells(m, n, b.fg, b'.insertFg, g);
      PaintAppend(b'.out, Cells(Background(m), b.fg, b'.insertFg, g), Repeat(Blend(0), n), b'.firstLine, g);
      if one.firstLine && |one.out| >= g.rowDelta {
        CopiesZeros(one.out, n, g);
      } else {
        InsertionShows(one.out, b.fg, n, b'.firstLine, g);
      }
    }
  }

  /** After an empty run the cells of the next are its own. */
  lemma NoCells(b: Brush, g: Geometry)
    ensures Paint(b.out, Cells(Background(0), b.fg, b.insertFg, g), b.firstLine, g) == b.out
  {
  }

  lemma SecondRun(one: Brush, n: nat, g: Geometry)
    requires one.insertFg && n > 0
    ensures ApplyOrder(one, Background(n), g).out
            == if one.firstLine && |one.out| >= g.rowDelta then Paint(one.out, Repeat(Blend(0), n), false, g)
               else Paint(one.out, [Blend(one.fg)] + Repeat(Blend(0), n - 1), one.firstLine, g)
  {
    hide Paint;
  }

  // ----- The encoder -----

  const MAX_RUN := 0xFFFF

  /** XOR of pixel `n` against the pixel above it. */
  function Diff(px: seq<nat>, width: nat, n: nat): nat
    requires width <= n < |px|
  {
    Xor(px[n - width], px[n])
  }

  /** How many pixels from `n` on, at most `cap`, differ from the row above by exactly `x`. */
  function RunOf(px: seq<nat>, width: nat, n: nat, x: nat, cap: nat): (len: nat)
    requires width <= n <= |px|
    ensures len <= cap && n + len <= |px|
    ensures forall m :: n <= m < n + len ==> Diff(px, width, m) == x
    decreases cap
  {
    if cap == 0 || n == |px| || Diff(px, width, n) != x then 0
    else 1 + RunOf(px, width, n + 1, x, cap - 1)
  }

  /** Which of the pixels from `n` on, at most `cap`, differ by `x`; stops at any third difference. */
  function Marks(px: seq<nat>, width: nat, n: nat, x: nat, cap: nat): (marks: seq<bool>)
    requires width <= n <= |px|
    ensures |marks| <= cap && n + |marks| <= |px|
    ensures forall m :: n <= m < n + |marks| ==> Diff(px, width, m) == if marks[m - n] then x else 0
    decreases cap
  {
    if cap == 0 || n == |px| || (Diff(px, width, n) != x && Diff(px, width, n) != 0) then []
    else [Diff(px, width, n) == x] + Marks(px, width, n + 1, x, cap - 1)
  }

  /** Bit `k` of the mask is `marks[k]`. */
  function MaskOf(marks: seq<bool>): nat {
    if marks == [] then 0 else (if marks[0] then 1 else 0) + 2 * MaskOf(marks[1..])
  }

  lemma {:induction false} MaskBelow(marks: seq<bool>)
    ensures MaskOf(marks) < Pow2(|marks|)
  {
    if marks != [] {
      MaskBelow(marks[1..]);
    }
  }

  lemma MaskIsByte(marks: seq<bool>)
    requires |marks| <= 8
    ensures MaskOf(marks) < 0x100
  {
    MaskBelow(marks);
    Pow2Monotone(|marks|, 8);
    assert Pow2(4) == 16 && Pow2(6) == 64 && Pow2(8) == 0x100;
  }

  lemma {:induction false} Pow2Monotone(m: nat, n: nat)
    requires m <= n
    ensures Pow2(m) <= Pow2(n)
  {
    if m < n {
      Pow2Monotone(m, n - 1);
    }
  }

  lemma {:induction false} MaskBits(marks: seq<bool>, k: nat)
    requires k < |marks|
    ensures Bit(MaskOf(marks), k) <==> marks[k]
    decreases k
  {
    var v := MaskOf(marks);
    assert v / 2 == MaskOf(marks[1..]);
    if k > 0 {
      MaskBits(marks[1..], k - 1);
    }
  }

  function Wrap(o: Order): Item {
    Item(o, if Fits(o, Compact) then Compact else if Fits(o, Extra) then Extra else Mega)
  }

  /** Raw pieces of the first scanline, from pixel `n` up to `stop`. */
  function EncodeFirst(px: seq<nat>, ps: nat, n: nat, stop: nat): seq<Item>
    requires n <= stop <= |px|
    decreases stop - n
  {
    if n == stop then []
    else
      var len := Min(stop - n, MAX_RUN);
      [Wrap(Image(len, Flat(px[n..n + len], ps)))] + EncodeFirst(px, ps, n + len, stop)
  }

  /**
   The order for pixel `n` onwards. A background run straight after another one would have a
   foreground pixel inserted, so a run cut short by its cap is followed by one masked pixel instead.
   */
  function NextOrder(px: seq<nat>, width: nat, n: nat, afterBackground: bool): (o: Order)
    requires 0 < width <= n < |px|
    ensures HasLength(o) && 1 <= Length(o) <= MAX_RUN && n + Length(o) <= |px| && PixelCount(o) == Length(o)
    ensures o.Background? ==> !afterBackground
  {
    var x := Diff(px, width, n);
    if x == 0 then
      if afterBackground then FgBg(1, None, [0]) else Background(RunOf(px, width, n, 0, MAX_RUN))
    else
      var len := RunOf(px, width, n, x, MAX_RUN);
      var marks := Marks(px, width, n, x, 8);
      if len >= |marks| then Foreground(len, Some(x))
      else
        MaskIsByte(marks);
        FgBg(|marks|, Some(x), [MaskOf(marks)])
  }

  function EncodeRest(px: seq<nat>, width: nat, n: nat, afterBackground: bool): seq<Item>
    requires 0 < width <= n <= |px|
    decreases |px| - n
  {
    if n == |px| then []
    else
      var o := NextOrder(px, width, n, afterBackground);
      [Wrap(o)] + EncodeRest(px, width, n + Length(o), o.Background?)
  }

  function EncodePixels(px: seq<nat>, width: nat, ps: nat): seq<Item> {
    var stop := Min(width, |px|);
    EncodeFirst(px, ps, 0, stop) +
    (if width == 0 || |px| < width then [] else EncodeRest(px, width, width, false))
  }

  // ----- Its orders redraw the image -----

  lemma RawCellsDraw(px: seq<nat>, n: nat, len: nat, firstLine: bool, width: nat, ps: nat)
    requires n + len <= |px| && PixelsFit(px, ps)
    ensures Draws(px, n, RawCells(len, Flat(px[n..n + len], ps), ps), firstLine, width)
    decreases len
  {
    hide LeValue, LeBytes, Pow256, Span;
    if len > 0 {
      var raw := Flat(px[n..n + len], ps);
      assert px[n..n + len][..len - 1] == px[n..n + len - 1];
      assert raw[..|raw| - ps] == Flat(px[n..n + len - 1], ps);
      assert raw[|raw| - ps..] == LeBytes(px[n + len - 1], ps);
      LeValueOfBytes(px[n + len - 1], ps);
      RawCellsDraw(px, n, len - 1, firstLine, width, ps);
    }
  }

  /** Blending with the difference restores the pixel. */
  lemma DiffRestores(px: seq<nat>, width: nat, n: nat)
    requires 0 < width <= n < |px|
    ensures PixelOf(px[..n], Blend(Diff(px, width, n)), false, width) == px[n]
  {
    XorCancel(px[n - width], px[n]);
  }

  lemma MaskOrderCells(px: seq<nat>, width: nat, n: nat, marks: seq<bool>, x: nat, mask: byte, k: nat)
    requires 0 < width <= n && n + |marks| <= |px| && 0 < |marks| <= 8 && k < |marks| && mask == MaskOf(marks)
    requires forall m :: n <= m < n + |marks| ==> Diff(px, width, m) == if marks[m - n] then x else 0
    ensures ImageCells(|marks|, x, [mask])[k] == Blend(Diff(px, width, n + k))
  {
    hide Bit, Diff;
    MaskBits(marks, k);
    assert k / 8 == 0 && k % 8 == k;
  }

  /** The k-th cell of the next order blends with the difference at its pixel. */
  lemma NextOrderCell(px: seq<nat>, width: nat, n: nat, afterBackground: bool, fg: nat, g: Geometry, k: nat)
    requires 0 < width <= n < |px| && k < PixelCount(NextOrder(px, width, n, afterBackground))
    requires WellFormed(NextOrder(px, width, n, afterBackground), g.ps)
    ensures n + k < |px|
    ensures Cells(NextOrder(px, width, n, afterBackground), fg, afterBackground, g)[k] == Blend(Diff(px, width, n + k))
  {
    hide Bit, MaskOf, Diff, Pow256;
    var o := NextOrder(px, width, n, afterBackground);
    var x := Diff(px, width, n);
    if o.FgBg? && o.pel.Some? {
      var marks := Marks(px, width, n, x, 8);
      MaskIsByte(marks);
      MaskOrderCells(px, width, n, marks, x, MaskOf(marks), k);
    } else if o.FgBg? {
      ZeroMask(k);
    }
  }

  lemma NextOrderFits(px: seq<nat>, width: nat, n: nat, afterBackground: bool, ps: nat)
    requires 0 < width <= n < |px| && PixelsFit(px, ps)
    ensures WellFormed(NextOrder(px, width, n, afterBackground), ps)
  {
    hide MaskOf, Diff, Pow256;
    DiffFits(px, width, n, ps);
  }

  lemma NextOrderDraws(px: seq<nat>, width: nat, n: nat, afterBackground: bool, fg: nat, g: Geometry)
    requires 0 < width <= n < |px| && PixelsFit(px, g.ps)
    ensures var o := NextOrder(px, width, n, afterBackground);
            && WellFormed(o, g.ps)
            && Draws(px, n, Cells(o, fg, afterBackground, g), false, width)
  {
    hide NextOrder, Cells, PixelOf, WellFormed, Diff, PixelsFit;
    NextOrderFits(px, width, n, afterBackground, g.ps);
    var cells := Cells(NextOrder(px, width, n, afterBackground), fg, afterBackground, g);
    forall k | 0 <= k < |cells|
      ensures PixelOf(px[..n + k], cells[k], false, width) == px[n + k]
    {
      NextOrderCell(px, width, n, afterBackground, fg, g, k);
      DiffRestores(px, width, n + k);
    }
  }

  lemma {:induction false} ZeroMask(k: nat)
    ensures !Bit(0, k)
  {
    if k > 0 {
      ZeroMask(k - 1);
    }
  }

  lemma DiffFits(px: seq<nat>, width: nat, n: nat, ps: nat)
    requires width <= n < |px| && PixelsFit(px, ps)
    ensures Diff(px, width, n) < Pow256(ps)
  {
    XorWithin(px[n - width], px[n], ps);
  }

  lemma WrapFits(o: Order)
    requires HasLength(o) && Length(o) <= MAX_RUN
    ensures Fits(Wrap(o).order, Wrap(o).form)
  {
  }

  /** The brush after drawing the first `n` pixels. */
  ghost predicate AtPixel(b: Brush, px: seq<nat>, n: nat, ps: nat) {
    n <= |px| && b.out == Flat(px[..n], ps)
  }

  lemma {:induction false} FirstLineDraws(px: seq<nat>, n: nat, stop: nat, width: nat, b: Brush, g: Geometry)
    requires n <= stop <= |px| && stop <= width && PixelsFit(px, g.ps) && 1 <= g.ps && g.rowDelta == Span(g.ps, width)
    requires AtPixel(b, px, n, g.ps) && !b.insertFg
    ensures var items := EncodeFirst(px, g.ps, n, stop);
            && Printable(items, g.ps)
            && AtPixel(ApplyAll(b, items, g), px, stop, g.ps) && !ApplyAll(b, items, g).insertFg
    decreases stop - n
  {
    hide Paint, Cells, Span, Pow256, Fits, Flat;
    if n < stop {
      var len := Min(stop - n, MAX_RUN);
      var o := Image(len, Flat(px[n..n + len], g.ps));
      var next := ApplyOrder(b, o, g);
      var b1 := BeginOrder(b, g);
      CellsOfImage(o, b1.fg, b1.insertFg, g);
      RawCellsDraw(px, n, len, b1.firstLine, width, g.ps);
      DrawnCellsPaint(px, n, RawCells(len, o.raw, g.ps), b1.firstLine, width, g);
      WrapFits(o);
      FirstLineDraws(px, n + len, stop, width, next, g);
      AllAfterFirst(b, Wrap(o), EncodeFirst(px, g.ps, n + len, stop), g);
    }
  }

  lemma CellsOfImage(o: Order, fg: nat, insertFg: bool, g: Geometry)
    requires o.Image? && |o.raw| == Span(g.ps, o.len)
    ensures Cells(o, fg, insertFg, g) == RawCells(o.len, o.raw, g.ps)
  {
  }

  lemma AllAfterFirst(b: Brush, first: Item, rest: seq<Item>, g: Geometry)
    requires WellFormed(first.order, g.ps) && Fits(first.order, first.form) && Printable(rest, g.ps)
    ensures Printable([first] + rest, g.ps)
    ensures ApplyAll(b, [first] + rest, g) == ApplyAll(ApplyOrder(b, first.order, g), rest, g)
  {
    hide ApplyOrder, WellFormed, Fits;
    assert ([first] + rest)[1..] == rest;
  }

  /**
   Past the first scanline, the brush is about to start an order with no pending insertion unless `afterBackground`.
   */
  ghost predicate PastFirst(b: Brush, afterBackground: bool, g: Geometry) {
    |b.out| >= g.rowDelta && BeginOrder(b, g).insertFg == afterBackground
  }

  lemma {:induction false} RestDraws(px: seq<nat>, n: nat, width: nat, afterBackground: bool, b: Brush, g: Geometry)
    requires 0 < width <= n <= |px| && PixelsFit(px, g.ps) && 1 <= g.ps && g.rowDelta == Span(g.ps, width)
    requires AtPixel(b, px, n, g.ps) && PastFirst(b, afterBackground, g)
    ensures var items := EncodeRest(px, width, n, afterBackground);
            Printable(items, g.ps) && AtPixel(ApplyAll(b, items, g), px, |px|, g.ps)
    decreases |px| - n
  {
    hide Paint, Cells, Span, Pow256, Fits, Flat, NextOrder, Draws;
    if n < |px| {
      var o := NextOrder(px, width, n, afterBackground);
      var len := Length(o);
      var b1 := BeginOrder(b, g);
      NextOrderDraws(px, width, n, afterBackground, b1.fg, g);
      DrawnCellsPaint(px, n, Cells(o, b1.fg, afterBackground, g), false, width, g);
      var next := ApplyOrder(b, o, g);
      assert AtPixel(next, px, n + len, g.ps);
      SpanMonotone(g.ps, width, n + len);
      WrapFits(o);
      RestDraws(px, n + len, width, o.Background?, next, g);
      AllAfterFirst(b, Wrap(o), EncodeRest(px, width, n + len, o.Background?), g);
    }
  }

  lemma EncodedPixelsRedraw(px: seq<nat>, width: nat, height: nat, g: Geometry)
    requires PixelsFit(px, g.ps) && 1 <= g.ps && g.rowDelta == Span(g.ps, width) && |px| == width * height
    ensures var items := EncodePixels(px, width, g.ps);
            Printable(items, g.ps) && ApplyAll(Start(g), items, g).out == Flat(px, g.ps)
  {
    hide ApplyAll, Printable, Flat, Pow256, Span, EncodeFirst, EncodeRest;
    var stop := Min(width, |px|);
    assert px[..0] == [] && Flat(px[..0], g.ps) == [] by {
      FlatOfNone(g.ps);
    }
    FirstLineDraws(px, 0, stop, width, Start(g), g);
    var first := EncodeFirst(px, g.ps, 0, stop);
    var b := ApplyAll(Start(g), first, g);
    var rest := if width == 0 || |px| < width then [] else EncodeRest(px, width, width, false);
    if width > 0 && |px| >= width {
      RestDraws(px, width, width, false, b, g);
      assert px[..|px|] == px;
    } else {
      ShortImageIsEmpty(width, height, |px|);
      NoItems(b, g);
      assert px[..stop] == px;
    }
    ApplyAllAppend(Start(g), first, rest, g);
  }

  lemma NoItems(b: Brush, g: Geometry)
    ensures Printable([], g.ps) && ApplyAll(b, [], g) == b
  {
  }

  lemma FlatOfNone(ps: nat)
    ensures Flat([], ps) == []
  {
  }

  lemma ProductAtLeast(width: nat, height: nat)
    ensures height > 0 ==> width * height >= width
  {
  }

  lemma ShortImageIsEmpty(width: nat, height: nat, n: nat)
    requires n == width * height && (width == 0 || n < width)
    ensures n == 0
  {
    ProductAtLeast(width, height);
  }

  /** The encoded stream of a bitmap buffer of whole pixels. */
  function Encode(buf: bytes, width: nat, height: nat, bpp: nat): bytes
    requires PixelSize(bpp).Ok? && |buf| == width * PixelSize(bpp).value * height
  {
    EncodingIsPrintable(buf, width, height, bpp);
    var ps := PixelSize(bpp).value;
    PrintAll(EncodePixels(Pixels(buf, ps, width * height), width, ps), ps)
  }

  lemma EncodingIsPrintable(buf: bytes, width: nat, height: nat, bpp: nat)
    requires PixelSize(bpp).Ok? && |buf| == width * PixelSize(bpp).value * height
    ensures var ps := PixelSize(bpp).value;
            |buf| == Span(ps, width * height) && Printable(EncodePixels(Pixels(buf, ps, width * height), width, ps), ps)
  {
    hide Flat, Span, Printable, EncodePixels, Pixels, ApplyAll, PixelsFit;
    var ps := PixelSize(bpp).value;
    BufferIsSpan(ps, width, height);
    FlatOfPixels(buf, ps, width * height);
    var px := Pixels(buf, ps, width * height);
    EncodedPixelsRedraw(px, width, height, Geometry(ps, Span(ps, width), WhiteValue(bpp)));
  }

  lemma {:induction false} SpanInjective(ps: nat, m: nat, n: nat)
    requires 1 <= ps && Span(ps, m) == Span(ps, n)
    ensures m == n
  {
    if m > 0 && n > 0 {
      SpanInjective(ps, m - 1, n - 1);
    }
  }

  /**
   For every bitmap of every supported depth and size, the encoded stream fits the bitmap exactly and
   decodes to it.
   */
  lemma DecodeUndoesEncode(buf: bytes, width: nat, height: nat, bpp: nat)
    requires PixelSize(bpp).Ok? && |buf| == width * PixelSize(bpp).value * height
    ensures Decoded(Encode(buf, width, height, bpp), width, height, bpp) == Ok(buf)
    ensures Budget(Encode(buf, width, height, bpp), 0, PixelSize(bpp).value) == width * height
  {
    hide ApplyAll, PrintAll, Pixels, Flat, Span, Run, Budget, EncodePixels, Printable;
    var ps := PixelSize(bpp).value;
    BufferIsSpan(ps, width, height);
    SpanIsProduct(ps, width);
    var g := Geometry(ps, width * ps, WhiteValue(bpp));
    var px := Pixels(buf, ps, width * height);
    FlatOfPixels(buf, ps, width * height);
    EncodedPixelsRedraw(px, width, height, g);
    var items := EncodePixels(px, width, ps);
    var data := PrintAll(items, ps);
    PrintedStreamRuns(items, Start(g), g, []);
    assert [] + data == data;
    RunPaintsBudget(data, 0, Start(g), g);
    SpanInjective(ps, Budget(data, 0, ps), width * height);
    assert buf + Zeros(0) == buf;
  }
}
