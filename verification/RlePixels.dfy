/** What an order paints, pixel by pixel: section 2.2.9.1.1.3.1.2.4 of [MS-RDPBCGR] written down directly. */
module RlePixels {
  import opened Prelude
  import opened Bits
  import opened RleOrders
  import opened RleBudget

  /** The p-th pixel of a buffer. */
  function NthPixel(out: bytes, ps: nat, p: nat): nat
    requires Span(ps, p) + ps <= |out|
  {
    LeValue(out[Span(ps, p)..Span(ps, p) + ps])
  }

  lemma PixelInside(ps: nat, p: nat, n: nat)
    requires p < n
    ensures Span(ps, p) + ps <= Span(ps, n)
  {
    SpanMonotone(ps, p + 1, n);
  }

  /** The pixel one scanline before the p-th; zero on the first scanline. */
  function PixelAbove(out: bytes, g: Geometry, width: nat, p: nat, firstLine: bool): nat
    requires Span(g.ps, p) <= |out|
  {
    if firstLine || width == 0 || p < width then 0
    else
      PixelInside(g.ps, p - width, p);
      NthPixel(out, g.ps, p - width)
  }

  /** The k-th pixel of an order, given the pixel above it. */
  function OrderPixel(o: Order, k: nat, fg: nat, insertFg: bool, above: nat, g: Geometry): nat
    requires WellFormed(o, g.ps) && k < PixelCount(o)
  {
    match o
    case Background(_) => if insertFg && k == 0 then Xor(above, fg) else above
    case Foreground(_, pel) => Xor(above, PelOr(pel, fg))
    case Dithered(_, a, b) => if k % 2 == 0 then a else b
    case Color(_, a) => a
    case FgBg(_, pel, masks) => if Bit(masks[k / 8], k % 8) then Xor(above, PelOr(pel, fg)) else above
    case Image(len, raw) =>
      PixelInside(g.ps, k, len);
      NthPixel(raw, g.ps, k)
    case Special(mask) => if Bit(mask, k) then Xor(above, fg) else above
    case WhitePixel => g.white
    case BlackPixel => 0
  }

  // ----- Cells -----

  function CellPixel(c: Cell, above: nat): nat {
    match c
    case Put(v) => v
    case Blend(v) => Xor(above, v)
  }

  function ValueOf(c: Cell): nat {
    match c
    case Put(v) => v
    case Blend(v) => v
  }

  ghost predicate CellsFit(cells: seq<Cell>, ps: nat) {
    forall k :: 0 <= k < |cells| ==> ValueOf(cells[k]) < Pow256(ps)
  }

  lemma SliceOfInit(s: bytes, i: nat, n: nat)
    requires i + n + n <= |s|
    ensures s[..|s| - n][i..i + n] == s[i..i + n]
  {
  }

  lemma {:induction false} RawCellAt(len: nat, raw: bytes, ps: nat, k: nat)
    requires |raw| == Span(ps, len) && k < len
    ensures Span(ps, k) + ps <= |raw| && RawCells(len, raw, ps)[k] == Put(NthPixel(raw, ps, k))
    ensures NthPixel(raw, ps, k) < Pow256(ps)
    decreases len
  {
    hide LeValue, Pow256, Span, RawCells;
    PixelInside(ps, k, len);
    if k < len - 1 {
      PixelInside(ps, k, len - 1);
    }
    LeBytesOfValue(raw[Span(ps, k)..Span(ps, k) + ps]);
    SpanNext(ps, len);
    RawCellsLast(raw, len, ps);
    var init := raw[..|raw| - ps];
    if k < len - 1 {
      RawCellAt(len - 1, init, ps, k);
      SliceOfInit(raw, Span(ps, k), ps);
    } else {
      assert |raw| - ps == Span(ps, k);
      assert raw[|raw| - ps..] == raw[|raw| - ps..|raw|];
    }
  }

  /** Each cell of an order is the order's pixel. */
  lemma CellIsPixel(o: Order, fg: nat, insertFg: bool, g: Geometry, k: nat, above: nat)
    requires WellFormed(o, g.ps) && g.Valid() && fg < Pow256(g.ps) && k < PixelCount(o)
    ensures var c := Cells(o, fg, insertFg, g)[k];
            CellPixel(c, above) == OrderPixel(o, k, fg, insertFg, above, g) && ValueOf(c) < Pow256(g.ps)
  {
    hide LeValue, Pow256, Span, Bit;
    XorZero(above);
    if o.Image? {
      RawCellAt(o.len, o.raw, g.ps, k);
    }
    NoBytes(g.ps);
  }

  lemma NoBytes(ps: nat)
    ensures 0 < Pow256(ps)
  {
  }

  // ----- Painting -----

  lemma PutCellKeeps(out: bytes, c: Cell, firstLine: bool, g: Geometry, p: nat)
    requires Span(g.ps, p) + g.ps <= |out|
    ensures Span(g.ps, p) + g.ps <= |PutCell(out, c, firstLine, g)|
    ensures NthPixel(PutCell(out, c, firstLine, g), g.ps, p) == NthPixel(out, g.ps, p)
  {
    hide LeValue, LeBytes, CellValue;
    var after := PutCell(out, c, firstLine, g);
    assert after[Span(g.ps, p)..Span(g.ps, p) + g.ps] == out[Span(g.ps, p)..Span(g.ps, p) + g.ps];
  }

  lemma AboveIsPixel(out: bytes, firstLine: bool, g: Geometry, width: nat, n: nat)
    requires g.Valid() && g.rowDelta == Span(g.ps, width) && |out| == Span(g.ps, n)
    ensures Above(out, firstLine, g) == PixelAbove(out, g, width, n, firstLine)
    ensures Above(out, firstLine, g) < Pow256(g.ps)
  {
    hide LeValue, Pow256, Span;
    NoBytes(g.ps);
    if width > 0 {
      OnePixel(g.ps, width);
      if n >= width {
        SpanAdd(g.ps, n - width, width);
        PixelInside(g.ps, n - width, n);
        LeBytesOfValue(out[Span(g.ps, n - width)..Span(g.ps, n - width) + g.ps]);
      } else {
        SpanAdd(g.ps, n, width - n);
        OnePixel(g.ps, width - n);
      }
    } else {
      OnePixel(g.ps, 0);
    }
  }

  lemma OnePixel(ps: nat, n: nat)
    ensures if n == 0 then Span(ps, n) == 0 else ps <= Span(ps, n)
  {
  }

  /** A cell put down is read back, blended with the pixel above it. */
  lemma PutCellPixel(out: bytes, c: Cell, firstLine: bool, g: Geometry, width: nat, n: nat)
    requires g.Valid() && g.rowDelta == Span(g.ps, width) && |out| == Span(g.ps, n) && ValueOf(c) < Pow256(g.ps)
    ensures var after := PutCell(out, c, firstLine, g);
            |after| == Span(g.ps, n) + g.ps
            && NthPixel(after, g.ps, n) == CellPixel(c, PixelAbove(out, g, width, n, firstLine))
  {
    hide LeValue, LeBytes, Pow256, Span, Above, PixelAbove;
    AboveIsPixel(out, firstLine, g, width, n);
    var v := CellValue(out, c, firstLine, g);
    if c.Blend? {
      XorWithin(Above(out, firstLine, g), c.v, g.ps);
    }
    LeValueOfBytes(v, g.ps);
    assert PutCell(out, c, firstLine, g)[|out|..|out| + g.ps] == LeBytes(v, g.ps);
  }

  /** The pixel above is the same before and after more is painted. */
  lemma AboveKeeps(out: bytes, c: Cell, firstLine: bool, g: Geometry, width: nat, p: nat)
    requires Span(g.ps, p) <= |out|
    ensures Span(g.ps, p) <= |PutCell(out, c, firstLine, g)|
    ensures PixelAbove(PutCell(out, c, firstLine, g), g, width, p, firstLine) == PixelAbove(out, g, width, p, firstLine)
  {
    hide PutCell, NthPixel;
    if !(firstLine || width == 0 || p < width) {
      PixelInside(g.ps, p - width, p);
      PutCellKeeps(out, c, firstLine, g, p - width);
    }
  }

  lemma {:induction false} PaintedPixel(out: bytes, cells: seq<Cell>, firstLine: bool, g: Geometry, width: nat, n: nat,
                                        k: nat)
    requires g.Valid() && g.rowDelta == Span(g.ps, width) && |out| == Span(g.ps, n) && CellsFit(cells, g.ps)
             && k < |cells|
    ensures var after := Paint(out, cells, firstLine, g);
            && |after| == Span(g.ps, n + |cells|) && Span(g.ps, n + k) + g.ps <= |after|
            && NthPixel(after, g.ps, n + k) == CellPixel(cells[k], PixelAbove(after, g, width, n + k, firstLine))
    decreases |cells|
  {
    hide Span, PutCell, NthPixel, PixelAbove, CellPixel, Pow256;
    var m := |cells| - 1;
    var before := Paint(out, cells[..m], firstLine, g);
    PaintLength(out, cells, firstLine, g);
    PaintLength(out, cells[..m], firstLine, g);
    SpanAdd(g.ps, n, |cells|);
    SpanAdd(g.ps, n, m);
    PixelInside(g.ps, n + k, n + |cells|);
    if k < m {
      PaintedPixel(out, cells[..m], firstLine, g, width, n, k);
      PutCellKeeps(before, cells[m], firstLine, g, n + k);
    } else {
      PutCellPixel(before, cells[m], firstLine, g, width, n + m);
    }
    AboveKeeps(before, cells[m], firstLine, g, width, n + k);
  }

  /**
   Every pixel of every order is the one the format prescribes for it, given the pixel one scanline
   back in the finished output: an order begun on the first scanline treats all of its pixels as
   first-line, and a background run after a background run begins with one foreground pixel.
   */
  lemma OrderPaintsItsPixels(b: Brush, o: Order, g: Geometry, width: nat, n: nat, k: nat)
    requires g.Valid() && g.rowDelta == Span(g.ps, width) && WellFormed(o, g.ps)
    requires |b.out| == Span(g.ps, n) && b.fg < Pow256(g.ps) && k < PixelCount(o)
    ensures var begun, after := BeginOrder(b, g), ApplyOrder(b, o, g).out;
            && |after| == Span(g.ps, n + PixelCount(o)) && Span(g.ps, n + k) + g.ps <= |after|
            && NthPixel(after, g.ps, n + k)
               == OrderPixel(o, k, begun.fg, begun.insertFg, PixelAbove(after, g, width, n + k, begun.firstLine), g)
  {
    hide Span, Paint, Cells, NthPixel, PixelAbove, OrderPixel, CellPixel, ValueOf, Pow256, WellFormed, PixelCount;
    var begun := BeginOrder(b, g);
    var cells := Cells(o, begun.fg, begun.insertFg, g);
    forall j | 0 <= j < |cells|
      ensures ValueOf(cells[j]) < Pow256(g.ps)
    {
      CellIsPixel(o, begun.fg, begun.insertFg, g, j, 0);
    }
    PaintedPixel(begun.out, cells, begun.firstLine, g, width, n, k);
    var after := ApplyOrder(b, o, g).out;
    CellIsPixel(o, begun.fg, begun.insertFg, g, k, PixelAbove(after, g, width, n + k, begun.firstLine));
  }
}
