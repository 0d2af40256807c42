/**
 What a whole stream paints, read off its list of orders: no state is carried from order to order here. Section
 2.2.9.1.1.3.1.2.4 of [MS-RDPBCGR].
 */
module RleStream {
  import opened Prelude
  import opened Bits
  import opened RleOrders
  import opened RleBudget
  import opened RlePixels
  import opened RlePrinter

  /** The foreground pixel an order brings with it: set-foreground runs and set-foreground mask images do. */
  function OwnForeground(o: Order): Option<nat> {
    if o.Foreground? || o.FgBg? then o.pel else None
  }

  /** The k-th order sets the foreground, and none of those between it and the n-th does. */
  ghost predicate LastToSet(items: seq<Item>, k: nat, n: nat)
    requires n <= |items|
  {
    && k < n && OwnForeground(items[k].order).Some?
    && forall j :: k < j < n ==> OwnForeground(items[j].order).None?
  }

  /** The foreground the n-th order finds: that of the last earlier order with one of its own, or white. */
  function ForegroundAt(items: seq<Item>, n: nat, white: nat): nat
    requires n <= |items|
  {
    if n == 0 then white
    else if OwnForeground(items[n - 1].order).Some? then OwnForeground(items[n - 1].order).value
    else ForegroundAt(items, n - 1, white)
  }

  /** Read as a quantifier. */
  lemma {:induction false} ForegroundIsLastSet(items: seq<Item>, n: nat, white: nat)
    requires n <= |items|
    ensures forall k: nat :: LastToSet(items, k, n) ==>
              ForegroundAt(items, n, white) == OwnForeground(items[k].order).value
    ensures (forall k :: 0 <= k < n ==> OwnForeground(items[k].order).None?) ==> ForegroundAt(items, n, white) == white
  {
    hide OwnForeground;
    if n > 0 {
      ForegroundIsLastSet(items, n - 1, white);
      forall k: nat | LastToSet(items, k, n)
        ensures ForegroundAt(items, n, white) == OwnForeground(items[k].order).value
      {
        if k < n - 1 {
          assert OwnForeground(items[n - 1].order).None?;
          assert LastToSet(items, k, n - 1);
        }
      }
    }
  }

  /** Pixels painted by the first `n` orders. */
  function PixelsBefore(items: seq<Item>, n: nat): nat
    requires n <= |items|
  {
    if n == 0 then 0 else PixelsBefore(items, n - 1) + PixelCount(items[n - 1].order)
  }

  /**
   A background run right after another one begins with a foreground pixel, unless the first scanline came to its
   end in between: it was not full when the earlier run began, and is now.
   */
  predicate Inserts(items: seq<Item>, n: nat, width: nat)
    requires n <= |items|
  {
    n > 0 && items[n - 1].order.Background? && !(PixelsBefore(items, n - 1) < width <= PixelsBefore(items, n))
  }

  function BrushAt(items: seq<Item>, n: nat, g: Geometry): Brush
    requires Printable(items, g.ps) && n <= |items|
  {
    ApplyAll(Start(g), items[..n], g)
  }

  lemma BrushNext(items: seq<Item>, n: nat, g: Geometry)
    requires Printable(items, g.ps) && n < |items|
    ensures BrushAt(items, n + 1, g) == ApplyOrder(BrushAt(items, n, g), items[n].order, g)
  {
    hide ApplyOrder, WellFormed, Fits, ApplyAll;
    assert items[..n + 1] == items[..n] + [items[n]];
    ApplyAllAppend(Start(g), items[..n], [items[n]], g);
    OneOrder(BrushAt(items, n, g), items[n], g);
  }

  lemma OneOrder(b: Brush, item: Item, g: Geometry)
    requires Printable([item], g.ps)
    ensures WellFormed(item.order, g.ps) && ApplyAll(b, [item], g) == ApplyOrder(b, item.order, g)
  {
    hide ApplyOrder, Fits;
    assert [item][0] == item;
    assert WellFormed([item][0].order, g.ps);
    assert [item][1..] == [];
  }

  lemma SpanOrder(ps: nat, m: nat, n: nat)
    requires 1 <= ps
    ensures Span(ps, m) >= Span(ps, n) <==> m >= n
  {
    SpanIsProduct(ps, m);
    SpanIsProduct(ps, n);
    if m >= n {
      SpanMonotone(ps, n, m);
    } else {
      SpanMonotone(ps, m + 1, n);
    }
  }

  /** The decoder's state as it begins the n-th order is what the list says. */
  lemma {:induction false} StateFromList(items: seq<Item>, n: nat, g: Geometry, width: nat)
    requires Printable(items, g.ps) && n <= |items| && g.Valid() && g.rowDelta == Span(g.ps, width)
    ensures var b, begun := BrushAt(items, n, g), BeginOrder(BrushAt(items, n, g), g);
            && |b.out| == Span(g.ps, PixelsBefore(items, n)) && b.fg < Pow256(g.ps)
            && b.fg == ForegroundAt(items, n, g.white)
            && b.insertFg == (n > 0 && items[n - 1].order.Background?)
            && b.firstLine == (n == 0 || PixelsBefore(items, n - 1) < width)
            && begun.firstLine == (PixelsBefore(items, n) < width)
            && begun.insertFg == Inserts(items, n, width) && begun.fg == b.fg && begun.out == b.out
  {
    hide Paint, Cells, Span, Pow256, PixelCount, Fits;
    SpanOrder(g.ps, PixelsBefore(items, n), width);
    if n == 0 {
      assert items[..0] == [];
      NoSpan(g.ps);
    } else {
      StateFromList(items, n - 1, g, width);
      BrushNext(items, n - 1, g);
      assert WellFormed(items[n - 1].order, g.ps);
      ApplyOrderLength(BrushAt(items, n - 1, g), items[n - 1].order, g);
      SpanAdd(g.ps, PixelsBefore(items, n - 1), PixelCount(items[n - 1].order));
    }
  }

  lemma NoSpan(ps: nat)
    ensures Span(ps, 0) == 0
  {
  }

  // ----- Later orders keep earlier pixels -----

  lemma {:induction false} ApplyAllKeeps(b: Brush, items: seq<Item>, g: Geometry)
    requires Printable(items, g.ps)
    ensures b.out <= ApplyAll(b, items, g).out
    decreases |items|
  {
    hide Paint, Cells, WellFormed, Fits;
    if items != [] {
      assert WellFormed(items[0].order, g.ps);
      var begun := BeginOrder(b, g);
      PaintPrefix(begun.out, Cells(items[0].order, begun.fg, begun.insertFg, g), begun.firstLine, g);
      ApplyAllKeeps(ApplyOrder(b, items[0].order, g), items[1..], g);
    }
  }

  lemma RestKeeps(items: seq<Item>, n: nat, g: Geometry)
    requires Printable(items, g.ps) && n <= |items|
    ensures BrushAt(items, n, g).out <= ApplyAll(Start(g), items, g).out
  {
    hide ApplyAll, WellFormed, Fits;
    assert items == items[..n] + items[n..];
    ApplyAllAppend(Start(g), items[..n], items[n..], g);
    ApplyAllKeeps(BrushAt(items, n, g), items[n..], g);
  }

  lemma SamePixel(out: bytes, more: bytes, ps: nat, p: nat)
    requires out <= more && Span(ps, p) + ps <= |out|
    ensures NthPixel(more, ps, p) == NthPixel(out, ps, p)
  {
    hide LeValue;
    assert more[Span(ps, p)..Span(ps, p) + ps] == out[Span(ps, p)..Span(ps, p) + ps];
  }

  lemma SameAbove(out: bytes, more: bytes, g: Geometry, width: nat, p: nat, firstLine: bool)
    requires out <= more && Span(g.ps, p) <= |out|
    ensures PixelAbove(more, g, width, p, firstLine) == PixelAbove(out, g, width, p, firstLine)
  {
    hide NthPixel;
    if !(firstLine || width == 0 || p < width) {
      PixelInside(g.ps, p - width, p);
      SamePixel(out, more, g.ps, p - width);
    }
  }

  // ----- The law -----

  /** Pixel `j` of order `n`, with everything it depends on read off the list and the picture. */
  function ListedPixel(items: seq<Item>, n: nat, j: nat, out: bytes, g: Geometry, width: nat): nat
    requires Printable(items, g.ps) && n < |items| && j < PixelCount(items[n].order)
    requires Span(g.ps, PixelsBefore(items, n) + j) <= |out|
  {
    var above := PixelAbove(out, g, width, PixelsBefore(items, n) + j, PixelsBefore(items, n) < width);
    assert WellFormed(items[n].order, g.ps);
    OrderPixel(items[n].order, j, ForegroundAt(items, n, g.white), Inserts(items, n, width), above, g)
  }

  /** Pixel `j` of order `n` is in the picture. */
  ghost predicate IsListed(items: seq<Item>, n: nat, j: nat, out: bytes, g: Geometry, width: nat)
    requires Printable(items, g.ps) && n < |items| && j < PixelCount(items[n].order)
  {
    var p := PixelsBefore(items, n) + j;
    Span(g.ps, p) + g.ps <= |out| && NthPixel(out, g.ps, p) == ListedPixel(items, n, j, out, g, width)
  }

  /** Every pixel of every order is. */
  ghost predicate Pictures(items: seq<Item>, out: bytes, g: Geometry, width: nat)
    requires Printable(items, g.ps)
  {
    forall n: nat, j: nat :: n < |items| && j < PixelCount(items[n].order) ==> IsListed(items, n, j, out, g, width)
  }

  lemma OrderOfListPixel(items: seq<Item>, n: nat, j: nat, g: Geometry, width: nat)
    requires Printable(items, g.ps) && g.Valid() && g.rowDelta == Span(g.ps, width)
    requires n < |items| && j < PixelCount(items[n].order)
    ensures IsListed(items, n, j, ApplyAll(Start(g), items, g).out, g, width)
  {
    hide ApplyAll, ApplyOrder, Span, NthPixel, PixelAbove, OrderPixel, Pow256, WellFormed, PixelCount, Fits, BeginOrder;
    assert WellFormed(items[n].order, g.ps);
    var p := PixelsBefore(items, n) + j;
    var b := BrushAt(items, n, g);
    StateFromList(items, n, g, width);
    OrderPaintsItsPixels(b, items[n].order, g, width, PixelsBefore(items, n), j);
    BrushNext(items, n, g);
    RestKeeps(items, n + 1, g);
    var after, out := BrushAt(items, n + 1, g).out, ApplyAll(Start(g), items, g).out;
    SamePixel(after, out, g.ps, p);
    SameAbove(after, out, g, width, p, PixelsBefore(items, n) < width);
  }

  lemma PaddedKeeps(out: bytes, n: nat)
    requires |out| <= n
    ensures out <= PadTo(out, n)
  {
  }

  /**
   The stream of a list of orders that fits its bitmap decodes, and every pixel of every order is the one the format
   prescribes: with the foreground of the last earlier set-foreground order, or white; with an inserted foreground
   pixel at the start of a background run after a background run, unless the first scanline ended in between; and as
   a first-line order exactly if its first pixel is on the first scanline.
   */
  lemma StreamPaintsItsPixels(items: seq<Item>, width: nat, height: nat, bpp: nat, n: nat, j: nat)
    requires PixelSize(bpp).Ok? && Printable(items, PixelSize(bpp).value)
    requires PixelsBefore(items, |items|) <= width * height && n < |items| && j < PixelCount(items[n].order)
    ensures var ps := PixelSize(bpp).value;
            var r := Decoded(PrintAll(items, ps), width, height, bpp);
            r.Ok? && IsListed(items, n, j, r.value, Geometry(ps, width * ps, WhiteValue(bpp)), width)
  {
    hide ApplyAll, Span, NthPixel, PixelAbove, OrderPixel, WellFormed, PixelCount, Fits, Run, PrintAll, Printable,
      BrushAt, PadTo, WhiteValue, BeginOrder, Pow256;
    var ps := PixelSize(bpp).value;
    var g := Geometry(ps, width * ps, WhiteValue(bpp));
    var p := PixelsBefore(items, n) + j;
    SpanIsProduct(ps, width);
    GeometryIsValid(bpp, width);
    PrintedStreamRuns(items, Start(g), g, []);
    assert [] + PrintAll(items, ps) == PrintAll(items, ps);
    var out := ApplyAll(Start(g), items, g).out;
    OrderOfListPixel(items, n, j, g, width);
    StateFromList(items, |items|, g, width);
    WholeList(items, g);
    BufferIsSpan(ps, width, height);
    SpanMonotone(ps, PixelsBefore(items, |items|), width * height);
    PaddedKeeps(out, width * ps * height);
    var buf := PadTo(out, width * ps * height);
    SamePixel(out, buf, ps, p);
    SameAbove(out, buf, g, width, p, PixelsBefore(items, n) < width);
  }

  lemma WholeList(items: seq<Item>, g: Geometry)
    requires Printable(items, g.ps)
    ensures BrushAt(items, |items|, g) == ApplyAll(Start(g), items, g)
  {
    assert items[..|items|] == items;
  }

  // ----- Every accepted stream is one -----

  /** A stream that decodes is the print of some list of orders. */
  lemma {:induction false} StreamWasPrinted(data: bytes, i: nat, b: Brush, g: Geometry) returns (items: seq<Item>)
    requires 1 <= g.ps && i <= |data| && Run(data, i, b, g).Ok?
    ensures Printable(items, g.ps) && data[i..] == PrintAll(items, g.ps)
    decreases |data| - i
  {
    hide Run, ParseOrder, ApplyOrder, WellFormed, Fits, Print;
    if i == |data| {
      items := [];
    } else {
      if ParseOrder(data, i, g.ps).Bad? {
        RunFails(data, i, b, g);
        assert false;
      }
      RunStep(data, i, b, g);
      ParsedOrderWasPrinted(data, i, g.ps);
      var p := ParseOrder(data, i, g.ps);
      var form :| Fits(p.order, form) && data[i..p.next] == Print(p.order, form, g.ps);
      var rest := StreamWasPrinted(data, p.next, ApplyOrder(b, p.order, g), g);
      items := [Item(p.order, form)] + rest;
      SliceJoins(data, i, p.next, |data|);
      assert items[1..] == rest;
    }
  }

  /** What is left of the bitmap after the last order is black. */
  lemma RestIsBlack(items: seq<Item>, width: nat, height: nat, bpp: nat, i: nat)
    requires PixelSize(bpp).Ok? && Printable(items, PixelSize(bpp).value)
    requires PixelsBefore(items, |items|) <= width * height
    ensures var ps := PixelSize(bpp).value;
            var r := Decoded(PrintAll(items, ps), width, height, bpp);
            r.Ok? && (Span(ps, PixelsBefore(items, |items|)) <= i < |r.value| ==> r.value[i] == 0)
  {
    hide ApplyAll, Span, WellFormed, Fits, Run, PrintAll, Printable, BrushAt, WhiteValue, BeginOrder, Pow256,
      PixelsBefore;
    var ps := PixelSize(bpp).value;
    var g := Geometry(ps, width * ps, WhiteValue(bpp));
    SpanIsProduct(ps, width);
    GeometryIsValid(bpp, width);
    PrintedStreamRuns(items, Start(g), g, []);
    assert [] + PrintAll(items, ps) == PrintAll(items, ps);
    StateFromList(items, |items|, g, width);
    WholeList(items, g);
    BufferIsSpan(ps, width, height);
    SpanMonotone(ps, PixelsBefore(items, |items|), width * height);
  }

  /** Every stream that decodes within its budget is such a list, and its picture is the list's, pixel by pixel. */
  lemma AcceptedStreamPaints(data: bytes, width: nat, height: nat, bpp: nat) returns (items: seq<Item>)
    requires PixelSize(bpp).Ok? && Decoded(data, width, height, bpp).Ok?
    requires Budget(data, 0, PixelSize(bpp).value) <= width * height
    ensures var ps := PixelSize(bpp).value;
            var g, out := Geometry(ps, width * ps, WhiteValue(bpp)), Decoded(data, width, height, bpp).value;
            Printable(items, ps) && data == PrintAll(items, ps) && Pictures(items, out, g, width)
  {
    hide ApplyAll, Span, WellFormed, Fits, Run, PrintAll, Printable, BrushAt, WhiteValue, BeginOrder, Pow256,
      PixelsBefore, NthPixel, IsListed, PixelCount, Budget, PadTo;
    var ps := PixelSize(bpp).value;
    var g := Geometry(ps, width * ps, WhiteValue(bpp));
    items := StreamWasPrinted(data, 0, Start(g), g);
    assert data[0..] == data && [] + data == data;
    PrintedStreamRuns(items, Start(g), g, []);
    RunPaintsBudget(data, 0, Start(g), g);
    SpanIsProduct(ps, width);
    GeometryIsValid(bpp, width);
    StateFromList(items, |items|, g, width);
    WholeList(items, g);
    SpanOrder(ps, PixelsBefore(items, |items|), Budget(data, 0, ps));
    SpanOrder(ps, Budget(data, 0, ps), PixelsBefore(items, |items|));
    var out := Decoded(data, width, height, bpp).value;
    forall n: nat, j: nat | n < |items| && j < PixelCount(items[n].order)
      ensures IsListed(items, n, j, out, g, width)
    {
      StreamPaintsItsPixels(items, width, height, bpp, n, j);
    }
  }
}
