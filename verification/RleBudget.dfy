/** How many pixels a stream paints, read off its order headers alone. */
module RleBudget {
  import opened Prelude
  import opened RleOrders

  lemma {:induction false} SpanAdd(ps: nat, m: nat, n: nat)
    ensures Span(ps, m + n) == Span(ps, m) + Span(ps, n)
  {
    if n > 0 {
      SpanAdd(ps, m, n - 1);
    }
  }

  lemma SpanNext(ps: nat, n: nat)
    requires n > 0
    ensures Span(ps, n) == Span(ps, n - 1) + ps
  {
  }

  lemma RawCellsLast(raw: bytes, len: nat, ps: nat)
    requires len > 0 && |raw| == Span(ps, len)
    ensures RawCells(len, raw, ps) == RawCells(len - 1, raw[..|raw| - ps], ps) + [Put(LeValue(raw[|raw| - ps..]))]
  {
  }

  lemma SpanMonotone(ps: nat, m: nat, n: nat)
    requires m <= n
    ensures Span(ps, m) <= Span(ps, n)
  {
    SpanAdd(ps, m, n - m);
  }

  lemma BufferIsSpan(ps: nat, width: nat, height: nat)
    ensures width * ps * height == Span(ps, width * height)
  {
    SpanIsProduct(ps, width * height);
    assert width * ps * height == width * height * ps;
  }

  lemma {:induction false} PaintLength(out: bytes, cells: seq<Cell>, firstLine: bool, g: Geometry)
    ensures |Paint(out, cells, firstLine, g)| == |out| + Span(g.ps, |cells|)
    decreases |cells|
  {
    if cells != [] {
      PaintLength(out, cells[..|cells| - 1], firstLine, g);
    }
  }

  lemma {:induction false} PaintAppend(out: bytes, a: seq<Cell>, b: seq<Cell>, firstLine: bool, g: Geometry)
    ensures Paint(out, a + b, firstLine, g) == Paint(Paint(out, a, firstLine, g), b, firstLine, g)
    decreases |b|
  {
    if b == [] {
      assert a + b == a;
    } else {
      PaintAppend(out, a, b[..|b| - 1], firstLine, g);
      assert (a + b)[..|a + b| - 1] == a + b[..|b| - 1];
    }
  }

  /** Payload bytes after the header. */
  function PayloadSize(kind: Kind, len: nat, ps: nat): nat {
    match kind
    case SetForegroundRun => ps
    case DitheredRun => 2 * ps
    case ColorRun => ps
    case FgBgImage => MaskCount(len)
    case SetFgBgImage => ps + MaskCount(len)
    case ColorImage => Span(ps, len)
    case _ => 0
  }

  function KindPixels(kind: Kind, len: nat): nat {
    match kind
    case DitheredRun => 2 * len
    case SpecialOne => 8
    case SpecialTwo => 8
    case White => 1
    case Black => 1
    case _ => len
  }

  /** Pixels painted by an order whose payload is cut off after `have` bytes. */
  function CutOffPixels(kind: Kind, have: nat, ps: nat): nat {
    match kind
    case FgBgImage => 8 * have
    case SetFgBgImage => if have < ps then 0 else 8 * (have - ps)
    case _ => 0
  }

  datatype Extent = Extent(pixels: nat, end: nat)

  /** Pixels painted by the order at `i` and where the next one starts, from its header bytes alone. */
  function OrderExtent(data: bytes, i: nat, ps: nat): (r: Extent)
    requires i < |data|
    ensures i < r.end <= |data|
  {
    var code := CodeId(data[i]);
    match KindOf(code)
    case None => Extent(0, |data|)
    case Some(kind) =>
      match RunLength(code, data[i..])
      case Err(_) => Extent(0, |data|)
      case Ok((len, hlen)) =>
        HeaderFits(code, data[i..]);
        var end := i + hlen + PayloadSize(kind, len, ps);
        if end > |data| then Extent(CutOffPixels(kind, |data| - i - hlen, ps), |data|)
        else Extent(KindPixels(kind, len), end)
  }

  /** Pixels painted from offset `i` on: payloads are skipped, never looked at. */
  function Budget(data: bytes, i: nat, ps: nat): nat
    decreases |data| - i
  {
    if i >= |data| then 0
    else
      var e := OrderExtent(data, i, ps);
      e.pixels + Budget(data, e.end, ps)
  }

  lemma PayloadBudget(kind: Kind, len: nat, data: bytes, j: nat, ps: nat)
    requires j <= |data| && 1 <= ps
    ensures match ParsePayload(kind, len, data, j, ps)
            case Parsed(o, next) =>
              next == j + PayloadSize(kind, len, ps) <= |data| && PixelCount(o) == KindPixels(kind, len)
            case Bad(_, painted) =>
              j + PayloadSize(kind, len, ps) > |data| && painted == CutOffPixels(kind, |data| - j, ps)
  {
  }

  lemma ExtentOfOrder(data: bytes, i: nat, ps: nat)
    requires i < |data| && 1 <= ps
    ensures match ParseOrder(data, i, ps)
            case Parsed(o, next) => OrderExtent(data, i, ps) == Extent(PixelCount(o), next)
            case Bad(_, painted) => OrderExtent(data, i, ps) == Extent(painted, |data|)
  {
    hide KindOf, CodeId, RunLength, ParsePayload, PayloadSize, KindPixels, CutOffPixels;
    var code := CodeId(data[i]);
    if KindOf(code).Some? && RunLength(code, data[i..]).Ok? {
      HeaderFits(code, data[i..]);
      var (len, hlen) := RunLength(code, data[i..]).value;
      PayloadBudget(KindOf(code).value, len, data, i + hlen, ps);
    }
  }

  /** The budget splits into the next order's pixels and the budget of what follows it. */
  lemma BudgetStep(data: bytes, i: nat, ps: nat)
    requires i < |data| && 1 <= ps
    ensures match ParseOrder(data, i, ps)
            case Parsed(o, next) => i < next <= |data| && Budget(data, i, ps) == PixelCount(o) + Budget(data, next, ps)
            case Bad(_, painted) => Budget(data, i, ps) == painted
  {
    ExtentOfOrder(data, i, ps);
  }

  lemma ApplyOrderLength(b: Brush, o: Order, g: Geometry)
    requires WellFormed(o, g.ps)
    ensures |ApplyOrder(b, o, g).out| == |b.out| + Span(g.ps, PixelCount(o))
  {
    var b := BeginOrder(b, g);
    PaintLength(b.out, Cells(o, b.fg, b.insertFg, g), b.firstLine, g);
  }

  lemma RunStep(data: bytes, i: nat, b: Brush, g: Geometry)
    requires 1 <= g.ps && i < |data| && ParseOrder(data, i, g.ps).Parsed?
    ensures var p := ParseOrder(data, i, g.ps);
            i < p.next <= |data| && WellFormed(p.order, g.ps) &&
            Run(data, i, b, g) == Run(data, p.next, ApplyOrder(b, p.order, g), g)
  {
    ParsedIsWellFormed(data, i, g.ps);
  }

  lemma RunFails(data: bytes, i: nat, b: Brush, g: Geometry)
    requires 1 <= g.ps && i < |data| && ParseOrder(data, i, g.ps).Bad?
    ensures Run(data, i, b, g) == Err(ParseOrder(data, i, g.ps).error)
  {
  }

  lemma RunDone(data: bytes, i: nat, b: Brush, g: Geometry)
    requires 1 <= g.ps && i >= |data|
    ensures Run(data, i, b, g) == Ok(b)
  {
  }

  lemma BudgetOfExtent(data: bytes, i: nat, ps: nat)
    requires i < |data|
    ensures var e := OrderExtent(data, i, ps);
            e.end <= |data| && Budget(data, i, ps) == e.pixels + Budget(data, e.end, ps)
  {
  }

  lemma GeometryIsValid(bpp: nat, width: nat)
    requires PixelSize(bpp).Ok?
    ensures var ps := PixelSize(bpp).value; Geometry(ps, width * ps, WhiteValue(bpp)).Valid()
  {
    var ps := PixelSize(bpp).value;
    assert Pow256(1) == 0x100 && Pow256(2) == 0x1_0000 && Pow256(3) == 0x100_0000;
    if width > 0 {
      assert width * ps >= ps;
    }
  }

  /** A stream that decodes paints exactly its budget, whatever the pixels in it. */
  lemma {:induction false} RunPaintsBudget(data: bytes, i: nat, b: Brush, g: Geometry)
    requires 1 <= g.ps
    ensures Run(data, i, b, g).Ok? ==> |Run(data, i, b, g).value.out| == |b.out| + Span(g.ps, Budget(data, i, g.ps))
    decreases |data| - i
  {
    hide Run, Budget, ApplyOrder, ParseOrder, Span, PixelCount, WellFormed;
    if i >= |data| {
      RunDone(data, i, b, g);
      NothingLeft(data, i, g.ps);
    } else {
      BudgetStep(data, i, g.ps);
      var p := ParseOrder(data, i, g.ps);
      if p.Parsed? {
        RunStep(data, i, b, g);
        ApplyOrderLength(b, p.order, g);
        RunPaintsBudget(data, p.next, ApplyOrder(b, p.order, g), g);
        SpanAdd(g.ps, PixelCount(p.order), Budget(data, p.next, g.ps));
      } else {
        RunFails(data, i, b, g);
      }
    }
  }

  lemma NothingLeft(data: bytes, i: nat, ps: nat)
    requires i >= |data|
    ensures Span(ps, Budget(data, i, ps)) == 0
  {
  }

  lemma {:induction false} RunPrefix(data: bytes, i: nat, b: Brush, g: Geometry)
    requires 1 <= g.ps
    ensures Run(data, i, b, g).Ok? ==> b.out <= Run(data, i, b, g).value.out
    decreases |data| - i
  {
    if i < |data| {
      ParsedIsWellFormed(data, i, g.ps);
      match ParseOrder(data, i, g.ps)
      case Bad(_, _) =>
      case Parsed(o, next) =>
        var b1 := BeginOrder(b, g);
        PaintPrefix(b1.out, Cells(o, b1.fg, b1.insertFg, g), b1.firstLine, g);
        RunPrefix(data, next, ApplyOrder(b, o, g), g);
    }
  }

  lemma {:induction false} PaintPrefix(out: bytes, cells: seq<Cell>, firstLine: bool, g: Geometry)
    ensures out <= Paint(out, cells, firstLine, g)
    decreases |cells|
  {
    if cells != [] {
      PaintPrefix(out, cells[..|cells| - 1], firstLine, g);
    }
  }

  // ----- Truncation -----

  lemma RunLengthPrefix(code: byte, src: bytes, n: nat)
    requires 1 <= n <= |src| && RunLength(code, src).Ok?
    ensures n >= RunLength(code, src).value.1 ==> RunLength(code, src[..n]) == RunLength(code, src)
    ensures n < RunLength(code, src).value.1 ==> RunLength(code, src[..n]).Err?
  {
    assert src[..n][0] == src[0];
  }

  lemma PayloadPrefix(kind: Kind, len: nat, data: bytes, j: nat, n: nat, ps: nat)
    requires 1 <= ps && j <= n <= |data|
    requires n < j + PayloadSize(kind, len, ps) <= |data|
    ensures ParsePayload(kind, len, data[..n], j, ps).Bad?
  {
    PayloadBudget(kind, len, data[..n], j, ps);
  }

  /** A stream cut anywhere strictly inside an order no longer holds that order: it is an error. */
  lemma CutOrderIsError(data: bytes, i: nat, cut: nat, ps: nat)
    requires i < |data| && 1 <= ps
    requires ParseOrder(data, i, ps).Parsed? && i < cut < ParseOrder(data, i, ps).next
    ensures cut <= |data| && ParseOrder(data[..cut], i, ps).Bad?
  {
    hide RunLength, ParsePayload, PayloadSize, KindPixels, CutOffPixels, KindOf, CodeId, WellFormed;
    ParsedIsWellFormed(data, i, ps);
    var code := CodeId(data[i]);
    HeaderFits(code, data[i..]);
    var (len, hlen) := RunLength(code, data[i..]).value;
    var kind := KindOf(code).value;
    PayloadBudget(kind, len, data, i + hlen, ps);
    assert data[..cut][i..] == data[i..][..cut - i];
    RunLengthPrefix(code, data[i..], cut - i);
    if cut - i >= hlen {
      PayloadPrefix(kind, len, data, i + hlen, cut, ps);
    }
  }

  /** The order at `i`, and so its extent, is decided by the bytes it covers. */
  lemma OrderDependsOnItsBytes(data: bytes, other: bytes, i: nat, ps: nat)
    requires i < |data| && 1 <= ps && ParseOrder(data, i, ps).Parsed?
    requires i < |other| && ParseOrder(data, i, ps).next <= |other|
    requires other[i..ParseOrder(data, i, ps).next] == data[i..ParseOrder(data, i, ps).next]
    ensures ParseOrder(other, i, ps) == ParseOrder(data, i, ps)
  {
    hide RunLength, ParsePayload;
    ParsedIsWellFormed(data, i, ps);
    var next := ParseOrder(data, i, ps).next;
    var code := CodeId(data[i]);
    HeaderFits(code, data[i..]);
    var (len, hlen) := RunLength(code, data[i..]).value;
    var kind := KindOf(code).value;
    PayloadBudget(kind, len, data, i + hlen, ps);
    assert data[i] == data[i..next][0] == other[i];
    RunLengthPrefix(code, data[i..], next - i);
    assert data[i..][..next - i] == data[i..next] == other[i..][..next - i];
    RunLengthSame(code, data[i..], other[i..], hlen);
    PayloadSame(kind, len, data, other, i + hlen, ps, next);
  }

  /** `cut` is the end of some order, or the start of the stream. */
  predicate Boundary(data: bytes, i: nat, cut: nat, ps: nat)
    requires 1 <= ps
    decreases |data| - i
  {
    if cut == i then true
    else if i >= |data| then false
    else
      ParsedIsWellFormed(data, i, ps);
      match ParseOrder(data, i, ps)
      case Bad(_, _) => false
      case Parsed(_, next) => Boundary(data, next, cut, ps)
  }

  lemma {:induction false} BoundaryAfter(data: bytes, i: nat, cut: nat, ps: nat)
    requires 1 <= ps && Boundary(data, i, cut, ps)
    ensures i <= cut
    decreases |data| - i
  {
    hide ParseOrder;
    if cut != i {
      ParsedIsWellFormed(data, i, ps);
      BoundaryAfter(data, ParseOrder(data, i, ps).next, cut, ps);
    }
  }

  /**
   A decodable stream cut short decodes exactly if the cut falls between two orders; what was cut off then goes on
   from the brush the first part leaves.
   */
  lemma {:induction false} CutStream(data: bytes, i: nat, cut: nat, b: Brush, g: Geometry)
    requires 1 <= g.ps && i <= cut <= |data| && Run(data, i, b, g).Ok?
    ensures var part := Run(data[..cut], i, b, g);
            && (part.Ok? <==> Boundary(data, i, cut, g.ps))
            && (part.Ok? ==> Run(data, cut, part.value, g) == Run(data, i, b, g))
    decreases |data| - i
  {
    hide Run, ParseOrder, ApplyOrder, WellFormed;
    if cut == i {
      RunDone(data[..cut], i, b, g);
    } else {
      if ParseOrder(data, i, g.ps).Bad? {
        RunFails(data, i, b, g);
        assert false;
      }
      RunStep(data, i, b, g);
      var p := ParseOrder(data, i, g.ps);
      if cut < p.next {
        CutOrderIsError(data, i, cut, g.ps);
        RunFails(data[..cut], i, b, g);
        if Boundary(data, p.next, cut, g.ps) {
          BoundaryAfter(data, p.next, cut, g.ps);
        }
      } else {
        SameSlice(data, data[..cut], 0, cut, i, p.next);
        OrderDependsOnItsBytes(data, data[..cut], i, g.ps);
        RunStep(data[..cut], i, b, g);
        CutStream(data, p.next, cut, ApplyOrder(b, p.order, g), g);
      }
    }
  }

  lemma RunLengthSame(code: byte, a: bytes, b: bytes, n: nat)
    requires a != [] && b != [] && RunLength(code, a).Ok? && n == RunLength(code, a).value.1 <= |a| && n <= |b|
    requires a[..n] == b[..n]
    ensures RunLength(code, b) == RunLength(code, a)
  {
    assert a[0] == a[..n][0] == b[..n][0] == b[0];
    if n >= 2 {
      assert a[1] == a[..n][1] == b[..n][1] == b[1];
    }
    if n >= 3 {
      assert a[2] == a[..n][2] == b[..n][2] == b[2];
    }
  }

  lemma PayloadSame(kind: Kind, len: nat, data: bytes, other: bytes, j: nat, ps: nat, end: nat)
    requires 1 <= ps && end == j + PayloadSize(kind, len, ps) <= |data| && end <= |other|
    requires other[j..end] == data[j..end]
    ensures ParsePayload(kind, len, other, j, ps) == ParsePayload(kind, len, data, j, ps)
  {
    PayloadBudget(kind, len, data, j, ps);
    PayloadBudget(kind, len, other, j, ps);
    if j + ps <= end {
      SameSlice(data, other, j, end, j, j + ps);
      SameSlice(data, other, j, end, j + ps, end);
    }
  }

}
