/** Printing orders in any of their encodings, and the proof that the parser reads exactly these. */
module RlePrinter {
  import opened Prelude
  import opened Bits
  import opened RleOrders
  import opened RleBudget

  /** Length in the header byte, in a second byte, or in a 16-bit field after a whole-byte code. */
  datatype Form = Compact | Extra | Mega

  /** The order codes: the three- or four-bit code, its MEGA counterpart, and the width of the length field. */
  datatype Codes = Codes(short: byte, mega: byte, field: nat)

  function CodesOf(o: Order): Codes
    requires HasLength(o)
  {
    match o
    case Background(_) => Codes(0x0, 0xF0, 0x20)
    case Foreground(_, None) => Codes(0x1, 0xF1, 0x20)
    case Foreground(_, Some(_)) => Codes(0xC, 0xF6, 0x10)
    case Dithered(_, _, _) => Codes(0xE, 0xF8, 0x10)
    case Color(_, _) => Codes(0x3, 0xF3, 0x20)
    case FgBg(_, None, _) => Codes(0x2, 0xF2, 0x20)
    case FgBg(_, Some(_), _) => Codes(0xD, 0xF7, 0x10)
    case Image(_, _) => Codes(0x4, 0xF4, 0x20)
  }

  predicate HasLength(o: Order) {
    !o.Special? && !o.WhitePixel? && !o.BlackPixel?
  }

  function Length(o: Order): nat
    requires HasLength(o)
  {
    match o
    case Background(len) => len
    case Foreground(len, _) => len
    case Dithered(len, _, _) => len
    case Color(len, _) => len
    case FgBg(len, _, _) => len
    case Image(len, _) => len
  }

  /** Which lengths an encoding can carry. Mask images count in eights in the header byte. */
  predicate Fits(o: Order, form: Form) {
    if !HasLength(o) then form == Compact
    else
      var len, field := Length(o), CodesOf(o).field;
      match form
      case Compact => if o.FgBg? then len % 8 == 0 && 0 < len / 8 < field else 0 < len < field
      case Extra => if o.FgBg? then 1 <= len <= 0x100 else field <= len < field + 0x100
      case Mega => len < 0x1_0000
  }

  function LengthHeader(codes: Codes, len: nat, inEights: bool, form: Form): (r: bytes)
    requires codes.field == (if codes.short < 0x8 then 0x20 else 0x10) && codes.short < 0xF
    requires match form
             case Compact => if inEights then len / 8 < codes.field else len < codes.field
             case Extra => if inEights then 1 <= len <= 0x100 else codes.field <= len < codes.field + 0x100
             case Mega => len < 0x1_0000
    ensures r != []
  {
    match form
    case Compact =>
      var units := if inEights then len / 8 else len;
      [codes.short * codes.field + units]
    case Extra => [codes.short * codes.field, if inEights then len - 1 else len - codes.field]
    case Mega => [codes.mega] + U16Le(len)
  }

  function Header(o: Order, form: Form): (r: bytes)
    requires (o.Special? ==> o.mask == 0x03 || o.mask == 0x05) && Fits(o, form)
    ensures r != []
  {
    match o
    case Special(mask) => if mask == 0x03 then [0xF9] else [0xFA]
    case WhitePixel => [0xFD]
    case BlackPixel => [0xFE]
    case _ => LengthHeader(CodesOf(o), Length(o), o.FgBg?, form)
  }

  function Payload(o: Order, ps: nat): bytes {
    match o
    case Foreground(_, Some(pel)) => LeBytes(pel, ps)
    case Dithered(_, a, b) => LeBytes(a, ps) + LeBytes(b, ps)
    case Color(_, a) => LeBytes(a, ps)
    case FgBg(_, None, masks) => masks
    case FgBg(_, Some(pel), masks) => LeBytes(pel, ps) + masks
    case Image(_, raw) => raw
    case _ => []
  }

  function Print(o: Order, form: Form, ps: nat): (r: bytes)
    requires WellFormed(o, ps) && Fits(o, form)
    ensures r != []
  {
    Header(o, form) + Payload(o, ps)
  }

  function KindOfOrder(o: Order): Kind
    requires o.Special? ==> o.mask == 0x03 || o.mask == 0x05
  {
    match o
    case Background(_) => BackgroundRun
    case Foreground(_, pel) => if pel.None? then ForegroundRun else SetForegroundRun
    case Dithered(_, _, _) => DitheredRun
    case Color(_, _) => ColorRun
    case FgBg(_, pel, _) => if pel.None? then FgBgImage else SetFgBgImage
    case Image(_, _) => ColorImage
    case Special(mask) => if mask == 0x03 then SpecialOne else SpecialTwo
    case WhitePixel => White
    case BlackPixel => Black
  }

  // ----- Printed headers read back -----

  lemma HeaderReadsBack(o: Order, form: Form, rest: bytes)
    requires (o.Special? ==> o.mask == 0x03 || o.mask == 0x05) && Fits(o, form)
    ensures var src := Header(o, form) + rest;
            && KindOf(CodeId(src[0])) == Some(KindOfOrder(o))
            && RunLength(CodeId(src[0]), src) == Ok((if HasLength(o) then Length(o) else 0, |Header(o, form)|))
  {
    hide LengthHeader, RunLength, CodeId;
    var src := Header(o, form) + rest;
    if HasLength(o) {
      LengthReadsBack(CodesOf(o), Length(o), o.FgBg?, form, rest);
    } else {
      FixedReadsBack(src);
    }
  }

  lemma FixedReadsBack(src: bytes)
    requires src != [] && (src[0] == 0xF9 || src[0] == 0xFA || src[0] == 0xFD || src[0] == 0xFE)
    ensures CodeId(src[0]) == src[0] && RunLength(src[0], src) == Ok((0, 1))
  {
  }

  /** The header with a length, in each of its forms. */
  lemma LengthReadsBack(codes: Codes, len: nat, inEights: bool, form: Form, rest: bytes)
    requires codes.short in {0x0, 0x1, 0x2, 0x3, 0x4, 0xC, 0xD, 0xE} && 0xF0 <= codes.mega <= 0xF8
    requires codes.field == (if codes.short < 0x8 then 0x20 else 0x10)
    requires inEights <==> codes.short == 0x2 || codes.short == 0xD
    requires match form
             case Compact => if inEights then len % 8 == 0 && 0 < len / 8 < codes.field else 0 < len < codes.field
             case Extra => if inEights then 1 <= len <= 0x100 else codes.field <= len < codes.field + 0x100
             case Mega => len < 0x1_0000
    ensures var header := LengthHeader(codes, len, inEights, form);
            var code := CodeId((header + rest)[0]);
            && code == (if form.Mega? then codes.mega else codes.short)
            && RunLength(code, header + rest) == Ok((len, |header|))
  {
    match form
    case Compact => CompactReadsBack(codes, if inEights then len / 8 else len);
    case Extra => CompactReadsBack(codes, 0);
    case Mega => MegaReadsBack(codes, len, rest);
  }

  lemma CompactReadsBack(codes: Codes, units: nat)
    requires codes.short in {0x0, 0x1, 0x2, 0x3, 0x4, 0xC, 0xD, 0xE}
    requires codes.field == (if codes.short < 0x8 then 0x20 else 0x10) && units < codes.field
    ensures var b := codes.short * codes.field + units;
            b < 0xF0 && CodeId(b) == codes.short && b % codes.field == units
  {
  }

  lemma MegaReadsBack(codes: Codes, len: nat, rest: bytes)
    requires 0xF0 <= codes.mega <= 0xF8 && len < 0x1_0000
    ensures var src := [codes.mega] + U16Le(len) + rest;
            CodeId(src[0]) == codes.mega && RunLength(codes.mega, src) == Ok((len, 3))
  {
    hide U16Le, U16LeAt;
    U16LeIn([codes.mega] + U16Le(len) + rest, 1, len);
  }

  lemma PayloadReadsBack(o: Order, pre: bytes, rest: bytes, ps: nat)
    requires 1 <= ps && WellFormed(o, ps)
    ensures var data := pre + Payload(o, ps) + rest;
            ParsePayload(KindOfOrder(o), if HasLength(o) then Length(o) else 0, data, |pre|, ps)
            == Parsed(o, |pre| + |Payload(o, ps)|)
  {
    hide LeValue, LeBytes, Pow256, Span;
    PartInPlace(pre, Payload(o, ps), rest);
    match o {
      case Foreground(_, Some(pel)) =>
        LeValueOfBytes(pel, ps);
      case Dithered(_, a, b) =>
        LeValueOfBytes(a, ps);
        LeValueOfBytes(b, ps);
        PartsInPlace(pre, LeBytes(a, ps), LeBytes(b, ps), rest);
      case Color(_, a) =>
        LeValueOfBytes(a, ps);
      case FgBg(_, Some(pel), masks) =>
        LeValueOfBytes(pel, ps);
        PartsInPlace(pre, LeBytes(pel, ps), masks, rest);
      case _ =>
    }
  }

  lemma PartInPlace(pre: bytes, part: bytes, rest: bytes)
    ensures (pre + part + rest)[|pre|..|pre| + |part|] == part
  {
  }

  lemma PartsInPlace(pre: bytes, a: bytes, b: bytes, rest: bytes)
    ensures var data, j, k := pre + (a + b) + rest, |pre|, |pre| + |a|;
            data[j..k] == a && data[k..k + |b|] == b
  {
  }

  /** Every order, in every encoding that fits it, anywhere in a stream, parses back to itself. */
  lemma PrintedOrderParses(o: Order, form: Form, ps: nat, pre: bytes, post: bytes)
    requires 1 <= ps && WellFormed(o, ps) && Fits(o, form)
    ensures ParseOrder(pre + Print(o, form, ps) + post, |pre|, ps) == Parsed(o, |pre| + |Print(o, form, ps)|)
  {
    hide Header, Payload, RunLength, ParsePayload, KindOf, CodeId, Fits;
    var header, payload := Header(o, form), Payload(o, ps);
    var data := pre + Print(o, form, ps) + post;
    assert data[|pre|..] == header + (payload + post);
    HeaderReadsBack(o, form, payload + post);
    assert data == (pre + header) + payload + post;
    PayloadReadsBack(o, pre + header, post, ps);
  }

  // ----- Parsed orders were printed -----

  /** The code of an order with a length is its short code or its MEGA code. */
  lemma CodeOfKind(hdr: byte, o: Order)
    requires o.Special? ==> o.mask == 0x03 || o.mask == 0x05
    requires KindOf(CodeId(hdr)) == Some(KindOfOrder(o)) && HasLength(o)
    ensures var codes := CodesOf(o);
            || hdr == codes.mega == CodeId(hdr)
            || (hdr / codes.field == codes.short == CodeId(hdr) && hdr == codes.short * codes.field + hdr % codes.field)
  {
  }

  lemma HeaderWasPrinted(src: bytes, o: Order)
    requires src != [] && (o.Special? ==> o.mask == 0x03 || o.mask == 0x05)
    requires KindOf(CodeId(src[0])) == Some(KindOfOrder(o))
    requires RunLength(CodeId(src[0]), src).Ok?
    requires RunLength(CodeId(src[0]), src).value.0 == if HasLength(o) then Length(o) else 0
    ensures var n := RunLength(CodeId(src[0]), src).value.1;
            n <= |src| && exists form :: Fits(o, form) && src[..n] == Header(o, form)
  {
    HeaderFits(CodeId(src[0]), src);
    var n := RunLength(CodeId(src[0]), src).value.1;
    var form := if n == 1 then Compact else if n == 2 then Extra else Mega;
    if HasLength(o) {
      CodeOfKind(src[0], o);
      LengthWasPrinted(src, o);
    }
    assert Fits(o, form) && src[..n] == Header(o, form);
  }

  lemma LengthWasPrinted(src: bytes, o: Order)
    requires src != [] && HasLength(o)
    requires var codes := CodesOf(o);
             || src[0] == codes.mega == CodeId(src[0])
             || (codes.short == CodeId(src[0]) && src[0] == codes.short * codes.field + src[0] % codes.field)
    requires RunLength(CodeId(src[0]), src).Ok? && RunLength(CodeId(src[0]), src).value.0 == Length(o)
    ensures var n := RunLength(CodeId(src[0]), src).value.1;
            var form := if n == 1 then Compact else if n == 2 then Extra else Mega;
            n <= |src| && Fits(o, form) && src[..n] == LengthHeader(CodesOf(o), Length(o), o.FgBg?, form)
  {
    hide KindOf;
    var code, codes := CodeId(src[0]), CodesOf(o);
    if src[0] == codes.mega {
      MegaWasPrinted(src);
    } else {
      var r := src[0] % codes.field;
      assert RunLength(code, src) == Extended(r, if o.FgBg? then 8 else 1, if o.FgBg? then 1 else codes.field, src);
      if r != 0 {
        assert src[..1] == [src[0]];
      } else {
        assert src[..2] == [src[0], src[1]];
      }
    }
  }

  lemma MegaWasPrinted(src: bytes)
    requires |src| >= 3
    ensures src[..3] == [src[0]] + U16Le(U16LeAt(src, 1))
  {
    assert src[..3] == [src[0], src[1], src[2]];
  }

  lemma PayloadWasPrinted(kind: Kind, len: nat, data: bytes, j: nat, ps: nat)
    requires 1 <= ps && j <= |data| && ParsePayload(kind, len, data, j, ps).Parsed?
    requires kind in {SpecialOne, SpecialTwo, White, Black} ==> len == 0
    ensures var p := ParsePayload(kind, len, data, j, ps);
            && WellFormed(p.order, ps) && j <= p.next <= |data| && KindOfOrder(p.order) == kind
            && len == (if HasLength(p.order) then Length(p.order) else 0)
            && data[j..p.next] == Payload(p.order, ps)
  {
    hide LeValue, LeBytes, Pow256, Span;
    PayloadWellFormed(kind, len, data, j, ps);
    if j + ps <= |data| {
      var p := ParsePayload(kind, len, data, j, ps);
      LeBytesOfValue(data[j..j + ps]);
      if kind.DitheredRun? || kind.SetFgBgImage? {
        SliceJoins(data, j, j + ps, p.next);
      }
      if kind.DitheredRun? && j + 2 * ps <= |data| {
        LeBytesOfValue(data[j + ps..j + 2 * ps]);
      }
    }
  }

  /** And nothing else parses: an order the parser accepts is the print of that order in some encoding. */
  lemma ParsedOrderWasPrinted(data: bytes, i: nat, ps: nat)
    requires 1 <= ps && i < |data| && ParseOrder(data, i, ps).Parsed?
    ensures var p := ParseOrder(data, i, ps);
            && WellFormed(p.order, ps) && i < p.next <= |data|
            && exists form :: Fits(p.order, form) && data[i..p.next] == Print(p.order, form, ps)
  {
    hide ParsePayload, Payload, Header, Fits;
    ParsedIsWellFormed(data, i, ps);
    var p := ParseOrder(data, i, ps);
    var src := data[i..];
    var code := CodeId(data[i]);
    var (len, hlen) := RunLength(code, src).value;
    HeaderFits(code, src);
    PayloadWasPrinted(KindOf(code).value, len, data, i + hlen, ps);
    HeaderWasPrinted(src, p.order);
    var form :| Fits(p.order, form) && src[..hlen] == Header(p.order, form);
    assert data[i..p.next] == src[..hlen] + data[i + hlen..p.next];
  }

  // ----- What does not parse -----

  /** The supported depths, and what follows from a depth: the fewest bytes that hold it, and all its bits set. */
  lemma DepthDecides(bpp: nat)
    ensures if bpp in {8, 15, 16, 24} then
              && PixelSize(bpp).Ok? && 8 * (PixelSize(bpp).value - 1) < bpp <= 8 * PixelSize(bpp).value
              && WhiteValue(bpp) == Pow2(bpp) - 1
            else PixelSize(bpp) == Err(Protocol(UnsupportedRleBpp))
  {
    PowersOfDepths();
  }

  lemma PowersOfDepths()
    ensures Pow2(8) == 0x100 && Pow2(15) == 0x8000 && Pow2(16) == 0x1_0000 && Pow2(24) == 0x100_0000
  {
    assert Pow2(4) == 16;
    assert Pow2(8) == 0x100;
    assert Pow2(12) == 0x1000;
    assert Pow2(15) == 0x8000;
    assert Pow2(20) == 0x10_0000;
  }

  /** The header bytes that begin no order. */
  lemma UnknownOrders(data: bytes, i: nat, ps: nat)
    requires i < |data|
    ensures KindOf(CodeId(data[i])).None? <==> 0xA0 <= data[i] < 0xC0 || data[i] in {0xF5, 0xFB, 0xFC, 0xFF}
    ensures KindOf(CodeId(data[i])).None? ==> ParseOrder(data, i, ps) == Bad(Protocol(UnknownRleOrder), 0)
  {
  }

  /** How much of an order's payload is read in one piece, before any masks. */
  function FirstPiece(o: Order, ps: nat): nat
    requires WellFormed(o, ps)
  {
    match o
    case Foreground(_, pel) => if pel.Some? then ps else 0
    case Dithered(_, _, _) => 2 * ps
    case Color(_, _) => ps
    case FgBg(_, pel, _) => if pel.Some? then ps else 0
    case Image(len, _) => Span(ps, len)
    case _ => 0
  }

  /**
   An order cut off after `n` of its bytes names the byte it misses first: the end of its header, counted from the
   order's start, or the end of its first piece, or the next mask byte. Masks that are there have been painted.
   */
  lemma CutOrderError(o: Order, form: Form, ps: nat, pre: bytes, n: nat)
    requires 1 <= ps && WellFormed(o, ps) && Fits(o, form) && 0 < n < |Print(o, form, ps)|
    ensures var h, first := |Header(o, form)|, FirstPiece(o, ps);
            ParseOrder(pre + Print(o, form, ps)[..n], |pre|, ps)
            == if n < h then Bad(Short(h, n), 0)
               else if n < h + first then Bad(Short(|pre| + h + first, |pre| + n), 0)
               else Bad(Short(|pre| + n + 1, |pre| + n), 8 * (n - h - first))
  {
    hide KindOf, CodeId, RunLength, ParsePayload, Header, Payload, LengthHeader, Fits, FirstPiece;
    var header, payload := Header(o, form), Payload(o, ps);
    var data := pre + Print(o, form, ps)[..n];
    var src := data[|pre|..];
    assert src == (header + payload)[..n];
    assert src[0] == header[0];
    if n < |header| {
      assert src == header[..n];
      CutHeader(o, form, n);
    } else {
      assert src == header + payload[..n - |header|];
      HeaderReadsBack(o, form, payload[..n - |header|]);
      assert data == (pre + header) + payload[..n - |header|];
      CutPayload(o, pre + header, ps, n - |header|);
    }
  }

  lemma CutHeader(o: Order, form: Form, n: nat)
    requires (o.Special? ==> o.mask == 0x03 || o.mask == 0x05) && Fits(o, form) && 0 < n < |Header(o, form)|
    ensures var src := Header(o, form)[..n];
            && KindOf(CodeId(src[0])) == Some(KindOfOrder(o))
            && RunLength(CodeId(src[0]), src) == Err(Short(|Header(o, form)|, n))
  {
    hide KindOf;
    HeaderReadsBack(o, form, []);
    var h := Header(o, form);
    assert h + [] == h && h[..n][0] == h[0];
  }

  lemma CutPayload(o: Order, pre: bytes, ps: nat, m: nat)
    requires 1 <= ps && WellFormed(o, ps) && m < |Payload(o, ps)|
    ensures var first := FirstPiece(o, ps);
            ParsePayload(KindOfOrder(o), if HasLength(o) then Length(o) else 0, pre + Payload(o, ps)[..m], |pre|, ps)
            == if m < first then Bad(Short(|pre| + first, |pre| + m), 0)
               else Bad(Short(|pre| + m + 1, |pre| + m), 8 * (m - first))
  {
    hide LeValue, LeBytes, Pow256, Span;
  }

  // ----- Whole streams -----

  datatype Item = Item(order: Order, form: Form)

  ghost predicate Printable(items: seq<Item>, ps: nat) {
    forall k :: 0 <= k < |items| ==> WellFormed(items[k].order, ps) && Fits(items[k].order, items[k].form)
  }

  function PrintAll(items: seq<Item>, ps: nat): bytes
    requires Printable(items, ps)
  {
    if items == [] then [] else Print(items[0].order, items[0].form, ps) + PrintAll(items[1..], ps)
  }

  function ApplyAll(b: Brush, items: seq<Item>, g: Geometry): Brush
    requires Printable(items, g.ps)
    decreases |items|
  {
    if items == [] then b else ApplyAll(ApplyOrder(b, items[0].order, g), items[1..], g)
  }

  lemma {:induction false} ApplyAllAppend(b: Brush, a: seq<Item>, c: seq<Item>, g: Geometry)
    requires Printable(a, g.ps) && Printable(c, g.ps)
    ensures Printable(a + c, g.ps) && ApplyAll(b, a + c, g) == ApplyAll(ApplyAll(b, a, g), c, g)
    decreases |a|
  {
    hide ApplyOrder, WellFormed, Fits;
    if a == [] {
      assert a + c == c;
    } else {
      ApplyAllAppend(ApplyOrder(b, a[0].order, g), a[1..], c, g);
      assert (a + c)[1..] == a[1..] + c;
    }
  }

  /** Decoding a printed list of orders performs exactly those orders. */
  lemma {:induction false} PrintedStreamRuns(items: seq<Item>, b: Brush, g: Geometry, pre: bytes)
    requires 1 <= g.ps && Printable(items, g.ps)
    ensures Run(pre + PrintAll(items, g.ps), |pre|, b, g) == Ok(ApplyAll(b, items, g))
    decreases |items|
  {
    hide ApplyOrder, ParseOrder, WellFormed, Fits, Print;
    var data := pre + PrintAll(items, g.ps);
    if items == [] {
      RunDone(data, |pre|, b, g);
    } else {
      var first := Print(items[0].order, items[0].form, g.ps);
      var rest := PrintAll(items[1..], g.ps);
      assert data == pre + first + rest;
      PrintedOrderParses(items[0].order, items[0].form, g.ps, pre, rest);
      RunStep(data, |pre|, b, g);
      PrintedStreamRuns(items[1..], ApplyOrder(b, items[0].order, g), g, pre + first);
    }
  }
}
