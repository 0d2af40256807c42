/** Writing planar bitmaps: every valid coding of a set of planes decodes to exactly those planes. */
module PlanarInverse {
  import opened Prelude
  import opened Bits
  import opened PlanarFormat

  // ----- Vertical deltas are a bijection modulo 256 -----

  function DeltaByte(r: byte): byte {
    if r < 0x80 then 2 * r else 2 * (0xFF - r) + 1
  }

  /** One wrap-around is all a byte sum or difference needs. */
  lemma WrapOnce(v: int)
    requires -0x100 <= v < 0x200
    ensures v % 0x100 == if v < 0 then v + 0x100 else if v < 0x100 then v else v - 0x100
  {
  }

  /** A delta byte stands for a signed delta, and a difference byte for that delta. */
  lemma DeltaOfByte(d: byte, r: byte)
    ensures -0x80 <= Delta(d) < 0x80
    ensures Delta(DeltaByte(r)) == if r < 0x80 then r else r - 0x100
    ensures DeltaByte(if Delta(d) >= 0 then Delta(d) else Delta(d) + 0x100) == d
  {
  }

  lemma DeltaEncodes(above: byte, value: byte)
    ensures (above as int + Delta(DeltaByte((value as int - above as int) % 0x100))) % 0x100 == value
  {
    hide Delta, DeltaByte;
    WrapOnce(value as int - above as int);
    var r: byte := (value as int - above as int) % 0x100;
    DeltaOfByte(0, r);
    WrapOnce(above as int + Delta(DeltaByte(r)));
  }

  lemma DeltaDecodes(above: byte, d: byte)
    ensures DeltaByte(((above as int + Delta(d)) % 0x100 - above as int) % 0x100) == d
  {
    hide Delta, DeltaByte;
    DeltaOfByte(d, 0);
    WrapOnce(above as int + Delta(d));
    var v := (above as int + Delta(d)) % 0x100;
    WrapOnce(v - above as int);
  }

  /** The delta byte that stands for the next byte of a plane. */
  function Differ(plane: bytes, v: byte, width: nat): byte {
    if |plane| < width || width == 0 then v else DeltaByte((v as int - plane[|plane| - width] as int) % 0x100)
  }

  lemma UndoneDiffer(plane: bytes, b: byte, width: nat)
    ensures Undone(plane, Differ(plane, b, width), width) == b
    ensures Differ(plane, Undone(plane, b, width), width) == b
  {
    hide Delta, DeltaByte;
    if |plane| >= width > 0 {
      DeltaEncodes(plane[|plane| - width], b);
      DeltaDecodes(plane[|plane| - width], b);
    }
  }

  function Redelta(plane: bytes, width: nat): (raw: bytes)
    ensures |raw| == |plane|
  {
    if plane == [] then []
    else
      var n := |plane| - 1;
      Redelta(plane[..n], width) + [Differ(plane[..n], plane[n], width)]
  }

  lemma RedeltaLast(plane: bytes, v: byte, width: nat)
    ensures Redelta(plane + [v], width) == Redelta(plane, width) + [Differ(plane, v, width)]
  {
    hide Differ;
    assert (plane + [v])[..|plane|] == plane;
  }

  /** Undoing the deltas of any plane restores it. */
  lemma {:induction false} UndeltaOfRedelta(plane: bytes, width: nat)
    ensures Undelta(Redelta(plane, width), width) == plane
    decreases |plane|
  {
    if plane == [] {
      NoDeltas(width);
    } else {
      hide Undelta, Redelta, Undone, Differ;
      var init, last := plane[..|plane| - 1], plane[|plane| - 1];
      assert plane == init + [last];
      UndeltaOfRedelta(init, width);
      RedeltaLast(init, last, width);
      UndeltaLast(Redelta(init, width), Differ(init, last, width), width);
      UndoneDiffer(init, last, width);
    }
  }

  lemma NoDeltas(width: nat)
    ensures Undelta([], width) == [] == Redelta([], width)
  {
  }

  /** And every byte grid is the delta form of the plane it decodes to. */
  lemma {:induction false} RedeltaOfUndelta(raw: bytes, width: nat)
    ensures Redelta(Undelta(raw, width), width) == raw
    decreases |raw|
  {
    if raw == [] {
      NoDeltas(width);
    } else {
      hide Undelta, Redelta, Undone, Differ;
      var init, last := raw[..|raw| - 1], raw[|raw| - 1];
      assert raw == init + [last];
      RedeltaOfUndelta(init, width);
      UndeltaLast(init, last, width);
      RedeltaLast(Undelta(init, width), Undone(Undelta(init, width), last, width), width);
      UndoneDiffer(Undelta(init, width), last, width);
    }
  }

  // ----- Segments of a scanline -----

  /** Literal bytes followed by a run of the last byte. */
  datatype Segment = Segment(lits: bytes, run: nat)

  predicate ValidSegment(s: Segment) {
    if s.run >= 16 then s.lits == [] && s.run <= 47
    else |s.lits| <= 15 && s.run != 1 && s.run != 2
  }

  function PrintSegment(s: Segment): (r: bytes)
    requires ValidSegment(s)
    ensures r != []
  {
    if s.run >= 32 then [0x10 * (s.run - 32) + 2]
    else if s.run >= 16 then [0x10 * (s.run - 16) + 1]
    else [0x10 * |s.lits| + s.run] + s.lits
  }

  /** The literals, then the byte to the left again and again; zero at the left edge. */
  function Extend(line: bytes, s: Segment): bytes {
    var line := line + s.lits;
    var left := if |line| > 0 then line[|line| - 1] else 0;
    line + seq(s.run, _ => left)
  }

  lemma ExtendRepeats(line: bytes, s: Segment)
    ensures Extend(line, s) == line + s.lits + Repeated(LastByte(line + s.lits), s.run)
  {
  }

  function Expand(line: bytes, segs: seq<Segment>): bytes
    decreases |segs|
  {
    if segs == [] then line else Expand(Extend(line, segs[0]), segs[1..])
  }

  /** The segments fill the scanline exactly, and none follows once it is full. */
  ghost predicate Fills(line: bytes, segs: seq<Segment>, width: nat)
    decreases |segs|
  {
    if segs == [] then |line| == width
    else |line| < width && ValidSegment(segs[0]) && Fills(Extend(line, segs[0]), segs[1..], width)
  }

  function PrintSegments(segs: seq<Segment>): bytes
    requires forall k :: 0 <= k < |segs| ==> ValidSegment(segs[k])
  {
    if segs == [] then [] else PrintSegment(segs[0]) + PrintSegments(segs[1..])
  }

  lemma {:induction false} FillsIsValid(line: bytes, segs: seq<Segment>, width: nat)
    requires Fills(line, segs, width)
    ensures forall k :: 0 <= k < |segs| ==> ValidSegment(segs[k])
    ensures |line| <= width && |Expand(line, segs)| == width
    decreases |segs|
  {
    if segs != [] {
      FillsIsValid(Extend(line, segs[0]), segs[1..], width);
      forall k | 0 <= k < |segs|
        ensures ValidSegment(segs[k])
      {
        if k > 0 {
          assert segs[k] == segs[1..][k - 1];
        }
      }
    }
  }

  lemma SegmentControl(s: Segment)
    requires ValidSegment(s)
    ensures SplitControl(PrintSegment(s)[0]) == (|s.lits|, s.run)
    ensures PrintSegment(s)[1..] == s.lits
  {
  }

  lemma LineStep(data: bytes, pos: nat, width: nat, line: bytes, s: Segment)
    requires |line| < width && ValidSegment(s) && |Extend(line, s)| <= width
    requires pos + |PrintSegment(s)| <= |data| && data[pos..pos + |PrintSegment(s)|] == PrintSegment(s)
    ensures ParseLine(data, pos, width, line) == ParseLine(data, pos + |PrintSegment(s)|, width, Extend(line, s))
  {
    hide SplitControl, LastByte, Repeated, Extend;
    var code := PrintSegment(s);
    SegmentControl(s);
    ExtendRepeats(line, s);
    assert data[pos] == data[pos..pos + |code|][0] == code[0];
    assert data[pos + 1..pos + |code|] == data[pos..pos + |code|][1..] == s.lits;
  }

  /** A segment that does not fit the scanline, or the stream, is an error of its own kind. */
  lemma BadSegmentFails(data: bytes, pos: nat, width: nat, line: bytes, s: Segment)
    requires |line| < width && ValidSegment(s) && pos < |data| && data[pos] == PrintSegment(s)[0]
    ensures pos + 1 + |s.lits| > |data| || |line| + |s.lits| > width ==>
              ParseLine(data, pos, width, line) == Err(Protocol(PlanarOverranScanline))
    ensures pos + 1 + |s.lits| <= |data| && |line| + |s.lits| <= width < |line| + |s.lits| + s.run ==>
              ParseLine(data, pos, width, line) == Err(Protocol(PlanarRunOverranScanline))
    ensures ParseLine(data[..pos], pos, width, line) == Err(Short(pos + 1, pos))
  {
    hide SplitControl, LastByte, Repeated;
    SegmentControl(s);
  }

  lemma FullLine(data: bytes, pos: nat, width: nat, line: bytes)
    requires |line| == width
    ensures ParseLine(data, pos, width, line) == Ok((line, pos))
  {
  }

  /** A scanline reads back from any segmentation of it, wherever it stands in a stream. */
  lemma {:induction false} SegmentsRead(pre: bytes, segs: seq<Segment>, post: bytes, width: nat, line: bytes)
    requires Fills(line, segs, width)
    ensures forall k :: 0 <= k < |segs| ==> ValidSegment(segs[k])
    ensures ParseLine(pre + PrintSegments(segs) + post, |pre|, width, line)
            == Ok((Expand(line, segs), |pre| + |PrintSegments(segs)|))
    decreases |segs|
  {
    hide ValidSegment, PrintSegment, Extend, ParseLine;
    FillsIsValid(line, segs, width);
    if segs == [] {
      FullLine(pre + [] + post, |pre|, width, line);
    } else {
      var s := segs[0];
      var code, rest := PrintSegment(s), PrintSegments(segs[1..]);
      var data := pre + PrintSegments(segs) + post;
      assert data == (pre + code) + rest + post;
      FillsIsValid(Extend(line, s), segs[1..], width);
      assert data[|pre|..|pre| + |code|] == code;
      LineStep(data, |pre|, width, line, s);
      SegmentsRead(pre + code, segs[1..], post, width, Extend(line, s));
    }
  }

  /** A scanline the decoder accepts is the print of some segmentation of it. */
  lemma {:induction false} LineWasPrinted(data: bytes, pos: nat, width: nat, line: bytes) returns (segs: seq<Segment>)
    requires pos <= |data| && |line| <= width && ParseLine(data, pos, width, line).Ok?
    ensures Fills(line, segs, width) && (forall k :: 0 <= k < |segs| ==> ValidSegment(segs[k]))
    ensures var (full, end) := ParseLine(data, pos, width, line).value;
            pos <= end <= |data| && full == Expand(line, segs) && data[pos..end] == PrintSegments(segs)
    decreases |data| - pos
  {
    if |line| == width {
      segs := [];
    } else {
      hide ParseLine, SplitControl, PrintSegment, Extend;
      var s, next := FirstSegment(data, pos, width, line);
      var rest := LineWasPrinted(data, next, width, Extend(line, s));
      segs := [s] + rest;
      FillsIsValid(Extend(line, s), rest, width);
      assert segs[1..] == rest;
      FillsIsValid(line, segs, width);
      SliceJoins(data, pos, next, ParseLine(data, pos, width, line).value.1);
    }
  }

  /** The segment that stands first in the rest of a scanline, and where it ends. */
  lemma FirstSegment(data: bytes, pos: nat, width: nat, line: bytes) returns (s: Segment, next: nat)
    requires pos <= |data| && |line| < width && ParseLine(data, pos, width, line).Ok?
    ensures ValidSegment(s) && pos < next <= |data| && |Extend(line, s)| <= width
    ensures data[pos..next] == PrintSegment(s)
    ensures ParseLine(data, pos, width, line) == ParseLine(data, next, width, Extend(line, s))
  {
    hide LastByte, Repeated, SplitControl, Extend;
    var (cRaw, nRun) := SplitControl(data[pos]);
    next := pos + 1 + cRaw;
    s := Segment(data[pos + 1..next], nRun);
    ExtendRepeats(line, s);
    ControlIsSegment(data[pos], s);
    SliceJoins(data, pos, pos + 1, next);
  }

  lemma ControlIsSegment(control: byte, s: Segment)
    requires SplitControl(control) == (|s.lits|, s.run)
    ensures ValidSegment(s) && PrintSegment(s) == [control] + s.lits
  {
  }

  // ----- Some segmentation always exists -----

  /** How many bytes from `k` on, at most `cap`, repeat the byte before them. */
  function RunAt(line: bytes, k: nat, cap: nat): (n: nat)
    requires k <= |line|
    ensures n <= cap && k + n <= |line|
    ensures line[k..k + n] == Repeated(LastByte(line[..k]), n)
    decreases cap
  {
    if cap == 0 || k == |line| || line[k] != LastByte(line[..k]) then 0
    else
      assert LastByte(line[..k + 1]) == line[k];
      var n := RunAt(line, k + 1, cap - 1);
      assert line[k..k + 1 + n] == [line[k]] + line[k + 1..k + 1 + n];
      1 + n
  }

  function SegmentAt(line: bytes, k: nat): (s: Segment)
    requires k < |line|
    ensures ValidSegment(s) && 0 < |s.lits| + s.run && k + |s.lits| + s.run <= |line|
  {
    var n := RunAt(line, k, 47);
    if n >= 3 then Segment([], n) else Segment(line[k..k + Min(15, |line| - k)], 0)
  }

  lemma SliceExtends(line: bytes, k: nat, n: nat)
    requires k + n <= |line|
    ensures line[..k] + line[k..k + n] == line[..k + n]
    ensures line[..k] + [] == line[..k]
  {
  }

  lemma SegmentExtends(line: bytes, k: nat)
    requires k < |line|
    ensures var s := SegmentAt(line, k); Extend(line[..k], s) == line[..k + |s.lits| + s.run]
  {
    hide RunAt, LastByte, Repeated, Extend;
    ExtendRepeats(line[..k], SegmentAt(line, k));
    var n := RunAt(line, k, 47);
    if n >= 3 {
      SliceExtends(line, k, n);
    } else {
      var m: nat := Min(15, |line| - k);
      SliceExtends(line, k, m);
      SliceExtends(line, k + m, 0);
      NoRepeats(LastByte(line[..k + m]));
    }
  }

  lemma NoRepeats(b: byte)
    ensures Repeated(b, 0) == []
  {
  }

  function Segmentation(line: bytes, k: nat): seq<Segment>
    requires k <= |line|
    decreases |line| - k
  {
    if k == |line| then []
    else
      var s := SegmentAt(line, k);
      [s] + Segmentation(line, k + |s.lits| + s.run)
  }

  lemma {:induction false} SegmentationFills(line: bytes, k: nat)
    requires k <= |line|
    ensures Fills(line[..k], Segmentation(line, k), |line|) && Expand(line[..k], Segmentation(line, k)) == line
    decreases |line| - k
  {
    hide SegmentAt, Extend, ValidSegment;
    if k == |line| {
      assert line[..k] == line;
    } else {
      var s := SegmentAt(line, k);
      var next := k + |s.lits| + s.run;
      SegmentExtends(line, k);
      SegmentationFills(line, next);
      assert Segmentation(line, k)[1..] == Segmentation(line, next);
    }
  }

  // ----- Planes -----

  /** One segmentation for each scanline. */
  type Coding = seq<seq<Segment>>

  ghost predicate ValidCoding(rows: Coding, width: nat) {
    forall y :: 0 <= y < |rows| ==> Fills([], rows[y], width)
  }

  lemma RowIsValid(rows: Coding, width: nat, y: nat)
    requires ValidCoding(rows, width) && y < |rows|
    ensures forall k :: 0 <= k < |rows[y]| ==> ValidSegment(rows[y][k])
    ensures |Expand([], rows[y])| == width
  {
    FillsIsValid([], rows[y], width);
  }

  function PrintRows(rows: Coding, width: nat): bytes
    requires ValidCoding(rows, width)
  {
    if rows == [] then []
    else
      RowIsValid(rows, width, 0);
      PrintSegments(rows[0]) + PrintRows(rows[1..], width)
  }

  function Grid(rows: Coding): bytes {
    if rows == [] then [] else Expand([], rows[0]) + Grid(rows[1..])
  }

  lemma {:induction false} RowsRead(pre: bytes, rows: Coding, post: bytes, width: nat, raw: bytes)
    requires ValidCoding(rows, width)
    ensures ParseGrid(pre + PrintRows(rows, width) + post, |pre|, width, |rows|, raw)
            == Ok((raw + Grid(rows), |pre| + |PrintRows(rows, width)|))
    decreases |rows|
  {
    hide Fills, ParseLine, Expand, PrintSegments;
    if rows == [] {
      assert raw + [] == raw;
    } else {
      RowIsValid(rows, width, 0);
      var code, rest := PrintSegments(rows[0]), PrintRows(rows[1..], width);
      var data := pre + PrintRows(rows, width) + post;
      var line := Expand([], rows[0]);
      assert data == pre + code + (rest + post);
      SegmentsRead(pre, rows[0], rest + post, width, []);
      assert data == (pre + code) + rest + post;
      RowsRead(pre + code, rows[1..], post, width, raw + line);
      assert raw + Grid(rows) == raw + line + Grid(rows[1..]);
    }
  }

  /** `code` is a way to write `plane`: its bytes as they are, or any coding of its delta grid. */
  ghost predicate Codes(code: bytes, plane: bytes, width: nat, height: nat, rle: bool) {
    && |plane| == width * height
    && if rle then exists rows :: CodesRle(code, plane, width, height, rows) else code == plane
  }

  ghost predicate CodesRle(code: bytes, plane: bytes, width: nat, height: nat, rows: Coding) {
    ValidCoding(rows, width) && |rows| == height && Grid(rows) == Redelta(plane, width)
    && code == PrintRows(rows, width)
  }

  /** Each plane delimits itself: it reads back wherever it stands, and reading stops at its last byte. */
  lemma PlaneReads(pre: bytes, code: bytes, post: bytes, plane: bytes, width: nat, height: nat, rle: bool)
    requires Codes(code, plane, width, height, rle)
    ensures Plane(pre + code + post, |pre|, width, height, rle) == Ok((plane, |pre| + |code|))
  {
    hide ValidCoding, Grid, PrintRows, ParseGrid, Redelta, Undelta;
    if rle {
      var rows :| CodesRle(code, plane, width, height, rows);
      RowsRead(pre, rows, post, width, []);
      assert [] + Grid(rows) == Grid(rows);
      UndeltaOfRedelta(plane, width);
    } else {
      assert (pre + code + post)[|pre|..|pre| + |code|] == code;
    }
  }

  function CodeRows(raw: bytes, width: nat, height: nat): (rows: Coding)
    requires |raw| == width * height
    ensures |rows| == height
    decreases height
  {
    if height == 0 then []
    else
      assert width * height == width * (height - 1) + width;
      [Segmentation(raw[..width], 0)] + CodeRows(raw[width..], width, height - 1)
  }

  lemma {:induction false} CodeRowsFaithful(raw: bytes, width: nat, height: nat)
    requires |raw| == width * height
    ensures ValidCoding(CodeRows(raw, width, height), width) && Grid(CodeRows(raw, width, height)) == raw
    decreases height
  {
    hide Fills, Expand, Segmentation;
    if height == 0 {
      assert raw == [];
    } else {
      assert width * height == width * (height - 1) + width;
      var first, rest := raw[..width], raw[width..];
      assert first[..0] == [];
      SegmentationFills(first, 0);
      CodeRowsFaithful(rest, width, height - 1);
      var rows := CodeRows(raw, width, height);
      assert rows[1..] == CodeRows(rest, width, height - 1);
      forall y | 0 <= y < |rows|
        ensures Fills([], rows[y], width)
      {
        if y > 0 {
          assert rows[y] == rows[1..][y - 1];
        }
      }
      assert raw == first + rest;
    }
  }

  /** Every plane can be written in either form. */
  lemma EveryPlaneHasCode(plane: bytes, width: nat, height: nat, rle: bool)
    requires |plane| == width * height
    ensures exists code :: Codes(code, plane, width, height, rle)
  {
    if rle {
      var raw := Redelta(plane, width);
      CodeRowsFaithful(raw, width, height);
      var rows := CodeRows(raw, width, height);
      assert CodesRle(PrintRows(rows, width), plane, width, height, rows);
      assert Codes(PrintRows(rows, width), plane, width, height, true);
    } else {
      assert Codes(plane, plane, width, height, false);
    }
  }

  // ----- A plane's decoding depends on its own bytes only -----

  lemma {:induction false} LineDependsOnItsBytes(data: bytes, other: bytes, pos: nat, width: nat, line: bytes, end: nat)
    requires |line| <= width && ParseLine(data, pos, width, line).Ok?
             && ParseLine(data, pos, width, line).value.1 == end
    requires pos <= end <= |data| && end <= |other| && other[pos..end] == data[pos..end]
    ensures ParseLine(other, pos, width, line) == ParseLine(data, pos, width, line)
    decreases |data| - pos
  {
    hide LastByte, SplitControl;
    if |line| < width {
      var (cRaw, nRun) := SplitControl(data[pos]);
      var next := pos + 1 + cRaw;
      var line1 := line + data[pos + 1..next];
      var line2 := line1 + Repeated(LastByte(line1), nRun);
      LineLength(data, next, width, line2);
      assert data[pos] == data[pos..end][0] == other[pos];
      SameSlice(data, other, pos, end, pos + 1, next);
      SameSlice(data, other, pos, end, next, end);
      LineDependsOnItsBytes(data, other, next, width, line2, end);
    }
  }

  lemma {:induction false} GridDependsOnItsBytes(data: bytes, other: bytes, pos: nat, width: nat, rows: nat, raw: bytes,
                                                 end: nat)
    requires ParseGrid(data, pos, width, rows, raw).Ok? && ParseGrid(data, pos, width, rows, raw).value.1 == end
    requires pos <= end <= |data| && end <= |other| && other[pos..end] == data[pos..end]
    ensures ParseGrid(other, pos, width, rows, raw) == ParseGrid(data, pos, width, rows, raw)
    decreases rows
  {
    hide ParseLine;
    if rows > 0 {
      var (line, next) := ParseLine(data, pos, width, []).value;
      LineLength(data, pos, width, []);
      GridLength(data, next, width, rows - 1, raw + line);
      SameSlice(data, other, pos, end, pos, next);
      SameSlice(data, other, pos, end, next, end);
      LineDependsOnItsBytes(data, other, pos, width, [], next);
      GridDependsOnItsBytes(data, other, next, width, rows - 1, raw + line, end);
    }
  }

  lemma PlaneDependsOnItsBytes(data: bytes, other: bytes, pos: nat, width: nat, height: nat, rle: bool)
    requires pos <= |data| && Plane(data, pos, width, height, rle).Ok?
    requires var end := Plane(data, pos, width, height, rle).value.1;
             pos <= end <= |data| && end <= |other| && other[pos..end] == data[pos..end]
    ensures Plane(other, pos, width, height, rle) == Plane(data, pos, width, height, rle)
  {
    if rle {
      GridDependsOnItsBytes(data, other, pos, width, height, [], Plane(data, pos, width, height, rle).value.1);
    }
  }

  // ----- Whole bitmaps -----

  /** The header byte of its parts: color loss level, chroma subsampling, RLE, no alpha, and two reserved bits. */
  function HeaderOf(f: Format, reserved: nat): byte
    requires f.cll < 8 && reserved < 4
  {
    f.cll + (if f.cs then 0x08 else 0) + (if f.rle then 0x10 else 0) + (if f.hasAlpha then 0 else 0x20)
      + 0x40 * reserved
  }

  /** The parts are read from their header. */
  lemma HeaderReads(f: Format, reserved: nat)
    requires f.cll < 8 && reserved < 4
    ensures FormatOf(HeaderOf(f, reserved)) == f
  {
    HeaderBits(f.cll, if f.cs then 1 else 0, if f.rle then 1 else 0, if f.hasAlpha then 0 else 1, reserved);
  }

  lemma HeaderNotZero(f: Format, reserved: nat)
    requires f.cll < 8 && reserved < 4
    ensures HeaderOf(f, reserved) == 0 <==> f == Format(0, false, false, true) && reserved == 0
  {
  }

  lemma HeaderBits(cll: nat, cs: nat, rle: nat, bare: nat, reserved: nat)
    requires cll < 8 && cs < 2 && rle < 2 && bare < 2
    ensures var h := cll + 0x08 * cs + 0x10 * rle + 0x20 * bare + 0x40 * reserved;
            h % 8 == cll && h / 0x08 % 2 == cs && h / 0x10 % 2 == rle && h / 0x20 % 2 == bare
  {
    var h := cll + 0x08 * cs + 0x10 * rle + 0x20 * bare + 0x40 * reserved;
    LowBits(h, cs + 2 * rle + 4 * bare + 8 * reserved, cll);
    OneBit(h, 0x08, cs, rle + 2 * bare + 4 * reserved, cll);
    OneBit(h, 0x10, rle, bare + 2 * reserved, cll + 0x08 * cs);
    OneBit(h, 0x20, bare, reserved, cll + 0x08 * cs + 0x10 * rle);
  }

  lemma LowBits(h: nat, high: nat, low: nat)
    requires low < 8 && h == 8 * high + low
    ensures h % 8 == low
  {
  }

  lemma OneBit(h: nat, unit: nat, bit: nat, high: nat, low: nat)
    requires unit in {0x08, 0x10, 0x20} && low < unit && bit < 2 && h == unit * (bit + 2 * high) + low
    ensures h / unit % 2 == bit
  {
    SameQuotient(unit, bit + 2 * high, low, h / unit, h % unit);
    Parity(bit, high);
  }

  lemma Parity(bit: nat, high: nat)
    requires bit < 2
    ensures (bit + 2 * high) % 2 == bit
  {
  }

  /** Every byte is the header of its parts. */
  lemma HeaderWasPrinted(header: byte)
    ensures HeaderOf(FormatOf(header), header / 0x40) == header
  {
    assert header / 0x10 == header / 0x08 / 2;
    assert header / 0x20 == header / 0x10 / 2;
    assert header / 0x40 == header / 0x20 / 2;
  }

  /** A header byte, then the alpha plane if there is one, then three planes. */
  function Stream(f: Format, reserved: nat, a: bytes, p: bytes, q: bytes, s: bytes): bytes
    requires f.cll < 8 && reserved < 4
  {
    [HeaderOf(f, reserved)] + (if f.hasAlpha then a else []) + p + q + s
  }

  /** What the planes of a stream with this header must be coded by. */
  ghost predicate CodesStream(f: Format, a: bytes, p: bytes, q: bytes, s: bytes,
                              alpha: bytes, x: bytes, y: bytes, z: bytes, width: nat, height: nat) {
    && (f.hasAlpha ==> Codes(a, alpha, width, height, f.rle)) && Codes(p, x, width, height, f.rle)
    && Codes(q, y, ChromaSize(width, f.cs), ChromaSize(height, f.cs), f.rle)
    && Codes(s, z, ChromaSize(width, f.cs), ChromaSize(height, f.cs), f.rle)
  }

  /** An optional alpha plane, then three planes one after the other. */
  ghost predicate PlanesAt(data: bytes, width: nat, height: nat, cw: nat, ch: nat, f: Format, alpha: Option<bytes>,
                           x: bytes, y: bytes, z: bytes, p0: nat, p1: nat, p2: nat, p3: nat) {
    && AlphaPlane(data, 1, width, height, f.hasAlpha, f.rle) == Ok((alpha, p0))
    && Plane(data, p0, width, height, f.rle) == Ok((x, p1)) && Plane(data, p1, cw, ch, f.rle) == Ok((y, p2))
    && Plane(data, p2, cw, ch, f.rle) == Ok((z, p3))
  }

  /** The coded planes are found one after the other. */
  lemma StreamReads(f: Format, reserved: nat, a: bytes, p: bytes, q: bytes, s: bytes,
                    alpha: bytes, x: bytes, y: bytes, z: bytes, width: nat, height: nat)
    returns (p0: nat, p1: nat, p2: nat, p3: nat)
    requires f.cll < 8 && reserved < 4 && CodesStream(f, a, p, q, s, alpha, x, y, z, width, height)
    ensures var data := Stream(f, reserved, a, p, q, s);
            && data != [] && data[0] == HeaderOf(f, reserved)
            && PlanesAt(data, width, height, ChromaSize(width, f.cs), ChromaSize(height, f.cs), f,
                        if f.hasAlpha then Some(alpha) else None, x, y, z, p0, p1, p2, p3)
  {
    hide Codes, Plane, HeaderOf, ChromaSize;
    p0 := 1 + if f.hasAlpha then |a| else 0;
    p1 := p0 + |p|;
    p2 := p1 + |q|;
    p3 := p2 + |s|;
    var cw, ch := ChromaSize(width, f.cs), ChromaSize(height, f.cs);
    var header := HeaderOf(f, reserved);
    var data := Stream(f, reserved, a, p, q, s);
    var head := [header] + (if f.hasAlpha then a else []);
    if f.hasAlpha {
      PlaneReads([header], a, p + q + s, alpha, width, height, f.rle);
      assert data == [header] + a + (p + q + s);
    }
    PlaneReads(head, p, q + s, x, width, height, f.rle);
    assert data == head + p + (q + s);
    PlaneReads(head + p, q, s, y, cw, ch, f.rle);
    assert data == head + p + q + s;
    PlaneReads(head + p + q, s, [], z, cw, ch, f.rle);
    assert data == head + p + q + s + [];
  }

  lemma FullSizes(f: Format, a: bytes, p: bytes, q: bytes, s: bytes,
                  alpha: bytes, x: bytes, y: bytes, z: bytes, width: nat, height: nat)
    requires CodesStream(f, a, p, q, s, alpha, x, y, z, width, height)
    ensures |x| == width * height && (f.hasAlpha ==> |alpha| == width * height)
  {
    hide ChromaSize;
    CodedSizes(f, a, p, q, s, alpha, x, y, z, width, height);
  }

  lemma CodedSizes(f: Format, a: bytes, p: bytes, q: bytes, s: bytes,
                   alpha: bytes, x: bytes, y: bytes, z: bytes, width: nat, height: nat)
    requires CodesStream(f, a, p, q, s, alpha, x, y, z, width, height)
    ensures |x| == width * height && (f.hasAlpha ==> |alpha| == width * height)
    ensures |y| == |z| == ChromaSize(width, f.cs) * ChromaSize(height, f.cs)
  {
    hide CodesRle;
  }

  lemma AlphaMatches(f: Format, alpha: bytes, n: nat)
    ensures AlphaOr(if f.hasAlpha then Some(alpha) else None, n) == if f.hasAlpha then alpha else Opaque(n)
  {
  }

  lemma PlanesAtSizes(data: bytes, width: nat, height: nat, cw: nat, ch: nat, f: Format, alpha: Option<bytes>,
                      x: bytes, y: bytes, z: bytes, p0: nat, p1: nat, p2: nat, p3: nat, n: nat)
    requires n == width * height
    requires PlanesAt(data, width, height, cw, ch, f, alpha, x, y, z, p0, p1, p2, p3)
    ensures |x| == |AlphaOr(alpha, n)| == n && |y| == |z| == cw * ch
  {
    hide Plane, AlphaPlane, AlphaOr;
    AlphaLength(data, 1, width, height, f.hasAlpha, f.rle);
    PlaneLength(data, p0, width, height, f.rle);
    PlaneLength(data, p1, cw, ch, f.rle);
    PlaneLength(data, p2, cw, ch, f.rle);
  }

  lemma LosslessOfPlanes(data: bytes, width: nat, height: nat, f: Format, alpha: Option<bytes>,
                         x: bytes, y: bytes, z: bytes, p0: nat, p1: nat, p2: nat, p3: nat, n: nat)
    requires n == width * height && !f.cs
    requires PlanesAt(data, width, height, ChromaSize(width, f.cs), ChromaSize(height, f.cs), f, alpha, x, y, z, p0, p1,
               p2, p3)
    ensures |x| == |y| == |z| == |AlphaOr(alpha, n)| == n
    ensures Lossless(data, width, height, f) == Ok(Weave(x, y, z, AlphaOr(alpha, n)))
  {
    hide Plane, AlphaPlane, Weave, AlphaOr;
    PlanesAtSizes(data, width, height, width, height, f, alpha, x, y, z, p0, p1, p2, p3, n);
  }

  /** The decoded image of lossy planes. */
  function LossyImage(y: bytes, co: bytes, cg: bytes, at: bytes, width: nat, height: nat, f: Format): (rgba: bytes)
    requires |y| == |at| == width * height
    requires |co| == |cg| == ChromaSize(width, f.cs) * ChromaSize(height, f.cs)
    ensures |rgba| == 4 * |y|
  {
    var px := LossyPixels(y, co, cg, width, height, f, |y|);
    Weave(Reds(px), Greens(px), Blues(px), at)
  }

  lemma LossyOfPlanes(data: bytes, width: nat, height: nat, f: Format, alpha: Option<bytes>,
                      x: bytes, y: bytes, z: bytes, p0: nat, p1: nat, p2: nat, p3: nat, n: nat)
    requires n == width * height
    requires PlanesAt(data, width, height, ChromaSize(width, f.cs), ChromaSize(height, f.cs), f, alpha, x, y, z, p0, p1,
               p2, p3)
    ensures |x| == |AlphaOr(alpha, n)| == n
    ensures |y| == |z| == ChromaSize(width, f.cs) * ChromaSize(height, f.cs)
    ensures Lossy(data, width, height, f) == Ok(LossyImage(x, y, z, AlphaOr(alpha, n), width, height, f))
  {
    hide Plane, AlphaPlane, Weave, AlphaOr, LossyPixels, ChromaSize, Reds, Greens, Blues;
    PlanesAtSizes(data, width, height, ChromaSize(width, f.cs), ChromaSize(height, f.cs), f, alpha, x, y, z, p0, p1, p2,
      p3, n);
  }

  lemma DecodedByFormat(data: bytes, width: nat, height: nat, f: Format)
    requires data != [] && data[0] != 0 && FormatOf(data[0]) == f
    ensures Decoded(data, width, height)
            == if f.cll != 0 || f.cs then Lossy(data, width, height, f) else Lossless(data, width, height, f)
  {
    hide Lossy, Lossless, Uncompressed, FormatOf;
  }

  /**
   A header of these parts ‖ [A] ‖ R ‖ G ‖ B decodes to exactly those planes, woven; without an alpha plane every
   pixel is opaque. Only the header zero does not announce its planes.
   */
  lemma LosslessRoundTrip(f: Format, reserved: nat, a: bytes, p: bytes, q: bytes, s: bytes,
                          alpha: bytes, red: bytes, green: bytes, blue: bytes, width: nat, height: nat)
    requires f.cll == 0 && !f.cs && reserved < 4 && (f.rle || !f.hasAlpha || reserved != 0)
    requires CodesStream(f, a, p, q, s, alpha, red, green, blue, width, height)
    ensures |red| == |green| == |blue| == width * height && (f.hasAlpha ==> |alpha| == width * height)
    ensures Decoded(Stream(f, reserved, a, p, q, s), width, height)
            == Ok(Weave(red, green, blue, if f.hasAlpha then alpha else Opaque(|red|)))
  {
    hide PlanesAt, CodesStream, Weave, Stream, Lossless, Decoded, ChromaSize, AlphaOr, Opaque, HeaderOf, FormatOf;
    var data := Stream(f, reserved, a, p, q, s);
    FullSizes(f, a, p, q, s, alpha, red, green, blue, width, height);
    LosslessHeader(f, reserved, a, p, q, s, width, height);
    var p0, p1, p2, p3 := StreamReads(f, reserved, a, p, q, s, alpha, red, green, blue, width, height);
    AlphaMatches(f, alpha, |red|);
    LosslessOfPlanes(data, width, height, f, if f.hasAlpha then Some(alpha) else None,
                     red, green, blue, p0, p1, p2, p3, |red|);
  }

  lemma LosslessHeader(f: Format, reserved: nat, a: bytes, p: bytes, q: bytes, s: bytes, width: nat, height: nat)
    requires f.cll == 0 && !f.cs && reserved < 4 && (f.rle || !f.hasAlpha || reserved != 0)
    ensures Decoded(Stream(f, reserved, a, p, q, s), width, height)
            == Lossless(Stream(f, reserved, a, p, q, s), width, height, f)
  {
    hide Decoded, Lossless, Lossy, HeaderOf, FormatOf;
    HeaderReads(f, reserved);
    HeaderNotZero(f, reserved);
    DecodedByFormat(Stream(f, reserved, a, p, q, s), width, height, f);
  }

  /** The same for the lossy color space, with the chroma planes at their subsampled size. */
  lemma LossyRoundTrip(f: Format, reserved: nat, a: bytes, p: bytes, q: bytes, s: bytes,
                       alpha: bytes, y: bytes, co: bytes, cg: bytes, width: nat, height: nat)
    requires f.cll < 8 && reserved < 4 && (f.cll != 0 || f.cs)
    requires CodesStream(f, a, p, q, s, alpha, y, co, cg, width, height)
    ensures |y| == width * height && (f.hasAlpha ==> |alpha| == width * height)
    ensures |co| == |cg| == ChromaSize(width, f.cs) * ChromaSize(height, f.cs)
    ensures Decoded(Stream(f, reserved, a, p, q, s), width, height)
            == Ok(LossyImage(y, co, cg, if f.hasAlpha then alpha else Opaque(|y|), width, height, f))
  {
    hide PlanesAt, CodesStream, Stream, LossyImage, Lossy, Decoded, ChromaSize, AlphaOr, Opaque, HeaderOf, FormatOf;
    HeaderReads(f, reserved);
    HeaderNotZero(f, reserved);
    CodedSizes(f, a, p, q, s, alpha, y, co, cg, width, height);
    var p0, p1, p2, p3 := StreamReads(f, reserved, a, p, q, s, alpha, y, co, cg, width, height);
    DecodedByFormat(Stream(f, reserved, a, p, q, s), width, height, f);
    var n := |y|;
    AlphaMatches(f, alpha, n);
    LossyOfPlanes(Stream(f, reserved, a, p, q, s), width, height, f, if f.hasAlpha then Some(alpha) else None,
                  y, co, cg, p0, p1, p2, p3, n);
  }

  /** Streams too short for a header, for interleaved pixels, or for a raw plane. */
  lemma ShortStreams(data: bytes, width: nat, height: nat, n: nat, pos: nat)
    requires n == width * height
    ensures Decoded([], width, height) == Err(Short(1, 0))
    ensures data != [] && data[0] == 0 && |data| < 1 + 4 * n ==>
              Decoded(data, width, height) == Err(Short(1 + 4 * n, |data|))
    ensures |data| < pos + n ==> Plane(data, pos, width, height, false) == Err(Short(pos + n, |data|))
  {
  }

  /** The i-th group of four bytes. */
  function FourAt(s: bytes, i: nat): bytes
    requires 4 * i + 4 <= |s|
  {
    s[4 * i..4 * i + 4]
  }

  lemma FourOfSum(s: bytes, last: bytes, n: nat, i: nat)
    requires |s| == 4 * n && |last| == 4 && i <= n
    ensures FourAt(s + last, i) == if i < n then FourAt(s, i) else last
  {
  }

  /** The four planes can be read off the woven pixels. */
  lemma {:induction false} WovenPixel(r: bytes, g: bytes, b: bytes, a: bytes, i: nat)
    requires i < |r| == |g| == |b| == |a|
    ensures FourAt(Weave(r, g, b, a), i) == [r[i], g[i], b[i], a[i]]
    decreases |r|
  {
    hide FourAt;
    var n := |r| - 1;
    FourOfSum(Weave(r[..n], g[..n], b[..n], a[..n]), [r[n], g[n], b[n], a[n]], n, i);
    if i < n {
      WovenPixel(r[..n], g[..n], b[..n], a[..n], i);
    }
  }

  /** Pixel i of a stream of coded planes: its own byte of each plane, opaque where there is no alpha plane. */
  lemma LosslessPixel(f: Format, reserved: nat, a: bytes, p: bytes, q: bytes, s: bytes,
                      alpha: bytes, red: bytes, green: bytes, blue: bytes, width: nat, height: nat, i: nat)
    requires f.cll == 0 && !f.cs && reserved < 4 && (f.rle || !f.hasAlpha || reserved != 0)
    requires CodesStream(f, a, p, q, s, alpha, red, green, blue, width, height)
    requires i < |red|
    ensures i < |green| && i < |blue| && (f.hasAlpha ==> i < |alpha|)
    ensures var r := Decoded(Stream(f, reserved, a, p, q, s), width, height);
            && r.Ok? && |r.value| == 4 * |red|
            && FourAt(r.value, i) == [red[i], green[i], blue[i], if f.hasAlpha then alpha[i] else 0xFF]
  {
    hide CodesStream, Stream, Decoded, Weave, FourAt;
    LosslessRoundTrip(f, reserved, a, p, q, s, alpha, red, green, blue, width, height);
    WovenPixel(red, green, blue, if f.hasAlpha then alpha else Opaque(|red|), i);
  }

  /** The format bits of raw planes with alpha leave only header zero and three headers with reserved bits. */
  lemma RawAlphaHeader(header: byte)
    ensures var f := FormatOf(header);
            f.cll == 0 && !f.cs && !f.rle && f.hasAlpha <==> header in {0x00, 0x40, 0x80, 0xC0}
  {
  }

  /** Red and blue of the i-th interleaved pixel swapped. */
  function SwappedAt(px: bytes, i: nat): bytes
    requires 4 * i + 4 <= |px|
  {
    [px[4 * i + 2], px[4 * i + 1], px[4 * i], px[4 * i + 3]]
  }

  lemma SwapNext(px: bytes, n: nat)
    requires n > 0 && |px| == 4 * n
    ensures SwapBgra(px, n) == SwapBgra(px[..4 * n - 4], n - 1) + SwappedAt(px, n - 1)
  {
  }

  lemma {:induction false} SwappedPixel(px: bytes, n: nat, i: nat)
    requires |px| == 4 * n && i < n
    ensures FourAt(SwapBgra(px, n), i) == SwappedAt(px, i)
    decreases n
  {
    hide SwapBgra, FourAt;
    var k := 4 * n - 4;
    SwapNext(px, n);
    FourOfSum(SwapBgra(px[..k], n - 1), SwappedAt(px, n - 1), n - 1, i);
    if i < n - 1 {
      SwappedPixel(px[..k], n - 1, i);
    }
  }

  /** Interleaved BGRA pixels, of which there must be enough, keep their place and alpha and swap red with blue. */
  lemma UncompressedRoundTrip(px: bytes, n: nat, width: nat, height: nat, rest: bytes, i: nat)
    requires n == width * height && |px| == 4 * n && i < n
    ensures var r := Decoded([0] + px + rest, width, height);
            && r.Ok? && |r.value| == 4 * n && FourAt(r.value, i) == SwappedAt(px, i)
  {
    hide SwapBgra, FourAt;
    HeaderZeroDecodes(px, n, width, height, rest);
    SwappedPixel(px, n, i);
  }

  lemma HeaderZeroDecodes(px: bytes, n: nat, width: nat, height: nat, rest: bytes)
    requires n == width * height && |px| == 4 * n
    ensures Decoded([0] + px + rest, width, height) == Ok(SwapBgra(px, n))
  {
    hide SwapBgra;
    assert ([0] + px + rest)[1..1 + 4 * n] == px;
  }

  /** Two lists of pixels are the same exactly when they agree pixel by pixel. */
  lemma SamePixels(s: bytes, t: bytes, n: nat)
    requires |s| == |t| == 4 * n
    ensures s == t <==> forall i :: 0 <= i < n ==> FourAt(s, i) == FourAt(t, i)
  {
    if forall i :: 0 <= i < n ==> FourAt(s, i) == FourAt(t, i) {
      forall j | 0 <= j < |s|
        ensures s[j] == t[j]
      {
        var i := j / 4;
        assert s[j] == FourAt(s, i)[j - 4 * i] && t[j] == FourAt(t, i)[j - 4 * i];
      }
    }
  }

  /** Swapping interleaved bytes gives the woven planes exactly when it does so pixel by pixel. */
  lemma SwapIsWeave(d: bytes, r: bytes, g: bytes, b: bytes, a: bytes, n: nat)
    requires |d| == 4 * n && |r| == |g| == |b| == |a| == n
    ensures SwapBgra(d, n) == Weave(r, g, b, a)
            <==> forall i :: 0 <= i < n ==> SwappedAt(d, i) == [r[i], g[i], b[i], a[i]]
  {
    hide SwapBgra, Weave, FourAt, SwappedAt;
    SamePixels(SwapBgra(d, n), Weave(r, g, b, a), n);
    forall i | 0 <= i < n
      ensures FourAt(SwapBgra(d, n), i) == SwappedAt(d, i) && FourAt(Weave(r, g, b, a), i) == [r[i], g[i], b[i], a[i]]
    {
      SwappedPixel(d, n, i);
      WovenPixel(r, g, b, a, i);
    }
  }

  /**
   Raw planes with alpha under header zero, which the format's bits announce, are taken as interleaved
   BGRA: they decode to their own pixels exactly when every four consecutive plane bytes happen to be the
   pixel that stands there.
   */
  lemma HeaderZeroRoundTrip(a: bytes, red: bytes, green: bytes, blue: bytes, width: nat, height: nat, n: nat)
    requires n == width * height && |a| == |red| == |green| == |blue| == n
    ensures var d := a + red + green + blue;
            Decoded(Stream(Format(0, false, false, true), 0, a, red, green, blue), width, height)
              == Ok(Weave(red, green, blue, a))
            <==> forall i :: 0 <= i < n ==> SwappedAt(d, i) == [red[i], green[i], blue[i], a[i]]
  {
    hide SwapBgra, Weave, Decoded, SwappedAt;
    var d := a + red + green + blue;
    assert Stream(Format(0, false, false, true), 0, a, red, green, blue) == [0] + d + [];
    HeaderZeroDecodes(d, n, width, height, []);
    SwapIsWeave(d, red, green, blue, a, n);
  }

  /** A single pixel: green and red end up as red and green, alpha as blue, blue as alpha. */
  lemma HeaderZeroPixel(a: byte, r: byte, g: byte, b: byte)
    ensures Decoded([0, a, r, g, b], 1, 1) == Ok([g, r, a, b])
    ensures Decoded([0, a, r, g, b], 1, 1) == Ok(Weave([r], [g], [b], [a])) <==> r == g && a == b
  {
    hide SwapBgra, Weave, Decoded;
    var d: bytes := [a, r, g, b];
    assert [0, a, r, g, b] == [0] + d + [];
    HeaderZeroDecodes(d, 1, 1, 1, []);
    SwappedPixel(d, 1, 0);
    WovenPixel([r], [g], [b], [a], 0);
    assert FourAt(SwapBgra(d, 1), 0) == SwapBgra(d, 1)
           && FourAt(Weave([r], [g], [b], [a]), 0) == Weave([r], [g], [b], [a]);
  }

  // ----- YCoCg -----

  /** The bounds on the chroma index never bite: a subsampled pixel takes the sample of its own 2x2 block. */
  lemma ChromaOfBlock(plane: bytes, x: nat, y: nat, width: nat, height: nat, cs: bool, cll: nat)
    requires x < width && y < height && |plane| == ChromaSize(width, cs) * ChromaSize(height, cs)
    ensures var sx, sy := if cs then x / 2 else x, if cs then y / 2 else y;
            && 0 <= sy * ChromaSize(width, cs) + sx < |plane|
            && Chroma(plane, x, y, width, height, cs, cll)
               == Signed(plane[sy * ChromaSize(width, cs) + sx]) * Shift(cll)
  {
    var sx, sy := if cs then x / 2 else x, if cs then y / 2 else y;
    assert sx < ChromaSize(width, cs) && sy < ChromaSize(height, cs);
    IndexInGrid(sx, sy, ChromaSize(width, cs), ChromaSize(height, cs));
  }

  /** Chroma scaled by any color loss level, and every channel before clamping, fits 32 bits. */
  lemma ChannelsFit(y: byte, co: byte, cg: byte, cll: nat)
    requires cll < 8
    ensures var c := FromYCoCg(y, Signed(co) * Shift(cll), Signed(cg) * Shift(cll));
            && -0x4000 <= Signed(co) * Shift(cll) <= 0x4000
            && -0x8000 <= c.r <= 0x80FF && -0x4000 <= c.g <= 0x40FF && -0x8000 <= c.b <= 0x80FF
  {
    ShiftBound(cll);
    ScaledBound(Signed(co), Shift(cll));
    ScaledBound(Signed(cg), Shift(cll));
  }

  lemma ShiftBound(cll: nat)
    requires cll < 8
    ensures 1 <= Shift(cll) <= 0x80
  {
    assert Shift(0) == 1 && Shift(2) == 4 && Shift(4) == 16 && Shift(6) == 64;
    if cll % 2 == 1 {
      assert Shift(cll) == 2 * Shift(cll - 1);
    }
  }

  lemma ScaledBound(v: int, k: nat)
    requires -0x80 <= v <= 0x80 && 1 <= k <= 0x80
    ensures -0x4000 <= v * k <= 0x4000
  {
    if v >= 0 {
      MulMonotone(v, 0x80, k);
    } else {
      MulMonotone(-v, 0x80, k);
      assert -v * k == -(v * k);
    }
  }

  /** Luma and scaled chroma recovered from the three channels of a pixel. */
  function Recover(r: int, g: int, b: int): (int, int, int) {
    var co := (b - r) / 2;
    var cg := (2 * g - r - b) / 4;
    (g - cg, co, cg)
  }

  ghost predicate NoClamp(c: Rgb) {
    0 <= c.r <= 0xFF && 0 <= c.g <= 0xFF && 0 <= c.b <= 0xFF
  }

  lemma RecoverPixel(y: byte, co: int, cg: int)
    requires NoClamp(FromYCoCg(y, co, cg))
    ensures var c := FromYCoCg(y, co, cg);
            Recover(Clamp(c.r), Clamp(c.g), Clamp(c.b)) == (y, co, cg)
  {
  }

  function ChromaOf(plane: bytes, width: nat, height: nat, f: Format, i: nat): int
    requires i < width * height && |plane| == ChromaSize(width, f.cs) * ChromaSize(height, f.cs)
  {
    IndexIsPixel(i, width, height);
    Chroma(plane, i % width, i / width, width, height, f.cs, f.cll)
  }

  /** The three colors of the i-th pixel. */
  lemma LossyColors(y: bytes, co: bytes, cg: bytes, at: bytes, width: nat, height: nat, f: Format, i: nat)
    requires i < |y| == |at| == width * height
    requires |co| == |cg| == ChromaSize(width, f.cs) * ChromaSize(height, f.cs)
    ensures var rgba, c := LossyImage(y, co, cg, at, width, height, f), LossyPixel(y, co, cg, width, height, f, i);
            rgba[4 * i] == Clamp(c.r) && rgba[4 * i + 1] == Clamp(c.g) && rgba[4 * i + 2] == Clamp(c.b)
  {
    hide Weave, LossyPixel, Clamp, ChromaSize;
    var px := LossyPixels(y, co, cg, width, height, f, |y|);
    WovenPixel(Reds(px), Greens(px), Blues(px), at, i);
    var rgba := LossyImage(y, co, cg, at, width, height, f);
    var four := FourAt(rgba, i);
    assert rgba[4 * i] == four[0] && rgba[4 * i + 1] == four[1] && rgba[4 * i + 2] == four[2];
  }

  /**
   Wherever no channel clamps, the luma and the scaled chroma of the pixel can be recovered from the
   decoded image.
   */
  lemma LossyIsRecoverable(y: bytes, co: bytes, cg: bytes, at: bytes, width: nat, height: nat, f: Format, i: nat)
    requires i < |y| == |at| == width * height
    requires |co| == |cg| == ChromaSize(width, f.cs) * ChromaSize(height, f.cs)
    requires NoClamp(LossyPixel(y, co, cg, width, height, f, i))
    ensures var rgba := LossyImage(y, co, cg, at, width, height, f);
            Recover(rgba[4 * i], rgba[4 * i + 1], rgba[4 * i + 2])
            == (y[i] as int, ChromaOf(co, width, height, f, i), ChromaOf(cg, width, height, f, i))
  {
    hide LossyImage, Chroma, FromYCoCg, Clamp, Recover, ChromaSize, NoClamp;
    LossyColors(y, co, cg, at, width, height, f, i);
    RecoverPixel(y[i], ChromaOf(co, width, height, f, i), ChromaOf(cg, width, height, f, i));
  }

  // ----- Lossy pixels from the formula -----

  /** A byte read as a two's complement number. */
  ghost predicate IsSigned(b: byte, v: int) {
    -0x80 <= v < 0x80 && (v == b || v == b - 0x100)
  }

  function Distance(a: int, b: int): nat {
    if a <= b then b - a else a - b
  }

  /** The byte closest to an exact value. */
  ghost predicate IsNearest(b: byte, v: int) {
    forall other: byte :: Distance(b, v) <= Distance(other, v)
  }

  /** Where pixel i finds its chroma sample: its own, or that of its 2x2 block. */
  function SampleIndex(i: nat, width: nat, cs: bool): nat
    requires width > 0
  {
    MulMonotone(0, i / width / 2, (width + 1) / 2);
    if cs then i / width / 2 * ((width + 1) / 2) + i % width / 2 else i
  }

  lemma ChromaOfSample(plane: bytes, width: nat, height: nat, f: Format, i: nat)
    requires i < width * height && |plane| == ChromaSize(width, f.cs) * ChromaSize(height, f.cs)
    ensures width > 0 && SampleIndex(i, width, f.cs) < |plane|
    ensures ChromaOf(plane, width, height, f, i) == Signed(plane[SampleIndex(i, width, f.cs)]) * Shift(f.cll)
  {
    hide Chroma, Signed, Shift;
    IndexIsPixel(i, width, height);
    ChromaOfBlock(plane, i % width, i / width, width, height, f.cs, f.cll);
  }

  lemma SignedIsUnique(b: byte, v: int)
    requires IsSigned(b, v)
    ensures v == Signed(b)
  {
  }

  lemma {:induction false} ShiftIsPower(cll: nat)
    ensures Shift(cll) == Pow2(cll)
  {
    if cll > 0 {
      ShiftIsPower(cll - 1);
    }
  }

  lemma ClampIsNearest(v: int)
    ensures IsNearest(Clamp(v), v)
  {
  }

  /** The color a pixel with this luma and these scaled chroma values must have. */
  ghost predicate HasColor(px: bytes, y: byte, co: int, cg: int) {
    |px| == 4 && IsNearest(px[0], y - co - cg) && IsNearest(px[1], y + cg) && IsNearest(px[2], y + co - cg)
  }

  lemma LossyImagePixel(y: bytes, co: bytes, cg: bytes, at: bytes, width: nat, height: nat, f: Format, i: nat)
    requires i < |y| == |at| == width * height
    requires |co| == |cg| == ChromaSize(width, f.cs) * ChromaSize(height, f.cs)
    ensures var px := FourAt(LossyImage(y, co, cg, at, width, height, f), i);
            && HasColor(px, y[i], ChromaOf(co, width, height, f, i), ChromaOf(cg, width, height, f, i))
            && px[3] == at[i]
  {
    hide Weave, Clamp, ChromaSize, Chroma, IsNearest, FourAt;
    var px := LossyPixels(y, co, cg, width, height, f, |y|);
    WovenPixel(Reds(px), Greens(px), Blues(px), at, i);
    var c := LossyPixel(y, co, cg, width, height, f, i);
    assert px[i] == c;
    ClampIsNearest(c.r);
    ClampIsNearest(c.g);
    ClampIsNearest(c.b);
  }

  /**
   Pixel i of a lossy stream, from the bytes of its planes: both chroma samples signed and scaled by two to the color
   loss level, the linear map, and the nearest byte of each channel.
   */
  lemma LossyPixelOfStream(f: Format, reserved: nat, a: bytes, p: bytes, q: bytes, s: bytes,
                           alpha: bytes, y: bytes, co: bytes, cg: bytes, width: nat, height: nat,
                           i: nat, vo: int, vg: int)
    requires f.cll < 8 && reserved < 4 && (f.cll != 0 || f.cs) && i < |y|
    requires CodesStream(f, a, p, q, s, alpha, y, co, cg, width, height)
    ensures width > 0 && SampleIndex(i, width, f.cs) < |co| == |cg| && (f.hasAlpha ==> i < |alpha|)
    ensures var r, k := Decoded(Stream(f, reserved, a, p, q, s), width, height), SampleIndex(i, width, f.cs);
            && r.Ok? && |r.value| == 4 * |y|
            && FourAt(r.value, i)[3] == (if f.hasAlpha then alpha[i] else 0xFF)
            && (IsSigned(co[k], vo) && IsSigned(cg[k], vg) ==>
                  HasColor(FourAt(r.value, i), y[i], vo * Pow2(f.cll), vg * Pow2(f.cll)))
  {
    hide CodesStream, Stream, Decoded, LossyImage, FourAt, ChromaSize, HasColor, Pow2, ChromaOf, SampleIndex, Signed,
      IsSigned;
    LossyRoundTrip(f, reserved, a, p, q, s, alpha, y, co, cg, width, height);
    var at := if f.hasAlpha then alpha else Opaque(|y|);
    LossyImagePixel(y, co, cg, at, width, height, f, i);
    ChromaOfSample(co, width, height, f, i);
    ChromaOfSample(cg, width, height, f, i);
    ShiftIsPower(f.cll);
    var k := SampleIndex(i, width, f.cs);
    if IsSigned(co[k], vo) && IsSigned(cg[k], vg) {
      SignedIsUnique(co[k], vo);
      SignedIsUnique(cg[k], vg);
    }
  }
}
