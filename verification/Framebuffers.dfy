/** The RGBA framebuffer that decoded rectangles are composited into. */
module Framebuffers {
  import opened Prelude

  /** Framebuffer contents as a value: `width * height` pixels of four bytes, row by row. */
  datatype Image = Image(width: nat, height: nat, pixels: bytes) {
    ghost predicate Valid() {
      |pixels| == 4 * (width * height)
    }
  }

  function Blank(width: nat, height: nat): (r: Image)
    ensures r.Valid()
  {
    assert width * height >= 0;
    Image(width, height, Zeros(4 * (width * height)))
  }

  lemma PixelFits(x: nat, y: nat, width: nat, height: nat)
    requires x < width && y < height
    ensures y * width + x < width * height && Offset(x, y, width) + 4 <= 4 * (width * height)
  {
    MulMonotone(y + 1, height, width);
  }

  /** Byte offset of pixel (x, y) in rows of `width` pixels. */
  function Offset(x: nat, y: nat, width: nat): nat {
    4 * (y * width + x)
  }

  /** The four bytes at `o`. */
  function Four(s: bytes, o: nat): (r: bytes)
    requires o + 4 <= |s|
    ensures |r| == 4
  {
    [s[o], s[o + 1], s[o + 2], s[o + 3]]
  }

  /** The four bytes of pixel (x, y). */
  function Pixel(img: Image, x: nat, y: nat): (r: bytes)
    requires img.Valid() && x < img.width && y < img.height
    ensures |r| == 4
  {
    PixelFits(x, y, img.width, img.height);
    Four(img.pixels, Offset(x, y, img.width))
  }

  /** Pixel (x, y) of a row-major rectangle `w` pixels wide. */
  function RectPixel(rgba: bytes, w: nat, h: nat, x: nat, y: nat): (r: bytes)
    requires |rgba| >= 4 * (w * h) && x < w && y < h
    ensures |r| == 4
  {
    PixelFits(x, y, w, h);
    Four(rgba, Offset(x, y, w))
  }

  predicate Covers(left: nat, top: nat, w: nat, h: nat, x: nat, y: nat) {
    left <= x < left + w && top <= y < top + h
  }

  /** Pixels of each row that land inside the framebuffer. */
  function CopyWidth(x: nat, w: nat, width: nat): nat {
    Min(w, if x <= width then width - x else 0)
  }

  function Splice(s: bytes, at: nat, part: bytes): (r: bytes)
    requires at + |part| <= |s|
    ensures |r| == |s|
  {
    s[..at] + part + s[at + |part|..]
  }

  lemma RowFits(img: Image, x: nat, y: nat, w: nat, h: nat, row: nat)
    requires img.Valid() && row < h && y + row < img.height && CopyWidth(x, w, img.width) > 0
    ensures Offset(x, y + row, img.width) + 4 * CopyWidth(x, w, img.width) <= |img.pixels|
    ensures Offset(0, row, w) + 4 * CopyWidth(x, w, img.width) <= 4 * (w * h)
  {
    RowEndFits(x, y + row, CopyWidth(x, w, img.width), img.width, img.height);
    RowEndFits(0, row, CopyWidth(x, w, img.width), w, h);
  }

  lemma RowEndFits(x: nat, y: nat, n: nat, width: nat, height: nat)
    requires y < height && x + n <= width
    ensures Offset(x, y, width) + 4 * n <= 4 * (width * height)
  {
    MulMonotone(y + 1, height, width);
  }

  /** Copy row `row` of the rectangle. */
  function BlitRow(img: Image, x: nat, y: nat, w: nat, h: nat, rgba: bytes, row: nat): (r: Image)
    requires img.Valid() && |rgba| >= 4 * (w * h) && row < h && y + row < img.height
    ensures r.Valid() && r.width == img.width && r.height == img.height
  {
    var n := CopyWidth(x, w, img.width);
    if n == 0 then img
    else
      RowFits(img, x, y, w, h, row);
      var from := Offset(0, row, w);
      img.(pixels := Splice(img.pixels, Offset(x, y + row, img.width), rgba[from..from + 4 * n]))
  }

  /** Copy the rows from `row` on, until the rectangle or the framebuffer ends. */
  function BlitFrom(img: Image, x: nat, y: nat, w: nat, h: nat, rgba: bytes, row: nat): (r: Image)
    requires img.Valid() && |rgba| >= 4 * (w * h)
    ensures r.Valid() && r.width == img.width && r.height == img.height
    decreases h - row
  {
    if row >= h || y + row >= img.height then img
    else BlitFrom(BlitRow(img, x, y, w, h, rgba, row), x, y, w, h, rgba, row + 1)
  }

  function Blit(img: Image, x: nat, y: nat, w: nat, h: nat, rgba: bytes): (r: Image)
    requires img.Valid() && |rgba| >= 4 * (w * h)
    ensures r.Valid() && r.width == img.width && r.height == img.height
  {
    BlitFrom(img, x, y, w, h, rgba, 0)
  }

  // ----- What a blit does to each pixel -----

  /** The bytes of row `dy` from `x` on hold a pixel's bytes exactly when the pixel is one of those `n`. */
  lemma RowMeetsPixel(x: nat, n: nat, dy: nat, px: nat, py: nat, width: nat)
    requires px < width && x + n <= width
    ensures var at, o := Offset(x, dy, width), Offset(px, py, width);
            if py == dy && x <= px < x + n then at <= o && o + 4 <= at + 4 * n && o - at == 4 * (px - x)
            else o + 4 <= at || at + 4 * n <= o
  {
    if py < dy {
      RowsApart(py, dy, width);
    } else if py > dy {
      RowsApart(dy, py, width);
    }
  }

  lemma RowsApart(upper: nat, lower: nat, width: nat)
    requires upper < lower
    ensures upper * width + width <= lower * width
  {
    MulMonotone(upper + 1, lower, width);
    assert (upper + 1) * width == upper * width + width;
  }

  lemma SplicedFour(s: bytes, at: nat, rgba: bytes, from: nat, len: nat, o: nat)
    requires at + len <= |s| && from + len <= |rgba| && o + 4 <= |s|
    ensures at <= o && o + 4 <= at + len ==>
              Four(Splice(s, at, rgba[from..from + len]), o) == Four(rgba, from + o - at)
    ensures o + 4 <= at || at + len <= o ==> Four(Splice(s, at, rgba[from..from + len]), o) == Four(s, o)
  {
  }

  lemma BlitRowPixel(img: Image, x: nat, y: nat, w: nat, h: nat, rgba: bytes, row: nat, px: nat, py: nat)
    requires img.Valid() && |rgba| >= 4 * (w * h) && row < h && y + row < img.height
    requires px < img.width && py < img.height
    ensures Pixel(BlitRow(img, x, y, w, h, rgba, row), px, py)
            == if py == y + row && x <= px < x + w then RectPixel(rgba, w, h, px - x, row) else Pixel(img, px, py)
  {
    hide Splice, Offset, Four;
    var n := CopyWidth(x, w, img.width);
    if n > 0 {
      RowFits(img, x, y, w, h, row);
      PixelFits(px, py, img.width, img.height);
      RowMeetsPixel(x, n, y + row, px, py, img.width);
      SplicedFour(img.pixels, Offset(x, y + row, img.width), rgba, Offset(0, row, w), 4 * n, Offset(px, py, img.width));
      if x <= px < x + w {
        OffsetInRow(px - x, row, w);
      }
    }
  }

  lemma OffsetInRow(x: nat, y: nat, width: nat)
    ensures Offset(x, y, width) == Offset(0, y, width) + 4 * x
  {
  }

  lemma {:induction false} BlitFromPixel(img: Image, x: nat, y: nat, w: nat, h: nat, rgba: bytes, row: nat, px: nat,
                                         py: nat)
    requires img.Valid() && |rgba| >= 4 * (w * h) && px < img.width && py < img.height && row <= h
    ensures Pixel(BlitFrom(img, x, y, w, h, rgba, row), px, py)
            == if Covers(x, y, w, h, px, py) && y + row <= py then RectPixel(rgba, w, h, px - x, py - y)
               else Pixel(img, px, py)
    decreases h - row
  {
    hide BlitRow, Pixel, RectPixel;
    if row < h && y + row < img.height {
      BlitRowPixel(img, x, y, w, h, rgba, row, px, py);
      BlitFromPixel(BlitRow(img, x, y, w, h, rgba, row), x, y, w, h, rgba, row + 1, px, py);
    }
  }

  /** A blit replaces exactly the covered pixels inside the framebuffer, each by its own source pixel. */
  lemma BlitPixel(img: Image, x: nat, y: nat, w: nat, h: nat, rgba: bytes, px: nat, py: nat)
    requires img.Valid() && |rgba| >= 4 * (w * h) && px < img.width && py < img.height
    ensures Pixel(Blit(img, x, y, w, h, rgba), px, py)
            == if Covers(x, y, w, h, px, py) then RectPixel(rgba, w, h, px - x, py - y) else Pixel(img, px, py)
  {
    hide BlitFrom, Pixel, RectPixel;
    BlitFromPixel(img, x, y, w, h, rgba, 0, px, py);
  }

  /** Images of the same size with the same pixels are the same. */
  lemma SamePixelsSameImage(a: Image, b: Image)
    requires a.Valid() && b.Valid() && a.width == b.width && a.height == b.height
    requires forall x, y :: 0 <= x < a.width && 0 <= y < a.height ==> Pixel(a, x, y) == Pixel(b, x, y)
    ensures a == b
  {
    forall i | 0 <= i < |a.pixels|
      ensures a.pixels[i] == b.pixels[i]
    {
      var p := i / 4;
      IndexIsPixel(p, a.width, a.height);
      var x, y := p % a.width, p / a.width;
      assert 4 * (y * a.width + x) == 4 * p;
      assert Pixel(a, x, y)[i - 4 * p] == Pixel(b, x, y)[i - 4 * p];
    }
  }

  // ----- The framebuffer object -----

  class Framebuffer {
    const width: nat
    const height: nat
    const pixels: array<byte>

    ghost predicate Valid() {
      pixels.Length == 4 * (width * height)
    }

    ghost function View(): (img: Image)
      requires Valid()
      reads pixels
      ensures img.Valid()
    {
      Image(width, height, pixels[..])
    }

    constructor (width: nat, height: nat)
      ensures Valid() && fresh(pixels)
      ensures View() == Blank(width, height)
    {
      assert width * height >= 0;
      this.width := width;
      this.height := height;
      pixels := new byte[width * height * 4](_ => 0);
    }

    /**
     Blit an RGBA rectangle whose top-left corner is (x, y), clipped to the framebuffer. The rectangle
     must be all there: its length is only checked in debug builds.
     */
    method BlitRgba(x: nat, y: nat, w: nat, h: nat, rgba: bytes)
      requires Valid() && |rgba| >= 4 * (w * h)
      modifies pixels
      ensures View() == Blit(old(View()), x, y, w, h, rgba)
    {
      hide Splice;
      ghost var img := View();
      for row := 0 to h
        invariant Blit(img, x, y, w, h, rgba) == BlitFrom(View(), x, y, w, h, rgba, row)
      {
        var dstY := y + row;
        if dstY >= height {
          return;
        }
        var copyW := CopyWidth(x, w, width);
        if copyW == 0 {
          continue;
        }
        RowFits(View(), x, y, w, h, row);
        var srcOff := Offset(0, row, w);
        var dstOff := Offset(x, dstY, width);
        CopyInto(pixels, dstOff, rgba[srcOff..srcOff + copyW * 4]);
      }
    }
  }

  /** `copy_from_slice` into a part of the buffer. */
  method CopyInto(dst: array<byte>, at: nat, part: bytes)
    requires at + |part| <= dst.Length
    modifies dst
    ensures dst[..] == Splice(old(dst[..]), at, part)
  {
    forall k | 0 <= k < |part| {
      dst[at + k] := part[k];
    }
  }
}
