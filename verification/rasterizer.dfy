/** `text_to_dot_matrix`: measure the text with the font, shrink the font once
    when the measurement overflows the n×n cell, centre the bounding box in
    the cell, draw, and pack the image.  The font library (loading a
    TrueType font, `textbbox`, `draw.text`) is an opaque `GlyphSource`. */
module Rasterizer {
  import opened Wrappers
  import BitPacker

  /** A bounding box (x0, y0, x1, y1) as `textbbox` reports it; the origin
      may be negative (a negative left or top bearing). */
  datatype BBox = BBox(x0: int, y0: int, x1: int, y1: int) {
    function Width(): int { x1 - x0 }
    function Height(): int { y1 - y0 }
  }

  datatype Point = Point(x: int, y: int)

  /** The font in use: a TrueType font loaded at a pixel size, or the
      library's built-in default font. */
  datatype Font = TrueType(size: int) | DefaultFont

  /** The font library as seen from this code.  `truetypeLoads(s)` says
      whether loading the font file at size s returns normally;
      `textBBox(f, text)` is the bounding box of `text` drawn at (0, 0) with
      f, None when measuring raises; `drawText(f, text, n, p)` is the n×n
      one-bit image after drawing `text` at p with f on the blank n×n image
      of `Image.new('1', (n, n), 0)`, None when drawing raises.  The grid's
      shape is not constrained here: only its pixels inside the cell,
      0 <= x, y < n, are ever read. */
  datatype GlyphSource = GlyphSource(
    truetypeLoads: int -> bool,
    textBBox: (Font, string) -> Option<BBox>,
    drawText: (Font, string, nat, Point) -> Option<BitPacker.Grid>)

  /** Python's `a // b` for a positive divisor: rounds toward negative infinity. */
  function FloorDiv(a: int, b: int): (q: int)
    requires b > 0
    ensures b * q <= a < b * q + b
  {
    a / b
  }

  /** The draw origin for an n-pixel cell.  The box's left edge lands at
      `(n - w) // 2`, so its left and right margins differ by at most one
      pixel (the extra one on the right), whatever the sign of n - w; when
      the box is no wider than the cell it lies inside it.  The same holds
      vertically. */
  function Origin(n: int, box: BBox): (p: Point)
    ensures var left := p.x + box.x0;
            left <= n - (left + box.Width()) <= left + 1
    ensures var top := p.y + box.y0;
            top <= n - (top + box.Height()) <= top + 1
    ensures 0 <= box.Width() <= n ==> 0 <= p.x + box.x0 && p.x + box.x0 + box.Width() <= n
    ensures 0 <= box.Height() <= n ==> 0 <= p.y + box.y0 && p.y + box.y0 + box.Height() <= n
  {
    Point(FloorDiv(n - box.Width(), 2) - box.x0, FloorDiv(n - box.Height(), 2) - box.y0)
  }

  /** The measured text does not fit the n×n cell. */
  predicate Overflows(n: int, box: BBox) {
    box.Width() > n || box.Height() > n
  }

  function Max(a: int, b: int): int {
    if a >= b then a else b
  }

  function RMin(a: real, b: real): real {
    if a <= b then a else b
  }

  /** Python's `int()` on a float: truncation toward zero. */
  function Trunc(r: real): (t: int)
    ensures r >= 0.0 ==> t as real <= r < t as real + 1.0
    ensures r < 0.0 ==> t as real - 1.0 < r <= t as real
  {
    if r >= 0.0 then r.Floor else -((-r).Floor)
  }

  /** The shrink factor for an overflowing box: 0.9 times the smaller of
      n / width and n / height, each dimension counted as at least 1.  For a
      positive cell and a box that overflows it, it lies strictly between 0
      and 0.9, and scaling either dimension by it brings that dimension to
      at most 0.9 n. */
  function Scale(n: int, box: BBox): (s: real)
    ensures n > 0 && Overflows(n, box) ==> 0.0 < s < 0.9
    ensures n > 0 ==> s * Max(box.Width(), 1) as real <= 0.9 * n as real
    ensures n > 0 ==> s * Max(box.Height(), 1) as real <= 0.9 * n as real
  {
    var s := RMin(n as real / Max(box.Width(), 1) as real, n as real / Max(box.Height(), 1) as real) * 0.9;
    if n > 0 then
      ScaleFactorBounds(n, box);
      s
    else s
  }

  /** The bounds of Scale, stated on its defining expression. */
  lemma ScaleFactorBounds(n: int, box: BBox)
    requires n > 0
    ensures var s := RMin(n as real / Max(box.Width(), 1) as real, n as real / Max(box.Height(), 1) as real) * 0.9;
            (Overflows(n, box) ==> 0.0 < s < 0.9) &&
            s * Max(box.Width(), 1) as real <= 0.9 * n as real &&
            s * Max(box.Height(), 1) as real <= 0.9 * n as real
  {
    FactorBounds(n as real, Max(box.Width(), 1) as real, Max(box.Height(), 1) as real);
  }

  /** 0.9 * min(n / a, n / b) is positive, scales a and b to at most 0.9 n,
      and is below 0.9 when a or b exceeds n. */
  lemma FactorBounds(n: real, a: real, b: real)
    requires n > 0.0 && a >= 1.0 && b >= 1.0
    ensures var s := RMin(n / a, n / b) * 0.9;
            0.0 < s && s * a <= 0.9 * n && s * b <= 0.9 * n
    ensures a > n || b > n ==> RMin(n / a, n / b) * 0.9 < 0.9
  {
    var ra, rb := n / a, n / b;
    var m := RMin(ra, rb);
    RatioPositive(n, a);
    RatioPositive(n, b);
    assert ra * a == n && rb * b == n;
    RealMulAtMost(a, m, ra);
    RealMulAtMost(b, m, rb);
    assert m * 0.9 * a == 0.9 * (a * m);
    assert m * 0.9 * b == 0.9 * (b * m);
    if a > n {
      RatioBelowOne(n, a);
    } else if b > n {
      RatioBelowOne(n, b);
    }
  }

  /** The font size of the single corrective pass.  It is never below 8,
      and for a cell larger than 8 pixels it is smaller than the cell, so
      the pass always shrinks the font there. */
  function RescaledSize(n: int, box: BBox): (s: int)
    ensures s >= 8
    ensures n > 8 && Overflows(n, box) ==> s < n
  {
    var s := Max(8, Trunc(n as real * Scale(n, box)));
    if n > 8 && Overflows(n, box) then
      RescaleShrinks(n, box);
      s
    else s
  }

  lemma RealMulLess(x: real, y: real, z: real)
    requires x > 0.0 && y < z
    ensures x * y < x * z
  {
    assert x * z - x * y == x * (z - y);
  }

  lemma RealMulAtMost(x: real, y: real, z: real)
    requires x >= 0.0 && y <= z
    ensures x * y <= x * z
  {
    assert x * z - x * y == x * (z - y);
  }

  lemma RatioBelowOne(n: real, d: real)
    requires 0.0 < n < d
    ensures 0.0 < n / d < 1.0
  {
    assert n / d * d == n;
    if n / d >= 1.0 {
      RealMulAtMost(d, 1.0, n / d);
    }
  }

  lemma RatioPositive(n: real, d: real)
    requires 0.0 < n && 0.0 < d
    ensures 0.0 < n / d
  {
  }

  lemma RescaleShrinks(n: int, box: BBox)
    requires n > 8 && Overflows(n, box)
    ensures Trunc(n as real * Scale(n, box)) < n
  {
    ShrinkBelow(n, Scale(n, box));
  }

  /** Truncating n times a factor in (0, 1) gives less than n. */
  lemma ShrinkBelow(n: int, f: real)
    requires n > 0 && 0.0 < f < 1.0
    ensures Trunc(n as real * f) < n
  {
    var product := n as real * f;
    ProductBelow(n as real, f);
    TruncBelow(product, n);
  }

  /** A fraction strictly between 0 and 1 of a positive m lies in [0, m). */
  lemma ProductBelow(m: real, f: real)
    requires m > 0.0 && 0.0 < f < 1.0
    ensures 0.0 <= m * f < m
  {
    RealMulLess(m, f, 1.0);
    RealMulAtMost(m, 0.0, f);
  }

  /** Truncating a value in [0, n) gives less than n. */
  lemma TruncBelow(x: real, n: int)
    requires 0.0 <= x < n as real
    ensures Trunc(x) < n
  {
  }

  /** Where and with which font the text is drawn. */
  datatype Placement = Placement(font: Font, box: BBox, origin: Point)

  /** The font loaded first: the TrueType font at size n, or the default
      font when loading it raises. */
  function InitialFont(src: GlyphSource, n: int): (f: Font)
    ensures f.TrueType? <==> src.truetypeLoads(n)
    ensures f.TrueType? ==> f.size == n
  {
    if src.truetypeLoads(n) then TrueType(n) else DefaultFont
  }

  /** Measuring, the one corrective pass and centring.  When the shrunken
      font cannot be loaded the previous font is kept and measured again. */
  function Place(src: GlyphSource, text: string, n: int): (r: Option<Placement>)
    ensures r.Some? ==> r.value.origin == Origin(n, r.value.box)
    ensures r.Some? ==> src.textBBox(r.value.font, text) == Some(r.value.box)
    ensures var first := src.textBBox(InitialFont(src, n), text);
            r.Some? && first.Some? && !Overflows(n, first.value) ==>
              r.value.font == InitialFont(src, n) && r.value.box == first.value
    ensures r.Some? && r.value.font != InitialFont(src, n) ==>
              r.value.font.TrueType? && r.value.font.size >= 8 &&
              (n > 8 ==> r.value.font.size < n)
    ensures var first := src.textBBox(InitialFont(src, n), text);
            r.None? <==>
              first.None? ||
              (Overflows(n, first.value) &&
               var size := RescaledSize(n, first.value);
               src.textBBox(if src.truetypeLoads(size) then TrueType(size) else InitialFont(src, n), text).None?)
  {
    var font := InitialFont(src, n);
    match src.textBBox(font, text)
    case None => None
    case Some(box) =>
      if !Overflows(n, box) then
        Some(Placement(font, box, Origin(n, box)))
      else
        var size := RescaledSize(n, box);
        var font' := if src.truetypeLoads(size) then TrueType(size) else font;
        match src.textBBox(font', text)
        case None => None
        case Some(box') => Some(Placement(font', box', Origin(n, box')))
  }

  /** The whole of `text_to_dot_matrix`; None stands for an exception.  A
      negative size makes the image constructor raise.  On success the
      result is a padded n * ceil(n/8)-byte bitmap that reproduces, pixel
      for pixel, the image drawn at the centring origin. */
  function TextToDotMatrix(src: GlyphSource, text: string, n: int): (r: Option<seq<bv8>>)
    ensures r.Some? <==>
              n >= 0 && Place(src, text, n).Some? &&
              src.drawText(Place(src, text, n).value.font, text, n, Place(src, text, n).value.origin).Some?
    ensures r.Some? ==> n >= 0 && BitPacker.Padded(r.value, n)
    ensures r.Some? ==>
              var p := Place(src, text, n).value;
              var img := src.drawText(p.font, text, n, p.origin).value;
              forall x, y :: 0 <= x < n && 0 <= y < n ==>
                BitPacker.Unpack(r.value, n)[y][x] == BitPacker.Pixel(img, x, y)
  {
    if n < 0 then None
    else
      match Place(src, text, n)
      case None => None
      case Some(p) =>
        match src.drawText(p.font, text, n, p.origin)
        case None => None
        case Some(img) =>
          var bytes := BitPacker.Pack(img, n);
          PackReproduces(img, n);
          Some(bytes)
  }

  /** Unpacking a packed image reads back every pixel inside the cell. */
  lemma PackReproduces(img: BitPacker.Grid, n: nat)
    ensures BitPacker.Padded(BitPacker.Pack(img, n), n)
    ensures forall x, y :: 0 <= x < n && 0 <= y < n ==>
              BitPacker.Unpack(BitPacker.Pack(img, n), n)[y][x] == BitPacker.Pixel(img, x, y)
  {
    BitPacker.PackPadded(img, n);
    var u := BitPacker.Unpack(BitPacker.Pack(img, n), n);
    forall x, y | 0 <= x < n && 0 <= y < n
      ensures u[y][x] == BitPacker.Pixel(img, x, y)
    {
      BitPacker.ByteIndexInRange(n, x, y);
      assert 8 * (x / 8) + x % 8 == x;
      BitPacker.PackBit(img, n, y, x / 8, x % 8);
    }
  }

  /** The corrective pass is not repeated: a font whose measurement keeps
      overflowing at every size is still placed, centred on its overflowing
      box, and when drawing it returns normally the whole conversion
      succeeds; no error is raised for the overflow. */
  lemma OverflowAcceptedAfterOnePass(src: GlyphSource, text: string, n: int, box: BBox)
    requires Overflows(n, box)
    requires forall f: Font :: src.textBBox(f, text) == Some(box)
    ensures Place(src, text, n).Some?
    ensures Place(src, text, n).value.box == box
    ensures Overflows(n, Place(src, text, n).value.box)
    ensures Place(src, text, n).value.origin == Origin(n, box)
    ensures n >= 0 && src.drawText(Place(src, text, n).value.font, text, n, Origin(n, box)).Some? ==>
              TextToDotMatrix(src, text, n).Some?
  {
    var font := InitialFont(src, n);
    assert src.textBBox(font, text) == Some(box);
    var size := RescaledSize(n, box);
    var font' := if src.truetypeLoads(size) then TrueType(size) else font;
    assert src.textBBox(font', text) == Some(box);
  }

  /** For cells smaller than 8 pixels the 8-pixel floor makes the
      "corrected" font larger than the cell, whatever the overflowing box. */
  lemma SmallCellRescaleGrows(n: int, box: BBox)
    ensures 0 <= n < 8 && Overflows(n, box) ==> RescaledSize(n, box) > n
  {
  }

  /** An instance of SmallCellRescaleGrows: a 5-pixel cell with a 6×6 box is
      re-rendered at size 8. */
  lemma SmallCellExample()
    ensures Overflows(5, BBox(0, 0, 6, 6)) && RescaledSize(5, BBox(0, 0, 6, 6)) == 8
  {
    assert Scale(5, BBox(0, 0, 6, 6)) == 0.75;
    assert Trunc(5.0 * 0.75) == 3;
  }
}
