/** The packing step of `text_to_dot_matrix`: an N×N one-bit image becomes a
    flat byte list, row-major, ceil(N/8) bytes per row, and the most
    significant bit of each byte is the leftmost pixel of its 8-pixel group. */
module BitPacker {

  /** An image as rows of pixels, `g[y][x]`; true is foreground (ink). */
  type Grid = seq<seq<bool>>

  /** `g` is an n×n image. */
  ghost predicate IsGrid(g: Grid, n: nat) {
    |g| == n && forall y :: 0 <= y < |g| ==> |g[y]| == n
  }

  /** The pixel at column `x`, row `y`; a coordinate outside the image reads
      as background (the source only asks for coordinates inside it). */
  predicate Pixel(g: Grid, x: int, y: int) {
    0 <= y < |g| && 0 <= x < |g[y]| && g[y][x]
  }

  /** Number of bytes per row: how many values `range(0, n, 8)` yields. */
  function BytesPerRow(n: nat): (w: nat)
    ensures 8 * w - 8 < n <= 8 * w
  {
    (n + 7) / 8
  }

  /** The bit that stands for pixel `px_start + bit` of a group. */
  function Mask(bit: nat): bv8
    requires bit < 8
  {
    1 << (7 - bit)
  }

  /** Whether bit `7 - bit` of `b` is set, i.e. pixel `bit` of its group. */
  predicate BitSet(b: bv8, bit: nat)
    requires bit < 8
  {
    b & Mask(bit) != 0
  }

  /** The byte for the group starting at column `pxStart` of row `py`,
      after the first `k` iterations of the innermost loop: bit `7 - j` is
      set iff j was already visited, its column is inside the image and the
      pixel there is foreground. */
  function GroupByte(g: Grid, n: nat, py: nat, pxStart: nat, k: nat): (b: bv8)
    requires k <= 8
    ensures forall j :: 0 <= j < 8 ==>
              (BitSet(b, j) <==> j < k && pxStart + j < n && Pixel(g, pxStart + j, py))
  {
    if k == 0 then
      ZeroBits();
      0
    else
      var acc := GroupByte(g, n, py, pxStart, k - 1);
      var px := pxStart + (k - 1);
      var b := if px < n && Pixel(g, px, py) then acc | Mask(k - 1) else acc;
      GroupStep(g, n, py, pxStart, k, acc, b);
      b
  }

  /** StepBits for the columns of one group of one row. */
  lemma GroupStep(g: Grid, n: nat, py: nat, pxStart: nat, k: nat, acc: bv8, b: bv8)
    requires 1 <= k <= 8
    requires forall j :: 0 <= j < 8 ==>
               (BitSet(acc, j) <==> j < k - 1 && pxStart + j < n && Pixel(g, pxStart + j, py))
    requires var px := pxStart + (k - 1);
             b == if px < n && Pixel(g, px, py) then acc | Mask(k - 1) else acc
    ensures forall j :: 0 <= j < 8 ==>
              (BitSet(b, j) <==> j < k && pxStart + j < n && Pixel(g, pxStart + j, py))
  {
    var ink := seq(8, j requires 0 <= j < 8 => pxStart + j < n && Pixel(g, pxStart + j, py));
    StepBits(acc, b, k, ink);
  }

  /** One iteration of the innermost loop on the bits: if bit j of `acc`
      is set iff j < k - 1 and column j is ink, then after OR-ing in the
      mask of column k - 1 when it is ink, bit j is set iff j < k and
      column j is ink. */
  lemma StepBits(acc: bv8, b: bv8, k: nat, ink: seq<bool>)
    requires 1 <= k <= 8 && |ink| == 8
    requires forall j :: 0 <= j < 8 ==> (BitSet(acc, j) <==> j < k - 1 && ink[j])
    requires b == if ink[k - 1] then acc | Mask(k - 1) else acc
    ensures forall j :: 0 <= j < 8 ==> (BitSet(b, j) <==> j < k && ink[j])
  {
    forall j | 0 <= j < 8
      ensures BitSet(b, j) <==> j < k && ink[j]
    {
      if ink[k - 1] {
        MaskBit(acc, k - 1, j);
      }
    }
  }

  /** The first `count` bytes of row `py`. */
  function RowBytes(g: Grid, n: nat, py: nat, count: nat): (r: seq<bv8>)
    ensures |r| == count
    ensures forall j :: 0 <= j < count ==> r[j] == GroupByte(g, n, py, 8 * j, 8)
  {
    if count == 0 then []
    else RowBytes(g, n, py, count - 1) + [GroupByte(g, n, py, 8 * (count - 1), 8)]
  }

  /** The bytes of the first `rows` rows. */
  function PackRows(g: Grid, n: nat, rows: nat): (r: seq<bv8>)
    ensures |r| == rows * BytesPerRow(n)
  {
    if rows == 0 then []
    else PackRows(g, n, rows - 1) + RowBytes(g, n, rows - 1, BytesPerRow(n))
  }

  /** The packed bitmap of an n×n image: ceil(n/8) bytes for each of the n
      rows.  Its bit-level layout is PackBit, its inverse Unpack. */
  function Pack(g: Grid, n: nat): (r: seq<bv8>)
    ensures |r| == n * BytesPerRow(n)
  {
    PackRows(g, n, n)
  }

  /** Every padding bit (a column at or beyond n in the last byte of a row)
      of a packed bitmap is clear. */
  ghost predicate Padded(bytes: seq<bv8>, n: nat) {
    |bytes| == n * BytesPerRow(n) &&
    forall i, bit :: 0 <= i < |bytes| && 0 <= bit < 8 && 8 * (i % BytesPerRow(n)) + bit >= n ==>
      !BitSet(bytes[i], bit)
  }

  /** Where the byte for column `x` of row `y` sits. */
  function ByteIndex(n: nat, x: nat, y: nat): nat {
    y * BytesPerRow(n) + x / 8
  }

  lemma MulMonotone(a: int, b: int, c: nat)
    requires a <= b
    ensures a * c <= b * c
  {
    assert b * c - a * c == (b - a) * c;
  }

  /** A strictly larger factor adds at least one more multiple of c. */
  lemma MulStep(a: int, b: int, c: nat)
    requires a < b
    ensures a * c + c <= b * c
  {
    MulMonotone(a + 1, b, c);
    assert (a + 1) * c == a * c + c;
  }

  /** Quotient and remainder are determined by any decomposition
      `i == q * w + r` with `0 <= r < w`. */
  lemma DivModUnique(i: int, w: int, q: int, r: int)
    requires w > 0 && 0 <= r < w && i == q * w + r
    ensures i / w == q && i % w == r
  {
    var q0, r0 := i / w, i % w;
    assert i == q0 * w + r0;
    if q > q0 {
      MulStep(q0, q, w);
    } else if q < q0 {
      MulStep(q, q0, w);
    }
  }

  /** Byte i of a packed n×n bitmap is group `i % w` of row `i / w`. */
  lemma RowAndGroup(i: nat, n: nat)
    requires i < n * BytesPerRow(n)
    ensures BytesPerRow(n) > 0
    ensures i / BytesPerRow(n) < n && i % BytesPerRow(n) < BytesPerRow(n)
    ensures i == (i / BytesPerRow(n)) * BytesPerRow(n) + i % BytesPerRow(n)
  {
    var w := BytesPerRow(n);
    if i / w >= n {
      MulMonotone(n, i / w, w);
    }
  }

  lemma ByteIndexInRange(n: nat, x: nat, y: nat)
    requires x < n && y < n
    ensures ByteIndex(n, x, y) < n * BytesPerRow(n)
    ensures ByteIndex(n, x, y) % BytesPerRow(n) == x / 8
    ensures ByteIndex(n, x, y) / BytesPerRow(n) == y
  {
    var w := BytesPerRow(n);
    assert x / 8 < w;
    assert y * w + w == (y + 1) * w;
    MulMonotone(y + 1, n, w);
    DivModUnique(ByteIndex(n, x, y), w, y, x / 8);
  }

  /** Unpacking with the same rule: pixel (x, y) is bit `7 - x % 8` of byte
      `y * ceil(n/8) + x / 8`. */
  function Unpack(bytes: seq<bv8>, n: nat): (g: Grid)
    requires |bytes| == n * BytesPerRow(n)
    ensures IsGrid(g, n)
  {
    seq(n, y requires 0 <= y < n =>
      seq(n, x requires 0 <= x < n =>
        ByteIndexInRange(n, x, y);
        BitSet(bytes[ByteIndex(n, x, y)], x % 8)))
  }

  lemma MaskBit(a: bv8, k: nat, j: nat)
    requires k < 8 && j < 8
    ensures BitSet(a | Mask(k), j) <==> BitSet(a, j) || j == k
  {
  }

  lemma ZeroBit(j: nat)
    requires j < 8
    ensures !BitSet(0, j)
  {
  }

  /** The zero byte has no bit set. */
  lemma ZeroBits()
    ensures forall j :: 0 <= j < 8 ==> !BitSet(0, j)
  {
    forall j | 0 <= j < 8
      ensures !BitSet(0, j)
    {
      ZeroBit(j);
    }
  }

  /** Byte `py * ceil(n/8) + j` of the packed list is the byte of group j of row py. */
  lemma {:induction false} PackRowsIndex(g: Grid, n: nat, rows: nat, py: nat, j: nat)
    requires py < rows && j < BytesPerRow(n)
    ensures py * BytesPerRow(n) + j < |PackRows(g, n, rows)|
    ensures PackRows(g, n, rows)[py * BytesPerRow(n) + j] == GroupByte(g, n, py, 8 * j, 8)
  {
    var w := BytesPerRow(n);
    var prefix := PackRows(g, n, rows - 1);
    assert |prefix| == (rows - 1) * w;
    assert (py + 1) * w == py * w + w;
    MulMonotone(py + 1, rows, w);
    if py < rows - 1 {
      MulMonotone(py + 1, rows - 1, w);
      PackRowsIndex(g, n, rows - 1, py, j);
    } else {
      assert py * w == |prefix|;
    }
  }

  /** The bit-level layout of a packed bitmap: bit `7 - bit` of byte
      `py * ceil(n/8) + pxStart / 8` is set iff column `pxStart + bit` lies
      inside the image and its pixel in row py is foreground. */
  lemma PackBit(g: Grid, n: nat, py: nat, j: nat, bit: nat)
    requires py < n && j < BytesPerRow(n) && bit < 8
    ensures py * BytesPerRow(n) + j < |Pack(g, n)|
    ensures BitSet(Pack(g, n)[py * BytesPerRow(n) + j], bit) <==>
              8 * j + bit < n && Pixel(g, 8 * j + bit, py)
  {
    PackRowsIndex(g, n, n, py, j);
  }

  /** The same layout read from a flat byte index i: row `i / w`, group `i % w`. */
  lemma PackedByte(g: Grid, n: nat, i: nat, bit: nat)
    requires i < n * BytesPerRow(n) && bit < 8
    ensures i < |Pack(g, n)|
    ensures BitSet(Pack(g, n)[i], bit) <==>
              8 * (i % BytesPerRow(n)) + bit < n && Pixel(g, 8 * (i % BytesPerRow(n)) + bit, i / BytesPerRow(n))
  {
    RowAndGroup(i, n);
    PackBit(g, n, i / BytesPerRow(n), i % BytesPerRow(n), bit);
  }

  /** A packed bitmap has n * ceil(n/8) bytes and no padding bit set. */
  lemma PackPadded(g: Grid, n: nat)
    ensures |Pack(g, n)| == n * BytesPerRow(n)
    ensures Padded(Pack(g, n), n)
  {
    var w := BytesPerRow(n);
    var p := Pack(g, n);
    forall i, bit | 0 <= i < |p| && 0 <= bit < 8 && 8 * (i % w) + bit >= n
      ensures !BitSet(p[i], bit)
    {
      PackedByte(g, n, i, bit);
    }
  }

  /** Unpacking a packed n×n image gives the image back. */
  lemma UnpackPack(g: Grid, n: nat)
    requires IsGrid(g, n)
    ensures |Pack(g, n)| == n * BytesPerRow(n)
    ensures Unpack(Pack(g, n), n) == g
  {
    var u := Unpack(Pack(g, n), n);
    forall y | 0 <= y < n
      ensures u[y] == g[y]
    {
      forall x | 0 <= x < n
        ensures u[y][x] == g[y][x]
      {
        ByteIndexInRange(n, x, y);
        assert 8 * (x / 8) + x % 8 == x;
        PackBit(g, n, y, x / 8, x % 8);
      }
    }
  }

  /** Two bytes that agree on all eight bits are equal. */
  lemma ByteExt(a: bv8, b: bv8)
    requires forall bit :: 0 <= bit < 8 ==> BitSet(a, bit) == BitSet(b, bit)
    ensures a == b
  {
    assert BitSet(a, 0) == BitSet(b, 0);
    assert BitSet(a, 1) == BitSet(b, 1);
    assert BitSet(a, 2) == BitSet(b, 2);
    assert BitSet(a, 3) == BitSet(b, 3);
    assert BitSet(a, 4) == BitSet(b, 4);
    assert BitSet(a, 5) == BitSet(b, 5);
    assert BitSet(a, 6) == BitSet(b, 6);
    assert BitSet(a, 7) == BitSet(b, 7);
  }

  /** `g` holds, at every pixel of the n×n cell, the bit `bytes` has for
      it under the MSB-first, row-major layout. */
  ghost predicate Encodes(g: Grid, bytes: seq<bv8>, n: nat) {
    |bytes| == n * BytesPerRow(n) &&
    forall x, y :: 0 <= x < n && 0 <= y < n ==>
      ByteIndex(n, x, y) < |bytes| && Pixel(g, x, y) == BitSet(bytes[ByteIndex(n, x, y)], x % 8)
  }

  /** An unpacked image encodes the bytes it came from. */
  lemma UnpackEncodes(bytes: seq<bv8>, n: nat)
    requires |bytes| == n * BytesPerRow(n)
    ensures Encodes(Unpack(bytes, n), bytes, n)
  {
    forall x, y | 0 <= x < n && 0 <= y < n
      ensures ByteIndex(n, x, y) < |bytes|
      ensures Pixel(Unpack(bytes, n), x, y) == BitSet(bytes[ByteIndex(n, x, y)], x % 8)
    {
      ByteIndexInRange(n, x, y);
    }
  }

  /** Bit `bit` of byte i stands for a column whose byte index is i again. */
  lemma ColumnOfBit(n: nat, i: nat, bit: nat)
    requires i < n * BytesPerRow(n) && bit < 8 && 8 * (i % BytesPerRow(n)) + bit < n
    ensures 0 <= i / BytesPerRow(n) < n && 0 <= i % BytesPerRow(n)
    ensures ByteIndex(n, 8 * (i % BytesPerRow(n)) + bit, i / BytesPerRow(n)) == i
    ensures (8 * (i % BytesPerRow(n)) + bit) % 8 == bit
  {
    RowAndGroup(i, n);
    DivModUnique(8 * (i % BytesPerRow(n)) + bit, 8, i % BytesPerRow(n), bit);
  }

  /** One bit of the round trip: packing an image that encodes a padded
      byte list reproduces each bit of it. */
  lemma PackUnpackBit(g: Grid, bytes: seq<bv8>, n: nat, i: nat, bit: nat)
    requires Encodes(g, bytes, n) && Padded(bytes, n) && i < |bytes| && bit < 8
    ensures i < |Pack(g, n)|
    ensures BitSet(Pack(g, n)[i], bit) == BitSet(bytes[i], bit)
  {
    var w := BytesPerRow(n);
    PackedByte(g, n, i, bit);
    if 8 * (i % w) + bit < n {
      ColumnOfBit(n, i, bit);
      var py: nat, x: nat := i / w, 8 * (i % w) + bit;
      assert Pixel(g, x, py) == BitSet(bytes[ByteIndex(n, x, py)], x % 8);
    }
  }

  /** One byte of the round trip. */
  lemma PackUnpackByte(g: Grid, bytes: seq<bv8>, n: nat, i: nat)
    requires Encodes(g, bytes, n) && Padded(bytes, n) && i < |bytes|
    ensures i < |Pack(g, n)|
    ensures Pack(g, n)[i] == bytes[i]
  {
    var p := Pack(g, n);
    PackUnpackBit(g, bytes, n, i, 0);
    forall bit | 0 <= bit < 8
      ensures BitSet(p[i], bit) == BitSet(bytes[i], bit)
    {
      PackUnpackBit(g, bytes, n, i, bit);
    }
    ByteExt(p[i], bytes[i]);
  }

  /** Conversely, packing the image a padded byte list unpacks to gives
      that byte list back: packing is a bijection between n×n images and
      padded byte lists of length n * ceil(n/8). */
  lemma PackUnpack(bytes: seq<bv8>, n: nat)
    requires Padded(bytes, n)
    ensures Pack(Unpack(bytes, n), n) == bytes
  {
    var g := Unpack(bytes, n);
    var p := Pack(g, n);
    UnpackEncodes(bytes, n);
    forall i | 0 <= i < |bytes|
      ensures p[i] == bytes[i]
    {
      PackUnpackByte(g, bytes, n, i);
    }
  }

  /** The all-background n×n image. */
  function Blank(n: nat): (g: Grid)
    ensures IsGrid(g, n)
  {
    seq(n, _ => seq(n, _ => false))
  }

  /** Every byte of a packed blank image is zero. */
  lemma PackBlankByte(n: nat, i: nat)
    requires i < n * BytesPerRow(n)
    ensures i < |Pack(Blank(n), n)|
    ensures Pack(Blank(n), n)[i] == 0
  {
    var p := Pack(Blank(n), n);
    PackedByte(Blank(n), n, i, 0);
    forall bit | 0 <= bit < 8
      ensures !BitSet(p[i], bit)
    {
      PackedByte(Blank(n), n, i, bit);
    }
    ZeroBits();
    ByteExt(p[i], 0);
  }

  /** A blank image packs to n * ceil(n/8) zero bytes. */
  lemma PackBlank(n: nat)
    ensures Pack(Blank(n), n) == seq(n * BytesPerRow(n), _ => 0 as bv8)
  {
    var p := Pack(Blank(n), n);
    forall i | 0 <= i < |p|
      ensures p[i] == 0
    {
      PackBlankByte(n, i);
    }
  }

  /** The nested loops of the source: rows, then 8-pixel groups, then the
      eight bits of a group, OR-ing in `1 << (7 - bit)` for each foreground
      pixel inside the image.  The two inner loops are PackRow and
      PackGroup. */
  method PackImage(g: Grid, n: nat) returns (bytes: seq<bv8>)
    ensures bytes == Pack(g, n)
    ensures |bytes| == n * BytesPerRow(n)
  {
    bytes := [];
    var py := 0;
    while py < n
      invariant py <= n
      invariant bytes == PackRows(g, n, py)
    {
      var row := PackRow(g, n, py);
      bytes := bytes + row;
      py := py + 1;
    }
  }

  /** The loop over the 8-pixel groups of row py. */
  method PackRow(g: Grid, n: nat, py: nat) returns (row: seq<bv8>)
    ensures row == RowBytes(g, n, py, BytesPerRow(n))
  {
    var w := BytesPerRow(n);
    row := [];
    var pxStart := 0;
    ghost var j := 0;
    while pxStart < n
      invariant pxStart == 8 * j && j <= w
      invariant row == RowBytes(g, n, py, j)
    {
      var b := PackGroup(g, n, py, pxStart);
      row := row + [b];
      pxStart := pxStart + 8;
      j := j + 1;
    }
  }

  /** The loop over the eight bits of the group starting at column pxStart. */
  method PackGroup(g: Grid, n: nat, py: nat, pxStart: nat) returns (b: bv8)
    ensures b == GroupByte(g, n, py, pxStart, 8)
  {
    b := 0;
    var bit := 0;
    while bit < 8
      invariant bit <= 8
      invariant b == GroupByte(g, n, py, pxStart, bit)
    {
      var px := pxStart + bit;
      if px < n {
        if Pixel(g, px, py) {
          b := b | Mask(bit);
        }
      }
      bit := bit + 1;
    }
  }
}
