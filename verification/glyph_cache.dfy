/** `get_cached_bitmaps`: a two-level table size -> character -> packed
    bitmap that is filled on demand and never shrinks.  The Python table is
    keyed by `str(size)`; since `str` is injective on integers the model keys
    it by the size itself. */
module GlyphCache {
  import opened Wrappers
  import BitPacker
  import Rasterizer

  type Bitmap = seq<bv8>
  type Bucket = map<char, Bitmap>
  type Cache = map<int, Bucket>

  /** The distinct characters of a text (`set(text)`). */
  function Chars(text: string): set<char> {
    set c | c in text
  }

  /** The bucket for a size; a missing bucket reads as empty. */
  function BucketOf(cache: Cache, size: int): Bucket {
    if size in cache then cache[size] else map[]
  }

  /** The entry stored when rendering a character raises: `(size*size)//8`
      zero bytes.  This is the length of a real bitmap only when size is a
      multiple of 8 (see FallbackLengthAgrees). */
  function Fallback(size: int): (r: Bitmap)
    ensures |r| * 8 <= size * size < |r| * 8 + 8
    ensures forall i :: 0 <= i < |r| ==> r[i] == 0
  {
    var k := (size * size) / 8;
    seq(k, _ => 0 as bv8)
  }

  /** What a miss stores for character c: the rendered bitmap, or the
      zero-filled fallback when rendering raises.  Every character is
      rendered through the same font file, so one glyph source serves all. */
  function Entry(src: Rasterizer.GlyphSource, c: char, size: int): (r: Bitmap)
    ensures Rasterizer.TextToDotMatrix(src, [c], size).Some? ==>
              r == Rasterizer.TextToDotMatrix(src, [c], size).value
    ensures Rasterizer.TextToDotMatrix(src, [c], size).Some? ==>
              size >= 0 && |r| == size * BitPacker.BytesPerRow(size) && BitPacker.Padded(r, size)
    ensures Rasterizer.TextToDotMatrix(src, [c], size).None? ==> r == Fallback(size)
  {
    Rasterizer.TextToDotMatrix(src, [c], size).GetOr(Fallback(size))
  }

  /** One call's outcome: the table afterwards, the returned map, and the
      characters whose bitmap was computed (the misses). */
  datatype Step = Step(cache: Cache, bitmaps: map<char, Bitmap>, computed: set<char>)

  /** Every bucket of `cache` is still in `cache'` and holds at least the
      same entries with the same bitmaps. */
  ghost predicate Grows(cache: Cache, cache': Cache) {
    forall s, c :: s in cache && c in cache[s] ==>
      s in cache' && c in cache'[s] && cache'[s][c] == cache[s][c]
  }

  /** The table holds, for every size and character, exactly what a fresh
      computation would give. */
  ghost predicate Coherent(src: Rasterizer.GlyphSource, cache: Cache) {
    forall s, c :: s in cache && c in cache[s] ==> cache[s][c] == Entry(src, c, s)
  }

  /** `get_cached_bitmaps(text, size)` as a function of the table before the
      call.  The returned map has exactly the distinct characters of the
      text as keys and each value is the table's entry after the call; the
      bucket for `size` exists afterwards (even for an empty text); only the
      misses are computed and only they are added; every entry present
      before, in any bucket, is unchanged. */
  function Lookup(src: Rasterizer.GlyphSource, cache: Cache, text: string, size: int): (r: Step)
    ensures r.bitmaps.Keys == Chars(text)
    ensures size in r.cache
    ensures forall c :: c in r.bitmaps ==> c in r.cache[size] && r.bitmaps[c] == r.cache[size][c]
    ensures r.cache.Keys == cache.Keys + {size}
    ensures forall s :: s in cache && s != size ==> r.cache[s] == cache[s]
    ensures r.cache[size].Keys == BucketOf(cache, size).Keys + Chars(text)
    ensures r.computed == Chars(text) - BucketOf(cache, size).Keys
    ensures forall c :: c in r.computed ==> r.cache[size][c] == Entry(src, c, size)
    ensures Grows(cache, r.cache)
  {
    var bucket := BucketOf(cache, size);
    var missing := Chars(text) - bucket.Keys;
    var bucket' := bucket + map c | c in missing :: Entry(src, c, size);
    Step(cache[size := bucket'], map c | c in Chars(text) :: bucket'[c], missing)
  }

  /** `bucket` with freshly computed entries for the characters of `added`. */
  function Filled(src: Rasterizer.GlyphSource, bucket: Bucket, added: set<char>, size: int): Bucket {
    bucket + map c | c in added :: Entry(src, c, size)
  }

  /** The `try`/`except` around one miss.  When rendering returns, the
      entry is a padded bitmap that unpacks, pixel for pixel, to the glyph
      drawn at its centring origin; when it raises, the entry is the
      zero-filled fallback.  Either way it is what Entry stores. */
  method ComputeEntry(src: Rasterizer.GlyphSource, c: char, size: int) returns (entry: Bitmap)
    ensures entry == Entry(src, c, size)
    ensures Rasterizer.TextToDotMatrix(src, [c], size).Some? ==>
              size >= 0 && BitPacker.Padded(entry, size) &&
              var p := Rasterizer.Place(src, [c], size).value;
              var img := src.drawText(p.font, [c], size, p.origin).value;
              forall x, y :: 0 <= x < size && 0 <= y < size ==>
                BitPacker.Unpack(entry, size)[y][x] == BitPacker.Pixel(img, x, y)
    ensures Rasterizer.TextToDotMatrix(src, [c], size).None? ==> entry == Fallback(size)
  {
    var dots := Rasterizer.TextToDotMatrix(src, [c], size);
    if dots.Some? {
      entry := dots.value;
    } else {
      entry := Fallback(size);
    }
  }

  /** The source's loop over `set(text)`: each distinct character, in
      whatever order the set yields them, is looked up in the bucket and
      computed only on a miss.  Afterwards the misses are exactly the
      characters the bucket lacked, and every returned bitmap is the
      bucket's final entry. */
  method FillBucket(src: Rasterizer.GlyphSource, bucket: Bucket, chars: set<char>, size: int)
    returns (current: Bucket, bitmaps: map<char, Bitmap>, computed: set<char>)
    ensures computed == chars - bucket.Keys
    ensures current == Filled(src, bucket, computed, size)
    ensures bitmaps.Keys == chars
    ensures forall c :: c in bitmaps ==> c in current && bitmaps[c] == current[c]
  {
    current := bucket;
    bitmaps := map[];
    computed := {};
    var remaining := chars;
    ghost var visited: set<char> := {};
    while remaining != {}
      invariant visited + remaining == chars && visited !! remaining
      invariant computed == visited - bucket.Keys
      invariant current.Keys == bucket.Keys + computed
      invariant forall d :: d in bucket ==> current[d] == bucket[d]
      invariant forall d :: d in computed ==> current[d] == Entry(src, d, size)
      invariant bitmaps.Keys == visited
      invariant forall d :: d in bitmaps ==> d in current && bitmaps[d] == current[d]
      decreases remaining
    {
      var c :| c in remaining;
      if c !in current {
        var entry := ComputeEntry(src, c, size);
        current := current[c := entry];
        computed := computed + {c};
      }
      bitmaps := bitmaps[c := current[c]];
      remaining := remaining - {c};
      visited := visited + {c};
    }
    FilledExt(src, bucket, computed, size, current);
  }

  /** A bucket that agrees with `bucket` on its keys and holds fresh entries
      for exactly the added characters is Filled. */
  lemma FilledExt(src: Rasterizer.GlyphSource, bucket: Bucket, added: set<char>, size: int, current: Bucket)
    requires added !! bucket.Keys
    requires current.Keys == bucket.Keys + added
    requires forall d :: d in bucket ==> current[d] == bucket[d]
    requires forall d :: d in added ==> current[d] == Entry(src, d, size)
    ensures current == Filled(src, bucket, added, size)
  {
  }

  /** `get_cached_bitmaps`: the table gets its bucket for `size`, the loop
      fills it, and the bucket is written back.  The source updates the
      bucket in place; here it is a local value written back into the
      table, which no other code observes in between. */
  method GetCachedBitmaps(src: Rasterizer.GlyphSource, cache: Cache, text: string, size: int)
    returns (cache': Cache, bitmaps: map<char, Bitmap>, computed: set<char>)
    ensures Step(cache', bitmaps, computed) == Lookup(src, cache, text, size)
  {
    var current;
    current, bitmaps, computed := FillBucket(src, BucketOf(cache, size), Chars(text), size);
    cache' := cache[size := current];
    LoopDone(src, cache, text, size, cache', bitmaps, computed);
  }

  /** When every character has been visited, the loop's state is the
      outcome described by Lookup. */
  lemma LoopDone(src: Rasterizer.GlyphSource, cache: Cache, text: string, size: int,
                 cache': Cache, bitmaps: map<char, Bitmap>, computed: set<char>)
    requires size in cache'
    requires cache'.Keys == cache.Keys + {size}
    requires forall s :: s in cache' && s != size ==> cache'[s] == cache[s]
    requires computed == Chars(text) - BucketOf(cache, size).Keys
    requires cache'[size] == Filled(src, BucketOf(cache, size), computed, size)
    requires bitmaps.Keys == Chars(text)
    requires forall c :: c in bitmaps ==> c in cache'[size] && bitmaps[c] == cache'[size][c]
    ensures Step(cache', bitmaps, computed) == Lookup(src, cache, text, size)
  {
    var r := Lookup(src, cache, text, size);
    assert forall s :: s in cache' ==> cache'[s] == r.cache[s];
    assert cache' == r.cache;
    assert forall c :: c in bitmaps ==> bitmaps[c] == r.bitmaps[c];
    assert bitmaps == r.bitmaps;
  }

  /** Asking again for the same text and size is served entirely from the
      table: nothing is computed, the table does not change, and the same
      bitmaps come back. */
  lemma LookupIdempotent(src: Rasterizer.GlyphSource, cache: Cache, text: string, size: int)
    ensures var first := Lookup(src, cache, text, size);
            var second := Lookup(src, first.cache, text, size);
            second.computed == {} && second.cache == first.cache && second.bitmaps == first.bitmaps
  {
    var first := Lookup(src, cache, text, size);
    var second := Lookup(src, first.cache, text, size);
    assert second.cache[size] == first.cache[size];
    assert second.cache == first.cache;
  }

  /** The table is transparent: starting from an empty table, or any table
      that only holds freshly computed entries, every returned bitmap is
      exactly what a direct computation gives, and the table stays so. */
  lemma LookupTransparent(src: Rasterizer.GlyphSource, cache: Cache, text: string, size: int)
    requires Coherent(src, cache)
    ensures Coherent(src, Lookup(src, cache, text, size).cache)
    ensures forall c :: c in Lookup(src, cache, text, size).bitmaps ==>
              Lookup(src, cache, text, size).bitmaps[c] == Entry(src, c, size)
  {
  }

  lemma EmptyCoherent(src: Rasterizer.GlyphSource)
    ensures Coherent(src, map[])
  {
  }

  /** A fallback entry has the length of a real bitmap, n * ceil(n/8),
      exactly when n is a multiple of 8: for the sizes 16, 24 and 32 offered
      by the settings page the two agree, for a size such as 12 the fallback
      is 18 bytes where a bitmap has 24. */
  lemma FallbackLengthAgrees(n: nat)
    ensures |Fallback(n)| == n * BitPacker.BytesPerRow(n) <==> n % 8 == 0
  {
    var w := BitPacker.BytesPerRow(n);
    var q, r := n / 8, n % 8;
    assert n == 8 * q + r;
    if r == 0 {
      assert w == q;
      assert n * n == 8 * (n * q);
      assert (n * n) / 8 == n * q;
    } else {
      assert w == q + 1;
      assert n * w == n * q + n;
      assert n * n == 8 * (n * q) + n * r;
      BitPacker.MulMonotone(r, 7, n);
      assert n * r < 8 * n;
      assert (n * n) / 8 < n * q + n;
    }
  }

  lemma FallbackTwelve()
    ensures |Fallback(12)| == 18 && 12 * BitPacker.BytesPerRow(12) == 24
  {
  }
}
