# ESP32 marquee server: glyph rasterizer, bit packer and glyph cache in Dafny

The server renders each character of a display text into an N×N one-bit
bitmap and packs it into bytes for an LED dot-matrix display driven by an
ESP32. Bitmaps are memoised per (size, character). A settings form and a
remote-control request change the display state. This project models the
following parts of `main.py` and proves properties about them:

- `BitPacker` (`bit_packer.dfy`) models the packing loop of
  `text_to_dot_matrix`. An image is a `seq<seq<bool>>` and the output is a
  `seq<bv8>`. There is a functional definition (`Pack`), a loop method that
  follows the source's three nested loops (`PackImage`), an `Unpack` using
  the same MSB-first, row-major rule, and both round trips.
- `Rasterizer` (`rasterizer.dfy`) models the rest of `text_to_dot_matrix`:
  - loading the font, with a fallback to the default font;
  - measuring the text;
  - the single corrective shrink pass, in exact real arithmetic;
  - the centring origin, with Python floor division;
  - drawing and packing.

  The font library is an opaque `GlyphSource` record of functions: whether
  a TrueType load succeeds, the `textbbox` result, and the drawn image.
  Each of these may fail (`Option`).
- `GlyphCache` (`glyph_cache.dfy`) models `get_cached_bitmaps`.
  - The table is `map<int, map<char, seq<bv8>>>`.
  - `Lookup` is a function of the table before the call.
  - `GetCachedBitmaps` is the source's loop over `set(text)`, in any
    iteration order. It is proved equal to `Lookup`.
- `Controls` (`controls.dfy`) models the state changes of `submit_text` and
  `get_esp32_data`, and the invariant those two handlers keep:
  - scroll delay in [10, 200] and scroll step in [1, 8];
  - the ten preset buttons are present;
  - neither the display text nor any preset is empty.

  It also models the initial `CURRENT_STATE` and `PRESETS`, Python's
  `str.strip`, and the clamps.
- `Wrappers` (`wrappers.dfy`) defines `Option`, which stands for "returned
  normally or raised".

Modelling choices:

- Bytes are `bv8`. The source only ORs bits 0..7 into a zero byte, so every
  value it produces is in 0..255. The bound of 0..255 on every element
  therefore holds by type.
- The cache is keyed by `str(size)` in the source. It is keyed by the size
  here because `str` is injective on integers.
- Behaviour of the code that the model keeps as written:
  - `text_to_dot_matrix` never validates the size. A size of zero is
    accepted and gives a zero-length bitmap when rendering succeeds. A negative size makes `Image.new` raise, so
    `get_cached_bitmaps` stores the fallback entry.
  - The fallback entry for a failed glyph is `(size*size)//8` zero bytes.
    This equals the real bitmap length `size * ceil(size/8)` exactly when
    `size % 8 == 0` (see `GlyphCache.FallbackLengthAgrees`).
  - `submit_text` does not guard the size parse. A size that is not an
    integer raises after the text has already been replaced, and nothing
    else is changed (`Controls.Submit`, `completed == false`).
  - The corrective pass can enlarge the font. For cells below 8 pixels the
    8-pixel floor produces a size above the cell
    (`Rasterizer.SmallCellRescaleGrows`).

## Model

| member | source | states |
|---|---|---|
| BitPacker.BytesPerRow | main.py:69 | the number of 8-pixel groups per row is the least w with n <= 8w, i.e. ceil(n/8) |
| BitPacker.PackRows | main.py:67-78 | the first `rows` rows pack to exactly rows * ceil(n/8) bytes |
| BitPacker.RowBytes | main.py:69-77 | one row packs to one byte per 8-pixel group, byte j being the group byte of columns 8j..8j+7 |
| BitPacker.Pack | main.py:67-78 | an n×n image packs to exactly n*ceil(n/8) bytes; its bit layout is PackBit and its inverse Unpack |
| BitPacker.GroupByte | main.py:70-76 | after k inner iterations, bit 7-j of the group byte is set iff j < k, column px_start+j is inside the image, and that pixel is foreground |
| BitPacker.PackBit | main.py:68-77 | byte py*ceil(n/8)+j of the packed list has bit 7-bit set iff column 8j+bit < n and pixel (8j+bit, py) is foreground |
| BitPacker.PackedByte | main.py:68-77 | the same layout read from a flat index i: row i / w, group i % w |
| BitPacker.PackPadded | main.py:69-76 | a packed bitmap has n*ceil(n/8) bytes and every padding bit beyond column n is 0 |
| BitPacker.UnpackPack | main.py:67-78 | unpacking the packed bytes MSB-first and row-major gives back the original n×n image |
| BitPacker.PackUnpack | main.py:67-78 | any padded byte list of length n*ceil(n/8) is the packing of the image it unpacks to, so packing is a bijection |
| BitPacker.PackBlank | main.py:46-78 | a blank (all-background) image packs to n*ceil(n/8) zero bytes |
| BitPacker.PackImage | main.py:67-78 | the nested row/group/bit loops OR-ing `1 << (7 - bit)` into each byte compute exactly Pack, of length n*ceil(n/8) |
| BitPacker.PackRow | main.py:69-77 | the loop over the 8-pixel groups of one row yields exactly that row's ceil(n/8) group bytes |
| BitPacker.PackGroup | main.py:70-77 | the loop over the eight bits of a group yields exactly the group byte |
| Rasterizer.FloorDiv | main.py:63-64 | Python `//` by a positive divisor rounds toward negative infinity: b*q <= a < b*q + b |
| Rasterizer.Origin | main.py:63-64 | with the draw origin, the box's left and right margins (and top and bottom margins) differ by at most one pixel, the extra pixel on the right or bottom, for any sign of n - w; a box no larger than the cell lies inside [0, n] |
| Rasterizer.Trunc | main.py:55 | Python `int()` on a float truncates toward zero |
| Rasterizer.Scale | main.py:54 | for a positive cell and an overflowing box the shrink factor lies strictly between 0 and 0.9, and scaling either dimension (counted as at least 1) by it gives at most 0.9 n |
| Rasterizer.RescaledSize | main.py:53-55 | the corrective font size is at least 8, and for a cell above 8 pixels with an overflowing box it is below the cell size |
| Rasterizer.InitialFont | main.py:41-44 | the first font is the TrueType font of size n exactly when loading it succeeds, and the default font when it raises |
| Rasterizer.Place | main.py:41-64 | the final box is the chosen font's measurement and is centred by Origin; a fitting first measurement keeps the first font and box; a changed font is a TrueType font of size >= 8 (below n when n > 8); placement fails exactly when a measurement raises |
| Rasterizer.TextToDotMatrix | main.py:39-78 | succeeds exactly when n >= 0, placement succeeds and drawing succeeds; the result is a padded n*ceil(n/8)-byte bitmap whose unpacking equals the drawn image on every pixel of the cell |
| Rasterizer.PackReproduces | main.py:65-78 | unpacking the packed drawn image reads back every pixel inside the cell |
| Rasterizer.OverflowAcceptedAfterOnePass | main.py:53-65 | there is one corrective pass only: a text that still overflows after it is placed and centred on its overflowing box, and when the draw returns normally the whole conversion succeeds with no error |
| Rasterizer.SmallCellRescaleGrows | main.py:53-55 | for every cell of 0 to 7 pixels and any overflowing box, the 8-pixel floor makes the corrective size larger than the cell |
| Rasterizer.SmallCellExample | main.py:53-55 | in a 5-pixel cell a 6×6 box is re-rendered at size 8, larger than the cell |
| GlyphCache.Fallback | main.py:93 | the error entry has floor(size²/8) bytes, all zero |
| GlyphCache.Entry | main.py:87-93 | a miss stores exactly the bitmap text_to_dot_matrix returned for the one-character text (a padded size*ceil(size/8)-byte bitmap) when rendering succeeds, and the zero-filled fallback when it raises |
| GlyphCache.ComputeEntry | main.py:88-93 | when rendering returns, the stored entry is a padded bitmap whose unpacking equals the glyph drawn at its centring origin on every pixel of the cell; when it raises, the entry is the zero-filled fallback; either way it is Entry |
| GlyphCache.Lookup | main.py:80-95 | the result's keys are exactly set(text), and each value is the table entry after the call; the size bucket exists afterwards; only misses are computed and added; other buckets and existing entries are unchanged; the table only grows |
| GlyphCache.FillBucket | main.py:86-94 | the loop over set(text), in any iteration order, computes exactly the characters the bucket lacks, leaves the bucket filled with their entries, and returns the final entry for every character |
| GlyphCache.GetCachedBitmaps | main.py:80-95 | the loop over set(text), in any iteration order, yields the table, result and set of computed characters that Lookup describes |
| GlyphCache.LoopDone | main.py:86-95 | the loop state after the last character is Lookup's outcome |
| GlyphCache.EmptyCoherent | main.py:34 | the initially empty table holds only computed entries, so LookupTransparent applies from the start |
| GlyphCache.LookupIdempotent | main.py:86-94 | a repeated call computes nothing, leaves the table unchanged and returns identical bitmaps |
| GlyphCache.LookupTransparent | main.py:86-94 | from a table holding only computed entries, every returned bitmap equals a direct computation, and the table stays so |
| GlyphCache.FallbackLengthAgrees | main.py:67-93 | the fallback length equals the real bitmap length n*ceil(n/8) iff n % 8 == 0 |
| GlyphCache.FallbackTwelve | main.py:93 | at size 12 the fallback has 18 bytes where a bitmap has 24 |
| Controls.Strip | main.py:208 | `str.strip()` returns the middle slice with whitespace removed from both ends; a non-empty result starts and ends with a non-space; it is empty iff the input is all whitespace |
| Controls.StripIdempotent | main.py:228 | stripping a stripped value changes nothing |
| Controls.Clamp | main.py:216 | `max(lo, min(hi, v))` lies in [lo, hi], is v inside the range, lo below it and hi above it |
| Controls.NumberSetting | main.py:214-224 | a missing field gives the clamped default, a parsed field its clamped value, a malformed field keeps the current value; a missing or parsed field always gives a value inside the range |
| Controls.PresetField | main.py:228 | a missing `preset_i` field gives the empty string, a present one its stripped value |
| Controls.UpdatePresets | main.py:227-230 | a button gets its stripped value iff that value is non-empty; every other preset is kept, and no other key appears |
| Controls.Submit | main.py:203-230 | the text changes only to a non-empty stripped value; a malformed size aborts with nothing else changed; otherwise the size is taken (16 by default), delay and step are clamped into [10,200] and [1,8] or kept when malformed, and presets are updated |
| Controls.SubmitPresets | main.py:226-230 | after a completed submission, button i holds the stripped `preset_i` field when it is non-empty; otherwise it keeps its preset, or stays absent |
| Controls.SelectPreset | main.py:239-240 | an id that is a preset key sets the text to that preset; nothing else changes, and any other id changes nothing |
| Controls.GetData | main.py:236-256 | the reply carries the state after the preset switch and exactly one bitmap per distinct character of its text; each is the entry the table held before for that size, or on a miss the freshly computed Entry, and is stored in the table; the table gains exactly the size bucket and the missing characters, and no existing entry changes |
| Controls.GetDataRepeat | main.py:236-256 | repeating a request with the same button is served entirely from the table: the state, the table and the reply are unchanged |
| Controls.InitialValid | main.py:12-31 | the initial state and presets satisfy the invariant |
| Controls.SubmitPreservesValid | main.py:208-230 | a submission, completed or aborted, keeps the invariant |
| Controls.SelectPresetPreservesValid | main.py:239-240 | a preset switch keeps the invariant |

## Left out

- Font rendering (`ImageFont.truetype`, `load_default`, `textbbox`, `draw.text`) is a foreign library. It is the opaque `GlyphSource`. The drawn image is taken as given; only how the code uses it is modelled.
- `load_default()` raising is not modelled. Its call in the `except` branch is treated as always succeeding.
- Rasterizer.Scale, Rasterizer.RescaledSize: the shrink factor is computed in exact real arithmetic. IEEE double rounding of `/`, `min`, `* 0.9` and `font_size * scale` is not modelled, so for rare inputs where rounding moves the product across an integer the model can differ by one.
- The glyph table is a value passed in and returned, not a global dictionary. The in-place update of a bucket is a local bucket written back after the loop. Nothing observes the table in between.
- FastAPI routes, the HTML settings page (`webpage`), form decoding, the JSON response encoding and server start-up are I/O glue. `Form` holds already-decoded fields, and `Reply` holds the response's contents.
- Controls.Submit: `int()` parsing of form strings is not modelled. A numeric field is given as missing, parsed or malformed.
- Logging (`print`) and the font-file existence check at start-up are output only.
- Concurrency: the source has no locking, and requests are modelled one at a time.
