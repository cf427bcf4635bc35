/** The display state and the ten remote-control presets, as changed by
    the settings form (`submit_text`) and by the device's data request
    (`get_esp32_data`).  Form parsing, HTML and JSON are left out: a form is
    a record of already-decoded fields. */
module Controls {
  import opened Wrappers
  import Rasterizer
  import GlyphCache

  /** What is shown and how it scrolls. */
  datatype State = State(text: string, size: int, scrollDelayMs: int, scrollStep: int)

  /** Preset texts keyed by remote-control button. */
  type Presets = map<int, string>

  const InitialState: State := State("Waiting...", 16, 50, 2)

  const InitialPresets: Presets := map[
    0 := "歡迎使用智慧看板",
    1 := "包裹已送達",
    2 := "垃圾車來了",
    3 := "會議中請勿打擾",
    4 := "用餐時間",
    5 := "外出中",
    6 := "請稍候",
    7 := "謝謝光臨",
    8 := "Happy New Year",
    9 := "abc ㄅ ㄆ ㄇ ㄈ"]

  const PresetCount: nat := 10

  /** Python's `str.isspace` for one character. */
  predicate IsSpace(c: char) {
    c == ' ' || c == '\t' || c == '\n' || c == '\r' || c == '\U{000B}' || c == '\U{000C}' ||
    ('\U{001C}' <= c <= '\U{001F}') || c == '\U{0085}' || c == '\U{00A0}' || c == '\U{1680}' ||
    ('\U{2000}' <= c <= '\U{200A}') || c == '\U{2028}' || c == '\U{2029}' || c == '\U{202F}' ||
    c == '\U{205F}' || c == '\U{3000}'
  }

  /** The first index at or after i that holds no whitespace, |s| if none. */
  function FirstNonSpace(s: string, i: nat): (k: nat)
    requires i <= |s|
    ensures i <= k <= |s|
    ensures forall j :: i <= j < k ==> IsSpace(s[j])
    ensures k < |s| ==> !IsSpace(s[k])
    decreases |s| - i
  {
    if i < |s| && IsSpace(s[i]) then FirstNonSpace(s, i + 1) else i
  }

  /** The end of s[lo..e] once its trailing whitespace is cut off. */
  function EndNonSpace(s: string, lo: nat, e: nat): (k: nat)
    requires lo <= e <= |s|
    ensures lo <= k <= e
    ensures forall j :: k <= j < e ==> IsSpace(s[j])
    ensures k > lo ==> !IsSpace(s[k - 1])
  {
    if e > lo && IsSpace(s[e - 1]) then EndNonSpace(s, lo, e - 1) else e
  }

  /** Python's `str.strip()`: the longest middle part of `s` that neither
      starts nor ends with whitespace; everything cut off on either side is
      whitespace, and the result is empty exactly when `s` is all
      whitespace. */
  function Strip(s: string): (r: string)
    ensures var start := FirstNonSpace(s, 0);
            start + |r| <= |s| && r == s[start..start + |r|] &&
            (forall i :: 0 <= i < start ==> IsSpace(s[i])) &&
            (forall i :: start + |r| <= i < |s| ==> IsSpace(s[i]))
    ensures r != [] ==> !IsSpace(r[0]) && !IsSpace(r[|r| - 1])
    ensures r == [] <==> forall i :: 0 <= i < |s| ==> IsSpace(s[i])
  {
    var start := FirstNonSpace(s, 0);
    var end := EndNonSpace(s, start, |s|);
    s[start..end]
  }

  /** Stripping twice is stripping once. */
  lemma StripIdempotent(s: string)
    ensures Strip(Strip(s)) == Strip(s)
  {
  }

  /** `max(lo, min(hi, v))`: v pulled into [lo, hi]. */
  function Clamp(lo: int, hi: int, v: int): (r: int)
    requires lo <= hi
    ensures lo <= r <= hi
    ensures lo <= v <= hi ==> r == v
    ensures v < lo ==> r == lo
    ensures v > hi ==> r == hi
  {
    var m := if hi <= v then hi else v;
    if lo >= m then lo else m
  }

  /** A numeric form field after `int(form.get(name, default))`: absent (the
      default is used), parsed, or not an integer (`int` raises). */
  datatype Number = Missing | Parsed(value: int) | Malformed

  /** A submitted settings form.  `presets[i]` is the field `preset_i`; a
      missing key is a missing field. */
  datatype Form = Form(
    text: Option<string>,
    size: Number,
    scrollDelayMs: Number,
    scrollStep: Number,
    presets: map<int, string>)

  /** The outcome of a submission.  `completed` is false when the handler
      raised part-way (a size that is not an integer); what was written
      before the exception stays written. */
  datatype Submitted = Submitted(state: State, presets: Presets, completed: bool)

  /** `form.get(f"preset_{i}", "").strip()`: empty when the field is
      missing or all whitespace, otherwise the field with its surrounding
      whitespace cut off. */
  function PresetField(fields: map<int, string>, i: int): (v: string)
    ensures i !in fields ==> v == []
    ensures i in fields ==> v == Strip(fields[i])
  {
    Strip(if i in fields then fields[i] else "")
  }

  /** The stripped preset fields of buttons 0 .. PresetCount-1. */
  function PresetValues(fields: map<int, string>): (vals: seq<string>)
    ensures |vals| == PresetCount
  {
    seq(PresetCount, i requires 0 <= i < PresetCount => PresetField(fields, i))
  }

  /** The preset loop for buttons 0 .. count-1 over the stripped values:
      a button whose value is non-empty gets it, every other entry is kept. */
  function UpdatePresets(presets: Presets, vals: seq<string>, count: nat): (r: Presets)
    requires count <= |vals|
    ensures forall i :: i in r <==> i in presets || (0 <= i < count && vals[i] != [])
    ensures forall i :: 0 <= i < count && vals[i] != [] ==> r[i] == vals[i]
    ensures forall i :: i in presets && !(0 <= i < count && vals[i] != []) ==> r[i] == presets[i]
  {
    if count == 0 then presets
    else
      var r := UpdatePresets(presets, vals, count - 1);
      var v := vals[count - 1];
      if v != [] then r[count - 1 := v] else r
  }

  /** A delay or step field: the default when missing, the clamped value
      when parsed, the current value when `int` raises. */
  function NumberSetting(field: Number, default: int, lo: int, hi: int, current: int): (r: int)
    requires lo <= hi
    ensures field.Missing? ==> r == Clamp(lo, hi, default)
    ensures field.Parsed? ==> r == Clamp(lo, hi, field.value)
    ensures field.Malformed? ==> r == current
    ensures !field.Malformed? ==> lo <= r <= hi
  {
    match field
    case Missing => Clamp(lo, hi, default)
    case Parsed(v) => Clamp(lo, hi, v)
    case Malformed => current
  }

  /** `submit_text`.  The text is replaced only by a non-empty stripped
      value.  A size that is not an integer raises right after that, so
      nothing else changes; otherwise the size is taken unchecked (16 when
      missing), the delay and the step are clamped into [10, 200] and
      [1, 8] (kept when they do not parse), and each preset is replaced only
      by a non-empty stripped value. */
  function Submit(state: State, presets: Presets, form: Form): (r: Submitted)
    ensures r.completed <==> !form.size.Malformed?
    ensures var t := Strip(form.text.GetOr(""));
            (t != [] ==> r.state.text == t) && (t == [] ==> r.state.text == state.text)
    ensures !r.completed ==>
              r.presets == presets && r.state == state.(text := r.state.text)
    ensures r.completed ==>
              r.state.size == (if form.size.Parsed? then form.size.value else 16) &&
              r.state.scrollDelayMs == NumberSetting(form.scrollDelayMs, 50, 10, 200, state.scrollDelayMs) &&
              r.state.scrollStep == NumberSetting(form.scrollStep, 2, 1, 8, state.scrollStep) &&
              r.presets == UpdatePresets(presets, PresetValues(form.presets), PresetCount)
  {
    var newText := Strip(form.text.GetOr(""));
    var s1 := if newText != [] then state.(text := newText) else state;
    if form.size.Malformed? then Submitted(s1, presets, false)
    else
      var size := if form.size.Parsed? then form.size.value else 16;
      var s2 := s1.(size := size,
                    scrollDelayMs := NumberSetting(form.scrollDelayMs, 50, 10, 200, state.scrollDelayMs),
                    scrollStep := NumberSetting(form.scrollStep, 2, 1, 8, state.scrollStep));
      Submitted(s2, UpdatePresets(presets, PresetValues(form.presets), PresetCount), true)
  }

  /** The preset switch of `get_esp32_data`: a requested button that has a
      preset puts its text on display; nothing else changes. */
  function SelectPreset(state: State, presets: Presets, id: Option<int>): (r: State)
    ensures r == state.(text := r.text)
    ensures id.Some? && id.value in presets ==> r.text == presets[id.value]
    ensures !(id.Some? && id.value in presets) ==> r == state
  {
    if id.Some? && id.value in presets then state.(text := presets[id.value]) else state
  }

  /** The data sent to the display: the settings and one bitmap per
      distinct character of the text. */
  datatype Reply = Reply(text: string, size: int, scrollDelayMs: int, scrollStep: int,
                         bitmaps: map<char, GlyphCache.Bitmap>)

  datatype Served = Served(reply: Reply, state: State, cache: GlyphCache.Cache)

  /** `get_esp32_data`: switch preset, then fetch the bitmaps of the
      current text at the current size through the glyph table. */
  function GetData(src: Rasterizer.GlyphSource, cache: GlyphCache.Cache,
                   state: State, presets: Presets, id: Option<int>): (r: Served)
    ensures r.state == SelectPreset(state, presets, id)
    ensures r.reply.text == r.state.text && r.reply.size == r.state.size
    ensures r.reply.scrollDelayMs == state.scrollDelayMs && r.reply.scrollStep == state.scrollStep
    ensures r.reply.bitmaps.Keys == GlyphCache.Chars(r.state.text)
    ensures r.state.size in r.cache
    ensures forall c :: c in r.reply.bitmaps ==>
              c in r.cache[r.state.size] && r.reply.bitmaps[c] == r.cache[r.state.size][c]
    ensures GlyphCache.Grows(cache, r.cache)
    ensures var before := GlyphCache.BucketOf(cache, r.state.size);
            forall c :: c in r.reply.bitmaps ==>
              r.reply.bitmaps[c] == (if c in before then before[c] else GlyphCache.Entry(src, c, r.state.size))
    ensures r.cache.Keys == cache.Keys + {r.state.size}
    ensures r.cache[r.state.size].Keys ==
              GlyphCache.BucketOf(cache, r.state.size).Keys + GlyphCache.Chars(r.state.text)
  {
    var s := SelectPreset(state, presets, id);
    var step := GlyphCache.Lookup(src, cache, s.text, s.size);
    Served(Reply(s.text, s.size, s.scrollDelayMs, s.scrollStep, step.bitmaps), s, step.cache)
  }

  /** A repeated request with the same button is served entirely from the
      table: the state, the table and the reply are those of the first. */
  lemma GetDataRepeat(src: Rasterizer.GlyphSource, cache: GlyphCache.Cache,
                      state: State, presets: Presets, id: Option<int>)
    ensures var first := GetData(src, cache, state, presets, id);
            var second := GetData(src, first.cache, first.state, presets, id);
            second.state == first.state && second.cache == first.cache && second.reply == first.reply
  {
    var first := GetData(src, cache, state, presets, id);
    assert SelectPreset(first.state, presets, id) == first.state;
    GlyphCache.LookupIdempotent(src, cache, first.state.text, first.state.size);
  }

  /** What stays true of the state between requests: the scroll settings
      are in range, the ten buttons have presets, and neither the display
      text nor any preset is ever empty. */
  ghost predicate Valid(state: State, presets: Presets) {
    && 10 <= state.scrollDelayMs <= 200
    && 1 <= state.scrollStep <= 8
    && state.text != []
    && (forall i :: i in presets <==> 0 <= i < PresetCount)
    && forall i :: i in presets ==> presets[i] != []
  }

  lemma InitialValid()
    ensures Valid(InitialState, InitialPresets)
  {
  }

  /** A submission, completed or not, keeps the state valid. */
  lemma SubmitPreservesValid(state: State, presets: Presets, form: Form)
    requires Valid(state, presets)
    ensures Valid(Submit(state, presets, form).state, Submit(state, presets, form).presets)
  {
  }

  /** One button of the preset loop: it gets its value when that is
      non-empty and otherwise keeps its preset, or stays absent. */
  lemma UpdatePresetsAt(presets: Presets, vals: seq<string>, i: int)
    requires |vals| == PresetCount && 0 <= i < PresetCount
    ensures var r := UpdatePresets(presets, vals, PresetCount);
            (vals[i] != [] ==> i in r && r[i] == vals[i]) &&
            (vals[i] == [] && i in presets ==> i in r && r[i] == presets[i]) &&
            (vals[i] == [] && i !in presets ==> i !in r)
  {
  }

  /** Per button, a completed submission stores the stripped field
      `preset_i` when it is non-empty and otherwise keeps the button's
      preset. */
  lemma SubmitPresets(state: State, presets: Presets, form: Form, i: int)
    requires 0 <= i < PresetCount
    requires !form.size.Malformed?
    ensures var v := PresetField(form.presets, i);
            var r := Submit(state, presets, form).presets;
            (v != [] ==> i in r && r[i] == v) &&
            (v == [] && i in presets ==> i in r && r[i] == presets[i]) &&
            (v == [] && i !in presets ==> i !in r)
  {
    var vals := PresetValues(form.presets);
    assert vals[i] == PresetField(form.presets, i);
    UpdatePresetsAt(presets, vals, i);
  }

  /** Switching presets keeps the state valid. */
  lemma SelectPresetPreservesValid(state: State, presets: Presets, id: Option<int>)
    requires Valid(state, presets)
    ensures Valid(SelectPreset(state, presets, id), presets)
  {
    if id.Some? && id.value in presets {
      var k := id.value;
      assert k in presets;
      assert presets[k] != [];
    }
  }
}
