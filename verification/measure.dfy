/** Text measurement over a font's glyph-metric table: the size of a single
    line with the pen position of every character, and the greedy word-wrap
    that counts how many lines a string needs within a maximum width. */
module Measure {
  import opened Geometry

  /** Metrics of one glyph, in pixels at scale 1. */
  datatype Glyph = Glyph(advance: real, bmpW: real, bmpH: real, bmpL: real, bmpT: real)

  /** A font: an id the drawing layer knows it by, the height of its glyph
      atlas, and one glyph entry per 7-bit character code. */
  datatype Font = Font(id: int, atlasH: nat, glyphs: seq<Glyph>)

  const GlyphCount := 128

  predicate ValidFont(f: Font) {
    |f.glyphs| == GlyphCount
  }

  /** Every character indexes the glyph table. */
  predicate InTable(s: string) {
    forall k :: 0 <= k < |s| ==> (s[k] as int) < GlyphCount
  }

  function GlyphOf(f: Font, c: char): Glyph
    requires ValidFont(f) && (c as int) < GlyphCount
  {
    f.glyphs[c as int]
  }

  /** How far the glyph's bitmap reaches right of the pen. */
  function Extent(g: Glyph): real {
    g.bmpL + g.bmpW
  }

  /** The pen advance of a whole string at scale 1. */
  function Advances(f: Font, s: string): real
    requires ValidFont(f) && InTable(s)
    decreases |s|
  {
    if |s| == 0 then 0.0
    else Advances(f, s[..|s| - 1]) + GlyphOf(f, s[|s| - 1]).advance
  }

  /** The width of a one-line string at scale 1: the advances of all but the
      last character, plus the last character's bitmap extent. */
  function LineWidth(f: Font, s: string): real
    requires ValidFont(f) && InTable(s)
  {
    if |s| == 0 then 0.0
    else Advances(f, s[..|s| - 1]) + Extent(GlyphOf(f, s[|s| - 1]))
  }

  /** The size of a string drawn on one line: its scaled width, and the
      scaled atlas height whatever the text. */
  function LineSize(f: Font, s: string, scale: real): Vec2
    requires ValidFont(f) && InTable(s)
  {
    Vec2(LineWidth(f, s) * scale, f.atlasH as real * scale)
  }

  lemma AdvancesStep(f: Font, s: string, i: nat)
    requires ValidFont(f) && InTable(s) && i < |s|
    ensures Advances(f, s[..i + 1]) == Advances(f, s[..i]) + GlyphOf(f, s[i]).advance
  {
    assert s[..i + 1][..i] == s[..i];
  }

  /** The horizontal span of character `k`: from the pen position before it
      to that position plus its advance, scaled. */
  function PenSpan(f: Font, text: string, k: nat, scale: real): Vec2
    requires ValidFont(f) && InTable(text) && k < |text|
  {
    var pen := Advances(f, text[..k]);
    Vec2(pen * scale, (pen + GlyphOf(f, text[k]).advance) * scale)
  }

  /** Measures a one-line string and reports each character's span. */
  method LineRenderSize(f: Font, text: string, scale: real) returns (size: Vec2, positions: seq<Vec2>)
    requires ValidFont(f) && InTable(text)
    ensures size == LineSize(f, text, scale)
    ensures |positions| == |text|
    ensures forall i :: 0 <= i < |text| ==> positions[i] == PenSpan(f, text, i, scale)
  {
    var w := 0.0;
    var i := 0;
    positions := [];
    while i < |text|
      invariant 0 <= i <= |text|
      invariant |positions| == i
      invariant w == if i == |text| then LineWidth(f, text) else Advances(f, text[..i])
      invariant forall k :: 0 <= k < i ==> positions[k] == PenSpan(f, text, k, scale)
    {
      var g := GlyphOf(f, text[i]);
      assert Vec2(w * scale, (w + g.advance) * scale) == PenSpan(f, text, i, scale);
      positions := positions + [Vec2(w * scale, (w + g.advance) * scale)];
      if i + 1 == |text| {
        assert text[..i] == text[..|text| - 1];
        w := w + Extent(g);
      } else {
        AdvancesStep(f, text, i);
        w := w + g.advance;
      }
      i := i + 1;
    }
    size := Vec2(w * scale, f.atlasH as real * scale);
  }

  /** Spans are laid end to end: each character starts where the previous
      one's advance ends. */
  lemma SpansAdjacent(f: Font, text: string, scale: real, i: nat)
    requires ValidFont(f) && InTable(text) && i + 1 < |text|
    ensures PenSpan(f, text, i + 1, scale).x == PenSpan(f, text, i, scale).y
  {
    AdvancesStep(f, text, i);
  }

  /** The line height does not depend on the text, and the empty string has
      width 0; a non-empty line ends at its last pen position plus the last
      glyph's extent. */
  lemma LineSizeFacts(f: Font, s: string, t: string, scale: real)
    requires ValidFont(f) && InTable(s) && InTable(t)
    ensures LineSize(f, s, scale).y == LineSize(f, t, scale).y
    ensures LineSize(f, [], scale).x == 0.0
    ensures |s| > 0 ==> LineSize(f, s, scale).x == (Advances(f, s[..|s| - 1]) + Extent(GlyphOf(f, s[|s| - 1]))) * scale
  {
  }

  // ---------------------------------------------------------------------------
  // Word wrap

  /** The wrap loop's variables: the index under test, where the current line
      starts, the last space seen, the width measured so far on the line, and
      the lines completed. */
  datatype ScanState = ScanState(i: nat, startPos: nat, lastSpace: int, curWidth: real, numLines: nat)

  /** The two versions of the loop. They differ only in the width a new line
      starts with after a break: the loop resumes one past the line's first
      character, and `AsWritten` forgets that character's advance. */
  datatype WrapVariant = AsWritten | Corrected

  const InitialScan := ScanState(0, 0, -1, 0.0, 0)

  predicate ScanOk(s: ScanState, len: nat) {
    s.startPos <= s.i <= len && -1 <= s.lastSpace < s.i as int &&
    (s.startPos == 0 || s.startPos < s.i)
  }

  /** Where a line broken before character `i` ends: after the last space on
      the line if there is one past the line's start, else at `i` itself. */
  function BreakPos(s: ScanState): nat
    requires s.lastSpace >= -1
  {
    if s.lastSpace <= s.startPos as int then s.i else (s.lastSpace + 1) as nat
  }

  /** The width a new line starting at `endPos` begins with. */
  function RestartWidth(v: WrapVariant, f: Font, text: string, endPos: nat, scale: real): real
    requires ValidFont(f) && InTable(text) && endPos < |text|
  {
    match v
    case AsWritten => 0.0
    case Corrected => GlyphOf(f, text[endPos]).advance * scale
  }

  /** Whether character `i` is a break point: it is not a space and its
      bitmap would reach past `maxW`. */
  predicate Overflows(f: Font, text: string, scale: real, maxW: real, s: ScanState)
    requires ValidFont(f) && InTable(text) && s.i < |text|
  {
    text[s.i] != ' ' && s.curWidth + Extent(GlyphOf(f, text[s.i])) * scale > maxW
  }

  /** The lines counted so far never exceed the line start plus one, and none
      are counted before the scan leaves the line start. */
  predicate Counted(s: ScanState) {
    s.numLines <= s.startPos + 1 && (s.i == s.startPos ==> s.numLines == 0)
  }

  /** One pass of the loop body, including the loop's own increment. */
  function ScanStep(v: WrapVariant, f: Font, text: string, scale: real, maxW: real, s: ScanState): (r: ScanState)
    requires ValidFont(f) && InTable(text)
    requires ScanOk(s, |text|) && s.i < |text|
    ensures ScanOk(r, |text|)
    ensures r.startPos > s.startPos || (r.startPos == s.startPos && r.i > s.i)
    ensures r.numLines == s.numLines + (if Overflows(f, text, scale, maxW, s) then 1 else 0)
    ensures Counted(s) ==> Counted(r)
  {
    if text[s.i] == ' ' then
      s.(i := s.i + 1, lastSpace := s.i, curWidth := s.curWidth + GlyphOf(f, text[s.i]).advance * scale)
    else if s.curWidth + Extent(GlyphOf(f, text[s.i])) * scale > maxW then
      var endPos := BreakPos(s);
      ScanState(endPos + 1, endPos, s.lastSpace, RestartWidth(v, f, text, endPos, scale), s.numLines + 1)
    else
      s.(i := s.i + 1, curWidth := s.curWidth + GlyphOf(f, text[s.i]).advance * scale)
  }

  /** Runs the loop to the end of the text. */
  function Scan(v: WrapVariant, f: Font, text: string, scale: real, maxW: real, s: ScanState): (r: ScanState)
    requires ValidFont(f) && InTable(text) && ScanOk(s, |text|)
    ensures ScanOk(r, |text|) && r.i == |text|
    ensures r.numLines >= s.numLines
    ensures Counted(s) ==> Counted(r)
    decreases |text| - s.startPos, |text| - s.i
  {
    if s.i >= |text| then s
    else Scan(v, f, text, scale, maxW, ScanStep(v, f, text, scale, maxW, s))
  }

  /** The number of lines: the completed lines plus a last, partial one when
      characters remain after the last break. Only an empty text has no
      lines, and no text has more lines than characters plus one. */
  function LineCountOf(v: WrapVariant, f: Font, text: string, scale: real, maxW: real): (n: nat)
    requires ValidFont(f) && InTable(text)
    ensures |text| == 0 <==> n == 0
    ensures n <= |text| + 1
  {
    var r := Scan(v, f, text, scale, maxW, InitialScan);
    assert Counted(r);
    r.numLines + if r.i > r.startPos then 1 else 0
  }

  /** The count the source computes. */
  function LineCountAsWritten(f: Font, text: string, scale: real, maxW: real): (n: nat)
    requires ValidFont(f) && InTable(text)
    ensures |text| == 0 <==> n == 0
    ensures n <= |text| + 1
  {
    LineCountOf(AsWritten, f, text, scale, maxW)
  }

  /** The count with each line's first character measured. */
  function LineCount(f: Font, text: string, scale: real, maxW: real): (n: nat)
    requires ValidFont(f) && InTable(text)
    ensures |text| == 0 <==> n == 0
    ensures n <= |text| + 1
  {
    LineCountOf(Corrected, f, text, scale, maxW)
  }

  /** The size of a string as the source computes it: one line when
      `maxW <= 0`; otherwise exactly `maxW` wide and as tall as the lines the
      loop as written counts. */
  function StringRenderSizeAsWritten(f: Font, text: string, scale: real, maxW: real): (size: Vec2)
    requires ValidFont(f) && InTable(text)
    ensures maxW <= 0.0 ==> size == LineSize(f, text, scale)
    ensures maxW > 0.0 ==> size.x == maxW
    ensures maxW > 0.0 ==> size.y == LineCountAsWritten(f, text, scale, maxW) as real * f.atlasH as real * scale
  {
    if maxW <= 0.0 then LineSize(f, text, scale)
    else Vec2(maxW, LineCountAsWritten(f, text, scale, maxW) as real * f.atlasH as real * scale)
  }

  /** The size of a string with the corrected line count, which the text
      label uses: one line when `maxW <= 0`; otherwise exactly `maxW` wide
      and as tall as its wrapped lines. */
  function StringRenderSize(f: Font, text: string, scale: real, maxW: real): (size: Vec2)
    requires ValidFont(f) && InTable(text)
    ensures maxW <= 0.0 ==> size == LineSize(f, text, scale)
    ensures maxW > 0.0 ==> size == Vec2(maxW, LineCount(f, text, scale, maxW) as real * f.atlasH as real * scale)
  {
    if maxW <= 0.0 then LineSize(f, text, scale)
    else Vec2(maxW, LineCount(f, text, scale, maxW) as real * f.atlasH as real * scale)
  }

  /** The two sizes differ only in the wrapped height, and agree whenever
      the two loops count the same lines. */
  lemma RenderSizesAgree(f: Font, text: string, scale: real, maxW: real)
    requires ValidFont(f) && InTable(text)
    ensures StringRenderSizeAsWritten(f, text, scale, maxW).x == StringRenderSize(f, text, scale, maxW).x
    ensures LineCountAsWritten(f, text, scale, maxW) == LineCount(f, text, scale, maxW) ==>
      StringRenderSizeAsWritten(f, text, scale, maxW) == StringRenderSize(f, text, scale, maxW)
  {
  }

  // ---------------------------------------------------------------------------
  // What the corrected loop guarantees

  /** The width measured on the current line is the pen advance of the
      characters from the line's start up to (not including) `i`. */
  predicate WidthTracked(f: Font, text: string, scale: real, s: ScanState)
    requires ValidFont(f) && InTable(text) && s.startPos <= s.i <= |text|
  {
    s.curWidth == Advances(f, text[s.startPos..s.i]) * scale
  }

  lemma AdvancesSlice(f: Font, text: string, a: nat, b: nat)
    requires ValidFont(f) && InTable(text) && a <= b < |text|
    ensures Advances(f, text[a..b + 1]) == Advances(f, text[a..b]) + GlyphOf(f, text[b]).advance
  {
    assert text[a..b + 1][..b - a] == text[a..b];
  }

  /** The corrected step keeps the measured width exact. */
  lemma {:induction false} CorrectedStepTracks(f: Font, text: string, scale: real, maxW: real, s: ScanState)
    requires ValidFont(f) && InTable(text) && ScanOk(s, |text|) && s.i < |text|
    requires WidthTracked(f, text, scale, s)
    ensures WidthTracked(f, text, scale, ScanStep(Corrected, f, text, scale, maxW, s))
  {
    if text[s.i] == ' ' || !Overflows(f, text, scale, maxW, s) {
      GrowStepTracks(f, text, scale, maxW, s);
    } else {
      BreakStepTracks(f, text, scale, maxW, s);
    }
  }

  /** A step that stays on the line: the width grows by the character. */
  lemma GrowStepTracks(f: Font, text: string, scale: real, maxW: real, s: ScanState)
    requires ValidFont(f) && InTable(text) && ScanOk(s, |text|) && s.i < |text|
    requires WidthTracked(f, text, scale, s)
    requires text[s.i] == ' ' || !Overflows(f, text, scale, maxW, s)
    ensures WidthTracked(f, text, scale, ScanStep(Corrected, f, text, scale, maxW, s))
  {
    var r := ScanStep(Corrected, f, text, scale, maxW, s);
    GrowTracks(f, text, scale, s);
    assert r.startPos == s.startPos && r.i == s.i + 1;
    assert r.curWidth == s.curWidth + GlyphOf(f, text[s.i]).advance * scale;
  }

  /** A break: the new line's width is its first character's advance. */
  lemma BreakStepTracks(f: Font, text: string, scale: real, maxW: real, s: ScanState)
    requires ValidFont(f) && InTable(text) && ScanOk(s, |text|) && s.i < |text|
    requires text[s.i] != ' ' && Overflows(f, text, scale, maxW, s)
    ensures WidthTracked(f, text, scale, ScanStep(Corrected, f, text, scale, maxW, s))
  {
    var r := ScanStep(Corrected, f, text, scale, maxW, s);
    var e := BreakPos(s);
    RestartTracks(f, text, scale, e);
    assert r.startPos == e && r.i == e + 1;
    assert r.curWidth == RestartWidth(Corrected, f, text, e, scale);
  }

  /** Adding a character's scaled advance extends the tracked width by that
      character. */
  lemma GrowTracks(f: Font, text: string, scale: real, s: ScanState)
    requires ValidFont(f) && InTable(text) && s.startPos <= s.i < |text|
    requires WidthTracked(f, text, scale, s)
    ensures s.curWidth + GlyphOf(f, text[s.i]).advance * scale == Advances(f, text[s.startPos..s.i + 1]) * scale
  {
    AdvancesSlice(f, text, s.startPos, s.i);
    Distribute(Advances(f, text[s.startPos..s.i]), GlyphOf(f, text[s.i]).advance, scale);
  }

  /** The corrected restart width is the advance of the line's first
      character. */
  lemma RestartTracks(f: Font, text: string, scale: real, e: nat)
    requires ValidFont(f) && InTable(text) && e < |text|
    ensures RestartWidth(Corrected, f, text, e, scale) == Advances(f, text[e..e + 1]) * scale
  {
    SingleAdvance(f, text, e);
  }

  lemma Distribute(a: real, b: real, c: real)
    ensures a * c + b * c == (a + b) * c
  {
  }

  lemma SingleAdvance(f: Font, text: string, e: nat)
    requires ValidFont(f) && InTable(text) && e < |text|
    ensures Advances(f, text[e..e + 1]) == GlyphOf(f, text[e]).advance
  {
    var one := text[e..e + 1];
    assert one[..0] == [];
    assert one[0] == text[e];
  }

  /** With the width tracked, the corrected loop breaks before a character
      exactly when the line from its start through that character would be
      wider than `maxW`. */
  lemma CorrectedBreakTest(f: Font, text: string, scale: real, maxW: real, s: ScanState)
    requires ValidFont(f) && InTable(text) && ScanOk(s, |text|) && s.i < |text|
    requires WidthTracked(f, text, scale, s)
    requires text[s.i] != ' '
    ensures Overflows(f, text, scale, maxW, s) <==> LineWidth(f, text[s.startPos..s.i + 1]) * scale > maxW
  {
    var line := text[s.startPos..s.i + 1];
    assert line[..|line| - 1] == text[s.startPos..s.i];
    assert line[|line| - 1] == text[s.i];
  }

  /** The width stays tracked over the whole corrected run. */
  lemma {:induction false} CorrectedScanTracks(f: Font, text: string, scale: real, maxW: real, s: ScanState)
    requires ValidFont(f) && InTable(text) && ScanOk(s, |text|)
    requires WidthTracked(f, text, scale, s)
    ensures WidthTracked(f, text, scale, Scan(Corrected, f, text, scale, maxW, s))
    decreases |text| - s.startPos, |text| - s.i
  {
    if s.i < |text| {
      CorrectedStepTracks(f, text, scale, maxW, s);
      CorrectedScanTracks(f, text, scale, maxW, ScanStep(Corrected, f, text, scale, maxW, s));
    }
  }

  /** A glyph wider than `maxW` at the very start yields an empty first line
      and then its own line, in both versions. */
  lemma WideFirstGlyph(v: WrapVariant, f: Font, scale: real, maxW: real)
    requires ValidFont(f)
    requires Extent(GlyphOf(f, 'a')) * scale > maxW > 0.0
    ensures LineCountOf(v, f, "a", scale, maxW) == 2
  {
    var s1 := ScanStep(v, f, "a", scale, maxW, InitialScan);
    assert s1.startPos == 0 && s1.i == 1 && s1.numLines == 1;
  }

  // ---------------------------------------------------------------------------
  // The discrepancy, on a concrete font

  /** Every glyph advances 10 pixels and has a 10-pixel bitmap. */
  const MonoGlyph := Glyph(10.0, 10.0, 10.0, 0.0, 10.0)

  function MonoFont(): (f: Font)
    ensures ValidFont(f)
  {
    Font(0, 16, seq(GlyphCount, _ => MonoGlyph))
  }

  lemma MonoGlyphs()
    ensures GlyphOf(MonoFont(), 'a') == MonoGlyph
    ensures GlyphOf(MonoFont(), 'b') == MonoGlyph
    ensures GlyphOf(MonoFont(), 'c') == MonoGlyph
  {
  }

  /** "abc" in 10-pixel glyphs wrapped at 15 pixels needs three lines of one
      glyph each, since any two glyphs together are 20 pixels wide. */
  lemma BcOverflows()
    ensures LineWidth(MonoFont(), "bc") == 20.0
  {
    MonoGlyphs();
    assert "bc"[..1] == "b";
    assert "b"[..0] == "";
  }

  /** The loop as written counts two lines for "abc": after breaking before
      'b' it forgets b's advance, so "bc" is taken as one line. */
  lemma AsWrittenAbc()
    ensures LineCountAsWritten(MonoFont(), "abc", 1.0, 15.0) == 2
  {
    MonoGlyphs();
    var f := MonoFont();
    var a1 := ScanStep(AsWritten, f, "abc", 1.0, 15.0, InitialScan);
    assert a1 == ScanState(1, 0, -1, 10.0, 0);
    var a2 := ScanStep(AsWritten, f, "abc", 1.0, 15.0, a1);
    assert a2 == ScanState(2, 1, -1, 0.0, 1);
    var a3 := ScanStep(AsWritten, f, "abc", 1.0, 15.0, a2);
    assert a3 == ScanState(3, 1, -1, 10.0, 1);
    assert Scan(AsWritten, f, "abc", 1.0, 15.0, InitialScan) == a3;
  }

  /** The corrected loop counts the three lines. */
  lemma CorrectedAbc()
    ensures LineCount(MonoFont(), "abc", 1.0, 15.0) == 3
  {
    MonoGlyphs();
    var f := MonoFont();
    var c1 := ScanStep(Corrected, f, "abc", 1.0, 15.0, InitialScan);
    assert c1 == ScanState(1, 0, -1, 10.0, 0);
    var c2 := ScanStep(Corrected, f, "abc", 1.0, 15.0, c1);
    assert c2 == ScanState(2, 1, -1, 10.0, 1);
    var c3 := ScanStep(Corrected, f, "abc", 1.0, 15.0, c2);
    assert c3 == ScanState(3, 2, -1, 10.0, 2);
    assert Scan(Corrected, f, "abc", 1.0, 15.0, InitialScan) == c3;
  }

  /** A label "abc" wrapped at 15 pixels in the 16-pixel-tall font: the
      source sizes it two lines tall, the corrected count three. */
  lemma AbcHeights()
    ensures StringRenderSizeAsWritten(MonoFont(), "abc", 1.0, 15.0).y == 32.0
    ensures StringRenderSize(MonoFont(), "abc", 1.0, 15.0).y == 48.0
  {
    AsWrittenAbc();
    CorrectedAbc();
  }
}
