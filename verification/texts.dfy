/** A text label: sizes itself from its font's metrics each frame and draws
    one string call when it has a font. */
module Texts {
  import opened Options
  import opened Geometry
  import opened Transitions
  import opened Elements
  import opened Measure

  /** The label's parameters and the scale and wrap width resolved by the last
      update (0 before the first one). `scale <= 0` asks for automatic
      scaling; `lineWrap <= 0` asks for a single line. */
  datatype TextState = TextState(
    text: string,
    font: Option<Font>,
    color: Vec4,
    scale: real,
    lineWrap: real,
    align: int,
    thickness: real,
    softness: real,
    outlineColor: Vec4,
    outlineThickness: real,
    outlineSoftness: real,
    renderScale: real,
    renderW: real)

  /** Where a label keeps the parts of its draw style a transition can
      animate: the text and outline colours in the first two vec4 slots, the
      thickness, softness, outline thickness and outline softness in the
      first four float slots. */
  const TextColorSlot := Vec4Slot(0)
  const TextOutlineColorSlot := Vec4Slot(1)
  const ThicknessSlot := FloatSlot(0)
  const SoftnessSlot := FloatSlot(1)
  const TextOutlineThicknessSlot := FloatSlot(2)
  const OutlineSoftnessSlot := FloatSlot(3)

  /** Builds a label. The given dimension is its width; the height starts as
      the whole parent height and is replaced by a pixel height on update.
      The draw style is stored in the label and in its style slots. */
  function NewText(x: Coordinate, y: Coordinate, size: Dimension, text: string, font: Option<Font>,
                   color: Vec4, scale: real, lineWrap: real, align: int, thickness: real, softness: real,
                   outlineColor: Vec4, outlineThickness: real, outlineSoftness: real): (r: (TextState, Core))
    ensures r.1.fields.height == Dimension(RelativeSize, 1.0)
    ensures r.1.fields.width == size && r.1.fields.xPos == x && r.1.fields.yPos == y
    ensures r.1.fields.alphaMult == 1.0 && r.1.active && !r.1.animating
    ensures r.0.text == text && r.0.font == font && r.0.scale == scale && r.0.lineWrap == lineWrap
    ensures Read(r.1.fields, TextColorSlot) == Some(Vec4Val(color))
    ensures Read(r.1.fields, TextOutlineColorSlot) == Some(Vec4Val(outlineColor))
    ensures Read(r.1.fields, ThicknessSlot) == Some(FloatVal(thickness))
    ensures Read(r.1.fields, SoftnessSlot) == Some(FloatVal(softness))
    ensures Read(r.1.fields, TextOutlineThicknessSlot) == Some(FloatVal(outlineThickness))
    ensures Read(r.1.fields, OutlineSoftnessSlot) == Some(FloatVal(outlineSoftness))
  {
    var c := NewCore(x, y, size, Dimension(RelativeSize, 1.0));
    (TextState(text, font, color, scale, lineWrap, align, thickness, softness,
               outlineColor, outlineThickness, outlineSoftness, 0.0, 0.0),
     c.(fields := c.fields.(floats := [thickness, softness, outlineThickness, outlineSoftness],
                            vec4s := [color, outlineColor])))
  }

  /** The label can be measured: it has a font whose table covers its text. */
  predicate TextReady(t: TextState) {
    t.font.Some? && ValidFont(t.font.value) && InTable(t.text)
  }

  /** The sizing rules, run before the element's own update and therefore
      against the width resolved on the previous frame.
      Without wrapping, an automatic scale stretches the line to that width,
      while a fixed scale sets the width to the measured line; the height is
      one line. With wrapping, the scale maps `lineWrap` pixels onto that
      width (or is fixed), and the height is that of the wrapped lines. */
  function TextSizing(t: TextState, c: Core): (r: (TextState, Core))
    requires TextReady(t)
    ensures r.1.fields.height.kind == PixelSize
    ensures t.lineWrap <= 0.0 && t.scale <= 0.0 ==>
      r.0.renderScale == SafeDiv(c.renderSize.x, LineSize(t.font.value, t.text, 1.0).x) &&
      r.1.fields.width == c.fields.width
    ensures t.lineWrap <= 0.0 && t.scale > 0.0 ==>
      r.0.renderScale == t.scale &&
      r.1.fields.width == Dimension(PixelSize, LineWidth(t.font.value, t.text) * t.scale)
    ensures t.lineWrap <= 0.0 ==>
      r.0.renderW == 0.0 && r.1.fields.height.param == t.font.value.atlasH as real * r.0.renderScale
    ensures t.lineWrap > 0.0 ==>
      r.0.renderScale == (if t.scale <= 0.0 then c.renderSize.x / t.lineWrap else t.scale) &&
      r.0.renderW == c.renderSize.x &&
      r.1.fields.width == c.fields.width &&
      r.1.fields.height.param == StringRenderSize(t.font.value, t.text, r.0.renderScale, r.0.renderW).y
    // only the scale, wrap width, width and height change
    ensures r.0 == t.(renderScale := r.0.renderScale, renderW := r.0.renderW)
    ensures r.1 == c.(fields := c.fields.(width := r.1.fields.width, height := r.1.fields.height))
  {
    var f := t.font.value;
    if t.lineWrap <= 0.0 then
      var rs := if t.scale <= 0.0 then SafeDiv(c.renderSize.x, StringRenderSize(f, t.text, 1.0, 0.0).x) else t.scale;
      var w := if t.scale <= 0.0 then c.fields.width else Dimension(PixelSize, StringRenderSize(f, t.text, rs, 0.0).x);
      (t.(renderScale := rs, renderW := 0.0),
       c.(fields := c.fields.(width := w, height := Dimension(PixelSize, f.atlasH as real * rs))))
    else
      var rs := if t.scale <= 0.0 then c.renderSize.x / t.lineWrap else t.scale;
      var rw := c.renderSize.x;
      (t.(renderScale := rs, renderW := rw),
       c.(fields := c.fields.(height := Dimension(PixelSize, StringRenderSize(f, t.text, rs, rw).y))))
  }

  /** Automatic scaling without wrapping makes the line exactly as wide as the
      label's resolved width, whenever the text has a positive width. */
  lemma AutoScaleFillsWidth(t: TextState, c: Core)
    requires TextReady(t) && t.lineWrap <= 0.0 && t.scale <= 0.0
    requires LineWidth(t.font.value, t.text) > 0.0
    ensures var r := TextSizing(t, c);
      LineSize(t.font.value, t.text, r.0.renderScale).x == c.renderSize.x
  {
    var w1 := LineWidth(t.font.value, t.text);
    assert LineSize(t.font.value, t.text, 1.0).x == w1;
    var rs := c.renderSize.x / w1;
    assert w1 * rs == c.renderSize.x;
  }

  /** With wrapping, the label is as tall as its line count times the scaled
      atlas height, and a non-empty text is at least one line tall. */
  lemma WrappedHeight(t: TextState, c: Core)
    requires TextReady(t) && t.lineWrap > 0.0 && c.renderSize.x > 0.0
    ensures var r := TextSizing(t, c);
      var n := LineCount(t.font.value, t.text, r.0.renderScale, c.renderSize.x);
      r.1.fields.height.param == n as real * t.font.value.atlasH as real * r.0.renderScale &&
      (|t.text| > 0 ==> n >= 1)
  {
  }

  /** The label as it draws this frame: each animatable style part read
      from its slot, the stored value only where the element lacks the slot;
      everything else as stored. */
  function CurrentTextStyle(f: Fields, t: TextState): (r: TextState)
    ensures r == t.(color := r.color, outlineColor := r.outlineColor, thickness := r.thickness,
                    softness := r.softness, outlineThickness := r.outlineThickness, outlineSoftness := r.outlineSoftness)
    ensures Addressable(f, TextColorSlot) ==> Read(f, TextColorSlot) == Some(Vec4Val(r.color))
    ensures Addressable(f, TextOutlineColorSlot) ==> Read(f, TextOutlineColorSlot) == Some(Vec4Val(r.outlineColor))
    ensures Addressable(f, ThicknessSlot) ==> Read(f, ThicknessSlot) == Some(FloatVal(r.thickness))
    ensures Addressable(f, SoftnessSlot) ==> Read(f, SoftnessSlot) == Some(FloatVal(r.softness))
    ensures Addressable(f, TextOutlineThicknessSlot) ==> Read(f, TextOutlineThicknessSlot) == Some(FloatVal(r.outlineThickness))
    ensures Addressable(f, OutlineSoftnessSlot) ==> Read(f, OutlineSoftnessSlot) == Some(FloatVal(r.outlineSoftness))
    ensures !Addressable(f, TextColorSlot) ==> r.color == t.color
    ensures !Addressable(f, TextOutlineColorSlot) ==> r.outlineColor == t.outlineColor
    ensures !Addressable(f, ThicknessSlot) ==> r.thickness == t.thickness
    ensures !Addressable(f, SoftnessSlot) ==> r.softness == t.softness
    ensures !Addressable(f, TextOutlineThicknessSlot) ==> r.outlineThickness == t.outlineThickness
    ensures !Addressable(f, OutlineSoftnessSlot) ==> r.outlineSoftness == t.outlineSoftness
  {
    t.(color := Vec4Or(f, 0, t.color), outlineColor := Vec4Or(f, 1, t.outlineColor),
       thickness := FloatOr(f, 0, t.thickness), softness := FloatOr(f, 1, t.softness),
       outlineThickness := FloatOr(f, 2, t.outlineThickness), outlineSoftness := FloatOr(f, 3, t.outlineSoftness))
  }

  /** A new label draws the style it was built with. */
  lemma NewTextKeepsStyle(x: Coordinate, y: Coordinate, size: Dimension, text: string, font: Option<Font>,
                          color: Vec4, scale: real, lineWrap: real, align: int, thickness: real, softness: real,
                          outlineColor: Vec4, outlineThickness: real, outlineSoftness: real)
    ensures var (t, c) := NewText(x, y, size, text, font, color, scale, lineWrap, align, thickness, softness,
                                  outlineColor, outlineThickness, outlineSoftness);
      CurrentTextStyle(c.fields, t) == t
  {
  }

  /** The label's draw calls: one string with its current style, both
      colours faded like a box's, when it has a font; nothing otherwise. */
  function TextDraw(t: TextState, c: Core, parentAlpha: real): (ds: seq<Draw>)
    ensures t.font.None? ==> ds == []
    ensures t.font.Some? ==>
      var st := CurrentTextStyle(c.fields, t);
      && |ds| == 1 && ds[0].Str?
      && ds[0].text == t.text && ds[0].fontId == t.font.value.id && ds[0].align == t.align
      && ds[0].pos == c.renderPos && ds[0].scale == t.renderScale && ds[0].maxWidth == t.renderW
      && ds[0].color == Fade(st.color, c.fields.alphaMult * parentAlpha)
      && ds[0].outlineColor == Fade(st.outlineColor, c.fields.alphaMult * parentAlpha)
      && ds[0].thickness == st.thickness && ds[0].softness == st.softness
      && ds[0].outlineThickness == st.outlineThickness && ds[0].outlineSoftness == st.outlineSoftness
  {
    match t.font
    case None => []
    case Some(f) =>
      var st := CurrentTextStyle(c.fields, t);
      var a := c.fields.alphaMult * parentAlpha;
      [Str(t.text, f.id, c.renderPos, t.renderScale, t.renderW, t.align, Fade(st.color, a), st.thickness, st.softness,
           Fade(st.outlineColor, a), st.outlineThickness, st.outlineSoftness)]
  }
}
