/** The per-node part of an element: its animatable fields, its transition
    slot, and the rectangle resolved each frame; plus the draw calls and
    callbacks that nodes emit. The tree that connects nodes is in `Tree`. */
module Elements {
  import opened Options
  import opened Geometry
  import opened Transitions

  /** One element's own state. `animating` is the "transition still active"
      flag; `active` enables hit-testing and interaction (the element still
      renders when inactive). */
  datatype Core = Core(
    fields: Fields,
    active: bool,
    animating: bool,
    transition: Transition,
    renderPos: Vec2,
    renderSize: Vec2)

  /** A freshly built element: the given layout, nothing animating, and an
      unresolved (zero) rectangle until the first update. */
  function NewCore(x: Coordinate, y: Coordinate, w: Dimension, h: Dimension): (c: Core)
    ensures c.fields.xPos == x && c.fields.yPos == y && c.fields.width == w && c.fields.height == h
    ensures c.fields.alphaMult == 1.0 && c.active && !c.animating
    ensures c.transition == DefaultTransition
  {
    Core(NewFields(x, y, w, h), true, false, DefaultTransition, Vec2(0.0, 0.0), Vec2(0.0, 0.0))
  }

  // ---------------------------------------------------------------------------
  // Layout

  /** Resolves both axes of the size. An aspect width is derived from the
      resolved height, otherwise an aspect height from the resolved width;
      when both are aspect sizes the width's rule wins. */
  function ElementSize(w: Dimension, h: Dimension, parentSize: Vec2): (s: Vec2)
    ensures w.kind == AspectSize ==>
      s.y == CalcRenderSize(h, parentSize.y) && s.x == s.y * w.param
    ensures w.kind != AspectSize && h.kind == AspectSize ==>
      s.x == CalcRenderSize(w, parentSize.x) && s.y == s.x * h.param
    ensures w.kind != AspectSize && h.kind != AspectSize ==>
      s == Vec2(CalcRenderSize(w, parentSize.x), CalcRenderSize(h, parentSize.y))
  {
    if w.kind == AspectSize then
      var hh := CalcRenderSize(h, parentSize.y);
      Vec2(hh * w.param, hh)
    else if h.kind == AspectSize then
      var ww := CalcRenderSize(w, parentSize.x);
      Vec2(ww, ww * h.param)
    else
      Vec2(CalcRenderSize(w, parentSize.x), CalcRenderSize(h, parentSize.y))
  }

  /** The aspect coupling goes one way only: an aspect axis never influences
      the axis it is derived from, and without aspect sizes each axis depends
      on its own parent extent alone. */
  lemma AspectCouplingOneWay(w: Dimension, h: Dimension, p: Vec2, q: Vec2)
    ensures w.kind == AspectSize && p.y == q.y ==> ElementSize(w, h, p) == ElementSize(w, h, q)
    ensures w.kind != AspectSize && h.kind == AspectSize && p.x == q.x ==> ElementSize(w, h, p) == ElementSize(w, h, q)
    ensures w.kind != AspectSize && h.kind != AspectSize && p.x == q.x ==> ElementSize(w, h, p).x == ElementSize(w, h, q).x
    ensures w.kind != AspectSize && h.kind != AspectSize && p.y == q.y ==> ElementSize(w, h, p).y == ElementSize(w, h, q).y
  {
  }

  /** Width aspect 2.0 with height half of a 400 x 200 parent gives 200 x 100. */
  lemma AspectExample()
    ensures ElementSize(Dimension(AspectSize, 2.0), Dimension(RelativeSize, 0.5), Vec2(400.0, 200.0)) == Vec2(200.0, 100.0)
  {
  }

  /** Both axes aspect: the width's rule is applied and the height falls back
      to the parent's height. */
  lemma BothAspectWidthWins(rw: real, rh: real, p: Vec2)
    ensures ElementSize(Dimension(AspectSize, rw), Dimension(AspectSize, rh), p) == Vec2(p.y * rw, p.y)
  {
  }

  /** Resolves the centre, each axis against that axis's resolved size. */
  function ElementPos(x: Coordinate, y: Coordinate, parentPos: Vec2, parentSize: Vec2, size: Vec2): Vec2 {
    Vec2(CalcRenderPos(x, parentPos.x, parentSize.x, size.x), CalcRenderPos(y, parentPos.y, parentSize.y, size.y))
  }

  // ---------------------------------------------------------------------------
  // Hit-testing

  function Abs(x: real): real { if x < 0.0 then -x else x }

  /** Whether the cursor is strictly inside the rectangle. The cursor's y axis
      points the other way from the layout's, so the rectangle's y is negated. */
  function IsHovered(mouse: Vec2, pos: Vec2, size: Vec2): (b: bool)
    ensures b <==> Abs(mouse.x - pos.x) < size.x / 2.0 && Abs(mouse.y + pos.y) < size.y / 2.0
  {
    mouse.x > pos.x - size.x * 0.5 && mouse.x < pos.x + size.x * 0.5 &&
    mouse.y > -pos.y - size.y * 0.5 && mouse.y < -pos.y + size.y * 0.5
  }

  /** The strict tests exclude the border and every point of an element with
      no area; the mirrored centre is hovered exactly when the area is
      positive. */
  lemma HoverBoundaries(mouse: Vec2, pos: Vec2, size: Vec2)
    ensures size.x <= 0.0 || size.y <= 0.0 ==> !IsHovered(mouse, pos, size)
    ensures mouse.x == pos.x + size.x / 2.0 || mouse.x == pos.x - size.x / 2.0 ==> !IsHovered(mouse, pos, size)
    ensures IsHovered(Vec2(pos.x, -pos.y), pos, size) <==> size.x > 0.0 && size.y > 0.0
  {
  }

  /** The element's hover test against its resolved rectangle. */
  function CoreHovered(c: Core, mouse: Vec2): bool {
    IsHovered(mouse, c.renderPos, c.renderSize)
  }

  // ---------------------------------------------------------------------------
  // Transitions and the per-node update

  /** Installs a copy of `t`, initialised from the element's current fields
      and delayed by `delay` milliseconds, and marks it running. */
  function SetTransition(c: Core, t: Transition, delay: real): (r: Core)
    ensures r.animating && r.transition.delay == delay
    ensures r.fields == c.fields && r.active == c.active
    ensures r.renderPos == c.renderPos && r.renderSize == c.renderSize
    ensures |r.transition.components| == |t.components|
    ensures forall j :: 0 <= j < |t.components| ==>
      r.transition.components[j].target == t.components[j].target &&
      r.transition.components[j].original == Read(c.fields, t.components[j].field)
  {
    c.(animating := true, transition := Init(t, c.fields, delay))
  }

  /** The node's own part of a frame, in the source's order: size, then
      position (using that size), then the transition, which is advanced only
      while it is running and sees the parent extent and the size just
      resolved. */
  function UpdateSelf(c: Core, dt: real, parentPos: Vec2, parentSize: Vec2, pow2: real -> real): (r: Core)
    ensures r.renderSize == ElementSize(c.fields.width, c.fields.height, parentSize)
    ensures r.renderPos == ElementPos(c.fields.xPos, c.fields.yPos, parentPos, parentSize, r.renderSize)
    ensures r.active == c.active
    ensures !c.animating ==> r.fields == c.fields && r.transition == c.transition && !r.animating
    ensures c.animating ==>
      var o := Update(c.transition, dt, c.fields, parentSize, r.renderSize, pow2);
      r.fields == o.fields && r.transition == o.transition && r.animating == o.running
  {
    var size := ElementSize(c.fields.width, c.fields.height, parentSize);
    var pos := ElementPos(c.fields.xPos, c.fields.yPos, parentPos, parentSize, size);
    if c.animating then
      var o := Update(c.transition, dt, c.fields, parentSize, size, pow2);
      Core(o.fields, c.active, o.running, o.transition, pos, size)
    else
      c.(renderPos := pos, renderSize := size)
  }

  /** A transition's writes show from the next frame: this frame's rectangle
      is the one the fields had before the transition ran. */
  lemma AnimationShowsNextFrame(c: Core, dt: real, parentPos: Vec2, parentSize: Vec2, pow2: real -> real)
    ensures UpdateSelf(c, dt, parentPos, parentSize, pow2).renderPos == UpdateSelf(c.(animating := false), dt, parentPos, parentSize, pow2).renderPos
    ensures UpdateSelf(c, dt, parentPos, parentSize, pow2).renderSize == UpdateSelf(c.(animating := false), dt, parentPos, parentSize, pow2).renderSize
  {
  }

  /** Once the running flag is down the transition is never advanced again:
      any number of further frames leave the fields and transition alone. */
  lemma {:induction false} StoppedStaysStopped(c: Core, frames: nat, dt: real, parentPos: Vec2, parentSize: Vec2, pow2: real -> real)
    requires !c.animating
    ensures var r := Frames(c, frames, dt, parentPos, parentSize, pow2);
      r.fields == c.fields && r.transition == c.transition && !r.animating
    decreases frames
  {
    if frames > 0 {
      StoppedStaysStopped(UpdateSelf(c, dt, parentPos, parentSize, pow2), frames - 1, dt, parentPos, parentSize, pow2);
    }
  }

  /** `n` consecutive frames with the same inputs. */
  function Frames(c: Core, n: nat, dt: real, parentPos: Vec2, parentSize: Vec2, pow2: real -> real): Core
    decreases n
  {
    if n == 0 then c else Frames(UpdateSelf(c, dt, parentPos, parentSize, pow2), n - 1, dt, parentPos, parentSize, pow2)
  }

  /** A transition installed with a delay writes nothing until the delay has
      run out, while the running flag stays up. */
  lemma DelayedWritesNothing(c: Core, t: Transition, delay: real, dt: real, parentPos: Vec2, parentSize: Vec2, pow2: real -> real)
    requires delay > 0.0
    ensures var r := UpdateSelf(SetTransition(c, t, delay), dt, parentPos, parentSize, pow2);
      r.fields == c.fields && r.animating && r.transition.delay == delay - dt
  {
  }

  /** A min-anchored zero pixel offset puts the element's min edge on the
      parent's min edge, whatever size the element resolves to this frame. */
  lemma MinAnchorTouchesParentEdge(c: Core, dt: real, parentPos: Vec2, parentSize: Vec2, pow2: real -> real)
    requires c.fields.xPos == Coordinate(PixelPos, 0.0, CenterMin)
    ensures var r := UpdateSelf(c, dt, parentPos, parentSize, pow2);
      r.renderPos.x - r.renderSize.x / 2.0 == parentPos.x - parentSize.x / 2.0
  {
  }

  // ---------------------------------------------------------------------------
  // Output

  /** The style of a rectangle: texture handle (-1 for none), fill colour,
      corner radius, rotation in degrees, outline colour and thickness. */
  datatype BoxStyle = BoxStyle(
    texture: int,
    color: Vec4,
    cornerRadius: real,
    angle: real,
    outlineColor: Vec4,
    outlineThickness: real)

  const DefaultBoxStyle := BoxStyle(-1, Vec4(1.0, 1.0, 1.0, 1.0), 0.0, 0.0, Vec4(0.0, 0.0, 0.0, 1.0), 0.0)

  /** The calls a render pass makes into the drawing layer. A string names its
      font by an id. */
  datatype Draw =
    | Rect(texture: int, pos: Vec2, size: Vec2, angle: real, color: Vec4,
           cornerRadius: real, outlineColor: Vec4, outlineThickness: real)
    | Str(text: string, fontId: int, pos: Vec2, scale: real, maxWidth: real, align: int,
          color: Vec4, thickness: real, softness: real,
          outlineColor: Vec4, outlineThickness: real, outlineSoftness: real)

  /** A colour with its alpha channel multiplied by `a`. */
  function Fade(col: Vec4, a: real): (r: Vec4)
    ensures r.x == col.x && r.y == col.y && r.z == col.z
    ensures a == 1.0 ==> r == col
    ensures a == 0.0 ==> r.w == 0.0
  {
    Vec4(col.x, col.y, col.z, col.w * a)
  }

  // ---------------------------------------------------------------------------
  // Animatable style

  /** Where a box keeps the parts of its style a transition can animate, as
      the source animates them by their offset in the element: the fill and
      outline colours in the first two vec4 slots, the corner radius, the
      rotation and the outline thickness in the first three float slots. The
      texture handle is an integer and cannot be animated. */
  const ColorSlot := Vec4Slot(0)
  const OutlineColorSlot := Vec4Slot(1)
  const CornerRadiusSlot := FloatSlot(0)
  const AngleSlot := FloatSlot(1)
  const OutlineThicknessSlot := FloatSlot(2)

  /** Float slot `i`, or `d` when the element has no such slot. */
  function FloatOr(f: Fields, i: nat, d: real): (r: real)
    ensures Addressable(f, FloatSlot(i)) ==> Read(f, FloatSlot(i)) == Some(FloatVal(r))
    ensures !Addressable(f, FloatSlot(i)) ==> r == d
  {
    if i < |f.floats| then f.floats[i] else d
  }

  /** Vec4 slot `i`, or `d` when the element has no such slot. */
  function Vec4Or(f: Fields, i: nat, d: Vec4): (r: Vec4)
    ensures Addressable(f, Vec4Slot(i)) ==> Read(f, Vec4Slot(i)) == Some(Vec4Val(r))
    ensures !Addressable(f, Vec4Slot(i)) ==> r == d
  {
    if i < |f.vec4s| then f.vec4s[i] else d
  }

  /** A box's element: a new core whose style slots hold the given style. */
  function NewBoxCore(x: Coordinate, y: Coordinate, w: Dimension, h: Dimension, s: BoxStyle): (c: Core)
    ensures c == NewCore(x, y, w, h).(fields := c.fields)
    ensures c.fields == NewCore(x, y, w, h).fields.(floats := c.fields.floats, vec4s := c.fields.vec4s)
    ensures Read(c.fields, ColorSlot) == Some(Vec4Val(s.color))
    ensures Read(c.fields, OutlineColorSlot) == Some(Vec4Val(s.outlineColor))
    ensures Read(c.fields, CornerRadiusSlot) == Some(FloatVal(s.cornerRadius))
    ensures Read(c.fields, AngleSlot) == Some(FloatVal(s.angle))
    ensures Read(c.fields, OutlineThicknessSlot) == Some(FloatVal(s.outlineThickness))
  {
    var c := NewCore(x, y, w, h);
    c.(fields := c.fields.(floats := [s.cornerRadius, s.angle, s.outlineThickness], vec4s := [s.color, s.outlineColor]))
  }

  /** The style a box draws with this frame: each animatable part read from
      its slot, the stored style only where the element lacks the slot, and
      the stored texture. */
  function CurrentStyle(f: Fields, s: BoxStyle): (r: BoxStyle)
    ensures r.texture == s.texture
    ensures Addressable(f, ColorSlot) ==> Read(f, ColorSlot) == Some(Vec4Val(r.color))
    ensures Addressable(f, OutlineColorSlot) ==> Read(f, OutlineColorSlot) == Some(Vec4Val(r.outlineColor))
    ensures Addressable(f, CornerRadiusSlot) ==> Read(f, CornerRadiusSlot) == Some(FloatVal(r.cornerRadius))
    ensures Addressable(f, AngleSlot) ==> Read(f, AngleSlot) == Some(FloatVal(r.angle))
    ensures Addressable(f, OutlineThicknessSlot) ==> Read(f, OutlineThicknessSlot) == Some(FloatVal(r.outlineThickness))
    ensures !Addressable(f, ColorSlot) ==> r.color == s.color
    ensures !Addressable(f, OutlineColorSlot) ==> r.outlineColor == s.outlineColor
    ensures !Addressable(f, CornerRadiusSlot) ==> r.cornerRadius == s.cornerRadius
    ensures !Addressable(f, AngleSlot) ==> r.angle == s.angle
    ensures !Addressable(f, OutlineThicknessSlot) ==> r.outlineThickness == s.outlineThickness
  {
    BoxStyle(s.texture, Vec4Or(f, 0, s.color), FloatOr(f, 0, s.cornerRadius), FloatOr(f, 1, s.angle),
             Vec4Or(f, 1, s.outlineColor), FloatOr(f, 2, s.outlineThickness))
  }

  /** A new box draws the style it was built with. */
  lemma NewBoxKeepsStyle(x: Coordinate, y: Coordinate, w: Dimension, h: Dimension, s: BoxStyle)
    ensures CurrentStyle(NewBoxCore(x, y, w, h, s).fields, s) == s
  {
  }

  /** The draw call of a box: the resolved rectangle, the current style, and
      both colours faded by the node's and the parent's alpha multipliers. */
  function BoxDraw(c: Core, s: BoxStyle, parentAlpha: real): (d: Draw)
    ensures d.Rect?
    ensures d.pos == c.renderPos && d.size == c.renderSize
    ensures var st := CurrentStyle(c.fields, s);
      && d.texture == st.texture && d.angle == st.angle
      && d.cornerRadius == st.cornerRadius && d.outlineThickness == st.outlineThickness
      && d.color == Fade(st.color, c.fields.alphaMult * parentAlpha)
      && d.outlineColor == Fade(st.outlineColor, c.fields.alphaMult * parentAlpha)
  {
    var st := CurrentStyle(c.fields, s);
    var a := c.fields.alphaMult * parentAlpha;
    Rect(st.texture, c.renderPos, c.renderSize, st.angle, Fade(st.color, a), st.cornerRadius, Fade(st.outlineColor, a), st.outlineThickness)
  }

  /** A colour transition shows its target: on the frame a running
      transition with a fill-colour component finishes, the box draws exactly
      that colour, faded by the alpha multipliers, whatever style it stores. */
  lemma FinishedColourDrawn(c: Core, s: BoxStyle, col: Vec4, dt: real, parentPos: Vec2, parentSize: Vec2,
                            pow2: real -> real, parentAlpha: real, k: nat)
    requires c.animating && c.transition.delay <= 0.0
    requires Keyed(c.transition.components) && WellTyped(c.transition.components)
    requires AllAddressable(c.transition.components, c.fields)
    requires k < |c.transition.components| && c.transition.components[k].field == ColorSlot
    requires c.transition.components[k].target == Vec4Val(col)
    requires !UpdateSelf(c, dt, parentPos, parentSize, pow2).animating
    ensures var r := UpdateSelf(c, dt, parentPos, parentSize, pow2);
      BoxDraw(r, s, parentAlpha).color == Fade(col, r.fields.alphaMult * parentAlpha)
  {
    var r := UpdateSelf(c, dt, parentPos, parentSize, pow2);
    UpdateFinishSnaps(c.transition, dt, c.fields, parentSize, r.renderSize, pow2, k);
    assert Read(r.fields, ColorSlot) == Some(Vec4Val(col));
  }

  /** The callbacks user code receives, in the order they fire. */
  datatype Effect =
    | ButtonClicked(id: int)
    | CheckboxToggled(id: int, value: bool, userData: int)
}
