/** The element tree and its three traversals: the per-frame update (each
    node resolved before its children, which are laid out in the node's
    rectangle), the render pass (self before children, alpha multiplied down
    the tree) and event dispatch (broadcast to every node, never consumed). */
module Tree {
  import opened Options
  import opened Geometry
  import opened Events
  import opened Transitions
  import opened Elements
  import opened Buttons
  import opened Checkboxes
  import opened Texts
  import opened Sliders

  /** What a node is, beyond its element core. */
  datatype Kind =
    | Plain
    | BoxNode(style: BoxStyle)
    | ButtonNode(style: BoxStyle, button: ButtonState)
    | CheckboxNode(style: BoxStyle, checkbox: CheckboxState)
    | TextNode(text: TextState)
    | SliderNode(slider: SliderState)

  datatype Element = Element(core: Core, kind: Kind, children: seq<Element>)

  /** A box stores its style as given, the animatable parts in its
      element's style slots, and draws that style. */
  function NewBox(x: Coordinate, y: Coordinate, w: Dimension, h: Dimension, style: BoxStyle): (e: Element)
    ensures e.kind == BoxNode(style) && e.children == []
    ensures e.core == NewBoxCore(x, y, w, h, style)
    ensures CurrentStyle(e.core.fields, style) == style
  {
    Element(NewBoxCore(x, y, w, h, style), BoxNode(style), [])
  }

  /** A checkbox starts out showing its unchecked texture. */
  function NewCheckbox(x: Coordinate, y: Coordinate, w: Dimension, h: Dimension, cb: CheckboxState, style: BoxStyle): (e: Element)
    ensures e.kind == CheckboxNode(style.(texture := cb.uncheckedTex), cb)
    ensures CurrentStyle(e.core.fields, e.kind.style) == style.(texture := cb.uncheckedTex)
  {
    Element(NewBoxCore(x, y, w, h, style), CheckboxNode(style.(texture := cb.uncheckedTex), cb), [])
  }

  /** A slider is a node with two children, the bar and the handle. Both sit
      centred in the slider; the handle is a button with no callback. */
  function NewSlider(x: Coordinate, y: Coordinate, w: Dimension, h: Dimension, s: SliderState,
                     barStyle: BoxStyle, handleStyle: BoxStyle, base: Transition, hover: Transition, hold: Transition): (e: Element)
    ensures e.kind == SliderNode(s) && |e.children| == 2
    ensures e.children[0].kind.BoxNode? && e.children[1].kind.ButtonNode?
    ensures !e.children[1].kind.button.hasCallback
    ensures var f := e.children[0].core.fields; (f.width, f.height) == BarSize(s.vertical)
    ensures var f := e.children[1].core.fields; (f.width, f.height) == HandleSize(s.vertical)
    ensures forall i :: 0 <= i < 2 ==>
      e.children[i].core.fields.xPos == DefaultCoordinate && e.children[i].core.fields.yPos == DefaultCoordinate
  {
    var (bw, bh) := BarSize(s.vertical);
    var (hw, hh) := HandleSize(s.vertical);
    var bar := NewBox(DefaultCoordinate, DefaultCoordinate, bw, bh, barStyle);
    var handle := Element(NewBoxCore(DefaultCoordinate, DefaultCoordinate, hw, hh, handleStyle),
                          ButtonNode(handleStyle, NewButton(false, 0, base, hover, hold)), []);
    Element(NewCore(x, y, w, h), SliderNode(s), [bar, handle])
  }

  /** The number of levels in a subtree; it bounds the update's recursion,
      which descends into children the slider has just rewritten. */
  function Height(e: Element): nat
    decreases e, 1
  {
    1 + MaxHeight(e.children)
  }

  function MaxHeight(cs: seq<Element>): (m: nat)
    ensures forall i :: 0 <= i < |cs| ==> Height(cs[i]) <= m
    decreases cs, 0
  {
    if cs == [] then 0
    else
      var rest := MaxHeight(cs[1..]);
      assert forall i :: 1 <= i < |cs| ==> cs[i] == cs[1..][i - 1];
      if Height(cs[0]) >= rest then Height(cs[0]) else rest
  }

  /** Every label in the tree can be measured. */
  predicate TextsReady(e: Element)
    decreases e
  {
    (e.kind.TextNode? ==> TextReady(e.kind.text)) &&
    forall i :: 0 <= i < |e.children| ==> TextsReady(e.children[i])
  }

  // ---------------------------------------------------------------------------
  // Update

  /** The widget-specific work a node does before the element update: the
      button's state machine, the checkbox's texture choice, the label's
      sizing. */
  function PreUpdate(k: Kind, c: Core, inp: Input): (r: (Kind, Core))
    requires k.TextNode? ==> TextReady(k.text)
    ensures r.0.TextNode? ==> TextReady(r.0.text)
    ensures !k.TextNode? ==> r.1.fields == c.fields && r.1.renderPos == c.renderPos && r.1.renderSize == c.renderSize
    ensures r.1.active == c.active
    ensures r.0.SliderNode? == k.SliderNode?
  {
    match k
    case Plain => (k, c)
    case BoxNode(_) => (k, c)
    case ButtonNode(s, b) =>
      var (b1, c1) := ButtonStep(b, c, inp);
      (ButtonNode(s, b1), c1)
    case CheckboxNode(s, cb) => (CheckboxNode(CheckboxTexture(cb, s), cb), c)
    case TextNode(t) =>
      var (t1, c1) := TextSizing(t, c);
      (TextNode(t1), c1)
    case SliderNode(sl) => (SliderNode(SliderStep(sl, c, inp)), c)
  }

  /** What a slider does to its children before they update: the handle is
      placed for the slider's number, and both children take the slider's
      activity. Other nodes leave their children alone. */
  function PreChildren(k: Kind, active: bool, cs: seq<Element>): (r: seq<Element>)
    ensures |r| == |cs|
    ensures forall i :: 0 <= i < |cs| ==> r[i].kind == cs[i].kind && r[i].children == cs[i].children
    ensures !k.SliderNode? || |cs| < 2 ==> r == cs
    ensures k.SliderNode? && |cs| >= 2 ==>
      && r[0] == cs[0].(core := cs[0].core.(active := active))
      && r[1] == cs[1].(core := cs[1].core.(active := active, fields := SetSliderPos(k.slider, cs[1].core.fields)))
      && r[2..] == cs[2..]
  {
    if k.SliderNode? && |cs| >= 2 then
      var bar := cs[0].(core := cs[0].core.(active := active));
      var handle := cs[1].(core := cs[1].core.(active := active, fields := SetSliderPos(k.slider, cs[1].core.fields)));
      [bar, handle] + cs[2..]
    else cs
  }

  /** Rewriting a child's core changes neither its height nor whether its
      labels can be measured. */
  lemma PreChildrenKeeps(k: Kind, active: bool, cs: seq<Element>)
    ensures var r := PreChildren(k, active, cs);
      forall i :: 0 <= i < |cs| ==> Height(r[i]) == Height(cs[i]) && (TextsReady(r[i]) <==> TextsReady(cs[i]))
  {
    var r := PreChildren(k, active, cs);
    forall i | 0 <= i < |cs| ensures Height(r[i]) == Height(cs[i]) && (TextsReady(r[i]) <==> TextsReady(cs[i])) {
      assert r[i].kind == cs[i].kind && r[i].children == cs[i].children;
    }
  }

  lemma ChildrenLower(e: Element)
    ensures forall i :: 0 <= i < |e.children| ==> Height(e.children[i]) < Height(e)
  {
  }

  /** One frame for a subtree: the widget's own work, then the element's size,
      position and transition, then each child in order, laid out in this
      node's freshly resolved rectangle. */
  function Update(e: Element, dt: real, parentPos: Vec2, parentSize: Vec2, inp: Input, pow2: real -> real): (r: Element)
    requires TextsReady(e)
    ensures TextsReady(r)
    ensures |r.children| == |e.children|
    decreases Height(e)
  {
    var (k1, c1) := PreUpdate(e.kind, e.core, inp);
    var kids := PreChildren(k1, c1.active, e.children);
    PreChildrenKeeps(k1, c1.active, e.children);
    ChildrenLower(e);
    var c2 := UpdateSelf(c1, dt, parentPos, parentSize, pow2);
    var cs := seq(|kids|, i requires 0 <= i < |kids| =>
                  Update(kids[i], dt, c2.renderPos, c2.renderSize, inp, pow2));
    Element(c2, k1, cs)
  }

  /** A child with the default layout, not a label, fills its parent: it gets
      exactly the rectangle its parent resolved earlier in the same frame. */
  lemma DefaultChildFillsParent(e: Element, dt: real, parentPos: Vec2, parentSize: Vec2, inp: Input, pow2: real -> real, i: nat)
    requires TextsReady(e) && i < |e.children|
    requires !e.kind.SliderNode? && !e.children[i].kind.TextNode?
    requires var f := e.children[i].core.fields;
      f.xPos == DefaultCoordinate && f.yPos == DefaultCoordinate && f.width == DefaultDimension && f.height == DefaultDimension
    ensures var r := Update(e, dt, parentPos, parentSize, inp, pow2);
      r.children[i].core.renderPos == r.core.renderPos && r.children[i].core.renderSize == r.core.renderSize
  {
    var r := Update(e, dt, parentPos, parentSize, inp, pow2);
    var ch := e.children[i];
    assert r.children[i] == Update(ch, dt, r.core.renderPos, r.core.renderSize, inp, pow2);
    var c1 := PreUpdate(ch.kind, ch.core, inp).1;
    assert Update(ch, dt, r.core.renderPos, r.core.renderSize, inp, pow2).core
        == UpdateSelf(c1, dt, r.core.renderPos, r.core.renderSize, pow2);
  }

  /** A slider's frame, in the source's order: the number is settled (drag
      latch, cursor mapping, clamp) against last frame's rectangle; the
      handle is then placed for the settled number and both children take
      the slider's activity; then the slider's own element update runs; and
      only then do the children update, inside the slider's new rectangle. */
  lemma SliderUpdateOrder(e: Element, dt: real, parentPos: Vec2, parentSize: Vec2, inp: Input, pow2: real -> real)
    requires TextsReady(e) && e.kind.SliderNode? && |e.children| >= 2
    ensures var r := Update(e, dt, parentPos, parentSize, inp, pow2);
      var s1 := SliderStep(e.kind.slider, e.core, inp);
      var h := e.children[1];
      var h1 := h.(core := h.core.(active := e.core.active, fields := SetSliderPos(s1, h.core.fields)));
      && r.kind == SliderNode(s1)
      && r.core == UpdateSelf(e.core, dt, parentPos, parentSize, pow2)
      && TextsReady(h1)
      && r.children[1] == Update(h1, dt, r.core.renderPos, r.core.renderSize, inp, pow2)
  {
    PreChildrenKeeps(SliderNode(SliderStep(e.kind.slider, e.core, inp)), e.core.active, e.children);
  }

  /** Whether the cursor is over some active node of an updated tree. */
  predicate AnyHovered(e: Element, mouse: Vec2)
    decreases e
  {
    (e.core.active && CoreHovered(e.core, mouse)) ||
    exists i :: 0 <= i < |e.children| && AnyHovered(e.children[i], mouse)
  }

  /** A frame from the root: the updated tree, and the input record with the
      any-hovered flag raised when some active node is under the cursor. */
  function Frame(root: Element, dt: real, screenPos: Vec2, screenSize: Vec2, inp: Input, pow2: real -> real): (r: (Element, Input))
    requires TextsReady(root)
    ensures r.1 == inp.(anyHovered := inp.anyHovered || AnyHovered(r.0, inp.mousePos))
  {
    var t := Update(root, dt, screenPos, screenSize, inp, pow2);
    (t, inp.(anyHovered := inp.anyHovered || AnyHovered(t, inp.mousePos)))
  }

  /** An inactive subtree never raises the flag. */
  lemma {:induction false} InactiveNeverHovered(e: Element, mouse: Vec2)
    requires AllInactive(e)
    ensures !AnyHovered(e, mouse)
    decreases e
  {
    forall i | 0 <= i < |e.children| ensures !AnyHovered(e.children[i], mouse) {
      InactiveNeverHovered(e.children[i], mouse);
    }
  }

  predicate AllInactive(e: Element)
    decreases e
  {
    !e.core.active && forall i :: 0 <= i < |e.children| ==> AllInactive(e.children[i])
  }

  // ---------------------------------------------------------------------------
  // Render

  /** The node's own draw calls. */
  function SelfDraw(e: Element, parentAlpha: real): seq<Draw> {
    match e.kind
    case Plain => []
    case BoxNode(s) => [BoxDraw(e.core, s, parentAlpha)]
    case ButtonNode(s, _) => [BoxDraw(e.core, s, parentAlpha)]
    case CheckboxNode(s, _) => [BoxDraw(e.core, s, parentAlpha)]
    case TextNode(t) => TextDraw(t, e.core, parentAlpha)
    case SliderNode(_) => []
  }

  /** The draw calls of a subtree: the node itself first, then each child's
      subtree in order, children seeing this node's alpha multiplier times the
      parent's. */
  function Render(e: Element, parentAlpha: real): (ds: seq<Draw>)
    ensures SelfDraw(e, parentAlpha) <= ds
    decreases e, 1
  {
    SelfDraw(e, parentAlpha) + RenderAll(e.children, ChildAlpha(e, parentAlpha))
  }

  /** The alpha a node's children are rendered under. */
  function ChildAlpha(e: Element, parentAlpha: real): real {
    e.core.fields.alphaMult * parentAlpha
  }

  /** The subtrees of a row of siblings, in order, all under `alpha`. */
  function RenderAll(cs: seq<Element>, alpha: real): seq<Draw>
    decreases cs, 0
  {
    if cs == [] then [] else Render(cs[0], alpha) + RenderAll(cs[1..], alpha)
  }

  /** Multiplies the alpha of every colour in a trace by `b`. */
  function FadeAll(ds: seq<Draw>, b: real): (r: seq<Draw>)
    ensures |r| == |ds|
  {
    seq(|ds|, i requires 0 <= i < |ds| => FadeDraw(ds[i], b))
  }

  function FadeDraw(d: Draw, b: real): Draw {
    d.(color := Fade(d.color, b), outlineColor := Fade(d.outlineColor, b))
  }

  lemma FadeAllConcat(a: seq<Draw>, c: seq<Draw>, b: real)
    ensures FadeAll(a + c, b) == FadeAll(a, b) + FadeAll(c, b)
  {
  }

  /** Alpha composes multiplicatively: rendering under parent alpha `a * b` is
      rendering under `a` with every drawn alpha then multiplied by `b`. */
  lemma RenderScales(e: Element, a: real, b: real)
    ensures Render(e, a * b) == FadeAll(Render(e, a), b)
  {
    RenderScalesAt(e, a, b, a * b);
  }

  /** `RenderScales` with the product named, so that the children's alphas
      can be related by arithmetic alone. */
  lemma {:induction false} RenderScalesAt(e: Element, a: real, b: real, ab: real)
    requires ab == a * b
    ensures Render(e, ab) == FadeAll(Render(e, a), b)
    decreases e, 1
  {
    var m := e.core.fields.alphaMult;
    assert m * ab == (m * a) * b;
    RenderAllScalesAt(e.children, ChildAlpha(e, a), b, ChildAlpha(e, ab));
    SelfDrawScales(e, a, b, ab);
    FadeAllConcat(SelfDraw(e, a), RenderAll(e.children, ChildAlpha(e, a)), b);
  }

  lemma {:induction false} RenderAllScalesAt(cs: seq<Element>, a: real, b: real, ab: real)
    requires ab == a * b
    ensures RenderAll(cs, ab) == FadeAll(RenderAll(cs, a), b)
    decreases cs, 0
  {
    if cs != [] {
      RenderScalesAt(cs[0], a, b, ab);
      RenderAllScalesAt(cs[1..], a, b, ab);
      FadeAllConcat(Render(cs[0], a), RenderAll(cs[1..], a), b);
    }
  }

  lemma SelfDrawScales(e: Element, a: real, b: real, ab: real)
    requires ab == a * b
    ensures SelfDraw(e, ab) == FadeAll(SelfDraw(e, a), b)
  {
    match e.kind {
      case Plain =>
      case BoxNode(s) => BoxDrawScales(e.core, s, a, b, ab);
      case ButtonNode(s, _) => BoxDrawScales(e.core, s, a, b, ab);
      case CheckboxNode(s, _) => BoxDrawScales(e.core, s, a, b, ab);
      case TextNode(t) => TextDrawScales(t, e.core, a, b, ab);
      case SliderNode(_) =>
    }
  }

  lemma TextDrawScales(t: TextState, c: Core, a: real, b: real, ab: real)
    requires ab == a * b
    ensures TextDraw(t, c, ab) == FadeAll(TextDraw(t, c, a), b)
  {
    if t.font.Some? {
      var m := c.fields.alphaMult;
      var x := m * a;
      assert m * ab == x * b;
      FadeTwice(t.color, x, b);
      FadeTwice(t.outlineColor, x, b);
      var d := TextDraw(t, c, a)[0];
      assert FadeDraw(d, b) == TextDraw(t, c, ab)[0];
      assert FadeAll([d], b)[0] == FadeDraw(d, b);
    }
  }

  lemma BoxDrawScales(c: Core, s: BoxStyle, a: real, b: real, ab: real)
    requires ab == a * b
    ensures [BoxDraw(c, s, ab)] == FadeAll([BoxDraw(c, s, a)], b)
  {
    var m := c.fields.alphaMult;
    var x := m * a;
    assert m * ab == x * b;
    var st := CurrentStyle(c.fields, s);
    FadeTwice(st.color, x, b);
    FadeTwice(st.outlineColor, x, b);
    var d := BoxDraw(c, s, a);
    assert d == Rect(st.texture, c.renderPos, c.renderSize, st.angle, Fade(st.color, x), st.cornerRadius, Fade(st.outlineColor, x), st.outlineThickness);
    assert BoxDraw(c, s, ab) == Rect(st.texture, c.renderPos, c.renderSize, st.angle, Fade(st.color, x * b), st.cornerRadius, Fade(st.outlineColor, x * b), st.outlineThickness);
    assert FadeDraw(d, b) == BoxDraw(c, s, ab);
    assert FadeAll([d], b)[0] == FadeDraw(d, b);
  }

  lemma FadeTwice(col: Vec4, x: real, y: real)
    ensures Fade(Fade(col, x), y) == Fade(col, x * y)
  {
    assert col.w * x * y == col.w * (x * y);
  }

  /** A trace faded by 0 is fully transparent. */
  lemma FadeAllZero(ds: seq<Draw>)
    ensures forall k :: 0 <= k < |ds| ==> FadeAll(ds, 0.0)[k].color.w == 0.0 && FadeAll(ds, 0.0)[k].outlineColor.w == 0.0
  {
  }

  /** Everything under a node whose alpha multiplier is 0 is drawn fully
      transparent. */
  lemma InvisibleSubtree(e: Element, parentAlpha: real)
    requires e.core.fields.alphaMult == 0.0
    ensures forall k :: 0 <= k < |Render(e, parentAlpha)| ==>
      Render(e, parentAlpha)[k].color.w == 0.0 && Render(e, parentAlpha)[k].outlineColor.w == 0.0
  {
    assert ChildAlpha(e, parentAlpha) == 1.0 * 0.0;
    RenderAllScalesAt(e.children, 1.0, 0.0, ChildAlpha(e, parentAlpha));
    FadeAllZero(RenderAll(e.children, 1.0));
    var own := SelfDraw(e, parentAlpha);
    var rest := RenderAll(e.children, ChildAlpha(e, parentAlpha));
    assert Render(e, parentAlpha) == own + rest;
    forall k | 0 <= k < |own| ensures own[k].color.w == 0.0 && own[k].outlineColor.w == 0.0 {
    }
  }

  // ---------------------------------------------------------------------------
  // Events

  /** The node's own reaction to an event. */
  function SelfEvent(e: Element, ev: Event, inp: Input): (r: (Element, seq<Effect>))
    ensures r.0.children == e.children
    ensures !ev.MouseRelease? ==> r == (e, [])
  {
    match e.kind
    case ButtonNode(s, b) => (e, ButtonEvent(b, e.core, ev, inp))
    case CheckboxNode(s, cb) =>
      var (cb1, c1, fx) := CheckboxEvent(cb, e.core, ev, inp);
      (Element(c1, CheckboxNode(s, cb1), e.children), fx)
    case _ => (e, [])
  }

  /** Dispatches an event to a subtree: the node reacts, then every child's
      subtree in order; callbacks are collected in firing order. */
  function HandleEvent(e: Element, ev: Event, inp: Input): (r: (Element, seq<Effect>))
    ensures |r.0.children| == |e.children|
    decreases e, 1
  {
    var (e1, fx) := SelfEvent(e, ev, inp);
    var (cs, gx) := HandleAll(e.children, ev, inp);
    (e1.(children := cs), fx + gx)
  }

  /** Dispatches an event to a row of siblings, first to last. */
  function HandleAll(cs: seq<Element>, ev: Event, inp: Input): (r: (seq<Element>, seq<Effect>))
    ensures |r.0| == |cs|
    decreases cs, 0
  {
    if cs == [] then ([], [])
    else
      var (c0, fx) := HandleEvent(cs[0], ev, inp);
      var (rest, gx) := HandleAll(cs[1..], ev, inp);
      ([c0] + rest, fx + gx)
  }

  /** Only a release does anything: any other event leaves the whole tree as
      it was and fires no callback. */
  lemma {:induction false} OnlyReleaseActs(e: Element, ev: Event, inp: Input)
    requires !ev.MouseRelease?
    ensures HandleEvent(e, ev, inp) == (e, [])
    decreases e, 1
  {
    OnlyReleaseActsAll(e.children, ev, inp);
    var h := HandleAll(e.children, ev, inp);
    assert SelfEvent(e, ev, inp) == (e, []);
    assert HandleEvent(e, ev, inp) == (e.(children := h.0), [] + h.1);
    assert [] + h.1 == [];
  }

  lemma {:induction false} OnlyReleaseActsAll(cs: seq<Element>, ev: Event, inp: Input)
    requires !ev.MouseRelease?
    ensures HandleAll(cs, ev, inp) == (cs, [])
    decreases cs, 0
  {
    if cs != [] {
      OnlyReleaseActs(cs[0], ev, inp);
      OnlyReleaseActsAll(cs[1..], ev, inp);
      assert [cs[0]] + cs[1..] == cs;
      assert HandleAll(cs, ev, inp).1 == [] + [];
    }
  }

  /** An inactive subtree fires no callback, whatever the event: neither a
      button nor a checkbox reacts while inactive. */
  lemma {:induction false} InactiveFiresNothing(e: Element, ev: Event, inp: Input)
    requires AllInactive(e)
    ensures HandleEvent(e, ev, inp).1 == []
    decreases e, 1
  {
    InactiveFiresNothingAll(e.children, ev, inp);
  }

  lemma {:induction false} InactiveFiresNothingAll(cs: seq<Element>, ev: Event, inp: Input)
    requires forall i :: 0 <= i < |cs| ==> AllInactive(cs[i])
    ensures HandleAll(cs, ev, inp).1 == []
    decreases cs, 0
  {
    if cs != [] {
      InactiveFiresNothing(cs[0], ev, inp);
      InactiveFiresNothingAll(cs[1..], ev, inp);
    }
  }

  /** Events are not consumed: two overlapping buttons under the cursor both
      fire on one release, in child order. */
  lemma OverlappingButtonsBothFire(b1: ButtonState, b2: ButtonState, s: BoxStyle, c: Core, root: Core, inp: Input)
    requires b1.hasCallback && b2.hasCallback
    requires c.active && CoreHovered(c, inp.mousePos)
    ensures var t := Element(root, Plain, [Element(c, ButtonNode(s, b1), []), Element(c, ButtonNode(s, b2), [])]);
      HandleEvent(t, MouseRelease, inp).1 == [ButtonClicked(b1.callbackId), ButtonClicked(b2.callbackId)]
  {
    var x1 := Element(c, ButtonNode(s, b1), []);
    var x2 := Element(c, ButtonNode(s, b2), []);
    assert HandleEvent(x1, MouseRelease, inp).1 == [ButtonClicked(b1.callbackId)];
    assert HandleEvent(x2, MouseRelease, inp).1 == [ButtonClicked(b2.callbackId)];
    var t := Element(root, Plain, [x1, x2]);
    assert HandleAll([x2], MouseRelease, inp).1 == [ButtonClicked(b2.callbackId)];
    assert [x1, x2][1..] == [x2];
  }
}
