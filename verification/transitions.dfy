/** The transition engine: a keyed registry of animated element fields, each
    with a captured original and a target, advanced frame by frame through a
    Delayed -> Animating -> Finished state machine.

    The source addresses fields by raw byte offset into the element and tags
    each component with a data type. Here a `Field` selector names the field,
    and the selector fixes the value's kind: a write of the wrong kind, or to a
    user slot the element does not have, changes nothing. */
module Transitions {
  import opened Options
  import opened Geometry

  // ---------------------------------------------------------------------------
  // Animatable fields of an element

  /** The element fields a transition can animate: the two coordinates, the
      two dimensions, the alpha multiplier, and widget-specific float and
      vector fields, numbered per kind. */
  datatype Field =
    | XPos | YPos | Width | Height | AlphaMult
    | FloatSlot(i: nat) | Vec2Slot(i: nat) | Vec3Slot(i: nat) | Vec4Slot(i: nat)

  datatype Value =
    | CoordVal(c: Coordinate)
    | DimVal(d: Dimension)
    | FloatVal(f: real)
    | Vec2Val(v2: Vec2)
    | Vec3Val(v3: Vec3)
    | Vec4Val(v4: Vec4)

  /** The animatable state of one element. */
  datatype Fields = Fields(
    xPos: Coordinate,
    yPos: Coordinate,
    width: Dimension,
    height: Dimension,
    alphaMult: real,
    floats: seq<real>,
    vec2s: seq<Vec2>,
    vec3s: seq<Vec3>,
    vec4s: seq<Vec4>)

  /** A new element's fields: the given layout, alpha multiplier 1, and no
      widget-specific slots. A widget with animatable style adds its own
      slots when it is built. */
  function NewFields(x: Coordinate, y: Coordinate, w: Dimension, h: Dimension): Fields {
    Fields(x, y, w, h, 1.0, [], [], [], [])
  }

  /** The value kind stored in each field. */
  predicate Fits(sel: Field, v: Value) {
    match sel
    case XPos => v.CoordVal?
    case YPos => v.CoordVal?
    case Width => v.DimVal?
    case Height => v.DimVal?
    case AlphaMult => v.FloatVal?
    case FloatSlot(_) => v.FloatVal?
    case Vec2Slot(_) => v.Vec2Val?
    case Vec3Slot(_) => v.Vec3Val?
    case Vec4Slot(_) => v.Vec4Val?
  }

  /** The element has the field `sel` names. */
  predicate Addressable(f: Fields, sel: Field) {
    match sel
    case FloatSlot(i) => i < |f.floats|
    case Vec2Slot(i) => i < |f.vec2s|
    case Vec3Slot(i) => i < |f.vec3s|
    case Vec4Slot(i) => i < |f.vec4s|
    case _ => true
  }

  /** Two field records with the same user slots. */
  predicate SameShape(f: Fields, g: Fields) {
    |f.floats| == |g.floats| && |f.vec2s| == |g.vec2s| &&
    |f.vec3s| == |g.vec3s| && |f.vec4s| == |g.vec4s|
  }

  function Read(f: Fields, sel: Field): (r: Option<Value>)
    ensures r.Some? <==> Addressable(f, sel)
    ensures r.Some? ==> Fits(sel, r.value)
  {
    match sel
    case XPos => Some(CoordVal(f.xPos))
    case YPos => Some(CoordVal(f.yPos))
    case Width => Some(DimVal(f.width))
    case Height => Some(DimVal(f.height))
    case AlphaMult => Some(FloatVal(f.alphaMult))
    case FloatSlot(i) => if i < |f.floats| then Some(FloatVal(f.floats[i])) else None
    case Vec2Slot(i) => if i < |f.vec2s| then Some(Vec2Val(f.vec2s[i])) else None
    case Vec3Slot(i) => if i < |f.vec3s| then Some(Vec3Val(f.vec3s[i])) else None
    case Vec4Slot(i) => if i < |f.vec4s| then Some(Vec4Val(f.vec4s[i])) else None
  }

  /** Stores `v` into the field `sel`; a field the element lacks, or a value of
      the wrong kind, leaves the record unchanged. */
  function Write(f: Fields, sel: Field, v: Value): (r: Fields)
    ensures SameShape(f, r)
    ensures Addressable(f, sel) && Fits(sel, v) ==> Read(r, sel) == Some(v)
    ensures !(Addressable(f, sel) && Fits(sel, v)) ==> r == f
  {
    if !(Addressable(f, sel) && Fits(sel, v)) then f
    else
      match sel
      case XPos => f.(xPos := v.c)
      case YPos => f.(yPos := v.c)
      case Width => f.(width := v.d)
      case Height => f.(height := v.d)
      case AlphaMult => f.(alphaMult := v.f)
      case FloatSlot(i) => f.(floats := f.floats[i := v.f])
      case Vec2Slot(i) => f.(vec2s := f.vec2s[i := v.v2])
      case Vec3Slot(i) => f.(vec3s := f.vec3s[i := v.v3])
      case Vec4Slot(i) => f.(vec4s := f.vec4s[i := v.v4])
  }

  /** A write leaves every other field as it was. */
  lemma WriteLeavesOthers(f: Fields, sel: Field, v: Value, other: Field)
    requires other != sel
    ensures Read(Write(f, sel, v), other) == Read(f, other)
  {
  }

  lemma SameShapeAddressable(f: Fields, g: Fields, sel: Field)
    requires SameShape(f, g)
    ensures Addressable(f, sel) <==> Addressable(g, sel)
  {
  }

  // ---------------------------------------------------------------------------
  // Components and transitions

  /** One animated field: its selector, the value captured by `Init` (None
      until then) and the target set by the transition's author. */
  datatype Component = Component(field: Field, original: Option<Value>, target: Value)

  datatype Easing = Linear | Quadratic | Cubic | Exponential

  /** `time` is the duration in milliseconds, `alpha` the raw progress and
      `delay` the milliseconds still to wait before animating. */
  datatype Transition = Transition(
    time: real,
    easing: Easing,
    components: seq<Component>,
    alpha: real,
    delay: real)

  /** A default-constructed transition: one second, linear, nothing animated. */
  const DefaultTransition := Transition(1000.0, Linear, [], 0.0, 0.0)

  function NewTransition(time: real, easing: Easing): (t: Transition)
    ensures t == DefaultTransition.(time := time, easing := easing)
  {
    Transition(time, easing, [], 0.0, 0.0)
  }

  /** At most one component per field. */
  predicate Keyed(comps: seq<Component>) {
    forall i, j :: 0 <= i < j < |comps| ==> comps[i].field != comps[j].field
  }

  /** Every component's target has the kind its field stores. */
  predicate WellTyped(comps: seq<Component>) {
    forall j :: 0 <= j < |comps| ==> Fits(comps[j].field, comps[j].target)
  }

  /** Every animated field exists on the element. */
  predicate AllAddressable(comps: seq<Component>, f: Fields) {
    forall j :: 0 <= j < |comps| ==> Addressable(f, comps[j].field)
  }

  /** Position of the first component for `sel`, or `|comps|` if there is none. */
  function FindComponent(comps: seq<Component>, sel: Field): (i: nat)
    ensures i <= |comps|
    ensures i < |comps| ==> comps[i].field == sel
    ensures forall j :: 0 <= j < i ==> comps[j].field != sel
  {
    if |comps| == 0 then 0
    else if comps[0].field == sel then 0
    else 1 + FindComponent(comps[1..], sel)
  }

  predicate HasField(comps: seq<Component>, sel: Field) {
    exists j :: 0 <= j < |comps| && comps[j].field == sel
  }

  /** The first component for `sel`, if any. */
  function Lookup(comps: seq<Component>, sel: Field): (r: Option<Component>)
    ensures r.Some? <==> HasField(comps, sel)
    ensures r.Some? ==> r.value.field == sel && r.value in comps
  {
    var i := FindComponent(comps, sel);
    if i < |comps| then Some(comps[i]) else None
  }

  /** The search looks at fields only. */
  lemma {:induction false} FindComponentByFields(a: seq<Component>, b: seq<Component>, sel: Field)
    requires |a| == |b|
    requires forall j :: 0 <= j < |a| ==> a[j].field == b[j].field
    ensures FindComponent(a, sel) == FindComponent(b, sel)
    decreases |a|
  {
    if |a| > 0 && a[0].field != sel {
      FindComponentByFields(a[1..], b[1..], sel);
    }
  }

  /** A component appended for a field nobody animates yet is the one found. */
  lemma {:induction false} FindComponentAppended(a: seq<Component>, c: Component)
    requires !HasField(a, c.field)
    ensures FindComponent(a + [c], c.field) == |a|
    decreases |a|
  {
    if |a| > 0 {
      assert (a + [c])[1..] == a[1..] + [c];
      assert !HasField(a[1..], c.field) by {
        forall j | 0 <= j < |a[1..]| ensures a[1..][j].field != c.field {
          assert a[1..][j] == a[j + 1];
        }
      }
      FindComponentAppended(a[1..], c);
    }
  }

  /** Sets the target of the component for `sel`, keeping its captured
      original; when there is none, appends a new component with no original. */
  function SetTarget(t: Transition, sel: Field, v: Value): (r: Transition)
    ensures r.time == t.time && r.easing == t.easing && r.alpha == t.alpha && r.delay == t.delay
    // re-targeting overwrites in place, otherwise exactly one entry is appended
    ensures |r.components| == |t.components| + (if HasField(t.components, sel) then 0 else 1)
    ensures forall j :: 0 <= j < |t.components| ==>
      r.components[j].field == t.components[j].field && r.components[j].original == t.components[j].original
    ensures forall j :: 0 <= j < |t.components| && t.components[j].field != sel ==> r.components[j] == t.components[j]
    // the component now found for `sel` carries the new target and the old original
    ensures Lookup(r.components, sel) ==
      Some(Component(sel, if HasField(t.components, sel) then Lookup(t.components, sel).value.original else None, v))
  {
    var i := FindComponent(t.components, sel);
    if i < |t.components| then
      var cs := t.components[i := t.components[i].(target := v)];
      FindComponentByFields(t.components, cs, sel);
      t.(components := cs)
    else
      var c := Component(sel, None, v);
      FindComponentAppended(t.components, c);
      t.(components := t.components + [c])
  }

  /** Re-targeting keeps the registry keyed by field, and well typed when the
      new value fits its field. */
  lemma SetTargetKeepsRegistry(t: Transition, sel: Field, v: Value)
    ensures Keyed(t.components) ==> Keyed(SetTarget(t, sel, v).components)
    ensures WellTyped(t.components) && Fits(sel, v) ==> WellTyped(SetTarget(t, sel, v).components)
  {
    var r := SetTarget(t, sel, v);
    if Keyed(t.components) && !HasField(t.components, sel) {
      assert forall j :: 0 <= j < |t.components| ==> r.components[j].field != sel;
    }
  }

  function SetTargetX(t: Transition, x: Coordinate): Transition { SetTarget(t, XPos, CoordVal(x)) }
  function SetTargetY(t: Transition, y: Coordinate): Transition { SetTarget(t, YPos, CoordVal(y)) }
  function SetTargetW(t: Transition, w: Dimension): Transition { SetTarget(t, Width, DimVal(w)) }
  function SetTargetH(t: Transition, h: Dimension): Transition { SetTarget(t, Height, DimVal(h)) }
  function SetTargetAlphaMult(t: Transition, a: real): Transition { SetTarget(t, AlphaMult, FloatVal(a)) }
  function SetTargetFloat(t: Transition, target: real, slot: nat): Transition { SetTarget(t, FloatSlot(slot), FloatVal(target)) }
  function SetTargetVec2(t: Transition, target: Vec2, slot: nat): Transition { SetTarget(t, Vec2Slot(slot), Vec2Val(target)) }
  function SetTargetVec3(t: Transition, target: Vec3, slot: nat): Transition { SetTarget(t, Vec3Slot(slot), Vec3Val(target)) }
  function SetTargetVec4(t: Transition, target: Vec4, slot: nat): Transition { SetTarget(t, Vec4Slot(slot), Vec4Val(target)) }

  /** Re-targeting the same field twice is the same as targeting it once with
      the later value: the registry never holds a stale second entry. */
  lemma RetargetOverrides(t: Transition, sel: Field, v1: Value, v2: Value)
    ensures SetTarget(SetTarget(t, sel, v1), sel, v2) == SetTarget(t, sel, v2)
  {
    var cs := t.components;
    var i := FindComponent(cs, sel);
    if i < |cs| {
      var cs1 := cs[i := cs[i].(target := v1)];
      FindComponentByFields(cs, cs1, sel);
      assert SetTarget(t, sel, v1) == t.(components := cs1);
      assert cs1[i := cs1[i].(target := v2)] == cs[i := cs[i].(target := v2)];
    } else {
      var c1 := Component(sel, None, v1);
      FindComponentAppended(cs, c1);
      assert SetTarget(t, sel, v1) == t.(components := cs + [c1]);
      assert (cs + [c1])[|cs| := c1.(target := v2)] == cs + [Component(sel, None, v2)];
    }
  }

  // ---------------------------------------------------------------------------
  // Initialisation

  /** Captures the element's current value of the component's field. */
  function Snapshot(c: Component, f: Fields): Component {
    c.(original := Read(f, c.field))
  }

  /** Sets the start delay and captures every component's original from the
      element's current fields; targets, progress and duration are untouched. */
  function Init(t: Transition, f: Fields, delay: real): (r: Transition)
    ensures r.delay == delay
    ensures r.time == t.time && r.easing == t.easing && r.alpha == t.alpha
    ensures |r.components| == |t.components|
    ensures forall j :: 0 <= j < |t.components| ==>
      r.components[j].field == t.components[j].field &&
      r.components[j].target == t.components[j].target &&
      r.components[j].original == Read(f, t.components[j].field)
  {
    t.(delay := delay,
       components := seq(|t.components|, j requires 0 <= j < |t.components| => Snapshot(t.components[j], f)))
  }

  /** Every component has a captured original. */
  predicate Initialized(t: Transition) {
    forall j :: 0 <= j < |t.components| ==> t.components[j].original.Some?
  }

  /** Initialising against an element that has every animated field leaves no
      original unset, and keeps the registry keyed and well typed. */
  lemma InitCapturesAll(t: Transition, f: Fields, delay: real)
    requires AllAddressable(t.components, f)
    ensures Initialized(Init(t, f, delay))
    ensures Keyed(t.components) ==> Keyed(Init(t, f, delay).components)
    ensures WellTyped(t.components) ==> WellTyped(Init(t, f, delay).components)
  {
  }

  // ---------------------------------------------------------------------------
  // Progress and easing

  /** Raw progress after `dt` milliseconds: grows by `dt / time` and is capped
      at 1. A zero duration finishes at once (the source's division gives an
      infinity, which the cap turns into 1). */
  function Advance(alpha: real, dt: real, time: real): (a: real)
    ensures a <= 1.0
    ensures time != 0.0 ==> a == Min(alpha + dt / time, 1.0)
    ensures time != 0.0 && alpha + dt / time >= 1.0 ==> a == 1.0
  {
    if time == 0.0 then 1.0
    else
      var a := alpha + dt / time;
      if a > 1.0 then 1.0 else a
  }

  function Square(b: real): real { b * b }
  function Cube(b: real): real { b * b * b }

  /** The eased progress. `pow2` stands for the C library's `powf(2, .)`,
      which the exponential curve calls. */
  function Ease(e: Easing, a: real, pow2: real -> real): (r: real)
    ensures a == 1.0 ==> r == 1.0
    ensures a == 0.0 && e != Exponential ==> r == 0.0
    ensures a == 0.0 && e == Exponential && pow2(0.0) == 1.0 ==> r == 0.0
    ensures e == Linear ==> r == a
  {
    match e
    case Quadratic => 1.0 - Square(1.0 - a)
    case Cubic => 1.0 - Cube(1.0 - a)
    case Exponential => if a == 1.0 then 1.0 else 1.0 - pow2(-10.0 * a)
    case Linear => a
  }

  /** The quadratic and cubic curves stay within [0, 1] and never lag behind
      linear progress. */
  lemma EaseBounded(e: Easing, a: real, pow2: real -> real)
    requires e == Quadratic || e == Cubic
    requires 0.0 <= a <= 1.0
    ensures a <= Ease(e, a, pow2) <= 1.0
  {
    if e == Cubic {
      CubeBounds(1.0 - a);
    } else {
      SquareBounds(1.0 - a);
    }
  }

  lemma SquareBounds(b: real)
    requires 0.0 <= b <= 1.0
    ensures 0.0 <= Square(b) <= b
  {
    ShrinkByFraction(b, b);
  }

  lemma CubeBounds(b: real)
    requires 0.0 <= b <= 1.0
    ensures 0.0 <= Cube(b) <= b
  {
    ShrinkByFraction(b, b);
    ShrinkByFraction(b * b, b);
  }

  lemma ShrinkByFraction(x: real, y: real)
    requires 0.0 <= x && 0.0 <= y <= 1.0
    ensures 0.0 <= x * y <= x
  {
    assert x * y <= x * 1.0;
  }

  // ---------------------------------------------------------------------------
  // Per-component writes

  /** Size used when interpolating a dimension: an aspect size is the other
      axis's resolved size times the ratio, anything else resolves against the
      parent's extent on its own axis. */
  function AnimatedSize(d: Dimension, parentSize: real, otherSize: real): (s: real)
    ensures d.kind == AspectSize ==> s == otherSize * d.param
    ensures d.kind != AspectSize ==> s == CalcRenderSize(d, parentSize)
  {
    if d.kind == AspectSize then otherSize * d.param else CalcRenderSize(d, parentSize)
  }

  predicate SameKind(a: Value, b: Value) {
    (a.CoordVal? && b.CoordVal?) || (a.DimVal? && b.DimVal?) || (a.FloatVal? && b.FloatVal?) ||
    (a.Vec2Val? && b.Vec2Val?) || (a.Vec3Val? && b.Vec3Val?) || (a.Vec4Val? && b.Vec4Val?)
  }

  /** The captured original when it has the target's kind; an unset original
      (a transition updated before `Init`) falls back to the target. */
  function OriginalOr(c: Component): (v: Value)
    ensures c.original.None? ==> v == c.target
    ensures (c.original.Some? && SameKind(c.original.value, c.target)) ==> v == c.original.value
    ensures SameKind(v, c.target)
  {
    match c.original
    case None => c.target
    case Some(o) =>
      match (o, c.target)
      case (CoordVal(_), CoordVal(_)) => o
      case (DimVal(_), DimVal(_)) => o
      case (FloatVal(_), FloatVal(_)) => o
      case (Vec2Val(_), Vec2Val(_)) => o
      case (Vec3Val(_), Vec3Val(_)) => o
      case (Vec4Val(_), Vec4Val(_)) => o
      case _ => c.target
  }

  /** The in-flight value written for a coordinate: the lerp of the original
      and target, each resolved against a zero parent position, stored as a
      centred pixel offset. */
  function InFlightCoord(o: Coordinate, t: Coordinate, parentSize: real, size: real, ea: real): Coordinate {
    Coordinate(PixelPos, Lerp(CalcRenderPos(o, 0.0, parentSize, size), CalcRenderPos(t, 0.0, parentSize, size), ea), CenterCenter)
  }

  /** The in-flight value written for a dimension: the lerp of both sides'
      pixel sizes, stored as a pixel size. */
  function InFlightDim(o: Dimension, t: Dimension, parentSize: real, otherSize: real, ea: real): Dimension {
    Dimension(PixelSize, Lerp(AnimatedSize(o, parentSize, otherSize), AnimatedSize(t, parentSize, otherSize), ea))
  }

  /** The value a component writes this frame: its exact target on the
      finishing frame, otherwise the interpolation at eased progress `ea`. */
  function NewValue(c: Component, finished: bool, ea: real, parentSize: Vec2, size: Vec2): (v: Value)
    ensures finished ==> v == c.target
    ensures Fits(c.field, c.target) ==> Fits(c.field, v)
  {
    if finished then c.target
    else
      var o := OriginalOr(c);
      match c.target
      case CoordVal(tc) =>
        var onX := c.field == XPos;
        CoordVal(InFlightCoord(o.c, tc, if onX then parentSize.x else parentSize.y, if onX then size.x else size.y, ea))
      case DimVal(td) =>
        var onW := c.field == Width;
        DimVal(InFlightDim(o.d, td, if onW then parentSize.x else parentSize.y, if onW then size.y else size.x, ea))
      case FloatVal(tf) => FloatVal(Lerp(o.f, tf, ea))
      case Vec2Val(tv) => Vec2Val(Lerp2(o.v2, tv, ea))
      case Vec3Val(tv) => Vec3Val(Lerp3(o.v3, tv, ea))
      case Vec4Val(tv) => Vec4Val(Lerp4(o.v4, tv, ea))
  }

  /** Writes every component's value, in registry order. */
  function ApplyAll(comps: seq<Component>, f: Fields, finished: bool, ea: real, parentSize: Vec2, size: Vec2): (r: Fields)
    ensures SameShape(f, r)
    decreases |comps|
  {
    if |comps| == 0 then f
    else ApplyAll(comps[1..], Write(f, comps[0].field, NewValue(comps[0], finished, ea, parentSize, size)), finished, ea, parentSize, size)
  }

  /** A field no component animates keeps its value. */
  lemma {:induction false} ApplyAllUntouched(comps: seq<Component>, f: Fields, finished: bool, ea: real, parentSize: Vec2, size: Vec2, sel: Field)
    requires forall j :: 0 <= j < |comps| ==> comps[j].field != sel
    ensures Read(ApplyAll(comps, f, finished, ea, parentSize, size), sel) == Read(f, sel)
    decreases |comps|
  {
    if |comps| > 0 {
      var f1 := Write(f, comps[0].field, NewValue(comps[0], finished, ea, parentSize, size));
      WriteLeavesOthers(f, comps[0].field, NewValue(comps[0], finished, ea, parentSize, size), sel);
      ApplyAllUntouched(comps[1..], f1, finished, ea, parentSize, size, sel);
    }
  }

  /** In a keyed, well-typed registry over fields the element has, each
      component's field ends up holding that component's value. */
  lemma {:induction false} ApplyAllWrites(comps: seq<Component>, f: Fields, finished: bool, ea: real, parentSize: Vec2, size: Vec2, k: nat)
    requires Keyed(comps) && WellTyped(comps) && AllAddressable(comps, f)
    requires k < |comps|
    ensures Read(ApplyAll(comps, f, finished, ea, parentSize, size), comps[k].field)
         == Some(NewValue(comps[k], finished, ea, parentSize, size))
    decreases |comps|
  {
    var c0 := comps[0];
    var f1 := Write(f, c0.field, NewValue(c0, finished, ea, parentSize, size));
    if k == 0 {
      assert Read(f1, c0.field) == Some(NewValue(c0, finished, ea, parentSize, size));
      ApplyAllUntouched(comps[1..], f1, finished, ea, parentSize, size, c0.field);
    } else {
      forall j | 0 <= j < |comps[1..]|
        ensures Addressable(f1, comps[1..][j].field)
      {
        SameShapeAddressable(f, f1, comps[1..][j].field);
      }
      ApplyAllWrites(comps[1..], f1, finished, ea, parentSize, size, k - 1);
    }
  }

  // ---------------------------------------------------------------------------
  // Update

  /** The transition after a frame, the element's fields after its writes, and
      whether the transition is still running. */
  datatype Outcome = Outcome(transition: Transition, fields: Fields, running: bool)

  /** Advances the transition by `dt` milliseconds. `parentSize` and `size` are
      the element's parent extent and its own resolved size this frame. */
  function Update(t: Transition, dt: real, f: Fields, parentSize: Vec2, size: Vec2, pow2: real -> real): (r: Outcome)
    // the registry itself is never changed
    ensures r.transition.components == t.components
    ensures r.transition.time == t.time && r.transition.easing == t.easing
    // Delayed: only the delay counts down
    ensures t.delay > 0.0 ==> r == Outcome(t.(delay := t.delay - dt), f, true)
    // Animating / Finished: progress is capped at 1 and running ends exactly at 1
    ensures t.delay <= 0.0 ==> r.transition.delay == t.delay
    ensures t.delay <= 0.0 ==> r.transition.alpha == Advance(t.alpha, dt, t.time)
    ensures t.delay <= 0.0 ==> (r.running <==> r.transition.alpha != 1.0)
    ensures SameShape(f, r.fields)
  {
    if t.delay > 0.0 then
      Outcome(t.(delay := t.delay - dt), f, true)
    else
      var alpha := Advance(t.alpha, dt, t.time);
      var finished := alpha == 1.0;
      var ea := Ease(t.easing, alpha, pow2);
      Outcome(t.(alpha := alpha), ApplyAll(t.components, f, finished, ea, parentSize, size), !finished)
  }

  /** Fields the transition does not animate are never written. */
  lemma UpdateLeavesOthers(t: Transition, dt: real, f: Fields, parentSize: Vec2, size: Vec2, pow2: real -> real, sel: Field)
    requires !HasField(t.components, sel)
    ensures Read(Update(t, dt, f, parentSize, size, pow2).fields, sel) == Read(f, sel)
  {
    if t.delay <= 0.0 {
      var alpha := Advance(t.alpha, dt, t.time);
      ApplyAllUntouched(t.components, f, alpha == 1.0, Ease(t.easing, alpha, pow2), parentSize, size, sel);
    }
  }

  /** On the frame the transition finishes, every animated field is set to its
      exact target, with the target's own kind and anchor. */
  lemma UpdateFinishSnaps(t: Transition, dt: real, f: Fields, parentSize: Vec2, size: Vec2, pow2: real -> real, k: nat)
    requires Keyed(t.components) && WellTyped(t.components) && AllAddressable(t.components, f)
    requires k < |t.components|
    requires t.delay <= 0.0
    requires !Update(t, dt, f, parentSize, size, pow2).running
    ensures Read(Update(t, dt, f, parentSize, size, pow2).fields, t.components[k].field) == Some(t.components[k].target)
  {
    var alpha := Advance(t.alpha, dt, t.time);
    ApplyAllWrites(t.components, f, alpha == 1.0, Ease(t.easing, alpha, pow2), parentSize, size, k);
  }

  /** Before the finishing frame an animated position is rewritten as a
      centred pixel offset between the resolved original and target, both
      resolved on the position's own axis: the parent's width and the
      element's width for x, the heights for y. */
  lemma UpdateInFlightCoord(t: Transition, dt: real, f: Fields, parentSize: Vec2, size: Vec2, pow2: real -> real, k: nat)
    requires Keyed(t.components) && WellTyped(t.components) && AllAddressable(t.components, f)
    requires k < |t.components| && (t.components[k].field == XPos || t.components[k].field == YPos)
    requires t.components[k].original.Some? && t.components[k].original.value.CoordVal?
    requires t.delay <= 0.0
    requires Update(t, dt, f, parentSize, size, pow2).running
    ensures var alpha := Update(t, dt, f, parentSize, size, pow2).transition.alpha;
      var onX := t.components[k].field == XPos;
      var pS := if onX then parentSize.x else parentSize.y;
      var s := if onX then size.x else size.y;
      Read(Update(t, dt, f, parentSize, size, pow2).fields, t.components[k].field)
      == Some(CoordVal(Coordinate(PixelPos,
                                  Lerp(CalcRenderPos(t.components[k].original.value.c, 0.0, pS, s),
                                       CalcRenderPos(t.components[k].target.c, 0.0, pS, s),
                                       Ease(t.easing, alpha, pow2)),
                                  CenterCenter)))
  {
    var alpha := Advance(t.alpha, dt, t.time);
    assert Fits(t.components[k].field, t.components[k].target);
    ApplyAllWrites(t.components, f, alpha == 1.0, Ease(t.easing, alpha, pow2), parentSize, size, k);
  }

  /** Before the finishing frame an animated width or height is rewritten as
      a pixel size between the two sides' sizes, resolved against the
      parent's extent on the same axis; an aspect side is the element's
      resolved size on the other axis times its ratio. */
  lemma UpdateInFlightSize(t: Transition, dt: real, f: Fields, parentSize: Vec2, size: Vec2, pow2: real -> real, k: nat)
    requires Keyed(t.components) && WellTyped(t.components) && AllAddressable(t.components, f)
    requires k < |t.components| && (t.components[k].field == Width || t.components[k].field == Height)
    requires t.components[k].original.Some? && t.components[k].original.value.DimVal?
    requires t.delay <= 0.0
    requires Update(t, dt, f, parentSize, size, pow2).running
    ensures var alpha := Update(t, dt, f, parentSize, size, pow2).transition.alpha;
      var onW := t.components[k].field == Width;
      var pS := if onW then parentSize.x else parentSize.y;
      var oS := if onW then size.y else size.x;
      var o := t.components[k].original.value.d;
      var g := t.components[k].target.d;
      Read(Update(t, dt, f, parentSize, size, pow2).fields, t.components[k].field)
      == Some(DimVal(Dimension(PixelSize,
                               Lerp(AnimatedSize(o, pS, oS), AnimatedSize(g, pS, oS),
                                    Ease(t.easing, alpha, pow2)))))
  {
    var alpha := Advance(t.alpha, dt, t.time);
    assert Fits(t.components[k].field, t.components[k].target);
    ApplyAllWrites(t.components, f, alpha == 1.0, Ease(t.easing, alpha, pow2), parentSize, size, k);
  }

  /** Re-targeting mid-flight is seamless: once a new transition has captured
      the element's current coordinate, its in-flight value at zero eased
      progress resolves to exactly where the element already was. */
  lemma RetargetNoJump(current: Coordinate, target: Coordinate, parentPos: real, parentSize: real, size: real)
    ensures CalcRenderPos(InFlightCoord(current, target, parentSize, size, 0.0), parentPos, parentSize, size)
         == CalcRenderPos(current, parentPos, parentSize, size)
  {
    PositionTranslates(current, 0.0, parentPos, parentSize, size);
  }

  /** The end-to-end scenario: a one-second linear transition of a float from
      0 to 10 reads 5 after 500 ms and exactly 10, finished, after 1000 ms. */
  lemma FloatScenario(pow2: real -> real)
    ensures var f0 := NewFields(DefaultCoordinate, DefaultCoordinate, DefaultDimension, DefaultDimension).(floats := [0.0]);
      var t0 := Init(SetTargetFloat(DefaultTransition, 10.0, 0), f0, 0.0);
      var s1 := Update(t0, 500.0, f0, Vec2(0.0, 0.0), Vec2(0.0, 0.0), pow2);
      var s2 := Update(s1.transition, 500.0, s1.fields, Vec2(0.0, 0.0), Vec2(0.0, 0.0), pow2);
      && s1.transition.alpha == 0.5 && s1.running && s1.fields.floats == [5.0]
      && s2.transition.alpha == 1.0 && !s2.running && s2.fields.floats == [10.0]
  {
    var f0 := NewFields(DefaultCoordinate, DefaultCoordinate, DefaultDimension, DefaultDimension).(floats := [0.0]);
    var c := Component(FloatSlot(0), Some(FloatVal(0.0)), FloatVal(10.0));
    FloatScenarioSetup(f0, c);
    FloatScenarioSteps(f0, c, pow2);
  }

  lemma FloatScenarioSetup(f0: Fields, c: Component)
    requires f0.floats == [0.0]
    requires c == Component(FloatSlot(0), Some(FloatVal(0.0)), FloatVal(10.0))
    ensures Init(SetTargetFloat(DefaultTransition, 10.0, 0), f0, 0.0) == Transition(1000.0, Linear, [c], 0.0, 0.0)
  {
    var c0 := Component(FloatSlot(0), None, FloatVal(10.0));
    assert !HasField([], FloatSlot(0));
    assert SetTarget(DefaultTransition, FloatSlot(0), FloatVal(10.0)).components == [] + [c0];
    var t := Transition(1000.0, Linear, [c0], 0.0, 0.0);
    assert Snapshot(c0, f0) == c;
    var r := Init(t, f0, 0.0);
    assert r.components == [c];
  }

  lemma FloatScenarioSteps(f0: Fields, c: Component, pow2: real -> real)
    requires f0.floats == [0.0]
    requires c == Component(FloatSlot(0), Some(FloatVal(0.0)), FloatVal(10.0))
    ensures var t0 := Transition(1000.0, Linear, [c], 0.0, 0.0);
      var s1 := Update(t0, 500.0, f0, Vec2(0.0, 0.0), Vec2(0.0, 0.0), pow2);
      var s2 := Update(s1.transition, 500.0, s1.fields, Vec2(0.0, 0.0), Vec2(0.0, 0.0), pow2);
      && s1 == Outcome(t0.(alpha := 0.5), f0.(floats := [5.0]), true)
      && s2 == Outcome(t0.(alpha := 1.0), f0.(floats := [10.0]), false)
  {
    var z := Vec2(0.0, 0.0);
    var t0 := Transition(1000.0, Linear, [c], 0.0, 0.0);
    assert Advance(0.0, 500.0, 1000.0) == 0.5;
    assert NewValue(c, false, 0.5, z, z) == FloatVal(5.0);
    ApplyOne(c, f0, false, 0.5, z, z);
    var s1 := Update(t0, 500.0, f0, z, z, pow2);
    assert s1 == Outcome(t0.(alpha := 0.5), f0.(floats := [5.0]), true);
    assert Advance(0.5, 500.0, 1000.0) == 1.0;
    ApplyOne(c, f0.(floats := [5.0]), true, 1.0, z, z);
  }

  lemma ApplyOne(c: Component, f: Fields, finished: bool, ea: real, parentSize: Vec2, size: Vec2)
    ensures ApplyAll([c], f, finished, ea, parentSize, size) == Write(f, c.field, NewValue(c, finished, ea, parentSize, size))
  {
    assert [c][1..] == [];
  }
}
