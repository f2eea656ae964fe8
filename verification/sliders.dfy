/** A slider: a bar and a draggable handle bound to a number. Each frame the
    slider latches a drag on a press over it, maps the cursor linearly onto
    its range while dragging, clamps the number into the range and shows it
    as the handle's relative position along the bar. */
module Sliders {
  import opened Geometry
  import opened Events
  import opened Transitions
  import opened Elements

  /** The bound number, in the type the caller handed over. Single and double
      precision are both modelled as `real`. */
  datatype SliderValue = FloatNum(f: real) | IntNum(n: int) | DoubleNum(d: real)

  /** The number, the range, the axis, and whether a drag is in progress. */
  datatype SliderState = SliderState(val: SliderValue, minVal: real, maxVal: real, vertical: bool, moving: bool)

  function NewSliderState(val: SliderValue, minVal: real, maxVal: real, vertical: bool): (s: SliderState)
    ensures !s.moving
    ensures s.val == val && s.minVal == minVal && s.maxVal == maxVal && s.vertical == vertical
  {
    SliderState(val, minVal, maxVal, vertical, false)
  }

  /** The bar's width and height: half the slider's thickness across the
      axis, the whole length along it. */
  function BarSize(vertical: bool): (wh: (Dimension, Dimension)) {
    if vertical then (Dimension(RelativeSize, 0.5), DefaultDimension)
    else (DefaultDimension, Dimension(RelativeSize, 0.5))
  }

  /** The handle's width and height: the slider's whole thickness across the
      axis, and square. */
  function HandleSize(vertical: bool): (wh: (Dimension, Dimension)) {
    if vertical then (DefaultDimension, Dimension(AspectSize, 1.0))
    else (Dimension(AspectSize, 1.0), DefaultDimension)
  }

  /** The two orientations are mirror images: the vertical layout is the
      horizontal one with width and height swapped. The handle is a square as
      thick as the slider, and the bar runs the slider's whole length at half
      its thickness. */
  lemma AxesMirror(p: Vec2)
    ensures BarSize(true) == (BarSize(false).1, BarSize(false).0)
    ensures HandleSize(true) == (HandleSize(false).1, HandleSize(false).0)
    ensures ElementSize(HandleSize(false).0, HandleSize(false).1, p) == Vec2(p.y, p.y)
    ensures ElementSize(HandleSize(true).0, HandleSize(true).1, p) == Vec2(p.x, p.x)
    ensures ElementSize(BarSize(false).0, BarSize(false).1, p) == Vec2(p.x, p.y * 0.5)
    ensures ElementSize(BarSize(true).0, BarSize(true).1, p) == Vec2(p.x * 0.5, p.y)
  {
  }

  /** Reads the number as a float. */
  function AsReal(v: SliderValue): real {
    match v
    case FloatNum(f) => f
    case IntNum(n) => n as real
    case DoubleNum(d) => d
  }

  /** Writes a float back in the number's own type; an integer truncates. */
  function Store(v: SliderValue, x: real): (r: SliderValue)
    ensures r.FloatNum? == v.FloatNum? && r.IntNum? == v.IntNum? && r.DoubleNum? == v.DoubleNum?
    ensures !v.IntNum? ==> AsReal(r) == x
    ensures v.IntNum? ==> AsReal(r) == Trunc(x) as real
  {
    match v
    case FloatNum(_) => FloatNum(x)
    case IntNum(_) => IntNum(Trunc(x))
    case DoubleNum(_) => DoubleNum(x)
  }

  /** The drag latch: released, it clears; a fresh press over the slider sets
      it; otherwise it keeps its value. */
  function CheckMoving(moving: bool, c: Core, inp: Input): (r: bool)
    ensures !inp.pressed ==> !r
    ensures PressEdge(inp) && CoreHovered(c, inp.mousePos) ==> r
    ensures inp.pressed && !(PressEdge(inp) && CoreHovered(c, inp.mousePos)) ==> r == moving
  {
    var m := if !inp.pressed then false else moving;
    if IsHovered(inp.mousePos, c.renderPos, c.renderSize) && inp.pressed && !inp.pressedLast then true else m
  }

  /** The slider's extent along its axis, from the last frame's rectangle,
      and the cursor's coordinate on that axis (y flipped for a vertical
      slider, as the hover test does). */
  function AxisMin(vertical: bool, c: Core): real {
    if vertical then c.renderPos.y - c.renderSize.y * 0.5 else c.renderPos.x - c.renderSize.x * 0.5
  }

  function AxisMax(vertical: bool, c: Core): real {
    if vertical then c.renderPos.y + c.renderSize.y * 0.5 else c.renderPos.x + c.renderSize.x * 0.5
  }

  function AxisMouse(vertical: bool, inp: Input): real {
    if vertical then -inp.mousePos.y else inp.mousePos.x
  }

  /** The number the cursor points at: the cursor's fraction of the way along
      the slider, mapped linearly onto the range. */
  function UpdateVal(s: SliderState, c: Core, inp: Input): (r: SliderValue)
    ensures r.FloatNum? == s.val.FloatNum? && r.IntNum? == s.val.IntNum?
  {
    var lo := AxisMin(s.vertical, c);
    var hi := AxisMax(s.vertical, c);
    var t := SafeDiv(AxisMouse(s.vertical, inp) - lo, hi - lo);
    Store(s.val, Lerp(s.minVal, s.maxVal, t))
  }

  /** The mapping hits the range's ends at the slider's ends and is
      increasing in between, for a slider of positive length. */
  lemma UpdateValEnds(s: SliderState, c: Core, inp: Input)
    requires !s.val.IntNum?
    requires AxisMin(s.vertical, c) < AxisMax(s.vertical, c)
    ensures AxisMouse(s.vertical, inp) == AxisMin(s.vertical, c) ==> AsReal(UpdateVal(s, c, inp)) == s.minVal
    ensures AxisMouse(s.vertical, inp) == AxisMax(s.vertical, c) ==> AsReal(UpdateVal(s, c, inp)) == s.maxVal
  {
    var lo := AxisMin(s.vertical, c);
    var hi := AxisMax(s.vertical, c);
    if AxisMouse(s.vertical, inp) == hi {
      DivSelf(AxisMouse(s.vertical, inp) - lo, hi - lo);
    }
  }

  lemma DivSelf(a: real, d: real)
    requires a == d && d != 0.0
    ensures SafeDiv(a, d) == 1.0
  {
  }

  lemma UpdateValMonotone(s: SliderState, c: Core, inp1: Input, inp2: Input)
    requires !s.val.IntNum? && s.minVal <= s.maxVal
    requires AxisMin(s.vertical, c) < AxisMax(s.vertical, c)
    requires AxisMouse(s.vertical, inp1) <= AxisMouse(s.vertical, inp2)
    ensures AsReal(UpdateVal(s, c, inp1)) <= AsReal(UpdateVal(s, c, inp2))
  {
    var lo := AxisMin(s.vertical, c);
    var hi := AxisMax(s.vertical, c);
    var t1 := SafeDiv(AxisMouse(s.vertical, inp1) - lo, hi - lo);
    var t2 := SafeDiv(AxisMouse(s.vertical, inp2) - lo, hi - lo);
    DivMonotone(AxisMouse(s.vertical, inp1) - lo, AxisMouse(s.vertical, inp2) - lo, hi - lo);
    LerpMonotone(s.minVal, s.maxVal, t1, t2);
  }

  lemma LerpMonotone(a: real, b: real, t1: real, t2: real)
    requires a <= b && t1 <= t2
    ensures Lerp(a, b, t1) <= Lerp(a, b, t2)
  {
    if t1 < t2 && a < b {
      assert (t2 - t1) * (b - a) > 0.0;
      assert Lerp(a, b, t2) - Lerp(a, b, t1) == (t2 - t1) * (b - a);
    }
  }

  lemma DivMonotone(a: real, b: real, d: real)
    requires d > 0.0 && a <= b
    ensures a / d <= b / d
  {
    assert (b / d - a / d) * d == b - a;
  }

  /** `fmin(fmax(x, lo), hi)`. */
  function Clamp(x: real, lo: real, hi: real): (r: real)
    ensures lo <= hi ==> lo <= r <= hi
    ensures lo <= x <= hi ==> r == x
  {
    Min(Max(x, lo), hi)
  }

  /** The number forced into the range, in its own type. */
  function ClampVal(s: SliderState): (r: SliderValue)
    ensures r.FloatNum? == s.val.FloatNum? && r.IntNum? == s.val.IntNum? && r.DoubleNum? == s.val.DoubleNum?
    ensures !s.val.IntNum? && s.minVal <= s.maxVal ==> s.minVal <= AsReal(r) <= s.maxVal
    ensures !s.val.IntNum? && s.minVal <= AsReal(s.val) <= s.maxVal ==> r == s.val
  {
    Store(s.val, Clamp(AsReal(s.val), s.minVal, s.maxVal))
  }

  /** Clamping a float twice is clamping it once. */
  lemma ClampIdempotent(s: SliderState)
    requires !s.val.IntNum? && s.minVal <= s.maxVal
    ensures ClampVal(s.(val := ClampVal(s))) == ClampVal(s)
  {
  }

  /** An integer is truncated after clamping, so with a fractional minimum it
      can end up below the range: 0 clamped into [0.5, 3] is stored as 0. */
  lemma IntClampCanFallBelowMin()
    ensures var s := SliderState(IntNum(0), 0.5, 3.0, false, false);
      ClampVal(s) == IntNum(0) && AsReal(ClampVal(s)) < s.minVal
  {
    var s := SliderState(IntNum(0), 0.5, 3.0, false, false);
    assert Clamp(0.0, 0.5, 3.0) == 0.5;
    assert Trunc(0.5) == 0;
  }

  /** With whole-number bounds an integer does stay within the range. */
  lemma IntClampIntegralBounds(s: SliderState, lo: int, hi: int)
    requires s.val.IntNum? && s.minVal == lo as real && s.maxVal == hi as real && lo <= hi
    ensures lo <= ClampVal(s).n <= hi
  {
    var x := Clamp(AsReal(s.val), s.minVal, s.maxVal);
    var n := Trunc(x);
    if x >= 0.0 {
      assert (lo as real) < n as real + 1.0;
    } else {
      assert n as real - 1.0 < hi as real;
    }
  }

  /** The handle's coordinate along the bar: the number's fraction of the
      range, as a relative, centred position. */
  function SliderPos(s: SliderState): (c: Coordinate)
    ensures c.kind == RelativePos && c.anchor == CenterCenter
    ensures s.minVal < s.maxVal && AsReal(s.val) == s.minVal ==> c.param == 0.0
    ensures s.minVal < s.maxVal && AsReal(s.val) == s.maxVal ==> c.param == 1.0
    ensures s.minVal < s.maxVal && s.minVal <= AsReal(s.val) <= s.maxVal ==> 0.0 <= c.param <= 1.0
  {
    var p := SafeDiv(AsReal(s.val) - s.minVal, s.maxVal - s.minVal);
    assert s.minVal < s.maxVal ==> FractionFacts(AsReal(s.val), s.minVal, s.maxVal, p) by {
      if s.minVal < s.maxVal { FractionBounds(AsReal(s.val), s.minVal, s.maxVal); }
    }
    Coordinate(RelativePos, p, CenterCenter)
  }

  /** What the fraction `p` of the way from `lo` to `hi` that `v` lies at
      guarantees: 0 and 1 at the ends, and within [0, 1] in between. */
  predicate FractionFacts(v: real, lo: real, hi: real, p: real) {
    (v == lo ==> p == 0.0) && (v == hi ==> p == 1.0) && (lo <= v <= hi ==> 0.0 <= p <= 1.0)
  }

  lemma FractionBounds(v: real, lo: real, hi: real)
    requires lo < hi
    ensures FractionFacts(v, lo, hi, SafeDiv(v - lo, hi - lo))
  {
    if v == hi {
      DivSelf(v - lo, hi - lo);
    }
    if lo <= v <= hi {
      DivMonotone(0.0, v - lo, hi - lo);
      DivMonotone(v - lo, hi - lo, hi - lo);
    }
  }

  /** Places the handle: its along-axis coordinate becomes `SliderPos`, the
      other one is left as it was. */
  function SetSliderPos(s: SliderState, handle: Fields): (r: Fields)
    ensures r.xPos == (if s.vertical then handle.xPos else SliderPos(s))
    ensures r.yPos == (if s.vertical then SliderPos(s) else handle.yPos)
    ensures r.(xPos := handle.xPos, yPos := handle.yPos) == handle
  {
    if s.vertical then handle.(yPos := SliderPos(s)) else handle.(xPos := SliderPos(s))
  }

  /** The slider's own work before the element update, in the source's order:
      the drag latch, the cursor mapping while dragging and active, then the
      clamp. Only the latch and the number change. */
  function SliderStep(s: SliderState, c: Core, inp: Input): (r: SliderState)
    ensures r.moving == CheckMoving(s.moving, c, inp)
    ensures r == s.(val := r.val, moving := r.moving)
    ensures r.moving && c.active ==> r.val == ClampVal(s.(val := UpdateVal(s, c, inp)))
    ensures !(r.moving && c.active) ==> r.val == ClampVal(s)
    ensures !s.val.IntNum? && s.minVal <= s.maxVal ==> s.minVal <= AsReal(r.val) <= s.maxVal
  {
    var m := CheckMoving(s.moving, c, inp);
    var v := if m && c.active then UpdateVal(s, c, inp) else s.val;
    s.(val := ClampVal(s.(val := v)), moving := m)
  }

  /** An inactive slider never changes its number beyond the clamp, however
      the cursor moves. */
  lemma InactiveSliderOnlyClamps(s: SliderState, c: Core, inp: Input)
    requires !c.active
    ensures SliderStep(s, c, inp).val == ClampVal(s)
  {
  }

  /** Releasing the button ends a drag, and the number then only clamps. */
  lemma ReleaseEndsDrag(s: SliderState, c: Core, inp: Input)
    requires !inp.pressed
    ensures !SliderStep(s, c, inp).moving
    ensures SliderStep(s, c, inp).val == ClampVal(s)
  {
  }

  /** A drag on an active float slider puts the number where the cursor is:
      at the slider's far end the number is the maximum. */
  lemma DragToMaxEnd(s: SliderState, c: Core, inp: Input)
    requires !s.val.IntNum? && s.minVal <= s.maxVal && c.active
    requires s.moving && inp.pressed
    requires AxisMin(s.vertical, c) < AxisMax(s.vertical, c)
    requires AxisMouse(s.vertical, inp) == AxisMax(s.vertical, c)
    ensures AsReal(SliderStep(s, c, inp).val) == s.maxVal
  {
    UpdateValEnds(s, c, inp);
  }
}
