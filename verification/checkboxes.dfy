/** A checkbox: a box bound to a boolean that a click toggles, showing one of
    two textures and playing a check or an uncheck transition. */
module Checkboxes {
  import opened Options
  import opened Geometry
  import opened Events
  import opened Transitions
  import opened Elements

  /** `val` is the bound boolean (None when unbound); `userData` stands for
      the opaque pointer handed back to the callback. */
  datatype CheckboxState = CheckboxState(
    val: Option<bool>,
    hasCallback: bool,
    callbackId: int,
    userData: int,
    checkedTex: int,
    uncheckedTex: int,
    check: Transition,
    uncheck: Transition)

  /** The texture for the bound value; an unbound checkbox keeps its texture. */
  function CheckboxTexture(cb: CheckboxState, style: BoxStyle): (r: BoxStyle)
    ensures cb.val == Some(true) ==> r == style.(texture := cb.checkedTex)
    ensures cb.val == Some(false) ==> r == style.(texture := cb.uncheckedTex)
    ensures cb.val.None? ==> r == style
  {
    match cb.val
    case Some(v) => style.(texture := if v then cb.checkedTex else cb.uncheckedTex)
    case None => style
  }

  /** Whether an event toggles the value: the checkbox is active, the event is
      a release, the cursor is over it, and a value is bound. */
  predicate Toggles(cb: CheckboxState, c: Core, ev: Event, inp: Input) {
    c.active && ev.MouseRelease? && CoreHovered(c, inp.mousePos) && cb.val.Some?
  }

  /** Flips the bound value, plays the transition for the new value, and
      reports the new value to the callback. */
  function CheckboxEvent(cb: CheckboxState, c: Core, ev: Event, inp: Input): (r: (CheckboxState, Core, seq<Effect>))
    ensures !Toggles(cb, c, ev, inp) ==> r == (cb, c, [])
    ensures Toggles(cb, c, ev, inp) ==>
      && r.0 == cb.(val := Some(!cb.val.value))
      && r.1 == SetTransition(c, if !cb.val.value then cb.check else cb.uncheck, 0.0)
      && r.2 == (if cb.hasCallback then [CheckboxToggled(cb.callbackId, !cb.val.value, cb.userData)] else [])
  {
    if c.active && ev.MouseRelease? && IsHovered(inp.mousePos, c.renderPos, c.renderSize) && cb.val.Some? then
      var v := !cb.val.value;
      var c1 := SetTransition(c, if v then cb.check else cb.uncheck, 0.0);
      (cb.(val := Some(v)), c1, if cb.hasCallback then [CheckboxToggled(cb.callbackId, v, cb.userData)] else [])
    else (cb, c, [])
  }

  /** A toggle keeps the checkbox toggleable (its rectangle and activity are
      untouched), so two qualifying releases restore the value, having played
      the check and the uncheck transition once each. */
  lemma DoubleToggleRestores(cb: CheckboxState, c: Core, inp: Input)
    requires Toggles(cb, c, MouseRelease, inp)
    ensures var (cb1, c1, _) := CheckboxEvent(cb, c, MouseRelease, inp);
      var (cb2, c2, _) := CheckboxEvent(cb1, c1, MouseRelease, inp);
      cb2 == cb && Toggles(cb1, c1, MouseRelease, inp)
  {
  }

  /** The texture follows the value after a toggle. */
  lemma TextureFollowsToggle(cb: CheckboxState, c: Core, inp: Input, style: BoxStyle)
    requires Toggles(cb, c, MouseRelease, inp)
    ensures var cb1 := CheckboxEvent(cb, c, MouseRelease, inp).0;
      CheckboxTexture(cb1, style).texture == if cb.val.value then cb.uncheckedTex else cb.checkedTex
  {
  }
}
