/** A button: a box with a three-state hover/hold machine that plays one of
    three transitions on each state change, and a click callback. */
module Buttons {
  import opened Geometry
  import opened Events
  import opened Transitions
  import opened Elements

  /** `curState` is 0 (idle), 1 (hovered) or 2 (held); -1 forces the next
      update to re-apply a transition. The callback is a flag and the id it
      is called with. */
  datatype ButtonState = ButtonState(
    hasCallback: bool,
    callbackId: int,
    base: Transition,
    hover: Transition,
    hold: Transition,
    curState: int)

  function NewButton(hasCallback: bool, callbackId: int, base: Transition, hover: Transition, hold: Transition): (b: ButtonState)
    ensures b.curState == 0
  {
    ButtonState(hasCallback, callbackId, base, hover, hold, 0)
  }

  /** Forgets the current state so that the next update applies a transition. */
  function UpdateTransitions(b: ButtonState): (r: ButtonState)
    ensures r.curState !in {0, 1, 2}
    ensures r.(curState := b.curState) == b
  {
    b.(curState := -1)
  }

  /** The state the inputs call for: held when hovered and pressed, hovered
      when hovered only, idle otherwise. */
  function TargetState(c: Core, inp: Input): int {
    if CoreHovered(c, inp.mousePos) then (if inp.pressed then 2 else 1) else 0
  }

  function TransitionFor(b: ButtonState, state: int): Transition {
    if state == 2 then b.hold else if state == 1 then b.hover else b.base
  }

  /** The state machine, run before the element's own update and therefore
      against the rectangle resolved on the previous frame. */
  function ButtonStep(b: ButtonState, c: Core, inp: Input): (r: (ButtonState, Core))
    ensures r.0 == b.(curState := TargetState(c, inp))
    // a transition plays exactly when the state changes, and it is the new state's
    ensures b.curState == TargetState(c, inp) ==> r.1 == c
    ensures b.curState != TargetState(c, inp) ==>
      r.1 == SetTransition(c, TransitionFor(b, TargetState(c, inp)), 0.0)
  {
    if IsHovered(inp.mousePos, c.renderPos, c.renderSize) then
      if inp.pressed then
        if b.curState != 2 then (b.(curState := 2), SetTransition(c, b.hold, 0.0)) else (b, c)
      else if b.curState != 1 then (b.(curState := 1), SetTransition(c, b.hover, 0.0))
      else (b, c)
    else if b.curState != 0 then (b.(curState := 0), SetTransition(c, b.base, 0.0))
    else (b, c)
  }

  /** Staying in one state never restarts its transition: a second step with
      the same inputs leaves the element alone. */
  lemma StableStateNoRestart(b: ButtonState, c: Core, inp: Input)
    ensures var (b1, c1) := ButtonStep(b, c, inp);
      ButtonStep(b1, c1, inp) == (b1, c1)
  {
  }

  /** After `UpdateTransitions` the next step always installs the transition
      of the state the inputs call for. */
  lemma RefreshAlwaysApplies(b: ButtonState, c: Core, inp: Input)
    ensures ButtonStep(UpdateTransitions(b), c, inp).1 ==
      SetTransition(c, TransitionFor(b, TargetState(c, inp)), 0.0)
  {
  }

  /** A release over the button calls its callback with its id, provided it
      has one and is active. */
  function ButtonEvent(b: ButtonState, c: Core, ev: Event, inp: Input): (effects: seq<Effect>)
    ensures effects == [] || effects == [ButtonClicked(b.callbackId)]
    ensures effects != [] <==>
      ev == MouseRelease && CoreHovered(c, inp.mousePos) && b.hasCallback && c.active
  {
    if ev.MouseRelease? && IsHovered(inp.mousePos, c.renderPos, c.renderSize) then
      if b.hasCallback && c.active then [ButtonClicked(b.callbackId)] else []
    else []
  }
}
