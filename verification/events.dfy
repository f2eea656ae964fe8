/** Input notifications and the frame's input snapshot. The source keeps the
    cursor, button and modifier state in process-wide statics; here it is one
    explicit record threaded through update and event handling. */
module Events {
  import opened Geometry

  /** The events the widgets react to. A default-constructed event is `NoEvent`.
      Arrow directions are 0 = right, 1 = left, 2 = end, 3 = home. */
  datatype Event =
    | NoEvent
    | MouseRelease
    | ArrowKeyPress(dir: int)
    | DeleteKeyPress(backspace: bool)
    | Character(ch: char)

  const DefaultEvent: Event := NoEvent

  /** The shared input state: cursor position (origin at the screen centre,
      y growing downwards), the main button now and on the previous call, the
      any-hovered flag, and the modifier keys. */
  datatype Input = Input(
    mousePos: Vec2,
    pressed: bool,
    pressedLast: bool,
    anyHovered: bool,
    shift: bool,
    ctrl: bool)

  /** Records a new cursor position and button state: the old button state
      becomes the previous one and the any-hovered flag starts over. */
  function SetMouseState(inp: Input, pos: Vec2, pressed: bool): (r: Input)
    ensures r.mousePos == pos && r.pressed == pressed
    ensures r.pressedLast == inp.pressed
    ensures !r.anyHovered
    ensures r.shift == inp.shift && r.ctrl == inp.ctrl
  {
    Input(pos, pressed, inp.pressed, false, inp.shift, inp.ctrl)
  }

  /** Records the modifier keys, leaving the mouse state alone. */
  function SetControlKeyState(inp: Input, shift: bool, ctrl: bool): (r: Input)
    ensures r.shift == shift && r.ctrl == ctrl
    ensures r.(shift := inp.shift, ctrl := inp.ctrl) == inp
  {
    inp.(shift := shift, ctrl := ctrl)
  }

  /** The button went down since the previous mouse-state call. */
  predicate PressEdge(inp: Input) {
    inp.pressed && !inp.pressedLast
  }

  /** A press is an edge only once: recording the same button state again
      (the cursor may have moved) clears the edge. */
  lemma PressEdgeOnce(inp: Input, p1: Vec2, p2: Vec2)
    ensures PressEdge(SetMouseState(inp, p1, true)) <==> !inp.pressed
    ensures !PressEdge(SetMouseState(SetMouseState(inp, p1, true), p2, true))
  {
  }
}
