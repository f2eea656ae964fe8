/** A text box's editing state: an integer cursor and a signed selection
    length over its text, edited by arrow, delete and character events, and
    moved by dragging the mouse. The selection runs from the cursor to
    `cursor + hl`; the drag anchor is the cursor index where the current drag
    began. */
module TextBoxes {
  import opened Geometry
  import opened Events
  import opened Elements

  datatype TextBoxState = TextBoxState(
    text: string,
    cursor: int,
    hl: int,
    focus: bool,
    highlighting: bool,
    anchor: int)

  /** The range condition the substring calls rely on: the cursor and the
      far end of the selection both lie within the text. */
  predicate Valid(s: TextBoxState) {
    0 <= s.cursor <= |s.text| && 0 <= s.cursor + s.hl <= |s.text|
  }

  /** A new box has no focus, no selection and its cursor at the start. */
  function NewTextBox(text: string): (s: TextBoxState)
    ensures Valid(s) && !s.focus && !s.highlighting
    ensures s.text == text && s.cursor == 0 && s.hl == 0
  {
    TextBoxState(text, 0, 0, false, false, 0)
  }

  /** The left and right edges of the selection. */
  function SelStart(s: TextBoxState): int {
    if s.hl < 0 then s.cursor + s.hl else s.cursor
  }

  function SelEnd(s: TextBoxState): int {
    if s.hl > 0 then s.cursor + s.hl else s.cursor
  }

  /** The selected text; with no selection, the whole text. */
  function GetHighlighted(s: TextBoxState): (r: string)
    requires Valid(s)
    ensures s.hl == 0 ==> r == s.text
    ensures s.hl != 0 ==> r == s.text[SelStart(s)..SelEnd(s)] && |r| == (if s.hl < 0 then -s.hl else s.hl)
  {
    if s.hl == 0 then s.text
    else if s.hl < 0 then s.text[s.cursor + s.hl..s.cursor]
    else s.text[s.cursor..s.cursor + s.hl]
  }

  /** The cursor and selection after the arrow key's own movement: right and
      left step by one within the text and drag the selection's far end with
      them; end and home jump and select back to the old cursor. */
  function ArrowMove(s: TextBoxState, dir: int): (int, int) {
    if dir == 0 then (if s.cursor < |s.text| then (s.cursor + 1, s.hl - 1) else (s.cursor, s.hl))
    else if dir == 1 then (if s.cursor > 0 then (s.cursor - 1, s.hl + 1) else (s.cursor, s.hl))
    else if dir == 2 then (|s.text|, s.cursor - |s.text|)
    else if dir == 3 then (0, s.cursor)
    else (s.cursor, s.hl)
  }

  /** An arrow key. With shift the movement extends the selection; without it
      the selection is dropped, and if there was one the cursor lands on its
      edge in the direction of travel. */
  function Arrow(s: TextBoxState, dir: int, shift: bool): (r: TextBoxState)
    requires Valid(s)
    ensures Valid(r)
    ensures r == s.(cursor := r.cursor, hl := r.hl)
    // with shift, a step keeps the selection's far end; a jump selects back to the old cursor
    ensures shift && (dir == 0 || dir == 1) ==> r.cursor + r.hl == s.cursor + s.hl
    ensures shift && (dir == 2 || dir == 3) ==> r.cursor + r.hl == s.cursor
    ensures shift && dir == 0 ==> r.cursor == if s.cursor < |s.text| then s.cursor + 1 else s.cursor
    ensures shift && dir == 1 ==> r.cursor == if s.cursor > 0 then s.cursor - 1 else s.cursor
    ensures (dir == 2 ==> r.cursor == |s.text| || (!shift && s.hl != 0))
    ensures (dir == 3 ==> r.cursor == 0 || (!shift && s.hl != 0))
    ensures !shift ==> r.hl == 0
    ensures !shift && s.hl != 0 ==>
      r.cursor == (if dir == 0 || dir == 2 then SelEnd(s) else if dir == 1 || dir == 3 then SelStart(s) else s.cursor)
    ensures !shift && s.hl == 0 ==> r.cursor == ArrowMove(s, dir).0
  {
    var (c1, h1) := ArrowMove(s, dir);
    if shift then s.(cursor := c1, hl := h1)
    else
      var c2 :=
        if (s.cursor - c1 < 0 && s.hl > 0) || (s.cursor - c1 > 0 && s.hl < 0) then s.cursor + s.hl
        else if s.hl != 0 then s.cursor
        else c1;
      s.(cursor := c2, hl := 0)
  }

  /** The span an edit replaces and where the cursor goes first: the
      selection when there is one, otherwise the empty span at the cursor. */
  function EditSpan(s: TextBoxState): (r: (int, int))
    requires Valid(s)
    ensures 0 <= r.0 <= r.1 <= |s.text|
    ensures r == (SelStart(s), SelEnd(s))
  {
    if s.hl < 0 then (s.cursor + s.hl, s.cursor)
    else if s.hl > 0 then (s.cursor, s.cursor + s.hl)
    else (s.cursor, s.cursor)
  }

  /** Delete or backspace: removes the selection, or without one the
      character before (backspace) or after (delete) the cursor. */
  function Delete(s: TextBoxState, backspace: bool): (r: TextBoxState)
    requires Valid(s)
    ensures Valid(r) && r.hl == 0
    ensures r == s.(text := r.text, cursor := r.cursor, hl := 0)
    ensures s.hl != 0 ==>
      r.text == s.text[..SelStart(s)] + s.text[SelEnd(s)..] && r.cursor == SelStart(s)
    ensures s.hl == 0 && backspace && s.cursor > 0 ==>
      r.text == s.text[..s.cursor - 1] + s.text[s.cursor..] && r.cursor == s.cursor - 1
    ensures s.hl == 0 && !backspace && s.cursor < |s.text| ==>
      r.text == s.text[..s.cursor] + s.text[s.cursor + 1..] && r.cursor == s.cursor
    // nothing to delete at either end of the text
    ensures s.hl == 0 && (if backspace then s.cursor == 0 else s.cursor == |s.text|) ==> r == s
  {
    var (start0, end0) := EditSpan(s);
    var cur0 := start0;
    var (start, end, cur) :=
      if s.hl != 0 then (start0, end0, cur0)
      else if backspace then (if s.cursor > 0 then (start0 - 1, end0, cur0 - 1) else (start0, end0, cur0))
      else (if s.cursor < |s.text| then (start0, end0 + 1, cur0) else (start0, end0, cur0));
    assert s.text[..start] + s.text[start..] == s.text;
    s.(text := s.text[..start] + s.text[end..], cursor := cur, hl := 0)
  }

  /** The byte a character event's code point becomes when cast to `char`
      and stored in the box's byte string: its low eight bits. A code below
      256 is kept; a larger one is reduced modulo 256. */
  function ByteOf(ch: char): (b: char)
    ensures b as int < 256
    ensures ch as int < 256 ==> b == ch
    ensures (ch as int - b as int) % 256 == 0
  {
    (ch as int % 256) as char
  }

  /** A typed character replaces the selection, or is inserted at the
      cursor, and the cursor moves past it. What is stored is the low byte of
      the event's code point. */
  function Insert(s: TextBoxState, ch: char): (r: TextBoxState)
    requires Valid(s)
    ensures Valid(r) && r.hl == 0
    ensures r == s.(text := r.text, cursor := r.cursor, hl := 0)
    ensures r.text == s.text[..SelStart(s)] + [ByteOf(ch)] + s.text[SelEnd(s)..]
    ensures r.cursor == SelStart(s) + 1 && r.text[r.cursor - 1] == ByteOf(ch)
  {
    var (start, end) := EditSpan(s);
    s.(text := s.text[..start] + [ByteOf(ch)] + s.text[end..], cursor := start + 1, hl := 0)
  }

  /** Typing U+0141 (a Latin capital L with stroke) stores 'A', its low
      byte. */
  lemma WideCodeTruncated()
    ensures Insert(NewTextBox(""), 0x141 as char).text == "A"
  {
  }

  /** A mouse release ends a drag, and drops the focus unless the release
      ends a drag or is over the box. */
  function Release(s: TextBoxState, hovered: bool): (r: TextBoxState)
    ensures !r.highlighting
    ensures r.focus <==> s.focus && (s.highlighting || hovered)
    ensures r == s.(focus := r.focus, highlighting := false)
  {
    s.(focus := if !s.highlighting && !hovered then false else s.focus, highlighting := false)
  }

  /** The event handler: the release is handled whatever the focus; the key
      events only while the box has focus. The shift key comes from the
      shared input state. */
  function HandleEvent(s: TextBoxState, c: Core, ev: Event, inp: Input): (r: TextBoxState)
    requires Valid(s)
    ensures Valid(r)
    ensures r.anchor == s.anchor
    ensures !s.focus && !ev.MouseRelease? ==> r == s
    ensures ev.NoEvent? ==> r == s
    ensures ev.MouseRelease? ==> r == Release(s, CoreHovered(c, inp.mousePos))
    ensures !ev.MouseRelease? ==> r.focus == s.focus && r.highlighting == s.highlighting
    ensures s.focus && ev.ArrowKeyPress? ==> r == Arrow(s, ev.dir, inp.shift)
    ensures s.focus && ev.DeleteKeyPress? ==> r == Delete(s, ev.backspace)
    ensures s.focus && ev.Character? ==> r == Insert(s, ev.ch)
  {
    match ev
    case NoEvent => s
    case MouseRelease => Release(s, IsHovered(inp.mousePos, c.renderPos, c.renderSize))
    case ArrowKeyPress(dir) => if s.focus then Arrow(s, dir, inp.shift) else s
    case DeleteKeyPress(backspace) => if s.focus then Delete(s, backspace) else s
    case Character(ch) => if s.focus then Insert(s, ch) else s
  }

  /** Deleting a selection is undone by putting the selected text back at the
      cursor. */
  lemma DeleteRemovesHighlighted(s: TextBoxState, backspace: bool)
    requires Valid(s) && s.hl != 0
    ensures var r := Delete(s, backspace);
      s.text == r.text[..r.cursor] + GetHighlighted(s) + r.text[r.cursor..] &&
      |r.text| == |s.text| - |GetHighlighted(s)|
  {
    var r := Delete(s, backspace);
    var a, b := SelStart(s), SelEnd(s);
    assert r.text[..r.cursor] == s.text[..a];
    assert r.text[r.cursor..] == s.text[b..];
    assert s.text == s.text[..a] + s.text[a..b] + s.text[b..];
  }

  /** Typing over a selection is deleting it (with either key) and then
      typing. */
  lemma TypeOverSelection(s: TextBoxState, backspace: bool, ch: char)
    requires Valid(s) && s.hl != 0
    ensures Insert(s, ch) == Insert(Delete(s, backspace), ch)
  {
    var d := Delete(s, backspace);
    var a := SelStart(s);
    assert d.text[..a] == s.text[..a];
    assert d.text[a..] == s.text[SelEnd(s)..];
  }

  /** Backspace undoes a typed character: with no selection it restores the
      box exactly; with one, it leaves what a plain delete of the selection
      would. */
  lemma BackspaceUndoesInsert(s: TextBoxState, ch: char)
    requires Valid(s)
    ensures s.hl == 0 ==> Delete(Insert(s, ch), true) == s
    ensures s.hl != 0 ==> Delete(Insert(s, ch), true) == Delete(s, false)
  {
    var i := Insert(s, ch);
    var a, b := SelStart(s), SelEnd(s);
    assert i.text[..a] == s.text[..a];
    assert i.text[a + 1..] == s.text[b..];
    assert s.hl == 0 ==> s.text[..a] + s.text[b..] == s.text;
  }

  /** Shift-right then shift-left, away from the end of the text, returns to
      the same cursor and selection. */
  lemma ShiftStepsCancel(s: TextBoxState)
    requires Valid(s) && s.cursor < |s.text|
    ensures Arrow(Arrow(s, 0, true), 1, true) == s
  {
  }

  /** Home pressed twice then shift-end selects the whole text, so the next
      character replaces all of it. (The first home only collapses a
      selection onto its left edge.) */
  lemma HomeShiftEndSelectsAll(s: TextBoxState, ch: char)
    requires Valid(s) && |s.text| > 0
    ensures var t := Arrow(Arrow(Arrow(s, 3, false), 3, false), 2, true);
      t.hl != 0 && GetHighlighted(t) == s.text && Insert(t, ch).text == [ByteOf(ch)]
  {
    var h := Arrow(Arrow(s, 3, false), 3, false);
    assert h.cursor == 0;
    var t := Arrow(h, 2, true);
    assert t.cursor == |s.text| && t.cursor + t.hl == h.cursor;
  }

  /** Without shift, end with a selection stops at the selection's right
      edge rather than at the end of the text. */
  lemma EndCollapsesToSelection()
    ensures Arrow(TextBoxState("abcd", 1, 1, true, false, 0), 2, false).cursor == 2
  {
  }

  /** The mouse part of the box's update, as written: a press over the box
      takes the focus and starts a drag anchored at the index under the
      cursor (`at`, an index into the text); while dragging, the cursor
      follows the mouse and the selection runs back to the anchor. The anchor
      is kept from the press, whatever edits happen during the drag. */
  function PointerStepAsWritten(s: TextBoxState, pressedOver: bool, at: int): (r: TextBoxState)
    requires 0 <= at <= |s.text|
    ensures pressedOver ==> r.focus && r.highlighting && r.cursor == at && r.hl == 0 && r.anchor == at
    ensures r.highlighting ==> r.cursor == at && r.cursor + r.hl == r.anchor
    ensures !pressedOver && !s.highlighting ==> r == s
    ensures r.text == s.text
  {
    var s1 := if pressedOver then s.(highlighting := true, focus := true, anchor := at) else s;
    if s1.highlighting then s1.(cursor := at, hl := s1.anchor - at) else s1
  }

  /** A drag over "abc" from index 3 back to 0 selects all of it; deleting
      the selection during the drag empties the text, and the next update
      puts the selection's far end at the stale anchor, past the end of the
      text, where the next edit's substring call is out of range. */
  lemma StaleAnchorLeavesRange()
    ensures var s0 := PointerStepAsWritten(NewTextBox("abc"), true, 3);
      var s1 := PointerStepAsWritten(s0, false, 0);
      var s2 := HandleEvent(s1, NewCore(DefaultCoordinate, DefaultCoordinate, DefaultDimension, DefaultDimension),
                            DeleteKeyPress(true), Input(Vec2(0.0, 0.0), true, true, false, false, false));
      Valid(s1) && s2.text == [] && s2.highlighting &&
      !Valid(PointerStepAsWritten(s2, false, 0))
  {
    var s0 := PointerStepAsWritten(NewTextBox("abc"), true, 3);
    var s1 := PointerStepAsWritten(s0, false, 0);
    assert s1.cursor == 0 && s1.hl == 3;
    assert Delete(s1, true).text == "abc"[..0] + "abc"[3..];
  }

  /** The mouse step with the anchor clamped into the current text, so that
      an edit during a drag cannot leave the selection past its end. */
  function PointerStep(s: TextBoxState, pressedOver: bool, at: int): (r: TextBoxState)
    requires Valid(s) && 0 <= at <= |s.text|
    ensures Valid(r) && r.text == s.text
    ensures pressedOver ==> r.focus && r.highlighting && r.cursor == at && r.hl == 0 && r.anchor == at
    ensures r.highlighting ==> r.cursor == at && r.cursor + r.hl == r.anchor && 0 <= r.anchor <= |s.text|
    ensures !pressedOver && !s.highlighting ==> r == s
  {
    var s1 := if pressedOver then s.(highlighting := true, focus := true, anchor := at) else s;
    var a := if s1.anchor < 0 then 0 else if s1.anchor > |s.text| then |s.text| else s1.anchor;
    if s1.highlighting then s1.(cursor := at, hl := a - at, anchor := a) else s1
  }

  /** The clamp changes nothing while the anchor is still inside the text. */
  lemma PointerStepAgrees(s: TextBoxState, pressedOver: bool, at: int)
    requires Valid(s) && 0 <= at <= |s.text|
    requires pressedOver || 0 <= s.anchor <= |s.text|
    ensures PointerStep(s, pressedOver, at) == PointerStepAsWritten(s, pressedOver, at)
  {
  }

  /** The box's input handling in its per-frame update, as written: a fresh
      press over the box (its rectangle from the previous frame) starts a drag
      at `at`, the index under the cursor, and a drag in progress follows it
      with the selection running back to the anchor of the press. The range
      invariant survives exactly when the frame starts a drag or the anchor
      still lies inside the text; in that case the frame is the corrected
      step. */
  function FrameInput(s: TextBoxState, c: Core, inp: Input, at: int): (r: TextBoxState)
    requires 0 <= at <= |s.text|
    ensures r.text == s.text
    ensures PressEdge(inp) && CoreHovered(c, inp.mousePos) ==>
      Valid(r) && r.focus && r.highlighting && r.cursor == at && r.hl == 0 && r.anchor == at
    ensures !inp.pressed && !s.highlighting ==> r == s
    ensures r.highlighting && !s.highlighting ==> PressEdge(inp) && IsHovered(inp.mousePos, c.renderPos, c.renderSize)
    ensures r.highlighting ==> r.cursor == at && r.cursor + r.hl == r.anchor
    ensures !(PressEdge(inp) && CoreHovered(c, inp.mousePos)) && s.highlighting ==>
      (Valid(r) <==> 0 <= s.anchor <= |s.text|)
    ensures Valid(s) && 0 <= s.anchor <= |s.text| ==>
      Valid(r) && r == PointerStep(s, PressEdge(inp) && CoreHovered(c, inp.mousePos), at)
  {
    var pressedOver := PressEdge(inp) && CoreHovered(c, inp.mousePos);
    assert Valid(s) && 0 <= s.anchor <= |s.text| ==>
        PointerStep(s, pressedOver, at) == PointerStepAsWritten(s, pressedOver, at) by {
      if Valid(s) && 0 <= s.anchor <= |s.text| { PointerStepAgrees(s, pressedOver, at); }
    }
    PointerStepAsWritten(s, pressedOver, at)
  }
}
