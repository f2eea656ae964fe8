# DoonUI core in Dafny

DoonUI is a small retained-mode UI toolkit: a tree of elements laid out
relative to their parents, animated by transitions, drawn with a
multiplicative alpha, and driven by a shared mouse and keyboard state. This
project models its core as immutable datatypes and pure functions over
`real` and `string`, and proves what the code promises about each piece.

- **Options**: the `Option` type used for absent values.
- **Geometry**: vectors, linear interpolation, and the two layout
  primitives. `CalcRenderPos` resolves a `Coordinate` (relative fraction or
  pixel offset, anchored at an element's min edge, centre or max edge).
  `CalcRenderSize` resolves a `Dimension` (relative, pixels, aspect or
  space). Each type keeps a single parameter slot, as the source's union
  does.
- **Events**: the event kinds and the shared input record (cursor, button
  now and on the previous frame, the any-hovered flag, modifier keys).
  These are static globals in the source and an explicit value here.
- **Transitions**: the animation engine. It holds a registry of
  components keyed by an enumerated field selector, which replaces the
  source's byte offsets. `SetTarget` is `get_component` plus
  `set_target_*`. `Init` snapshots the originals, and `Update` runs the
  Delayed / Animating / Finished machine with capped progress, easing,
  in-flight values rewritten as pixels, and an exact snap on the finishing
  frame.
- **Elements**: the common element state (`Core`). It covers size-then-
  position resolution with the one-way aspect coupling, the hover test,
  `set_transition`, the per-frame self update, and a box's draw call. A
  box's colours, corner radius, angle and outline thickness live in its
  element's float and vec4 slots, so a transition can animate them as the
  source does through `offsetof`; a label's colours, thickness and softness
  do the same.
- **Buttons**, **Checkboxes**, **Texts**, **Sliders**: the widgets' own
  per-frame and event logic. Sliders hold an integer, float or double
  number.
- **Tree**: the element tree and its three traversals.
  - Update: each node resolves its own work, size, position and transition
    before its children, which are laid out in its rectangle.
  - Render: a node draws itself before its children, and alpha multiplies
    down the tree.
  - Event dispatch: an event is broadcast to every node and never consumed.
- **Lists**: a list container's id-keyed item registry.
- **TextBoxes**: the text box's editing machine. It holds an integer cursor
  and a signed selection length over the text, edited by arrow, delete and
  character events and moved by mouse dragging.
- **Measure**: glyph-metric text measurement. It covers one line's size and
  per-character pen spans, and the greedy word-wrap loop that counts lines.
- **ColorSelectors**: the colour picker.
  - HSV to RGB through six hue sectors, and RGB to HSV.
  - The hue/saturation clamp.
  - The selector's frame: the drag latch, reading the bound colour back,
    placing the button, and writing the colour out.

Mouse positions, frame times and the C library's `powf` are parameters. A
text box's "index under the cursor" (`get_cursor_pos`) is the parameter
`at` of its pointer step. The slider value a colour selector reads from its
value slider is the parameter `sliderValue`.

The sources are not one consistent version: some headers name members and
event kinds differently from the `.cpp` bodies that use them. The model
follows the `.cpp` bodies and takes only default values from the headers.

## Model

| member | source | states |
|---|---|---|
| Geometry.Lerp | src/DoonUI/utility.cpp:200-203 | interpolation returns the start at 0 and the end at 1 |
| Geometry.SafeDiv | src/DoonUI/elements/slider.cpp:141 | a division by a span that may be zero: the quotient times a non-zero divisor gives back the dividend; a zero divisor gives 0 |
| Geometry.Trunc | src/DoonUI/elements/slider.cpp:116 | the `(int)` cast rounds toward zero: for non-negative x the result is the largest integer not above x, for negative x the smallest not below it |
| Geometry.CalcRenderPos | src/DoonUI/utility.cpp:13-47 | a relative coordinate puts the element's anchor point at fraction `param` across the parent from its min edge; a pixel coordinate puts the element's min edge, centre or max edge `param` pixels inward from the parent's matching point |
| Geometry.DefaultCoordinateCentres | src/DoonUI/utility.hpp:21-33 | a default coordinate (relative, centred, 0.5) centres the element on its parent |
| Geometry.ZeroOffsetIsHalfFraction | src/DoonUI/utility.cpp:21-37 | a centred pixel offset of 0 resolves where a centred fraction of 0.5 does |
| Geometry.PositionTranslates | src/DoonUI/utility.cpp:13-47 | moving the parent by d moves the resolved position by d, which is why interpolation can resolve against a zero baseline |
| Geometry.CalcRenderSize | src/DoonUI/utility.cpp:57-70 | pixels give `param`; relative gives parent times `param`; space leaves `param` pixels of the parent free; aspect falls back to the parent extent |
| Geometry.SpaceCanBeNegative | src/DoonUI/utility.cpp:65-66 | a space margin larger than the parent yields a negative size |
| Geometry.SharedSlot | src/DoonUI/utility.hpp:31-61 | coordinates and dimensions keep one parameter in a union, so changing only the kind reinterprets the same number: a centred coordinate reads it as a fraction or as pixels, a dimension as a fraction, a pixel size independent of the parent, or a margin; the default dimension (relative, 1.0) fills the parent axis |
| Events.SetMouseState | src/DoonUI/element.cpp:20-27 | records the cursor and button, moves the old button state into the previous-frame flag, clears the any-hovered flag and keeps the modifiers |
| Events.SetControlKeyState | src/DoonUI/elements/textbox.cpp:39-43 | sets the shift and ctrl flags and nothing else |
| Events.PressEdgeOnce | src/DoonUI/element.cpp:20-27 | a press is an edge exactly when the button was up before, and holding it a second frame is never an edge |
| Transitions.Read | src/DoonUI/utility.cpp:165-198 | a field reads back exactly when the element has it, and the value has the kind the field stores |
| Transitions.Write | src/DoonUI/utility.cpp:262-300 | writing a fitting value to an existing field makes it read back; any other write changes nothing; the element's shape never changes |
| Transitions.WriteLeavesOthers | src/DoonUI/utility.cpp:262-300 | a write to one field leaves every other field's value unchanged |
| Transitions.NewTransition | src/DoonUI/utility.hpp:96-105 | a new transition is the default one (nothing animated, progress 0, no delay) with the given duration and easing |
| Transitions.FindComponent | src/DoonUI/utility.cpp:87-96 | the scan stops at the first component for the field, or at the end when there is none |
| Transitions.Lookup | src/DoonUI/utility.cpp:87-96 | a component is found exactly when the registry holds one for the field, and it is for that field |
| Transitions.SetTarget | src/DoonUI/utility.cpp:87-163 | re-targeting a registered field overwrites its target in place; otherwise exactly one component is appended; other components, every original, and the progress, delay, duration and easing are unchanged |
| Transitions.SetTargetKeepsRegistry | src/DoonUI/utility.cpp:87-106 | the registry keeps at most one component per field, and stays well typed when the new target fits its field |
| Transitions.RetargetOverrides | src/DoonUI/utility.cpp:87-106 | targeting a field twice equals targeting it once with the later value |
| Transitions.Init | src/DoonUI/utility.cpp:165-198 | init sets the delay and snapshots each component's field from the element as its original; targets, progress, duration and easing are untouched |
| Transitions.InitCapturesAll | src/DoonUI/utility.cpp:165-198 | after init every component has an original, and a keyed, well-typed registry stays so |
| Transitions.Advance | src/DoonUI/utility.cpp:232-234 | progress grows by dt/time and is capped at 1 |
| Transitions.Ease | src/DoonUI/utility.cpp:240-256 | every curve maps progress 1 to 1 and progress 0 to 0 (exponential when `powf(2, 0)` is 1); linear is the identity |
| Transitions.EaseBounded | src/DoonUI/utility.cpp:243-248 | quadratic and cubic easing stay within [progress, 1] on [0, 1] |
| Transitions.AnimatedSize | src/DoonUI/utility.cpp:283-284 | an aspect size resolves to the other axis times the ratio; any other size resolves against the parent |
| Transitions.OriginalOr | src/DoonUI/utility.cpp:262-300 | a component animates from its original, or from its target when no original was captured, always in the target's kind |
| Transitions.NewValue | src/DoonUI/utility.cpp:262-300 | on the finishing frame a field gets its exact target, and a fitting target always yields a fitting value |
| Transitions.ApplyAll | src/DoonUI/utility.cpp:260-304 | applying the components never changes the element's shape |
| Transitions.Update | src/DoonUI/utility.cpp:220-309 | while delayed only the delay counts down and nothing is written; otherwise progress advances and is capped, the call reports running exactly while progress is below 1, and the registry never changes |
| Transitions.UpdateLeavesOthers | src/DoonUI/utility.cpp:260-304 | a field without a component is never written |
| Transitions.UpdateFinishSnaps | src/DoonUI/utility.cpp:236-300 | on the finishing frame every animated field holds exactly its target, with its original kind and anchor |
| Transitions.UpdateInFlightCoord | src/DoonUI/utility.cpp:267-276 | before finishing, an animated x or y position is a centred pixel coordinate at the eased interpolation of its original and target, both resolved against the parent's extent and the element's size on that position's own axis |
| Transitions.UpdateInFlightSize | src/DoonUI/utility.cpp:278-287 | before finishing, an animated width or height is a pixel size at the eased interpolation of its original and target, resolved against the parent's extent on the same axis, with an aspect side resolved against the element's size on the other axis |
| Transitions.RetargetNoJump | src/DoonUI/utility.cpp:272-275 | an in-flight coordinate at eased progress 0 resolves exactly where its original did |
| Transitions.FloatScenario | src/DoonUI/utility.cpp:141-309 | a one-second linear float animation from 0 to 10 reads 5 and is running after 500 ms, then reads 10 and has stopped after another 500 ms |
| Transitions.ApplyOne | src/DoonUI/utility.cpp:260-304 | applying a single component is one write of its new value |
| Elements.NewCore | src/DoonUI/element.cpp:6-12 | a new element keeps its layout and starts opaque, active and not animating, with the default transition |
| Elements.ElementSize | src/DoonUI/element.cpp:63-77 | an aspect width follows the resolved height; otherwise an aspect height follows the resolved width; otherwise the axes resolve independently |
| Elements.AspectCouplingOneWay | src/DoonUI/element.cpp:63-77 | the size depends only on the parent axis the source reads: the height's axis for an aspect width, the width's axis for an aspect height, its own axis otherwise |
| Elements.AspectExample | src/DoonUI/element.cpp:65-69 | width aspect 2 and height relative 0.5 in a 400 by 200 parent resolve to 200 by 100 |
| Elements.BothAspectWidthWins | src/DoonUI/element.cpp:65-69 | when both axes are aspect, the width branch wins and the height is the parent's |
| Elements.IsHovered | src/DoonUI/element.cpp:84-88 | the cursor is strictly inside the rectangle, with the y axis flipped |
| Elements.HoverBoundaries | src/DoonUI/element.cpp:84-88 | a zero-size element and a point on the left or right edge are never hovered; the centre is hovered exactly when the size is positive |
| Elements.SetTransition | src/DoonUI/element.cpp:56-61 | setting a transition starts it animating with the given delay and snapshots the element's fields as originals, changing nothing else |
| Elements.UpdateSelf | src/DoonUI/element.cpp:29-82 | size is resolved against the parent, then position with that size, then the transition runs on the new size; a stopped element keeps its fields |
| Elements.AnimationShowsNextFrame | src/DoonUI/element.cpp:31-35 | the rectangle is resolved before the transition writes the fields, so this frame's animation shows only on the next frame |
| Elements.StoppedStaysStopped | src/DoonUI/element.cpp:34-35 | once a transition has stopped, any number of frames leave the fields and transition alone |
| Elements.DelayedWritesNothing | src/DoonUI/utility.cpp:224-228 | during a transition's delay the element's fields are untouched and the delay counts down |
| Elements.MinAnchorTouchesParentEdge | src/DoonUI/utility.cpp:31-41 | a min-anchored zero pixel offset puts the element's min edge on the parent's min edge |
| Elements.Fade | src/DoonUI/elements/box.cpp:17-18 | fading scales only the alpha channel: factor 1 keeps the colour and factor 0 makes it transparent |
| Elements.NewBoxCore | src/DoonUI/elements/box.cpp:3-13 | a box's element is a new core whose style slots hold the given colours, corner radius, angle and outline thickness, with the layout and everything else as a new element's |
| Elements.CurrentStyle | src/DoonUI/elements/box.cpp:15-20 | a box draws the style its fields hold now: each colour and number is what its slot reads, the stored style only where the element has no such slot, and the texture as stored |
| Elements.NewBoxKeepsStyle | src/DoonUI/elements/box.cpp:3-13 | a new box draws exactly the style it was built with |
| Elements.BoxDraw | src/DoonUI/elements/box.cpp:15-20 | a box draws at its resolved rectangle with its current texture, angle, radius and thickness, and both current colours' alpha multiplied by its own and its parent's |
| Elements.FinishedColourDrawn | src/DoonUI/utility.cpp:298-300 | on the frame a running transition with a fill-colour component finishes, the box draws exactly the target colour, faded by the alpha multipliers, whatever style its node stores |
| Buttons.NewButton | src/DoonUI/elements/button.hpp:45 | a new button starts in state 0 |
| Buttons.UpdateTransitions | src/DoonUI/elements/button.cpp:15-18 | the refresh puts the button in no valid state and changes nothing else |
| Buttons.ButtonStep | src/DoonUI/elements/button.cpp:20-45 | the state becomes held, hovered or idle from the previous frame's rectangle, and that state's transition plays exactly when the state changes |
| Buttons.StableStateNoRestart | src/DoonUI/elements/button.cpp:27-39 | a second frame with the same input changes nothing, so a transition never restarts |
| Buttons.RefreshAlwaysApplies | src/DoonUI/elements/button.cpp:15-18 | after a refresh the next step always plays the current state's transition |
| Buttons.ButtonEvent | src/DoonUI/elements/button.cpp:48-56 | the callback fires, once and with the button's id, exactly on a release over an active button that has a callback |
| Checkboxes.CheckboxTexture | src/DoonUI/elements/checkbox.cpp:18-21 | a checked box shows the checked texture and an unchecked one the unchecked texture; without a bound value the texture is kept |
| Checkboxes.CheckboxEvent | src/DoonUI/elements/checkbox.cpp:26-35 | a release over an active box with a bound value flips it once, plays the check or uncheck transition for the new value, and reports (id, new value, user data) to a callback; anything else changes nothing |
| Checkboxes.DoubleToggleRestores | src/DoonUI/elements/checkbox.cpp:28-30 | two qualifying releases restore the value |
| Checkboxes.TextureFollowsToggle | src/DoonUI/elements/checkbox.cpp:18-31 | after a toggle the next update shows the texture of the new value |
| Texts.NewText | src/DoonUI/elements/text.cpp:3-21 | the given dimension becomes the width, the height is relative 1.0, the text parameters are stored, and the colours, thickness and softness values are in the label's style slots |
| Texts.CurrentTextStyle | src/DoonUI/elements/text.cpp:55-60 | a label draws the style its fields hold now: each colour, thickness and softness is what its slot reads, the stored value only where the element has no such slot, and everything else as stored |
| Texts.NewTextKeepsStyle | src/DoonUI/elements/text.cpp:3-21 | a new label draws exactly the style it was built with |
| Texts.TextSizing | src/DoonUI/elements/text.cpp:23-50 | the height becomes pixels; without wrapping an automatic scale fits the measured line to the width, a fixed scale sets the width to the measured line, and the height is one line; with wrapping the scale maps the wrap width onto the width and the height is the wrapped height with the corrected line count; nothing else changes |
| Texts.AutoScaleFillsWidth | src/DoonUI/elements/text.cpp:28-29 | with automatic scaling and no wrap, the line measured at the chosen scale is exactly as wide as the label |
| Texts.WrappedHeight | src/DoonUI/elements/text.cpp:43-49 | a wrapped label is its corrected line count times the scaled atlas height tall, and a non-empty text is at least one line tall |
| Texts.TextDraw | src/DoonUI/elements/text.cpp:55-60 | a label with a font draws its string once with its current style, both colours faded like a box's; without a font it draws nothing |
| Tree.NewBox | src/DoonUI/elements/box.cpp:3-13 | a box stores its style as given, with the animatable parts in its element's style slots, and draws that style |
| Tree.NewCheckbox | src/DoonUI/elements/checkbox.cpp:3-16 | a new checkbox starts with the unchecked texture and draws the given style otherwise |
| Tree.NewSlider | src/DoonUI/elements/slider.cpp:16-43 | a slider has a bar and then a handle button without a callback, both at default positions, sized for the slider's axis |
| Tree.MaxHeight | src/DoonUI/element.cpp:40-41 | the height bound covers every child (the termination measure of the traversals) |
| Tree.PreUpdate | src/DoonUI/elements/button.cpp:20-45 | each widget's own work before the element update touches only what that widget owns, and never the active flag |
| Tree.PreChildren | src/DoonUI/elements/slider.cpp:72-75 | a slider places its handle and hands its active flag to both children; other nodes leave their children alone |
| Tree.Update | src/DoonUI/element.cpp:29-42 | a frame keeps the number of children and keeps every label measurable |
| Tree.DefaultChildFillsParent | src/DoonUI/element.cpp:40-41 | a child with the default layout gets exactly the rectangle its parent resolved in the same frame |
| Tree.SliderUpdateOrder | src/DoonUI/elements/slider.cpp:66-78 | a slider first steps its latch and value, then places its handle and propagates its active flag, then updates itself, and then updates the handle in its new rectangle |
| Tree.Frame | src/DoonUI/element.cpp:20-38 | after a frame the any-hovered flag is set exactly when it was set before or some active node of the updated tree is hovered |
| Tree.InactiveNeverHovered | src/DoonUI/element.cpp:37-38 | a subtree with no active node never sets the any-hovered flag |
| Tree.Render | src/DoonUI/element.cpp:44-48 | a node's own draw calls come first, before any of its children's |
| Tree.FadeAll | src/DoonUI/elements/box.cpp:17-18 | fading a trace of draw calls keeps its length |
| Tree.FadeAllConcat | src/DoonUI/element.cpp:44-48 | fading distributes over the concatenation of traces |
| Tree.RenderScales | src/DoonUI/element.cpp:44-48 | rendering under parent alpha a times b is rendering under a and then fading every call by b: alpha composes multiplicatively down the tree |
| Tree.FadeTwice | src/DoonUI/elements/box.cpp:17-18 | fading by x and then by y is fading by x times y |
| Tree.FadeAllZero | src/DoonUI/elements/box.cpp:17-18 | fading by 0 makes every colour transparent |
| Tree.InvisibleSubtree | src/DoonUI/element.cpp:44-48 | an element with alpha multiplier 0 draws only transparent calls, children included |
| Tree.SelfEvent | src/DoonUI/elements/button.cpp:48-56 | a node's own reaction leaves its children alone, and only a mouse release does anything |
| Tree.HandleEvent | src/DoonUI/element.cpp:50-54 | dispatch keeps every node's children |
| Tree.HandleAll | src/DoonUI/element.cpp:50-54 | dispatch to a row of siblings keeps them all |
| Tree.OnlyReleaseActs | src/DoonUI/elements/button.cpp:50 | an event other than a mouse release leaves the whole tree alone and fires nothing |
| Tree.InactiveFiresNothing | src/DoonUI/elements/checkbox.cpp:28 | a subtree with no active node fires no callback |
| Tree.OverlappingButtonsBothFire | src/DoonUI/element.cpp:50-54 | events are never consumed: two overlapping buttons both fire on one release, in child order |
| Sliders.NewSliderState | src/DoonUI/elements/slider.cpp:10-14 | a new slider stores its number, range and axis, and is not being dragged |
| Sliders.AxesMirror | src/DoonUI/elements/slider.cpp:18-33 | the vertical layout mirrors the horizontal one: the bar fills the slider's length at half its thickness, and the handle is square on the thickness |
| Sliders.Store | src/DoonUI/elements/slider.cpp:110-121 | writing keeps the number's type; an integer truncates the written value |
| Sliders.CheckMoving | src/DoonUI/elements/slider.cpp:80-90 | releasing clears the drag latch, a fresh press over the slider sets it, and otherwise it keeps its value |
| Sliders.UpdateVal | src/DoonUI/elements/slider.cpp:124-156 | the new value keeps the number's type |
| Sliders.UpdateValEnds | src/DoonUI/elements/slider.cpp:136-143 | the cursor at the slider's min end gives the minimum and at its max end the maximum |
| Sliders.UpdateValMonotone | src/DoonUI/elements/slider.cpp:128-143 | moving the cursor along the slider never decreases the value |
| Sliders.Clamp | src/DoonUI/elements/slider.cpp:108 | the clamp lands in a non-empty range and keeps values already in it |
| Sliders.ClampVal | src/DoonUI/elements/slider.cpp:92-122 | a float or double is forced into a non-empty range and left alone when already inside it, keeping its type |
| Sliders.ClampIdempotent | src/DoonUI/elements/slider.cpp:108 | clamping a float twice is clamping it once |
| Sliders.IntClampCanFallBelowMin | src/DoonUI/elements/slider.cpp:116 | an integer clamped to a fractional minimum is truncated below it (0 for the range [0.5, 3]) |
| Sliders.IntClampIntegralBounds | src/DoonUI/elements/slider.cpp:108-116 | with integral bounds, a clamped integer stays within them |
| Sliders.SliderPos | src/DoonUI/elements/slider.cpp:174-175 | the handle coordinate is relative and centred, at 0 for the minimum, at 1 for the maximum, and within [0, 1] for values in range |
| Sliders.SetSliderPos | src/DoonUI/elements/slider.cpp:177-180 | the coordinate goes to the handle's y for a vertical slider and to its x otherwise; the rest of the handle is untouched |
| Sliders.SliderStep | src/DoonUI/elements/slider.cpp:66-72 | the latch is checked first; the value follows the cursor only while dragging an active slider; it is then clamped, so a float stays in a non-empty range |
| Sliders.InactiveSliderOnlyClamps | src/DoonUI/elements/slider.cpp:69-71 | an inactive slider only clamps its number |
| Sliders.ReleaseEndsDrag | src/DoonUI/elements/slider.cpp:82-83 | with the button up the drag ends and the number is only clamped |
| Sliders.DragToMaxEnd | src/DoonUI/elements/slider.cpp:66-143 | dragging an active float slider to its max end sets its number to the maximum |
| Lists.FirstIndex | src/DoonUI/elements/list.cpp:28-30 | the first position carrying the id |
| Lists.AddItem | src/DoonUI/elements/list.cpp:21-24 | adding appends the entry at the end and keeps the existing entries in order |
| Lists.GetItem | src/DoonUI/elements/list.cpp:26-33 | nothing is found exactly when no entry carries the id; otherwise the item of the first such entry |
| Lists.RemoveItem | src/DoonUI/elements/list.cpp:35-43 | removal erases only the first entry carrying the id and keeps the rest in order; an absent id changes nothing |
| Lists.RemoveShrinksIffPresent | src/DoonUI/elements/list.cpp:35-43 | the length drops by one exactly when the id is present |
| Lists.AddThenGet | src/DoonUI/elements/list.cpp:21-33 | after adding an item under a fresh id, looking the id up finds that item |
| Lists.AddDuplicateShadowed | src/DoonUI/elements/list.cpp:21-33 | an item added under an id already present stays hidden behind the earlier entry |
| Lists.AddThenRemove | src/DoonUI/elements/list.cpp:21-43 | adding under a fresh id and removing it restores the list |
| Lists.RemoveKeepsOthers | src/DoonUI/elements/list.cpp:26-43 | removing one id does not change what any other id finds |
| Lists.GetItemScan | src/DoonUI/elements/list.cpp:26-33 | the source's scan loop computes the lookup |
| Lists.RemoveItemScan | src/DoonUI/elements/list.cpp:35-43 | the source's scan-and-erase loop computes the removal |
| TextBoxes.NewTextBox | src/DoonUI/elements/textbox.hpp:53-55 | a new box has no focus or selection, its cursor at 0, and satisfies the range invariant |
| TextBoxes.GetHighlighted | src/DoonUI/elements/textbox.cpp:45-53 | without a selection the whole text; otherwise the characters between the cursor and the selection's far end, as many as the selection is long |
| TextBoxes.Arrow | src/DoonUI/elements/textbox.cpp:154-198 | right and left step one position within the text, and End and Home jump to the ends; a shift step keeps the selection's far end, and a shift jump re-anchors the selection at the old cursor; without shift the selection clears and the cursor collapses to the selection's edge in the direction of travel; the range invariant holds |
| TextBoxes.EditSpan | src/DoonUI/elements/textbox.cpp:207-217 | the span an edit replaces is the selection, ordered and inside the text |
| TextBoxes.Delete | src/DoonUI/elements/textbox.cpp:200-241 | with a selection, delete removes it and leaves the cursor at its left edge; without one, backspace removes the character before the cursor and forward delete the one after it, unless at that end of the text; the selection clears and the range invariant holds |
| TextBoxes.Insert | src/DoonUI/elements/textbox.cpp:242-270 | a character replaces the selection, or is inserted at the cursor, and the cursor lands just after it; what is stored is the `(char)` cast of the event's code, its low byte |
| TextBoxes.ByteOf | src/DoonUI/elements/textbox.cpp:266-266 | the `(char)` cast keeps a code below 256 and otherwise the code modulo 256 |
| TextBoxes.WideCodeTruncated | src/DoonUI/elements/textbox.cpp:266-266 | typing U+0141 stores 'A', its low byte |
| TextBoxes.Release | src/DoonUI/elements/textbox.cpp:146-153 | a release always ends a drag and keeps the focus only if a drag was in progress or the box is hovered |
| TextBoxes.HandleEvent | src/DoonUI/elements/textbox.cpp:142-274 | keyboard events act only with focus and dispatch to the arrow, delete and insert edits; every branch keeps the range invariant the substring calls need |
| TextBoxes.DeleteRemovesHighlighted | src/DoonUI/elements/textbox.cpp:205-239 | deleting a selection removes exactly the highlighted text, which sits at the new cursor |
| TextBoxes.TypeOverSelection | src/DoonUI/elements/textbox.cpp:247-268 | typing over a selection equals deleting it and then typing |
| TextBoxes.BackspaceUndoesInsert | src/DoonUI/elements/textbox.cpp:223-268 | backspace right after typing a character restores the box; over a selection it leaves the selection deleted |
| TextBoxes.ShiftStepsCancel | src/DoonUI/elements/textbox.cpp:163-176 | shift-right then shift-left restores the box |
| TextBoxes.HomeShiftEndSelectsAll | src/DoonUI/elements/textbox.cpp:177-184 | Home, Home, then shift-End selects the whole text, and typing then replaces all of it |
| TextBoxes.EndCollapsesToSelection | src/DoonUI/elements/textbox.cpp:187-193 | End without shift lands on the selection's right edge, not at the end of the text |
| TextBoxes.PointerStepAsWritten | src/DoonUI/elements/textbox.cpp:74-86 | a press over the box takes the focus and anchors a drag at the index under the cursor; while dragging, the selection runs from the cursor back to the anchor taken at the press |
| TextBoxes.StaleAnchorLeavesRange | src/DoonUI/elements/textbox.cpp:74-86 | deleting during a drag leaves the anchor past the end of the shorter text, and the next frame breaks the range invariant |
| TextBoxes.PointerStep | src/DoonUI/elements/textbox.cpp:74-86 | the same step with the anchor kept inside the text keeps the range invariant |
| TextBoxes.FrameInput | src/DoonUI/elements/textbox.cpp:74-86 | as written: a fresh press over the box starts a drag with the cursor at the index under it, no selection and the anchor there; with the button up and no drag nothing changes; a drag only starts from a press edge over the box; during a drag the selection runs from the cursor back to the anchor; on a drag frame the range invariant holds exactly when the anchor is still inside the text, and then the frame equals the corrected PointerStep |
| TextBoxes.PointerStepAgrees | src/DoonUI/elements/textbox.cpp:74-86 | the corrected step agrees with the source whenever the anchor is still inside the text |
| Measure.AdvancesStep | src/DoonUI/render.c:228-241 | the pen advance of a prefix grows by one glyph's advance per character |
| Measure.LineRenderSize | src/DoonUI/render.c:223-245 | the loop returns the line's size and, per character, the pen span it occupies |
| Measure.SpansAdjacent | src/DoonUI/render.c:230-234 | each character's span starts where the previous one ends |
| Measure.LineSizeFacts | src/DoonUI/render.c:236-244 | the line height is the scaled atlas height whatever the text; the empty line has width 0; a line is as wide as the advances of all but its last character plus the last character's bitmap extent |
| Measure.ScanStep | src/DoonUI/render.c:262-281 | one pass of the wrap loop moves forward in the order (line start, index), and counts a line exactly when a non-space character overflows |
| Measure.Scan | src/DoonUI/render.c:262-281 | the wrap loop terminates at the end of the text even though its index rewinds, and never loses lines |
| Measure.LineCountAsWritten | src/DoonUI/render.c:247-288 | the line count of the loop as written: the text has no lines exactly when it is empty, and at most one more line than characters |
| Measure.LineCount | src/DoonUI/render.c:283-284 | the corrected line count (each line's first character measured): no lines exactly when the text is empty, and at most one more line than characters |
| Measure.StringRenderSizeAsWritten | src/DoonUI/render.c:247-288 | as the source computes it: without a wrap width the size is the single line's; with one, exactly that width wide and the as-written line count times the scaled atlas height tall |
| Measure.StringRenderSize | src/DoonUI/render.c:247-288 | the corrected size the text label uses: as the source's, but with the corrected line count in the wrapped height |
| Measure.RenderSizesAgree | src/DoonUI/render.c:247-288 | the two sizes have the same width and are equal whenever the two loops count the same lines |
| Measure.AbcHeights | src/DoonUI/render.c:271-278 | "abc" in 10-pixel glyphs of a 16-pixel font wrapped at 15 pixels: the source sizes it 32 pixels tall, the corrected count 48 |
| Measure.CorrectedStepTracks | src/DoonUI/render.c:262-281 | in the corrected loop the width tracked is the pen advance from the line's start to the index under test |
| Measure.CorrectedBreakTest | src/DoonUI/render.c:271 | in the corrected loop a character breaks the line exactly when the line up to and including it is wider than the wrap width |
| Measure.WideFirstGlyph | src/DoonUI/render.c:271-284 | a single character wider than the wrap width counts as two lines: an empty break and the character's own line |
| Measure.AsWrittenAbc | src/DoonUI/render.c:271-278 | as written, "abc" with 10-pixel glyphs and a 15-pixel wrap width counts 2 lines |
| Measure.CorrectedAbc | src/DoonUI/render.c:271-278 | measuring each line's first character, the same input counts 3 lines |
| ColorSelectors.CFmod | src/DoonUI/elements/colorselector.cpp:145 | C's `fmodf`: the remainder has the sign of the dividend and is smaller in size than the divisor |
| ColorSelectors.Wave | src/DoonUI/elements/colorselector.cpp:145 | the sector wave `1 - |fmod(h/60, 2) - 1|` stays in [0, 1] |
| ColorSelectors.SectorRgb | src/DoonUI/elements/colorselector.cpp:148-159 | a sector is selected exactly when the scaled hue is below 6 |
| ColorSelectors.HsvToRgb | src/DoonUI/elements/colorselector.cpp:141-167 | the conversion yields a colour exactly for hues below 360, and a grey of the value when the saturation is 0 |
| ColorSelectors.ZeroValueIsBlack | src/DoonUI/elements/colorselector.cpp:143-164 | value 0 converts to black |
| ColorSelectors.HsvChannelRange | src/DoonUI/elements/colorselector.cpp:143-164 | the largest channel is the value and the smallest is the value times (1 - saturation) |
| ColorSelectors.HueTerm | src/DoonUI/elements/colorselector.cpp:175-183 | the hue term is 0 for a grey and in [1, 7] otherwise |
| ColorSelectors.Saturation | src/DoonUI/elements/colorselector.cpp:187-191 | the saturation is 0 for black and otherwise the channel spread over the largest channel, within [0, 1] for non-negative channels |
| ColorSelectors.RgbToHsv | src/DoonUI/elements/colorselector.cpp:169-195 | the value is the largest channel; hue and saturation are 0 for a grey; the hue is in [0, 360) |
| ColorSelectors.HsvRoundTrip | src/DoonUI/elements/colorselector.cpp:141-195 | converting to RGB and back returns the HSV colour for hue in [0, 360) and positive saturation and value |
| ColorSelectors.HueRoundTrip | src/DoonUI/elements/colorselector.cpp:148-183 | each sector's RGB gives back its scaled hue in the hue term (offset by 6 in the first sector) |
| ColorSelectors.ClampHueSat | src/DoonUI/elements/colorselector.cpp:112-113 | hue and saturation land in [0.001, 359.9] by [0.001, 0.999] and are kept when already there |
| ColorSelectors.DragAtButtonReadsBack | src/DoonUI/elements/colorselector.cpp:95-107 | dragging onto the button's drawn position reads back the hue and saturation it was placed for |
| ColorSelectors.SelectorPre | src/DoonUI/elements/colorselector.cpp:77-116 | the drag latch follows the square; black keeps the previous hue and saturation with value 0, otherwise the colour is read back; the button is placed; hue and saturation come from the cursor only while dragging an active selector; the result is always clamped |
| ColorSelectors.SelectorPost | src/DoonUI/elements/colorselector.cpp:127-138 | the value comes from the slider only while it is dragged on an active selector, and the written colour is the HSV colour converted, with the value as its largest channel |
| ColorSelectors.IdleFrameKeepsColour | src/DoonUI/elements/colorselector.cpp:75-138 | a frame without input reproduces a colour the selector wrote |
| ColorSelectors.BlackStaysBlack | src/DoonUI/elements/colorselector.cpp:90-138 | black stays black over an idle frame and keeps the previous hue and saturation, clamped |

## Left out

- OpenGL, FreeType and file I/O: shader and atlas set-up, `DNUI_draw_rect` and the string drawer are not modelled. Draw calls are emitted as a trace instead. `src/DoonUI/render.cpp`, `src/DoonUI/main.cpp` and the window loop are not part of this model.
- `DNUI_draw_string`'s own line splitting is not modelled. Only the measuring loop is.
- Floating point: everything is over `real`. Rounding, NaN and infinities are out, and a `(float)` or `(double)` conversion is the identity.
- Geometry.SafeDiv: a division by a zero span gives 0, where the source produces an infinity or NaN. This covers the slider's value and handle position, the colour selector's drag mapping, and a text label's automatic scale (the box width over the measured line width), which the source makes infinite or NaN for an empty label or one whose glyphs do not advance.
- Transitions.Advance: a zero duration finishes at once. The source's `dt / 0` gives an infinity, which the cap turns into 1, but a zero `dt` gives NaN, which is not modelled.
- Transitions.Ease: `powf(2, x)` is the parameter `pow2`. For the exponential curve only its special case at progress 1, and its value at 0 when `pow2(0) = 1`, are stated.
- Transitions.OriginalOr: a component updated before `init` animates from its target. The source reads an unset original there.
- Transitions.SetTarget: the registry is keyed by an enumerated field selector instead of (type, byte offset). Each selector has one value kind, so a write of a mismatched kind or to a missing user slot changes nothing.
- Transitions.SetTargetKeepsRegistry: the registry invariants are stated in a separate lemma rather than in SetTarget's own contract.
- Texts.TextSizing: requires a font whose glyph table covers the text. The source dereferences the font unguarded, so a missing font is undefined behaviour there. The scale and wrap width are 0 before the first update; the source leaves them uninitialised. The label's requested scale and wrap width are read from its state, not from slots, so a transition cannot animate them, although the source allows it.
- Tree.Update: requires every label in the tree to be measurable, for the same reason.
- Measure.StringRenderSize: the wrapped height uses the corrected line count (see Findings), not the source's. The source's size is Measure.StringRenderSizeAsWritten, and Measure.AbcHeights shows an input on which they differ. Texts.TextSizing and Texts.WrappedHeight inherit the corrected height, so a wrapped label can be taller in the model than in the program.
- TextBoxes.Insert: the box's text is a `string` of characters rather than a byte string. The `(char)` cast is modelled on the inserted character (TextBoxes.ByteOf), but an initial text is taken as given, and multi-byte encodings are not modelled.
- Measure.LineRenderSize: glyph metrics come from an abstract font with a fixed-size table. Characters outside the table are not modelled. The source walks a C string, so an embedded NUL character ends the text there; the model measures the whole sequence, NULs included.
- Sliders.Store: an integer slider's `(int)` cast is modelled as truncation over unbounded integers. The source's overflow for out-of-range floats is undefined behaviour and is not modelled.
- The active flag of a new element is assumed to start true. The header that should declare it does not.
- TextBox: the cursor blink, the text render-scale fit, the highlight box geometry, and `render` are float and trigonometric layout glue and are not modelled. The cursor's pixel position (`get_cursor_render_pos`) and its inverse (`get_cursor_pos`) are not modelled either. The index under the cursor is the parameter `at`.
- TextBox and ColorSelector are modelled as standalone state machines with their own steps rather than as tree node kinds. Their child boxes and slider are not built.
- ColorSelector: the texture upload (`init_texture`) and the copy constructors are not modelled. The slider child's update is summarised by the parameters `sliderMoving` and `sliderValue`.
- List: `List::update` is not modelled. Its item layout loop is empty in the source. A list's items are not children in the tree.
- Slider and Button copy constructors, and destructors and heap ownership, are not modelled. The tree is a value.
- Buttons.ButtonEvent and Checkboxes.CheckboxEvent: callbacks are reported as effects (`ButtonClicked`, `CheckboxToggled`) rather than called.

## Findings

| source | as written | input that shows it | evidently intended | confidence | as-written member | corrected member |
|---|---|---|---|---|---|---|
| src/DoonUI/render.c:271-278 | after a line break the loop sets `i = startPos`, and its `i++` then moves past the new line's first character with the line width reset to 0, so that character's advance is never measured | "abc", every glyph advance and bitmap width 10, scale 1, wrap width 15: as written 2 lines, with "bc" (20 pixels) on one line | each line starts measured with its first character's advance, so "abc" wraps into 3 lines of one character | not executed | Measure.AsWrittenAbc | Measure.CorrectedBreakTest |
| src/DoonUI/elements/textbox.cpp:74-86 | the drag anchor is taken at the press and kept while dragging, even when a delete or character event shortens the text during the drag | drag over "abc" from index 3 back to 0, then backspace while the button is held: the text is empty, and the next frame sets the selection's far end to 3 | the anchor stays within the current text, so the selection stays within the text the substring calls index | not executed | TextBoxes.StaleAnchorLeavesRange | TextBoxes.PointerStep |
