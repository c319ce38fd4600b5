# Gwen: base renderer and window state, in Dafny

This project models two parts of the Gwen GUI toolkit and proves properties
about them.

1. **The base renderer** (`Gwen::Renderer::BaseRender`). It owns the render
   offset, the clip region and the draw colour. Its composite primitives are
   built from the single backend call `DrawFilledRect`:
   - `DrawLinedRect`, `DrawPixel` and `DrawShavedCornerRect`;
   - `DrawMissingImage`;
   - the fallback `RenderText`.

   The backend is a trace: every `DrawFilledRect` appends the rectangle with
   the colour current at that moment. Each primitive is proved to append
   exactly the rectangles a specification function lists. Lemmas then say
   which pixels those rectangles paint and how many there are.
   - `AddClipRegion` is the edge-by-edge update of the source. It is proved
     equal to the intersection of the clip with a rectangle of the argument's
     size placed at the render offset.
   - `Translate` adds the render offset. The scale is fixed at its
     constructor value 1.0.
2. **The movable window** (`Gwen::Controls::WindowControl`). It owns its modal
   overlay (`m_Modal`), its delete-on-close flag and its title colour.
   - Every control lives in an arena under a handle. Each control has a kind,
     a parent link, a hidden flag and an ordered list of children; the last
     child is drawn on top.
   - The canvas keeps the queue of controls waiting for deferred deletion.
   - The modelled base-class calls (`SetParent`, `BringToFront`, `SetHidden`,
     `DelayedDelete` and the closed event) are recorded in a call log, so
     their order can be stated. `Touch`'s parent notification and the
     constructor's layout calls are not modelled and not logged.
   - The arena's `Valid` invariant keeps parent links and child lists in
     agreement. Every operation preserves it.
   - Each window method gives the whole new arena state: the kinds, parent
     links, child lists, hidden and background flags, the deletion queue and
     the log, in terms of the old state.

Files: `geometry.dfy` (points, rectangles, intersection), `renderer.dfy`
(module `Renderer`), `controltree.dfy` (module `ControlTree`, the base-class
state the window relies on), `windows.dfy` (module `Windows`).

## Model

| member | source | states |
|---|---|---|
| Renderer.BaseRender.constructor | gwen/src/Gwen/Renderers/BaseRender.cpp:37-41 | A new renderer has render offset (0, 0), the default clip and colour, and an empty trace |
| Renderer.BaseRender.SetDrawColor | gwen/src/Gwen/Renderers/BaseRender.cpp:240 | The draw colour becomes the argument; nothing else changes |
| Renderer.BaseRender.DrawLinedRect | gwen/src/Gwen/Renderers/BaseRender.cpp:63-69 | Appends exactly four fills in the current colour: top (x,y,w,1), bottom (x,y+h-1,w,1), left (x,y,1,h), right (x+w-1,y,1,h) |
| Renderer.LinedRectIsOutline | gwen/src/Gwen/Renderers/BaseRender.cpp:63-69 | For w,h >= 1 the four strips paint a pixel iff it lies on the rectangle's one-pixel border |
| Renderer.LinedRectWithin | gwen/src/Gwen/Renderers/BaseRender.cpp:63-69 | For w,h >= 1 every strip lies within the input rectangle |
| Renderer.BaseRender.DrawPixel | gwen/src/Gwen/Renderers/BaseRender.cpp:71-74 | Appends one 1x1 fill at (x, y) |
| Renderer.BaseRender.DrawShavedCornerRect | gwen/src/Gwen/Renderers/BaseRender.cpp:76-99 | After shrinking w and h by one, appends the 4 edge rectangles (slight) or 4 corner pixels and then 4 shorter edges (8 in all) |
| Renderer.ShavedSlightIsOutlineWithoutCorners | gwen/src/Gwen/Renderers/BaseRender.cpp:82-89 | The slight variant paints exactly the border minus its four corner pixels |
| Renderer.ShavedFullIsOutlineWithInnerCorners | gwen/src/Gwen/Renderers/BaseRender.cpp:91-98 | The full variant paints the border minus a 2x2 block at each corner, plus the four pixels one step diagonally in from the corners (inside the rectangle only when w, h >= 2) |
| Renderer.ShavedFullWithin | gwen/src/Gwen/Renderers/BaseRender.cpp:91-98 | For w, h >= 2 every pixel the full variant paints lies inside the rectangle |
| Renderer.ShavedFullThinPaintsOutside | gwen/src/Gwen/Renderers/BaseRender.cpp:79-92 | For w == 1 and h >= 3 the shrink leaves width 0, and the full variant paints (x - 1, y + 1), a pixel outside the rectangle |
| Renderer.BaseRender.TranslatePoint | gwen/src/Gwen/Renderers/BaseRender.cpp:101-107 | At scale 1 each coordinate moves by exactly the render offset |
| Renderer.BaseRender.TranslateRect | gwen/src/Gwen/Renderers/BaseRender.cpp:109-114 | The rectangle becomes its shift by the render offset |
| Geometry.Shift | gwen/src/Gwen/Renderers/BaseRender.cpp:109-114 | A shifted rectangle keeps w and h and covers exactly the moved pixels |
| Renderer.BaseRender.ClipRegion | gwen/src/Gwen/Renderers/BaseRender.cpp:152-155 | Returns the stored clip region, as SetClipRegion and AddClipRegion leave it, and changes nothing |
| Renderer.BaseRender.SetClipRegion | gwen/src/Gwen/Renderers/BaseRender.cpp:116-119 | ClipRegion() returns the argument afterwards; only the clip field is written |
| Renderer.BaseRender.AddClipRegion | gwen/src/Gwen/Renderers/BaseRender.cpp:121-150 | The four guarded edge updates leave the clip equal to the intersection of the old clip with the argument anchored at the render offset |
| Renderer.Anchored | gwen/src/Gwen/Renderers/BaseRender.cpp:123-124 | The argument's x and y are replaced by the render offset; w and h are kept |
| Geometry.Intersect | gwen/src/Gwen/Renderers/BaseRender.cpp:125-149 | The intersection lies within both rectangles and is no wider or taller than either |
| Geometry.IntersectContains | gwen/src/Gwen/Renderers/BaseRender.cpp:125-149 | The intersection covers a pixel iff both rectangles cover it |
| Geometry.IntersectGreatest | gwen/src/Gwen/Renderers/BaseRender.cpp:125-149 | Every rectangle within both is within the intersection |
| Renderer.AddClipNeverGrows | gwen/src/Gwen/Renderers/BaseRender.cpp:121-150 | No edge of the new clip lies outside the old one, and neither w nor h grows |
| Renderer.AddClipIgnoresPosition | gwen/src/Gwen/Renderers/BaseRender.cpp:123-124 | Two arguments of equal size give the same clip, whatever their x and y |
| Renderer.AddClipInsideIsExact | gwen/src/Gwen/Renderers/BaseRender.cpp:125-149 | If the anchored rectangle already lies within the clip, it becomes the clip |
| Renderer.AddClipsNeverGrow | gwen/src/Gwen/Renderers/BaseRender.cpp:121-150 | Any series of AddClipRegion calls, each with its own render offset, leaves the clip within the original one and no wider or taller |
| Renderer.BaseRender.ClipRegionVisible | gwen/src/Gwen/Renderers/BaseRender.cpp:157-165 | True iff the clip covers at least one pixel; it reads the clip and changes no state |
| Geometry.HasPixelIffPositive | gwen/src/Gwen/Renderers/BaseRender.cpp:157-165 | A rectangle covers a pixel iff w > 0 and h > 0 |
| Renderer.BaseRender.DrawMissingImage | gwen/src/Gwen/Renderers/BaseRender.cpp:167-171 | The draw colour ends as Red whatever it was, and exactly the target rectangle is appended, in red |
| Renderer.PixelColour | gwen/src/Gwen/Renderers/BaseRender.cpp:173 | Always returns the default colour argument |
| Renderer.BaseRender.RenderText | gwen/src/Gwen/Renderers/BaseRender.cpp:181-230 | The loop appends, character by character, the rectangles TextRects lists, in the current colour |
| Renderer.TextRectsCount | gwen/src/Gwen/Renderers/BaseRender.cpp:185-229 | The number of rectangles is the sum over characters of 0 for a space, 4 for o/O/0 and 1 otherwise |
| Renderer.PlainTextOneRectPerChar | gwen/src/Gwen/Renderers/BaseRender.cpp:198-227 | A text without spaces or o/O/0 gets one rectangle per character, its glyph box, in order |
| Renderer.SpacesDrawNothing | gwen/src/Gwen/Renderers/BaseRender.cpp:189-190 | A text of spaces draws nothing |
| ControlTree.TopWindow | gwen/src/Gwen/Controls/WindowControl.cpp:105-121 | The result is a window among the siblings, or none exists among them |
| ControlTree.TopWindowIsLastWindow | gwen/src/Gwen/Controls/WindowControl.cpp:105-121 | w is the top window iff w is a window sibling and no window follows it |
| ControlTree.FrontWindowIsTop | gwen/src/Gwen/Controls/WindowControl.cpp:151-163 | A window moved to the end of its siblings is the top window |
| ControlTree.OnlyWindowIsTop | gwen/src/Gwen/Controls/WindowControl.cpp:89-91 | A window whose siblings are no windows is the top window |
| ControlTree.Arena.NewControl | gwen/src/Gwen/Controls/WindowControl.cpp:89 | A fresh control is added on top of its parent's children; the arena stays valid |
| ControlTree.NewKeepsConsistent | gwen/src/Gwen/Controls/WindowControl.cpp:89 | Adding a fresh control keeps parent links and child lists in agreement |
| ControlTree.Arena.SetParent | gwen/src/Gwen/Controls/WindowControl.cpp:90 | The control leaves its old parent's children and goes on top of the new parent's, unless the parent is unchanged; the call is logged |
| ControlTree.MoveKeepsConsistent | gwen/src/Gwen/Controls/WindowControl.cpp:90 | Reparenting keeps parent links and child lists in agreement |
| ControlTree.Arena.SetShouldDrawBackground | gwen/src/Gwen/Controls/WindowControl.cpp:91 | The overlay's background flag becomes the argument |
| ControlTree.Arena.DelayedDelete | gwen/src/Gwen/Controls/WindowControl.cpp:101 | The control is appended to the deletion queue; the call is logged |
| ControlTree.Arena.SetHidden | gwen/src/Gwen/Controls/WindowControl.cpp:148 | The hidden flag becomes the argument; the call is logged |
| ControlTree.Arena.BringToFront | gwen/src/Gwen/Controls/WindowControl.cpp:154 | The control moves to the end of its parent's children; the call is logged |
| ControlTree.FrontKeepsConsistent | gwen/src/Gwen/Controls/WindowControl.cpp:154 | Bringing to front keeps parent links and child lists in agreement |
| ControlTree.Arena.FireWindowClosed | gwen/src/Gwen/Controls/WindowControl.cpp:168 | The closed event is logged; no state changes |
| Windows.WindowControl.constructor | gwen/src/Gwen/Controls/WindowControl.cpp:44-77 | A new window has no overlay, deleteOnClose off and the inactive title colour. The arena gains exactly three controls, under three fresh and distinct handles: the window, last among parentHandle's children; the title bar, the window's only child; and the close button, the title bar's only child. No other control's kind, parent, children, hidden or background flag changes. The window is shown and on top of its siblings, and the log gains its BringToFront |
| Windows.WindowControl.Destroy | gwen/src/Gwen/Controls/WindowControl.cpp:80-83 | The destructor ends non-modal. When modal, it reparents the window to the canvas, queues the overlay for deletion and logs both calls, with the kinds, hidden and background flags unchanged, exactly as DestroyModal does. Otherwise the arena is unchanged |
| Windows.WindowControl.MakeModal | gwen/src/Gwen/Controls/WindowControl.cpp:85-92 | A no-op when modal. Otherwise exactly one new overlay goes on top of the canvas's children and holds the window alone. Only the overlay's background flag changes, to the argument. The hidden flags and the queue are unchanged, and the window is on top |
| Windows.OverlayChildren | gwen/src/Gwen/Controls/WindowControl.cpp:89-91 | Creating the overlay and then reparenting gives: the window left its old parent, the overlay is on top of the canvas, and the overlay holds only the window |
| Windows.WindowControl.DestroyModal | gwen/src/Gwen/Controls/WindowControl.cpp:94-103 | A no-op when not modal; otherwise the window's parent becomes the canvas (not its original parent), the overlay is queued for deletion and m_Modal is cleared |
| Windows.WindowControl.IsOnTop | gwen/src/Gwen/Controls/WindowControl.cpp:105-121 | The reverse scan returns true iff the first window met from the end of the siblings is this window |
| Windows.WindowControl.Render | gwen/src/Gwen/Controls/WindowControl.cpp:123-133 | The title colour is the active one iff the window is on top, and the inactive one otherwise |
| Windows.WindowControl.SetClosable | gwen/src/Gwen/Controls/WindowControl.cpp:146-149 | The close button is hidden iff not closable; nothing else changes |
| Windows.WindowControl.SetHidden | gwen/src/Gwen/Controls/WindowControl.cpp:151-157 | Showing first brings the window to the front, so it ends on top; hiding keeps the z-order |
| Windows.WindowControl.Touch | gwen/src/Gwen/Controls/WindowControl.cpp:159-163 | The window is brought to the front and ends on top |
| Windows.WindowControl.CloseButtonPressed | gwen/src/Gwen/Controls/WindowControl.cpp:165-173 | Ends non-modal, with exactly the window added to the hidden set. When modal, the window is moved under the canvas; otherwise parents and children are unchanged. Kinds and background flags are unchanged. The log gains the teardown calls, the closed event, the hide and the optional delete, in that order. The queue gains the overlay if any, then the window iff deleteOnClose |
| Windows.CloseFiresClosedOnce | gwen/src/Gwen/Controls/WindowControl.cpp:165-173 | One close fires the closed event exactly once |
| Windows.CloseQueuesWindowAndOverlay | gwen/src/Gwen/Controls/WindowControl.cpp:165-173 | The window is queued for deletion iff deleteOnClose; nothing but the window and its overlay is queued |
| Windows.CloseHidesAfterClosedEvent | gwen/src/Gwen/Controls/WindowControl.cpp:165-173 | The hide comes right after the closed event, and nothing is reparented after it |

## Left out

- The render scale is fixed at its constructor value 1.0, and `Translate` is modelled as adding the offset exactly. Other scales, and the float arithmetic they need, are not modelled.
- Coordinates, sizes and offsets are unbounded integers. Two effects of the source's 32-bit `int` are not modelled:
  - Renderer.BaseRender.TranslatePoint: the `(float)` conversion in `ceilf((float)x * 1.0f)` rounds integers beyond 2^24. For x = 16777217 the source returns 16777216, while the model returns x unchanged.
  - Renderer.BaseRender.TranslateRect: the same `(float)` rounding applies to x, y, w and h at gwen/src/Gwen/Renderers/BaseRender.cpp:111-113. For w = 16777217 the source yields 16777216, while the model keeps w exactly.
  - Renderer.AddClipNeverGrows: signed overflow in `rect.x + rect.w` and `clip.x + clip.w` is not modelled. Such overflow is undefined in C++, and with a wrap it can skip a guard and let the clip grow. The lemma holds for coordinates whose sums stay within 32 bits.
- `Translate` updates its by-reference arguments in place. Here it returns the translated values.
- Renderer.BaseRender.RenderText: the text is modelled as a sequence of Unicode scalar values (Dafny `char`). The source classifies `wchar_t` code units one at a time. Where `wchar_t` is 16 bits, a character outside the Basic Multilingual Plane is two surrogate units, and so two rectangles in the source, but one character and one rectangle here. The counts that Renderer.TextRectsCount and Renderer.PlainTextOneRectPerChar state therefore match the source only where `wchar_t` is 32 bits, or where the text has no such characters.
- Renderer.BaseRender.RenderText: the glyph rectangle is a parameter `box(i, chr)`. Its float geometry (`fSize * 0.4`, the per-letter reshaping, truncation to int) is not modelled, and neither is the float loop counter. The character classification, the order and the count are modelled.
- `MeasureText` is float arithmetic on the font size and is not modelled.
- `StringToUnicode` in the 8-bit overloads is not part of this model. The model's text is already a sequence of characters.
- The renderer destructor's `ShutDown` call on the cache-to-texture backend is not part of this model.
- `DrawFilledRect` is the backend and is modelled only as a trace append.
- Renderer.BaseRender.constructor: the initial clip (0, 0, 0, 0) and colour (white) are the default-constructed values of `Gwen::Rect` and `Gwen::Color`. Those types are not part of this model, so these two values are assumptions.
- Skin drawing is not modelled: `DrawWindow`, `DrawShadow`, `RenderUnder`, `RenderFocus`, `SetTitle` and the skin's colour table. The two title colours are opaque constants.
- Windows.WindowControl.constructor: the title label and the inner panel are not created as controls. The title colour is kept as a field of the window. The layout calls (docking, padding, margins, size, the resizer, minimum size, text, focus, tabbing, clamping, keyboard input) are left out.
- The base classes and the canvas are not part of this model: `Base`, `Dragger`, `Label`, `Modal` and the event system. Their operations are stated as the window uses them:
  - `SetParent` detaches the control and appends it to the new parent's children. It does nothing when the parent is unchanged. There is no inner-panel redirection.
  - `BringToFront` moves the control to the end of its parent's children.
  - `SetHidden` sets the hidden flag.
  - `onWindowClosed.Call` is a log entry.
- Windows.WindowControl.Touch: `Base::Touch`, which notifies the parents, has no modelled effect. Only the `BringToFront` that follows it is modelled.
- ControlTree.Arena.DelayedDelete appends to the queue and does not remove repeats. The deferred-deletion sweep is not modelled. A window closed twice with deleteOnClose set is therefore queued twice, because the source enqueues on every call. Whether the canvas later ignores the repeat is outside this model.
- Windows.WindowControl.DestroyModal: the window does not go back to the parent it had before `MakeModal`. As the comment at gwen/src/Gwen/Controls/WindowControl.cpp:98-99 admits, it is moved under the canvas. The model follows the code, so "the window is always a child of its original parent or of its overlay" is not an invariant here.
- A window without a parent and a null canvas are not modelled. The window invariant requires a parent, and the arena always has its canvas.
