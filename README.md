# Sticker Sketchpad: drawing state, undo/redo and repaint

A model of the core of `src/main.ts` of the Sticker Sketchpad, a browser
sketchpad in which the user draws freehand marker strokes on a 256×256 canvas
and can clear, undo and redo them. The app never draws straight onto pixels:
every stroke is a `MarkerLine` object kept in a display list, and every
repaint clears the canvas and replays that list, then the stroke in progress.

The model has four modules:

- `Canvas` (canvas.dfy): pointer positions as integer pairs, the calls made on
  the 2D context (`clearRect`, `beginPath`, `moveTo`, `lineTo`, `stroke`) as a
  `Command` datatype, and two readings of a command list: the points a path
  visits (`PathPoints`) and how often it is stroked (`StrokeCount`).
- `Marker` (marker_line.dfy): the class `MarkerLine`, whose `points` field
  grows in place; `Render` is the command list its `display` issues, and
  `Display` is display's index loop, proved to produce it.
- `History` (history.dfy): undo and redo as functions on the pair
  (display list, redo stack). Both keep the *timeline* — the display list
  followed by the redo stack read from its top — and only move the boundary,
  so each undoes the other whenever the first step acts; an Undo with
  nothing shown, or a Redo with nothing to redo, does nothing, and the other
  step does not cancel that.
- `Sketch` (sketchpad.dfy): the class `Sketchpad` holding the four pieces of
  module-global state (`isDrawing`, `displayList`, `currentLine`,
  `redoStack`) and one method per event handler. `Valid()` is the invariant
  every handler keeps: every line has at least one point (so the early return
  in `display`, src/main.ts:130, is never taken), and the stroke in progress
  is on neither stack and exists only while drawing. `Scene()` is the
  picture the state stands for, and `Repaint` is the drawing-changed observer
  proved to emit it. A handler that dispatches drawing-changed returns
  `Some(commands)` of that repaint (dispatch is synchronous in the DOM); one
  that does not returns `None` or nothing.

Clear empties only the display list and the stroke in progress
(src/main.ts:80-81): the redo stack and the drawing flag survive it, so Redo
after Clear can bring back strokes undone before the Clear, and Clear during
a drag leaves drawing on with no stroke in progress, so later moves are
ignored until the next press. The model follows the code in both respects.

## Model

| member | source | states |
|---|---|---|
| `Marker.MarkerLine.constructor` | src/main.ts:121-123 | a new line holds exactly one point, the press position, so it is valid (non-empty) |
| `Marker.MarkerLine.Drag` | src/main.ts:125-127 | the point list is extended at the end by exactly the given point and stays non-empty |
| `Marker.MarkerLine.Display` | src/main.ts:129-138 | the index loop emits exactly `Render(points)`: nothing for an empty line (the early return), otherwise beginPath, moveTo of the first point, lineTo of each later point in order, stroke |
| `Marker.RenderShape` | src/main.ts:132-137 | a render of n ≥ 1 points has n + 2 commands: beginPath, moveTo(points[0]), lineTo(points[i]) at position i + 1 for 1 ≤ i < n, and a final stroke; an empty line renders to nothing |
| `Marker.RenderTrace` | src/main.ts:132-137 | the points visited by a non-empty line's render are exactly its points in order, and the render strokes exactly once |
| `Marker.SegmentsTrace` | src/main.ts:134-136 | the lineTo commands of the loop visit exactly the given points and stroke nothing |
| `History.UndoStep` | src/main.ts:93-101 | undo keeps the timeline, shortens a non-empty display list by one (moving that one item to the redo stack), leaves both stacks alone when the display list is empty, and keeps the sum of the two lengths |
| `History.RedoStep` | src/main.ts:108-116 | redo keeps the timeline, lengthens the display list by one when the redo stack is non-empty, leaves both alone when it is empty, and keeps the sum of the two lengths |
| `History.TimelineDetermines` | src/main.ts:93-116 | two states with the same timeline and the same display-list length are equal |
| `History.UndoThenRedo` | src/main.ts:93-116 | undo followed by redo restores both stacks exactly if and only if the display list is non-empty or the redo stack is empty (an undo that does nothing followed by a redo that acts does not restore) |
| `History.RedoThenUndo` | src/main.ts:93-116 | redo followed by undo restores both stacks exactly if and only if the redo stack is non-empty or the display list is empty |
| `Sketch.RenderAllSnoc` | src/main.ts:63-66 | replaying one more display-list item appends exactly that item's render |
| `Sketch.RenderAllStrokes` | src/main.ts:63-66 | replaying a list of non-empty lines strokes exactly once per line, and the path visits all their points, line by line in display-list order |
| `Sketch.FrameStrokes` | src/main.ts:59-72 | one repaint strokes each committed line once, plus once for the stroke in progress when there is one |
| `Sketch.SceneStrokes` | src/main.ts:59-72 | for any sketchpad keeping its invariant, a repaint strokes each committed line once and the stroke in progress once when there is one (no line takes the early return of src/main.ts:130) |
| `Sketch.ScenePoints` | src/main.ts:59-72 | for any sketchpad keeping its invariant, the path of a repaint visits the points of every committed line in display-list order, then the points of the stroke in progress when there is one |
| `Sketch.FramePoints` | src/main.ts:59-72 | the path of a repaint visits the committed strokes' points in list order, then those of the stroke in progress |
| `Sketch.CommitKeepsFrame` | src/main.ts:42-48 | moving the stroke in progress to the end of the display list leaves the repainted picture unchanged |
| `Sketch.Sketchpad.constructor` | src/main.ts:22-27 | the sketchpad starts with both stacks empty (the redo stack is declared empty at src/main.ts:86), no stroke in progress and not drawing |
| `Sketch.Sketchpad.Repaint` | src/main.ts:59-72 | the drawing-changed observer emits exactly `Scene()`: clearRect of the whole canvas, the display list's renders in list order, then the stroke in progress if there is one |
| `Sketch.Sketchpad.MouseDown` | src/main.ts:30-34 | drawing is set, the redo stack is emptied, the stroke in progress is a fresh line holding only the press position, the display list is unchanged (an uncommitted stroke is dropped), and the invariant is kept |
| `Sketch.Sketchpad.MouseMove` | src/main.ts:36-40 | while drawing with a stroke in progress, exactly the event position is appended to it and a repaint of the new scene is returned; otherwise nothing happens and nothing is repainted; the stacks and the committed lines never change |
| `Sketch.Sketchpad.MouseUp` | src/main.ts:42-48 | the stroke in progress is appended to the display list if and only if there is one; afterwards there is none and drawing is off; the redo stack and the picture are unchanged |
| `Sketch.Sketchpad.MouseLeave` | src/main.ts:50-56 | the same transition as mouseup |
| `Sketch.Sketchpad.Clear` | src/main.ts:79-83 | the display list is empty and there is no stroke in progress; the redo stack and the drawing flag are unchanged; the repaint shows only the cleared canvas |
| `Sketch.Sketchpad.Undo` | src/main.ts:93-101 | the stacks become `UndoStep` of the old stacks; the stroke in progress and the drawing flag are unchanged; a repaint happens exactly when the display list was non-empty |
| `Sketch.Sketchpad.Redo` | src/main.ts:108-116 | the stacks become `RedoStep` of the old stacks; the stroke in progress and the drawing flag are unchanged; a repaint happens exactly when the redo stack was non-empty |
| `Sketch.UndoThenRedoRestores` | src/main.ts:93-116 | pressing Undo then Redo restores both stacks and the rest of the state whenever something is drawn or nothing is left to redo |
| `Sketch.RedoThenUndoRestores` | src/main.ts:93-116 | pressing Redo then Undo restores both stacks and the rest of the state whenever something is left to redo or nothing is drawn |

## Left out

- Building the page (title, canvas, buttons, `appendChild`, the stylesheet import): DOM construction with no state of the model.
- The startup check that a 2D context exists (src/main.ts:19-20): environment I/O; the model assumes a context.
- The real canvas context: its calls are recorded as `Command` values instead of drawing pixels; the canvas size 256×256 appears only as the `clearRect` arguments.
- Event dispatch and `addEventListener`: each handler is a method called directly; a `dispatchEvent("drawing-changed")` is modelled by the handler running `Repaint` and returning its commands.
- Pointer coordinates are integers; the program never computes with them, so no floating-point behaviour is lost.
- The `Displayable` interface: `MarkerLine` is its only implementation in this version, so both stacks hold `MarkerLine` objects.
- The `if (lastLine)` and `if (line)` guards in Undo and Redo: `pop` on a non-empty array of objects always returns an object, so the guard always holds and the model pushes unconditionally.
