/** The sketchpad's drawing state and its event handlers: the display list of
    committed strokes, the redo stack, the stroke in progress and the drawing
    flag, and the repaint that replays them onto the canvas. */
module Sketch {
  import opened Canvas
  import opened Marker
  import opened History

  datatype Option<T> = None | Some(value: T)

  /** The point lists of a sequence of lines, position by position. */
  function Outlines(lines: seq<MarkerLine>): seq<seq<Point>>
    reads lines
  {
    seq(|lines|, i requires 0 <= i < |lines| reads lines => lines[i].points)
  }

  lemma OutlinesSnoc(lines: seq<MarkerLine>, line: MarkerLine)
    ensures Outlines(lines + [line]) == Outlines(lines) + [line.points]
  {
  }

  /** The renders of the given strokes, one after another in list order. */
  function RenderAll(strokes: seq<seq<Point>>): seq<Command>
  {
    if strokes == [] then [] else RenderAll(strokes[..|strokes| - 1]) + Render(strokes[|strokes| - 1])
  }

  /** One repaint: clear the whole canvas, replay the committed strokes in
      order, then the stroke in progress when there is one. */
  function Frame(committed: seq<seq<Point>>, current: Option<seq<Point>>): seq<Command>
  {
    [ClearRect(0, 0, Width, Height)] + RenderAll(committed)
      + (match current case None => [] case Some(c) => Render(c))
  }

  /** Rendering one more stroke appends its render. */
  lemma RenderAllSnoc(strokes: seq<seq<Point>>, s: seq<Point>)
    ensures RenderAll(strokes + [s]) == RenderAll(strokes) + Render(s)
  {
    assert (strokes + [s])[..|strokes|] == strokes;
  }

  lemma RenderAllPrefix(strokes: seq<seq<Point>>, i: nat)
    requires i < |strokes|
    ensures RenderAll(strokes[..i + 1]) == RenderAll(strokes[..i]) + Render(strokes[i])
  {
    assert strokes[..i + 1] == strokes[..i] + [strokes[i]];
    RenderAllSnoc(strokes[..i], strokes[i]);
  }

  /** Committing the stroke in progress to the end of the display list does
      not change the picture. */
  lemma CommitKeepsFrame(committed: seq<seq<Point>>, current: seq<Point>)
    ensures Frame(committed + [current], None) == Frame(committed, Some(current))
  {
    RenderAllSnoc(committed, current);
  }

  /** All the points of the given strokes, one stroke after another. */
  function Concat(strokes: seq<seq<Point>>): seq<Point>
  {
    if strokes == [] then [] else Concat(strokes[..|strokes| - 1]) + strokes[|strokes| - 1]
  }

  /** Every stroke that has a point is stroked exactly once per repaint, and
      the path visits all their points in display order. */
  lemma {:induction false} RenderAllStrokes(strokes: seq<seq<Point>>)
    requires forall i :: 0 <= i < |strokes| ==> |strokes[i]| > 0
    ensures StrokeCount(RenderAll(strokes)) == |strokes|
    ensures PathPoints(RenderAll(strokes)) == Concat(strokes)
  {
    if strokes != [] {
      var n := |strokes|;
      RenderAllStrokes(strokes[..n - 1]);
      RenderTrace(strokes[n - 1]);
      StrokeCountAppend(RenderAll(strokes[..n - 1]), Render(strokes[n - 1]));
      PathPointsAppend(RenderAll(strokes[..n - 1]), Render(strokes[n - 1]));
    }
  }

  /** The path of a frame visits the committed strokes' points in order, then
      those of the stroke in progress. */
  lemma FramePoints(committed: seq<seq<Point>>, current: Option<seq<Point>>)
    requires forall i :: 0 <= i < |committed| ==> |committed[i]| > 0
    requires current.Some? ==> |current.value| > 0
    ensures PathPoints(Frame(committed, current)) ==
      Concat(committed) + (match current case None => [] case Some(c) => c)
  {
    var clear: seq<Command> := [ClearRect(0, 0, Width, Height)];
    var replay := clear + RenderAll(committed);
    RenderAllStrokes(committed);
    assert PathPoints(clear) == [] by {
      assert clear[1..] == [];
    }
    PathPointsAppend(clear, RenderAll(committed));
    assert PathPoints(replay) == Concat(committed);
    match current
    case None =>
      assert Frame(committed, current) == replay + [];
      PathPointsAppend(replay, []);
    case Some(c) =>
      assert Frame(committed, current) == replay + Render(c);
      RenderTrace(c);
      PathPointsAppend(replay, Render(c));
  }

  lemma FrameStrokes(committed: seq<seq<Point>>, current: Option<seq<Point>>)
    requires forall i :: 0 <= i < |committed| ==> |committed[i]| > 0
    requires current.Some? ==> |current.value| > 0
    ensures StrokeCount(Frame(committed, current)) == |committed| + (if current.Some? then 1 else 0)
  {
    var tail := match current case None => [] case Some(c) => Render(c);
    RenderAllStrokes(committed);
    if current.Some? {
      RenderTrace(current.value);
    }
    StrokeCountAppend([ClearRect(0, 0, Width, Height)], RenderAll(committed));
    StrokeCountAppend([ClearRect(0, 0, Width, Height)] + RenderAll(committed), tail);
  }

  /** What a repaint of a valid sketchpad emits: every committed line, and the
      stroke in progress when there is one, is stroked exactly once, since no
      line is empty and display's early return is never taken. */
  lemma SceneStrokes(pad: Sketchpad)
    requires pad.Valid()
    ensures StrokeCount(pad.Scene()) == |pad.displayList| + (if pad.currentLine == null then 0 else 1)
  {
    var committed := Outlines(pad.displayList);
    forall i | 0 <= i < |committed|
      ensures |committed[i]| > 0
    {
      assert pad.displayList[i] in pad.displayList;
    }
    FrameStrokes(committed, if pad.currentLine == null then None else Some(pad.currentLine.points));
  }

  /** The path of a repaint of a valid sketchpad visits the points of every
      committed line in display-list order, then those of the stroke in
      progress. */
  lemma ScenePoints(pad: Sketchpad)
    requires pad.Valid()
    ensures PathPoints(pad.Scene()) ==
      Concat(Outlines(pad.displayList)) + (if pad.currentLine == null then [] else pad.currentLine.points)
  {
    var committed := Outlines(pad.displayList);
    forall i | 0 <= i < |committed|
      ensures |committed[i]| > 0
    {
      assert pad.displayList[i] in pad.displayList;
    }
    FramePoints(committed, if pad.currentLine == null then None else Some(pad.currentLine.points));
  }

  class Sketchpad {
    var isDrawing: bool
    var displayList: seq<MarkerLine>
    var currentLine: MarkerLine?
    var redoStack: seq<MarkerLine>

    /** Every stroke has at least one point; the stroke in progress is not
        (yet) on either stack, and there is one only while drawing. */
    ghost predicate Valid()
      reads this, displayList, redoStack, currentLine
    {
      && (forall l :: l in displayList ==> l.Valid())
      && (forall l :: l in redoStack ==> l.Valid())
      && (currentLine != null ==>
            && currentLine.Valid()
            && currentLine !in displayList
            && currentLine !in redoStack
            && isDrawing)
    }

    /** The picture the state stands for. */
    function Scene(): seq<Command>
      reads this, displayList, currentLine
    {
      Frame(Outlines(displayList), if currentLine == null then None else Some(currentLine.points))
    }

    constructor ()
      ensures Valid()
      ensures displayList == [] && redoStack == [] && currentLine == null && !isDrawing
    {
      isDrawing := false;
      displayList := [];
      currentLine := null;
      redoStack := [];
    }

    /** The drawing-changed observer: the commands one repaint issues. */
    method Repaint() returns (cmds: seq<Command>)
      ensures cmds == Scene()
    {
      ghost var outlines := Outlines(displayList);
      var replay: seq<Command> := [];
      for i := 0 to |displayList|
        invariant replay == RenderAll(outlines[..i])
      {
        var c := displayList[i].Display();
        RenderAllPrefix(outlines, i);
        replay := replay + c;
      }
      assert outlines[..|displayList|] == outlines;
      var tail: seq<Command> := [];
      if currentLine != null {
        tail := currentLine.Display();
      }
      cmds := [ClearRect(0, 0, Width, Height)] + replay + tail;
    }

    /** Pointer pressed: start a fresh one-point stroke (an uncommitted one
        is dropped) and forget the redo history. No repaint. */
    method MouseDown(p: Point)
      requires Valid()
      modifies this
      ensures Valid()
      ensures isDrawing
      ensures currentLine != null && fresh(currentLine) && currentLine.points == [p]
      ensures redoStack == []
      ensures displayList == old(displayList)
    {
      isDrawing := true;
      currentLine := new MarkerLine(p);
      redoStack := [];
    }

    /** Pointer moved: while drawing, extend the stroke in progress by the
        event position and repaint; otherwise do nothing. */
    method MouseMove(p: Point) returns (redraw: Option<seq<Command>>)
      requires Valid()
      modifies currentLine
      ensures Valid()
      ensures displayList == old(displayList) && redoStack == old(redoStack)
      ensures currentLine == old(currentLine) && isDrawing == old(isDrawing)
      ensures Outlines(displayList) == old(Outlines(displayList))
      ensures Outlines(redoStack) == old(Outlines(redoStack))
      ensures old(isDrawing && currentLine != null) ==>
        currentLine.points == old(currentLine.points) + [p] && redraw == Some(Scene())
      ensures !old(isDrawing && currentLine != null) ==> redraw == None
    {
      if !isDrawing || currentLine == null {
        return None;
      }
      currentLine.Drag(p);
      var cmds := Repaint();
      redraw := Some(cmds);
    }

    /** Pointer released: commit the stroke in progress, if any, to the end of
        the display list and stop drawing. No repaint: the picture is the same. */
    method MouseUp()
      requires Valid()
      modifies this
      ensures Valid()
      ensures displayList == old(displayList) + (if old(currentLine) == null then [] else [old(currentLine)])
      ensures currentLine == null && !isDrawing
      ensures redoStack == old(redoStack)
      ensures Scene() == old(Scene())
    {
      if currentLine != null {
        var line := currentLine;
        ghost var committed := Outlines(displayList);
        assert old(Scene()) == Frame(committed, Some(line.points));
        CommitKeepsFrame(committed, line.points);
        OutlinesSnoc(displayList, line);
        displayList := displayList + [line];
        currentLine := null;
        assert Outlines(displayList) == committed + [line.points];
      }
      isDrawing := false;
    }

    /** Pointer left the canvas: the mouseleave handler repeats the mouseup
        handler. */
    method MouseLeave()
      requires Valid()
      modifies this
      ensures Valid()
      ensures displayList == old(displayList) + (if old(currentLine) == null then [] else [old(currentLine)])
      ensures currentLine == null && !isDrawing
      ensures redoStack == old(redoStack)
      ensures Scene() == old(Scene())
    {
      MouseUp();
    }

    /** Clear button: empty the display list, drop the stroke in progress and
        repaint. The redo stack and the drawing flag are left as they are. */
    method Clear() returns (redraw: Option<seq<Command>>)
      requires Valid()
      modifies this
      ensures Valid()
      ensures displayList == [] && currentLine == null
      ensures redoStack == old(redoStack) && isDrawing == old(isDrawing)
      ensures redraw == Some(Scene()) && Scene() == [ClearRect(0, 0, Width, Height)]
    {
      displayList := [];
      currentLine := null;
      var cmds := Repaint();
      redraw := Some(cmds);
    }

    /** Undo button: move the last committed drawable to the redo stack and
        repaint; with nothing committed, do nothing. */
    method Undo() returns (redraw: Option<seq<Command>>)
      requires Valid()
      modifies this
      ensures Valid()
      ensures Stacks(displayList, redoStack) == UndoStep(Stacks(old(displayList), old(redoStack)))
      ensures currentLine == old(currentLine) && isDrawing == old(isDrawing)
      ensures redraw == if |old(displayList)| > 0 then Some(Scene()) else None
    {
      if |displayList| > 0 {
        var last := displayList[|displayList| - 1];
        displayList := displayList[..|displayList| - 1];
        redoStack := redoStack + [last];
        var cmds := Repaint();
        redraw := Some(cmds);
      } else {
        redraw := None;
      }
    }

    /** Redo button: move the top of the redo stack back to the end of the
        display list and repaint; with an empty redo stack, do nothing. */
    method Redo() returns (redraw: Option<seq<Command>>)
      requires Valid()
      modifies this
      ensures Valid()
      ensures Stacks(displayList, redoStack) == RedoStep(Stacks(old(displayList), old(redoStack)))
      ensures currentLine == old(currentLine) && isDrawing == old(isDrawing)
      ensures redraw == if |old(redoStack)| > 0 then Some(Scene()) else None
    {
      if |redoStack| > 0 {
        var line := redoStack[|redoStack| - 1];
        redoStack := redoStack[..|redoStack| - 1];
        displayList := displayList + [line];
        var cmds := Repaint();
        redraw := Some(cmds);
      } else {
        redraw := None;
      }
    }
  }

  /** Pressing Undo and then Redo on the live sketchpad puts both stacks back
      as they were, unless Undo had nothing to undo while Redo had something
      to redo; the stroke in progress is left alone. */
  method UndoThenRedoRestores(pad: Sketchpad)
    requires pad.Valid() && (|pad.displayList| > 0 || |pad.redoStack| == 0)
    modifies pad
    ensures pad.Valid()
    ensures pad.displayList == old(pad.displayList) && pad.redoStack == old(pad.redoStack)
    ensures pad.currentLine == old(pad.currentLine) && pad.isDrawing == old(pad.isDrawing)
  {
    ghost var before := Stacks(pad.displayList, pad.redoStack);
    var _ := pad.Undo();
    var _ := pad.Redo();
    UndoThenRedo(before);
  }

  /** Pressing Redo and then Undo puts both stacks back as they were, unless
      Redo had nothing to redo while Undo had something to undo. */
  method RedoThenUndoRestores(pad: Sketchpad)
    requires pad.Valid() && (|pad.redoStack| > 0 || |pad.displayList| == 0)
    modifies pad
    ensures pad.Valid()
    ensures pad.displayList == old(pad.displayList) && pad.redoStack == old(pad.redoStack)
    ensures pad.currentLine == old(pad.currentLine) && pad.isDrawing == old(pad.isDrawing)
  {
    ghost var before := Stacks(pad.displayList, pad.redoStack);
    var _ := pad.Redo();
    var _ := pad.Undo();
    RedoThenUndo(before);
  }
}
