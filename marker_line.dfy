/** A freehand stroke: the points the pointer passed through while pressed,
    and how the stroke draws itself on the canvas. */
module Marker {
  import opened Canvas

  /** One lineTo per point, in order. */
  function Segments(pts: seq<Point>): (r: seq<Command>)
  {
    seq(|pts|, i requires 0 <= i < |pts| => LineTo(pts[i]))
  }

  lemma SegmentsSnoc(pts: seq<Point>, p: Point)
    ensures Segments(pts + [p]) == Segments(pts) + [LineTo(p)]
  {
  }

  /** What display issues for a stroke through pts: nothing at all for an
      empty stroke; otherwise beginPath, a moveTo to the first point, a lineTo
      to every later point in order, and one stroke. */
  function Render(pts: seq<Point>): seq<Command>
  {
    if |pts| < 1 then [] else [BeginPath, MoveTo(pts[0])] + Segments(pts[1..]) + [Stroke]
  }

  /** The shape of a render, command by command. */
  lemma RenderShape(pts: seq<Point>)
    ensures |pts| == 0 ==> Render(pts) == []
    ensures |pts| > 0 ==>
      && |Render(pts)| == |pts| + 2
      && Render(pts)[0] == BeginPath
      && Render(pts)[1] == MoveTo(pts[0])
      && (forall i :: 1 <= i < |pts| ==> Render(pts)[i + 1] == LineTo(pts[i]))
      && Render(pts)[|pts| + 1] == Stroke
  {
  }

  lemma {:induction false} SegmentsTrace(pts: seq<Point>)
    ensures PathPoints(Segments(pts)) == pts
    ensures StrokeCount(Segments(pts)) == 0
  {
    if pts != [] {
      var init := pts[..|pts| - 1];
      SegmentsTrace(init);
      assert init + [pts[|pts| - 1]] == pts;
      SegmentsSnoc(init, pts[|pts| - 1]);
      PathPointsAppend(Segments(init), [LineTo(pts[|pts| - 1])]);
      StrokeCountAppend(Segments(init), [LineTo(pts[|pts| - 1])]);
    }
  }

  /** The rendered path visits exactly the stroke's points, in order, and is
      stroked once: the points can be read back from the commands. */
  lemma RenderTrace(pts: seq<Point>)
    requires |pts| > 0
    ensures PathPoints(Render(pts)) == pts
    ensures StrokeCount(Render(pts)) == 1
  {
    var head: seq<Command> := [BeginPath, MoveTo(pts[0])];
    SegmentsTrace(pts[1..]);
    PathPointsAppend(head, Segments(pts[1..]));
    PathPointsAppend(head + Segments(pts[1..]), [Stroke]);
    StrokeCountAppend(head, Segments(pts[1..]));
    StrokeCountAppend(head + Segments(pts[1..]), [Stroke]);
    assert PathPoints(head) == [pts[0]] by {
      assert head[1..] == [MoveTo(pts[0])];
      assert head[1..][1..] == [];
    }
    assert StrokeCount(head) == 0 by {
      assert head[1..] == [MoveTo(pts[0])];
      assert head[1..][1..] == [];
    }
    assert [pts[0]] + pts[1..] == pts;
  }

  /** A stroke under construction. Its points only ever grow at the end. */
  class MarkerLine {
    var points: seq<Point>

    /** Every line is created with its press position, so it is never empty. */
    ghost predicate Valid()
      reads this
    {
      |points| >= 1
    }

    constructor (p: Point)
      ensures points == [p]
      ensures Valid()
    {
      points := [p];
    }

    method Drag(p: Point)
      modifies this
      ensures points == old(points) + [p]
      ensures Valid()
    {
      points := points + [p];
    }

    /** The commands this line issues on the context, built by display's
        index loop. */
    method Display() returns (cmds: seq<Command>)
      ensures cmds == Render(points)
    {
      if |points| < 1 {
        cmds := [];
        return;
      }
      cmds := [BeginPath, MoveTo(points[0])];
      var i := 1;
      while i < |points|
        invariant 1 <= i <= |points|
        invariant cmds == [BeginPath, MoveTo(points[0])] + Segments(points[1..i])
      {
        assert points[1..i + 1] == points[1..i] + [points[i]];
        SegmentsSnoc(points[1..i], points[i]);
        cmds := cmds + [LineTo(points[i])];
        i := i + 1;
      }
      assert points[1..i] == points[1..];
      cmds := cmds + [Stroke];
    }
  }
}
