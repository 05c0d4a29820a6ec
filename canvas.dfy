/** The drawing surface as the sketchpad sees it: pointer positions and the
    calls it makes on the 2D context, recorded as data instead of pixels. */
module Canvas {

  /** A pointer position in canvas pixels (the event's offsetX and offsetY). */
  datatype Point = Point(x: int, y: int)

  /** The canvas is created 256 by 256 pixels. */
  const Width: int := 256
  const Height: int := 256

  /** One call on the 2D drawing context. */
  datatype Command =
    | ClearRect(left: int, top: int, w: int, h: int)
    | BeginPath
    | MoveTo(to: Point)
    | LineTo(to: Point)
    | Stroke

  /** The positions a command list visits: the target of every moveTo and
      lineTo, in the order they are issued. */
  function PathPoints(cmds: seq<Command>): seq<Point>
  {
    if cmds == [] then []
    else
      var head := match cmds[0]
        case MoveTo(p) => [p]
        case LineTo(p) => [p]
        case _ => [];
      head + PathPoints(cmds[1..])
  }

  /** How many times the path so far is stroked onto the canvas. */
  function StrokeCount(cmds: seq<Command>): nat
  {
    if cmds == [] then 0
    else (if cmds[0].Stroke? then 1 else 0) + StrokeCount(cmds[1..])
  }

  lemma {:induction false} PathPointsAppend(a: seq<Command>, b: seq<Command>)
    ensures PathPoints(a + b) == PathPoints(a) + PathPoints(b)
  {
    if a == [] {
      assert a + b == b;
    } else {
      assert (a + b)[1..] == a[1..] + b;
      PathPointsAppend(a[1..], b);
    }
  }

  lemma {:induction false} StrokeCountAppend(a: seq<Command>, b: seq<Command>)
    ensures StrokeCount(a + b) == StrokeCount(a) + StrokeCount(b)
  {
    if a == [] {
      assert a + b == b;
    } else {
      assert (a + b)[1..] == a[1..] + b;
      StrokeCountAppend(a[1..], b);
    }
  }
}
