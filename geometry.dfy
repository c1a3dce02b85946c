/**
 * The eraser's geometry: the distance from the eraser centre to a segment,
 * the hit test built on it, and the decomposition of rectangles and ellipses
 * into straight segments. Coordinates are reals; the Euclidean distance is
 * kept squared so that no square root is needed.
 */
module Geometry {
  import opened Wrappers
  import opened Drawables

  /** The eraser as it is sent in a live-erase payload: a centre and a radius. */
  datatype EraserDisc = EraserDisc(x: real, y: real, radius: real)

  function Min(a: real, b: real): real { if a <= b then a else b }
  function Max(a: real, b: real): real { if a >= b then a else b }

  /** Squared Euclidean distance between two points. */
  function DistSq(ax: real, ay: real, qx: real, qy: real): real
  {
    (ax - qx) * (ax - qx) + (ay - qy) * (ay - qy)
  }

  /** The point at parameter `t` on the way from `a` to `b`, one coordinate at a time. */
  function Lerp(a: real, b: real, t: real): real
  {
    a + t * (b - a)
  }

  /** Squared distance from (px, py) to the point at parameter `t` of the segment. */
  function DistSqAt(px: real, py: real, x0: real, y0: real, x1: real, y1: real, t: real): real
  {
    DistSq(px, py, Lerp(x0, x1, t), Lerp(y0, y1, t))
  }

  /**
   * Division as the model uses it: the denominator is zero only for a
   * zero-length segment, which `pointToSegmentDistance` never divides by.
   */
  function Quot(num: real, den: real): real
  {
    if den == 0.0 then 0.0 else num / den
  }

  /**
   * The projection parameter of (px, py) onto the line through the segment,
   * clamped to [0, 1] as `Math.max(0, Math.min(1, ...))` does.
   */
  function ProjectionParam(px: real, py: real, x0: real, y0: real, x1: real, y1: real): (t: real)
    ensures 0.0 <= t <= 1.0
  {
    var dx := x1 - x0;
    var dy := y1 - y0;
    Max(0.0, Min(1.0, Quot((px - x0) * dx + (py - y0) * dy, dx * dx + dy * dy)))
  }

  /**
   * `pointToSegmentDistance`, squared. A zero-length segment measures the
   * distance to its start point; otherwise the distance to the clamped
   * projection of the point onto the segment.
   */
  function PointToSegmentDistSq(px: real, py: real, x0: real, y0: real, x1: real, y1: real): (d: real)
    ensures 0.0 <= d
    ensures x0 == x1 && y0 == y1 ==> d == DistSq(px, py, x0, y0)
  {
    var dx := x1 - x0;
    var dy := y1 - y0;
    if dx == 0.0 && dy == 0.0 then
      DistSq(px, py, x0, y0)
    else
      var t := ProjectionParam(px, py, x0, y0, x1, y1);
      DistSq(px, py, x0 + t * dx, y0 + t * dy)
  }

  /** The distance is attained at some point of the segment. */
  lemma DistanceIsAttained(px: real, py: real, x0: real, y0: real, x1: real, y1: real)
    ensures exists t :: 0.0 <= t <= 1.0 && PointToSegmentDistSq(px, py, x0, y0, x1, y1) == DistSqAt(px, py, x0, y0, x1, y1, t)
  {
    if x1 - x0 == 0.0 && y1 - y0 == 0.0 {
      assert PointToSegmentDistSq(px, py, x0, y0, x1, y1) == DistSqAt(px, py, x0, y0, x1, y1, 0.0);
    } else {
      var t := ProjectionParam(px, py, x0, y0, x1, y1);
      assert PointToSegmentDistSq(px, py, x0, y0, x1, y1) == DistSqAt(px, py, x0, y0, x1, y1, t);
    }
  }

  /** The coordinates of a segment, without its style. */
  type Coords = (real, real, real, real)

  function Geom(s: Segment): Coords { (s.x0, s.y0, s.x1, s.y1) }

  /**
   * The eraser touches a segment when the segment passes strictly inside its
   * radius: `pointToSegmentDistance(...) < radius`, with both sides squared
   * (a non-positive radius touches nothing, as no distance is below it).
   */
  predicate Hit(e: EraserDisc, g: Coords)
  {
    0.0 < e.radius && PointToSegmentDistSq(e.x, e.y, g.0, g.1, g.2, g.3) < e.radius * e.radius
  }

  /** `i / steps` as a real; `steps` is never 0 where it is evaluated. */
  function Frac(i: nat, steps: nat): real
  {
    if steps == 0 then 0.0 else i as real / steps as real
  }

  lemma FracWhole(n: nat)
    requires n > 0
    ensures Frac(n, n) == 1.0 && Frac(0, n) == 0.0
  {
    var x := n as real;
    assert x / x == 1.0;
  }

  /** The `i`-th of the `steps` segments of edge `edge` (0 top, 1 right, 2 bottom, 3 left) of a rectangle. */
  function RectEdgeSegment(r: Drawable, steps: nat, edge: nat, i: nat): Segment
    requires r.Rect?
  {
    var (x, y, w, h) := (r.x, r.y, r.width, r.height);
    var (a, b) := (Frac(i, steps), Frac(i + 1, steps));
    var (c, lw) := (Some(r.color), Some(r.lineWidth));
    if edge == 0 then Segment(x + a * w, y, x + b * w, y, c, lw, false)
    else if edge == 1 then Segment(x + w, y + a * h, x + w, y + b * h, c, lw, false)
    else if edge == 2 then Segment(x + w - a * w, y + h, x + w - b * w, y + h, c, lw, false)
    else Segment(x, y + h - a * h, x, y + h - b * h, c, lw, false)
  }

  function RectEdge(r: Drawable, steps: nat, edge: nat): (s: seq<Segment>)
    requires r.Rect?
    ensures |s| == steps
  {
    seq(steps, i requires 0 <= i < steps => RectEdgeSegment(r, steps, edge, i))
  }

  /** The outline `rectToSegments` produces: top, right, bottom, left, `steps` segments each. */
  function RectOutline(r: Drawable, steps: nat): seq<Segment>
    requires r.Rect?
  {
    RectEdge(r, steps, 0) + RectEdge(r, steps, 1) + RectEdge(r, steps, 2) + RectEdge(r, steps, 3)
  }

  /**
   * `rectToSegments`: four loops, one per edge, each pushing `steps`
   * segments in the rectangle's colour and width.
   */
  method RectToSegments(r: Drawable, steps: nat) returns (segs: seq<Segment>)
    requires r.Rect?
    ensures segs == RectOutline(r, steps)
    ensures |segs| == 4 * steps
    ensures forall k :: 0 <= k < |segs| ==> segs[k].color == Some(r.color) && segs[k].lineWidth == Some(r.lineWidth)
  {
    segs := [];
    var i := 0;
    while i < steps
      invariant 0 <= i <= steps
      invariant segs == RectEdge(r, steps, 0)[..i]
    {
      segs := segs + [RectEdgeSegment(r, steps, 0, i)];
      i := i + 1;
    }
    ghost var done := segs;
    i := 0;
    while i < steps
      invariant 0 <= i <= steps
      invariant segs == done + RectEdge(r, steps, 1)[..i]
    {
      segs := segs + [RectEdgeSegment(r, steps, 1, i)];
      i := i + 1;
    }
    done := segs;
    i := 0;
    while i < steps
      invariant 0 <= i <= steps
      invariant segs == done + RectEdge(r, steps, 2)[..i]
    {
      segs := segs + [RectEdgeSegment(r, steps, 2, i)];
      i := i + 1;
    }
    done := segs;
    i := 0;
    while i < steps
      invariant 0 <= i <= steps
      invariant segs == done + RectEdge(r, steps, 3)[..i]
    {
      segs := segs + [RectEdgeSegment(r, steps, 3, i)];
      i := i + 1;
    }
    assert RectEdge(r, steps, 3)[..steps] == RectEdge(r, steps, 3);
  }

  /** Start and end points of a segment. */
  function Start(s: Segment): (real, real) { (s.x0, s.y0) }
  function End(s: Segment): (real, real) { (s.x1, s.y1) }

  /** Which edge position `k` of the outline belongs to, and its index along that edge. */
  function EdgeOf(steps: nat, k: nat): (ei: (nat, nat))
    requires k < 4 * steps
    ensures ei.0 < 4 && ei.1 < steps
  {
    if k < steps then (0, k)
    else if k < 2 * steps then (1, k - steps)
    else if k < 3 * steps then (2, k - 2 * steps)
    else (3, k - 3 * steps)
  }

  /** Position `k` of the outline is the segment `EdgeOf(steps, k)` names. */
  lemma RectOutlineAt(r: Drawable, steps: nat, k: nat)
    requires r.Rect? && k < 4 * steps
    ensures RectOutline(r, steps)[k] == RectEdgeSegment(r, steps, EdgeOf(steps, k).0, EdgeOf(steps, k).1)
  {
    var o := RectOutline(r, steps);
    var (e0, e1, e2, e3) := (RectEdge(r, steps, 0), RectEdge(r, steps, 1), RectEdge(r, steps, 2), RectEdge(r, steps, 3));
    assert o == e0 + e1 + e2 + e3;
    if k < steps {
      assert o[k] == e0[k];
    } else if k < 2 * steps {
      assert o[k] == e1[k - steps];
    } else if k < 3 * steps {
      assert o[k] == e2[k - 2 * steps];
    } else {
      assert o[k] == e3[k - 3 * steps];
    }
  }

  /** Consecutive segments of one edge meet. */
  lemma RectEdgeContinues(r: Drawable, steps: nat, e: nat, i: nat)
    requires r.Rect? && i + 1 < steps
    ensures End(RectEdgeSegment(r, steps, e, i)) == Start(RectEdgeSegment(r, steps, e, i + 1))
  {
    assert RectEdgeSegment(r, steps, e, i).x1 == RectEdgeSegment(r, steps, e, i + 1).x0;
    assert RectEdgeSegment(r, steps, e, i).y1 == RectEdgeSegment(r, steps, e, i + 1).y0;
  }

  /** The last segment of an edge ends at the corner where the next edge starts. */
  lemma RectCornerMeets(r: Drawable, steps: nat, e: nat)
    requires r.Rect? && steps > 0 && e < 4
    ensures End(RectEdgeSegment(r, steps, e, steps - 1)) == Start(RectEdgeSegment(r, steps, (e + 1) % 4, 0))
  {
    FracWhole(steps);
    assert steps - 1 + 1 == steps;
  }

  /**
   * The rectangle outline is one closed path: each segment starts where the
   * previous one ended, and the last ends where the first starts.
   */
  lemma RectOutlineClosed(r: Drawable, steps: nat)
    requires r.Rect? && steps > 0
    ensures var o := RectOutline(r, steps);
      && (forall k :: 0 <= k < |o| - 1 ==> End(o[k]) == Start(o[k + 1]))
      && End(o[|o| - 1]) == Start(o[0])
  {
    var o := RectOutline(r, steps);
    forall k | 0 <= k < |o| - 1
      ensures End(o[k]) == Start(o[k + 1])
    {
      RectOutlineAt(r, steps, k);
      RectOutlineAt(r, steps, k + 1);
      var (e, i) := EdgeOf(steps, k);
      if i + 1 < steps {
        RectEdgeContinues(r, steps, e, i);
      } else {
        RectCornerMeets(r, steps, e);
      }
    }
    RectOutlineAt(r, steps, |o| - 1);
    RectOutlineAt(r, steps, 0);
    RectCornerMeets(r, steps, 3);
  }

  /**
   * Every segment lies on its side of the rectangle: the top and bottom
   * segments are horizontal at `y` and `y + height`, the right and left ones
   * vertical at `x + width` and `x`.
   */
  lemma RectOutlineOnSides(r: Drawable, steps: nat, k: nat)
    requires r.Rect? && k < 4 * steps
    ensures var s := RectOutline(r, steps)[k];
      && (k < steps ==> s.y0 == r.y && s.y1 == r.y)
      && (steps <= k < 2 * steps ==> s.x0 == r.x + r.width && s.x1 == r.x + r.width)
      && (2 * steps <= k < 3 * steps ==> s.y0 == r.y + r.height && s.y1 == r.y + r.height)
      && (3 * steps <= k ==> s.x0 == r.x && s.x1 == r.x)
  {
    RectOutlineAt(r, steps, k);
  }

  /**
   * The `i`-th perimeter point of an ellipse sampled at `steps` equal angles;
   * `turn(f)` stands for `(Math.cos(2 pi f), Math.sin(2 pi f))`.
   */
  function CirclePoint(c: Drawable, steps: nat, turn: real -> (real, real), i: nat): (real, real)
    requires c.Circle?
  {
    var (cos, sin) := turn(Frac(i, steps));
    (c.cx + c.rx * cos, c.cy + c.ry * sin)
  }

  function CircleSegment(c: Drawable, steps: nat, turn: real -> (real, real), k: nat): Segment
    requires c.Circle?
  {
    var (a, b) := (CirclePoint(c, steps, turn, k), CirclePoint(c, steps, turn, k + 1));
    Segment(a.0, a.1, b.0, b.1, Some(c.color), Some(c.lineWidth), false)
  }

  /**
   * `circleToSegments`: samples `steps + 1` points and joins each to the
   * previous one, so the result is `steps` segments forming one connected
   * path from point 0 to point `steps`.
   */
  method CircleToSegments(c: Drawable, steps: nat, turn: real -> (real, real)) returns (segs: seq<Segment>)
    requires c.Circle?
    ensures |segs| == steps
    ensures forall k :: 0 <= k < steps ==> segs[k] == CircleSegment(c, steps, turn, k)
    ensures forall k :: 0 <= k < steps ==> Start(segs[k]) == CirclePoint(c, steps, turn, k)
    ensures forall k :: 0 <= k < steps - 1 ==> End(segs[k]) == Start(segs[k + 1])
    ensures forall k :: 0 <= k < steps ==> segs[k].color == Some(c.color) && segs[k].lineWidth == Some(c.lineWidth)
  {
    segs := [];
    var prev: Option<(real, real)> := None;
    var i := 0;
    while i <= steps
      invariant 0 <= i <= steps + 1
      invariant i == 0 <==> prev == None
      invariant i > 0 ==> prev == Some(CirclePoint(c, steps, turn, i - 1))
      invariant |segs| == if i == 0 then 0 else i - 1
      invariant forall k :: 0 <= k < |segs| ==> segs[k] == CircleSegment(c, steps, turn, k)
    {
      var p := CirclePoint(c, steps, turn, i);
      if prev.Some? {
        var q := prev.value;
        segs := segs + [Segment(q.0, q.1, p.0, p.1, Some(c.color), Some(c.lineWidth), false)];
      }
      prev := Some(p);
      i := i + 1;
    }
  }

  /** The outline of an ellipse as the eraser sees it. */
  function CircleOutline(c: Drawable, steps: nat, turn: real -> (real, real)): seq<Segment>
    requires c.Circle?
  {
    seq(steps, k requires 0 <= k < steps => CircleSegment(c, steps, turn, k))
  }
}
