/**
 * The client-side eraser: splitting a stroke at the segments the eraser
 * touches, erasing one drawable, and the pass over the whole canvas that
 * `handleErase` makes for one eraser position.
 */
module Eraser {
  import opened Wrappers
  import opened Drawables
  import opened Geometry

  /** The hit test of an eraser disc, as the eraser functions below take it. */
  function Touching(e: EraserDisc): Coords -> bool
  {
    g => Hit(e, g)
  }

  /** Default sampling of the outlines the eraser works on. */
  const RECT_STEPS: nat := 20
  const CIRCLE_STEPS: nat := 60

  // ---------------------------------------------------------------------
  // Splitting one stroke
  // ---------------------------------------------------------------------

  /** The segments of `stroke` the eraser does not touch, in their original order. */
  function Unhit(stroke: seq<Segment>, hit: Coords -> bool): (u: seq<Segment>)
    ensures |u| <= |stroke|
  {
    if |stroke| == 0 then []
    else
      var last := stroke[|stroke| - 1];
      Unhit(stroke[..|stroke| - 1], hit) + (if hit(Geom(last)) then [] else [last])
  }

  /**
   * The state of the split after reading `stroke` from left to right: the
   * finished sub-strokes and the one still being collected. A touched
   * segment closes the current sub-stroke (if it has anything in it) and is
   * dropped; an untouched one is appended to the current sub-stroke.
   */
  function SplitState(stroke: seq<Segment>, hit: Coords -> bool): (seq<seq<Segment>>, seq<Segment>)
  {
    if |stroke| == 0 then ([], [])
    else
      var (done, cur) := SplitState(stroke[..|stroke| - 1], hit);
      var seg := stroke[|stroke| - 1];
      if hit(Geom(seg)) then
        if |cur| > 0 then (done + [cur], []) else (done, [])
      else (done, cur + [seg])
  }

  /** The maximal runs of untouched segments, before restyling. */
  function Runs(stroke: seq<Segment>, hit: Coords -> bool): seq<seq<Segment>>
  {
    var (done, cur) := SplitState(stroke, hit);
    if |cur| > 0 then done + [cur] else done
  }

  /** All sub-strokes laid end to end. */
  function Flatten(ss: seq<seq<Segment>>): seq<Segment>
  {
    if |ss| == 0 then [] else Flatten(ss[..|ss| - 1]) + ss[|ss| - 1]
  }

  function Shape(ss: seq<Segment>): (g: seq<Coords>)
    ensures |g| == |ss|
  {
    seq(|ss|, k requires 0 <= k < |ss| => Geom(ss[k]))
  }

  /** One segment of a piece: the original's geometry with the piece's colour and width. */
  function RestyleSegment(s: Segment, style: Style): Segment
  {
    s.(color := style.color, lineWidth := style.lineWidth)
  }

  /**
   * A piece as the eraser emits it: every segment takes `style`, and the
   * first one gets a round cap.
   */
  function Restyle(run: seq<Segment>, style: Style): (p: seq<Segment>)
    ensures |p| == |run|
  {
    seq(|run|, k requires 0 <= k < |run| =>
      if k == 0 then RestyleSegment(run[k], style).(roundCap := true) else RestyleSegment(run[k], style))
  }

  function RestyleAll(runs: seq<seq<Segment>>, style: Style): (ps: seq<seq<Segment>>)
    ensures |ps| == |runs|
  {
    if |runs| == 0 then [] else RestyleAll(runs[..|runs| - 1], style) + [Restyle(runs[|runs| - 1], style)]
  }

  /** `splitStrokeByEraser`, as a function of the stroke, the eraser and the style to copy. */
  function Split(stroke: seq<Segment>, hit: Coords -> bool, style: Style): seq<seq<Segment>>
  {
    RestyleAll(Runs(stroke, hit), style)
  }

  lemma {:induction false} FlattenAppend(a: seq<seq<Segment>>, b: seq<seq<Segment>>)
    ensures Flatten(a + b) == Flatten(a) + Flatten(b)
    decreases |b|
  {
    if |b| == 0 {
      assert a + b == a;
    } else {
      var init := b[..|b| - 1];
      assert (a + b)[..|a + b| - 1] == a + init;
      assert (a + b)[|a + b| - 1] == b[|b| - 1];
      FlattenAppend(a, init);
      calc {
        Flatten(a + b);
        Flatten(a + init) + b[|b| - 1];
        Flatten(a) + Flatten(init) + b[|b| - 1];
        Flatten(a) + (Flatten(init) + b[|b| - 1]);
      }
    }
  }

  lemma ShapeAppend(a: seq<Segment>, b: seq<Segment>)
    ensures Shape(a + b) == Shape(a) + Shape(b)
  {
  }

  /** The split state keeps non-empty finished runs that, with the current one, spell out `Unhit`. */
  lemma {:induction false} SplitStateSound(stroke: seq<Segment>, hit: Coords -> bool)
    ensures var (done, cur) := SplitState(stroke, hit);
      && (forall k :: 0 <= k < |done| ==> |done[k]| > 0)
      && Flatten(done) + cur == Unhit(stroke, hit)
  {
    if |stroke| > 0 {
      var prefix := stroke[..|stroke| - 1];
      SplitStateSound(prefix, hit);
      var (done, cur) := SplitState(prefix, hit);
      var seg := stroke[|stroke| - 1];
      if hit(Geom(seg)) && |cur| > 0 {
        FlattenAppend(done, [cur]);
        assert Flatten([cur]) == Flatten([cur][..0]) + cur;
      }
    }
  }

  /** Every run is non-empty and the runs laid end to end are the untouched segments. */
  lemma RunsSound(stroke: seq<Segment>, hit: Coords -> bool)
    ensures forall k :: 0 <= k < |Runs(stroke, hit)| ==> |Runs(stroke, hit)[k]| > 0
    ensures Flatten(Runs(stroke, hit)) == Unhit(stroke, hit)
  {
    SplitStateSound(stroke, hit);
    var (done, cur) := SplitState(stroke, hit);
    if |cur| > 0 {
      FlattenAppend(done, [cur]);
      assert Flatten([cur]) == Flatten([cur][..0]) + cur;
    }
  }

  /** No segment left in `Unhit` is touched by the eraser. */
  lemma {:induction false} UnhitNotHit(stroke: seq<Segment>, hit: Coords -> bool)
    ensures forall k :: 0 <= k < |Unhit(stroke, hit)| ==> !hit(Geom(Unhit(stroke, hit)[k]))
  {
    if |stroke| > 0 {
      UnhitNotHit(stroke[..|stroke| - 1], hit);
    }
  }

  /** With no segment touched, `Unhit` is the whole stroke. */
  lemma {:induction false} UnhitAll(stroke: seq<Segment>, hit: Coords -> bool)
    requires forall k :: 0 <= k < |stroke| ==> !hit(Geom(stroke[k]))
    ensures Unhit(stroke, hit) == stroke
  {
    if |stroke| > 0 {
      UnhitAll(stroke[..|stroke| - 1], hit);
      assert stroke[..|stroke| - 1] + [stroke[|stroke| - 1]] == stroke;
    }
  }

  /** With a segment touched, `Unhit` is strictly shorter than the stroke. */
  lemma {:induction false} UnhitShorter(stroke: seq<Segment>, hit: Coords -> bool, k: nat)
    requires k < |stroke| && hit(Geom(stroke[k]))
    ensures |Unhit(stroke, hit)| < |stroke|
  {
    if k < |stroke| - 1 {
      UnhitShorter(stroke[..|stroke| - 1], hit, k);
    }
  }

  /** A touched segment is a cut point: the runs of `a + [h] + b` are those of `a` followed by those of `b`. */
  lemma RunsCut(a: seq<Segment>, h: Segment, b: seq<Segment>, hit: Coords -> bool)
    requires hit(Geom(h))
    ensures Runs(a + [h] + b, hit) == Runs(a, hit) + Runs(b, hit)
  {
    assert (a + [h])[..|a + [h]| - 1] == a;
    SplitStateFrom(a + [h], b, hit);
    assert a + [h] + b == (a + [h]) + b;
  }

  /** Reading `b` after a prefix that ended with a cut continues from the prefix's finished runs. */
  lemma {:induction false} SplitStateFrom(x: seq<Segment>, b: seq<Segment>, hit: Coords -> bool)
    requires SplitState(x, hit).1 == []
    ensures SplitState(x + b, hit) == (SplitState(x, hit).0 + SplitState(b, hit).0, SplitState(b, hit).1)
    decreases |b|
  {
    if |b| == 0 {
      assert x + b == x;
      assert SplitState(x, hit).0 + SplitState(b, hit).0 == SplitState(x, hit).0;
    } else {
      var init := b[..|b| - 1];
      assert (x + b)[..|x + b| - 1] == x + init;
      assert (x + b)[|x + b| - 1] == b[|b| - 1];
      SplitStateFrom(x, init, hit);
      var (d, c) := SplitState(init, hit);
      assert SplitState(x, hit).0 + (d + [c]) == SplitState(x, hit).0 + d + [c];
    }
  }

  /** With no segment touched, a non-empty stroke is one run: itself. */
  lemma NoHitOneRun(stroke: seq<Segment>, hit: Coords -> bool)
    requires |stroke| > 0
    requires forall k :: 0 <= k < |stroke| ==> !hit(Geom(stroke[k]))
    ensures Runs(stroke, hit) == [stroke]
  {
    SplitStateSound(stroke, hit);
    UnhitAll(stroke, hit);
    var (done, cur) := SplitState(stroke, hit);
    var prefix := stroke[..|stroke| - 1];
    assert !hit(Geom(stroke[|stroke| - 1]));
    assert |cur| > 0;
    NoHitNoCut(stroke, hit);
    assert Flatten(done) == [] && cur == stroke;
  }

  /** With no segment touched, nothing is ever closed off. */
  lemma {:induction false} NoHitNoCut(stroke: seq<Segment>, hit: Coords -> bool)
    requires forall k :: 0 <= k < |stroke| ==> !hit(Geom(stroke[k]))
    ensures SplitState(stroke, hit).0 == []
  {
    if |stroke| > 0 {
      NoHitNoCut(stroke[..|stroke| - 1], hit);
    }
  }

  /** Restyling keeps the geometry. */
  lemma {:induction false} RestyleAllShape(runs: seq<seq<Segment>>, style: Style)
    ensures Shape(Flatten(RestyleAll(runs, style))) == Shape(Flatten(runs))
  {
    if |runs| > 0 {
      var init := runs[..|runs| - 1];
      var last := runs[|runs| - 1];
      RestyleAllShape(init, style);
      assert RestyleAll(runs, style)[..|runs| - 1] == RestyleAll(init, style);
      ShapeAppend(Flatten(RestyleAll(init, style)), Restyle(last, style));
      ShapeAppend(Flatten(init), last);
      assert Shape(Restyle(last, style)) == Shape(last);
    }
  }

  lemma {:induction false} RestyleAllAt(runs: seq<seq<Segment>>, style: Style, k: nat)
    requires k < |runs|
    ensures RestyleAll(runs, style)[k] == Restyle(runs[k], style)
  {
    if k < |runs| - 1 {
      RestyleAllAt(runs[..|runs| - 1], style, k);
    }
  }

  /** Restyling keeps a segment's coordinates. */
  lemma RestyleGeom(s: Segment, style: Style)
    ensures Geom(RestyleSegment(s, style)) == Geom(s)
    ensures Geom(RestyleSegment(s, style).(roundCap := true)) == Geom(s)
  {
  }

  /** An empty stroke yields no pieces. */
  lemma SplitEmpty(hit: Coords -> bool, style: Style)
    ensures Split([], hit, style) == []
  {
  }

  /**
   * The properties of `splitStrokeByEraser`: every piece is non-empty, no
   * piece contains a segment the eraser touches, every segment carries the
   * given colour and width, each piece starts with a round cap, and the
   * pieces laid end to end have the geometry of the untouched segments in
   * their original order.
   */
  lemma SplitSound(stroke: seq<Segment>, hit: Coords -> bool, style: Style)
    ensures var ps := Split(stroke, hit, style);
      && (forall k :: 0 <= k < |ps| ==> |ps[k]| > 0 && ps[k][0].roundCap)
      && (forall k, j :: 0 <= k < |ps| && 0 <= j < |ps[k]| ==>
            !hit(Geom(ps[k][j])) && ps[k][j].color == style.color && ps[k][j].lineWidth == style.lineWidth)
      && Shape(Flatten(ps)) == Shape(Unhit(stroke, hit))
  {
    var runs := Runs(stroke, hit);
    var ps := Split(stroke, hit, style);
    RunsSound(stroke, hit);
    RestyleAllShape(runs, style);
    UnhitNotHit(stroke, hit);
    forall k, j | 0 <= k < |ps| && 0 <= j < |ps[k]|
      ensures !hit(Geom(ps[k][j])) && ps[k][j].color == style.color && ps[k][j].lineWidth == style.lineWidth
    {
      RestyleAllAt(runs, style, k);
      RunSegmentUnhit(runs, k, j);
      RestyleGeom(runs[k][j], style);
    }
    forall k | 0 <= k < |ps|
      ensures |ps[k]| > 0 && ps[k][0].roundCap
    {
      RestyleAllAt(runs, style, k);
    }
  }

  /** A segment of a run is one of the segments laid out by `Flatten`. */
  lemma {:induction false} RunSegmentUnhit(runs: seq<seq<Segment>>, k: nat, j: nat)
    requires k < |runs| && j < |runs[k]|
    ensures runs[k][j] in Flatten(runs)
  {
    if k < |runs| - 1 {
      RunSegmentUnhit(runs[..|runs| - 1], k, j);
    } else {
      assert Flatten(runs)[|Flatten(runs[..|runs| - 1])| + j] == runs[k][j];
    }
  }

  /** With no segment touched, a non-empty stroke comes back as one piece of the same length. */
  lemma SplitNoHit(stroke: seq<Segment>, hit: Coords -> bool, style: Style)
    requires |stroke| > 0
    requires forall k :: 0 <= k < |stroke| ==> !hit(Geom(stroke[k]))
    ensures |Split(stroke, hit, style)| == 1 && |Split(stroke, hit, style)[0]| == |stroke|
  {
    NoHitOneRun(stroke, hit);
    RestyleAllAt([stroke], style, 0);
  }

  /** With a segment touched, the pieces hold fewer segments than the stroke. */
  lemma SplitShorter(stroke: seq<Segment>, hit: Coords -> bool, style: Style, k: nat)
    requires k < |stroke| && hit(Geom(stroke[k]))
    ensures |Flatten(Split(stroke, hit, style))| < |stroke|
  {
    SplitSound(stroke, hit, style);
    UnhitShorter(stroke, hit, k);
  }

  /**
   * `splitStrokeByEraser`: one pass that closes the current sub-stroke at
   * every touched segment, then a pass that drops empty sub-strokes and
   * restyles the rest.
   */
  method SplitStrokeByEraser(stroke: seq<Segment>, hit: Coords -> bool, style: Style) returns (pieces: seq<seq<Segment>>)
    ensures pieces == Split(stroke, hit, style)
    ensures |stroke| == 0 ==> pieces == []
    ensures forall k :: 0 <= k < |pieces| ==> |pieces[k]| > 0
    ensures forall k, j :: 0 <= k < |pieces| && 0 <= j < |pieces[k]| ==> !hit(Geom(pieces[k][j]))
    ensures Shape(Flatten(pieces)) == Shape(Unhit(stroke, hit))
  {
    if |stroke| == 0 {
      SplitEmpty(hit, style);
      return [];
    }
    var newStrokes: seq<seq<Segment>> := [];
    var currentStroke: seq<Segment> := [];
    var i := 0;
    while i < |stroke|
      invariant 0 <= i <= |stroke|
      invariant (newStrokes, currentStroke) == SplitState(stroke[..i], hit)
    {
      assert stroke[..i + 1][..i] == stroke[..i];
      var seg := stroke[i];
      if hit(Geom(seg)) {
        if |currentStroke| > 0 {
          newStrokes := newStrokes + [currentStroke];
          currentStroke := [];
        }
      } else {
        currentStroke := currentStroke + [seg];
      }
      i := i + 1;
    }
    if |currentStroke| > 0 {
      newStrokes := newStrokes + [currentStroke];
    }
    assert stroke[..|stroke|] == stroke;
    RunsSound(stroke, hit);
    pieces := [];
    i := 0;
    while i < |newStrokes|
      invariant 0 <= i <= |newStrokes|
      invariant pieces == RestyleAll(newStrokes[..i], style)
    {
      assert newStrokes[..i + 1][..i] == newStrokes[..i];
      if |newStrokes[i]| > 0 {
        pieces := pieces + [Restyle(newStrokes[i], style)];
      }
      i := i + 1;
    }
    assert newStrokes[..|newStrokes|] == newStrokes;
    SplitSound(stroke, hit, style);
  }

  // ---------------------------------------------------------------------
  // Erasing one drawable
  // ---------------------------------------------------------------------

  /** The segments the eraser tests for a freehand stroke, a rectangle or an ellipse. */
  function Outline(d: Drawable, turn: real -> (real, real)): seq<Segment>
    requires d.Freehand? || d.Rect? || d.Circle?
  {
    match d
    case Freehand(segs) => segs
    case Rect(_, _, _, _, _, _) => RectOutline(d, RECT_STEPS)
    case Circle(_, _, _, _, _, _) => CircleOutline(d, CIRCLE_STEPS, turn)
  }

  /** The eraser measures a line as its single segment. */
  function LineSegment(d: Drawable): Segment
    requires d.Line?
  {
    Segment(d.lx0, d.ly0, d.lx1, d.ly1, Some(d.color), Some(d.lineWidth), false)
  }

  /**
   * How `handleErase` picks the colour and width it hands to the split for
   * a drawable. The pass below takes the rule as a parameter: line 208 as
   * written is `EraseStyleAsWritten`, the corrected rule `EraseStyle`.
   */
  type StyleRule = Drawable -> Style

  /**
   * The colour and width handed to the split for a drawable. A shape gives
   * its own; a freehand stroke, which has no such properties of its own,
   * gives those of its first segment, the style it is painted in.
   */
  function EraseStyle(d: Drawable): (st: Style)
    ensures (d.Rect? || d.Circle?) ==> st == Style(Some(d.color), Some(d.lineWidth))
    ensures d.Freehand? && |d.segs| > 0 ==> st == Style(d.segs[0].color, d.segs[0].lineWidth)
  {
    match d
    case Freehand(segs) => if |segs| > 0 then Style(segs[0].color, segs[0].lineWidth) else Style(None, None)
    case Rect(_, _, _, _, color, lineWidth) => Style(Some(color), Some(lineWidth))
    case Circle(_, _, _, _, color, lineWidth) => Style(Some(color), Some(lineWidth))
    case _ => Style(None, None)
  }

  /**
   * The style as the source computes it, reading `color` and `lineWidth`
   * off the drawable itself: for a freehand stroke, a bare array, both
   * read as absent.
   */
  function EraseStyleAsWritten(d: Drawable): (st: Style)
    ensures d.Freehand? ==> st == Style(None, None)
    ensures (d.Rect? || d.Circle?) ==> st == Style(Some(d.color), Some(d.lineWidth))
  {
    match d
    case Rect(_, _, _, _, color, lineWidth) => Style(Some(color), Some(lineWidth))
    case Circle(_, _, _, _, color, lineWidth) => Style(Some(color), Some(lineWidth))
    case _ => Style(None, None)
  }

  /** The pieces of a split, each as a new freehand stroke. */
  function AsFreehand(pieces: seq<seq<Segment>>): (ds: seq<Drawable>)
    ensures |ds| == |pieces|
  {
    seq(|pieces|, k requires 0 <= k < |pieces| => Freehand(pieces[k]))
  }

  /** Whether splitting changed a stroke: anything but exactly one piece as long as the stroke. */
  predicate Changed(pieces: seq<seq<Segment>>, segs: seq<Segment>)
  {
    |pieces| != 1 || |pieces[0]| != |segs|
  }

  /**
   * One step of `handleErase`: what the drawable contributes to the new
   * stroke list, and whether it was erased.
   */
  function EraseOne(d: Drawable, hit: Coords -> bool, turn: real -> (real, real), style: StyleRule): (seq<Drawable>, bool)
  {
    match d
    case Line(_, _, _, _, _, _, _) => if hit(Geom(LineSegment(d))) then ([], true) else ([d], false)
    case Text(_, _, _, _, _, _) => ([d], false)
    case _ =>
      var segs := Outline(d, turn);
      var pieces := Split(segs, hit, style(d));
      if Changed(pieces, segs) then (AsFreehand(pieces), true) else ([d], false)
  }

  /** Text is never touched. */
  lemma TextKept(d: Drawable, hit: Coords -> bool, turn: real -> (real, real), style: StyleRule)
    requires d.Text?
    ensures EraseOne(d, hit, turn, style) == ([d], false)
  {
  }

  /** A line is dropped whole exactly when the eraser touches it, and is otherwise kept as is. */
  lemma LineErasedIffHit(d: Drawable, hit: Coords -> bool, turn: real -> (real, real), style: StyleRule)
    requires d.Line?
    ensures EraseOne(d, hit, turn, style).1 <==> hit(Geom(LineSegment(d)))
    ensures EraseOne(d, hit, turn, style).0 == if hit(Geom(LineSegment(d))) then [] else [d]
  {
  }

  /**
   * A freehand stroke or shape is replaced exactly when its outline is empty
   * or the eraser touches one of its segments; otherwise it is kept as is.
   */
  lemma ShapeErasedIff(d: Drawable, hit: Coords -> bool, turn: real -> (real, real), style: StyleRule)
    requires d.Freehand? || d.Rect? || d.Circle?
    ensures EraseOne(d, hit, turn, style).1 <==>
      (|Outline(d, turn)| == 0 || exists k :: 0 <= k < |Outline(d, turn)| && hit(Geom(Outline(d, turn)[k])))
    ensures !EraseOne(d, hit, turn, style).1 ==> EraseOne(d, hit, turn, style).0 == [d]
  {
    var segs := Outline(d, turn);
    var st := style(d);
    var pieces := Split(segs, hit, st);
    if |segs| == 0 {
      SplitEmpty(hit, st);
    } else if k :| 0 <= k < |segs| && hit(Geom(segs[k])) {
      SplitShorter(segs, hit, st, k);
      if |pieces| == 1 {
        assert Flatten(pieces) == Flatten(pieces[..0]) + pieces[0];
      }
    } else {
      SplitNoHit(segs, hit, st);
    }
  }

  /** The pieces a freehand stroke or shape is replaced by are freehand strokes the eraser no longer touches. */
  lemma EraseOneOutputsClean(d: Drawable, hit: Coords -> bool, turn: real -> (real, real), style: StyleRule)
    ensures forall k :: 0 <= k < |EraseOne(d, hit, turn, style).0| ==> !EraseOne(EraseOne(d, hit, turn, style).0[k], hit, turn, style).1
  {
    var out := EraseOne(d, hit, turn, style).0;
    if EraseOne(d, hit, turn, style).1 && (d.Freehand? || d.Rect? || d.Circle?) {
      var pieces := Split(Outline(d, turn), hit, style(d));
      SplitSound(Outline(d, turn), hit, style(d));
      forall k | 0 <= k < |out|
        ensures !EraseOne(out[k], hit, turn, style).1
      {
        assert out[k] == Freehand(pieces[k]);
        ShapeErasedIff(out[k], hit, turn, style);
      }
    } else if !EraseOne(d, hit, turn, style).1 {
      forall k | 0 <= k < |out|
        ensures !EraseOne(out[k], hit, turn, style).1
      {
        assert out[k] == d;
      }
    }
  }

  // ---------------------------------------------------------------------
  // One eraser position over the whole canvas
  // ---------------------------------------------------------------------

  /** A step of the pass over the canvas: what one drawable becomes, and whether it was erased. */
  type Step = Drawable -> (seq<Drawable>, bool)

  /** The step `handleErase` takes for each drawable. */
  function EraseStep(hit: Coords -> bool, turn: real -> (real, real), style: StyleRule): Step
  {
    d => EraseOne(d, hit, turn, style)
  }

  /** A pass: each drawable's contribution, in order. */
  function Pass(ds: seq<Drawable>, step: Step): seq<Drawable>
  {
    if |ds| == 0 then [] else Pass(ds[..|ds| - 1], step) + step(ds[|ds| - 1]).0
  }

  /** Whether a pass erased anything. */
  predicate AnyStep(ds: seq<Drawable>, step: Step)
  {
    |ds| > 0 && (AnyStep(ds[..|ds| - 1], step) || step(ds[|ds| - 1]).1)
  }

  /** The new stroke list after one eraser position. */
  function EraseAll(ds: seq<Drawable>, hit: Coords -> bool, turn: real -> (real, real), style: StyleRule): seq<Drawable>
  {
    Pass(ds, EraseStep(hit, turn, style))
  }

  /** Whether one eraser position erased any drawable. */
  predicate AnyErased(ds: seq<Drawable>, hit: Coords -> bool, turn: real -> (real, real), style: StyleRule)
  {
    AnyStep(ds, EraseStep(hit, turn, style))
  }

  /** The pass over a non-empty list is the pass over all but the last drawable, then the last one's step. */
  lemma EraseAllSnoc(ds: seq<Drawable>, hit: Coords -> bool, turn: real -> (real, real), style: StyleRule)
    requires |ds| > 0
    ensures EraseAll(ds, hit, turn, style) == EraseAll(ds[..|ds| - 1], hit, turn, style) + EraseOne(ds[|ds| - 1], hit, turn, style).0
    ensures AnyErased(ds, hit, turn, style) == (AnyErased(ds[..|ds| - 1], hit, turn, style) || EraseOne(ds[|ds| - 1], hit, turn, style).1)
  {
  }

  lemma {:induction false} AnyStepIff(ds: seq<Drawable>, step: Step)
    ensures AnyStep(ds, step) <==> exists k :: 0 <= k < |ds| && step(ds[k]).1
  {
    if |ds| > 0 {
      var init := ds[..|ds| - 1];
      AnyStepIff(init, step);
      if AnyStep(ds, step) {
        if !step(ds[|ds| - 1]).1 {
          var k :| 0 <= k < |init| && step(init[k]).1;
          assert ds[k] == init[k];
        }
      } else {
        forall k | 0 <= k < |ds|
          ensures !step(ds[k]).1
        {
          if k < |init| {
            assert ds[k] == init[k];
          }
        }
      }
    }
  }

  lemma {:induction false} PassAppend(a: seq<Drawable>, b: seq<Drawable>, step: Step)
    ensures Pass(a + b, step) == Pass(a, step) + Pass(b, step)
    decreases |b|
  {
    if |b| == 0 {
      assert a + b == a;
    } else {
      var init := b[..|b| - 1];
      var out := step(b[|b| - 1]).0;
      assert (a + b)[..|a + b| - 1] == a + init;
      assert (a + b)[|a + b| - 1] == b[|b| - 1];
      PassAppend(a, init, step);
      calc {
        Pass(a + b, step);
        Pass(a + init, step) + out;
        Pass(a, step) + Pass(init, step) + out;
        Pass(a, step) + (Pass(init, step) + out);
      }
    }
  }

  lemma {:induction false} AnyStepAppend(a: seq<Drawable>, b: seq<Drawable>, step: Step)
    ensures AnyStep(a + b, step) == (AnyStep(a, step) || AnyStep(b, step))
    decreases |b|
  {
    if |b| == 0 {
      assert a + b == a;
    } else {
      var init := b[..|b| - 1];
      assert (a + b)[..|a + b| - 1] == a + init;
      assert (a + b)[|a + b| - 1] == b[|b| - 1];
      AnyStepAppend(a, init, step);
    }
  }

  lemma {:induction false} PassUnchanged(ds: seq<Drawable>, step: Step)
    requires forall d :: !step(d).1 ==> step(d).0 == [d]
    requires !AnyStep(ds, step)
    ensures Pass(ds, step) == ds
  {
    if |ds| > 0 {
      PassUnchanged(ds[..|ds| - 1], step);
      assert ds[..|ds| - 1] + [ds[|ds| - 1]] == ds;
    }
  }

  lemma {:induction false} PassIdempotent(ds: seq<Drawable>, step: Step)
    requires forall d :: !step(d).1 ==> step(d).0 == [d]
    requires forall d, k :: 0 <= k < |step(d).0| ==> !step(step(d).0[k]).1
    ensures !AnyStep(Pass(ds, step), step)
    ensures Pass(Pass(ds, step), step) == Pass(ds, step)
  {
    if |ds| > 0 {
      var init := ds[..|ds| - 1];
      PassIdempotent(init, step);
      var out := step(ds[|ds| - 1]).0;
      AnyStepIff(out, step);
      PassAppend(Pass(init, step), out, step);
      AnyStepAppend(Pass(init, step), out, step);
    }
    PassUnchanged(Pass(ds, step), step);
  }

  /** `AnyErased` holds exactly when some drawable was erased. */
  lemma AnyErasedIff(ds: seq<Drawable>, hit: Coords -> bool, turn: real -> (real, real), style: StyleRule)
    ensures AnyErased(ds, hit, turn, style) <==> exists k :: 0 <= k < |ds| && EraseOne(ds[k], hit, turn, style).1
  {
    AnyStepIff(ds, EraseStep(hit, turn, style));
  }

  /** The pass works drawable by drawable: erasing a concatenation erases each part. */
  lemma EraseAllAppend(a: seq<Drawable>, b: seq<Drawable>, hit: Coords -> bool, turn: real -> (real, real), style: StyleRule)
    ensures EraseAll(a + b, hit, turn, style) == EraseAll(a, hit, turn, style) + EraseAll(b, hit, turn, style)
    ensures AnyErased(a + b, hit, turn, style) == (AnyErased(a, hit, turn, style) || AnyErased(b, hit, turn, style))
  {
    PassAppend(a, b, EraseStep(hit, turn, style));
    AnyStepAppend(a, b, EraseStep(hit, turn, style));
  }

  /** A drawable the eraser does not erase is kept as it is. */
  lemma UnerasedKept(d: Drawable, hit: Coords -> bool, turn: real -> (real, real), style: StyleRule)
    ensures !EraseOne(d, hit, turn, style).1 ==> EraseOne(d, hit, turn, style).0 == [d]
  {
    if d.Freehand? || d.Rect? || d.Circle? {
      ShapeErasedIff(d, hit, turn, style);
    }
  }

  /** When nothing is erased, the new stroke list is the old one. */
  lemma NotErasedUnchanged(ds: seq<Drawable>, hit: Coords -> bool, turn: real -> (real, real), style: StyleRule)
    requires !AnyErased(ds, hit, turn, style)
    ensures EraseAll(ds, hit, turn, style) == ds
  {
    var step := EraseStep(hit, turn, style);
    forall d | !step(d).1
      ensures step(d).0 == [d]
    {
      UnerasedKept(d, hit, turn, style);
    }
    PassUnchanged(ds, step);
  }

  /** Erasing again at the same position erases nothing and changes nothing. */
  lemma EraseIdempotent(ds: seq<Drawable>, hit: Coords -> bool, turn: real -> (real, real), style: StyleRule)
    ensures !AnyErased(EraseAll(ds, hit, turn, style), hit, turn, style)
    ensures EraseAll(EraseAll(ds, hit, turn, style), hit, turn, style) == EraseAll(ds, hit, turn, style)
  {
    var step := EraseStep(hit, turn, style);
    forall d | !step(d).1
      ensures step(d).0 == [d]
    {
      UnerasedKept(d, hit, turn, style);
    }
    forall d, k | 0 <= k < |step(d).0|
      ensures !step(step(d).0[k]).1
    {
      EraseOneOutputsClean(d, hit, turn, style);
    }
    PassIdempotent(ds, step);
  }

  /** The text drawables of a stroke list, in order. */
  function Texts(ds: seq<Drawable>): seq<Drawable>
  {
    if |ds| == 0 then [] else Texts(ds[..|ds| - 1]) + (if ds[|ds| - 1].Text? then [ds[|ds| - 1]] else [])
  }

  lemma {:induction false} TextsAppend(a: seq<Drawable>, b: seq<Drawable>)
    ensures Texts(a + b) == Texts(a) + Texts(b)
    decreases |b|
  {
    if |b| == 0 {
      assert a + b == a;
    } else {
      assert (a + b)[..|a + b| - 1] == a + b[..|b| - 1];
      TextsAppend(a, b[..|b| - 1]);
    }
  }

  lemma {:induction false} NoTexts(ds: seq<Drawable>)
    requires forall k :: 0 <= k < |ds| ==> !ds[k].Text?
    ensures Texts(ds) == []
  {
    if |ds| > 0 {
      NoTexts(ds[..|ds| - 1]);
    }
  }

  /** Text is never touched: the texts survive the pass unchanged and in order. */
  lemma {:induction false} TextsPreserved(ds: seq<Drawable>, hit: Coords -> bool, turn: real -> (real, real), style: StyleRule)
    ensures Texts(EraseAll(ds, hit, turn, style)) == Texts(ds)
  {
    if |ds| > 0 {
      var init := ds[..|ds| - 1];
      var d := ds[|ds| - 1];
      TextsPreserved(init, hit, turn, style);
      EraseAllSnoc(ds, hit, turn, style);
      var out := EraseOne(d, hit, turn, style).0;
      TextsAppend(EraseAll(init, hit, turn, style), out);
      if out != [d] {
        NoTexts(out);
      } else {
        assert Texts(out) == Texts(out[..0]) + (if d.Text? then [d] else []);
      }
      assert Texts([d]) == Texts([d][..0]) + (if d.Text? then [d] else []);
    }
  }

  /** The lines of a stroke list that the eraser does not touch, in order. */
  function UnhitLines(ds: seq<Drawable>, hit: Coords -> bool): seq<Drawable>
  {
    if |ds| == 0 then []
    else
      var d := ds[|ds| - 1];
      UnhitLines(ds[..|ds| - 1], hit) + (if d.Line? && !hit(Geom(LineSegment(d))) then [d] else [])
  }

  /** The lines of a stroke list, in order. */
  function Lines(ds: seq<Drawable>): seq<Drawable>
  {
    if |ds| == 0 then [] else Lines(ds[..|ds| - 1]) + (if ds[|ds| - 1].Line? then [ds[|ds| - 1]] else [])
  }

  lemma {:induction false} LinesAppend(a: seq<Drawable>, b: seq<Drawable>)
    ensures Lines(a + b) == Lines(a) + Lines(b)
    decreases |b|
  {
    if |b| == 0 {
      assert a + b == a;
    } else {
      assert (a + b)[..|a + b| - 1] == a + b[..|b| - 1];
      LinesAppend(a, b[..|b| - 1]);
    }
  }

  lemma {:induction false} NoLines(ds: seq<Drawable>)
    requires forall k :: 0 <= k < |ds| ==> !ds[k].Line?
    ensures Lines(ds) == []
  {
    if |ds| > 0 {
      NoLines(ds[..|ds| - 1]);
    }
  }

  /** Lines are dropped whole: the lines after the pass are exactly the untouched ones, in order. */
  lemma {:induction false} LinesAfterErase(ds: seq<Drawable>, hit: Coords -> bool, turn: real -> (real, real), style: StyleRule)
    ensures Lines(EraseAll(ds, hit, turn, style)) == UnhitLines(ds, hit)
  {
    if |ds| > 0 {
      var init := ds[..|ds| - 1];
      var d := ds[|ds| - 1];
      LinesAfterErase(init, hit, turn, style);
      EraseAllSnoc(ds, hit, turn, style);
      var out := EraseOne(d, hit, turn, style).0;
      LinesAppend(EraseAll(init, hit, turn, style), out);
      if out != [d] {
        NoLines(out);
      } else {
        assert Lines(out) == Lines(out[..0]) + (if d.Line? then [d] else []);
      }
    }
  }

  /**
   * A freehand stroke drawn in one colour and width keeps them: every
   * segment of every piece it is split into carries that colour and width.
   */
  lemma FreehandKeepsStyle(segs: seq<Segment>, hit: Coords -> bool, turn: real -> (real, real), c: Option<string>, w: Option<real>)
    requires forall k :: 0 <= k < |segs| ==> segs[k].color == c && segs[k].lineWidth == w
    ensures forall p :: p in EraseOne(Freehand(segs), hit, turn, EraseStyle).0 ==>
      p.Freehand? && forall j :: 0 <= j < |p.segs| ==> p.segs[j].color == c && p.segs[j].lineWidth == w
  {
    SplitSound(segs, hit, EraseStyle(Freehand(segs)));
  }

  /** The segments of the example below: a black stroke along the x axis. */
  function BlackSegment(x0: real, x1: real): Segment
  {
    Segment(x0, 0.0, x1, 0.0, Some("#000000"), Some(2.0), false)
  }

  /** The eraser of the example: radius 1 at (15, 0), the middle of the second segment. */
  const ExampleEraser := EraserDisc(15.0, 0.0, 1.0)

  lemma ExampleFirstMissed()
    ensures !Hit(ExampleEraser, Geom(BlackSegment(0.0, 10.0)))
  {
    assert ProjectionParam(15.0, 0.0, 0.0, 0.0, 10.0, 0.0) == 1.0 by {
      assert Quot(150.0, 100.0) == 1.5;
    }
    assert PointToSegmentDistSq(15.0, 0.0, 0.0, 0.0, 10.0, 0.0) == 25.0;
  }

  lemma ExampleSecondHit()
    ensures Hit(ExampleEraser, Geom(BlackSegment(10.0, 20.0)))
  {
    assert ProjectionParam(15.0, 0.0, 10.0, 0.0, 20.0, 0.0) == 0.5 by {
      assert Quot(50.0, 100.0) == 0.5;
    }
    assert PointToSegmentDistSq(15.0, 0.0, 10.0, 0.0, 20.0, 0.0) == 0.0;
  }

  /**
   * As written, erasing part of a freehand stroke loses its colour and
   * width: for a stroke of two segments whose second one the eraser
   * touches, the one freehand piece that replaces it has no colour and no
   * width, whatever the stroke was drawn in.
   */
  lemma FreehandStyleLostAsWritten(s0: Segment, s1: Segment, hit: Coords -> bool, turn: real -> (real, real))
    requires !hit(Geom(s0)) && hit(Geom(s1))
    ensures var pieces := Split([s0, s1], hit, EraseStyleAsWritten(Freehand([s0, s1])));
      && |pieces| == 1 && |pieces[0]| == 1 && Geom(pieces[0][0]) == Geom(s0)
      && pieces[0][0].color == None && pieces[0][0].lineWidth == None
    ensures var out := EraseOne(Freehand([s0, s1]), hit, turn, EraseStyleAsWritten);
      && out.1 && |out.0| == 1 && out.0[0].Freehand? && |out.0[0].segs| == 1
      && out.0[0].segs[0].color == None && out.0[0].segs[0].lineWidth == None
  {
    assert [s0, s1] == [s0] + [s1] + [];
    RunsCut([s0], s1, [], hit);
    NoHitOneRun([s0], hit);
    RestyleAllAt([[s0]], Style(None, None), 0);
  }

  /** The same stroke split with the corrected style keeps the colour and width of its first segment. */
  lemma FreehandStyleKeptCorrected(s0: Segment, s1: Segment, hit: Coords -> bool, turn: real -> (real, real))
    requires !hit(Geom(s0)) && hit(Geom(s1))
    ensures var out := EraseOne(Freehand([s0, s1]), hit, turn, EraseStyle);
      && out.1 && |out.0| == 1
      && forall p :: p in out.0 ==> p.Freehand? && forall j :: 0 <= j < |p.segs| ==>
           p.segs[j].color == s0.color && p.segs[j].lineWidth == s0.lineWidth
  {
    assert [s0, s1] == [s0] + [s1] + [];
    RunsCut([s0], s1, [], hit);
    NoHitOneRun([s0], hit);
    RestyleAllAt([[s0]], EraseStyle(Freehand([s0, s1])), 0);
  }

  /**
   * Such a stroke exists: a black stroke from (0, 0) through (10, 0) to
   * (20, 0), erased at (15, 0) with radius 1, the eraser touching the second
   * segment only.
   */
  lemma FreehandStyleLossWitness()
    ensures !Hit(ExampleEraser, Geom(BlackSegment(0.0, 10.0)))
    ensures Hit(ExampleEraser, Geom(BlackSegment(10.0, 20.0)))
  {
    ExampleFirstMissed();
    ExampleSecondHit();
  }

  // ---------------------------------------------------------------------
  // The canvas
  // ---------------------------------------------------------------------

  /**
   * The body of the `forEach` in `handleErase` for one drawable: what it
   * pushes onto the new stroke list and whether it erased something.
   */
  method EraseStroke(stroke: Drawable, hit: Coords -> bool, turn: real -> (real, real), style: StyleRule) returns (out: seq<Drawable>, wasErased: bool)
    ensures (out, wasErased) == EraseOne(stroke, hit, turn, style)
    ensures !wasErased ==> out == [stroke]
  {
    out := [];
    wasErased := false;
    if stroke.Line? {
      if hit(Geom(LineSegment(stroke))) {
        wasErased := true;
      } else {
        out := [stroke];
      }
    } else if stroke.Text? {
      out := [stroke];
    } else {
      var strokeAsSegments: seq<Segment>;
      if stroke.Freehand? {
        strokeAsSegments := stroke.segs;
      } else if stroke.Rect? {
        strokeAsSegments := RectToSegments(stroke, RECT_STEPS);
      } else {
        strokeAsSegments := CircleToSegments(stroke, CIRCLE_STEPS, turn);
        assert strokeAsSegments == CircleOutline(stroke, CIRCLE_STEPS, turn);
      }
      var splitStrokes := SplitStrokeByEraser(strokeAsSegments, hit, style(stroke));
      if |splitStrokes| != 1 || |splitStrokes[0]| != |strokeAsSegments| {
        out := AsFreehand(splitStrokes);
        wasErased := true;
      }
      if !wasErased {
        out := [stroke];
      }
    }
  }

  /** The client's copy of the room's stroke list, which `handleErase` overwrites. */
  class Canvas {
    var strokes: seq<Drawable>

    constructor (initial: seq<Drawable>)
      ensures strokes == initial
    {
      strokes := initial;
    }

    /**
     * `handleErase`: one pass over the stroke list for the eraser at
     * (x, y). The list is replaced when something was erased or the erase
     * is the user's own; the result says whether anything was erased.
     */
    method HandleErase(x: real, y: real, radius: real, isLocal: bool, turn: real -> (real, real), style: StyleRule) returns (somethingErased: bool)
      modifies this
      ensures somethingErased == AnyErased(old(strokes), Touching(EraserDisc(x, y, radius)), turn, style)
      ensures strokes == if somethingErased || isLocal then EraseAll(old(strokes), Touching(EraserDisc(x, y, radius)), turn, style) else old(strokes)
      ensures !somethingErased ==> strokes == old(strokes)
    {
      var hit := Touching(EraserDisc(x, y, radius));
      var current := strokes;
      var newStrokes: seq<Drawable> := [];
      somethingErased := false;
      var i := 0;
      while i < |current|
        invariant 0 <= i <= |current|
        invariant strokes == current
        invariant newStrokes == EraseAll(current[..i], hit, turn, style)
        invariant somethingErased == AnyErased(current[..i], hit, turn, style)
      {
        assert current[..i + 1][..i] == current[..i];
        EraseAllSnoc(current[..i + 1], hit, turn, style);
        var out, wasErased := EraseStroke(current[i], hit, turn, style);
        newStrokes := newStrokes + out;
        somethingErased := somethingErased || wasErased;
        i := i + 1;
      }
      assert current[..|current|] == current;
      if !somethingErased {
        NotErasedUnchanged(current, hit, turn, style);
      }
      if somethingErased || isLocal {
        strokes := newStrokes;
      }
    }
  }
}
