/**
 Glyph outlines as cubic Bézier control points (`FontFace::GlyphOutlineProcessor`).

 FreeType walks a glyph outline as a series of move, line, conic (quadratic
 Bézier) and cubic segments whose points are in font units. The processor
 maps every point into scene space (scale, then offset) and turns each drawing
 segment into exactly four control points of a cubic Bézier curve. Lines and
 conics are degree-elevated, so the cubic traces the very same curve; the
 lemmas below prove that, and that the resulting path is connected.
 */
module FontOutline {

  /** `Vector2d`: a point or a displacement in the plane. */
  datatype Vec2 = Vec2(x: real, y: real)

  function Origin(): Vec2 { Vec2(0.0, 0.0) }

  function Plus(a: Vec2, b: Vec2): Vec2 { Vec2(a.x + b.x, a.y + b.y) }

  function Times(a: Vec2, s: real): Vec2 { Vec2(a.x * s, a.y * s) }

  /** The point a fraction `t` of the way from `a` to `b`. */
  function Lerp(a: real, b: real, t: real): real { a + t * (b - a) }

  function Between(a: Vec2, b: Vec2, t: real): Vec2 { Vec2(Lerp(a.x, b.x, t), Lerp(a.y, b.y, t)) }

  /** `FT_Vector`: a point in font units. */
  datatype FontVector = FontVector(x: int, y: int)

  /** The processor: the control points emitted so far, the mapping into scene space
      (`mScaling`, `mOffset`) and the end point of the last segment (`mPreviousTo`). */
  datatype OutlineProcessor =
    OutlineProcessor(controlPoints: seq<Vec2>, scaling: real, offset: Vec2, previousTo: Vec2)

  /** A freshly constructed processor; the current point starts at the origin. */
  function NewProcessor(scaling: real, offset: Vec2): (p: OutlineProcessor)
    ensures p.controlPoints == [] && p.scaling == scaling && p.offset == offset
  {
    OutlineProcessor([], scaling, offset, Origin())
  }

  /** `ConvertPoint`: font units to scene space. With a nonzero scaling the mapping can be
      undone, so distinct font points stay distinct. */
  function ConvertPoint(p: OutlineProcessor, v: FontVector): (r: Vec2)
    ensures p.scaling != 0.0 ==>
              (r.x - p.offset.x) / p.scaling == v.x as real && (r.y - p.offset.y) / p.scaling == v.y as real
  {
    Plus(Times(Vec2(v.x as real, v.y as real), p.scaling), p.offset)
  }

  /** Two processor states map points into scene space alike. */
  predicate SameMapping(p: OutlineProcessor, q: OutlineProcessor) {
    p.scaling == q.scaling && p.offset == q.offset
  }

  /** The new state appended the four control points `a`, `b`, `c`, `d` to those of `p`,
      the first being `p`'s current point and the last the new current point. */
  predicate AppendedSegment(p: OutlineProcessor, r: OutlineProcessor, b: Vec2, c: Vec2, d: Vec2) {
    SameMapping(p, r)
    && r.controlPoints == p.controlPoints + [p.previousTo, b, c, d]
    && r.previousTo == d
  }

  /** `MoveTo`: starts a new contour; no control point is emitted. */
  function MoveTo(p: OutlineProcessor, to: FontVector): (r: OutlineProcessor)
    ensures SameMapping(p, r) && r.controlPoints == p.controlPoints
    ensures r.previousTo == ConvertPoint(p, to)
  {
    p.(previousTo := ConvertPoint(p, to))
  }

  /** `LineTo`: a straight segment, with its inner control points a third and two thirds of
      the way along it. */
  function LineTo(p: OutlineProcessor, to: FontVector): (r: OutlineProcessor)
    ensures var d := ConvertPoint(p, to);
            AppendedSegment(p, r, Between(p.previousTo, d, 1.0 / 3.0), Between(p.previousTo, d, 2.0 / 3.0), d)
  {
    var from := p.previousTo;
    var pTo := ConvertPoint(p, to);
    var cp := p.controlPoints + [from, Times(Plus(Times(from, 2.0), pTo), 1.0 / 3.0),
                                       Times(Plus(from, Times(pTo, 2.0)), 1.0 / 3.0), pTo];
    p.(controlPoints := cp, previousTo := pTo)
  }

  /** `ConicTo`: a quadratic segment, degree-elevated: each inner control point lies two
      thirds of the way from an end point towards the quadratic control point. */
  function ConicTo(p: OutlineProcessor, control: FontVector, to: FontVector): (r: OutlineProcessor)
    ensures var k := ConvertPoint(p, control);
            var d := ConvertPoint(p, to);
            AppendedSegment(p, r, Between(p.previousTo, k, 2.0 / 3.0), Between(d, k, 2.0 / 3.0), d)
  {
    var from := p.previousTo;
    var pControl := ConvertPoint(p, control);
    var pTo := ConvertPoint(p, to);
    var cp := p.controlPoints + [from, Times(Plus(from, Times(pControl, 2.0)), 1.0 / 3.0),
                                       Times(Plus(pTo, Times(pControl, 2.0)), 1.0 / 3.0), pTo];
    p.(controlPoints := cp, previousTo := pTo)
  }

  /** `CubicTo`: a cubic segment, whose converted control points are kept as they are. */
  function CubicTo(p: OutlineProcessor, control1: FontVector, control2: FontVector, to: FontVector)
    : (r: OutlineProcessor)
    ensures AppendedSegment(p, r, ConvertPoint(p, control1), ConvertPoint(p, control2), ConvertPoint(p, to))
  {
    var pTo := ConvertPoint(p, to);
    p.(controlPoints := p.controlPoints + [p.previousTo, ConvertPoint(p, control1), ConvertPoint(p, control2), pTo],
       previousTo := pTo)
  }

  // ---------------------------------------------------------------- the curves traced

  /** The cubic Bézier curve with control values `p0` .. `p3` at parameter `t`. */
  function CubicAt(p0: real, p1: real, p2: real, p3: real, t: real): real {
    var s := 1.0 - t;
    s * s * s * p0 + 3.0 * s * s * t * p1 + 3.0 * s * t * t * p2 + t * t * t * p3
  }

  /** The quadratic Bézier curve with control values `p0`, `p1`, `p2` at parameter `t`. */
  function QuadraticAt(p0: real, p1: real, p2: real, t: real): real {
    var s := 1.0 - t;
    s * s * p0 + 2.0 * s * t * p1 + t * t * p2
  }

  function CubicPoint(p0: Vec2, p1: Vec2, p2: Vec2, p3: Vec2, t: real): Vec2 {
    Vec2(CubicAt(p0.x, p1.x, p2.x, p3.x, t), CubicAt(p0.y, p1.y, p2.y, p3.y, t))
  }

  function QuadraticPoint(p0: Vec2, p1: Vec2, p2: Vec2, t: real): Vec2 {
    Vec2(QuadraticAt(p0.x, p1.x, p2.x, t), QuadraticAt(p0.y, p1.y, p2.y, t))
  }

  /** Control values a third and two thirds of the way along a line give back the line. */
  lemma LineElevation(a: real, b: real, t: real)
    ensures CubicAt(a, Lerp(a, b, 1.0 / 3.0), Lerp(a, b, 2.0 / 3.0), b, t) == Lerp(a, b, t)
  {
    var s := 1.0 - t;
    assert Lerp(a, b, 1.0 / 3.0) == (2.0 * a + b) / 3.0;
    assert Lerp(a, b, 2.0 / 3.0) == (a + 2.0 * b) / 3.0;
    assert CubicAt(a, Lerp(a, b, 1.0 / 3.0), Lerp(a, b, 2.0 / 3.0), b, t)
        == a * s * (s + t) * (s + t) + b * t * (s + t) * (s + t);
  }

  /** Degree elevation: the cubic with inner values two thirds of the way towards the
      quadratic control value traces the quadratic curve. */
  lemma ConicElevation(a: real, k: real, b: real, t: real)
    ensures CubicAt(a, Lerp(a, k, 2.0 / 3.0), Lerp(b, k, 2.0 / 3.0), b, t) == QuadraticAt(a, k, b, t)
  {
    var s := 1.0 - t;
    assert Lerp(a, k, 2.0 / 3.0) == (a + 2.0 * k) / 3.0;
    assert Lerp(b, k, 2.0 / 3.0) == (b + 2.0 * k) / 3.0;
    assert CubicAt(a, Lerp(a, k, 2.0 / 3.0), Lerp(b, k, 2.0 / 3.0), b, t)
        == (s * s * a + 2.0 * s * t * k + t * t * b) * (s + t);
  }

  /** The four control points `LineTo` emits trace the straight segment from the previous
      current point to the target, at the same parameter. */
  lemma LineToTracesLine(p: OutlineProcessor, to: FontVector, t: real)
    ensures var r := LineTo(p, to);
            var n := |p.controlPoints|;
            CubicPoint(r.controlPoints[n], r.controlPoints[n + 1], r.controlPoints[n + 2], r.controlPoints[n + 3], t)
            == Between(p.previousTo, ConvertPoint(p, to), t)
  {
    var a := p.previousTo;
    var b := ConvertPoint(p, to);
    LineElevation(a.x, b.x, t);
    LineElevation(a.y, b.y, t);
  }

  /** The four control points `ConicTo` emits trace the quadratic segment FreeType
      described. */
  lemma ConicToTracesQuadratic(p: OutlineProcessor, control: FontVector, to: FontVector, t: real)
    ensures var r := ConicTo(p, control, to);
            var n := |p.controlPoints|;
            CubicPoint(r.controlPoints[n], r.controlPoints[n + 1], r.controlPoints[n + 2], r.controlPoints[n + 3], t)
            == QuadraticPoint(p.previousTo, ConvertPoint(p, control), ConvertPoint(p, to), t)
  {
    var a := p.previousTo;
    var k := ConvertPoint(p, control);
    var b := ConvertPoint(p, to);
    ConicElevation(a.x, k.x, b.x, t);
    ConicElevation(a.y, k.y, b.y, t);
  }

  // ---------------------------------------------------------------- a whole outline

  /** One outline segment as FreeType's decomposer reports it. */
  datatype Segment =
    | Move(to: FontVector)
    | Line(to: FontVector)
    | Conic(control: FontVector, to: FontVector)
    | Cubic(control1: FontVector, control2: FontVector, to: FontVector)

  /** The processor's callback for one segment. */
  function Apply(p: OutlineProcessor, s: Segment): OutlineProcessor {
    match s
    case Move(to) => MoveTo(p, to)
    case Line(to) => LineTo(p, to)
    case Conic(control, to) => ConicTo(p, control, to)
    case Cubic(control1, control2, to) => CubicTo(p, control1, control2, to)
  }

  /** A drawing segment appends one cubic that starts at the current point and ends at the
      new one; a move appends nothing. */
  lemma ApplyDrawing(p: OutlineProcessor, s: Segment)
    ensures var q := Apply(p, s);
            var n := |p.controlPoints|;
            SameMapping(p, q)
            && |q.controlPoints| == n + (if s.Move? then 0 else 4)
            && q.controlPoints[..n] == p.controlPoints
            && (!s.Move? ==> q.controlPoints[n] == p.previousTo && q.controlPoints[n + 3] == q.previousTo)
  {
  }

  /** Feeds the segments to the processor in order. */
  function Process(p: OutlineProcessor, segments: seq<Segment>): OutlineProcessor
    decreases |segments|
  {
    if |segments| == 0 then p else Process(Apply(p, segments[0]), segments[1..])
  }

  /** How many of the segments draw (all but the moves). */
  function DrawingCount(segments: seq<Segment>): nat
    decreases |segments|
  {
    if |segments| == 0 then 0
    else (if segments[0].Move? then 0 else 1) + DrawingCount(segments[1..])
  }

  /** `GetCubicBezierOutline`: the control points of a glyph's outline, given the segments
      FreeType's decomposer reports for it, the face's scaling and the glyph's offset. */
  function CubicBezierOutline(scaling: real, offset: Vec2, segments: seq<Segment>): seq<Vec2> {
    Process(NewProcessor(scaling, offset), segments).controlPoints
  }

  /** Every drawing segment contributes exactly four control points, after those already
      there, and the mapping into scene space never changes. */
  lemma {:induction false} ProcessCount(p: OutlineProcessor, segments: seq<Segment>)
    ensures var r := Process(p, segments);
            SameMapping(p, r)
            && |r.controlPoints| == |p.controlPoints| + 4 * DrawingCount(segments)
            && r.controlPoints[..|p.controlPoints|] == p.controlPoints
    decreases |segments|
  {
    if |segments| > 0 {
      var q := Apply(p, segments[0]);
      ApplyDrawing(p, segments[0]);
      ProcessCount(q, segments[1..]);
      var r := Process(p, segments);
      assert r.controlPoints[..|q.controlPoints|] == q.controlPoints;
      assert r.controlPoints[..|p.controlPoints|] == r.controlPoints[..|q.controlPoints|][..|p.controlPoints|];
    }
  }

  /** The outline of a glyph has four control points per drawing segment. */
  lemma OutlineLength(scaling: real, offset: Vec2, segments: seq<Segment>)
    ensures |CubicBezierOutline(scaling, offset, segments)| == 4 * DrawingCount(segments)
  {
    ProcessCount(NewProcessor(scaling, offset), segments);
  }

  /** Each of the `count` cubics in `points` from index `n` on starts where the one before
      it ended. */
  predicate Joined(points: seq<Vec2>, n: nat, count: nat) {
    |points| == n + 4 * count
    && forall k :: 0 < k < count ==> points[n + 4 * k] == points[n + 4 * k - 1]
  }

  /** A cubic followed by joined cubics that start where it ends is joined to them. */
  lemma JoinedCons(points: seq<Vec2>, n: nat, count: nat)
    requires count > 0 && Joined(points, n + 4, count - 1)
    requires count > 1 ==> points[n + 4] == points[n + 3]
    ensures Joined(points, n, count)
  {
    forall k | 0 < k < count
      ensures points[n + 4 * k] == points[n + 4 * k - 1]
    {
      if k > 1 {
        assert points[(n + 4) + 4 * (k - 1)] == points[(n + 4) + 4 * (k - 1) - 1];
      }
    }
  }

  /** Within one contour the emitted cubics join up: the first starts at the current point,
      each later one starts where the one before it ended, and the last ends at the new
      current point. */
  lemma {:induction false} ContourIsConnected(p: OutlineProcessor, segments: seq<Segment>)
    requires forall i :: 0 <= i < |segments| ==> !segments[i].Move?
    ensures var r := Process(p, segments);
            var n := |p.controlPoints|;
            Joined(r.controlPoints, n, |segments|)
            && (|segments| > 0 ==> r.controlPoints[n] == p.previousTo
                                   && r.controlPoints[n + 4 * |segments| - 1] == r.previousTo)
    decreases |segments|
  {
    var n := |p.controlPoints|;
    if |segments| > 0 {
      var q := Apply(p, segments[0]);
      ApplyDrawing(p, segments[0]);
      ContourIsConnected(q, segments[1..]);
      ProcessCount(q, segments[1..]);
      var r := Process(q, segments[1..]);
      assert r == Process(p, segments);
      assert r.controlPoints[..n + 4] == q.controlPoints;
      assert r.controlPoints[n] == q.controlPoints[n];
      assert r.controlPoints[n + 3] == q.controlPoints[n + 3];
      JoinedCons(r.controlPoints, n, |segments|);
    }
  }

  // ---------------------------------------------------------------- translation

  /** `q` is `p` moved by `o`: every point, the current point and the mapping's offset. */
  predicate Translated(p: OutlineProcessor, q: OutlineProcessor, o: Vec2) {
    q.scaling == p.scaling && q.offset == Plus(p.offset, o) && q.previousTo == Plus(p.previousTo, o)
    && |q.controlPoints| == |p.controlPoints|
    && forall i :: 0 <= i < |p.controlPoints| ==> q.controlPoints[i] == Plus(p.controlPoints[i], o)
  }

  /** Every segment keeps two processors that differ by a translation apart by it. */
  lemma ApplyTranslated(p: OutlineProcessor, q: OutlineProcessor, o: Vec2, s: Segment)
    requires Translated(p, q, o)
    ensures Translated(Apply(p, s), Apply(q, s), o)
  {
    var p' := Apply(p, s);
    var q' := Apply(q, s);
    var n := |p.controlPoints|;
    forall i | n <= i < |p'.controlPoints|
      ensures q'.controlPoints[i] == Plus(p'.controlPoints[i], o)
    {
    }
  }

  /** Processing keeps a translation. */
  lemma {:induction false} ProcessTranslated(p: OutlineProcessor, q: OutlineProcessor, o: Vec2, segments: seq<Segment>)
    requires Translated(p, q, o)
    ensures Translated(Process(p, segments), Process(q, segments), o)
    decreases |segments|
  {
    if |segments| > 0 {
      ApplyTranslated(p, q, o, segments[0]);
      ProcessTranslated(Apply(p, segments[0]), Apply(q, segments[0]), o, segments[1..]);
    }
  }

  /** The glyph's offset only moves its outline: since FreeType opens every contour with a
      move, the outline at offset `o` is the outline at the origin shifted by `o`. */
  lemma OutlineTranslates(scaling: real, o: Vec2, segments: seq<Segment>)
    requires |segments| > 0 && segments[0].Move?
    ensures var at0 := CubicBezierOutline(scaling, Origin(), segments);
            var ato := CubicBezierOutline(scaling, o, segments);
            |ato| == |at0| && forall i :: 0 <= i < |at0| ==> ato[i] == Plus(at0[i], o)
  {
    var p := MoveTo(NewProcessor(scaling, Origin()), segments[0].to);
    var q := MoveTo(NewProcessor(scaling, o), segments[0].to);
    assert Translated(p, q, o);
    ProcessTranslated(p, q, o, segments[1..]);
  }
}
