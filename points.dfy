/** Point records of the polygon editor, the square hit test, and the
    newest-first scan that every input handler uses to pick a point. */
module Points {

  datatype Option<T> = None | Some(value: T)

  /** One polygon vertex. `x`, `y` are canvas pixels; `xPercent`, `yPercent`
      are the same position as fractions of the canvas width and height. */
  datatype Point = Point(x: real, y: real, xPercent: real, yPercent: real, hovered: bool, moved: bool)

  /** Half-width of the square hit region around a point (the point marker width setting). */
  const Radius: real := 4.0

  /** The cursor (x, y) lies in the closed square of half-width Radius centred on p. */
  predicate Hits(p: Point, x: real, y: real)
  {
    x >= p.x - Radius && x <= p.x + Radius && y >= p.y - Radius && y <= p.y + Radius
  }

  /** A point always matches a cursor placed on it: the square has a
      non-negative half-width. */
  lemma HitsOwnPosition(p: Point)
    ensures Hits(p, p.x, p.y)
  {
  }

  predicate IsMoved(p: Point) { p.moved }

  predicate IsHovered(p: Point) { p.hovered }

  /** The highest index whose element satisfies f: what a loop running from the
      end of the list down to 0 and stopping at the first match finds. */
  function LastIndex<T>(s: seq<T>, f: T -> bool): (r: Option<nat>)
    ensures r.Some? ==> r.value < |s| && f(s[r.value])
    ensures r.Some? ==> forall j :: r.value < j < |s| ==> !f(s[j])
    ensures r.None? <==> forall j :: 0 <= j < |s| ==> !f(s[j])
  {
    if |s| == 0 then None
    else if f(s[|s| - 1]) then Some(|s| - 1)
    else LastIndex(s[..|s| - 1], f)
  }

  /** The newest point whose hit square contains the cursor, if any. */
  function LastHit(ps: seq<Point>, x: real, y: real): (r: Option<nat>)
    ensures r.Some? ==> r.value < |ps| && Hits(ps[r.value], x, y)
    ensures r.Some? ==> forall j :: r.value < j < |ps| ==> !Hits(ps[j], x, y)
    ensures r.None? <==> forall j :: 0 <= j < |ps| ==> !Hits(ps[j], x, y)
  {
    LastIndex(ps, p => Hits(p, x, y))
  }

  /** A scan that stopped at i, having rejected every later index, found LastIndex. */
  lemma LastIndexAt<T>(s: seq<T>, f: T -> bool, i: nat)
    requires i < |s| && f(s[i])
    requires forall j :: i < j < |s| ==> !f(s[j])
    ensures LastIndex(s, f) == Some(i)
  {
  }

  lemma LastHitAt(ps: seq<Point>, x: real, y: real, i: nat)
    requires i < |ps| && Hits(ps[i], x, y)
    requires forall j :: i < j < |ps| ==> !Hits(ps[j], x, y)
    ensures LastHit(ps, x, y) == Some(i)
  {
  }

  /** Fraction of the canvas size `size` that the pixel coordinate v is at. */
  function Percent(v: real, size: nat): real
    requires size > 0
  {
    v / size as real
  }

  /** At most one point shows the hover marker. */
  predicate AtMostOneHovered(ps: seq<Point>)
  {
    forall i, j :: 0 <= i < |ps| && 0 <= j < |ps| && ps[i].hovered && ps[j].hovered ==> i == j
  }

  /** At most one point is being dragged. */
  predicate AtMostOneMoved(ps: seq<Point>)
  {
    forall i, j :: 0 <= i < |ps| && 0 <= j < |ps| && ps[i].moved && ps[j].moved ==> i == j
  }

  /** A point can only be dragged while it is the hovered one. */
  predicate MovedAreHovered(ps: seq<Point>)
  {
    forall i :: 0 <= i < |ps| && ps[i].moved ==> ps[i].hovered
  }

  /** The invariant every input handler keeps on the point list. */
  predicate EditorInvariant(ps: seq<Point>)
  {
    AtMostOneHovered(ps) && MovedAreHovered(ps)
  }

  /** The pixel coordinates of p agree with its stored fractions for a w by h canvas. */
  predicate PointConsistent(p: Point, w: nat, h: nat)
  {
    p.x == p.xPercent * w as real && p.y == p.yPercent * h as real
  }

  /** Every point's pixel coordinates agree with its stored fractions. */
  predicate Consistent(ps: seq<Point>, w: nat, h: nat)
  {
    forall i :: 0 <= i < |ps| ==> PointConsistent(ps[i], w, h)
  }

  /** Under the editor invariant at most one point is dragged, and a dragged
      point is exactly the one a newest-first search for the hovered point finds. */
  lemma InvariantBoundsMoved(ps: seq<Point>)
    requires EditorInvariant(ps)
    ensures AtMostOneMoved(ps)
    ensures forall i :: 0 <= i < |ps| && ps[i].moved ==> LastIndex(ps, IsHovered) == Some(i)
  {
    forall i | 0 <= i < |ps| && ps[i].moved
      ensures LastIndex(ps, IsHovered) == Some(i)
    {
      LastIndexAt(ps, IsHovered, i);
    }
  }
}
