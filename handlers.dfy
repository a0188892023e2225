/** What each input handler of the editor does to the point list, as functions
    of the old list, the cursor and the canvas size, with the properties the
    editor relies on proved about them. */
module Handlers {
  import opened Points

  /** A decoded image, by its natural pixel size. */
  datatype Image = Image(width: nat, height: nat)

  /** Canvas height for a canvas `w` pixels wide showing `img` at its aspect
      ratio; the canvas height attribute is an integer, so the quotient is truncated. */
  function FittedHeight(w: nat, img: Image): (h: nat)
    requires img.width > 0
    ensures h * img.width <= w * img.height < (h + 1) * img.width
  {
    (w * img.height) / img.width
  }

  /** The dragged point p follows the cursor; its fractions are recomputed, its flags kept. */
  function DragTo(p: Point, x: real, y: real, w: nat, h: nat): Point
    requires w > 0 && h > 0
  {
    p.(x := x, y := y, xPercent := Percent(x, w), yPercent := Percent(y, h))
  }

  /** Every point loses its hover flag except index k, if any, which gains it. */
  function Hover(ps: seq<Point>, k: Option<nat>): seq<Point>
  {
    seq(|ps|, j requires 0 <= j < |ps| => ps[j].(hovered := k == Some(j)))
  }

  /** Pointer move: drag the newest dragged point if there is one, otherwise
      recompute hover from the newest point under the cursor. */
  function AfterMove(ps: seq<Point>, x: real, y: real, w: nat, h: nat): (r: seq<Point>)
    requires LastIndex(ps, IsMoved).Some? ==> w > 0 && h > 0
    ensures |r| == |ps|
    ensures forall j :: 0 <= j < |ps| ==> r[j].moved == ps[j].moved
  {
    match LastIndex(ps, IsMoved)
    case Some(k) => ps[k := DragTo(ps[k], x, y, w, h)]
    case None => Hover(ps, LastHit(ps, x, y))
  }

  /** The record a click creates at (x, y) on a w by h canvas. */
  function NewPoint(x: real, y: real, w: nat, h: nat): Point
    requires w > 0 && h > 0
  {
    Point(x, y, Percent(x, w), Percent(y, h), true, false)
  }

  /** Adding a point: nothing without an image, otherwise append at the end. */
  function AfterAddPoint(ps: seq<Point>, x: real, y: real, hasImage: bool, w: nat, h: nat): (r: seq<Point>)
    requires hasImage ==> w > 0 && h > 0
    ensures |r| == if hasImage then |ps| + 1 else |ps|
    ensures r[..|ps|] == ps
  {
    if hasImage then ps + [NewPoint(x, y, w, h)] else ps
  }

  /** Pointer down: start dragging the newest hovered point, or add a point. */
  function AfterDown(ps: seq<Point>, x: real, y: real, hasImage: bool, w: nat, h: nat): (r: seq<Point>)
    requires hasImage && LastIndex(ps, IsHovered).None? ==> w > 0 && h > 0
    ensures |ps| <= |r| <= |ps| + 1
    ensures forall j :: 0 <= j < |ps| ==> r[j].(moved := ps[j].moved) == ps[j]
  {
    match LastIndex(ps, IsHovered)
    case Some(k) => ps[k := ps[k].(moved := true)]
    case None => AfterAddPoint(ps, x, y, hasImage, w, h)
  }

  /** Pointer up: no point is dragged any more. */
  function AfterUp(ps: seq<Point>): (r: seq<Point>)
    ensures |r| == |ps|
    ensures forall j :: 0 <= j < |r| ==> !r[j].moved
  {
    seq(|ps|, j requires 0 <= j < |ps| => ps[j].(moved := false))
  }

  /** Secondary click: remove the newest point under the cursor, if any. */
  function AfterContextMenu(ps: seq<Point>, x: real, y: real): (r: seq<Point>)
    ensures |r| == |ps| || |r| == |ps| - 1
    ensures multiset(r) <= multiset(ps)
  {
    match LastHit(ps, x, y)
    case Some(k) =>
      assert ps == ps[..k] + [ps[k]] + ps[k + 1..];
      ps[..k] + ps[k + 1..]
    case None => ps
  }

  /** Resize: rebuild every pixel coordinate from its stored fraction. */
  function Rescaled(ps: seq<Point>, w: nat, h: nat): (r: seq<Point>)
    ensures |r| == |ps|
    ensures forall j :: 0 <= j < |ps| ==> r[j].(x := ps[j].x, y := ps[j].y) == ps[j]
  {
    seq(|ps|, j requires 0 <= j < |ps| => ps[j].(x := ps[j].xPercent * w as real, y := ps[j].yPercent * h as real))
  }

  // ---------------------------------------------------------------- move

  /** While a point is dragged, a move rewrites only the newest dragged point:
      it goes to the cursor, its fractions follow, its flags and every other
      point (hover flags included) stay as they were. */
  lemma DragMovesOnlyDraggedPoint(ps: seq<Point>, x: real, y: real, w: nat, h: nat)
    requires LastIndex(ps, IsMoved).Some? && w > 0 && h > 0
    ensures var k := LastIndex(ps, IsMoved).value;
            var r := AfterMove(ps, x, y, w, h);
            && |r| == |ps|
            && r[k].x == x && r[k].y == y
            && r[k].xPercent * w as real == x && r[k].yPercent * h as real == y
            && r[k].hovered == ps[k].hovered && r[k].moved == ps[k].moved
            && (forall j :: k < j < |ps| ==> !ps[j].moved)
            && (forall j :: 0 <= j < |ps| && j != k ==> r[j] == ps[j])
  {
    var k := LastIndex(ps, IsMoved).value;
    var r := AfterMove(ps, x, y, w, h);
    assert r[k] == DragTo(ps[k], x, y, w, h);
    assert r[k].xPercent * w as real == x by { PercentScales(x, w); }
    assert r[k].yPercent * h as real == y by { PercentScales(y, h); }
  }

  /** Scaling a fraction back by the same size restores the pixel coordinate. */
  lemma PercentScales(v: real, size: nat)
    requires size > 0
    ensures Percent(v, size) * size as real == v
  {
  }

  /** With nothing dragged, a move changes only hover flags, and afterwards
      point j is hovered exactly when it is under the cursor and no newer point
      is; hence at most one point is hovered, and none when nothing is hit. */
  lemma HoverIsExclusive(ps: seq<Point>, x: real, y: real, w: nat, h: nat)
    requires LastIndex(ps, IsMoved).None?
    ensures var r := AfterMove(ps, x, y, w, h);
            && |r| == |ps|
            && AtMostOneHovered(r)
            && (forall j :: 0 <= j < |ps| ==> r[j] == ps[j].(hovered := r[j].hovered))
            && (forall j :: 0 <= j < |ps| ==>
                  (r[j].hovered <==> Hits(ps[j], x, y) && forall i :: j < i < |ps| ==> !Hits(ps[i], x, y)))
  {
    var r := AfterMove(ps, x, y, w, h);
    forall j | 0 <= j < |ps|
      ensures r[j].hovered <==> Hits(ps[j], x, y) && forall i :: j < i < |ps| ==> !Hits(ps[i], x, y)
    {
      if Hits(ps[j], x, y) && forall i :: j < i < |ps| ==> !Hits(ps[i], x, y) {
        LastHitAt(ps, x, y, j);
      }
    }
  }

  /** A move keeps the editor invariant. */
  lemma MovePreservesInvariant(ps: seq<Point>, x: real, y: real, w: nat, h: nat)
    requires EditorInvariant(ps)
    requires LastIndex(ps, IsMoved).Some? ==> w > 0 && h > 0
    ensures EditorInvariant(AfterMove(ps, x, y, w, h))
  {
    var r := AfterMove(ps, x, y, w, h);
    if LastIndex(ps, IsMoved).None? {
      HoverIsExclusive(ps, x, y, w, h);
    } else {
      DragMovesOnlyDraggedPoint(ps, x, y, w, h);
      assert forall j :: 0 <= j < |ps| ==> r[j].hovered == ps[j].hovered && r[j].moved == ps[j].moved;
    }
  }

  // ---------------------------------------------------------------- down and add

  /** With an image, adding appends one point at the cursor with the matching
      fractions, hovered and not dragged, leaving earlier points alone; a hit
      test at the same cursor then finds the new point. Without an image
      nothing changes. */
  lemma AddPointAppendsHitPoint(ps: seq<Point>, x: real, y: real, hasImage: bool, w: nat, h: nat)
    requires hasImage ==> w > 0 && h > 0
    ensures var r := AfterAddPoint(ps, x, y, hasImage, w, h);
            && (!hasImage ==> r == ps)
            && (hasImage ==>
                  && |r| == |ps| + 1 && r[..|ps|] == ps
                  && r[|ps|].x == x && r[|ps|].y == y
                  && r[|ps|].xPercent * w as real == x && r[|ps|].yPercent * h as real == y
                  && r[|ps|].hovered && !r[|ps|].moved
                  && LastHit(r, x, y) == Some(|ps|))
  {
    if hasImage {
      var r := AfterAddPoint(ps, x, y, hasImage, w, h);
      PercentScales(x, w);
      PercentScales(y, h);
      LastHitAt(r, x, y, |ps|);
    }
  }

  /** Pointer down never removes points and adds at most one. If a point is
      hovered, the newest hovered one becomes dragged and nothing else changes;
      otherwise down is exactly adding a point. */
  lemma DownStartsDragOrAddsPoint(ps: seq<Point>, x: real, y: real, hasImage: bool, w: nat, h: nat)
    requires hasImage && LastIndex(ps, IsHovered).None? ==> w > 0 && h > 0
    ensures var r := AfterDown(ps, x, y, hasImage, w, h);
            && |ps| <= |r| <= |ps| + 1
            && (LastIndex(ps, IsHovered).Some? ==>
                  var k := LastIndex(ps, IsHovered).value;
                  && |r| == |ps|
                  && r[k] == ps[k].(moved := true)
                  && (forall j :: 0 <= j < |ps| && j != k ==> r[j] == ps[j]))
            && (LastIndex(ps, IsHovered).None? ==> r == AfterAddPoint(ps, x, y, hasImage, w, h))
  {
  }

  /** Down keeps the editor invariant: it marks only the hovered point as
      dragged, and adds a hovered point only when no point was hovered. */
  lemma DownPreservesInvariant(ps: seq<Point>, x: real, y: real, hasImage: bool, w: nat, h: nat)
    requires EditorInvariant(ps)
    requires hasImage && LastIndex(ps, IsHovered).None? ==> w > 0 && h > 0
    ensures EditorInvariant(AfterDown(ps, x, y, hasImage, w, h))
  {
  }

  // ---------------------------------------------------------------- up

  /** After pointer up no point is dragged, so the next move recomputes hover;
      positions, fractions, hover flags, length and order are kept. */
  lemma UpReleasesAllPoints(ps: seq<Point>)
    ensures var r := AfterUp(ps);
            && |r| == |ps|
            && LastIndex(r, IsMoved).None?
            && (forall j :: 0 <= j < |ps| ==> r[j].(moved := ps[j].moved) == ps[j])
  {
  }

  lemma UpPreservesInvariant(ps: seq<Point>)
    requires EditorInvariant(ps)
    ensures EditorInvariant(AfterUp(ps))
  {
  }

  // ---------------------------------------------------------------- context menu

  /** A secondary click removes exactly the newest point under the cursor, the
      rest keeping their relative order, or changes nothing when no point is hit
      (in particular on an empty list). */
  lemma ContextMenuRemovesNewestHit(ps: seq<Point>, x: real, y: real)
    ensures var r := AfterContextMenu(ps, x, y);
            && (ps == [] ==> r == [])
            && (LastHit(ps, x, y).None? ==> r == ps)
            && (LastHit(ps, x, y).Some? ==>
                  var k := LastHit(ps, x, y).value;
                  && |r| == |ps| - 1
                  && (forall j :: 0 <= j < k ==> r[j] == ps[j])
                  && (forall j :: k <= j < |r| ==> r[j] == ps[j + 1])
                  && multiset(r) + multiset{ps[k]} == multiset(ps))
  {
    if LastHit(ps, x, y).Some? {
      var k := LastHit(ps, x, y).value;
      assert ps == ps[..k] + [ps[k]] + ps[k + 1..];
    }
  }

  lemma ContextMenuPreservesInvariant(ps: seq<Point>, x: real, y: real)
    requires EditorInvariant(ps)
    ensures EditorInvariant(AfterContextMenu(ps, x, y))
  {
    ContextMenuRemovesNewestHit(ps, x, y);
  }

  // ---------------------------------------------------------------- resize

  /** Resize keeps length, order, fractions and flags, and leaves every pixel
      coordinate equal to its fraction of the canvas size. */
  lemma RescaleRebuildsPixels(ps: seq<Point>, w: nat, h: nat)
    ensures var r := Rescaled(ps, w, h);
            && |r| == |ps|
            && Consistent(r, w, h)
            && (forall j :: 0 <= j < |ps| ==> r[j].(x := ps[j].x, y := ps[j].y) == ps[j])
  {
  }

  /** Resizing twice for the same canvas is the same as resizing once. */
  lemma RescaleIdempotent(ps: seq<Point>, w: nat, h: nat)
    ensures Rescaled(Rescaled(ps, w, h), w, h) == Rescaled(ps, w, h)
  {
    var once := Rescaled(ps, w, h);
    assert forall j :: 0 <= j < |ps| ==> Rescaled(once, w, h)[j] == once[j];
  }

  /** On points whose pixels already match their fractions, resize changes nothing. */
  lemma RescaleOfConsistentIsIdentity(ps: seq<Point>, w: nat, h: nat)
    requires Consistent(ps, w, h)
    ensures Rescaled(ps, w, h) == ps
  {
    assert forall j :: 0 <= j < |ps| ==> Rescaled(ps, w, h)[j] == ps[j];
  }

  /** Resize preserves the polygon's shape: each point sits at the same fraction
      of the new canvas as it did of the old one. */
  lemma RescalePreservesShape(ps: seq<Point>, w: nat, h: nat, w2: nat, h2: nat)
    requires w > 0 && h > 0 && w2 > 0 && h2 > 0
    requires Consistent(ps, w, h)
    ensures var r := Rescaled(ps, w2, h2);
            forall j :: 0 <= j < |ps| ==> r[j].x / w2 as real == ps[j].x / w as real && r[j].y / h2 as real == ps[j].y / h as real
  {
    var r := Rescaled(ps, w2, h2);
    forall j | 0 <= j < |ps|
      ensures r[j].x / w2 as real == ps[j].x / w as real && r[j].y / h2 as real == ps[j].y / h as real
    {
      assert PointConsistent(ps[j], w, h);
      ScaledFraction(ps[j].xPercent, w2);
      ScaledFraction(ps[j].xPercent, w);
      ScaledFraction(ps[j].yPercent, h2);
      ScaledFraction(ps[j].yPercent, h);
    }
  }

  /** A fraction scaled up by a size and divided back by it is the fraction again. */
  lemma ScaledFraction(f: real, size: nat)
    requires size > 0
    ensures f * size as real / size as real == f
  {
  }

  lemma RescalePreservesInvariant(ps: seq<Point>, w: nat, h: nat)
    requires EditorInvariant(ps)
    ensures EditorInvariant(Rescaled(ps, w, h))
  {
  }

  // ---------------------------------------------------------------- consistency

  /** A point at the same place with the same fractions as a consistent point is consistent. */
  lemma SamePlaceConsistent(p: Point, q: Point, w: nat, h: nat)
    requires PointConsistent(p, w, h)
    requires q.x == p.x && q.y == p.y && q.xPercent == p.xPercent && q.yPercent == p.yPercent
    ensures PointConsistent(q, w, h)
  {
  }

  /** For a fixed canvas, a move keeps pixel coordinates consistent with the
      stored fractions. */
  lemma MoveKeepsConsistent(ps: seq<Point>, x: real, y: real, w: nat, h: nat)
    requires w > 0 && h > 0
    requires Consistent(ps, w, h)
    ensures Consistent(AfterMove(ps, x, y, w, h), w, h)
  {
    var r := AfterMove(ps, x, y, w, h);
    if LastIndex(ps, IsMoved).Some? {
      DragMovesOnlyDraggedPoint(ps, x, y, w, h);
    } else {
      HoverIsExclusive(ps, x, y, w, h);
      forall j | 0 <= j < |r| ensures PointConsistent(r[j], w, h) {
        SamePlaceConsistent(ps[j], r[j], w, h);
      }
    }
  }

  /** So does pointer down, including the point it may add. */
  lemma DownKeepsConsistent(ps: seq<Point>, x: real, y: real, hasImage: bool, w: nat, h: nat)
    requires w > 0 && h > 0
    requires Consistent(ps, w, h)
    ensures Consistent(AfterDown(ps, x, y, hasImage, w, h), w, h)
  {
    var r := AfterDown(ps, x, y, hasImage, w, h);
    DownStartsDragOrAddsPoint(ps, x, y, hasImage, w, h);
    if LastIndex(ps, IsHovered).None? {
      AddPointAppendsHitPoint(ps, x, y, hasImage, w, h);
      forall j | 0 <= j < |r| ensures PointConsistent(r[j], w, h) {
        if j < |ps| { assert r[j] == r[..|ps|][j]; }
      }
    } else {
      var k := LastIndex(ps, IsHovered).value;
      forall j | 0 <= j < |r| ensures PointConsistent(r[j], w, h) {
        SamePlaceConsistent(ps[j], r[j], w, h);
      }
    }
  }

  /** And so do pointer up and the secondary click. */
  lemma UpAndContextMenuKeepConsistent(ps: seq<Point>, x: real, y: real, w: nat, h: nat)
    requires Consistent(ps, w, h)
    ensures Consistent(AfterUp(ps), w, h)
    ensures Consistent(AfterContextMenu(ps, x, y), w, h)
  {
    var u := AfterUp(ps);
    forall j | 0 <= j < |u| ensures PointConsistent(u[j], w, h) {
      SamePlaceConsistent(ps[j], u[j], w, h);
    }
    ContextMenuRemovesNewestHit(ps, x, y);
    var c := AfterContextMenu(ps, x, y);
    if LastHit(ps, x, y).Some? {
      var k := LastHit(ps, x, y).value;
      forall j | 0 <= j < |c| ensures PointConsistent(c[j], w, h) {
        SamePlaceConsistent(if j < k then ps[j] else ps[j + 1], c[j], w, h);
      }
    }
  }
}
