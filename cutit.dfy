/** The polygon point editor: a point list, an optional image and the canvas
    size, changed in place by the pointer, context-menu, resize and image-load
    handlers. Move, down and the context menu scan the list newest point first,
    up clears every point, resize walks it forward and adding a point appends;
    each is proved to produce the list the Handlers module describes. */
module CutitEditor {
  import opened Points
  import opened Handlers

  class Cutit {
    var points: seq<Point>
    var image: Option<Image>
    var canvasWidth: nat
    var canvasHeight: nat

    /** Object invariant: a loaded image has a non-zero width (resize divides
        by it) and the point list keeps the hover/drag invariant. */
    ghost predicate Valid()
      reads this
    {
      (image.Some? ==> image.value.width > 0) && EditorInvariant(points)
    }

    /** Some point is being dragged. */
    predicate Dragging()
      reads this
    {
      LastIndex(points, IsMoved).Some?
    }

    /** An editor on a canvas of the given size, with no image and no points. */
    constructor (width: nat, height: nat)
      ensures Valid()
      ensures points == [] && image == None
      ensures canvasWidth == width && canvasHeight == height
    {
      points := [];
      image := None;
      canvasWidth := width;
      canvasHeight := height;
    }

    /** The canvas takes a new pixel size (the render loop sizes it from its
        element's display size); points are not touched. */
    method SetCanvasSize(width: nat, height: nat)
      requires Valid()
      modifies this
      ensures Valid()
      ensures canvasWidth == width && canvasHeight == height
      ensures points == old(points) && image == old(image)
    {
      canvasWidth := width;
      canvasHeight := height;
    }

    /** Pointer move to (x, y). */
    method Move(x: real, y: real)
      requires Valid()
      requires Dragging() ==> canvasWidth > 0 && canvasHeight > 0
      modifies this`points
      ensures image == old(image) && canvasWidth == old(canvasWidth) && canvasHeight == old(canvasHeight)
      ensures Valid()
      ensures points == AfterMove(old(points), x, y, canvasWidth, canvasHeight)
    {
      MovePreservesInvariant(points, x, y, canvasWidth, canvasHeight);
      var i := |points| - 1;
      while i >= 0
        invariant -1 <= i < |points|
        invariant points == old(points)
        invariant forall j :: i < j < |points| ==> !IsMoved(points[j])
      {
        if points[i].moved {
          LastIndexAt(points, IsMoved, i);
          points := points[i := DragTo(points[i], x, y, canvasWidth, canvasHeight)];
          return;
        }
        i := i - 1;
      }
      ghost var before := points;
      i := |points| - 1;
      while i >= 0
        invariant -1 <= i < |points| == |before|
        invariant forall j :: 0 <= j <= i ==> points[j] == before[j]
        invariant forall j :: i < j < |points| ==> points[j] == before[j].(hovered := false)
      {
        points := points[i := points[i].(hovered := false)];
        i := i - 1;
      }
      assert points == Hover(before, None);
      i := |points| - 1;
      while i >= 0
        invariant -1 <= i < |points| == |before|
        invariant points == Hover(before, None)
        invariant forall j :: i < j < |points| ==> !Hits(before[j], x, y)
      {
        if Hits(points[i], x, y) {
          LastHitAt(before, x, y, i);
          points := points[i := points[i].(hovered := true)];
          assert points == Hover(before, Some(i));
          return;
        }
        i := i - 1;
      }
      assert LastHit(before, x, y) == None;
    }

    /** Adds a point at (x, y) when an image is loaded. */
    method AddPoint(x: real, y: real)
      requires image.Some? ==> canvasWidth > 0 && canvasHeight > 0
      modifies this`points
      ensures image == old(image) && canvasWidth == old(canvasWidth) && canvasHeight == old(canvasHeight)
      ensures points == AfterAddPoint(old(points), x, y, image.Some?, canvasWidth, canvasHeight)
    {
      if image.None? {
        return;
      }
      points := points + [NewPoint(x, y, canvasWidth, canvasHeight)];
    }

    /** Pointer down at (x, y). */
    method Down(x: real, y: real)
      requires Valid()
      requires image.Some? && LastIndex(points, IsHovered).None? ==> canvasWidth > 0 && canvasHeight > 0
      modifies this`points
      ensures image == old(image) && canvasWidth == old(canvasWidth) && canvasHeight == old(canvasHeight)
      ensures Valid()
      ensures points == AfterDown(old(points), x, y, image.Some?, canvasWidth, canvasHeight)
    {
      DownPreservesInvariant(points, x, y, image.Some?, canvasWidth, canvasHeight);
      var isMoved := false;
      var i := |points| - 1;
      while i >= 0
        invariant -1 <= i < |points|
        invariant points == old(points) && !isMoved
        invariant forall j :: i < j < |points| ==> !IsHovered(points[j])
      {
        if points[i].hovered {
          LastIndexAt(points, IsHovered, i);
          isMoved := true;
          points := points[i := points[i].(moved := true)];
          break;
        }
        i := i - 1;
      }
      if !isMoved {
        AddPoint(x, y);
      }
    }

    /** Pointer up: ends any drag. */
    method Up()
      requires Valid()
      modifies this`points
      ensures image == old(image) && canvasWidth == old(canvasWidth) && canvasHeight == old(canvasHeight)
      ensures Valid()
      ensures points == AfterUp(old(points))
    {
      UpPreservesInvariant(points);
      var i := |points| - 1;
      while i >= 0
        invariant -1 <= i < |points| == |old(points)|
        invariant forall j :: 0 <= j <= i ==> points[j] == old(points)[j]
        invariant forall j :: i < j < |points| ==> points[j] == old(points)[j].(moved := false)
      {
        points := points[i := points[i].(moved := false)];
        i := i - 1;
      }
    }

    /** Secondary click at (x, y): removes the newest point under the cursor. */
    method ContextMenu(x: real, y: real)
      requires Valid()
      modifies this`points
      ensures image == old(image) && canvasWidth == old(canvasWidth) && canvasHeight == old(canvasHeight)
      ensures Valid()
      ensures points == AfterContextMenu(old(points), x, y)
    {
      ContextMenuPreservesInvariant(points, x, y);
      var i := |points| - 1;
      while i >= 0
        invariant -1 <= i < |points|
        invariant points == old(points)
        invariant forall j :: i < j < |points| ==> !Hits(points[j], x, y)
      {
        if Hits(points[i], x, y) {
          LastHitAt(points, x, y, i);
          points := points[..i] + points[i + 1..];
          assert points == AfterContextMenu(old(points), x, y);
          return;
        }
        i := i - 1;
      }
    }

    /** Fits the canvas height to the image's aspect ratio and rebuilds every
        point's pixel coordinates from its fractions; nothing without an image. */
    method Resize()
      requires Valid()
      modifies this`points, this`canvasHeight
      ensures image == old(image) && canvasWidth == old(canvasWidth)
      ensures Valid()
      ensures image.None? ==> points == old(points) && canvasHeight == old(canvasHeight)
      ensures image.Some? ==> canvasHeight == FittedHeight(canvasWidth, image.value)
      ensures image.Some? ==> points == Rescaled(old(points), canvasWidth, canvasHeight)
    {
      if image.None? {
        return;
      }
      RescalePreservesInvariant(points, canvasWidth, FittedHeight(canvasWidth, image.value));
      canvasHeight := FittedHeight(canvasWidth, image.value);
      var i := 0;
      while i <= |points| - 1
        invariant 0 <= i <= |points| == |old(points)|
        invariant canvasHeight == FittedHeight(canvasWidth, image.value)
        invariant forall j :: 0 <= j < i ==> points[j] == Rescaled(old(points), canvasWidth, canvasHeight)[j]
        invariant forall j :: i <= j < |points| ==> points[j] == old(points)[j]
      {
        var point := points[i];
        points := points[i := point.(x := point.xPercent * canvasWidth as real, y := point.yPercent * canvasHeight as real)];
        i := i + 1;
      }
    }

    /** The state reached once a new image has loaded: the image is replaced,
        the points are cleared and the canvas is rescaled. */
    method SetImage(img: Image)
      requires img.width > 0
      modifies this
      ensures Valid()
      ensures image == Some(img) && points == []
      ensures canvasWidth == old(canvasWidth) && canvasHeight == FittedHeight(canvasWidth, img)
    {
      image := Some(img);
      points := [];
      Resize();
    }
  }

  /** A client session on a 400-pixel-wide canvas: loading an 800 by 600 image
      fits the canvas to 300 pixels; a click adds a point, and releasing and
      hovering over it leaves it the one hovered point. `GrabAndDrag` then
      moves it to (80, 90), where it stays at fractions 0.2 and 0.3 of the
      canvas, no longer dragged. */
  method DragScenario()
  {
    var c := new Cutit(400, 150);
    c.SetImage(Image(800, 600));
    assert c.canvasHeight == 300;
    var placed := NewPoint(50.0, 50.0, 400, 300);
    AddPointAppendsHitPoint([], 50.0, 50.0, true, 400, 300);
    c.Down(50.0, 50.0);
    assert c.points == [placed];
    UpReleasesAllPoints(c.points);
    c.Up();
    assert c.points == [placed];
    HoverIsExclusive(c.points, 50.0, 50.0, 400, 300);
    c.Move(50.0, 50.0);
    assert c.points == [placed];
    LastIndexAt(c.points, IsHovered, 0);
    GrabAndDrag(c, 80.0, 90.0);
    assert c.points[0].x == 80.0 && c.points[0].y == 90.0 && !c.points[0].moved;
    assert c.points[0].xPercent == 80.0 / 400.0 == 0.2;
    assert c.points[0].yPercent == 90.0 / 300.0 == 0.3;
  }

  /** Pressing on the newest hovered point of an editor in which nothing is
      dragged, moving to (x, y) and releasing leaves that point at (x, y) with
      its fractions recomputed for the canvas and its drag ended; every other
      point is as it was. */
  method GrabAndDrag(c: Cutit, x: real, y: real)
    requires c.Valid() && c.image.Some? && c.canvasWidth > 0 && c.canvasHeight > 0
    requires LastIndex(c.points, IsHovered).Some? && LastIndex(c.points, IsMoved).None?
    modifies c`points
    ensures c.image == old(c.image) && c.canvasWidth == old(c.canvasWidth) && c.canvasHeight == old(c.canvasHeight)
    ensures c.Valid()
    ensures var k := LastIndex(old(c.points), IsHovered).value;
            c.points == old(c.points)[k := DragTo(old(c.points)[k], x, y, c.canvasWidth, c.canvasHeight)]
  {
    var p0 := c.points;
    var k := LastIndex(p0, IsHovered).value;
    DownStartsDragOrAddsPoint(p0, x, y, true, c.canvasWidth, c.canvasHeight);
    c.Down(x, y);
    assert c.points == p0[k := p0[k].(moved := true)];
    LastIndexAt(c.points, IsMoved, k);
    DragMovesOnlyDraggedPoint(c.points, x, y, c.canvasWidth, c.canvasHeight);
    var p1 := c.points;
    c.Move(x, y);
    assert c.points == p1[k := DragTo(p1[k], x, y, c.canvasWidth, c.canvasHeight)];
    var p2 := c.points;
    UpReleasesAllPoints(p2);
    c.Up();
    forall j | 0 <= j < |p0|
      ensures c.points[j] == p0[k := DragTo(p0[k], x, y, c.canvasWidth, c.canvasHeight)][j]
    {
      assert c.points[j] == p2[j].(moved := false);
    }
  }
}
