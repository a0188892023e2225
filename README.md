# Cutit polygon point editor, modelled in Dafny

Cutit puts a canvas over an image and lets the user place polygon vertices on
it. The class `Cutit` in `src/Cutit/index.js` keeps an ordered list of point
records `{x, y, xPercent, yPercent, hovered, moved}`, the loaded image (or none)
and the canvas element's pixel size. Its input handlers change that list in
place:

- pointer move drags the point being moved, or recomputes which point is hovered;
- pointer down grabs the hovered point, or adds a new point;
- pointer up ends the drag;
- the secondary click (context menu) deletes the newest point under the cursor;
- window resize fits the canvas height to the image's aspect ratio and rebuilds
  pixel coordinates from the stored fractions;
- loading an image clears the points and applies the resize.

Move, down and the context menu look for a point by scanning the list from
the newest (highest index) point to the oldest, and they stop at the first
match. Up clears the drag flag on every point without stopping early. Resize
walks the list forward and rewrites every point. Adding a point does not scan
at all. A point "matches the cursor" when the cursor lies in the closed square
of half-width 4 centred on it. The half-width is the point marker width setting.

The project has three modules:

- `points.dfy`, module `Points`: the point record and the hit test. It also has
  `LastIndex`, the newest-first scan, which is a recursive function whose
  contract says both which index it returns and that no newer index matches.
  Finally it holds the editor invariant: at most one point is hovered, and a
  point is dragged only while it is hovered.
- `handlers.dfy`, module `Handlers`: one function per handler, from the old
  list, the cursor and the canvas size to the new list (`AfterMove`,
  `AfterDown`, `AfterAddPoint`, `AfterUp`, `AfterContextMenu`, `Rescaled`).
  Lemmas about these functions state what each handler promises. They also
  show that each handler keeps the editor invariant and keeps pixel
  coordinates consistent with the stored fractions.
- `cutit.dfy`, module `CutitEditor`: the class `Cutit` with the fields
  `points`, `image`, `canvasWidth` and `canvasHeight`. Each handler is a
  method whose loops follow the source's `for` loops, written as `while`
  loops with invariants:
  - `Move`, `Down`, `Up` and `ContextMenu` write only `points`. Each leaves it
    equal to the matching `Handlers` function of the old list, and each keeps
    `Valid()`.
  - `AddPoint` writes only `points`, leaving it equal to `AfterAddPoint`. It
    neither requires nor ensures `Valid()`. Called on its own while a point is
    hovered, it would add a second hovered point. Its only caller, `Down`,
    calls it only when no point is hovered.
  - `Resize` writes `points` (equal to `Rescaled`) and `canvasHeight` (equal to
    `FittedHeight`), and keeps `Valid()`.
  - `SetImage` writes `image`, `points` and `canvasHeight`. It is stated
    directly: the new image, an empty list and the fitted height. It
    establishes `Valid()` from any state.
  - `SetCanvasSize` writes `canvasWidth` and `canvasHeight` and keeps `Valid()`.

  `DragScenario` is a client. It loads an 800 by 600 image on a
  400-pixel-wide canvas (height 300), adds a point at (50, 50) and hovers it.
  It then calls `GrabAndDrag` to drag it to (80, 90). `GrabAndDrag` works on
  a list of any length: it presses on the newest hovered point, drags it and
  releases it. Together they show, from the contracts alone,
  where the point ends up.

Numbers: coordinates and fractions are exact `real`s. The canvas width and
height are `nat`, because a canvas element's size attributes are integers. So
the height that resize assigns, `width * (imageHeight / imageWidth)`, is
truncated, and the model writes it as `(width * imageHeight) / imageWidth`.
Image sizes are natural pixel counts.

## Model

| member | source | states |
|---|---|---|
| `Points.HitsOwnPosition` | src/Cutit/index.js:67-72 | `Hits` is the square test written out at lines 67-72 and again at 107-112: the cursor is within 4 of the point on each axis, bounds included. A point always matches a cursor placed exactly on it. |
| `Points.LastIndex` | src/Cutit/index.js:82-88 | The scan from the newest element down returns the highest index that matches, and no newer index matches. It returns none exactly when no element matches. |
| `Points.LastHit` | src/Cutit/index.js:66-75 | The newest point whose square of half-width 4 contains the cursor, with no newer point hit. It returns none exactly when no point is hit. |
| `Points.InvariantBoundsMoved` | src/Cutit/index.js:82-88 | Under the editor invariant at most one point is dragged. A dragged point is exactly the newest hovered point, which is the one pointer down grabs. |
| `Handlers.FittedHeight` | src/Cutit/index.js:163-164 | The new canvas height is the largest integer h with h * imageWidth <= canvasWidth * imageHeight. This is the aspect-ratio height, truncated. |
| `Handlers.AfterMove` | src/Cutit/index.js:45-77 | The list after a move has the same length, and no point's drag flag changes. `DragMovesOnlyDraggedPoint` and `HoverIsExclusive` describe the two branches fully. |
| `Handlers.DragMovesOnlyDraggedPoint` | src/Cutit/index.js:51-61 | While some point is dragged, a move rewrites only the newest dragged point. That point goes to the cursor, its fractions times the canvas size give back the cursor, and its hovered and moved flags are kept. No newer point is dragged, and every other point is unchanged, hover flags included. |
| `Handlers.HoverIsExclusive` | src/Cutit/index.js:63-76 | With no point dragged, a move changes only hover flags, and at most one point ends up hovered. Point j is hovered if and only if the cursor hits it and hits no newer point. |
| `Handlers.MovePreservesInvariant` | src/Cutit/index.js:45-77 | A move keeps "at most one hovered, dragged implies hovered". |
| `Handlers.AfterAddPoint` | src/Cutit/index.js:128-138 | The list grows by one exactly when an image is loaded, and the old points stay as its prefix. `AddPointAppendsHitPoint` describes the new record. |
| `Handlers.AddPointAppendsHitPoint` | src/Cutit/index.js:128-138 | Without an image nothing changes. With one, exactly one point is appended after the unchanged old points. It sits at the cursor, its fractions scale back to the cursor, and it is hovered and not dragged. A hit test at the same cursor then finds it. |
| `Handlers.AfterDown` | src/Cutit/index.js:79-90 | Down adds at most one point and changes nothing in the existing points except drag flags. `DownStartsDragOrAddsPoint` says which case applies. |
| `Handlers.DownStartsDragOrAddsPoint` | src/Cutit/index.js:79-90 | Pointer down never removes points and adds at most one. If some point is hovered, the newest hovered point becomes dragged, nothing is added and every other point is unchanged. Otherwise down is exactly adding a point. |
| `Handlers.DownPreservesInvariant` | src/Cutit/index.js:79-90 | Down keeps the editor invariant. It marks as dragged only a hovered point, and it adds a hovered point only when none was hovered. |
| `Handlers.AfterUp` | src/Cutit/index.js:92-97 | The list after up has the same length and no dragged point. `UpReleasesAllPoints` adds that every other field is kept. |
| `Handlers.UpReleasesAllPoints` | src/Cutit/index.js:92-97 | After pointer up no point is dragged, so the next move recomputes hover. Length, order, coordinates, fractions and hover flags are kept. |
| `Handlers.UpPreservesInvariant` | src/Cutit/index.js:92-97 | Pointer up keeps the editor invariant. |
| `Handlers.AfterContextMenu` | src/Cutit/index.js:106-116 | The secondary click removes at most one point and adds none: the new multiset is contained in the old one. `ContextMenuRemovesNewestHit` says which point goes. |
| `Handlers.ContextMenuRemovesNewestHit` | src/Cutit/index.js:106-116 | The secondary click removes exactly the newest point under the cursor. The other points keep their relative order, and the removed point plus what remains is the old multiset. When nothing is hit the list is unchanged, so an empty list stays empty. |
| `Handlers.ContextMenuPreservesInvariant` | src/Cutit/index.js:106-116 | Removing a point keeps the editor invariant. |
| `Handlers.Rescaled` | src/Cutit/index.js:165-169 | The rebuilt list has the same length, and only `x` and `y` can differ from the old points. `RescaleRebuildsPixels` adds that pixels equal fraction times size. |
| `Handlers.RescaleRebuildsPixels` | src/Cutit/index.js:165-169 | Resize keeps length, order, fractions and flags. Afterwards every pixel coordinate is its fraction times the canvas size. |
| `Handlers.RescaleIdempotent` | src/Cutit/index.js:160-170 | Rebuilding pixels twice for the same canvas gives the same list as doing it once. |
| `Handlers.RescaleOfConsistentIsIdentity` | src/Cutit/index.js:165-169 | When pixels already agree with the fractions for the canvas, resize changes no point. |
| `Handlers.RescalePreservesShape` | src/Cutit/index.js:165-169 | Take points consistent with a w by h canvas and rebuild them for a w2 by h2 canvas. Each point then sits at the same fraction of the new size as it did of the old size. |
| `Handlers.RescalePreservesInvariant` | src/Cutit/index.js:165-169 | Resize keeps the editor invariant. |
| `Handlers.MoveKeepsConsistent` | src/Cutit/index.js:53-59 | For a fixed canvas, a move keeps every point's pixels equal to its fractions times the canvas size. |
| `Handlers.DownKeepsConsistent` | src/Cutit/index.js:131-137 | For a fixed canvas, pointer down keeps that consistency, including for the point it may add. |
| `Handlers.UpAndContextMenuKeepConsistent` | src/Cutit/index.js:92-116 | For a fixed canvas, pointer up and the secondary click keep that consistency. |
| `CutitEditor.Cutit.constructor` | src/Cutit/index.js:8-9 | A new editor has no image and no points, and its canvas has the given size. |
| `CutitEditor.Cutit.SetCanvasSize` | src/Cutit/index.js:153-154 | The canvas takes the given pixel size. Points and image are untouched, and the invariant is kept. |
| `CutitEditor.Cutit.Move` | src/Cutit/index.js:45-77 | The reverse loops leave `points == AfterMove(old(points), …)`. They keep `Valid()` and touch no other field. |
| `CutitEditor.Cutit.AddPoint` | src/Cutit/index.js:128-138 | `points == AfterAddPoint(old(points), …)`, and the image and canvas size are untouched. |
| `CutitEditor.Cutit.Down` | src/Cutit/index.js:79-90 | The reverse loop, with its fallback to adding a point, leaves `points == AfterDown(old(points), …)`. It keeps `Valid()`. |
| `CutitEditor.Cutit.Up` | src/Cutit/index.js:92-97 | The loop leaves `points == AfterUp(old(points))` and keeps `Valid()`. |
| `CutitEditor.Cutit.ContextMenu` | src/Cutit/index.js:99-117 | The reverse loop with its splice leaves `points == AfterContextMenu(old(points), x, y)`. It keeps `Valid()`. |
| `CutitEditor.Cutit.Resize` | src/Cutit/index.js:160-170 | Without an image nothing changes. Otherwise the canvas height becomes `FittedHeight(width, image)` and `points == Rescaled(old(points), width, newHeight)`. The width, the image and `Valid()` are kept. |
| `CutitEditor.Cutit.SetImage` | src/Cutit/index.js:255-261 | From any state, after a load the image is the new one, the list is empty, the canvas height is fitted to the image, and `Valid()` holds. |
| `CutitEditor.GrabAndDrag` | src/Cutit/index.js:45-97 | On a list of any length with some point hovered and none dragged: pressing, moving to (x, y) and releasing leaves the newest hovered point at (x, y). Its fractions are recomputed for the canvas and its drag has ended. Every other point is unchanged, and the invariant holds. |

## Left out

- Rendering is not modelled: `render`, `drawBackground`, `drawImage`, `drawPoints` and the `requestAnimationFrame` loop (src/Cutit/index.js:140-223). It only paints. The one state change in it is that `drawBackground` sets the canvas width and height from the element's display size every frame. That step is `SetCanvasSize`, whose arguments are inputs.
- File reading and decoding in `setImage` are not modelled: `FileReader`, `btoa`, `Image.onload` and the promise chain (src/Cutit/index.js:225-254). They are asynchronous browser I/O. `SetImage` models only the final state: a decoded image of known size is set, the points are cleared and resize runs. The early returns when there is no event or no file change nothing.
- Event wiring in `listeners`, `event.preventDefault`, the `init` call and the style settings are not modelled, apart from the marker width that serves as the hit radius. The event's `layerX`/`layerY` become the parameters `x`, `y`.
- Floating-point rounding is not modelled. Coordinates and fractions are exact reals. A division by a zero canvas width or height would give `Infinity`/`NaN` in the source. The methods and functions instead require a non-zero size, but only on the paths that divide: the drag branch of move, and adding a point with an image loaded.
- Resize's height follows the canvas attribute's integer conversion as truncation. Heights of 2^31 or more are not modelled.
- `Handlers.FittedHeight`, `CutitEditor.Cutit.Resize` and `CutitEditor.Cutit.SetImage` require a loaded image to have a non-zero natural width, and `Valid()` keeps that. With a width of 0 the source computes an infinite or NaN proportion at lines 162-163, and the height attribute does not get a meaningful value. The model does not cover that case.
- `Handlers.FittedHeight` truncates the exact ratio, but the source truncates a floating-point product, so rounding error can cost a whole pixel. For example, take a 49 by 1 image on a 49-pixel-wide canvas. The source computes `49 * (1 / 49)` as 0.9999999999999999, so the height becomes 0, and a later `addPoint` divides by zero. The model gives 1.
- `AddPoint`: the source record has no `moved` key, so it is `undefined`, which every handler treats as false. The model stores `false`.
- The polygon-closing vertex, insertion at the front of the list after closing, and crop/export with destination-out compositing are not modelled. `src/Cutit/index.js` has no closing vertex, no front insertion and no crop/export, so none of them is modelled.
- src/app/index.js (DOM lookup and listener glue) is not part of this model.
