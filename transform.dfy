/** The screen → world transform shared by hit testing and the shader, and world → cell
    addressing (components/Gallery.tsx:100-114, 185-192, 280-305). */
module ViewTransform {
  import opened GalleryTypes

  /** Strength of the radial lens: the factor is `1 - LENS_K · strength · r²`. */
  const LENS_K: real := 0.08

  /** The viewport (the uResolution uniform, in pixels) has positive extent. */
  predicate ValidViewport(res: Vec2) { res.x > 0.0 && res.y > 0.0 }

  /** Normalised device coordinates: x runs from -1 at the left edge to 1 at the right
      edge, y from 1 at the top edge to -1 at the bottom edge (screen y points down). */
  function Ndc(p: Vec2, res: Vec2): (n: Vec2)
    requires ValidViewport(res)
    ensures p.x == 0.0 ==> n.x == -1.0
    ensures p.x == res.x ==> n.x == 1.0
    ensures p.y == 0.0 ==> n.y == 1.0
    ensures p.y == res.y ==> n.y == -1.0
    ensures 0.0 <= p.x <= res.x ==> -1.0 <= n.x <= 1.0
    ensures 0.0 <= p.y <= res.y ==> -1.0 <= n.y <= 1.0
  {
    NdcAxis(p.x, res.x);
    NdcAxis(p.y, res.y);
    Vec2((p.x / res.x) * 2.0 - 1.0, -((p.y / res.y) * 2.0 - 1.0))
  }

  /** One axis of the normalisation: [0, w] onto [-1, 1], ends to ends. */
  lemma NdcAxis(v: real, w: real)
    requires w > 0.0
    ensures v == 0.0 ==> (v / w) * 2.0 - 1.0 == -1.0
    ensures v == w ==> (v / w) * 2.0 - 1.0 == 1.0
    ensures 0.0 <= v <= w ==> -1.0 <= (v / w) * 2.0 - 1.0 <= 1.0
  {
    assert w / w == 1.0;
    if 0.0 <= v <= w {
      assert v / w <= w / w;
    }
  }

  /** The lens factor at a point n of device space; it only needs r² = n.x² + n.y². */
  function LensFactor(n: Vec2, strength: real): real
  {
    1.0 - strength * LENS_K * (n.x * n.x + n.y * n.y)
  }

  /** `screenToWorld`: device coordinates, scaled by the lens factor, stretched by the
      aspect ratio (width/height, 1), multiplied by the zoom and moved by the offset. */
  function ScreenToWorld(p: Vec2, res: Vec2, offset: Vec2, zoom: real, strength: real): Vec2
    requires ValidViewport(res)
  {
    WorldOfNdc(Ndc(p, res), res, offset, zoom, strength)
  }

  /** The world point seen at device coordinates n: the second half of `screenToWorld`. */
  function WorldOfNdc(n: Vec2, res: Vec2, offset: Vec2, zoom: real, strength: real): Vec2
    requires ValidViewport(res)
  {
    var k := LensFactor(n, strength);
    Vec2(n.x * k * (res.x / res.y) * zoom + offset.x, n.y * k * 1.0 * zoom + offset.y)
  }

  /** The centre of the viewport sees exactly the pan offset, whatever the zoom and lens. */
  lemma CentreSeesOffset(res: Vec2, offset: Vec2, zoom: real, strength: real)
    requires ValidViewport(res)
    ensures ScreenToWorld(Vec2(res.x / 2.0, res.y / 2.0), res, offset, zoom, strength) == offset
  {
    assert Ndc(Vec2(res.x / 2.0, res.y / 2.0), res) == Vec2(0.0, 0.0);
  }

  /** Without the lens the transform is a similarity: a screen displacement d moves the
      world point by d·(2·zoom/height) on both axes, with y flipped (square pixels). */
  lemma UndistortedIsSimilarity(p: Vec2, d: Vec2, res: Vec2, offset: Vec2, zoom: real)
    requires ValidViewport(res)
    ensures ScreenToWorld(p.Plus(d), res, offset, zoom, 0.0).x - ScreenToWorld(p, res, offset, zoom, 0.0).x
            == d.x * (2.0 * zoom / res.y)
    ensures ScreenToWorld(p.Plus(d), res, offset, zoom, 0.0).y - ScreenToWorld(p, res, offset, zoom, 0.0).y
            == -(d.y * (2.0 * zoom / res.y))
  {
    var w, h := res.x, res.y;
    var a, b := Ndc(p, res), Ndc(p.Plus(d), res);
    NdcDisplacement(p, d, res);
    NoLens(a, res, offset, zoom);
    NoLens(b, res, offset, zoom);
    AspectCancels(a.x, b.x, d.x, w, h, zoom);
    assert b.y * zoom - a.y * zoom == (b.y - a.y) * zoom;
  }

  /** A screen displacement d moves the device point by 2d over the viewport extent. */
  lemma NdcDisplacement(p: Vec2, d: Vec2, res: Vec2)
    requires ValidViewport(res)
    ensures Ndc(p.Plus(d), res).x - Ndc(p, res).x == d.x * 2.0 / res.x
    ensures Ndc(p.Plus(d), res).y - Ndc(p, res).y == -(d.y * 2.0 / res.y)
  {
    assert (p.x + d.x) / res.x == p.x / res.x + d.x / res.x;
    assert (p.y + d.y) / res.y == p.y / res.y + d.y / res.y;
  }

  /** With strength 0 the lens factor is 1. */
  lemma NoLens(n: Vec2, res: Vec2, offset: Vec2, zoom: real)
    requires ValidViewport(res)
    ensures WorldOfNdc(n, res, offset, zoom, 0.0) == Vec2(n.x * (res.x / res.y) * zoom + offset.x, n.y * zoom + offset.y)
  {
    var k := LensFactor(n, 0.0);
    assert k == 1.0;
    assert n.x * k == n.x && n.y * k * 1.0 == n.y;
  }

  /** A horizontal device step of 2dx/w, stretched by the aspect ratio w/h, is 2dx/h. */
  lemma AspectCancels(ax: real, bx: real, dx: real, w: real, h: real, zoom: real)
    requires w > 0.0 && h > 0.0 && bx - ax == dx * 2.0 / w
    ensures bx * (w / h) * zoom - ax * (w / h) * zoom == dx * (2.0 * zoom / h)
  {
    assert (dx * 2.0 / w) * (w / h) == dx * 2.0 / h;
    assert bx * (w / h) * zoom - ax * (w / h) * zoom == (bx - ax) * (w / h) * zoom;
  }

  /** The lens is radial: it scales the undistorted view vector (relative to the offset)
      by the lens factor and never changes its direction. */
  lemma LensIsRadial(p: Vec2, res: Vec2, offset: Vec2, zoom: real, strength: real)
    requires ValidViewport(res)
    ensures ScreenToWorld(p, res, offset, zoom, strength).Minus(offset)
            == ScreenToWorld(p, res, offset, zoom, 0.0).Minus(offset).Scale(LensFactor(Ndc(p, res), strength))
  {
  }

  /** The grid cell holding a world point: per-axis floor of the coordinate over the cell
      size. The point lies in the half-open square of that cell. */
  function CellOf(w: Vec2, cellSize: real): (c: CellId)
    requires cellSize > 0.0
    ensures c.x as real * cellSize <= w.x < (c.x as real + 1.0) * cellSize
    ensures c.y as real * cellSize <= w.y < (c.y as real + 1.0) * cellSize
  {
    FloorDivBounds(w.x, cellSize);
    FloorDivBounds(w.y, cellSize);
    CellId((w.x / cellSize).Floor, (w.y / cellSize).Floor)
  }

  lemma FloorDivBounds(v: real, s: real)
    requires s > 0.0
    ensures (v / s).Floor as real * s <= v < ((v / s).Floor as real + 1.0) * s
  {
    var q := (v / s).Floor as real;
    assert q <= v / s < q + 1.0;
    assert (v / s) * s == v;
    MulRealMonotone(q, v / s, s);
    assert (q + 1.0) * s - v == (q + 1.0 - v / s) * s;
    ProductNonZero(q + 1.0 - v / s, s);
    assert (q + 1.0 - v / s) * s > 0.0;
  }

  lemma ProductNonZero(a: real, b: real)
    ensures a * b == 0.0 <==> a == 0.0 || b == 0.0
    ensures a > 0.0 && b > 0.0 ==> a * b > 0.0
  {
    if a != 0.0 && b != 0.0 {
      assert (a * b) / b == a;
    }
  }

  lemma MulRealMonotone(a: real, b: real, s: real)
    requires a <= b && s > 0.0
    ensures a * s <= b * s
  {
    assert b * s - a * s == (b - a) * s;
  }

  /** A cell is the only one whose square holds a given point. */
  lemma CellOfUnique(w: Vec2, cellSize: real, c: CellId)
    requires cellSize > 0.0
    requires c.x as real * cellSize <= w.x < (c.x as real + 1.0) * cellSize
    requires c.y as real * cellSize <= w.y < (c.y as real + 1.0) * cellSize
    ensures CellOf(w, cellSize) == c
  {
    var d := CellOf(w, cellSize);
    UniqueSlot(w.x, cellSize, c.x, d.x);
    UniqueSlot(w.y, cellSize, c.y, d.y);
  }

  lemma UniqueSlot(v: real, s: real, i: int, j: int)
    requires s > 0.0
    requires i as real * s <= v < (i as real + 1.0) * s
    requires j as real * s <= v < (j as real + 1.0) * s
    ensures i == j
  {
    if i < j {
      BelowSlot(v, s, i, j);
    } else if j < i {
      BelowSlot(v, s, j, i);
    }
  }

  lemma BelowSlot(v: real, s: real, i: int, j: int)
    requires s > 0.0 && i < j
    requires v < (i as real + 1.0) * s
    ensures v < j as real * s
  {
    assert i as real + 1.0 <= j as real;
    MulRealMonotone(i as real + 1.0, j as real, s);
    assert (i as real + 1.0) * s <= j as real * s;
  }

  /** The world-space centre of a cell, `(id + 0.5) · cellSize`. */
  function CellCenter(c: CellId, cellSize: real): Vec2
  {
    Vec2((c.x as real + 0.5) * cellSize, (c.y as real + 0.5) * cellSize)
  }

  /** Zooming in on a cell centres the view inside that same cell. */
  lemma CellCenterRoundTrip(c: CellId, cellSize: real)
    requires cellSize > 0.0
    ensures CellOf(CellCenter(c, cellSize), cellSize) == c
  {
    var m := CellCenter(c, cellSize);
    assert m.x == c.x as real * cellSize + 0.5 * cellSize;
    assert m.y == c.y as real * cellSize + 0.5 * cellSize;
    CellOfUnique(m, cellSize, c);
  }

  /** The change of the pan target for a drag displacement d (in pixels):
      `(-dx · (2/h) · zoom · (w/h), +dy · (2/h) · zoom)` (components/Gallery.tsx:296-303). */
  function DragPan(d: Vec2, res: Vec2, zoom: real): Vec2
    requires ValidViewport(res)
  {
    var moveSpeed := 2.0 / res.y;
    var aspect := res.x / res.y;
    Vec2(-(d.x * moveSpeed * zoom * aspect), d.y * moveSpeed * zoom)
  }

  /** A drag pans by the same amount however its moves are split. */
  lemma DragPanAdditive(a: Vec2, b: Vec2, res: Vec2, zoom: real)
    requires ValidViewport(res)
    ensures DragPan(a.Plus(b), res, zoom) == DragPan(a, res, zoom).Plus(DragPan(b, res, zoom))
  {
    var k := 2.0 / res.y * zoom;
    var asp := res.x / res.y;
    assert (a.x + b.x) * (2.0 / res.y) * zoom * asp == a.x * (2.0 / res.y) * zoom * asp + b.x * (2.0 / res.y) * zoom * asp;
    assert (a.y + b.y) * (2.0 / res.y) * zoom == a.y * (2.0 / res.y) * zoom + b.y * (2.0 / res.y) * zoom;
  }

  /** Without the lens, a vertical drag keeps the grabbed world point under the pointer;
      a horizontal drag does so only on a square viewport, since the x pan is additionally
      multiplied by the aspect ratio. */
  lemma DragAnchoring(p: Vec2, d: Vec2, res: Vec2, offset: Vec2, zoom: real)
    requires ValidViewport(res)
    ensures ScreenToWorld(p.Plus(d), res, offset.Plus(DragPan(d, res, zoom)), zoom, 0.0).y
            == ScreenToWorld(p, res, offset, zoom, 0.0).y
    ensures ScreenToWorld(p.Plus(d), res, offset.Plus(DragPan(d, res, zoom)), zoom, 0.0).x
            == ScreenToWorld(p, res, offset, zoom, 0.0).x
            <==> d.x == 0.0 || zoom == 0.0 || res.x == res.y
  {
    var off2 := offset.Plus(DragPan(d, res, zoom));
    UndistortedIsSimilarity(p, d, res, offset, zoom);
    var a := ScreenToWorld(p, res, offset, zoom, 0.0);
    var b := ScreenToWorld(p.Plus(d), res, offset, zoom, 0.0);
    var b2 := ScreenToWorld(p.Plus(d), res, off2, zoom, 0.0);
    assert b2.x == b.x - offset.x + off2.x;
    assert b2.y == b.y - offset.y + off2.y;
    HorizontalDragResidue(d.x, zoom, res.x, res.y);
  }

  /** The horizontal mismatch of a drag: the view moves by dx·2z/h, the pan by dx·2z·w/h². */
  lemma HorizontalDragResidue(dx: real, zoom: real, w: real, h: real)
    requires w > 0.0 && h > 0.0
    ensures dx * (2.0 * zoom / h) - dx * (2.0 / h) * zoom * (w / h) == 0.0
            <==> dx == 0.0 || zoom == 0.0 || w == h
  {
    var k := 2.0 / h;
    assert k * h == 2.0;
    assert 2.0 * zoom / h == k * zoom;
    var e := dx * (k * zoom) - dx * k * zoom * (w / h);
    assert e == (dx * zoom) * k * (1.0 - w / h);
    assert (1.0 - w / h == 0.0) <==> w == h by {
      assert (w / h) * h == w;
    }
    ProductNonZero(dx, zoom);
    ProductNonZero(dx * zoom, k);
    ProductNonZero(dx * zoom * k, 1.0 - w / h);
  }

  /** Wheel deltas normalised to pixels: line mode (1) × 18, page mode (2) × the
      container size, pixel mode (0) and any other mode unchanged. */
  function WheelPixels(delta: Vec2, deltaMode: int, res: Vec2): (d: Vec2)
    ensures deltaMode == 1 ==> d == delta.Scale(18.0)
    ensures deltaMode == 2 ==> d == Vec2(delta.x * res.x, delta.y * res.y)
    ensures deltaMode != 1 && deltaMode != 2 ==> d == delta
  {
    if deltaMode == 1 then Vec2(delta.x * 18.0, delta.y * 18.0)
    else if deltaMode == 2 then Vec2(delta.x * res.x, delta.y * res.y)
    else delta
  }

  /** The change of the pan target for one wheel event
      (framer/GalleryComponent.tsx:532-546): `(-dx · 0.001 · zoom · aspect, +dy · 0.001 · zoom)`. */
  function WheelPan(delta: Vec2, deltaMode: int, res: Vec2, zoom: real): Vec2
    requires ValidViewport(res)
  {
    var scrollSpeed := 0.001;
    var aspect := res.x / res.y;
    var d := WheelPixels(delta, deltaMode, res);
    Vec2(-(d.x * scrollSpeed * zoom * aspect), d.y * scrollSpeed * zoom)
  }

  /** A wheel scroll pans like a drag in the same direction, scaled by height/2000: one
      wheel pixel is worth h/2000 pixels of drag. */
  lemma WheelIsScaledDrag(delta: Vec2, deltaMode: int, res: Vec2, zoom: real)
    requires ValidViewport(res)
    ensures WheelPan(delta, deltaMode, res, zoom)
            == DragPan(WheelPixels(delta, deltaMode, res).Scale(res.y / 2000.0), res, zoom)
  {
    var d := WheelPixels(delta, deltaMode, res);
    WheelStep(d.x, res.y);
    WheelStep(d.y, res.y);
  }

  /** A pixel scaled by h/2000 and then by the drag speed 2/h moves 0.001 of a unit. */
  lemma WheelStep(v: real, h: real)
    requires h > 0.0
    ensures v * (h / 2000.0) * (2.0 / h) == v * 0.001
  {
    assert (h / 2000.0) * (2.0 / h) == 0.001;
  }
}
