/** The addressing half of the fragment program (src/gl/shaders.ts:28-117): the per-pixel
    world coordinate, the cell and in-cell position, the hover falloff, the image and
    caption areas, the catalog and atlas addressing and the vignette. Colour compositing
    and texture sampling are not modelled. GLSL builtins follow section 8.3 of the OpenGL
    ES Shading Language 1.00 specification. */
module GridShader {
  import opened GalleryTypes
  import opened CellAddressing
  import opened ViewTransform

  /** The uniforms the addressing reads. uHoveredCellId is a vec2 in GLSL that only ever
      holds integral values (a copied cell id or the initial (-999, -999)). */
  datatype Uniforms = Uniforms(
    offset: Vec2,
    resolution: Vec2,
    mousePos: Vec2,
    zoom: real,
    distortionStrength: real,
    cellSize: real,
    textureCount: nat,
    hoveredCellId: CellId,
    isVideoActive: bool)

  predicate WellFormed(u: Uniforms)
  {
    ValidViewport(u.resolution) && u.cellSize > 0.0 && u.textureCount > 0
  }

  // ---- GLSL builtins -------------------------------------------------------------

  /** `fract(x) = x - floor(x)`. */
  function Fract(x: real): real { x - x.Floor as real }

  /** `mod(x, y) = x - y · floor(x / y)`. */
  function Mod(x: real, y: real): real
    requires y != 0.0
  {
    x - y * (x / y).Floor as real
  }

  function Clamp(x: real, lo: real, hi: real): (r: real)
    requires lo <= hi
    ensures lo <= r <= hi
    ensures lo <= x <= hi ==> r == x
  {
    if x < lo then lo else if x > hi then hi else x
  }

  /** The Hermite polynomial of smoothstep on the clamped parameter. */
  function Hermite(t: real): real { t * t * (3.0 - 2.0 * t) }

  /** The clamped interpolation parameter of smoothstep. */
  function SmoothParam(e0: real, e1: real, x: real): real
    requires e0 != e1
  {
    Clamp((x - e0) / (e1 - e0), 0.0, 1.0)
  }

  /** `smoothstep(e0, e1, x)` in its clamp-polynomial form. GLSL leaves e0 >= e1 undefined;
      the shader relies on the polynomial form with reversed edges, which is modelled. */
  function Smoothstep(e0: real, e1: real, x: real): (r: real)
    requires e0 != e1
    ensures 0.0 <= r <= 1.0
    ensures (x - e0) / (e1 - e0) <= 0.0 ==> r == 0.0
    ensures (x - e0) / (e1 - e0) >= 1.0 ==> r == 1.0
    ensures 0.0 < (x - e0) / (e1 - e0) < 1.0 ==> 0.0 < r < 1.0
  {
    HermiteBounds(SmoothParam(e0, e1, x));
    Hermite(SmoothParam(e0, e1, x))
  }

  lemma HermiteBounds(t: real)
      requires 0.0 <= t <= 1.0
      ensures 0.0 <= Hermite(t) <= 1.0
      ensures t == 0.0 ==> Hermite(t) == 0.0
      ensures t == 1.0 ==> Hermite(t) == 1.0
      ensures 0.0 < t < 1.0 ==> 0.0 < Hermite(t) < 1.0
  {
    HermiteFactors(t);
    var u := 1.0 - t;
    FactorSign(t, 3.0 - 2.0 * t, Hermite(t));
    FactorSign(u, 1.0 + 2.0 * t, 1.0 - Hermite(t));
  }

  /** The sign of x · (x · y) for x in [0, 1] and y > 0: zero exactly when x is. */
  lemma FactorSign(x: real, y: real, p: real)
    requires 0.0 <= x <= 1.0 && y > 0.0 && p == x * (x * y)
    ensures p >= 0.0 && (p == 0.0 <==> x == 0.0)
  {
    if x > 0.0 {
      MulPos(x, y);
      MulPos(x, x * y);
    }
  }

  lemma HermiteFactors(t: real)
    ensures Hermite(t) == t * (t * (3.0 - 2.0 * t))
    ensures 1.0 - Hermite(t) == (1.0 - t) * ((1.0 - t) * (1.0 + 2.0 * t))
  {
  }
  /** The Hermite polynomial is non-decreasing on [0, 1]. */
  lemma HermiteMonotone(a: real, b: real)
      requires 0.0 <= a <= b <= 1.0
      ensures Hermite(a) <= Hermite(b)
  {
    MulNonneg(a, 1.0 - a);
    MulNonneg(b, 1.0 - b);
    MulNonneg(a, 1.0 - b);
    MulNonneg(b, 1.0 - a);
    var m := 2.0 * (a * (1.0 - a)) + 2.0 * (b * (1.0 - b)) + a * (1.0 - b) + b * (1.0 - a);
    assert m >= 0.0;
    MulNonneg(b - a, m);
    assert Hermite(b) - Hermite(a) == (b - a) * m;
  }

  lemma MulPos(a: real, b: real)
    requires a > 0.0 && b > 0.0
    ensures a * b > 0.0
  {
  }

  lemma MulNonneg(a: real, b: real)
    requires a >= 0.0 && b >= 0.0
    ensures a * b >= 0.0
  {
  }

  lemma ScaleLe(a: real, b: real, s: real)
    requires a <= b && s >= 0.0
    ensures a * s <= b * s
  {
  }

  lemma DivLe(a: real, b: real, g: real)
    requires g > 0.0 && a <= b
    ensures a / g <= b / g
  {
  }

  lemma DivLt(a: real, b: real, g: real)
    requires g > 0.0 && a < b
    ensures a / g < b / g
  {
  }

  /** Dividing by a negative number reverses an inequality. */
  lemma DivLeNeg(a: real, b: real, d: real)
    requires d < 0.0 && a <= b
    ensures b / d <= a / d
  {
  }

  lemma ClampMonotone(a: real, b: real)
    requires a <= b
    ensures Clamp(a, 0.0, 1.0) <= Clamp(b, 0.0, 1.0)
  {
  }

  /** The smoothstep parameter rises with x for ordered edges and falls for reversed ones. */
  lemma SmoothParamMonotone(e0: real, e1: real, x1: real, x2: real)
    requires e0 != e1 && x1 <= x2
    ensures e0 < e1 ==> SmoothParam(e0, e1, x1) <= SmoothParam(e0, e1, x2)
    ensures e0 > e1 ==> SmoothParam(e0, e1, x1) >= SmoothParam(e0, e1, x2)
  {
    var d := e1 - e0;
    if d > 0.0 {
      DivLe(x1 - e0, x2 - e0, d);
      ClampMonotone((x1 - e0) / d, (x2 - e0) / d);
    } else {
      DivLeNeg(x1 - e0, x2 - e0, d);
      ClampMonotone((x2 - e0) / d, (x1 - e0) / d);
    }
  }

  /** smoothstep rises with x for ordered edges and falls with x for reversed edges. */
  lemma SmoothstepMonotone(e0: real, e1: real, x1: real, x2: real)
    requires e0 != e1 && x1 <= x2
    ensures e0 < e1 ==> Smoothstep(e0, e1, x1) <= Smoothstep(e0, e1, x2)
    ensures e0 > e1 ==> Smoothstep(e0, e1, x1) >= Smoothstep(e0, e1, x2)
  {
    SmoothParamMonotone(e0, e1, x1, x2);
    var t1, t2 := SmoothParam(e0, e1, x1), SmoothParam(e0, e1, x2);
    if e0 < e1 { HermiteMonotone(t1, t2); } else { HermiteMonotone(t2, t1); }
  }

  /** `len` is what GLSL `length(v)` returns: the non-negative square root of v·v. Dafny's
      reals have no square root, so lengths enter the model as inputs tied by this. */
  predicate IsLength(len: real, v: Vec2) { len >= 0.0 && len * len == v.x * v.x + v.y * v.y }

  // ---- per-pixel and pointer world coordinates --------------------------------------

  /** `screenUV = (vUv - 0.5) · 2`: the quad's texture coordinate (y up) in [-1, 1]². */
  function ScreenUV(vUv: Vec2): Vec2 { Vec2((vUv.x - 0.5) * 2.0, (vUv.y - 0.5) * 2.0) }

  /** The world coordinate of a pixel (shaders.ts:29-36); `radius * radius` is s·s. */
  function PixelWorld(vUv: Vec2, u: Uniforms): Vec2
    requires WellFormed(u)
  {
    var s := ScreenUV(vUv);
    var distortion := 1.0 - u.distortionStrength * 0.08 * (s.x * s.x + s.y * s.y);
    var distorted := Vec2(s.x * distortion, s.y * distortion);
    var aspect := Vec2(u.resolution.x / u.resolution.y, 1.0);
    Vec2(distorted.x * aspect.x * u.zoom + u.offset.x, distorted.y * aspect.y * u.zoom + u.offset.y)
  }

  /** The world coordinate under the pointer (shaders.ts:42-49). */
  function MouseWorld(u: Uniforms): Vec2
    requires WellFormed(u)
  {
    var m0 := Vec2((u.mousePos.x / u.resolution.x) * 2.0 - 1.0, (u.mousePos.y / u.resolution.y) * 2.0 - 1.0);
    var m := Vec2(m0.x, -m0.y);
    var distortion := 1.0 - u.distortionStrength * 0.08 * (m.x * m.x + m.y * m.y);
    var aspect := Vec2(u.resolution.x / u.resolution.y, 1.0);
    Vec2(m.x * distortion * aspect.x * u.zoom + u.offset.x, m.y * distortion * aspect.y * u.zoom + u.offset.y)
  }

  /** The pixel a screen point covers, as a quad texture coordinate (y flipped). */
  function UvOfScreen(p: Vec2, res: Vec2): Vec2
    requires ValidViewport(res)
  {
    Vec2(p.x / res.x, 1.0 - p.y / res.y)
  }

  /** The shader's per-pixel transform and the hit test agree exactly: the pixel under a
      screen point sees the world coordinate `screenToWorld` computes for that point. */
  lemma PixelWorldMatchesHitTest(p: Vec2, u: Uniforms)
    requires WellFormed(u)
    ensures PixelWorld(UvOfScreen(p, u.resolution), u)
            == ScreenToWorld(p, u.resolution, u.offset, u.zoom, u.distortionStrength)
  {
    var s, n := ScreenUV(UvOfScreen(p, u.resolution)), Ndc(p, u.resolution);
    assert s.x == n.x && s.y == n.y;
    assert s == n;
    PixelWorldOfNdc(UvOfScreen(p, u.resolution), u);
  }

  /** The shader's per-pixel transform is the world point seen at the pixel's device
      coordinates. */
  lemma PixelWorldOfNdc(vUv: Vec2, u: Uniforms)
    requires WellFormed(u)
    ensures PixelWorld(vUv, u) == WorldOfNdc(ScreenUV(vUv), u.resolution, u.offset, u.zoom, u.distortionStrength)
  {
  }

  /** The pointer's world coordinate in the shader is `screenToWorld` of the pointer. */
  lemma MouseWorldMatchesHitTest(u: Uniforms)
    requires WellFormed(u)
    ensures MouseWorld(u) == ScreenToWorld(u.mousePos, u.resolution, u.offset, u.zoom, u.distortionStrength)
  {
    var n := Ndc(u.mousePos, u.resolution);
    assert MouseWorld(u) == WorldOfNdc(n, u.resolution, u.offset, u.zoom, u.distortionStrength);
  }

  /** The in-cell position `fract(world / cellSize)`: in [0, 1) on both axes, and together
      with the cell id `floor(world / cellSize)` it rebuilds the world coordinate. */
  function CellUV(w: Vec2, cellSize: real): (c: Vec2)
    requires cellSize > 0.0
    ensures 0.0 <= c.x < 1.0 && 0.0 <= c.y < 1.0
    ensures w.x == (CellOf(w, cellSize).x as real + c.x) * cellSize
    ensures w.y == (CellOf(w, cellSize).y as real + c.y) * cellSize
  {
    var c := Vec2(Fract(w.x / cellSize), Fract(w.y / cellSize));
    assert (w.x / cellSize) * cellSize == w.x;
    assert (w.y / cellSize) * cellSize == w.y;
    c
  }

  // ---- hover -----------------------------------------------------------------------

  /** `pow(smoothstep(1.5·cellSize, 0, dist), 2)` for the distance from the pointer's
      world point to the cell centre: 1 at the centre, fading to 0 at 1.5 cells. */
  function HoverIntensity(dist: real, cellSize: real): (h: real)
    requires cellSize > 0.0 && dist >= 0.0
    ensures 0.0 <= h <= 1.0
    ensures dist == 0.0 ==> h == 1.0
    ensures h > 0.0 <==> dist < 1.5 * cellSize
  {
    HoverSmoothstep(dist, cellSize * 1.5);
    Square(HoverFalloff(dist, cellSize))
  }

  /** `pow(x, 2.0)`. */
  function Square(x: real): real { x * x }

  /** `smoothstep(hoverRadius, 0.0, distToMouse)` before squaring. */
  function HoverFalloff(dist: real, cellSize: real): real
    requires cellSize > 0.0
  {
    Smoothstep(cellSize * 1.5, 0.0, dist)
  }

  /** The falloff before squaring: positive exactly inside the 1.5-cell radius. */
  lemma HoverSmoothstep(dist: real, r: real)
    requires r > 0.0 && dist >= 0.0
    ensures var s := Smoothstep(r, 0.0, dist);
            0.0 <= s * s <= 1.0 && (dist == 0.0 ==> s * s == 1.0) && (s * s > 0.0 <==> dist < r)
  {
    var s := Smoothstep(r, 0.0, dist);
    ReverseRatio(dist, r);
    RatioBelowOne(dist, r);
    MulNonneg(s, s);
    ScaleLe(s, 1.0, s);
  }

  lemma ReverseRatio(a: real, r: real)
    requires r > 0.0
    ensures (a - r) / (0.0 - r) == 1.0 - a / r
  {
    assert (a - r) / (0.0 - r) == (r - a) / r;
    assert (r - a) / r == r / r - a / r;
  }

  lemma DivPositive(a: real, r: real)
    requires r > 0.0
    ensures 0.0 < a / r <==> 0.0 < a
  {
  }

  lemma RatioBelowOne(a: real, r: real)
    requires r > 0.0
    ensures a < r <==> a / r < 1.0
  {
  }

  /** The glow never grows as the pointer moves away. */
  lemma HoverIntensityMonotone(d1: real, d2: real, cellSize: real)
    requires cellSize > 0.0 && 0.0 <= d1 <= d2
    ensures HoverIntensity(d1, cellSize) >= HoverIntensity(d2, cellSize)
  {
    HoverFalloffMonotone(d1, d2, cellSize);
    SquareLe(HoverFalloff(d2, cellSize), HoverFalloff(d1, cellSize));
  }

  lemma HoverFalloffMonotone(d1: real, d2: real, cellSize: real)
    requires cellSize > 0.0 && 0.0 <= d1 <= d2
    ensures 0.0 <= HoverFalloff(d2, cellSize) <= HoverFalloff(d1, cellSize)
  {
    SmoothstepMonotone(cellSize * 1.5, 0.0, d1, d2);
  }

  lemma SquareLe(a: real, b: real)
    requires 0.0 <= a <= b
    ensures Square(a) <= Square(b)
  {
    ScaleLe(a, b, a);
    ScaleLe(a, b, b);
  }

  /** The glow of cell c with `distToMouse` measured as the shader does, from the pointer's
      world point to the cell's centre: positive exactly when that point lies within 1.5
      cells of the centre. */
  lemma HoverByWorldDistance(u: Uniforms, c: CellId, dist: real)
    requires WellFormed(u)
    requires IsLength(dist, MouseWorld(u).Minus(CellCenter(c, u.cellSize)))
    ensures var v := MouseWorld(u).Minus(CellCenter(c, u.cellSize));
            HoverIntensity(dist, u.cellSize) > 0.0 <==> Square(v.x) + Square(v.y) < Square(1.5 * u.cellSize)
  {
    SquareLt(dist, 1.5 * u.cellSize);
  }

  /** The cell under the pointer always glows: its centre is at most half a cell away on
      each axis, well inside the 1.5-cell radius. */
  lemma PointerCellGlows(u: Uniforms, dist: real)
    requires WellFormed(u)
    requires IsLength(dist, MouseWorld(u).Minus(CellCenter(CellOf(MouseWorld(u), u.cellSize), u.cellSize)))
    ensures HoverIntensity(dist, u.cellSize) > 0.0
  {
    var w := MouseWorld(u);
    OwnCellGlows(w, u.cellSize, dist);
  }

  /** Any world point lies within the hover radius of the centre of its own cell. */
  lemma OwnCellGlows(w: Vec2, cs: real, dist: real)
    requires cs > 0.0
    requires IsLength(dist, w.Minus(CellCenter(CellOf(w, cs), cs)))
    ensures HoverIntensity(dist, cs) > 0.0
  {
    var v := w.Minus(CellCenter(CellOf(w, cs), cs));
    CentreWithinHalfCell(w, cs);
    WithinHoverRadius(v.x, v.y, cs, dist);
  }

  /** The centre of a point's cell is at most half a cell away from it on each axis. */
  lemma CentreWithinHalfCell(w: Vec2, cs: real)
    requires cs > 0.0
    ensures var v := w.Minus(CellCenter(CellOf(w, cs), cs));
            -0.5 * cs <= v.x <= 0.5 * cs && -0.5 * cs <= v.y <= 0.5 * cs
  {
    var c := CellOf(w, cs);
    CentreOffset(w.x, c.x as real, cs);
    CentreOffset(w.y, c.y as real, cs);
  }

  /** A point of the cell starting at k·cs is at most half a cell from its centre. */
  lemma CentreOffset(w: real, k: real, cs: real)
    requires cs > 0.0 && k * cs <= w < (k + 1.0) * cs
    ensures -0.5 * cs <= w - (k + 0.5) * cs <= 0.5 * cs
  {
    assert (k + 0.5) * cs == k * cs + 0.5 * cs;
    assert (k + 1.0) * cs == k * cs + cs;
  }

  /** A distance whose components are at most half a cell is below 1.5 cells. */
  lemma WithinHoverRadius(vx: real, vy: real, cs: real, dist: real)
    requires cs > 0.0 && -0.5 * cs <= vx <= 0.5 * cs && -0.5 * cs <= vy <= 0.5 * cs
    requires dist >= 0.0 && dist * dist == vx * vx + vy * vy
    ensures dist < 1.5 * cs
  {
    HalfCellsInRadius(vx, vy, cs);
    SquareLt(dist, 1.5 * cs);
  }

  /** Components of at most half a cell give a squared length below the squared radius. */
  lemma HalfCellsInRadius(vx: real, vy: real, cs: real)
    requires cs > 0.0 && -0.5 * cs <= vx <= 0.5 * cs && -0.5 * cs <= vy <= 0.5 * cs
    ensures Square(vx) + Square(vy) < Square(1.5 * cs)
  {
    HalfCellBound(vx, cs);
    HalfCellBound(vy, cs);
    SquarePos(cs);
    SquareScale(1.5, cs);
  }

  /** An offset of at most half a cell squares to at most a quarter cell squared. */
  lemma HalfCellBound(d: real, cs: real)
    requires cs > 0.0 && -0.5 * cs <= d <= 0.5 * cs
    ensures Square(d) <= 0.25 * Square(cs)
  {
    SquareScale(0.5, cs);
    if d >= 0.0 {
      SquareLe(d, 0.5 * cs);
    } else {
      SquareLe(-d, 0.5 * cs);
      SquareNeg(d);
    }
  }

  /** Squaring keeps the order of non-negative numbers, strictly. */
  lemma SquareLt(a: real, b: real)
    requires 0.0 <= a && 0.0 <= b
    ensures a < b <==> Square(a) < Square(b)
  {
    if a < b {
      MulPos(b - a, b + a);
    } else {
      SquareLe(b, a);
    }
  }

  lemma SquarePos(a: real)
    requires a > 0.0
    ensures Square(a) > 0.0
  {
    SquareLt(0.0, a);
  }

  lemma SquareScale(k: real, a: real)
    ensures Square(k * a) == Square(k) * Square(a)
  {
  }

  lemma SquareNeg(a: real)
    ensures Square(-a) == Square(a)
  {
  }

  /** The hover tint needs a positive intensity and a pointer inside the surface; the
      pointer-leave sentinel (-1, -1) switches it off everywhere. */
  predicate IsHovered(hoverIntensity: real, u: Uniforms)
  {
    hoverIntensity > 0.0 && u.mousePos.x > 0.0
  }

  lemma HoverTintRule(dist: real, u: Uniforms)
    requires WellFormed(u) && dist >= 0.0
    ensures IsHovered(HoverIntensity(dist, u.cellSize), u) <==> dist < 1.5 * u.cellSize && u.mousePos.x > 0.0
    ensures u.mousePos == Vec2(-1.0, -1.0) ==> !IsHovered(HoverIntensity(dist, u.cellSize), u)
  {
  }

  // ---- image and caption areas -----------------------------------------------------

  const IMAGE_SIZE: real := 0.6

  function HoverScale(h: real): real { 1.0 + h * 0.05 }
  function ImageBorder(h: real): real { (1.0 - IMAGE_SIZE * HoverScale(h)) * 0.5 }

  /** `imageUV = (cellUV - imageBorder) / (imageSize · hoverScale)`. */
  function ImageUV(cellUV: Vec2, h: real): Vec2
    requires 0.0 <= h
  {
    var w := IMAGE_SIZE * HoverScale(h);
    Vec2((cellUV.x - ImageBorder(h)) / w, (cellUV.y - ImageBorder(h)) / w)
  }

  predicate InUnitSquare(v: Vec2) { 0.0 < v.x < 1.0 && 0.0 < v.y < 1.0 }

  /** The image covers the centred square `(0.2 - 0.015·h, 0.8 + 0.015·h)²` of the cell:
      0.2..0.8 at rest, growing by up to 5 % under full hover. */
  lemma ImageArea(cellUV: Vec2, h: real)
    requires 0.0 <= h <= 1.0
    ensures ImageBorder(h) == 0.2 - 0.015 * h
    ensures InUnitSquare(ImageUV(cellUV, h))
            <==> 0.2 - 0.015 * h < cellUV.x < 0.8 + 0.015 * h && 0.2 - 0.015 * h < cellUV.y < 0.8 + 0.015 * h
  {
    var w := IMAGE_SIZE * HoverScale(h);
    var b := ImageBorder(h);
    assert w > 0.0;
    UnitInterval(cellUV.x, b, w);
    UnitInterval(cellUV.y, b, w);
  }

  lemma UnitInterval(c: real, b: real, w: real)
    requires w > 0.0
    ensures 0.0 < (c - b) / w < 1.0 <==> b < c < b + w
  {
    DivPositive(c - b, w);
    RatioBelowOne(c - b, w);
  }

  lemma ImageAreaAtRest(cellUV: Vec2)
    ensures InUnitSquare(ImageUV(cellUV, 0.0)) <==> 0.2 < cellUV.x < 0.8 && 0.2 < cellUV.y < 0.8
  {
    ImageArea(cellUV, 0.0);
  }

  /** Hovering only ever enlarges the image area. */
  lemma HoverEnlargesImage(cellUV: Vec2, h1: real, h2: real)
    requires 0.0 <= h1 <= h2 <= 1.0
    ensures InUnitSquare(ImageUV(cellUV, h1)) ==> InUnitSquare(ImageUV(cellUV, h2))
  {
    ImageArea(cellUV, h1);
    ImageArea(cellUV, h2);
  }

  /** The soft edge mask of the image (shaders.ts:73-75). */
  function ImageAlpha(iu: Vec2): real
  {
    var e := 0.01;
    Smoothstep(-e, e, iu.x) * Smoothstep(1.0 + e, 1.0 - e, iu.x)
      * Smoothstep(-e, e, iu.y) * Smoothstep(1.0 + e, 1.0 - e, iu.y)
  }

  /** Inside the image area the edge mask is positive, so the `imageAlpha > 0` test of
      shaders.ts:86 never excludes a pixel the area test admits. */
  lemma ImageAlphaPositiveInArea(iu: Vec2)
    requires InUnitSquare(iu)
    ensures ImageAlpha(iu) > 0.0
  {
    var e := 0.01;
    var a, b := Smoothstep(-e, e, iu.x), Smoothstep(1.0 + e, 1.0 - e, iu.x);
    var c, d := Smoothstep(-e, e, iu.y), Smoothstep(1.0 + e, 1.0 - e, iu.y);
    assert a > 0.0 && b > 0.0 && c > 0.0 && d > 0.0;
    MulPos(a, b);
    MulPos(a * b, c);
    MulPos(a * b * c, d);
  }

  const TEXT_Y: real := 0.05
  const TEXT_HEIGHT: real := 0.08

  /** The caption band: x in (0.05, 0.95), y in (0.05, 0.13) of the cell. */
  predicate InTextArea(c: Vec2)
  {
    c.x > 0.05 && c.x < 0.95 && c.y > TEXT_Y && c.y < TEXT_Y + TEXT_HEIGHT
  }

  /** The caption texture coordinate, y flipped (shaders.ts:103-104). */
  function TextCoord(c: Vec2): Vec2
  {
    Vec2((c.x - 0.05) / 0.9, 1.0 - (c.y - TEXT_Y) / TEXT_HEIGHT)
  }

  /** The caption band is exactly where the caption coordinate is inside the unit square. */
  lemma TextCoordSpansBand(c: Vec2)
    ensures InTextArea(c) <==> InUnitSquare(TextCoord(c))
  {
    UnitInterval(c.x, 0.05, 0.9);
    UnitInterval(c.y, TEXT_Y, TEXT_HEIGHT);
    var t := (c.y - TEXT_Y) / TEXT_HEIGHT;
    assert 0.0 < 1.0 - t < 1.0 <==> 0.0 < t < 1.0;
  }

  /** The caption band lies below the image at every hover intensity: they never overlap. */
  lemma CaptionBelowImage(c: Vec2, h: real)
    requires 0.0 <= h <= 1.0
    ensures !(InTextArea(c) && InUnitSquare(ImageUV(c, h)))
  {
    ImageArea(c, h);
  }

  // ---- catalog and atlas addressing -------------------------------------------------

  /** `texIndex = mod(floor(cellId.x) + floor(cellId.y) · 3, uTextureCount)`. */
  function TexIndex(cellId: Vec2, count: real): real
    requires count > 0.0
  {
    Mod(cellId.x.Floor as real + cellId.y.Floor as real * 3.0, count)
  }

  /** The shader shows the catalog item the hit test and the video lookup address. */
  lemma TexIndexMatchesCatalogIndex(c: CellId, n: nat)
    requires n > 0
    ensures TexIndex(Vec2(c.x as real, c.y as real), n as real) == CatalogIndex(c, n) as real
  {
    var a := c.x + c.y * ROW_STRIDE;
    assert (c.x as real).Floor == c.x && (c.y as real).Floor == c.y;
    assert c.x as real + c.y as real * 3.0 == a as real;
    assert TexIndex(Vec2(c.x as real, c.y as real), n as real) == Mod(a as real, n as real);
    ModOfWhole(a, n);
  }

  /** On whole numbers GLSL `mod` by a positive divisor is the Euclidean remainder. */
  lemma ModOfWhole(a: int, n: int)
    requires n > 0
    ensures Mod(a as real, n as real) == (a % n) as real
  {
    RealFloorOfQuotient(a, n);
    var q := a / n;
    assert Mod(a as real, n as real) == a as real - n as real * q as real;
    assert a as real - n as real * q as real == (a - n * q) as real;
  }

  /** `texIndex` is a whole number in [0, count). */
  lemma TexIndexRange(c: CellId, n: nat)
    requires n > 0
    ensures 0.0 <= TexIndex(Vec2(c.x as real, c.y as real), n as real) < n as real
    ensures TexIndex(Vec2(c.x as real, c.y as real), n as real).Floor as real
            == TexIndex(Vec2(c.x as real, c.y as real), n as real)
  {
    TexIndexMatchesCatalogIndex(c, n);
  }

  /** `ceil(sqrt(uTextureCount))` for a whole texture count. */
  function AtlasSize(count: nat): real { CeilSqrt(count) as real }

  /** `atlasPos = (mod(texIndex, atlasSize), floor(texIndex / atlasSize))`. */
  function AtlasPos(texIndex: real, atlasSize: real): Vec2
    requires atlasSize > 0.0
  {
    Vec2(Mod(texIndex, atlasSize), (texIndex / atlasSize).Floor as real)
  }

  /** The shader's atlas position of index i is the slot the atlas builder places it in:
      column i mod g, row i div g, both inside the g × g grid. */
  lemma AtlasPosIsSlot(i: nat, n: nat)
    requires i < n
    ensures AtlasSize(n) > 0.0
    ensures AtlasPos(i as real, AtlasSize(n))
            == Vec2(SlotColumn(i, CeilSqrt(n)) as real, SlotRow(i, CeilSqrt(n)) as real)
    ensures 0.0 <= AtlasPos(i as real, AtlasSize(n)).x < AtlasSize(n)
    ensures 0.0 <= AtlasPos(i as real, AtlasSize(n)).y < AtlasSize(n)
  {
    var g := CeilSqrt(n);
    SlotInGrid(i, n);
    RealFloorOfQuotient(i, g);
    assert (i as int) - g * (i / g) == i % g;
  }

  /** The image atlas coordinate: `(atlasPos + imageUV) / atlasSize`, then y flipped. */
  function ImageAtlasUV(pos: Vec2, iu: Vec2, size: real): Vec2
    requires size > 0.0
  {
    Vec2((pos.x + iu.x) / size, 1.0 - (pos.y + iu.y) / size)
  }

  /** The caption atlas coordinate as written: `(atlasPos + textCoord) / atlasSize`, with
      the caption coordinate flipped (TextCoord) but the atlas coordinate not. */
  function TextAtlasUV(pos: Vec2, tc: Vec2, size: real): Vec2
    requires size > 0.0
  {
    Vec2((pos.x + tc.x) / size, (pos.y + tc.y) / size)
  }

  /** The caption atlas coordinate sampling the same slot as the image path: the unflipped
      band coordinate, then the atlas y flipped as in ImageAtlasUV. */
  function TextAtlasUVCorrected(pos: Vec2, c: Vec2, size: real): Vec2
    requires size > 0.0
  {
    Vec2((pos.x + (c.x - 0.05) / 0.9) / size, 1.0 - (pos.y + (c.y - TEXT_Y) / TEXT_HEIGHT) / size)
  }

  /** `k/g < (k + t)/g < (k + 1)/g` for t in (0, 1). */
  lemma InCell(k: real, t: real, g: real)
    requires g > 0.0 && 0.0 < t < 1.0
    ensures k / g < (k + t) / g < (k + 1.0) / g
  {
    DivLt(k, k + t, g);
    DivLt(k + t, k + 1.0, g);
  }

  /** An image pixel of catalog index i samples inside the rectangle of slot
      (i mod g, i div g), rows counted down from v = 1 (v = 1 - uv.y). */
  lemma ImageAtlasUVInSlot(i: nat, n: nat, iu: Vec2)
    requires i < n && InUnitSquare(iu)
    ensures var g := AtlasSize(n); var uv := ImageAtlasUV(AtlasPos(i as real, g), iu, g);
            SlotColumn(i, CeilSqrt(n)) as real / g < uv.x < (SlotColumn(i, CeilSqrt(n)) as real + 1.0) / g
            && SlotRow(i, CeilSqrt(n)) as real / g < 1.0 - uv.y < (SlotRow(i, CeilSqrt(n)) as real + 1.0) / g
  {
    AtlasPosIsSlot(i, n);
    var g := AtlasSize(n);
    InCell(SlotColumn(i, CeilSqrt(n)) as real, iu.x, g);
    InCell(SlotRow(i, CeilSqrt(n)) as real, iu.y, g);
  }

  /** The image atlas coordinate stays inside [0, 1]² for every in-area pixel. */
  lemma ImageAtlasUVInAtlas(i: nat, n: nat, iu: Vec2)
    requires i < n && InUnitSquare(iu)
    ensures var g := AtlasSize(n); var uv := ImageAtlasUV(AtlasPos(i as real, g), iu, g);
            0.0 <= uv.x <= 1.0 && 0.0 <= uv.y <= 1.0
  {
    var g := AtlasSize(n);
    var uv := ImageAtlasUV(AtlasPos(i as real, g), iu, g);
    var col, row := SlotColumn(i, CeilSqrt(n)) as real, SlotRow(i, CeilSqrt(n)) as real;
    ImageAtlasUVInSlot(i, n, iu);
    assert col / g < uv.x < (col + 1.0) / g;
    assert row / g < 1.0 - uv.y < (row + 1.0) / g;
    SlotInGrid(i, n);
    UnitFraction(col, g);
    UnitFraction(row, g);
  }

  lemma UnitFraction(k: real, g: real)
    requires g > 0.0 && 0.0 <= k && k + 1.0 <= g
    ensures 0.0 <= k / g && (k + 1.0) / g <= 1.0
  {
    DivLe(0.0, k, g);
    DivLe(k + 1.0, g, g);
  }

  /** As written, a caption pixel of index i samples the slot of row g - 1 - (i div g)
      counted down from v = 1: the row mirrored with respect to the image path. */
  lemma TextAtlasUVMirrorsRow(i: nat, n: nat, c: Vec2)
    requires i < n && InTextArea(c)
    ensures var g := AtlasSize(n); var uv := TextAtlasUV(AtlasPos(i as real, g), TextCoord(c), g);
            var mirrored := (CeilSqrt(n) - 1 - SlotRow(i, CeilSqrt(n))) as real;
            mirrored / g < 1.0 - uv.y < (mirrored + 1.0) / g
  {
    AtlasPosIsSlot(i, n);
    TextCoordSpansBand(c);
    var row := SlotRow(i, CeilSqrt(n));
    assert (CeilSqrt(n) - 1 - row) as real == AtlasSize(n) - 1.0 - row as real;
    MirroredRow(row as real, TextCoord(c).y, AtlasSize(n));
  }

  /** Row `row` counted up from v = 0 is row g - 1 - row counted down from v = 1. */
  lemma MirroredRow(row: real, t: real, g: real)
    requires g > 0.0 && 0.0 < t < 1.0
    ensures (g - 1.0 - row) / g < 1.0 - (row + t) / g < (g - 1.0 - row + 1.0) / g
  {
    var mirrored := g - 1.0 - row;
    assert 1.0 - (row + t) / g == (mirrored + (1.0 - t)) / g by {
      assert (g - 1.0 - row + 1.0 - t) / g == g / g - (row + t) / g;
    }
    InCell(mirrored, 1.0 - t, g);
  }

  /** Counterexample to "caption and image of a cell come from the same slot": with the
      gallery's 8 items (a 3 × 3 atlas), cell (0, 0) shows the image of slot row 0 but
      samples its caption from slot row 2. */
  lemma CaptionSlotMismatch()
    ensures var g := AtlasSize(8); var c := Vec2(0.5, 0.09);
            var iv := 1.0 - ImageAtlasUV(AtlasPos(0.0, g), Vec2(0.5, 0.5), g).y;
            var tv := 1.0 - TextAtlasUV(AtlasPos(0.0, g), TextCoord(c), g).y;
            InTextArea(c) && iv < 1.0 / 3.0 && tv > 2.0 / 3.0
  {
    assert CeilSqrt(8) == 3 by {
      assert 8 <= 3 * 3 && 2 * 2 < 8;
      CeilSqrtIsLeast(8, 3);
      if CeilSqrt(8) < 3 { SquareMonotone(CeilSqrt(8), 2); }
    }
    AtlasPosIsSlot(0, 8);
  }

  /** With the correction, a caption pixel samples inside the same slot rectangle as the
      image pixels of its cell. */
  lemma TextAtlasUVCorrectedInSlot(i: nat, n: nat, c: Vec2)
    requires i < n && InTextArea(c)
    ensures var g := AtlasSize(n); var uv := TextAtlasUVCorrected(AtlasPos(i as real, g), c, g);
            SlotColumn(i, CeilSqrt(n)) as real / g < uv.x < (SlotColumn(i, CeilSqrt(n)) as real + 1.0) / g
            && SlotRow(i, CeilSqrt(n)) as real / g < 1.0 - uv.y < (SlotRow(i, CeilSqrt(n)) as real + 1.0) / g
  {
    AtlasPosIsSlot(i, n);
    UnitInterval(c.x, 0.05, 0.9);
    UnitInterval(c.y, TEXT_Y, TEXT_HEIGHT);
    var g := AtlasSize(n);
    InCell(SlotColumn(i, CeilSqrt(n)) as real, (c.x - 0.05) / 0.9, g);
    InCell(SlotRow(i, CeilSqrt(n)) as real, (c.y - TEXT_Y) / TEXT_HEIGHT, g);
  }

  // ---- image source ---------------------------------------------------------------

  datatype ImageSource = ActiveVideo(uv: Vec2) | ImageAtlas(uv: Vec2)

  /** shaders.ts:88-97: the single video texture is sampled only in the cell whose id the
      controller published, and only while the video-active flag is set; every other
      image pixel samples the atlas slot of its cell's catalog item. */
  function ImageSourceFor(cell: CellId, iu: Vec2, u: Uniforms): (src: ImageSource)
    requires WellFormed(u)
    ensures src.ActiveVideo? <==> u.isVideoActive && cell == u.hoveredCellId
    ensures src.ActiveVideo? ==> src.uv == iu
    ensures src.ImageAtlas? && InUnitSquare(iu) ==>
              var i := CatalogIndex(cell, u.textureCount); var g := AtlasSize(u.textureCount);
              SlotColumn(i, CeilSqrt(u.textureCount)) as real / g < src.uv.x
                < (SlotColumn(i, CeilSqrt(u.textureCount)) as real + 1.0) / g
              && SlotRow(i, CeilSqrt(u.textureCount)) as real / g < 1.0 - src.uv.y
                < (SlotRow(i, CeilSqrt(u.textureCount)) as real + 1.0) / g
  {
    var isHoveredCell := u.isVideoActive && cell.x as real == u.hoveredCellId.x as real
                         && cell.y as real == u.hoveredCellId.y as real;
    if isHoveredCell then
      ActiveVideo(iu)
    else
      var n := u.textureCount;
      var texIndex := TexIndex(Vec2(cell.x as real, cell.y as real), n as real);
      var g := AtlasSize(n);
      TexIndexMatchesCatalogIndex(cell, n);
      SlotInGrid(0, n);
      var uv := ImageAtlasUV(AtlasPos(texIndex, g), iu, g);
      if InUnitSquare(iu) then
        ImageAtlasUVInSlot(CatalogIndex(cell, n), n, iu);
        ImageAtlas(uv)
      else
        ImageAtlas(uv)
  }

  // ---- vignette -------------------------------------------------------------------

  /** `fade = 1 - smoothstep(1.2, 1.8, radius)` for the pixel's screen radius. */
  function Fade(radius: real): (f: real)
    ensures 0.0 <= f <= 1.0
    ensures radius <= 1.2 ==> f == 1.0
    ensures radius >= 1.8 ==> f == 0.0
  {
    var t := (radius - 1.2) / (1.8 - 1.2);
    assert radius <= 1.2 ==> t <= 0.0;
    assert radius >= 1.8 ==> t >= 1.0;
    1.0 - Smoothstep(1.2, 1.8, radius)
  }

  /** The vignette darkens monotonically towards the rim. */
  lemma FadeNonIncreasing(r1: real, r2: real)
    requires r1 <= r2
    ensures Fade(r1) >= Fade(r2)
  {
    SmoothstepMonotone(1.2, 1.8, r1, r2);
  }

  /** Pixels inside the circle of screen radius 1.2 are not faded. */
  lemma FadeInsideCircle(vUv: Vec2, radius: real)
    requires IsLength(radius, ScreenUV(vUv))
    requires ScreenUV(vUv).x * ScreenUV(vUv).x + ScreenUV(vUv).y * ScreenUV(vUv).y <= 1.44
    ensures Fade(radius) == 1.0
  {
    if radius > 1.2 {
      ScaleLe(1.2, radius, radius);
      ScaleLe(1.2, radius, 1.2);
    }
  }
}
