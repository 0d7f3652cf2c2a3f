/** `createTextureAtlas` (utils/gallery-helpers.ts:25-48, repeated in
    components/Gallery.tsx:236-259 and framer/GalleryComponent.tsx:426-449): n textures
    packed row by row into a square canvas of ceil(sqrt(n)) × ceil(sqrt(n)) slots on a black background. */
module AtlasBuilder {
  import opened GalleryTypes
  import opened CellAddressing
  import opened CanvasModel

  /** A texture as the atlas builder sees it: its `image`, absent until loaded. */
  datatype Texture = Texture(image: Option<ImageId>)

  /** The slot edge: 256 pixels for caption textures, 512 for images. */
  function TextureSize(isText: bool): nat { if isText then 256 else 512 }

  /** The canvas edge `atlasGridSize · textureSize`. */
  function AtlasSide(n: nat, isText: bool): nat { CeilSqrt(n) * TextureSize(isText) }

  /** The background fill of the whole canvas. */
  function Background(side: nat): PaintOp { PaintOp.FillRect(0, 0, side, side, "black") }

  /** The draw of texture `i` into its slot, if it has an image. */
  function SlotDraw(t: Texture, i: nat, size: nat, g: nat): seq<PaintOp>
    requires g > 0
  {
    if t.image.Some? then [PaintOp.DrawImage(t.image.value, SlotColumn(i, g) * size, SlotRow(i, g) * size, size, size)]
    else []
  }

  /** The draws of the first k textures, in index order. */
  function Draws(textures: seq<Texture>, k: nat, size: nat, g: nat): seq<PaintOp>
    requires k <= |textures| && g > 0
    decreases k
  {
    if k == 0 then [] else Draws(textures, k - 1, size, g) + SlotDraw(textures[k - 1], k - 1, size, g)
  }

  /** Everything the builder paints when a 2D context is available. */
  function AtlasOps(textures: seq<Texture>, isText: bool): seq<PaintOp>
  {
    var g := CeilSqrt(|textures|);
    var size := TextureSize(isText);
    if g == 0 then [Background(0)] else [Background(g * size)] + Draws(textures, |textures|, size, g)
  }

  /** The slot a pixel of the atlas lies in, counted row by row. */
  function SlotAt(px: nat, py: nat, size: nat, g: nat): nat
    requires size > 0
  {
    (py / size) * g + px / size
  }

  /** What the finished atlas holds at a pixel: the matching point of the texture whose
      slot contains it drawn over the black background, or the bare background for a slot
      past the last texture or a texture without an image. */
  function AtlasPixel(textures: seq<Texture>, s: nat, px: nat, py: nat, size: nat): Pixel
    requires size > 0
  {
    if s < |textures| && textures[s].image.Some? then Over(textures[s].image.value, px % size, py % size, Solid("black"))
    else Solid("black")
  }

  /** A coordinate lies in block k of width `size` exactly when its quotient is k. */
  lemma InBlock(v: int, k: int, size: int)
    requires size > 0
    ensures k * size <= v < k * size + size <==> v / size == k
  {
    if k * size <= v < k * size + size {
      DivModUnique(v, size, k, v - k * size);
    }
    if v / size == k {
      assert v == (v / size) * size + v % size;
    }
  }

  /** The offset of a coordinate inside its block is its remainder. */
  lemma OffsetInBlock(v: int, size: int)
    requires size > 0
    ensures v - (v / size) * size == v % size
  {
  }

  /** Whether a pixel lies in the slot rectangle of texture i. */
  predicate InSlot(i: nat, px: int, py: int, size: nat, g: nat)
    requires g > 0
  {
    var x, y := SlotColumn(i, g) * size, SlotRow(i, g) * size;
    x <= px < x + size && y <= py < y + size
  }

  /** A pixel of the canvas is covered by the slot rectangle of index i exactly when i is
      the slot the pixel lies in. */
  lemma SlotRectangle(i: nat, px: nat, py: nat, size: nat, g: nat)
    requires size > 0 && g > 0 && px < g * size
    ensures InSlot(i, px, py, size, g) <==> i == SlotAt(px, py, size, g)
  {
    var col, row := SlotColumn(i, g), SlotRow(i, g);
    InBlock(px, col, size);
    InBlock(py, row, size);
    InBlock(px, g, size);
    QuotientBelow(px, size, g);
    DivModUnique(i, g, row, col);
    if i == SlotAt(px, py, size, g) {
      DivModUnique(i, g, py / size, px / size);
    }
  }

  /** Appending the draw of texture i composites its image over exactly the pixels of
      slot i, and only when the texture has an image. */
  lemma SlotDrawPixel(before: seq<PaintOp>, t: Texture, i: nat, size: nat, g: nat, px: nat, py: nat)
    requires size > 0 && g > 0 && px < g * size
    ensures PixelAt(before + SlotDraw(t, i, size, g), px, py)
            == if i == SlotAt(px, py, size, g) && t.image.Some? then Over(t.image.value, px % size, py % size, PixelAt(before, px, py))
               else PixelAt(before, px, py)
  {
    SlotRectangle(i, px, py, size, g);
    var d := SlotDraw(t, i, size, g);
    if t.image.Some? {
      PixelAtAppend(before, d[0], px, py);
      if i == SlotAt(px, py, size, g) {
        InBlock(px, SlotColumn(i, g), size);
        InBlock(py, SlotRow(i, g), size);
        OffsetInBlock(px, size);
        OffsetInBlock(py, size);
      }
    } else {
      assert before + d == before;
    }
  }

  /** The first k draws leave each canvas pixel holding the point of the texture of its
      slot over black if that texture is among the first k and has an image, and black
      otherwise. */
  lemma {:induction false} DrawsPixel(textures: seq<Texture>, k: nat, size: nat, g: nat, px: nat, py: nat)
    requires k <= |textures| && size > 0 && g > 0
    requires px < g * size && py < g * size
    ensures var s := SlotAt(px, py, size, g);
            PixelAt([Background(g * size)] + Draws(textures, k, size, g), px, py)
            == if s < k then AtlasPixel(textures, s, px, py, size) else Solid("black")
    decreases k
  {
    if k == 0 {
      PixelAtAppend([], Background(g * size), px, py);
      assert [] + [Background(g * size)] == [Background(g * size)] + Draws(textures, 0, size, g);
    } else {
      DrawsPixel(textures, k - 1, size, g, px, py);
      var before := [Background(g * size)] + Draws(textures, k - 1, size, g);
      assert [Background(g * size)] + Draws(textures, k, size, g)
             == before + SlotDraw(textures[k - 1], k - 1, size, g);
      SlotDrawPixel(before, textures[k - 1], k - 1, size, g, px, py);
    }
  }

  /** Every pixel of the finished atlas holds what AtlasPixel says: slots never overlap,
      textures land in their own slot, and the rest stays black. */
  lemma AtlasContents(textures: seq<Texture>, isText: bool, px: nat, py: nat)
    requires px < AtlasSide(|textures|, isText) && py < AtlasSide(|textures|, isText)
    ensures CeilSqrt(|textures|) > 0
    ensures PixelAt(AtlasOps(textures, isText), px, py)
            == AtlasPixel(textures, SlotAt(px, py, TextureSize(isText), CeilSqrt(|textures|)), px, py, TextureSize(isText))
  {
    var g, size := CeilSqrt(|textures|), TextureSize(isText);
    DrawsPixel(textures, |textures|, size, g, px, py);
  }

  /** The colour of an atlas pixel once the images are looked up: the texture's point where
      it is not transparent, black everywhere else. */
  lemma AtlasColour(textures: seq<Texture>, isText: bool, px: nat, py: nat, texel: (ImageId, int, int) -> Pixel)
    requires px < AtlasSide(|textures|, isText) && py < AtlasSide(|textures|, isText)
    ensures var g, size := CeilSqrt(|textures|), TextureSize(isText);
            var s := SlotAt(px, py, size, g);
            var colour := Resolve(PixelAt(AtlasOps(textures, isText), px, py), texel);
            if s < |textures| && textures[s].image.Some? && texel(textures[s].image.value, px % size, py % size) != Transparent
            then colour == texel(textures[s].image.value, px % size, py % size)
            else colour == Solid("black")
  {
    AtlasContents(textures, isText, px, py);
  }

  /** The slot of texture i lies inside the canvas. */
  lemma SlotInsideCanvas(n: nat, i: nat, isText: bool)
    requires i < n
    ensures var g, size := CeilSqrt(n), TextureSize(isText);
            SlotColumn(i, g) * size + size <= AtlasSide(n, isText)
            && SlotRow(i, g) * size + size <= AtlasSide(n, isText)
  {
    var g, size := CeilSqrt(n), TextureSize(isText);
    SlotInGrid(i, n);
    MulMonotone(size, SlotColumn(i, g) + 1, g);
    MulMonotone(size, SlotRow(i, g) + 1, g);
  }

  /** Distinct textures get disjoint slots. */
  lemma SlotsDisjoint(n: nat, i: nat, j: nat, isText: bool, px: int, py: int)
    requires i < n && j < n && i != j
    ensures var g, size := CeilSqrt(n), TextureSize(isText);
            !(InSlot(i, px, py, size, g) && InSlot(j, px, py, size, g))
  {
    var g, size := CeilSqrt(n), TextureSize(isText);
    SlotInGrid(i, n);
    if InSlot(i, px, py, size, g) {
      SlotInsideCanvas(n, i, isText);
      SlotRectangle(i, px, py, size, g);
      SlotRectangle(j, px, py, size, g);
    }
  }

  /** `createTextureAtlas(textures, isText)`; `contextAvailable` is whether `getContext`
      returned a context (without one the canvas stays blank). */
  method CreateTextureAtlas(textures: seq<Texture>, isText: bool, contextAvailable: bool) returns (c: Canvas)
    ensures fresh(c)
    ensures c.width == AtlasSide(|textures|, isText) && c.height == c.width
    ensures c.ops == if contextAvailable then AtlasOps(textures, isText) else []
  {
    var g := CeilSqrt(|textures|);
    var size := TextureSize(isText);
    c := new Canvas(g * size, g * size);
    if !contextAvailable {
      return;
    }
    c.SetFillStyle("black");
    c.FillRect(0, 0, c.width, c.height);
    if g == 0 {
      return;
    }
    var i := 0;
    while i < |textures|
      invariant 0 <= i <= |textures|
      invariant c.width == g * size && c.height == g * size
      invariant c.ops == [Background(g * size)] + Draws(textures, i, size, g)
    {
      var x := (i % g) * size;
      // `Math.floor(index / atlasGridSize)` on a non-negative index
      RealFloorOfQuotient(i, g);
      var y := ((i as real) / (g as real)).Floor * size;
      if textures[i].image.Some? {
        c.DrawImage(textures[i].image.value, x, y, size, size);
      }
      i := i + 1;
    }
  }
}
