# 3D-Grid gallery: a verified model of the interaction and addressing engine

The gallery shows an unbounded plane of square cells. It exists twice: as a React component (components/Gallery.tsx) and as its embeddable Framer twin (framer/GalleryComponent.tsx). A fragment shader (src/gl/shaders.ts) paints the cells.

Each cell `(x, y)` shows catalog item `(x + 3y) mod N`. Its image and caption come from two square texture atlases built on a canvas (utils/gallery-helpers.ts).

Dragging or wheeling pans the view. A click zooms into a cell, and the next click zooms back out. Hovering a cell swaps a single shared video element to that cell's clip. A request counter lets only the latest hover publish "video active" to the shader.

The model is written in Dafny and is split into modules that follow the program's structure:

| file | module | what it models |
|---|---|---|
| types.dfy | `GalleryTypes` | vectors, cell ids, catalog items, the two component variants |
| addressing.dfy | `CellAddressing` | JavaScript `%`, `positiveModulo`, the catalog index of a cell, `ceil(sqrt(n))`, atlas slots |
| transform.dfy | `ViewTransform` | `screenToWorld`, the hit test, drag and wheel panning |
| shader.dfy | `GridShader` | the shader's addressing as real functions: world coordinate, `cellUV`, `texIndex`, `atlasPos`, hover glow, image and caption areas, atlas coordinates, video selection, vignette |
| video.dfy | `VideoHotSwap` | `setVideoState` as a class over the request counter, the two uniforms and the video element |
| interaction.dfy | `Interaction` | the closure state and event handlers as the class `GalleryEngine`, with `animate` as `Tick` |
| canvas.dfy | `CanvasModel` | a 2D canvas that records its paint operations, and what each pixel holds: clears and fills replace it, `drawImage` composites over it |
| atlas.dfy | `AtlasBuilder` | `createTextureAtlas` as a loop over the textures |
| caption.dfy | `Caption` | `createTextTexture`, with the upper-cased title and the decimal year |

Both components are one engine, with a `variant` flag (`Standalone` or `Framer`) for their three differences:
- wheel panning;
- eased pointer position;
- `play()` awaited only while paused.

The video element follows the HTML media element rules the protocol relies on:
- `load()` and `pause()` reject pending play promises with AbortError;
- `play()` unpauses the element and adds a pending promise;
- when playback starts, the pending promises are taken and resolved, oldest first, in a later task; the model makes taking and resolving them one step with the continuations that run;
- when the media fails, all pending promises are rejected.

The environment decides when playback starts or fails, by calling `PlaybackStarts` or `MediaFails`.

The source fixes these constants, and the model uses the same values:
- lens strength 0.08;
- move threshold 5 px;
- cell size 0.75;
- zoomed level 0.3;
- easing factor 0.1;
- wheel speed 0.001, with line mode ×18 and page mode × the container size;
- image size 0.6 and hover growth 0.05;
- caption band starting at 0.05 and 0.08 tall;
- glow radius 1.5 cells;
- fade between radii 1.2 and 1.8;
- slot size 256 for captions and 512 for images;
- caption canvas 2048 × 256, with margin 30 and midline 128.

## Model

| member | source | states |
|---|---|---|
| CellAddressing.JsRemainder | components/Gallery.tsx:41 | JavaScript `n % m` for m > 0: in (-m, m), carries the sign of n, and differs from n by a multiple of m |
| CellAddressing.PositiveModulo | components/Gallery.tsx:41 | `((n % m) + m) % m` always lands in [0, m) and equals the mathematical modulus of n |
| CellAddressing.CatalogIndex | components/Gallery.tsx:122-126 | the item index of any signed cell is in [0, N) and equals (x + 3y) mod N |
| CellAddressing.CatalogIndexLeftOfOrigin | components/Gallery.tsx:124 | cell (-1, 0) shows the last item, N - 1 |
| CellAddressing.CatalogIndexPeriodic | components/Gallery.tsx:124 | the tiling repeats every N cells along each axis, and one row up three cells to the left |
| CellAddressing.CatalogIndexOnto | framer/GalleryComponent.tsx:320 | every item of the catalog is shown on row 0, at column i |
| CellAddressing.CeilSqrt | utils/gallery-helpers.ts:26 | `Math.ceil(Math.sqrt(n))`: g·g ≥ n and (g-1)² < n |
| CellAddressing.CeilSqrtIsLeast | utils/gallery-helpers.ts:26 | no grid side smaller than CeilSqrt(n) holds n slots |
| CellAddressing.RealFloorOfQuotient | utils/gallery-helpers.ts:38 | `Math.floor(index / g)` on whole numbers is the integer quotient |
| CellAddressing.SlotInGrid | utils/gallery-helpers.ts:37-38 | every index below n has column i mod g and row i div g inside the g × g grid, and row·g + column == i |
| ViewTransform.Ndc | components/Gallery.tsx:102-106 | the screen edges map to ±1, y is flipped (top edge 1, bottom edge -1), and the screen maps into [-1, 1]² |
| ViewTransform.ScreenToWorld | components/Gallery.tsx:100-114 | `screenToWorld`: device coordinates, the lens factor 1 - 0.08·strength·r², the aspect ratio on x, the zoom and the offset, in the source's order; what it guarantees is stated by CentreSeesOffset, UndistortedIsSimilarity, LensIsRadial and PixelWorldMatchesHitTest |
| ViewTransform.CentreSeesOffset | components/Gallery.tsx:100-114 | the viewport centre maps to exactly the pan offset, for every zoom and lens strength |
| ViewTransform.UndistortedIsSimilarity | components/Gallery.tsx:100-114 | with strength 0 the transform is affine: a screen step d moves the world point by d·2zoom/h on x and -d·2zoom/h on y |
| ViewTransform.LensIsRadial | components/Gallery.tsx:108-110 | the lens scales the undistorted view vector by 1 - 0.08·strength·r² and keeps its direction |
| ViewTransform.CellOf | components/Gallery.tsx:283-286 | the hit cell is the one whose square [c·s, (c+1)·s) holds the world point on both axes |
| ViewTransform.CellOfUnique | components/Gallery.tsx:187-190 | the square holding a point belongs to exactly one cell |
| ViewTransform.CellCenterRoundTrip | components/Gallery.tsx:192 | the cell centre `(id + 0.5)·cellSize` lies in cell id |
| ViewTransform.DragPan | components/Gallery.tsx:296-303 | the drag pan `(-dx·(2/h)·zoom·(w/h), dy·(2/h)·zoom)`; its properties are DragPanAdditive and DragAnchoring |
| ViewTransform.DragPanAdditive | components/Gallery.tsx:296-303 | a drag pans by the same amount however it is split into moves |
| ViewTransform.DragAnchoring | components/Gallery.tsx:299-303 | with no lens, a vertical drag keeps the grabbed world point under the pointer; a horizontal one does so iff dx = 0, zoom = 0 or the viewport is square |
| ViewTransform.WheelPixels | framer/GalleryComponent.tsx:535-543 | line mode scales the delta by 18, page mode by the container size, and other modes leave it unchanged |
| ViewTransform.WheelPan | framer/GalleryComponent.tsx:532-546 | the wheel pan `(-dx·0.001·zoom·(w/h), dy·0.001·zoom)` of the normalised pixel delta; WheelIsScaledDrag relates it to the drag pan |
| ViewTransform.WheelIsScaledDrag | framer/GalleryComponent.tsx:532-546 | a wheel step pans exactly like a drag of its pixel delta scaled by h/2000 |
| GridShader.Clamp | src/gl/shaders.ts:55 | GLSL `clamp`: the result lies in [lo, hi] and is x when x already does |
| GridShader.Smoothstep | src/gl/shaders.ts:55 | clamp-polynomial `smoothstep`: in [0, 1]; 0 at or before the first edge, 1 at or past the second, strictly between in between |
| GridShader.HermiteBounds | src/gl/shaders.ts:55 | 3t² - 2t³ maps [0, 1] onto [0, 1], fixes 0 and 1, and maps (0, 1) into (0, 1) |
| GridShader.HermiteMonotone | src/gl/shaders.ts:55 | 3t² - 2t³ is non-decreasing on [0, 1] |
| GridShader.SmoothstepMonotone | src/gl/shaders.ts:55 | smoothstep rises with x for ordered edges and falls for reversed edges, as `smoothstep(hoverRadius, 0, d)` uses them |
| GridShader.PixelWorld | src/gl/shaders.ts:29-36 | the per-pixel world coordinate: `screenUV`, the lens, the aspect ratio, the zoom and the offset; PixelWorldMatchesHitTest ties it to `screenToWorld` |
| GridShader.MouseWorld | src/gl/shaders.ts:42-49 | the pointer's world coordinate with the y flip; MouseWorldMatchesHitTest ties it to `screenToWorld` |
| GridShader.PixelWorldMatchesHitTest | src/gl/shaders.ts:29-36 | the world coordinate the shader gives a pixel equals `screenToWorld` of the screen point that pixel covers |
| GridShader.MouseWorldMatchesHitTest | src/gl/shaders.ts:42-49 | the shader's pointer world coordinate equals `screenToWorld` of `uMousePos` |
| GridShader.CellUV | src/gl/shaders.ts:38-40 | `fract(world / cellSize)` lies in [0, 1)² and, with the cell id, rebuilds the world coordinate exactly |
| GridShader.HoverIntensity | src/gl/shaders.ts:52-55 | the glow lies in [0, 1], is 1 at distance 0, and is positive exactly when the pointer is closer than 1.5 cells |
| GridShader.HoverByWorldDistance | src/gl/shaders.ts:51-55 | with `distToMouse` the length from the pointer's world point to the centre `(cellId + 0.5)·cellSize`, the cell glows iff that vector's squared length is below (1.5·cellSize)² |
| GridShader.PointerCellGlows | src/gl/shaders.ts:38-55 | the cell under the pointer always glows: its centre is at most half a cell away on each axis |
| GridShader.HoverSmoothstep | src/gl/shaders.ts:55 | the unsquared falloff is positive exactly inside the glow radius |
| GridShader.HoverIntensityMonotone | src/gl/shaders.ts:52-55 | the glow never grows as the distance to the pointer grows |
| GridShader.HoverTintRule | src/gl/shaders.ts:57 | the tint applies iff the pointer is within 1.5 cells and `uMousePos.x > 0`, so the (-1, -1) sentinel disables it |
| GridShader.ImageUV | src/gl/shaders.ts:69-72 | `imageUV = (cellUV - border) / imageSize` with the image 0.6·(1 + 0.05·h) wide; its area is stated by ImageArea, ImageAreaAtRest and HoverEnlargesImage |
| GridShader.ImageArea | src/gl/shaders.ts:69-77 | the border is 0.2 - 0.015·h, and `imageUV` is inside (0, 1)² iff `cellUV` is inside that border on both axes |
| GridShader.ImageAreaAtRest | src/gl/shaders.ts:69-77 | with no hover the image covers exactly (0.2, 0.8)² of the cell |
| GridShader.HoverEnlargesImage | src/gl/shaders.ts:69-72 | a stronger glow only ever enlarges the image area |
| GridShader.ImageAlphaPositiveInArea | src/gl/shaders.ts:73-86 | inside the image area the edge mask is positive, so the `imageAlpha > 0` test adds nothing to `inImageArea` |
| GridShader.TextCoordSpansBand | src/gl/shaders.ts:102-104 | the caption band (x in (0.05, 0.95), y in (0.05, 0.13), line 81) is exactly where the flipped caption coordinate lies in (0, 1)² |
| GridShader.CaptionBelowImage | src/gl/shaders.ts:69-81 | the caption band and the image area never overlap, at any glow |
| GridShader.TexIndex | src/gl/shaders.ts:83 | GLSL `mod(floor(x) + floor(y)·3, count)`; TexIndexMatchesCatalogIndex and TexIndexRange state its meaning |
| GridShader.TexIndexMatchesCatalogIndex | src/gl/shaders.ts:83 | GLSL `mod(floor x + 3·floor y, count)` gives the same item as the components' `positiveModulo` index |
| GridShader.TexIndexRange | src/gl/shaders.ts:83 | `texIndex` is a whole number in [0, count) |
| GridShader.AtlasPos | src/gl/shaders.ts:93-94 | `(mod(i, g), floor(i / g))`; AtlasPosIsSlot states that this is the builder's slot |
| GridShader.AtlasPosIsSlot | src/gl/shaders.ts:93-94 | `atlasPos` of index i is (i mod g, i div g), the slot the atlas builder draws it in, with both coordinates in [0, g) |
| GridShader.ImageAtlasUV | src/gl/shaders.ts:93-96 | the image atlas coordinate, flipped in v after the slot offset; ImageAtlasUVInSlot and ImageAtlasUVInAtlas state where it samples |
| GridShader.TextAtlasUV | src/gl/shaders.ts:102-107 | the caption atlas coordinate as written, flipped in v before the slot offset; TextAtlasUVMirrorsRow and CaptionSlotMismatch state where it samples |
| GridShader.TextAtlasUVCorrected | src/gl/shaders.ts:102-107 | the caption atlas coordinate with the flip after the offset, as the image path does it; TextAtlasUVCorrectedInSlot states where it samples |
| GridShader.ImageAtlasUVInSlot | src/gl/shaders.ts:93-96 | an image pixel of index i samples strictly inside slot i of the y-flipped atlas |
| GridShader.ImageAtlasUVInAtlas | src/gl/shaders.ts:93-96 | the image atlas coordinate stays in [0, 1]² for every pixel of the image area |
| GridShader.TextAtlasUVMirrorsRow | src/gl/shaders.ts:102-107 | as written, a caption pixel of index i samples row g - 1 - (i div g), which the image path reads for another slot |
| GridShader.CaptionSlotMismatch | src/gl/shaders.ts:93-107 | for 8 items and cell (0, 0), the image is sampled at v < 1/3 and the caption at v > 2/3: they come from different slots |
| GridShader.TextAtlasUVCorrectedInSlot | src/gl/shaders.ts:102-107 | with the caption v-flip applied after the slot offset, a caption pixel samples inside the same slot as the image of its cell |
| GridShader.ImageSourceFor | src/gl/shaders.ts:86-98 | the video texture is chosen iff `uIsVideoActive` holds and the cell is `uHoveredCellId`; otherwise the atlas coordinate lies in the slot of the cell's catalog item |
| GridShader.Fade | src/gl/shaders.ts:117 | the vignette is 1 up to radius 1.2, 0 from radius 1.8 on, and in [0, 1] |
| GridShader.FadeNonIncreasing | src/gl/shaders.ts:117 | the vignette never brightens towards the rim |
| GridShader.FadeInsideCircle | src/gl/shaders.ts:117 | pixels with screen radius at most 1.2 are not faded |
| VideoHotSwap.VideoFor | components/Gallery.tsx:122-132 | the video URL a hover request wants: none for no cell, otherwise the catalog item's URL when it is non-empty; VideoForCell and VideoForPeriodic state its meaning |
| VideoHotSwap.VideoForCell | components/Gallery.tsx:122-132 | a cell takes the video path iff its catalog item has a non-empty video URL, and then it plays that URL; a null cell never does |
| VideoHotSwap.VideoForPeriodic | components/Gallery.tsx:124 | cells that address the same item want the same video |
| VideoHotSwap.VideoController.constructor | components/Gallery.tsx:39 | counter 0, flag off, hovered id (-999, -999), element paused with no source, and the protocol invariant from the start |
| VideoHotSwap.VideoController.Pause | components/Gallery.tsx:135-136 | `video.pause()` of a playing element: paused, pending plays dropped, nothing else changes |
| VideoHotSwap.VideoController.Load | components/Gallery.tsx:148-151 | `video.src = s; video.load()`: the source is s, the error is cleared, the element is paused and pending plays are dropped; no other element state changes |
| VideoHotSwap.VideoController.Play | components/Gallery.tsx:155 | `video.play()` by a request: the element is playing and the request's token is the newest pending play |
| VideoHotSwap.VideoController.Request | components/Gallery.tsx:116-155 | each call adds 1 to the counter. With no video it clears the flag and pauses. Otherwise it reloads a new or failed source, publishes the cell, and plays. It keeps the invariant that the flag is only on for the latest request's cell and video. In the Framer component (framer/GalleryComponent.tsx:337-355): an element that is already playing with the same source is not played again; the request turns the flag on synchronously |
| VideoHotSwap.VideoController.PlaybackStarts | components/Gallery.tsx:155-163 | corrected resumption: the flag turns on iff the latest request was pending, stale requests change nothing, and the invariant is kept |
| VideoHotSwap.VideoController.PlaybackStartsAsWritten | components/Gallery.tsx:155-163 | resumption as written: the flag turns on iff the latest request was pending, and the element ends paused iff some stale request was pending |
| VideoHotSwap.VideoController.MediaFails | components/Gallery.tsx:165-174 | a failed play clears the flag iff the latest request was pending; stale requests (and AbortError) change nothing |
| VideoHotSwap.LatestRequestWins | components/Gallery.tsx:116-163 | example (one scenario; the general rule is Request and PlaybackStarts): after three quick hovers, playback shows the last cell's video, and only for that cell |
| VideoHotSwap.LeaveSwitchesOff | components/Gallery.tsx:132-139 | a null request after a hover leaves the flag off and the element paused |
| VideoHotSwap.StalePauseFreezesVideo | components/Gallery.tsx:158-163 | as written, two hovers over cells of the same item end with the flag on and the element paused |
| VideoHotSwap.SameItemKeepsPlaying | components/Gallery.tsx:158-163 | with the corrected resumption the same hovers end with the flag on and the video playing |
| Interaction.Lerp | components/Gallery.tsx:364-367 | one frame shrinks the gap to the target to exactly 0.9 of itself |
| Interaction.LerpBetween | components/Gallery.tsx:364-367 | one frame never overshoots the target |
| Interaction.EaseGap | components/Gallery.tsx:364-367 | after k frames towards a fixed target the gap is exactly 0.9^k of the initial gap |
| Interaction.EaseApproaches | components/Gallery.tsx:364-367 | eased values stay between start and target, and never reach a target they did not start at |
| Interaction.CursorFor | framer/GalleryComponent.tsx:576-584 | 'zoom-out' iff zoomed, 'grabbing' iff not zoomed and dragging, 'grab' otherwise |
| Interaction.HitCell | components/Gallery.tsx:281-285 | the cell under a screen point: `floor(screenToWorld(p) / cellSize)` |
| Interaction.ZoomTarget | components/Gallery.tsx:185-192 | the zoom-in target: the centre `(id + 0.5)·cellSize` of the hit cell; ZoomTargetInClickedCell states that it lies in that cell |
| Interaction.ZoomTargetInClickedCell | components/Gallery.tsx:185-197 | the zoom-in target is the centre of the clicked cell, and it lies in that cell |
| Interaction.CentreClickExample | framer/GalleryComponent.tsx:375-390 | example (one input, no general claim): on a 1000 × 1000 surface in the initial view, a click at (500, 500) hits cell (0, 0) and targets (0.375, 0.375) |
| Interaction.GalleryEngine.constructor | components/Gallery.tsx:24-39 | the initial closure state: not dragging, not zoomed, offset 0, zoom 1, distortion 1, pointer (-1, -1), nothing hovered |
| Interaction.GalleryEngine.PointerDown | components/Gallery.tsx:261-268 | a press sets the click and drag flags and records the press point; nothing else changes |
| Interaction.GalleryEngine.PointerMove | components/Gallery.tsx:270-306 | publishes the pointer and clears the click flag once either axis moves more than 5 px. When not zoomed, a move into a new cell re-targets the video: for a cell with a video the element plays that source without error for that cell; for a cell without one the flag goes off, the element is paused and keeps its source, error and cell. While dragging and not zoomed, the pan target moves by `(-dx·2/h·zoom·w/h, dy·2/h·zoom)`. While zoomed, the pan target, the hovered cell and the counter stay unchanged. In the Framer component (framer/GalleryComponent.tsx:459-493): the move sets the pointer's easing target, not the pointer itself |
| Interaction.GalleryEngine.TrackPointer | components/Gallery.tsx:271-278 | the pointer is published (Framer: set as the easing target) and the click flag stays set only while neither axis has moved more than 5 px from the press |
| Interaction.GalleryEngine.DragTo | components/Gallery.tsx:294-305 | the pan target moves by the drag pan of the pointer's travel since the last step |
| Interaction.GalleryEngine.UpdateHover | components/Gallery.tsx:280-292 | when not zoomed, a different cell under the pointer becomes the hovered cell and issues one video request: for a cell with a video the element plays that source without error for that cell; for a cell without one the flag goes off, the element is paused and keeps its source, error and cell. Otherwise nothing changes |
| Interaction.GalleryEngine.TouchMove | components/Gallery.tsx:312-317 | a touch move without a touch down changes nothing; with one it does exactly what PointerMove does: publish the pointer, clear the click flag past the threshold, re-target the hover cell when not zoomed (the element then plays the new cell's video, or is paused with its source kept when the cell has none), and pan when not zoomed |
| Interaction.GalleryEngine.HandleClick | components/Gallery.tsx:178-202 | zoom-in saves the pan and zoom targets and targets the cell centre with zoom 0.3 and distortion 0; zoom-out restores the saved targets exactly with distortion 1; the targets and the zoom flag stay tied together |
| Interaction.GalleryEngine.PointerUp | components/Gallery.tsx:319-327 | the click handler runs iff the click flag is still set. Without a click the pan, zoom and distortion targets, the remembered view and the zoom flag are unchanged. A click in targets the cell centre with zoom 0.3 and distortion 0 and remembers the previous targets; a click out restores the remembered pan and zoom with distortion 1. Afterwards neither flag is set |
| Interaction.GalleryEngine.PointerLeave | components/Gallery.tsx:329-337 | leaving stops the drag, hides the pointer and clears the hovered cell; its null request leaves the flag off and the element paused, with its source, error and cell unchanged. In the Framer component (framer/GalleryComponent.tsx:515-520): the pointer's easing target becomes (-1, -1) |
| Interaction.GalleryEngine.Wheel | framer/GalleryComponent.tsx:527-547 | ignored while zoomed; otherwise the pan target moves by the normalised wheel pan |
| Interaction.GalleryEngine.Resize | components/Gallery.tsx:344-348 | the resolution follows the container; the view is untouched |
| Interaction.GalleryEngine.Tick | components/Gallery.tsx:361-389 | offset, zoom and distortion move 10% towards their targets, and the cursor follows the zoom and drag flags. In the Framer component (framer/GalleryComponent.tsx:567-596): the pointer also eases 10% towards its target |
| Interaction.Deliver | components/Gallery.tsx:261-348 | one event between two clicks (a pointer or touch move, a frame, a drag past the threshold, a Framer wheel turn, a resize) leaves a zoomed view zoomed, with its pan target, remembered view and hovered cell unchanged |
| Interaction.DeliverDrag | components/Gallery.tsx:261-327 | a press, moves that leave the 5 px threshold and a release, by mouse or touch, are not a click and end the drag. The zoom state stays as it was. A zoomed-in view keeps its pan target and hovered cell; an unzoomed view's pan target moves by the drag pan of the travel from the press to the last move |
| Interaction.DragMove | components/Gallery.tsx:270-317 | one move of a drag by mouse or touch: the zoom state stays; zoomed in, the pan target and hovered cell stay; unzoomed, the pan target moves by the drag pan of the step and the previous pointer becomes the move; the click flag survives only while the move stays within 5 px of the press |
| Interaction.ZoomRoundTrip | components/Gallery.tsx:178-202 | a click in, any sequence of moves, frames, drags past the threshold, wheel turns and resizes, then a click out restore the pan, zoom and distortion targets and the hovered cell exactly |
| CanvasModel.Canvas.constructor | utils/gallery-helpers.ts:5-7 | a fresh canvas has the requested size, no paint operations and the default drawing state |
| AtlasBuilder.CreateTextureAtlas | utils/gallery-helpers.ts:25-42 | the canvas is square with side CeilSqrt(n)·size. With a 2D context it is filled black and then each texture with an image is drawn at its slot, in index order. Without a context it stays blank |
| CanvasModel.PixelAtAppend | utils/gallery-helpers.ts:33-41 | a paint operation appended last paints over the pixels it covers, on top of what they held, and leaves the others alone |
| CanvasModel.DrawImageComposites | utils/gallery-helpers.ts:39-41 | `drawImage` is source-over: where the image is transparent the pixel beneath shows, elsewhere the image's point replaces it |
| AtlasBuilder.AtlasContents | utils/gallery-helpers.ts:33-41 | every atlas pixel holds the texture of its slot, offset within the slot, composited over black; or plain black when that slot is past the last texture or its texture has no image |
| AtlasBuilder.AtlasColour | utils/gallery-helpers.ts:33-41 | once images are looked up, an atlas pixel shows its texture's point where that point is not transparent, and black everywhere else |
| AtlasBuilder.DrawsPixel | utils/gallery-helpers.ts:36-42 | after the first k draws, a pixel holds its slot's texture over black if that slot is among the first k and has an image, and black otherwise |
| AtlasBuilder.SlotDrawPixel | utils/gallery-helpers.ts:39-41 | drawing texture i composites it over exactly the pixels of slot i, and only when the texture has an image |
| AtlasBuilder.SlotRectangle | utils/gallery-helpers.ts:37-40 | a canvas pixel lies in slot i's rectangle iff i = (py div size)·g + px div size |
| AtlasBuilder.SlotsDisjoint | utils/gallery-helpers.ts:37-38 | distinct textures get disjoint slots |
| AtlasBuilder.SlotInsideCanvas | utils/gallery-helpers.ts:26-38 | the slot of every texture lies wholly inside the canvas |
| Caption.Upper | utils/gallery-helpers.ts:16 | `toUpperCase` keeps the length and upper-cases character by character |
| Caption.UpperLeavesNoLowerCase | utils/gallery-helpers.ts:16 | no lower-case ASCII letter is left, and every other character is kept |
| Caption.UpperIdempotent | utils/gallery-helpers.ts:16 | upper-casing twice is upper-casing once |
| Caption.NatDigits | utils/gallery-helpers.ts:18 | a natural number prints as a non-empty string of digits without a leading zero |
| Caption.NatDigitsRoundTrip | utils/gallery-helpers.ts:18 | the printed digits read back as the number |
| Caption.Decimal | utils/gallery-helpers.ts:18 | `year.toString()`: a minus sign for negative years, then the digits; DecimalRoundTrip and DecimalInjective state its meaning |
| Caption.DecimalRoundTrip | utils/gallery-helpers.ts:18 | `year.toString()` reads back as the year, negative years included |
| Caption.DecimalInjective | utils/gallery-helpers.ts:18 | different years print differently |
| Caption.CaptionTexts | utils/gallery-helpers.ts:16-18 | a caption writes exactly two texts: the upper-cased title, then the decimal year |
| Caption.CaptionLayout | utils/gallery-helpers.ts:14-18 | example (the constants of one layout): the title is left-aligned at x 30 and the year right-aligned at 2048 - 30, so the margins are equal; both sit on the vertical middle, y 128 = 256/2 |
| Caption.CaptionTransparent | utils/gallery-helpers.ts:11 | the caption canvas carries no paint but its text: every pixel is transparent, text coverage being left out of the canvas model |
| Caption.TextAtlasBlack | utils/gallery-helpers.ts:11-48 | the caption atlas is black beneath its text: each caption canvas is transparent but for its text, so `drawImage` lets the black fill show through; with text coverage left out, every atlas pixel is black |
| Caption.CreateTextTexture | utils/gallery-helpers.ts:4-18 | a 2048 × 256 canvas that is cleared, with the title and year drawn in bold 80 px grey on the middle baseline; without a context it stays blank |

## Left out

- Numbers are exact reals, not IEEE doubles or GLSL floats. A floor taken exactly at a cell boundary may differ from the browser's result.
- `length()` and `Vector2.length()` need a square root, which is not available here. The transform only uses r², and where a length matters (hover distance, vignette radius) it is a parameter constrained by `IsLength`.
- three.js and WebGL are not modelled: scene, camera, renderer, `ShaderMaterial`, the draw call and the device pixel ratio are foreign library calls. The body `dragging` class, cursor style writes (only the choice of cursor is modelled), `preventDefault`, listener registration and removal, and `requestAnimationFrame` are DOM side effects; `Tick` is a method the environment calls.
- Image loading through `TextureLoader` and `Promise.all` is network I/O. It passes no error callback, so a failed load never settles. Each texture's `image` is instead a parameter that may be absent.
- Shader colour compositing (`mix`, tint, border colour, the anti-aliased grid lines) and texture sampling are left out. Only which texture and which coordinate are sampled is modelled.
- Canvas compositing is all-or-nothing per point: a point of a drawn image is either transparent, showing the pixel beneath, or covers it. Partial alpha and filtering when an image is scaled are not modelled, and fill styles are taken to be opaque (the only one used is black).
- `fillText` glyph coverage depends on the font, so text never decides a pixel in the canvas model. Its string, position, alignment, baseline, font and colour are recorded.
- The HTML video element is abstracted to src, paused, error and its pending play promises. Not modelled:
  - ready states and buffering;
  - NotAllowedError (autoplay refusal);
  - a play promise rejected immediately by an element that already has an error.

  Both rejection kinds that the protocol distinguishes (AbortError and any other) are modelled: AbortError through `Pause` and `Load`, and any other error through `MediaFails`.
- The early returns when `videoRef` or `plane` is missing, or when the mount node is missing, only happen before initialisation. The model starts from an initialised engine.
- VideoHotSwap.VideoController.PlaybackStartsAsWritten: taking the pending promises, resolving them and running the continuations are one step here. In HTML the promises are taken when playback starts and resolved in a later queued task, and a `load()` in that window resolves rather than rejects them. A stale continuation can then pause a newer request's playback of a different source as well; the model only shows the same-source case.
- VideoHotSwap.VideoController.Request: the source test `video.src !== videoUrl` is modelled as a comparison of raw strings. The element's `src` getter returns the resolved absolute URL, so the model agrees with the browser only for absolute catalog URLs; a relative URL would make the browser reload on every hover.
- GridShader.Smoothstep: GLSL leaves `smoothstep` undefined when edge0 ≥ edge1, and the hover falloff (src/gl/shaders.ts:55) uses reversed edges. The model takes the clamp-polynomial result that drivers compute for them.
- Interaction.ZoomRoundTrip: a pointer leave between the two clicks is not among the events, because it clears the hovered cell and switches the video off. The pan, zoom and distortion targets would still be restored.
- JavaScript `%` is modelled for positive divisors only; the only divisor is the catalog size.
- The container size is taken to equal `uResolution`, and both are positive. Resize requires a positive size; a zero-sized container makes the JavaScript divide by zero and produce NaN.
- Caption.Upper: only ASCII a–z are upper-cased. JavaScript `toUpperCase` also maps other scripts and can change the length of a string (for example ß becomes SS).
- Caption.Decimal: years are integers. `Number.prototype.toString` of a fractional or huge year (exponent notation) is not modelled.
- The texture `flipY` convention of three.js is not modelled. Finding 1 holds whatever it is, because both atlases are uploaded the same way.
- The request counter is unbounded. JavaScript numbers stop counting exactly after 2^53 requests.
- The catalog is a parameter with an optional video per item, not the 8 items in data/index.ts.
- App.tsx only mounts the component.
- The uniform copy in `animate` (uOffset, uZoom, uDistortionStrength) is left out: the engine's fields are those uniforms.

## Findings

| source | as written | input that shows it | evidently intended | confidence | as-written member | corrected member |
|---|---|---|---|---|---|---|
| src/gl/shaders.ts:102-107 (and framer/GalleryComponent.tsx:179-184) | the caption path flips `textCoord.y` before adding the slot offset, while the image path (lines 93-96) flips the whole atlas coordinate after it; the caption of index i is read from slot row g - 1 - (i div g) | 8 items (g = 3), cell (0, 0): its image is sampled at v < 1/3, its caption at v > 2/3, which is the slot of items 6 and 7 | each cell's caption is read from the same slot row as its image | high; not executed | GridShader.CaptionSlotMismatch | GridShader.TextAtlasUVCorrectedInSlot |
| components/Gallery.tsx:158-163 (and framer/GalleryComponent.tsx:351-355) | a request that resumes after a newer one pauses the shared element whenever it is playing, even when the newer request (already published as active) plays the same source; in the browser, where a play promise resolves in a task queued after playback starts, a `load()` for a different source in that window cannot reject it either, and its continuation pauses the newer source | cells (0, 0) then (8, 0) of the 8-item catalog, the second hover before the first play promise settles: the flag ends on and the video ends paused | a stale request leaves the element to the newer request | medium (depends on the HTML pending-play-promise rules); not executed | VideoHotSwap.StalePauseFreezesVideo | VideoHotSwap.SameItemKeepsPlaying |
