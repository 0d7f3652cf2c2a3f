/** The interaction state machine of the two gallery components: pointer and touch
    handlers, the click-to-zoom toggle, the Framer component's wheel panning, resizing and
    the per-frame easing (components/Gallery.tsx:22-39, 178-202, 261-389 and
    framer/GalleryComponent.tsx:217-235, 368-392, 451-596). The two components share one
    engine; `variant` selects the Framer component's differences. */
module Interaction {
  import opened GalleryTypes
  import opened CellAddressing
  import opened ViewTransform
  import opened VideoHotSwap

  /** `lerpFactor`: each frame closes a tenth of the gap to the target. */
  const LERP_FACTOR: real := 0.1
  /** The pixel distance a press may travel and still count as a click. */
  const MOVE_THRESHOLD: real := 5.0
  /** `uCellSize`. */
  const CELL_SIZE: real := 0.75
  /** The zoom level (world units per half screen height) of the zoomed-in view. */
  const ZOOMED_IN: real := 0.3
  /** The pointer position the shader reads as "no pointer". */
  const NO_POINTER: Vec2 := Vec2(-1.0, -1.0)

  function Abs(x: real): real { if x < 0.0 then -x else x }

  /** One easing step `a += (b - a) · 0.1`: the remaining gap shrinks by a factor 0.9. */
  function Lerp(a: real, b: real): (r: real)
    ensures b - r == 0.9 * (b - a)
  {
    a + (b - a) * LERP_FACTOR
  }

  /** One easing step stays between where the value was and its target. */
  lemma LerpBetween(a: real, b: real)
    ensures a <= b ==> a <= Lerp(a, b) <= b
    ensures b <= a ==> b <= Lerp(a, b) <= a
  {
  }

  /** `Vector2.lerp(v, 0.1)`, componentwise. */
  function LerpVec(a: Vec2, b: Vec2): Vec2 { Vec2(Lerp(a.x, b.x), Lerp(a.y, b.y)) }

  function Pow(b: real, k: nat): real { if k == 0 then 1.0 else b * Pow(b, k - 1) }

  /** The value after k frames of easing from a towards a fixed target b. */
  function Ease(a: real, b: real, k: nat): real
    decreases k
  {
    if k == 0 then a else Ease(Lerp(a, b), b, k - 1)
  }

  /** After k frames the gap to the target is exactly 0.9^k of the initial gap. */
  lemma {:induction false} EaseGap(a: real, b: real, k: nat)
    ensures b - Ease(a, b, k) == Pow(0.9, k) * (b - a)
    decreases k
  {
    if k > 0 {
      var a1 := Lerp(a, b);
      EaseGap(a1, b, k - 1);
      assert Ease(a, b, k) == Ease(a1, b, k - 1);
      assert Pow(0.9, k) == 0.9 * Pow(0.9, k - 1);
      GapStep(Pow(0.9, k - 1), b - a, b - a1, b - Ease(a1, b, k - 1));
    }
  }

  /** One frame shrinks the gap by 0.9, so k frames scale it by 0.9 once more than k - 1 do. */
  lemma GapStep(q: real, d: real, gap1: real, gapk: real)
    requires gap1 == 0.9 * d && gapk == q * gap1
    ensures gapk == (0.9 * q) * d
  {
  }

  lemma {:induction false} PowBounds(k: nat)
    ensures 0.0 < Pow(0.9, k) <= 1.0
  {
    if k > 0 {
      PowBounds(k - 1);
    }
  }

  /** Easing never overshoots and never arrives: after any number of frames the value is
      between its start and its target, strictly short of a target it did not start at. */
  lemma EaseApproaches(a: real, b: real, k: nat)
    ensures a <= b ==> a <= Ease(a, b, k) <= b
    ensures b <= a ==> b <= Ease(a, b, k) <= a
    ensures a != b ==> Ease(a, b, k) != b
  {
    EaseGap(a, b, k);
    PowBounds(k);
    var q := Pow(0.9, k);
    if a < b {
      assert 0.0 < q * (b - a) <= b - a;
    } else if b < a {
      assert 0.0 < q * (a - b) <= a - b;
      assert q * (b - a) == -(q * (a - b));
    }
  }

  datatype Cursor = Grab | Grabbing | ZoomOut

  /** The cursor `animate` sets each frame. */
  function CursorFor(isZoomed: bool, isDragging: bool): (c: Cursor)
    ensures c == ZoomOut <==> isZoomed
    ensures c == Grabbing <==> !isZoomed && isDragging
  {
    if isZoomed then ZoomOut else if isDragging then Grabbing else Grab
  }

  /** A press stops counting as a click once the pointer has moved more than 5 pixels
      from where it went down on either axis. */
  predicate ExceedsThreshold(p: Vec2, start: Vec2)
  {
    Abs(p.x - start.x) > MOVE_THRESHOLD || Abs(p.y - start.y) > MOVE_THRESHOLD
  }

  /** The cell under a screen point for the current view (the hit test). */
  function HitCell(p: Vec2, res: Vec2, offset: Vec2, zoom: real, strength: real): CellId
    requires ValidViewport(res)
  {
    CellOf(ScreenToWorld(p, res, offset, zoom, strength), CELL_SIZE)
  }

  /** Where a click zooms in: the centre of the clicked cell. */
  function ZoomTarget(p: Vec2, res: Vec2, offset: Vec2, zoom: real, strength: real): Vec2
    requires ValidViewport(res)
  {
    CellCenter(HitCell(p, res, offset, zoom, strength), CELL_SIZE)
  }

  /** The zoom target lies in the clicked cell, at its centre. */
  lemma ZoomTargetInClickedCell(p: Vec2, res: Vec2, offset: Vec2, zoom: real, strength: real)
    requires ValidViewport(res)
    ensures CellOf(ZoomTarget(p, res, offset, zoom, strength), CELL_SIZE) == HitCell(p, res, offset, zoom, strength)
  {
    CellCenterRoundTrip(HitCell(p, res, offset, zoom, strength), CELL_SIZE);
  }

  /** A click at the centre of a 1000 × 1000 surface in the initial view hits cell (0, 0)
      and zooms to (0.375, 0.375). */
  lemma CentreClickExample()
    ensures HitCell(Vec2(500.0, 500.0), Vec2(1000.0, 1000.0), Vec2(0.0, 0.0), 1.0, 1.0) == CellId(0, 0)
    ensures ZoomTarget(Vec2(500.0, 500.0), Vec2(1000.0, 1000.0), Vec2(0.0, 0.0), 1.0, 1.0) == Vec2(0.375, 0.375)
  {
    CentreOfInitialView();
    OriginCell();
  }

  lemma CentreOfInitialView()
    ensures ScreenToWorld(Vec2(500.0, 500.0), Vec2(1000.0, 1000.0), Vec2(0.0, 0.0), 1.0, 1.0) == Vec2(0.0, 0.0)
  {
    CentreSeesOffset(Vec2(1000.0, 1000.0), Vec2(0.0, 0.0), 1.0, 1.0);
  }

  lemma OriginCell()
    ensures CellOf(Vec2(0.0, 0.0), CELL_SIZE) == CellId(0, 0)
    ensures CellCenter(CellId(0, 0), CELL_SIZE) == Vec2(0.375, 0.375)
  {
  }

  /** The state both components keep in their effect closure, with the video controller
      and the uniforms the handlers write. The container size is the viewport size. */
  class GalleryEngine {
    const variant: Variant
    const video: VideoController
    var width: real
    var height: real
    var isDragging: bool
    var isPotentialClick: bool
    var isZoomed: bool
    var previousMouse: Vec2
    var clickStart: Vec2
    var offset: Vec2
    var targetOffset: Vec2
    var lastOffset: Vec2
    var zoom: real
    var targetZoom: real
    var lastZoom: real
    var distortion: real
    var targetDistortion: real
    /** `uMousePos`: the raw pointer (Standalone) or the eased pointer (Framer). */
    var mousePos: Vec2
    /** The Framer component's easing target for the pointer. */
    var targetMousePos: Vec2
    /** `hoveredCellIdRef`: the cell of the last hover request. */
    var hoveredCell: Option<CellId>
    var cursor: Cursor

    function Resolution(): Vec2
      reads this
    {
      Vec2(width, height)
    }

    ghost predicate Valid()
      reads this, video
    {
      video.Valid() && video.variant == variant
      && width > 0.0 && height > 0.0
      // zooming out always restores the unzoomed level
      && lastZoom == 1.0
      && (isZoomed ==> targetZoom == ZOOMED_IN && targetDistortion == 0.0)
      && (!isZoomed ==> targetZoom == 1.0 && targetDistortion == 1.0)
      && ZOOMED_IN <= zoom <= 1.0 && 0.0 <= distortion <= 1.0
      // the hover cell is the cell of the controller's latest request
      && hoveredCell == video.latest
    }

    constructor(variant: Variant, catalog: seq<MediaItem>, width: real, height: real)
      requires |catalog| > 0 && width > 0.0 && height > 0.0
      ensures Valid() && fresh(video)
      ensures this.variant == variant && video.catalog == catalog && this.width == width && this.height == height
      ensures !isDragging && !isPotentialClick && !isZoomed
      ensures offset == Vec2(0.0, 0.0) && targetOffset == offset && lastOffset == offset
      ensures zoom == 1.0 && targetZoom == 1.0 && distortion == 1.0 && targetDistortion == 1.0
      ensures mousePos == NO_POINTER && targetMousePos == NO_POINTER && hoveredCell == None
      ensures !video.isVideoActive && video.hoveredCellId == NO_CELL
    {
      this.variant := variant;
      video := new VideoController(catalog, variant);
      this.width := width;
      this.height := height;
      isDragging := false;
      isPotentialClick := false;
      isZoomed := false;
      previousMouse := Vec2(0.0, 0.0);
      clickStart := Vec2(0.0, 0.0);
      offset := Vec2(0.0, 0.0);
      targetOffset := Vec2(0.0, 0.0);
      lastOffset := Vec2(0.0, 0.0);
      zoom := 1.0;
      targetZoom := 1.0;
      lastZoom := 1.0;
      distortion := 1.0;
      targetDistortion := 1.0;
      mousePos := NO_POINTER;
      targetMousePos := NO_POINTER;
      hoveredCell := None;
      cursor := Grab;
    }

    /** `onPointerDown` / `onTouchStart`: a press may become a click or a drag. */
    method PointerDown(p: Vec2)
      requires Valid()
      modifies this`isPotentialClick, this`isDragging, this`previousMouse, this`clickStart
      ensures Valid()
      ensures isPotentialClick && isDragging && previousMouse == p && clickStart == p
    {
      isPotentialClick := true;
      isDragging := true;
      previousMouse := p;
      clickStart := p;
    }

    /** `handlePointerMove`: publish the pointer, cancel a click that travelled too far,
        re-target the hover video when the pointer enters another cell (not while zoomed),
        and pan while dragging (not while zoomed). Every other field is left alone. */
    method PointerMove(p: Vec2)
      requires Valid()
      modifies this`mousePos, this`targetMousePos, this`isPotentialClick, this`hoveredCell
      modifies this`targetOffset, this`previousMouse, video
      ensures Valid()
      ensures variant == Standalone ==> mousePos == p && targetMousePos == old(targetMousePos)
      ensures variant == Framer ==> targetMousePos == p && mousePos == old(mousePos)
      ensures isPotentialClick == (old(isPotentialClick) && !ExceedsThreshold(p, clickStart))
      ensures var c := HitCell(p, Resolution(), offset, zoom, distortion);
              if !isZoomed && old(hoveredCell) != Some(c) then
                hoveredCell == Some(c) && video.latest == Some(c) && video.nonce == old(video.nonce) + 1
                && (VideoFor(video.catalog, Some(c)).Some? ==>
                      video.src == VideoFor(video.catalog, Some(c)).value && !video.paused && !video.error
                      && video.hoveredCellId == c)
                && (VideoFor(video.catalog, Some(c)).None? ==>
                      !video.isVideoActive && video.paused && video.src == old(video.src)
                      && video.error == old(video.error) && video.hoveredCellId == old(video.hoveredCellId))
              else
                hoveredCell == old(hoveredCell) && unchanged(video)
      ensures isDragging && !isZoomed ==>
                targetOffset == old(targetOffset).Plus(DragPan(p.Minus(old(previousMouse)), Resolution(), zoom))
                && previousMouse == p
      ensures !(isDragging && !isZoomed) ==> targetOffset == old(targetOffset) && previousMouse == old(previousMouse)
    {
      TrackPointer(p);
      UpdateHover(p);
      if isDragging && !isZoomed {
        DragTo(p);
      }
    }

    /** The first part of `handlePointerMove`: publish the pointer and cancel a click
        that travelled past the threshold. */
    method TrackPointer(p: Vec2)
      requires Valid()
      modifies this`mousePos, this`targetMousePos, this`isPotentialClick
      ensures Valid()
      ensures variant == Standalone ==> mousePos == p && targetMousePos == old(targetMousePos)
      ensures variant == Framer ==> targetMousePos == p && mousePos == old(mousePos)
      ensures isPotentialClick == (old(isPotentialClick) && !ExceedsThreshold(p, clickStart))
    {
      if variant == Standalone {
        mousePos := p;
      } else {
        targetMousePos := p;
      }
      if isPotentialClick && ExceedsThreshold(p, clickStart) {
        isPotentialClick := false;
      }
    }

    /** The drag part of `handlePointerMove` (Gallery.tsx:294-305): pan the target by the
        pointer's movement since the last drag step. */
    method DragTo(p: Vec2)
      requires Valid()
      modifies this`targetOffset, this`previousMouse
      ensures Valid()
      ensures targetOffset == old(targetOffset).Plus(DragPan(p.Minus(old(previousMouse)), Resolution(), zoom))
      ensures previousMouse == p
    {
      var delta := p.Minus(previousMouse);
      targetOffset := targetOffset.Plus(DragPan(delta, Resolution(), zoom));
      previousMouse := p;
    }

    /** The hover part of `handlePointerMove` (Gallery.tsx:280-292): when not zoomed, a
        pointer over a cell other than the last hovered one re-targets the video. */
    method UpdateHover(p: Vec2)
      requires Valid()
      modifies this`hoveredCell, video
      ensures Valid()
      ensures var c := HitCell(p, Resolution(), offset, zoom, distortion);
              if !isZoomed && old(hoveredCell) != Some(c) then
                hoveredCell == Some(c) && video.latest == Some(c) && video.nonce == old(video.nonce) + 1
                && (VideoFor(video.catalog, Some(c)).Some? ==>
                      video.src == VideoFor(video.catalog, Some(c)).value && !video.paused && !video.error
                      && video.hoveredCellId == c)
                && (VideoFor(video.catalog, Some(c)).None? ==>
                      !video.isVideoActive && video.paused && video.src == old(video.src)
                      && video.error == old(video.error) && video.hoveredCellId == old(video.hoveredCellId))
              else
                hoveredCell == old(hoveredCell) && unchanged(video)
    {
      if !isZoomed {
        var c := HitCell(p, Resolution(), offset, zoom, distortion);
        if hoveredCell != Some(c) {
          hoveredCell := Some(c);
          video.Request(Some(c));
        }
      }
    }

    /** `onTouchMove`: touch moves count only while a touch is down. */
    method TouchMove(p: Vec2)
      requires Valid()
      modifies this`mousePos, this`targetMousePos, this`isPotentialClick, this`hoveredCell
      modifies this`targetOffset, this`previousMouse, video
      ensures Valid()
      ensures !old(isDragging) ==> unchanged(this) && unchanged(video)
      ensures old(isDragging) && variant == Standalone ==> mousePos == p && targetMousePos == old(targetMousePos)
      ensures old(isDragging) && variant == Framer ==> targetMousePos == p && mousePos == old(mousePos)
      ensures old(isDragging) ==> isPotentialClick == (old(isPotentialClick) && !ExceedsThreshold(p, clickStart))
      ensures old(isDragging) ==>
                var c := HitCell(p, Resolution(), offset, zoom, distortion);
                if !isZoomed && old(hoveredCell) != Some(c) then
                  hoveredCell == Some(c) && video.latest == Some(c) && video.nonce == old(video.nonce) + 1
                  && (VideoFor(video.catalog, Some(c)).Some? ==>
                        video.src == VideoFor(video.catalog, Some(c)).value && !video.paused && !video.error
                        && video.hoveredCellId == c)
                  && (VideoFor(video.catalog, Some(c)).None? ==>
                        !video.isVideoActive && video.paused && video.src == old(video.src)
                        && video.error == old(video.error) && video.hoveredCellId == old(video.hoveredCellId))
                else
                  hoveredCell == old(hoveredCell) && unchanged(video)
      ensures old(isDragging) && !isZoomed ==>
                targetOffset == old(targetOffset).Plus(DragPan(p.Minus(old(previousMouse)), Resolution(), zoom))
                && previousMouse == p
      ensures old(isDragging) && isZoomed ==> targetOffset == old(targetOffset) && previousMouse == old(previousMouse)
    {
      if !isDragging {
        return;
      }
      PointerMove(p);
    }

    /** `handleClick`: zoom into the clicked cell, remembering the view, or zoom back out
        to the remembered view. */
    method HandleClick(p: Vec2)
      requires Valid()
      modifies this`targetOffset, this`targetZoom, this`targetDistortion, this`isZoomed
      modifies this`lastOffset, this`lastZoom
      ensures Valid()
      ensures isZoomed == !old(isZoomed)
      ensures old(isZoomed) ==>
                targetOffset == old(lastOffset) && targetZoom == old(lastZoom) && targetDistortion == 1.0
                && lastOffset == old(lastOffset)
      ensures !old(isZoomed) ==>
                targetOffset == ZoomTarget(p, Resolution(), offset, zoom, distortion)
                && targetZoom == ZOOMED_IN && targetDistortion == 0.0
                && lastOffset == old(targetOffset) && lastZoom == old(targetZoom)
    {
      if isZoomed {
        targetOffset := lastOffset;
        targetZoom := lastZoom;
        targetDistortion := 1.0;
        isZoomed := false;
      } else {
        var target := ZoomTarget(p, Resolution(), offset, zoom, distortion);
        lastOffset := targetOffset;
        lastZoom := targetZoom;
        targetOffset := target;
        targetZoom := ZOOMED_IN;
        targetDistortion := 0.0;
        isZoomed := true;
      }
    }

    /** `onPointerUp` / touch end: a press that never travelled past the threshold is a
        click; either way the press ends. */
    method PointerUp(p: Vec2)
      requires Valid()
      modifies this`isDragging, this`isPotentialClick
      modifies this`targetOffset, this`targetZoom, this`targetDistortion, this`isZoomed
      modifies this`lastOffset, this`lastZoom
      ensures Valid()
      ensures !isDragging && !isPotentialClick
      ensures isZoomed == (old(isZoomed) != old(isPotentialClick))
      ensures !old(isPotentialClick) ==>
                targetOffset == old(targetOffset) && targetZoom == old(targetZoom)
                && targetDistortion == old(targetDistortion)
                && lastOffset == old(lastOffset) && lastZoom == old(lastZoom)
      ensures old(isPotentialClick) && !old(isZoomed) ==>
                targetOffset == ZoomTarget(p, Resolution(), offset, zoom, distortion)
                && targetZoom == ZOOMED_IN && targetDistortion == 0.0
                && lastOffset == old(targetOffset) && lastZoom == old(targetZoom)
      ensures old(isPotentialClick) && old(isZoomed) ==>
                targetOffset == old(lastOffset) && targetZoom == old(lastZoom) && targetDistortion == 1.0
                && lastOffset == old(lastOffset)
    {
      if isPotentialClick {
        HandleClick(p);
      }
      isDragging := false;
      isPotentialClick := false;
    }

    /** `onPointerLeave`: stop dragging, hide the pointer from the shader and switch the
        hover video off. A pending click is not cancelled. */
    method PointerLeave()
      requires Valid()
      modifies this`isDragging, this`mousePos, this`targetMousePos, this`hoveredCell, video
      ensures Valid()
      ensures !isDragging && hoveredCell == None && video.latest == None
      ensures !video.isVideoActive && video.paused && video.nonce == old(video.nonce) + 1
      ensures video.src == old(video.src) && video.error == old(video.error)
      ensures video.hoveredCellId == old(video.hoveredCellId)
      ensures variant == Standalone ==> mousePos == NO_POINTER && targetMousePos == old(targetMousePos)
      ensures variant == Framer ==> targetMousePos == NO_POINTER && mousePos == old(mousePos)
    {
      isDragging := false;
      if variant == Standalone {
        mousePos := NO_POINTER;
      } else {
        targetMousePos := NO_POINTER;
      }
      video.Request(None);
      hoveredCell := None;
    }

    /** `onWheel` (Framer component only): pan by the wheel delta unless zoomed in. */
    method Wheel(delta: Vec2, deltaMode: int)
      requires Valid() && variant == Framer
      modifies this`targetOffset
      ensures Valid()
      ensures old(isZoomed) ==> targetOffset == old(targetOffset)
      ensures !old(isZoomed) ==> targetOffset == old(targetOffset).Plus(WheelPan(delta, deltaMode, Resolution(), zoom))
    {
      if isZoomed {
        return;
      }
      targetOffset := targetOffset.Plus(WheelPan(delta, deltaMode, Resolution(), zoom));
    }

    /** `onWindowResize`: the viewport follows the container. */
    method Resize(w: real, h: real)
      requires Valid() && w > 0.0 && h > 0.0
      modifies this`width, this`height
      ensures Valid()
      ensures width == w && height == h
    {
      width := w;
      height := h;
    }

    /** One `animate` frame: ease the view (and, in the Framer component, the pointer)
        towards its targets and set the cursor. */
    method Tick()
      requires Valid()
      modifies this`mousePos, this`offset, this`zoom, this`distortion, this`cursor
      ensures Valid()
      ensures offset == LerpVec(old(offset), targetOffset)
      ensures zoom == Lerp(old(zoom), targetZoom) && distortion == Lerp(old(distortion), targetDistortion)
      ensures variant == Framer ==> mousePos == LerpVec(old(mousePos), targetMousePos)
      ensures variant == Standalone ==> mousePos == old(mousePos)
      ensures cursor == CursorFor(isZoomed, isDragging)
    {
      if variant == Framer {
        mousePos := LerpVec(mousePos, targetMousePos);
      }
      offset := LerpVec(offset, targetOffset);
      LerpBetween(zoom, targetZoom);
      LerpBetween(distortion, targetDistortion);
      zoom := Lerp(zoom, targetZoom);
      distortion := Lerp(distortion, targetDistortion);
      cursor := CursorFor(isZoomed, isDragging);
    }
  }

  /** What happens at the surface between two clicks, as one handler call or one gesture:
      a pointer or touch move, an animation frame, a press that is dragged past the click
      threshold and released (by mouse or by touch), a wheel turn, a resize. */
  datatype Event =
    | PointerMoved(p: Vec2)
    | TouchMoved(p: Vec2)
    | Frame
    | DragGesture(down: Vec2, path: seq<Vec2>, up: Vec2, touch: bool)
    | WheelTurned(delta: Vec2, deltaMode: int)
    | Resized(w: real, h: real)

  /** Whether a drag path leaves the click threshold around its press point. */
  predicate TravelsPastThreshold(down: Vec2, path: seq<Vec2>)
  {
    exists j :: 0 <= j < |path| && ExceedsThreshold(path[j], down)
  }

  /** The events a component can receive while zoomed in other than a click: wheels only
      reach the Framer component, sizes are positive, and a gesture that never leaves the
      threshold would be a click. */
  predicate Possible(ev: Event, variant: Variant)
  {
    match ev
    case DragGesture(down, path, _, _) => TravelsPastThreshold(down, path)
    case WheelTurned(_, _) => variant == Framer
    case Resized(w, h) => w > 0.0 && h > 0.0
    case _ => true
  }

  /** Deliver one event to a zoomed-in engine: the view target, the remembered view and the
      hover cell stay as they are. */
  method Deliver(e: GalleryEngine, ev: Event)
    requires e.Valid() && e.isZoomed && Possible(ev, e.variant)
    modifies e, e.video
    ensures e.Valid() && e.isZoomed
    ensures e.targetOffset == old(e.targetOffset) && e.lastOffset == old(e.lastOffset)
    ensures e.hoveredCell == old(e.hoveredCell)
  {
    match ev
    case PointerMoved(p) => e.PointerMove(p);
    case TouchMoved(p) => e.TouchMove(p);
    case Frame => e.Tick();
    case WheelTurned(delta, deltaMode) => e.Wheel(delta, deltaMode);
    case Resized(w, h) => e.Resize(w, h);
    case DragGesture(down, path, up, touch) => DeliverDrag(e, down, path, up, touch);
  }

  /** A press at `down`, moves along `path` that leave the click threshold, and a release
      at `up`: no click fires, so the zoom state and the remembered view stay as they are.
      A zoomed-in view does not pan and keeps its hovered cell; any other view pans by the
      drag pan of the whole travel from the press to the last move. */
  method DeliverDrag(e: GalleryEngine, down: Vec2, path: seq<Vec2>, up: Vec2, touch: bool)
    requires e.Valid() && TravelsPastThreshold(down, path)
    modifies e, e.video
    ensures e.Valid() && !e.isDragging && !e.isPotentialClick
    ensures e.isZoomed == old(e.isZoomed) && e.lastOffset == old(e.lastOffset)
    ensures e.isZoomed ==> e.targetOffset == old(e.targetOffset) && e.hoveredCell == old(e.hoveredCell)
    ensures !e.isZoomed ==>
              e.targetOffset == old(e.targetOffset).Plus(DragPan(path[|path| - 1].Minus(down), e.Resolution(), e.zoom))
  {
    e.PointerDown(down);
    NoTravelNoPan(e.targetOffset, down, e.Resolution(), e.zoom);
    var k := 0;
    while k < |path|
      invariant 0 <= k <= |path|
      invariant e.Valid() && e.isDragging && e.clickStart == down
      invariant e.isZoomed == old(e.isZoomed) && e.lastOffset == old(e.lastOffset)
      invariant e.zoom == old(e.zoom) && e.width == old(e.width) && e.height == old(e.height)
      invariant e.isZoomed ==> e.targetOffset == old(e.targetOffset) && e.hoveredCell == old(e.hoveredCell)
      invariant !e.isZoomed ==> e.previousMouse == (if k == 0 then down else path[k - 1])
      invariant !e.isZoomed ==>
                  e.targetOffset == old(e.targetOffset).Plus(DragPan(e.previousMouse.Minus(down), e.Resolution(), e.zoom))
      invariant e.isPotentialClick == !exists j :: 0 <= j < k && ExceedsThreshold(path[j], down)
    {
      ghost var prev := e.previousMouse;
      DragMove(e, down, path[k], touch);
      if !e.isZoomed {
        DragTelescopes(old(e.targetOffset), down, prev, path[k], e.Resolution(), e.zoom);
      }
      k := k + 1;
    }
    e.PointerUp(up);
  }

  /** One move of a pressed pointer or touch: the click flag survives only inside the
      threshold, and an unzoomed view pans by the step. */
  method DragMove(e: GalleryEngine, down: Vec2, p: Vec2, touch: bool)
    requires e.Valid() && e.isDragging && e.clickStart == down
    modifies e, e.video
    ensures e.Valid() && e.isDragging && e.clickStart == down
    ensures e.isZoomed == old(e.isZoomed) && e.lastOffset == old(e.lastOffset)
    ensures e.zoom == old(e.zoom) && e.width == old(e.width) && e.height == old(e.height)
    ensures e.isZoomed ==> e.targetOffset == old(e.targetOffset) && e.hoveredCell == old(e.hoveredCell)
    ensures !e.isZoomed ==>
              e.previousMouse == p
              && e.targetOffset == old(e.targetOffset).Plus(DragPan(p.Minus(old(e.previousMouse)), e.Resolution(), e.zoom))
    ensures e.isPotentialClick == (old(e.isPotentialClick) && !ExceedsThreshold(p, down))
  {
    if touch {
      e.TouchMove(p);
    } else {
      e.PointerMove(p);
    }
  }

  /** A drag that has not moved yet has not panned. */
  lemma NoTravelNoPan(o: Vec2, down: Vec2, res: Vec2, zoom: real)
    requires ValidViewport(res)
    ensures o.Plus(DragPan(down.Minus(down), res, zoom)) == o
  {
  }

  /** The pans of the steps of a drag add up to the pan of its whole travel. */
  lemma DragTelescopes(o: Vec2, down: Vec2, prev: Vec2, p: Vec2, res: Vec2, zoom: real)
    requires ValidViewport(res)
    ensures o.Plus(DragPan(prev.Minus(down), res, zoom)).Plus(DragPan(p.Minus(prev), res, zoom))
            == o.Plus(DragPan(p.Minus(down), res, zoom))
  {
    DragPanAdditive(prev.Minus(down), p.Minus(prev), res, zoom);
    assert prev.Minus(down).Plus(p.Minus(prev)) == p.Minus(down);
  }

  /** A click that zooms in followed by a click that zooms out restores the view target
      exactly, whatever happens in between short of the pointer leaving: while zoomed,
      moves and drags neither pan nor re-target the hover video, the wheel does not pan,
      and frames and resizes leave the targets alone. */
  method ZoomRoundTrip(e: GalleryEngine, p: Vec2, q: Vec2, events: seq<Event>)
    requires e.Valid() && !e.isZoomed
    requires forall i :: 0 <= i < |events| ==> Possible(events[i], e.variant)
    modifies e, e.video
    ensures e.Valid() && !e.isZoomed
    ensures e.targetOffset == old(e.targetOffset) && e.targetZoom == old(e.targetZoom)
    ensures e.targetDistortion == old(e.targetDistortion)
    ensures e.hoveredCell == old(e.hoveredCell)
  {
    e.PointerDown(p);
    e.PointerUp(p);
    assert e.isZoomed && e.lastOffset == old(e.targetOffset);
    var i := 0;
    while i < |events|
      invariant 0 <= i <= |events|
      invariant e.Valid() && e.isZoomed && e.lastOffset == old(e.targetOffset)
      invariant e.hoveredCell == old(e.hoveredCell)
    {
      Deliver(e, events[i]);
      i := i + 1;
    }
    e.PointerDown(q);
    e.PointerUp(q);
  }
}
