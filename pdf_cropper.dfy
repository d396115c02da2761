/**
 * The cropping view of components/PdfCropper.tsx: the page view state (page, zoom, rotation,
 * render scale), the press/move/release selection machine, and the mapping of a selection
 * drawn on screen back to pixels of the high-resolution raster.
 *
 * Four coordinate spaces meet here: raster pixels (the page rendered at renderScale), natural
 * page units (raster / renderScale), screen pixels (natural * zoom) and pointer positions,
 * which are screen pixels relative to the page's top-left corner.
 */
module PdfCropper {
  import opened Types

  /** A selection narrower or lower than this many screen pixels is taken for a click. */
  const MinSelectionSize: real := 10.0
  const MinZoom: real := 0.1
  const MaxZoom: real := 10.0
  const ZoomStep: real := 0.1
  /** Screen pixels kept free around the page by the fit buttons. */
  const FitPadding: real := 40.0
  const DefaultRenderScale: real := 2.0

  datatype Dims = Dims(width: real, height: real)

  function Min(a: real, b: real): real { if a <= b then a else b }
  function Max(a: real, b: real): real { if a >= b then a else b }

  // ---------------------------------------------------------------------------
  // Geometry

  /** The pointer coordinate held to [0, bound] (Math.max(0, Math.min(v, bound))). */
  function Clamp(v: real, bound: real): (c: real)
    requires bound >= 0.0
    ensures 0.0 <= c <= bound
    ensures 0.0 <= v <= bound ==> c == v
  {
    Max(0.0, Min(v, bound))
  }

  /**
   * The rectangle spanned by the press point and the pointer, with its origin at the top-left
   * corner whichever way the pointer was dragged.
   */
  function Normalized(start: Point, p: Point): (r: Rect)
    ensures r.width >= 0.0 && r.height >= 0.0
    ensures r.x == Min(start.x, p.x) && r.x + r.width == Max(start.x, p.x)
    ensures r.y == Min(start.y, p.y) && r.y + r.height == Max(start.y, p.y)
  {
    var rawWidth := p.x - start.x;
    var rawHeight := p.y - start.y;
    var width := if rawWidth >= 0.0 then rawWidth else -rawWidth;
    var height := if rawHeight >= 0.0 then rawHeight else -rawHeight;
    var x := if rawWidth > 0.0 then start.x else p.x;
    var y := if rawHeight > 0.0 then start.y else p.y;
    Rect(x, y, width, height)
  }

  /** Whether a point lies on a surface of the given size. */
  predicate OnSurface(p: Point, surface: Dims)
  {
    0.0 <= p.x <= surface.width && 0.0 <= p.y <= surface.height
  }

  /** Whether a rectangle lies inside a surface of the given size. */
  predicate Inside(r: Rect, surface: Dims)
  {
    0.0 <= r.x && 0.0 <= r.y && r.x + r.width <= surface.width && r.y + r.height <= surface.height
  }

  /**
   * The selection for a pointer position during a drag: the pointer is clamped to the surface,
   * so a drag that starts on the surface never selects outside it.
   */
  function DragRect(start: Point, pointer: Point, surface: Dims): (r: Rect)
    requires surface.width >= 0.0 && surface.height >= 0.0
    ensures r.width >= 0.0 && r.height >= 0.0
    ensures OnSurface(start, surface) ==> Inside(r, surface)
    ensures OnSurface(start, surface) && OnSurface(pointer, surface) ==> r == Normalized(start, pointer)
  {
    Normalized(start, Point(Clamp(pointer.x, surface.width), Clamp(pointer.y, surface.height)))
  }

  /** The natural page size, recovered from a page rendered at renderScale. */
  function NaturalDims(viewport: Dims, renderScale: real): (d: Dims)
    requires renderScale > 0.0
    ensures d.width * renderScale == viewport.width && d.height * renderScale == viewport.height
  {
    Dims(viewport.width / renderScale, viewport.height / renderScale)
  }

  /** The page as laid out on screen: natural size times zoom. */
  function DisplayedDims(natural: Dims, zoom: real): Dims
  {
    Dims(natural.width * zoom, natural.height * zoom)
  }

  /** A screen rectangle in raster pixels: every coordinate times renderScale / zoom. */
  function ToRaster(r: Rect, renderScale: real, zoom: real): (a: Rect)
    requires renderScale > 0.0 && zoom > 0.0
    ensures a.x * zoom == r.x * renderScale && a.y * zoom == r.y * renderScale
    ensures a.width * zoom == r.width * renderScale && a.height * zoom == r.height * renderScale
  {
    var scaleFactor := renderScale / zoom;
    Rect(r.x * scaleFactor, r.y * scaleFactor, r.width * scaleFactor, r.height * scaleFactor)
  }

  /** Whether a finished selection is large enough to be captured. */
  predicate LargeEnough(r: Rect)
  {
    !(r.width < MinSelectionSize || r.height < MinSelectionSize)
  }

  /**
   * What a finished selection emits: nothing for a selection under the size threshold, else an
   * image whose size is the selection's in raster pixels and whose aspect ratio is that of the
   * selection on screen.
   */
  function Capture(r: Rect, renderScale: real, zoom: real, id: string, dataUrl: string): (img: Option<CroppedImage>)
    requires renderScale > 0.0 && zoom > 0.0
    ensures img.Some? <==> r.width >= MinSelectionSize && r.height >= MinSelectionSize
    ensures img.Some? ==>
              && img.value.id == id && img.value.dataUrl == dataUrl
              && img.value.width * zoom == r.width * renderScale
              && img.value.height * zoom == r.height * renderScale
              && img.value.width > 0.0 && img.value.height > 0.0
              && img.value.aspectRatio > 0.0
              && img.value.aspectRatio == r.width / r.height
              && img.value.sourcePdfName.None? && img.value.sourcePageNumber.None?
  {
    if !LargeEnough(r) then None
    else
      var actual := ToRaster(r, renderScale, zoom);
      RatioOfScaled(r.width, r.height, renderScale / zoom);
      Some(CroppedImage(id, dataUrl, actual.width, actual.height, actual.width / actual.height, None, None))
  }

  lemma RatioOfScaled(w: real, h: real, f: real)
    requires w > 0.0 && h > 0.0 && f > 0.0
    ensures (w * f) / (h * f) > 0.0 && (w * f) / (h * f) == w / h
  {
    assert (w * f) / (h * f) * (h * f) == w * f;
    assert (w / h) * (h * f) == w * f;
  }

  /** A rectangle with every coordinate multiplied by f. */
  function Scaled(r: Rect, f: real): Rect
  {
    Rect(r.x * f, r.y * f, r.width * f, r.height * f)
  }

  /** A region of the page shown at some zoom maps back to the region times renderScale. */
  lemma OnScreenToRaster(region: Rect, renderScale: real, zoom: real)
    requires renderScale > 0.0 && zoom > 0.0
    ensures ToRaster(Scaled(region, zoom), renderScale, zoom) == Scaled(region, renderScale)
  {
    ScaledBack(region.x, renderScale, zoom);
    ScaledBack(region.y, renderScale, zoom);
    ScaledBack(region.width, renderScale, zoom);
    ScaledBack(region.height, renderScale, zoom);
  }

  /**
   * Zoom cancels out: the same region of the page, selected at any two zoom levels, maps to the
   * same raster rectangle.
   */
  lemma ZoomCancels(region: Rect, renderScale: real, zoom1: real, zoom2: real)
    requires renderScale > 0.0 && zoom1 > 0.0 && zoom2 > 0.0
    ensures ToRaster(Scaled(region, zoom1), renderScale, zoom1) == ToRaster(Scaled(region, zoom2), renderScale, zoom2)
  {
    OnScreenToRaster(region, renderScale, zoom1);
    OnScreenToRaster(region, renderScale, zoom2);
  }

  lemma ScaledBack(v: real, renderScale: real, zoom: real)
    requires zoom > 0.0
    ensures (v * zoom) * (renderScale / zoom) == v * renderScale
  {
    assert (renderScale / zoom) * zoom == renderScale;
  }

  /**
   * A selection on the displayed page maps into the rendered raster: the surface is the natural
   * size times zoom and the natural size is the raster size over renderScale.
   */
  lemma CaptureWithinRaster(r: Rect, viewport: Dims, renderScale: real, zoom: real)
    requires renderScale > 0.0 && zoom > 0.0
    requires r.width >= 0.0 && r.height >= 0.0
    requires Inside(r, DisplayedDims(NaturalDims(viewport, renderScale), zoom))
    ensures Inside(ToRaster(r, renderScale, zoom), viewport)
  {
    var natural := NaturalDims(viewport, renderScale);
    var a := ToRaster(r, renderScale, zoom);
    var f := renderScale / zoom;
    assert f > 0.0;
    assert (natural.width * zoom) * f == viewport.width by {
      ScaledBack(natural.width, renderScale, zoom);
    }
    assert (natural.height * zoom) * f == viewport.height by {
      ScaledBack(natural.height, renderScale, zoom);
    }
    assert a.x + a.width == (r.x + r.width) * f;
    assert a.y + a.height == (r.y + r.height) * f;
    MonotoneScale(r.x + r.width, natural.width * zoom, f);
    MonotoneScale(r.y + r.height, natural.height * zoom, f);
    MonotoneScale(0.0, r.x, f);
    MonotoneScale(0.0, r.y, f);
  }

  lemma MonotoneScale(a: real, b: real, f: real)
    requires a <= b && f > 0.0
    ensures a * f <= b * f
  {
  }

  /** The zoom at which one natural dimension fills the container less the padding. */
  function FitZoom(container: real, natural: real): (z: real)
    requires container > FitPadding && natural > 0.0
    ensures z > 0.0 && z * natural == container - FitPadding
  {
    (container - FitPadding) / natural
  }

  /** One zoom-out step, never below MinZoom. */
  function ZoomedOut(zoom: real): (z: real)
    ensures z >= MinZoom && z <= Max(MinZoom, zoom)
    ensures zoom - ZoomStep >= MinZoom ==> z == zoom - ZoomStep
    ensures zoom - ZoomStep < MinZoom ==> z == MinZoom
  {
    Max(MinZoom, zoom - ZoomStep)
  }

  /** One zoom-in step, never above MaxZoom. */
  function ZoomedIn(zoom: real): (z: real)
    ensures z <= MaxZoom && z >= Min(MaxZoom, zoom)
    ensures zoom + ZoomStep <= MaxZoom ==> z == zoom + ZoomStep
    ensures zoom + ZoomStep > MaxZoom ==> z == MaxZoom
  {
    Min(MaxZoom, zoom + ZoomStep)
  }

  /** The quarter turns the view can show. */
  predicate QuarterTurn(r: int)
  {
    r == 0 || r == 90 || r == 180 || r == 270
  }

  /** A quarter turn clockwise, modulo a full turn ((r + 90) % 360 on a non-negative r). */
  function Rotated(rotation: int): (r: int)
    requires rotation >= 0
    ensures 0 <= r < 360
    ensures QuarterTurn(rotation) ==> QuarterTurn(r) && r != rotation
    ensures rotation == 270 ==> r == 0
    ensures QuarterTurn(rotation) && rotation < 270 ==> r == rotation + 90
  {
    (rotation + 90) % 360
  }

  /** Four quarter turns bring the view back to where it was. */
  lemma FourTurnsIsIdentity(rotation: int)
    requires QuarterTurn(rotation)
    ensures Rotated(Rotated(Rotated(Rotated(rotation)))) == rotation
  {
  }

  /** Whether a step of delta pages from page stays within a document of numPages pages. */
  predicate StepAllowed(page: int, delta: int, numPages: int)
  {
    1 <= page + delta <= numPages
  }

  /**
   * A page left more than one past the end of the document (after a switch to a shorter
   * document) can be left neither backward nor forward by the one-page steps of the buttons and
   * the arrow keys; exactly one past the end, only the step back is taken.
   */
  lemma NavigationStranded(page: int, numPages: nat)
    requires page > numPages
    ensures page > numPages + 1 ==> !StepAllowed(page, -1, numPages) && !StepAllowed(page, 1, numPages)
    ensures page == numPages + 1 ==> !StepAllowed(page, 1, numPages) && (StepAllowed(page, -1, numPages) <==> numPages >= 1)
  {
  }

  /** Page 7 of a ten-page document, then a three-page document: both steps are refused. */
  lemma NavigationStrandedExample()
    ensures !StepAllowed(7, -1, 3) && !StepAllowed(7, 1, 3)
    ensures StepAllowed(7, -1, 10) && StepAllowed(7, 1, 10)
  {
    NavigationStranded(7, 3);
  }

  // ---------------------------------------------------------------------------
  // The view state and the selection machine

  class Cropper {
    /**
     * The page count of the document on view. One cropper serves every document: when the
     * active document changes, only this count follows it.
     */
    var numPages: nat

    var renderScale: real
    var currentPage: int
    var zoom: real
    var rotation: int

    var isSelecting: bool
    var startPos: Option<Point>
    var currentRect: Option<Rect>

    /** The natural page size, known once a page has been rendered. */
    var canvasDims: Option<Dims>

    /** The view settings stay in range and a known page size is positive. */
    ghost predicate Valid()
      reads this
    {
      && renderScale > 0.0
      && zoom > 0.0
      && QuarterTurn(rotation)
      && 1 <= currentPage
      && (canvasDims.Some? ==> canvasDims.value.width > 0.0 && canvasDims.value.height > 0.0)
    }

    /** Whether the window-level move and release listeners are attached. */
    predicate Dragging()
      reads this
    {
      isSelecting && startPos.Some?
    }

    constructor (numPages: nat)
      requires numPages >= 1
      ensures Valid() && this.numPages == numPages
      ensures renderScale == DefaultRenderScale && currentPage == 1 && zoom == 1.0 && rotation == 0
      ensures !isSelecting && startPos.None? && currentRect.None? && canvasDims.None?
    {
      this.numPages := numPages;
      renderScale := DefaultRenderScale;
      currentPage := 1;
      zoom := 1.0;
      rotation := 0;
      isSelecting := false;
      startPos := None;
      currentRect := None;
      canvasDims := None;
    }

    /** The current page has been rendered at renderScale into a raster of the given size. */
    method PageRendered(viewport: Dims)
      requires Valid() && viewport.width > 0.0 && viewport.height > 0.0
      modifies this`canvasDims
      ensures Valid()
      ensures canvasDims == Some(NaturalDims(viewport, renderScale))
    {
      canvasDims := Some(Dims(viewport.width / renderScale, viewport.height / renderScale));
    }

    /** Zoom so that the page width fills the container less the padding; no-op before a render. */
    method FitToWidth(containerWidth: real)
      requires Valid() && containerWidth > FitPadding
      modifies this`zoom
      ensures Valid()
      ensures old(canvasDims).None? ==> zoom == old(zoom)
      ensures canvasDims.Some? ==> zoom * canvasDims.value.width == containerWidth - FitPadding
    {
      if canvasDims.None? {
        return;
      }
      var naturalWidth := canvasDims.value.width;
      zoom := FitZoom(containerWidth, naturalWidth);
    }

    /** Zoom so that the page height fills the container less the padding; no-op before a render. */
    method FitToPage(containerHeight: real)
      requires Valid() && containerHeight > FitPadding
      modifies this`zoom
      ensures Valid()
      ensures old(canvasDims).None? ==> zoom == old(zoom)
      ensures canvasDims.Some? ==> zoom * canvasDims.value.height == containerHeight - FitPadding
    {
      if canvasDims.None? {
        return;
      }
      var naturalHeight := canvasDims.value.height;
      zoom := FitZoom(containerHeight, naturalHeight);
    }

    /** The zoom-out button. */
    method ZoomOut()
      requires Valid()
      modifies this`zoom
      ensures Valid() && zoom == ZoomedOut(old(zoom))
    {
      zoom := Max(MinZoom, zoom - ZoomStep);
    }

    /** The zoom-in button. */
    method ZoomIn()
      requires Valid()
      modifies this`zoom
      ensures Valid() && zoom == ZoomedIn(old(zoom))
    {
      zoom := Min(MaxZoom, zoom + ZoomStep);
    }

    /** The rotate button. */
    method Rotate()
      requires Valid()
      modifies this`rotation
      ensures Valid() && rotation == Rotated(old(rotation))
    {
      rotation := (rotation + 90) % 360;
    }

    /** The render-scale selector (its options are all positive). */
    method SetRenderScale(value: real)
      requires Valid() && value > 0.0
      modifies this`renderScale
      ensures Valid() && renderScale == value
    {
      renderScale := value;
    }

    /**
     * Another document becomes active while the cropper stays mounted: its page count is read
     * from the new document, and the page, zoom, rotation, selection and known page size are kept.
     */
    method DocumentChanged(pages: nat)
      requires Valid()
      modifies this`numPages
      ensures Valid() && numPages == pages
    {
      numPages := pages;
    }

    /**
     * The same change of document, with the view reset to the first page and the selection
     * dropped, so that the page on view lies within the new document.
     */
    method DocumentChangedWithReset(pages: nat)
      requires Valid() && pages >= 1
      modifies this`numPages, this`currentPage, this`startPos, this`currentRect
      ensures Valid() && OnDocument()
      ensures numPages == pages && currentPage == 1 && startPos.None? && currentRect.None?
    {
      numPages := pages;
      currentPage := 1;
      startPos := None;
      currentRect := None;
    }

    /** The page on view exists in the document on view. */
    predicate OnDocument()
      reads this
    {
      1 <= currentPage <= numPages
    }

    /** Move by delta pages when that stays within the document, dropping the selection; else nothing. */
    method ChangePage(delta: int)
      requires Valid()
      modifies this`currentPage, this`startPos, this`currentRect
      ensures Valid()
      ensures StepAllowed(old(currentPage), delta, numPages) ==>
                currentPage == old(currentPage) + delta && startPos.None? && currentRect.None?
      ensures !StepAllowed(old(currentPage), delta, numPages) ==>
                currentPage == old(currentPage) && startPos == old(startPos) && currentRect == old(currentRect)
      ensures old(OnDocument()) ==> OnDocument()
    {
      var newPage := currentPage + delta;
      if newPage >= 1 && newPage <= numPages {
        currentPage := newPage;
        startPos := None;
        currentRect := None;
      }
    }

    /** A press on the page: the left button starts a selection of zero size at the press point. */
    method MouseDown(button: int, p: Point)
      modifies this`isSelecting, this`startPos, this`currentRect
      ensures button != 0 ==> isSelecting == old(isSelecting) && startPos == old(startPos) && currentRect == old(currentRect)
      ensures button == 0 ==> isSelecting && startPos == Some(p) && currentRect == Some(Rect(p.x, p.y, 0.0, 0.0))
    {
      if button != 0 {
        return;
      }
      isSelecting := true;
      startPos := Some(p);
      currentRect := Some(Rect(p.x, p.y, 0.0, 0.0));
    }

    /** A pointer move during a drag redraws the selection from the press point to the clamped pointer. */
    method MouseMove(pointer: Point, surface: Dims)
      requires surface.width >= 0.0 && surface.height >= 0.0
      modifies this`currentRect
      ensures old(Dragging()) ==> currentRect == Some(DragRect(startPos.value, pointer, surface))
      ensures !old(Dragging()) ==> currentRect == old(currentRect)
    {
      if !Dragging() {
        return;
      }
      var start := startPos.value;
      var clampedX := Max(0.0, Min(pointer.x, surface.width));
      var clampedY := Max(0.0, Min(pointer.y, surface.height));
      currentRect := Some(Normalized(start, Point(clampedX, clampedY)));
    }

    /**
     * Releasing the button ends the drag and clears the selection; a selection of at least the
     * threshold size is emitted as an image taken from the raster, with the current page number.
     */
    method MouseUp(imageId: string, dataUrl: string) returns (emitted: Option<CroppedImage>, page: int)
      requires Valid()
      modifies this`isSelecting, this`startPos, this`currentRect
      ensures Valid()
      ensures !old(Dragging()) ==>
                emitted.None? && isSelecting == old(isSelecting) && startPos == old(startPos) && currentRect == old(currentRect)
      ensures old(Dragging()) ==> !isSelecting && startPos.None? && currentRect.None?
      ensures old(Dragging()) && old(currentRect).Some? ==>
                emitted == Capture(old(currentRect).value, renderScale, zoom, imageId, dataUrl)
      ensures old(Dragging()) && old(currentRect).None? ==> emitted.None?
      ensures page == currentPage
    {
      page := currentPage;
      emitted := None;
      if !Dragging() {
        return;
      }
      isSelecting := false;
      if currentRect.None? {
        startPos := None;
        currentRect := None;
        return;
      }
      var rect := currentRect.value;
      if rect.width < MinSelectionSize || rect.height < MinSelectionSize {
        startPos := None;
        currentRect := None;
        return;
      }
      var scaleFactor := renderScale / zoom;
      var actualWidth := rect.width * scaleFactor;
      var actualHeight := rect.height * scaleFactor;
      assert LargeEnough(rect);
      assert ToRaster(rect, renderScale, zoom) == Rect(rect.x * scaleFactor, rect.y * scaleFactor, actualWidth, actualHeight);
      assert Capture(rect, renderScale, zoom, imageId, dataUrl)
          == Some(CroppedImage(imageId, dataUrl, actualWidth, actualHeight, actualWidth / actualHeight, None, None));
      emitted := Some(CroppedImage(imageId, dataUrl, actualWidth, actualHeight, actualWidth / actualHeight, None, None));
      startPos := None;
      currentRect := None;
    }
  }

  /**
   * A whole press-drag-release on the page: the release emits an image exactly when the dragged
   * rectangle reaches the threshold in both directions, and the machine ends idle.
   */
  method PressDragRelease(c: Cropper, press: Point, pointer: Point, surface: Dims, imageId: string, dataUrl: string)
    returns (emitted: Option<CroppedImage>)
    requires c.Valid() && surface.width >= 0.0 && surface.height >= 0.0
    modifies c
    ensures c.Valid() && !c.isSelecting && c.startPos.None? && c.currentRect.None?
    ensures var r := DragRect(press, pointer, surface);
            (emitted.Some? <==> r.width >= MinSelectionSize && r.height >= MinSelectionSize)
            && emitted == Capture(r, c.renderScale, c.zoom, imageId, dataUrl)
  {
    c.MouseDown(0, press);
    c.MouseMove(pointer, surface);
    var page;
    emitted, page := c.MouseUp(imageId, dataUrl);
  }
}
