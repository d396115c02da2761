/**
 * The layout engine of utils/pptGenerator.ts: one 16:9 page per slide, holding the slide's
 * first image, or its first two images stacked, fitted into the content box inside the margins.
 * Sizes are in inches. The presentation object the source fills is modelled as the list of
 * pages, each a list of image placements.
 */
module PptGenerator {
  import opened Types

  const SlideWidth: real := 10.0
  const SlideHeight: real := 5.625
  const Margin: real := 0.3
  /** The content box: the page less a margin on each side. */
  const MaxContentWidth: real := SlideWidth - Margin * 2.0
  const AvailableHeight: real := SlideHeight - Margin * 2.0
  /** The space left between two stacked images; it is never scaled. */
  const Gap: real := 0.05

  /** One addImage call: the image data and its box on the page. */
  datatype Placement = Placement(data: string, x: real, y: real, w: real, h: real)

  type Page = seq<Placement>

  /** The sizes of two stacked images. */
  datatype PairSizes = PairSizes(w1: real, h1: real, w2: real, h2: real)

  lemma ContentBox()
    ensures MaxContentWidth == 9.4 && AvailableHeight == 5.025
  {
  }

  /** The images the layout divides by have a positive aspect ratio. */
  predicate Placeable(s: SlideData)
  {
    forall i :: 0 <= i < |s.images| && i < 2 ==> s.images[i].aspectRatio > 0.0
  }

  // ---------------------------------------------------------------------------
  // One image

  /**
   * One image: full content width, unless that makes it too tall, in which case full content
   * height. Either way it keeps its aspect ratio, fits the box and touches one of its sides.
   */
  function SingleFit(aspectRatio: real): (r: (real, real))
    requires aspectRatio > 0.0
    ensures 0.0 < r.0 <= MaxContentWidth && 0.0 < r.1 <= AvailableHeight
    ensures r.0 == r.1 * aspectRatio
    ensures r.0 == MaxContentWidth || r.1 == AvailableHeight
  {
    var w := MaxContentWidth;
    var h := w / aspectRatio;
    if h > AvailableHeight then (AvailableHeight * aspectRatio, AvailableHeight) else (w, h)
  }

  /** No box of the same aspect ratio that fits the content box is wider than the chosen one. */
  lemma SingleFitIsLargest(aspectRatio: real, w: real, h: real)
    requires aspectRatio > 0.0
    requires w == h * aspectRatio && 0.0 < w <= MaxContentWidth && 0.0 < h <= AvailableHeight
    ensures w <= SingleFit(aspectRatio).0 && h <= SingleFit(aspectRatio).1
  {
    var (fw, fh) := SingleFit(aspectRatio);
    if fw == MaxContentWidth {
      assert w <= fw;
      assert h * aspectRatio <= fh * aspectRatio;
      MonotoneDivide(h, fh, aspectRatio);
    } else {
      assert fh == AvailableHeight;
      assert h <= fh;
      assert w <= fw by {
        MonotoneTimes(h, fh, aspectRatio);
      }
    }
  }

  lemma MonotoneTimes(a: real, b: real, f: real)
    requires a <= b && f > 0.0
    ensures a * f <= b * f
  {
  }

  lemma MonotoneDivide(a: real, b: real, f: real)
    requires a * f <= b * f && f > 0.0
    ensures a <= b
  {
  }

  /** An image twice as wide as high fills the content width: 9.4 by 4.7. */
  lemma SingleFitWide()
    ensures SingleFit(2.0) == (9.4, 4.7)
  {
  }

  /** A square image is limited by the content height: 5.025 by 5.025. */
  lemma SingleFitSquare()
    ensures SingleFit(1.0) == (5.025, 5.025)
  {
  }

  // ---------------------------------------------------------------------------
  // Two images

  /** The height of two full-width images stacked with the gap. */
  function NaturalStack(ar1: real, ar2: real): real
    requires ar1 > 0.0 && ar2 > 0.0
  {
    MaxContentWidth / ar1 + MaxContentWidth / ar2 + Gap
  }

  /**
   * Two images: both at full content width; when the stack is taller than the content box,
   * all four sizes shrink by one common factor.
   */
  function PairFit(ar1: real, ar2: real): (r: PairSizes)
    requires ar1 > 0.0 && ar2 > 0.0
    ensures r.w1 == r.h1 * ar1 && r.w2 == r.h2 * ar2
    ensures r.w1 == r.w2 && 0.0 < r.w1 <= MaxContentWidth
    ensures r.h1 > 0.0 && r.h2 > 0.0
    ensures NaturalStack(ar1, ar2) <= AvailableHeight ==>
              r == PairSizes(MaxContentWidth, MaxContentWidth / ar1, MaxContentWidth, MaxContentWidth / ar2)
    ensures NaturalStack(ar1, ar2) > AvailableHeight ==> r.w1 < MaxContentWidth
  {
    var w1 := MaxContentWidth;
    var h1 := w1 / ar1;
    var w2 := MaxContentWidth;
    var h2 := w2 / ar2;
    var totalHeight := h1 + h2 + Gap;
    if totalHeight > AvailableHeight then
      var scaleFactor := AvailableHeight / totalHeight;
      KeepsRatio(w1, ar1, scaleFactor);
      KeepsRatio(w2, ar2, scaleFactor);
      PairSizes(w1 * scaleFactor, h1 * scaleFactor, w2 * scaleFactor, h2 * scaleFactor)
    else
      PairSizes(w1, h1, w2, h2)
  }

  lemma KeepsRatio(w: real, ar: real, f: real)
    requires ar > 0.0
    ensures w * f == ((w / ar) * f) * ar
  {
    assert (w / ar) * ar == w;
  }

  /**
   * When the pair is scaled, the scaled heights plus the scaled gap fill the content height
   * exactly; since the gap itself stays unscaled, the pair overshoots the content box by
   * Gap * (1 - AvailableHeight / T), which lies strictly between 0 and Gap.
   */
  lemma PairOvershoot(ar1: real, ar2: real)
    requires ar1 > 0.0 && ar2 > 0.0
    requires NaturalStack(ar1, ar2) > AvailableHeight
    ensures var r := PairFit(ar1, ar2);
            var t := NaturalStack(ar1, ar2);
            && r.h1 + r.h2 + Gap * (AvailableHeight / t) == AvailableHeight
            && r.h1 + Gap + r.h2 - AvailableHeight == Gap * (1.0 - AvailableHeight / t)
            && 0.0 < r.h1 + Gap + r.h2 - AvailableHeight < Gap
  {
    var t := NaturalStack(ar1, ar2);
    var f := AvailableHeight / t;
    var h1 := MaxContentWidth / ar1;
    var h2 := MaxContentWidth / ar2;
    var r := PairFit(ar1, ar2);
    assert r.h1 == h1 * f && r.h2 == h2 * f;
    assert t * f == AvailableHeight;
    assert r.h1 + r.h2 + Gap * f == (h1 + h2 + Gap) * f;
    assert 0.0 < f < 1.0 by {
      assert AvailableHeight < t;
      MonotoneDivide(f, 1.0, t);
    }
  }

  /** Whatever the ratios, the images of a pair together stay lower than the content box. */
  lemma PairHeightsFit(ar1: real, ar2: real)
    requires ar1 > 0.0 && ar2 > 0.0
    ensures PairFit(ar1, ar2).h1 + PairFit(ar1, ar2).h2 < AvailableHeight
  {
    if NaturalStack(ar1, ar2) > AvailableHeight {
      PairOvershoot(ar1, ar2);
    }
  }

  /** Two square images: 9.4 high each at full width, a stack of 18.85, so both shrink by 5.025 / 18.85. */
  lemma PairOfSquares()
    ensures NaturalStack(1.0, 1.0) == 18.85
    ensures PairFit(1.0, 1.0).w1 == 9.4 * (5.025 / 18.85) == PairFit(1.0, 1.0).h2
  {
  }

  // ---------------------------------------------------------------------------
  // Pages

  /** A placement shows the image at the left margin, at its own aspect ratio, within the content width. */
  predicate FitsImage(p: Placement, img: CroppedImage)
  {
    && p.data == img.dataUrl && p.x == Margin
    && p.w == p.h * img.aspectRatio
    && 0.0 < p.w <= MaxContentWidth && p.h > 0.0
  }

  /**
   * The placements of one slide's page: none for an empty slide, the first image alone, or the
   * first two stacked at the left margin with the gap between them; images beyond the second
   * are not placed.
   */
  function SlidePage(s: SlideData): (p: Page)
    requires Placeable(s)
    ensures |p| == (if |s.images| < 2 then |s.images| else 2)
    ensures forall i :: 0 <= i < |p| ==> FitsImage(p[i], s.images[i])
    ensures |p| >= 1 ==> p[0].y == Margin
    ensures |p| == 1 ==> p[0].y + p[0].h <= Margin + AvailableHeight
    ensures |p| == 2 ==> p[1].y == p[0].y + p[0].h + Gap && p[1].w == p[0].w
  {
    if |s.images| == 0 then []
    else if |s.images| == 1 then
      var (w, h) := SingleFit(s.images[0].aspectRatio);
      [Placement(s.images[0].dataUrl, Margin, Margin, w, h)]
    else
      PairPage(s.images[0], s.images[1])
  }

  /** The two placements of a slide with two images or more: the first two, stacked with the gap. */
  function PairPage(top: CroppedImage, bottom: CroppedImage): (p: Page)
    requires top.aspectRatio > 0.0 && bottom.aspectRatio > 0.0
    ensures |p| == 2 && FitsImage(p[0], top) && FitsImage(p[1], bottom)
    ensures p[0].y == Margin && p[1].y == p[0].y + p[0].h + Gap && p[1].w == p[0].w
  {
    var r := PairFit(top.aspectRatio, bottom.aspectRatio);
    [ Placement(top.dataUrl, Margin, Margin, r.w1, r.h1),
      Placement(bottom.dataUrl, Margin, Margin + r.h1 + Gap, r.w2, r.h2) ]
  }

  /** Every placement lies inside the page horizontally, within the right margin. */
  lemma PlacedWithinWidth(s: SlideData, i: nat)
    requires Placeable(s) && i < |SlidePage(s)|
    ensures 0.0 < SlidePage(s)[i].x && SlidePage(s)[i].x + SlidePage(s)[i].w <= SlideWidth - Margin
  {
  }

  /**
   * Vertically a page ends above the bottom margin, except that a scaled pair may run into it
   * by less than the gap.
   */
  lemma PlacedWithinHeight(s: SlideData, i: nat)
    requires Placeable(s) && i < |SlidePage(s)|
    ensures SlidePage(s)[i].y + SlidePage(s)[i].h < SlideHeight - Margin + Gap
    ensures |SlidePage(s)| == 1 ==> SlidePage(s)[i].y + SlidePage(s)[i].h <= SlideHeight - Margin
  {
    if |s.images| >= 2 {
      PairHeightsFit(s.images[0].aspectRatio, s.images[1].aspectRatio);
    }
  }

  /**
   * The export loop: one page per slide, in order, a blank one for a slide without images.
   */
  method GeneratePages(slides: seq<SlideData>) returns (pages: seq<Page>)
    requires forall i :: 0 <= i < |slides| ==> Placeable(slides[i])
    ensures |pages| == |slides|
    ensures forall i :: 0 <= i < |slides| ==> pages[i] == SlidePage(slides[i])
  {
    pages := [];
    var n := 0;
    while n < |slides|
      invariant 0 <= n <= |slides|
      invariant |pages| == n
      invariant forall i :: 0 <= i < n ==> pages[i] == SlidePage(slides[i])
    {
      var page := LayoutSlide(slides[n]);
      pages := pages + [page];
      n := n + 1;
    }
  }

  /**
   * The body of the export loop for one slide: the placements it adds to that slide's page.
   */
  method LayoutSlide(slideData: SlideData) returns (page: Page)
    requires Placeable(slideData)
    ensures page == SlidePage(slideData)
  {
    page := [];
    var imageCount := |slideData.images|;
    if imageCount == 1 {
      var img := slideData.images[0];
      var w := MaxContentWidth;
      var h := w / img.aspectRatio;
      if h > AvailableHeight {
        h := AvailableHeight;
        w := h * img.aspectRatio;
      }
      assert (w, h) == SingleFit(img.aspectRatio);
      page := page + [Placement(img.dataUrl, Margin, Margin, w, h)];
    } else if imageCount >= 2 {
      var img1 := slideData.images[0];
      var img2 := slideData.images[1];
      var w1 := MaxContentWidth;
      var h1 := w1 / img1.aspectRatio;
      var w2 := MaxContentWidth;
      var h2 := w2 / img2.aspectRatio;
      var totalHeight := h1 + h2 + Gap;
      if totalHeight > AvailableHeight {
        var scaleFactor := AvailableHeight / totalHeight;
        w1 := w1 * scaleFactor;
        h1 := h1 * scaleFactor;
        w2 := w2 * scaleFactor;
        h2 := h2 * scaleFactor;
      }
      assert PairSizes(w1, h1, w2, h2) == PairFit(img1.aspectRatio, img2.aspectRatio);
      page := page + [Placement(img1.dataUrl, Margin, Margin, w1, h1)];
      page := page + [Placement(img2.dataUrl, Margin, Margin + h1 + Gap, w2, h2)];
      assert page == PairPage(img1, img2);
    }
  }

  /** Exporting a blank slide still yields a page, with nothing on it. */
  lemma EmptySlideGivesBlankPage(s: SlideData)
    requires s.images == []
    ensures Placeable(s) && SlidePage(s) == []
  {
  }
}
