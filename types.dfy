/** The data shapes shared by the editor, the cropper and the exporter. */
module Types {

  datatype Option<+T> = None | Some(value: T)

  /** A point in the cropping surface's own coordinates (pixels from its top-left corner). */
  datatype Point = Point(x: real, y: real)

  /** An axis-aligned rectangle; once normalised, width and height are never negative. */
  datatype Rect = Rect(x: real, y: real, width: real, height: real)

  /**
   * A captured image. `dataUrl` stands for the encoded pixels, which the model treats as an
   * opaque value; `width`/`height` are raster pixels and `aspectRatio` is width / height.
   */
  datatype CroppedImage = CroppedImage(
    id: string,
    dataUrl: string,
    width: real,
    height: real,
    aspectRatio: real,
    sourcePdfName: Option<string>,
    sourcePageNumber: Option<int>)

  /** One slide of the deck: an id and its images, in display order. */
  datatype SlideData = SlideData(id: string, images: seq<CroppedImage>)

  type Deck = seq<SlideData>

  /** The number of images over the whole deck. */
  function TotalImages(deck: Deck): nat
  {
    if deck == [] then 0 else |deck[0].images| + TotalImages(deck[1..])
  }

  lemma {:induction false} TotalImagesAppend(a: Deck, b: Deck)
    ensures TotalImages(a + b) == TotalImages(a) + TotalImages(b)
  {
    if a != [] {
      assert (a + b)[1..] == a[1..] + b;
      TotalImagesAppend(a[1..], b);
    } else {
      assert a + b == b;
    }
  }

  /** No slide of the deck is empty and none holds more than the two images the exporter lays out. */
  ghost predicate WellSized(deck: Deck)
  {
    forall i :: 0 <= i < |deck| ==> 1 <= |deck[i].images| <= 2
  }

  /** Slide ids are pairwise distinct (ids come from a UUID generator). */
  ghost predicate DistinctIds(deck: Deck)
  {
    forall i, j :: 0 <= i < j < |deck| ==> deck[i].id != deck[j].id
  }
}
