/**
 * The deck transforms behind the editor's handlers in App.tsx: each takes the current deck
 * and yields the next one (or says why it refuses), independent of the undo history.
 */
module DeckEdits {
  import opened Types
  import opened JsArray

  /** The index of the first slide with the given id, or -1 (Array.prototype.findIndex). */
  function FindIndex(deck: Deck, id: string): (i: int)
    ensures -1 <= i < |deck|
    ensures i >= 0 ==> deck[i].id == id && forall j :: 0 <= j < i ==> deck[j].id != id
    ensures i == -1 <==> forall j :: 0 <= j < |deck| ==> deck[j].id != id
  {
    if deck == [] then -1
    else if deck[0].id == id then 0
    else
      var k := FindIndex(deck[1..], id);
      if k < 0 then -1 else k + 1
  }

  lemma FindIndexOfDistinct(deck: Deck, i: nat)
    requires DistinctIds(deck) && i < |deck|
    ensures FindIndex(deck, deck[i].id) == i
  {
  }

  /** Without its first slide a deck with distinct ids still has distinct ids. */
  lemma TailDistinct(deck: Deck)
    requires DistinctIds(deck) && deck != []
    ensures DistinctIds(deck[1..])
  {
    var tail := deck[1..];
    forall p, q | 0 <= p < q < |tail| ensures tail[p].id != tail[q].id {
      assert tail[p] == deck[p + 1] && tail[q] == deck[q + 1];
    }
  }

  /** Removing one position keeps the ids distinct, and none of the rest has the removed id. */
  lemma DropIndexDistinct(deck: Deck, i: nat)
    requires DistinctIds(deck) && i < |deck|
    ensures DistinctIds(deck[..i] + deck[i + 1..])
    ensures forall s :: s in deck[..i] + deck[i + 1..] ==> s.id != deck[i].id
  {
    var a := deck[..i] + deck[i + 1..];
    forall k | 0 <= k < |a| ensures a[k] == deck[if k < i then k else k + 1] {
    }
  }

  /** No later slide of a deck with distinct ids has the first slide's id. */
  lemma HeadIdFresh(deck: Deck)
    requires DistinctIds(deck) && deck != []
    ensures forall s :: s in deck[1..] ==> s.id != deck[0].id
  {
    DropIndexDistinct(deck, 0);
    assert deck[..0] + deck[1..] == deck[1..];
  }

  /** A slide put in front of a distinct deck none of whose slides has its id. */
  lemma ConsDistinct(x: SlideData, rest: Deck)
    requires DistinctIds(rest)
    requires forall s :: s in rest ==> s.id != x.id
    ensures DistinctIds([x] + rest)
  {
    InsertDistinct(rest, x, 0);
    assert rest[..0] + [x] + rest[0..] == [x] + rest;
  }

  /** A slide whose id no slide of a distinct deck has can be put in at any position. */
  lemma InsertDistinct(a: Deck, x: SlideData, p: nat)
    requires DistinctIds(a) && p <= |a|
    requires forall k :: 0 <= k < |a| ==> a[k].id != x.id
    ensures DistinctIds(a[..p] + [x] + a[p..])
  {
    var m := a[..p] + [x] + a[p..];
    forall k | 0 <= k < |m| ensures m[k] == if k < p then a[k] else if k == p then x else a[k - 1] {
    }
  }

  /** Two decks with the same id at every position have distinct ids together. */
  lemma SameIdsDistinct(a: Deck, b: Deck)
    requires DistinctIds(a) && |a| == |b|
    requires forall k :: 0 <= k < |a| ==> a[k].id == b[k].id
    ensures DistinctIds(b)
  {
    forall p, q | 0 <= p < q < |b| ensures b[p].id != b[q].id {
      assert a[p].id != a[q].id;
    }
  }

  // ---------------------------------------------------------------------------
  // Appending a capture

  /** The image as it is stored in the deck: tagged with the document name and page it came from. */
  function TagSource(image: CroppedImage, pdfName: Option<string>, pageNumber: Option<int>): (r: CroppedImage)
    ensures r.sourcePdfName == pdfName && r.sourcePageNumber == pageNumber
    ensures r.id == image.id && r.dataUrl == image.dataUrl && r.width == image.width
            && r.height == image.height && r.aspectRatio == image.aspectRatio
  {
    image.(sourcePdfName := pdfName, sourcePageNumber := pageNumber)
  }

  /** A new single-image slide at the end of the deck. */
  function AppendCapture(deck: Deck, slideId: string, image: CroppedImage): (r: Deck)
    ensures |r| == |deck| + 1 && r[..|deck|] == deck
    ensures r[|deck|].id == slideId && r[|deck|].images == [image]
    ensures TotalImages(r) == TotalImages(deck) + 1
    ensures WellSized(deck) ==> WellSized(r)
  {
    var r := deck + [SlideData(slideId, [image])];
    TotalImagesAppend(deck, [SlideData(slideId, [image])]);
    assert TotalImages([SlideData(slideId, [image])]) == 1;
    r
  }

  /** A capture under a fresh slide id keeps the slide ids distinct. */
  lemma AppendCaptureKeepsDistinct(deck: Deck, slideId: string, image: CroppedImage)
    requires DistinctIds(deck)
    requires forall k :: 0 <= k < |deck| ==> deck[k].id != slideId
    ensures DistinctIds(AppendCapture(deck, slideId, image))
  {
    InsertDistinct(deck, SlideData(slideId, [image]), |deck|);
    assert deck[..|deck|] + [SlideData(slideId, [image])] + deck[|deck|..] == AppendCapture(deck, slideId, image);
  }

  // ---------------------------------------------------------------------------
  // Deleting a slide

  /** deck.filter(s => s.id !== id) */
  function DeleteSlide(deck: Deck, id: string): (r: Deck)
    ensures forall s :: s in r <==> s in deck && s.id != id
    ensures |r| <= |deck|
    ensures (forall j :: 0 <= j < |deck| ==> deck[j].id != id) ==> r == deck
  {
    if deck == [] then []
    else
      var rest := DeleteSlide(deck[1..], id);
      assert deck == [deck[0]] + deck[1..];
      if deck[0].id == id then rest else [deck[0]] + rest
  }

  /** Deleting slides keeps every remaining slide as it was, so a well-sized deck stays well sized. */
  lemma DeleteSlideKeepsWellSized(deck: Deck, id: string)
    requires WellSized(deck)
    ensures WellSized(DeleteSlide(deck, id))
  {
    var r := DeleteSlide(deck, id);
    forall j | 0 <= j < |r| ensures 1 <= |r[j].images| <= 2 {
      assert r[j] in deck;
    }
  }

  /** Deleting slides keeps the remaining ones in order, so their ids stay distinct. */
  lemma {:induction false} DeleteSlideKeepsDistinct(deck: Deck, id: string)
    requires DistinctIds(deck)
    ensures DistinctIds(DeleteSlide(deck, id))
  {
    if deck != [] {
      var tail := deck[1..];
      TailDistinct(deck);
      DeleteSlideKeepsDistinct(tail, id);
      if deck[0].id != id {
        HeadIdFresh(deck);
        ConsDistinct(deck[0], DeleteSlide(tail, id));
      }
    }
  }

  /** With distinct ids, deleting a slide by its id is removing that one position. */
  lemma DeleteSlideAt(deck: Deck, i: nat)
    requires DistinctIds(deck) && i < |deck|
    ensures DeleteSlide(deck, deck[i].id) == deck[..i] + deck[i + 1..]
  {
    var id := deck[i].id;
    var before, after := deck[..i], deck[i + 1..];
    SplitAround(deck, i);
    DeleteSlideConcat(before, [deck[i]] + after, id);
    DeleteSlideConcat([deck[i]], after, id);
    forall j | 0 <= j < |before| ensures before[j].id != id {
      assert before[j] == deck[j];
    }
    forall j | 0 <= j < |after| ensures after[j].id != id {
      assert after[j] == deck[i + 1 + j];
    }
    assert DeleteSlide([deck[i]], id) == [];
  }

  /** A deck is the slides before position i, the slide at i and the slides after it. */
  lemma SplitAround(deck: Deck, i: nat)
    requires i < |deck|
    ensures deck == deck[..i] + ([deck[i]] + deck[i + 1..])
  {
    assert deck[i..] == [deck[i]] + deck[i + 1..];
    assert deck == deck[..i] + deck[i..];
  }

  /** Deleting by id works slide by slide: on a joined deck it is the join of the two results. */
  lemma {:induction false} DeleteSlideConcat(a: Deck, b: Deck, id: string)
    ensures DeleteSlide(a + b, id) == DeleteSlide(a, id) + DeleteSlide(b, id)
  {
    if a == [] {
      assert a + b == b;
    } else {
      assert (a + b)[1..] == a[1..] + b;
      DeleteSlideConcat(a[1..], b, id);
    }
  }

  // ---------------------------------------------------------------------------
  // Deleting an image, then pruning empty slides

  /** images.filter(img => img.id !== imgId) */
  function RemoveImage(images: seq<CroppedImage>, imgId: string): (r: seq<CroppedImage>)
    ensures forall x :: x in r <==> x in images && x.id != imgId
    ensures |r| <= |images|
    ensures (forall j :: 0 <= j < |images| ==> images[j].id != imgId) ==> r == images
  {
    if images == [] then []
    else
      var rest := RemoveImage(images[1..], imgId);
      assert images == [images[0]] + images[1..];
      if images[0].id == imgId then rest else [images[0]] + rest
  }

  /** Each image with another id survives as often as it occurred; the deleted id never does. */
  lemma {:induction false} RemoveImageCounts(images: seq<CroppedImage>, imgId: string, x: CroppedImage)
    ensures multiset(RemoveImage(images, imgId))[x] == if x.id == imgId then 0 else multiset(images)[x]
  {
    if images != [] {
      var rest := RemoveImage(images[1..], imgId);
      RemoveImageCounts(images[1..], imgId, x);
      assert images == [images[0]] + images[1..];
      assert multiset(images) == multiset{images[0]} + multiset(images[1..]);
      if images[0].id != imgId {
        assert RemoveImage(images, imgId) == [images[0]] + rest;
        assert multiset([images[0]] + rest) == multiset{images[0]} + multiset(rest);
      }
    }
  }

  /** One image is kept exactly when its id differs. */
  lemma RemoveImageOne(x: CroppedImage, imgId: string)
    ensures RemoveImage([x], imgId) == if x.id == imgId then [] else [x]
  {
    assert [x][1..] == [];
  }

  /** The image filter distributes over concatenation, so the survivors keep their order. */
  lemma {:induction false} RemoveImageConcat(a: seq<CroppedImage>, b: seq<CroppedImage>, imgId: string)
    ensures RemoveImage(a + b, imgId) == RemoveImage(a, imgId) + RemoveImage(b, imgId)
  {
    if a == [] {
      assert a + b == b;
    } else {
      assert (a + b)[1..] == a[1..] + b;
      RemoveImageConcat(a[1..], b, imgId);
    }
  }

  /** The mapping step on one slide: only the named slide loses the image, and it keeps its id. */
  function StripImage(slide: SlideData, slideId: string, imgId: string): (r: SlideData)
    ensures r.id == slide.id && |r.images| <= |slide.images|
    ensures slide.id != slideId ==> r == slide
    ensures slide.id == slideId ==> forall x :: x in r.images <==> x in slide.images && x.id != imgId
    ensures slide.id == slideId ==> r == slide.(images := RemoveImage(slide.images, imgId))
  {
    if slide.id != slideId then slide else slide.(images := RemoveImage(slide.images, imgId))
  }

  /** deck.filter(slide => slide.images.length > 0) */
  function DropEmpty(deck: Deck): (r: Deck)
    ensures forall s :: s in r <==> s in deck && |s.images| > 0
    ensures forall j :: 0 <= j < |r| ==> |r[j].images| > 0
    ensures |r| <= |deck|
  {
    if deck == [] then []
    else
      var rest := DropEmpty(deck[1..]);
      assert deck == [deck[0]] + deck[1..];
      if |deck[0].images| == 0 then rest else [deck[0]] + rest
  }

  /** Keeping only the non-empty slides, in order, keeps their ids distinct. */
  lemma {:induction false} DropEmptyKeepsDistinct(deck: Deck)
    requires DistinctIds(deck)
    ensures DistinctIds(DropEmpty(deck))
  {
    if deck != [] {
      var tail := deck[1..];
      TailDistinct(deck);
      DropEmptyKeepsDistinct(tail);
      if |deck[0].images| > 0 {
        HeadIdFresh(deck);
        ConsDistinct(deck[0], DropEmpty(tail));
      }
    }
  }

  /**
   * The mapping step on the deck: every slide stays in its place with its id, slides with
   * another id are untouched, and the named slide keeps, in order, its images with another id.
   */
  function StripAll(deck: Deck, slideId: string, imgId: string): (r: Deck)
    ensures |r| == |deck|
    ensures forall j :: 0 <= j < |deck| ==> r[j].id == deck[j].id && |r[j].images| <= |deck[j].images|
    ensures forall j :: 0 <= j < |deck| && deck[j].id != slideId ==> r[j] == deck[j]
    ensures forall j, x :: 0 <= j < |deck| && deck[j].id == slideId ==>
              (x in r[j].images <==> x in deck[j].images && x.id != imgId)
    ensures forall j :: 0 <= j < |deck| && deck[j].id == slideId ==>
              r[j] == deck[j].(images := RemoveImage(deck[j].images, imgId))
  {
    seq(|deck|, j requires 0 <= j < |deck| => StripImage(deck[j], slideId, imgId))
  }

  /** The image leaves the named slide, and every slide left without images leaves the deck. */
  function DeleteImage(deck: Deck, slideId: string, imgId: string): (r: Deck)
    ensures forall j :: 0 <= j < |r| ==> |r[j].images| > 0
    ensures |r| <= |deck|
    ensures forall s :: s in deck && s.id != slideId && |s.images| > 0 ==> s in r
    ensures forall s :: s in r && s.id != slideId ==> s in deck
  {
    var mapped := StripAll(deck, slideId, imgId);
    forall s | s in deck && s.id != slideId && |s.images| > 0 ensures s in mapped {
      var j :| 0 <= j < |deck| && deck[j] == s;
      assert mapped[j] == s;
    }
    forall s | s in mapped && s.id != slideId ensures s in deck {
      var j :| 0 <= j < |mapped| && mapped[j] == s;
      assert deck[j].id == s.id;
    }
    DropEmpty(mapped)
  }

  /** Deleting an image never adds one to a slide, so a well-sized deck stays well sized. */
  lemma DeleteImageKeepsWellSized(deck: Deck, slideId: string, imgId: string)
    requires WellSized(deck)
    ensures WellSized(DeleteImage(deck, slideId, imgId))
  {
    var mapped := StripAll(deck, slideId, imgId);
    var r := DeleteImage(deck, slideId, imgId);
    forall j | 0 <= j < |r| ensures 1 <= |r[j].images| <= 2 {
      assert r[j] in mapped;
      var k :| 0 <= k < |mapped| && mapped[k] == r[j];
      assert |mapped[k].images| <= |deck[k].images|;
    }
  }

  /** Deleting an image renames no slide, so the slide ids stay distinct. */
  lemma DeleteImageKeepsDistinct(deck: Deck, slideId: string, imgId: string)
    requires DistinctIds(deck)
    ensures DistinctIds(DeleteImage(deck, slideId, imgId))
  {
    var mapped := StripAll(deck, slideId, imgId);
    SameIdsDistinct(deck, mapped);
    DropEmptyKeepsDistinct(mapped);
  }

  /** With distinct ids, the mapping step changes only the named slide's position. */
  lemma StripAllAround(deck: Deck, i: nat, imgId: string)
    requires DistinctIds(deck) && i < |deck|
    ensures StripAll(deck, deck[i].id, imgId)
            == deck[..i] + [StripImage(deck[i], deck[i].id, imgId)] + deck[i + 1..]
  {
    var mapped := StripAll(deck, deck[i].id, imgId);
    assert mapped == deck[..i] + [mapped[i]] + deck[i + 1..];
  }

  /**
   * On a deck without empty slides and with distinct ids, deleting an image touches only the
   * named slide: it keeps its place with the image gone, or leaves the deck if that was its last image.
   */
  lemma {:induction false} DeleteImageAt(deck: Deck, i: nat, imgId: string)
    requires DistinctIds(deck) && i < |deck|
    requires forall j :: 0 <= j < |deck| ==> |deck[j].images| > 0
    ensures var remaining := RemoveImage(deck[i].images, imgId);
            DeleteImage(deck, deck[i].id, imgId)
            == deck[..i] + (if remaining == [] then [] else [deck[i].(images := remaining)]) + deck[i + 1..]
  {
    var id := deck[i].id;
    var mapped := StripAll(deck, id, imgId);
    var remaining := RemoveImage(deck[i].images, imgId);
    var middle := if remaining == [] then [] else [deck[i].(images := remaining)];
    StripAllAround(deck, i, imgId);
    DropEmptyKeeps(deck[..i]);
    DropEmptyKeeps(deck[i + 1..]);
    DropEmptyAppend(deck[..i], [mapped[i]]);
    DropEmptyAppend(deck[..i] + [mapped[i]], deck[i + 1..]);
    assert DropEmpty([mapped[i]]) == middle by {
      assert [mapped[i]][1..] == [];
    }
  }

  lemma {:induction false} DropEmptyKeeps(deck: Deck)
    requires forall j :: 0 <= j < |deck| ==> |deck[j].images| > 0
    ensures DropEmpty(deck) == deck
  {
    if deck != [] {
      var tail := deck[1..];
      forall j | 0 <= j < |tail| ensures |tail[j].images| > 0 {
        assert tail[j] == deck[j + 1];
      }
      DropEmptyKeeps(tail);
      assert DropEmpty(deck) == [deck[0]] + DropEmpty(tail);
      assert deck == [deck[0]] + tail;
    }
  }

  lemma {:induction false} DropEmptyAppend(a: Deck, b: Deck)
    ensures DropEmpty(a + b) == DropEmpty(a) + DropEmpty(b)
  {
    if a == [] {
      assert a + b == b;
    } else {
      assert (a + b)[1..] == a[1..] + b;
      DropEmptyAppend(a[1..], b);
    }
  }

  /** The last image of a slide deleted: the slide is gone and the rest keep their order. */
  lemma DeleteLastImageRemovesSlide(deck: Deck, i: nat)
    requires DistinctIds(deck) && i < |deck| && WellSized(deck)
    requires |deck[i].images| == 1
    ensures DeleteImage(deck, deck[i].id, deck[i].images[0].id) == deck[..i] + deck[i + 1..]
  {
    var img := deck[i].images[0];
    assert RemoveImage(deck[i].images, img.id) == [] by {
      assert RemoveImage(deck[i].images[1..], img.id) == [];
    }
    DeleteImageAt(deck, i, img.id);
  }

  // ---------------------------------------------------------------------------
  // Merging a slide into the one above it

  datatype MergeOutcome =
    | NoPreviousSlide      // unknown id, or the first slide
    | CapacityExceeded     // the two slides hold more than two images together
    | Merged(deck: Deck)

  /** The largest number of images a slide may hold after a merge. */
  const MaxImagesPerSlide: nat := 2

  /** Whether merging the slide at index into its predecessor passes the capacity check. */
  predicate CanMerge(deck: Deck, index: int)
  {
    0 < index < |deck| && |deck[index - 1].images| + |deck[index].images| <= MaxImagesPerSlide
  }

  /** The previous slide with the current slide's images appended to its own. */
  function Combined(prev: SlideData, cur: SlideData): SlideData
  {
    prev.(images := prev.images + cur.images)
  }

  /** The copy-and-splice of a merge that passed its checks. */
  function MergeAt(deck: Deck, index: int): (r: Deck)
    requires CanMerge(deck, index)
    ensures r == deck[..index - 1] + [Combined(deck[index - 1], deck[index])] + deck[index + 1..]
  {
    var copy := deck[index - 1 := Combined(deck[index - 1], deck[index])];
    RemoveOne(copy, index);
    assert copy[..index] == deck[..index - 1] + [Combined(deck[index - 1], deck[index])];
    assert copy[index + 1..] == deck[index + 1..];
    Splice(copy, index, 1, [])
  }

  /**
   * The merge: the previous slide keeps its id and gets its own images followed by the current
   * slide's, and the current slide is spliced out.
   */
  function MergeUp(deck: Deck, slideId: string): (r: MergeOutcome)
    ensures var index := FindIndex(deck, slideId);
            && (r.NoPreviousSlide? <==> index <= 0)
            && (r.CapacityExceeded? <==> index > 0 && !CanMerge(deck, index))
            && (r.Merged? <==> CanMerge(deck, index))
    ensures r.Merged? ==>
              var index := FindIndex(deck, slideId);
              r.deck == deck[..index - 1] + [Combined(deck[index - 1], deck[index])] + deck[index + 1..]
  {
    var index := FindIndex(deck, slideId);
    if index <= 0 then NoPreviousSlide
    else if |deck[index - 1].images| + |deck[index].images| > MaxImagesPerSlide then CapacityExceeded
    else Merged(MergeAt(deck, index))
  }

  /**
   * After a merge the previous slide keeps its id and holds its own images followed by the
   * current slide's; the current slide is gone and every other slide is where it was.
   */
  lemma MergeUpShape(deck: Deck, slideId: string)
    requires MergeUp(deck, slideId).Merged?
    ensures var index := FindIndex(deck, slideId);
            var r := MergeUp(deck, slideId).deck;
            && |r| == |deck| - 1
            && r[..index - 1] == deck[..index - 1]
            && r[index - 1].id == deck[index - 1].id
            && r[index - 1].images == deck[index - 1].images + deck[index].images
            && r[index..] == deck[index + 1..]
  {
    var index := FindIndex(deck, slideId);
    var r := MergeUp(deck, slideId).deck;
    assert r[..index - 1] == deck[..index - 1];
    assert r[index..] == deck[index + 1..];
  }

  /** A merge never makes a slide hold more than two images, so a well-sized deck stays well sized. */
  lemma MergeUpKeepsWellSized(deck: Deck, slideId: string)
    requires WellSized(deck) && MergeUp(deck, slideId).Merged?
    ensures WellSized(MergeUp(deck, slideId).deck)
  {
    var index := FindIndex(deck, slideId);
    var r := MergeUp(deck, slideId).deck;
    forall j | 0 <= j < |r| ensures 1 <= |r[j].images| <= 2 {
      if j < index - 1 {
        assert r[j] == deck[..index - 1][j];
      } else if j >= index {
        assert r[j] == deck[index + 1..][j - index];
      }
    }
  }

  /** The combined slide keeps the previous slide's id and the merged one leaves, so the ids stay distinct. */
  lemma MergeUpKeepsDistinct(deck: Deck, slideId: string)
    requires DistinctIds(deck) && MergeUp(deck, slideId).Merged?
    ensures DistinctIds(MergeUp(deck, slideId).deck)
  {
    var index := FindIndex(deck, slideId);
    var r := MergeUp(deck, slideId).deck;
    var a := deck[..index] + deck[index + 1..];
    DropIndexDistinct(deck, index);
    forall k | 0 <= k < |a| ensures a[k].id == r[k].id {
      if k < index - 1 {
        assert r[k] == deck[..index - 1][k];
      } else if k >= index {
        assert r[k] == deck[index + 1..][k - index];
      }
    }
    SameIdsDistinct(a, r);
  }

  /** A merge that passes both checks is the copy, overwrite and splice at the slide's index. */
  lemma MergeUpIsCopyAndSplice(deck: Deck, slideId: string)
    requires CanMerge(deck, FindIndex(deck, slideId))
    ensures var index := FindIndex(deck, slideId);
            MergeUp(deck, slideId) == Merged(Splice(deck[index - 1 := Combined(deck[index - 1], deck[index])], index, 1, []))
    ensures WellSized(deck) ==> WellSized(MergeUp(deck, slideId).deck)
  {
    if WellSized(deck) {
      MergeUpKeepsWellSized(deck, slideId);
    }
  }

  /** A merge moves images between slides and never loses or duplicates one. */
  lemma MergeUpPreservesImages(deck: Deck, slideId: string)
    requires MergeUp(deck, slideId).Merged?
    ensures TotalImages(MergeUp(deck, slideId).deck) == TotalImages(deck)
  {
    var index := FindIndex(deck, slideId);
    var r := MergeUp(deck, slideId).deck;
    var prev, cur := deck[index - 1], deck[index];
    var merged := prev.(images := prev.images + cur.images);
    assert deck == deck[..index - 1] + [prev, cur] + deck[index + 1..];
    assert r == deck[..index - 1] + [merged] + deck[index + 1..];
    TotalImagesAppend(deck[..index - 1] + [prev, cur], deck[index + 1..]);
    TotalImagesAppend(deck[..index - 1], [prev, cur]);
    TotalImagesAppend(deck[..index - 1] + [merged], deck[index + 1..]);
    TotalImagesAppend(deck[..index - 1], [merged]);
    assert TotalImages([prev, cur]) == |prev.images| + |cur.images| by {
      assert [prev, cur][1..] == [cur];
      assert [cur][1..] == [];
    }
    assert TotalImages([merged]) == |merged.images| by {
      assert [merged][1..] == [];
    }
  }

  // ---------------------------------------------------------------------------
  // Reordering by drag and drop

  /**
   * Splice the slide out at dragIndex, then splice it back in at hoverIndex of the shortened
   * deck; None when there is no slide at dragIndex.
   */
  function Reorder(deck: Deck, dragIndex: int, hoverIndex: int): (r: Option<Deck>)
    ensures r.Some? <==> 0 <= dragIndex < |deck|
    ensures r.Some? ==>
              && |r.value| == |deck|
              && multiset(r.value) == multiset(deck)
              && r.value[SpliceStart(hoverIndex, |deck| - 1)] == deck[dragIndex]
  {
    if !(0 <= dragIndex < |deck|) then None
    else
      var dragged := deck[dragIndex];
      var removed := Splice(deck, dragIndex, 1, []);
      RemoveOne(deck, dragIndex);
      InsertOne(removed, hoverIndex, dragged);
      Some(Splice(removed, hoverIndex, 0, [dragged]))
  }

  /** Taking the moved slide back out of the result gives the other slides in their old order. */
  lemma ReorderKeepsOthersInOrder(deck: Deck, dragIndex: nat, hoverIndex: int)
    requires dragIndex < |deck|
    ensures var moved := Reorder(deck, dragIndex, hoverIndex).value;
            var pos := SpliceStart(hoverIndex, |deck| - 1);
            moved[..pos] + moved[pos + 1..] == deck[..dragIndex] + deck[dragIndex + 1..]
  {
    var removed := Splice(deck, dragIndex, 1, []);
    RemoveOne(deck, dragIndex);
    InsertOne(removed, hoverIndex, deck[dragIndex]);
    var pos := SpliceStart(hoverIndex, |deck| - 1);
    CutOutInserted(removed, deck[dragIndex], pos);
  }

  /** A reorder moves a slide without renaming any, so the ids stay distinct. */
  lemma ReorderKeepsDistinct(deck: Deck, dragIndex: nat, hoverIndex: int)
    requires DistinctIds(deck) && dragIndex < |deck|
    ensures DistinctIds(Reorder(deck, dragIndex, hoverIndex).value)
  {
    var removed := Splice(deck, dragIndex, 1, []);
    RemoveOne(deck, dragIndex);
    InsertOne(removed, hoverIndex, deck[dragIndex]);
    DropIndexDistinct(deck, dragIndex);
    InsertDistinct(removed, deck[dragIndex], SpliceStart(hoverIndex, |removed|));
  }

  lemma CutOutInserted<T>(a: seq<T>, x: T, p: nat)
    requires p <= |a|
    ensures var m := a[..p] + [x] + a[p..]; m[..p] + m[p + 1..] == a
  {
    var m := a[..p] + [x] + a[p..];
    assert m[..p] == a[..p];
    assert m[p + 1..] == a[p..];
    assert a[..p] + a[p..] == a;
  }

  /** Dropping a slide back onto its own index leaves the deck as it was. */
  lemma ReorderOntoItself(deck: Deck, i: nat)
    requires i < |deck|
    ensures Reorder(deck, i, i) == Some(deck)
  {
    RemoveOne(deck, i);
    InsertOne(deck[..i] + deck[i + 1..], i, deck[i]);
    assert (deck[..i] + deck[i + 1..])[..i] == deck[..i];
    assert (deck[..i] + deck[i + 1..])[i..] == deck[i + 1..];
    assert deck[..i] + [deck[i]] + deck[i + 1..] == deck;
  }

  /** The worked example: [A, B, C] with the first slide dropped on index 2 becomes [B, C, A]. */
  lemma ReorderExample(a: SlideData, b: SlideData, c: SlideData)
    ensures Reorder([a, b, c], 0, 2) == Some([b, c, a])
  {
    assert Splice([a, b, c], 0, 1, []) == [b, c] by {
      assert [a, b, c][..0] + [] + [a, b, c][1..] == [b, c];
    }
    assert Splice([b, c], 2, 0, [a]) == [b, c, a] by {
      assert [b, c][..2] + [a] + [b, c][2..] == [b, c, a];
    }
  }

  /** Reordering keeps every slide's size, so it keeps a well-sized deck well sized. */
  lemma ReorderKeepsWellSized(deck: Deck, dragIndex: int, hoverIndex: int)
    requires WellSized(deck) && 0 <= dragIndex < |deck|
    ensures WellSized(Reorder(deck, dragIndex, hoverIndex).value)
  {
    var moved := Reorder(deck, dragIndex, hoverIndex).value;
    forall j | 0 <= j < |moved| ensures 1 <= |moved[j].images| <= 2 {
      assert moved[j] in multiset(deck);
      var k :| 0 <= k < |deck| && deck[k] == moved[j];
    }
  }
}
