/**
 * The editor state of App.tsx: the loaded documents, the per-document view settings, the
 * deck of slides and its undo log, and the handlers that change them.
 */
module App {
  import opened Types
  import opened JsArray
  import opened DeckEdits
  import History

  /** At most this many documents are open at once. */
  const MaxPdfs: nat := 3

  /** The export file name the workspace starts with and returns to when emptied. */
  const DefaultFileName: string := "presentation"

  /** A loaded document as the editor sees it; the parsed document itself is external. */
  datatype PdfMetadata = PdfMetadata(fileName: string, id: string)

  /** The view settings remembered per document. */
  datatype PdfSettings = PdfSettings(zoom: real, rotation: int, renderScale: real, currentPage: int)

  /** What a document that has no stored settings is shown with. */
  const DefaultSettings: PdfSettings := PdfSettings(1.0, 0, 2.0, 1)

  /** One setting to overwrite, with its new value. */
  datatype SettingUpdate =
    | ZoomTo(zoom: real)
    | RotationTo(rotation: int)
    | RenderScaleTo(renderScale: real)
    | PageTo(page: int)

  /** The stored settings of a document, or the defaults when it has none. */
  function SettingsFor(settings: map<int, PdfSettings>, index: int): PdfSettings
  {
    if index in settings then settings[index] else DefaultSettings
  }

  /** The settings with exactly one field overwritten. */
  function WithSetting(s: PdfSettings, u: SettingUpdate): (r: PdfSettings)
    ensures u.ZoomTo? ==> r.zoom == u.zoom && r.(zoom := s.zoom) == s
    ensures u.RotationTo? ==> r.rotation == u.rotation && r.(rotation := s.rotation) == s
    ensures u.RenderScaleTo? ==> r.renderScale == u.renderScale && r.(renderScale := s.renderScale) == s
    ensures u.PageTo? ==> r.currentPage == u.page && r.(currentPage := s.currentPage) == s
  {
    match u
    case ZoomTo(z) => s.(zoom := z)
    case RotationTo(d) => s.(rotation := d)
    case RenderScaleTo(k) => s.(renderScale := k)
    case PageTo(p) => s.(currentPage := p)
  }

  /** The key, before a removal at index, of what sits at key k after it. */
  function Origin(k: int, index: int): (o: int)
    ensures o != index && (o == k || o == k + 1)
  {
    if k < index then k else k + 1
  }

  /** The key, after a removal at index, of what sat at key k (k != index) before it. */
  function Target(k: int, index: int): (t: int)
    requires k != index
    ensures Origin(t, index) == k
  {
    if k < index then k else k - 1
  }

  /**
   * The settings map after the document at index is removed: keys below it stay, keys above it
   * move down by one, its own key is gone.
   */
  ghost predicate ShiftedDown(before: map<int, PdfSettings>, after: map<int, PdfSettings>, index: int)
  {
    && (forall k :: k in after ==> Origin(k, index) in before && after[k] == before[Origin(k, index)])
    && (forall k :: k in before && k != index ==> Target(k, index) in after)
  }

  /** The settings cleanup of a document removal: one pass over the stored entries. */
  method ReindexSettings(settings: map<int, PdfSettings>, index: int) returns (r: map<int, PdfSettings>)
    ensures ShiftedDown(settings, r, index)
  {
    r := map[];
    var pending := settings.Keys;
    while pending != {}
      invariant pending <= settings.Keys
      invariant forall k :: k in r ==> Origin(k, index) in settings && Origin(k, index) !in pending
                                       && r[k] == settings[Origin(k, index)]
      invariant forall k :: k in settings && k !in pending && k != index ==> Target(k, index) in r
      decreases pending
    {
      SomeKey(pending);
      var key :| key in pending;
      if key < index {
        r := r[key := settings[key]];
      } else if key > index {
        r := r[key - 1 := settings[key]];
      }
      pending := pending - {key};
    }
  }

  /** A non-empty key set has a key to pick. */
  lemma SomeKey(keys: set<int>)
    requires keys != {}
    ensures exists k :: k in keys
  {
    if forall k :: k !in keys {
      assert false;
    }
  }

  /** Whether the upload handlers accept another document next to documentCount open ones. */
  predicate UploadAllowed(documentCount: nat)
  {
    !(documentCount >= MaxPdfs)
  }

  /** Whether an open document already has this file name. */
  predicate NameTaken(docs: seq<PdfMetadata>, name: string)
  {
    exists k :: 0 <= k < |docs| && docs[k].fileName == name
  }

  /** No two open documents share a file name. */
  ghost predicate DistinctNames(docs: seq<PdfMetadata>)
  {
    forall i, j :: 0 <= i < j < |docs| ==> docs[i].fileName != docs[j].fileName
  }

  /** The documents without the one at index (prev.filter((_, i) => i !== index)). */
  function RemoveDocument(docs: seq<PdfMetadata>, index: int): (r: seq<PdfMetadata>)
    ensures 0 <= index < |docs| ==> |r| == |docs| - 1
    ensures !(0 <= index < |docs|) ==> r == docs
    ensures forall k :: 0 <= k < |r| ==> r[k] == if 0 <= index <= k then docs[k + 1] else docs[k]
  {
    if 0 <= index < |docs| then docs[..index] + docs[index + 1..] else docs
  }

  /** The active index after a removal leaves `remaining` documents: pulled back inside the list if past it. */
  function ClampedActive(active: int, remaining: nat): (a: int)
    ensures remaining > 0 && active >= 0 ==> 0 <= a < remaining || a == active
    ensures remaining > 0 && 0 <= active ==> a <= active && (a == active || a == remaining - 1)
    ensures remaining > 0 && active >= remaining ==> a == remaining - 1
    ensures !(remaining > 0 && active >= remaining) ==> a == active
  {
    if active >= remaining && remaining > 0 then remaining - 1 else active
  }

  /**
   * Which document is active after a removal. The index is not shifted when an earlier tab is
   * closed, so the active tab then moves on to the document that followed it, while that
   * document's settings move down with it.
   */
  lemma ActiveAfterRemoval(docs: seq<PdfMetadata>, active: nat, index: nat)
    requires index < |docs| && active < |docs| && |docs| > 1
    ensures var remaining := RemoveDocument(docs, index);
            var a := ClampedActive(active, |remaining|);
            && 0 <= a < |remaining|
            && (index > active ==> remaining[a] == docs[active])
            && (index <= active && active + 1 < |docs| ==> a == active && remaining[a] == docs[active + 1])
            && (index < active && active + 1 == |docs| ==> remaining[a] == docs[active])
            && (index == active && active + 1 == |docs| ==> remaining[a] == docs[active - 1])
  {
  }

  /** Closing the first of three tabs while the second is shown puts the third document on view. */
  lemma ActiveSwitchesDocument(docs: seq<PdfMetadata>)
    requires |docs| == 3 && DistinctNames(docs)
    ensures var remaining := RemoveDocument(docs, 0);
            var a := ClampedActive(1, |remaining|);
            remaining[a] == docs[2] && remaining[a] != docs[1]
  {
    assert docs[1].fileName != docs[2].fileName;
  }

  /**
   * The active index that keeps the shown document after a removal: closing a tab before the
   * active one moves the index down with its document; otherwise the clamp applies.
   */
  function ShiftedActive(active: int, index: int, remaining: nat): (a: int)
    ensures remaining > 0 && 0 <= index && 0 <= active <= remaining ==> 0 <= a < remaining
    ensures 0 <= index < active ==> a == active - 1
    ensures !(0 <= index < active) ==> a == ClampedActive(active, remaining)
  {
    if 0 <= index < active then active - 1 else ClampedActive(active, remaining)
  }

  /**
   * With the shifted index, closing any tab other than the active one keeps the same document
   * on view, and closing the active tab shows its successor, or its predecessor at the end.
   */
  lemma ShiftedActiveKeepsDocument(docs: seq<PdfMetadata>, active: nat, index: nat)
    requires index < |docs| && active < |docs| && |docs| > 1
    ensures var remaining := RemoveDocument(docs, index);
            var a := ShiftedActive(active, index, |remaining|);
            && 0 <= a < |remaining|
            && (index != active ==> remaining[a] == docs[active])
            && (index == active && active + 1 < |docs| ==> remaining[a] == docs[active + 1])
            && (index == active && active + 1 == |docs| ==> remaining[a] == docs[active - 1])
  {
  }

  /** The document removal and the settings cleanup agree: after a removal, each remaining key holds the settings of the document now shown at that key. */
  lemma SettingsFollowDocuments(docs: seq<PdfMetadata>, before: map<int, PdfSettings>,
                                after: map<int, PdfSettings>, index: nat, k: nat)
    requires index < |docs| && ShiftedDown(before, after, index)
    requires k < |docs| - 1
    ensures var remaining := RemoveDocument(docs, index);
            remaining[k] == docs[Origin(k, index)] && SettingsFor(after, k) == SettingsFor(before, Origin(k, index))
  {
  }

  /**
   * The merge computed by the editor's merge handler: find the slide, refuse when it is the
   * first or the two slides hold more than two images together, otherwise copy the deck,
   * overwrite the slide above with the combined slide and splice the merged one out.
   */
  method MergeSlides(slides: Deck, slideId: string) returns (outcome: MergeOutcome)
    ensures outcome == MergeUp(slides, slideId)
  {
    var index := FindIndex(slides, slideId);
    if index <= 0 {
      return NoPreviousSlide;
    }
    var currentSlide := slides[index];
    var prevSlide := slides[index - 1];
    if |prevSlide.images| + |currentSlide.images| > MaxImagesPerSlide {
      return CapacityExceeded;
    }
    var mergedSlide := prevSlide.(images := prevSlide.images + currentSlide.images);
    var newSlides := slides;
    newSlides := newSlides[index - 1 := mergedSlide];
    newSlides := Splice(newSlides, index, 1, []);
    MergeUpIsCopyAndSplice(slides, slideId);
    outcome := Merged(newSlides);
  }

  /** A deck the log may hold: every slide has one or two images, and no two slides share an id. */
  ghost predicate Snapshot(deck: Deck)
  {
    WellSized(deck) && DistinctIds(deck)
  }

  class Workspace {
    var pdfDocuments: seq<PdfMetadata>
    var activePdfIndex: int
    var pdfSettings: map<int, PdfSettings>
    var slides: Deck
    var fileName: string
    var history: seq<Deck>
    var historyIndex: nat

    /** The undo log held in the two fields history and historyIndex. */
    ghost function Log(): History.History
      reads this
    {
      History.History(history, historyIndex)
    }

    /**
     * The cursor is inside the log, the first snapshot is the empty deck, the shown deck is the
     * snapshot under the cursor, and in no snapshot is a slide empty, holds more than two images
     * or shares its id with another slide.
     */
    ghost predicate Valid()
      reads this
    {
      && History.Valid(Log())
      && slides == History.Current(Log())
      && (forall k :: 0 <= k < |history| ==> Snapshot(history[k]))
    }

    /** The name of the active document, when the active index designates one. */
    function ActivePdfName(): (name: Option<string>)
      reads this
      ensures name.Some? <==> 0 <= activePdfIndex < |pdfDocuments|
      ensures name.Some? ==> name.value == pdfDocuments[activePdfIndex].fileName
    {
      if 0 <= activePdfIndex < |pdfDocuments| then Some(pdfDocuments[activePdfIndex].fileName) else None
    }

    /** The settings the cropper shows for the active document. */
    function GetCurrentPdfSettings(): (s: PdfSettings)
      reads this
      ensures activePdfIndex in pdfSettings ==> s == pdfSettings[activePdfIndex]
      ensures activePdfIndex !in pdfSettings ==> s == DefaultSettings
    {
      SettingsFor(pdfSettings, activePdfIndex)
    }

    constructor ()
      ensures Valid()
      ensures Log() == History.Initial() && slides == []
      ensures pdfDocuments == [] && activePdfIndex == 0 && pdfSettings == map[]
      ensures fileName == DefaultFileName
    {
      pdfDocuments := [];
      activePdfIndex := 0;
      pdfSettings := map[];
      slides := [];
      fileName := DefaultFileName;
      history := [[]];
      historyIndex := 0;
    }

    /** Drop the snapshots after the cursor, append the new deck and move the cursor onto it. */
    method AddToHistory(newSlides: Deck)
      requires historyIndex < |history|
      requires forall k :: 0 <= k < |history| ==> Snapshot(history[k])
      requires Snapshot(newSlides)
      modifies this`history, this`historyIndex
      ensures Log() == History.Push(old(Log()), newSlides)
      ensures forall k :: 0 <= k < |history| ==> Snapshot(history[k])
    {
      var newHistory := history[..historyIndex + 1];
      newHistory := newHistory + [newSlides];
      history := newHistory;
      historyIndex := |newHistory| - 1;
    }

    /** One step back in the log; nothing happens at the first snapshot. */
    method Undo()
      requires Valid()
      modifies this`historyIndex, this`slides
      ensures Valid()
      ensures Log() == History.Undo(old(Log()))
      ensures old(historyIndex) == 0 ==> slides == old(slides)
    {
      if historyIndex > 0 {
        var newIndex := historyIndex - 1;
        historyIndex := newIndex;
        slides := history[newIndex];
      }
    }

    /** A finished crop becomes a new last slide holding only that image, tagged with its source. */
    method HandleCropComplete(image: CroppedImage, pageNumber: Option<int>, newSlideId: string)
      requires Valid()
      requires forall k :: 0 <= k < |slides| ==> slides[k].id != newSlideId
      modifies this`slides, this`history, this`historyIndex
      ensures Valid()
      ensures slides == AppendCapture(old(slides), newSlideId, TagSource(image, ActivePdfName(), pageNumber))
      ensures Log() == History.Push(old(Log()), slides)
    {
      var imageWithSource := TagSource(image, ActivePdfName(), pageNumber);
      var newSlides := AppendCapture(slides, newSlideId, imageWithSource);
      AppendCaptureKeepsDistinct(slides, newSlideId, imageWithSource);
      AddToHistory(newSlides);
      slides := newSlides;
    }

    /** Remove the slide with this id; an unknown id still records a (same) snapshot. */
    method HandleDeleteSlide(id: string)
      requires Valid()
      modifies this`slides, this`history, this`historyIndex
      ensures Valid()
      ensures slides == DeleteSlide(old(slides), id)
      ensures Log() == History.Push(old(Log()), slides)
    {
      var newSlides := DeleteSlide(slides, id);
      DeleteSlideKeepsWellSized(slides, id);
      DeleteSlideKeepsDistinct(slides, id);
      AddToHistory(newSlides);
      slides := newSlides;
    }

    /** Remove one image from the named slide and prune the slides left empty. */
    method HandleDeleteImage(slideId: string, imgId: string)
      requires Valid()
      modifies this`slides, this`history, this`historyIndex
      ensures Valid()
      ensures slides == DeleteImage(old(slides), slideId, imgId)
      ensures Log() == History.Push(old(Log()), slides)
    {
      var newSlides := DeleteImage(slides, slideId, imgId);
      DeleteImageKeepsWellSized(slides, slideId, imgId);
      DeleteImageKeepsDistinct(slides, slideId, imgId);
      AddToHistory(newSlides);
      slides := newSlides;
    }

    /** Merge the slide into the one above it; a refused merge changes nothing and records nothing. */
    method HandleMergeUp(slideId: string) returns (outcome: MergeOutcome)
      requires Valid()
      modifies this`slides, this`history, this`historyIndex
      ensures Valid()
      ensures outcome == MergeUp(old(slides), slideId)
      ensures outcome.Merged? ==> slides == outcome.deck && Log() == History.Push(old(Log()), slides)
      ensures !outcome.Merged? ==> slides == old(slides) && Log() == old(Log())
    {
      outcome := MergeSlides(slides, slideId);
      if outcome.Merged? {
        MergeUpKeepsWellSized(slides, slideId);
        MergeUpKeepsDistinct(slides, slideId);
        AddToHistory(outcome.deck);
        slides := outcome.deck;
      }
    }

    /** Move the slide at dragIndex to hoverIndex; nothing happens when there is no slide at dragIndex. */
    method HandleReorderSlides(dragIndex: int, hoverIndex: int)
      requires Valid()
      modifies this`slides, this`history, this`historyIndex
      ensures Valid()
      ensures Reorder(old(slides), dragIndex, hoverIndex).None? ==> slides == old(slides) && Log() == old(Log())
      ensures Reorder(old(slides), dragIndex, hoverIndex).Some? ==>
                slides == Reorder(old(slides), dragIndex, hoverIndex).value
                && Log() == History.Push(old(Log()), slides)
    {
      if !(0 <= dragIndex < |slides|) {
        return;
      }
      var dragSlide := slides[dragIndex];
      var newSlides := slides;
      newSlides := Splice(newSlides, dragIndex, 1, []);
      newSlides := Splice(newSlides, hoverIndex, 0, [dragSlide]);
      ReorderKeepsWellSized(slides, dragIndex, hoverIndex);
      ReorderKeepsDistinct(slides, dragIndex, hoverIndex);
      slides := newSlides;
      AddToHistory(newSlides);
    }

    /** Overwrite one view setting of the active document, starting from the defaults if it had none. */
    method UpdatePdfSetting(u: SettingUpdate)
      modifies this`pdfSettings
      ensures pdfSettings == old(pdfSettings)[activePdfIndex := WithSetting(SettingsFor(old(pdfSettings), activePdfIndex), u)]
      ensures GetCurrentPdfSettings() == WithSetting(old(GetCurrentPdfSettings()), u)
    {
      pdfSettings := pdfSettings[activePdfIndex := WithSetting(SettingsFor(pdfSettings, activePdfIndex), u)];
    }

    /** With no document left, the deck, the log, the export name and the settings start afresh. */
    method ResetWorkspace()
      modifies this`slides, this`history, this`historyIndex, this`fileName, this`pdfSettings
      ensures Valid()
      ensures slides == [] && Log() == History.Initial() && fileName == DefaultFileName && pdfSettings == map[]
    {
      slides := [];
      history := [[]];
      historyIndex := 0;
      fileName := DefaultFileName;
      pdfSettings := map[];
    }

    /**
     * A document finished loading and is added as a new tab, which becomes active; the first
     * document also starts a fresh deck.
     */
    method DocumentLoaded(doc: PdfMetadata)
      requires Valid()
      modifies this`pdfDocuments, this`activePdfIndex, this`slides, this`history, this`historyIndex
      ensures Valid()
      ensures pdfDocuments == old(pdfDocuments) + [doc] && activePdfIndex == |old(pdfDocuments)|
      ensures old(pdfDocuments) == [] ==> slides == [] && Log() == History.Initial()
      ensures old(pdfDocuments) != [] ==> slides == old(slides) && Log() == old(Log())
    {
      var wasEmpty := |pdfDocuments| == 0;
      activePdfIndex := |pdfDocuments|;
      pdfDocuments := pdfDocuments + [doc];
      if wasEmpty {
        slides := [];
        history := [[]];
        historyIndex := 0;
      }
    }

    /**
     * A file chosen for upload: refused when it is not a PDF, when the document limit is
     * reached, or when another open document has its name; otherwise the first document names
     * the export, and the document is added once it has loaded.
     */
    method HandleFileChange(isPdf: bool, doc: PdfMetadata, loadSucceeds: bool) returns (added: bool)
      requires Valid()
      modifies this`pdfDocuments, this`activePdfIndex, this`slides, this`history, this`historyIndex, this`fileName
      ensures Valid()
      ensures added <==> isPdf && UploadAllowed(|old(pdfDocuments)|) && !NameTaken(old(pdfDocuments), doc.fileName) && loadSucceeds
      ensures added ==> pdfDocuments == old(pdfDocuments) + [doc] && activePdfIndex == |old(pdfDocuments)|
      ensures !added ==> pdfDocuments == old(pdfDocuments) && activePdfIndex == old(activePdfIndex)
                         && slides == old(slides) && Log() == old(Log())
      ensures fileName == if isPdf && UploadAllowed(|old(pdfDocuments)|) && old(pdfDocuments) == [] then doc.fileName else old(fileName)
      ensures |old(pdfDocuments)| <= MaxPdfs ==> |pdfDocuments| <= MaxPdfs
      ensures DistinctNames(old(pdfDocuments)) ==> DistinctNames(pdfDocuments)
    {
      added := false;
      if !isPdf {
        return;
      }
      if |pdfDocuments| >= MaxPdfs {
        return;
      }
      var isDuplicate := NameTaken(pdfDocuments, doc.fileName);
      if isDuplicate && |pdfDocuments| > 0 {
        return;
      }
      if |pdfDocuments| == 0 {
        fileName := doc.fileName;
      }
      if loadSucceeds {
        DocumentLoaded(doc);
        added := true;
      }
    }

    /**
     * Close the document at index: its settings are dropped and later ones move down; the active
     * index is pulled back inside the list; closing the last document empties the workspace.
     */
    method HandleRemovePdf(index: int)
      requires Valid()
      modifies this
      ensures Valid()
      ensures pdfDocuments == RemoveDocument(old(pdfDocuments), index)
      ensures pdfDocuments == [] ==>
                && slides == [] && Log() == History.Initial() && pdfSettings == map[]
                && fileName == DefaultFileName && activePdfIndex == old(activePdfIndex)
      ensures pdfDocuments != [] ==>
                && ShiftedDown(old(pdfSettings), pdfSettings, index)
                && activePdfIndex == ClampedActive(old(activePdfIndex), |pdfDocuments|)
                && slides == old(slides) && Log() == old(Log()) && fileName == old(fileName)
    {
      var updated := RemoveDocument(pdfDocuments, index);
      var newSettings := ReindexSettings(pdfSettings, index);
      pdfSettings := newSettings;
      if activePdfIndex >= |updated| && |updated| > 0 {
        activePdfIndex := |updated| - 1;
      } else if |updated| == 0 {
        ResetWorkspace();
      }
      pdfDocuments := updated;
    }
  }
}
