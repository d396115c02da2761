# pdf-to-ppt, modelled in Dafny

pdf-to-ppt is a browser tool that builds a slide deck from PDF pages. The teacher opens up to
three PDF documents in tabs. A rectangle dragged over a page becomes a captured image, and each
capture becomes a new slide. Slides can be deleted, reordered by drag and drop, merged with the
slide above (at most two images per slide), and undone step by step. The deck is exported as a
16:9 presentation, with one page per slide.

This project models the logic behind that tool:

- `types.dfy` (module `Types`): the data shapes (`Rect`, `CroppedImage`, `SlideData`). It also
  defines the deck invariants used elsewhere: every slide holds one or two images, and slide
  ids are distinct.
- `js_array.dfy` (module `JsArray`): `Array.prototype.splice` with its argument normalisation.
  The editor's merge and reorder handlers are built on it.
- `deck_edits.dfy` (module `DeckEdits`): the deck transforms behind the editor's handlers, as
  pure functions:
  - appending a capture;
  - deleting a slide;
  - deleting an image, then pruning the slides left empty;
  - merging a slide into the one above;
  - reordering.
- `history.dfy` (module `History`): the undo log as a value. It is a list of deck snapshots
  with a cursor: a push truncates whatever lies after the cursor, and there is no redo.
- `app.dfy` (module `App`): the editor state as the class `Workspace`. Its fields are the
  documents, the active tab, the per-document view settings, the deck, the export name, the
  snapshot list and the cursor. Its handler methods update those fields and are proved against
  the functions above. Its invariant keeps every snapshot well-sized and free of repeated
  slide ids.
- `pdf_cropper.dfy` (module `PdfCropper`): the cropping view.
  - The class `Cropper` holds its page, zoom, rotation and render-scale state.
  - It also holds the press/move/release selection machine.
  - The geometry that maps a selection on screen to raster pixels is written as pure functions.
- `ppt_generator.dfy` (module `PptGenerator`): the export layout.
  - Each slide's page is computed as a list of image placements.
  - The export loop builds one page per slide.
- `slide_list.dfy` (module `SlideList`): the drag state of the slide list and the rule that
  decides when the merge button is offered.
- `pdf_tabs.dfy` (module `PdfTabs`): file-name truncation on tabs, plus the tab-bar and
  add-button conditions.

Coordinates and sizes are Dafny `real`s, so every property is stated over exact arithmetic.
Time, pixels, PDF parsing and UUID generation are outside the model. Page counts, viewport
sizes, pointer positions, container sizes, encoded image data and fresh ids are parameters.

## Model

| member | source | states |
|---|---|---|
| Types.TotalImagesAppend | types.ts:19-22 | The image count of a concatenation of decks is the sum of the parts' counts. |
| JsArray.SpliceStart | App.tsx:349-365 | A splice start is normalised as in JavaScript: a negative start counts from the end, a start past the end becomes the length, and the result is always a valid index. |
| JsArray.RemoveOne | App.tsx:349-363 | `splice(i, 1)` on an index in range removes exactly that element; the multiset loses that one element. |
| JsArray.InsertOne | App.tsx:364 | `splice(start, 0, x)` inserts x at the normalised start and keeps everything else in order; the multiset gains x. |
| DeckEdits.FindIndex | App.tsx:330 | The result is the first index holding the id, or -1 exactly when no slide has it. |
| DeckEdits.FindIndexOfDistinct | App.tsx:330 | With distinct ids, looking up a slide's own id finds that slide's index. |
| DeckEdits.TagSource | App.tsx:287-294 | The stored image is the captured one with the active document's name and the page number attached, and everything else unchanged. |
| DeckEdits.AppendCapture | App.tsx:296-305 | A capture adds exactly one slide at the end, holding only that image. The earlier slides are unchanged, the image count grows by one, and a well-sized deck stays well-sized. |
| DeckEdits.AppendCaptureKeepsDistinct | App.tsx:296-305 | A capture under a slide id that no slide has keeps the slide ids distinct. |
| DeckEdits.DeleteSlide | App.tsx:307-313 | A slide is in the result iff it was in the deck and has a different id. An unknown id leaves the deck as it was. |
| DeckEdits.DeleteSlideKeepsWellSized | App.tsx:307-313 | Deleting slides keeps every remaining slide as it was, so a well-sized deck stays well-sized. |
| DeckEdits.DeleteSlideKeepsDistinct | App.tsx:307-313 | Deleting slides keeps the slide ids distinct. |
| DeckEdits.DeleteSlideAt | App.tsx:307-313 | With distinct ids, deleting by a slide's id removes exactly that position and keeps the rest in order. |
| DeckEdits.DeleteSlideConcat | App.tsx:307-313 | The filter works slide by slide: deleting from two joined decks gives the join of the two results. |
| DeckEdits.RemoveImage | App.tsx:318-319 | An image is kept iff it was present and has a different id; an unknown id changes nothing. |
| DeckEdits.RemoveImageOne | App.tsx:319 | A single image survives the filter exactly when its id differs from the deleted one. |
| DeckEdits.RemoveImageConcat | App.tsx:319 | The filter works image by image: filtering two joined lists gives the join of the two results, so the survivors keep their order. |
| DeckEdits.RemoveImageCounts | App.tsx:319 | An image with another id survives as many times as it occurred, and an image with the deleted id never survives. |
| DeckEdits.StripImage | App.tsx:318-320 | A slide keeps its id and never gains images. A slide with another id is returned unchanged. The named slide keeps exactly those of its images whose id differs from the deleted one, and its images become the filtered list. |
| DeckEdits.DropEmpty | App.tsx:322 | Exactly the slides that still have images survive, so the result has no empty slide. |
| DeckEdits.StripAll | App.tsx:317-321 | The map keeps the deck's length, and each position keeps its slide's id without gaining images. Slides with another id are untouched. At the named slide exactly the images with another id remain, as the filtered list. |
| DeckEdits.StripAllAround | App.tsx:317-321 | With distinct ids, the map changes only the named slide's position, and the slides before and after it stay as they were. |
| DeckEdits.DeleteImage | App.tsx:315-326 | After an image deletion no slide is empty and the deck is no longer. Slides other than the named one that had images are all kept, and nothing foreign appears. |
| DeckEdits.DeleteImageKeepsWellSized | App.tsx:315-326 | Deleting an image never adds one to a slide, and empty slides are pruned, so a well-sized deck stays well-sized. |
| DeckEdits.DeleteImageKeepsDistinct | App.tsx:315-326 | Deleting an image renames no slide, so the slide ids stay distinct. |
| DeckEdits.DeleteImageAt | App.tsx:315-326 | On a deck without empty slides and with distinct ids, only the named slide changes. It stays in place without the image, or disappears if no image is left; the other slides keep their order. |
| DeckEdits.DropEmptyKeeps | App.tsx:322 | Pruning a deck without empty slides changes nothing. |
| DeckEdits.DropEmptyKeepsDistinct | App.tsx:322 | Pruning empty slides keeps the slide ids distinct. |
| DeckEdits.DropEmptyAppend | App.tsx:321 | Pruning distributes over concatenation. |
| DeckEdits.DeleteLastImageRemovesSlide | App.tsx:315-326 | Deleting a slide's only image removes that slide and leaves the others in order. |
| DeckEdits.MergeAt | App.tsx:343-352 | Copy, overwrite and splice give the deck with the two slides replaced by one that holds both slides' images. |
| DeckEdits.MergeUp | App.tsx:329-355 | Three outcomes: refused when the id is missing or names the first slide; refused when the two slides hold more than two images together; merged otherwise. A merge gives the slides before the previous one, then the combined slide, then the slides after the current one. |
| DeckEdits.MergeUpShape | App.tsx:343-352 | After a merge the deck is one shorter. The previous slide keeps its id and holds its own images followed by the current slide's. Every other slide is where it was, shifted up by one after the merged slide. |
| DeckEdits.MergeUpKeepsWellSized | App.tsx:337-352 | A merge never leaves a slide with more than two images, so a well-sized deck stays well-sized. |
| DeckEdits.MergeUpKeepsDistinct | App.tsx:343-352 | The combined slide keeps the previous slide's id and the merged slide leaves, so the slide ids stay distinct. |
| DeckEdits.MergeUpIsCopyAndSplice | App.tsx:343-352 | A merge that passes both checks equals copying the deck, overwriting the previous slide with the combined one and splicing the current slide out. |
| DeckEdits.MergeUpPreservesImages | App.tsx:343-352 | A merge never loses or duplicates an image: the total image count is unchanged. |
| DeckEdits.Reorder | App.tsx:358-367 | Nothing happens without a slide at dragIndex. Otherwise the length and the multiset of slides are kept, and the dragged slide sits at the normalised hoverIndex of the shortened deck. |
| DeckEdits.ReorderKeepsOthersInOrder | App.tsx:362-364 | Cutting the moved slide out of the result gives back the other slides in their old order. |
| DeckEdits.ReorderOntoItself | App.tsx:362-364 | Moving a slide to its own index is the identity. |
| DeckEdits.ReorderExample | App.tsx:362-364 | [A, B, C] with slide 0 dropped at 2 becomes [B, C, A]. |
| DeckEdits.ReorderKeepsWellSized | App.tsx:358-367 | A reorder keeps every slide, so a well-sized deck stays well-sized. |
| DeckEdits.ReorderKeepsDistinct | App.tsx:358-367 | A reorder renames no slide, so the slide ids stay distinct. |
| History.Initial | App.tsx:43-44 | The log starts as one empty deck with the cursor on it, and that is valid. |
| History.Push | App.tsx:266-271 | The snapshots up to the cursor are kept, the new deck is appended, and the cursor points at it. Whatever lay beyond the old cursor is gone. Validity is kept. |
| History.Undo | App.tsx:258-264 | The snapshot list never changes. The cursor steps back by one, except at 0, where nothing changes. |
| History.PushAllExtends | App.tsx:266-271 | k pushes move the cursor k places and keep the snapshots up to the old cursor. |
| History.UndoTimesMovesCursor | App.tsx:258-264 | k undos move the cursor back by k, stopping at 0, and leave the list alone. |
| History.UndoReversesPushes | App.tsx:258-271 | k undos after k pushes show the deck that was current before the pushes. |
| History.NoResurrection | App.tsx:266-271 | After a push, no number of undos reaches a snapshot that lay beyond the cursor before it. |
| App.WithSetting | App.tsx:201-209 | An update overwrites exactly the named setting and keeps the other three. |
| App.Origin | App.tsx:218-227 | After removal at index, key k holds what key k or k + 1 held, and never the removed key. |
| App.Target | App.tsx:218-227 | Every key other than the removed one has a place after the removal, and that place maps back to it. |
| App.ReindexSettings | App.tsx:216-229 | One pass over the stored entries: keys below index stay, keys above move down by one, and the removed document's settings are dropped. Every surviving entry lands on its new key and nothing else appears. |
| App.RemoveDocument | App.tsx:214 | Filtering out index removes one document when index is in range and otherwise nothing; later documents move down by one. |
| App.ClampedActive | App.tsx:232-234 | An active index past the end of a non-empty list becomes the last index; otherwise it is unchanged. |
| App.ActiveSwitchesDocument | App.tsx:230-234 | With three documents shown at index 1, closing the first tab puts the third document on view instead of the second. |
| App.ShiftedActive | App.tsx:230-234 | The corrected index stays in range. It moves down by one when an earlier tab closes, and otherwise it is the source's clamp. |
| App.ShiftedActiveKeepsDocument | App.tsx:212-247 | With the corrected index, closing any tab other than the active one keeps the same document on view. Closing the active tab shows the next document, or the previous one at the end. |
| App.ActiveAfterRemoval | App.tsx:212-247 | After a removal the active index is in range. Closing a tab after the active one keeps the active document. Closing the active tab, or one before it, makes the following document active, or the last one when there is none. |
| App.SettingsFollowDocuments | App.tsx:212-247 | After the reindexing, each remaining document's settings are those it had before the removal. |
| App.Workspace.ActivePdfName | App.tsx:288-292 | The captured image is tagged with the active document's name exactly when the active index designates a document. |
| App.Workspace.GetCurrentPdfSettings | App.tsx:188-198 | The active document's stored settings, or the defaults (zoom 1, rotation 0, render scale 2, page 1) when none are stored. |
| App.Workspace.constructor | App.tsx:23-44 | No documents, tab 0, no settings, an empty deck, the export name "presentation", and the log [[]] with cursor 0. |
| App.Workspace.AddToHistory | App.tsx:266-271 | The two history fields become the log pushed with the new deck. |
| App.Workspace.Undo | App.tsx:258-264 | The log steps back by one, the shown deck becomes the snapshot under the cursor, and at cursor 0 nothing changes. |
| App.Workspace.HandleCropComplete | App.tsx:287-305 | The deck gains the tagged capture as its last slide, with exactly one history push. Every snapshot stays well-sized with distinct slide ids. |
| App.Workspace.HandleDeleteSlide | App.tsx:307-313 | The deck becomes DeleteSlide of the old deck, with one history push, even for an unknown id. |
| App.Workspace.HandleDeleteImage | App.tsx:315-326 | The deck becomes DeleteImage of the old deck, with one history push. |
| App.MergeSlides | App.tsx:329-352 | The handler's own steps (find, two refusals, copy, overwrite, splice) compute exactly MergeUp. |
| App.Workspace.HandleMergeUp | App.tsx:329-355 | The outcome is MergeUp of the old deck. A merge sets the deck and pushes once. A refusal changes neither the deck nor the log. |
| App.Workspace.HandleReorderSlides | App.tsx:358-367 | Without a slide at dragIndex, neither the deck nor the log changes. Otherwise the deck becomes the reordered one and the log is pushed once. |
| App.Workspace.UpdatePdfSetting | App.tsx:201-209 | The active document's entry becomes its settings (or the defaults) with one field overwritten. No other entry changes. |
| App.Workspace.DocumentLoaded | App.tsx:115-146 | A loaded document is appended and becomes active. The first document resets the deck and the log; later ones leave them alone. |
| App.Workspace.HandleFileChange | App.tsx:88-175 | A file is added iff it is a PDF, fewer than three documents are open, no open document has its name, and it loads. A refused file changes no document, deck or log. The first accepted document names the export. The three-document limit and distinct names are kept. |
| App.Workspace.ResetWorkspace | App.tsx:235-242 | With no document left, the deck is empty, the log is back to its initial single empty snapshot, the export name is the default and no settings are stored. |
| App.Workspace.HandleRemovePdf | App.tsx:212-247 | The document list loses the document at index. If documents remain, the settings are reindexed, the active index is clamped, and the deck and log are kept. Closing the last document clears the deck, the log, the settings and the export name. |
| PdfCropper.Clamp | components/PdfCropper.tsx:122-124 | The pointer coordinate is held to [0, bound], and a coordinate already inside is unchanged. |
| PdfCropper.Normalized | components/PdfCropper.tsx:126-136 | Width and height are the absolute differences. The origin is the smaller coordinate per axis, so origin plus size is the larger. |
| PdfCropper.DragRect | components/PdfCropper.tsx:112-136 | The drag rectangle is never negative. A drag started on the surface stays inside it, and with the pointer on the surface it is the plain normalised rectangle. |
| PdfCropper.NaturalDims | components/PdfCropper.tsx:47-50 | The natural page size times renderScale is the rendered raster size. |
| PdfCropper.ToRaster | components/PdfCropper.tsx:161-166 | Every coordinate of the selection is scaled by renderScale / zoom. |
| PdfCropper.Capture | components/PdfCropper.tsx:149-186 | An image is emitted iff the selection is at least 10 px in both directions. Its width and height are the selection's times renderScale / zoom, both positive. Its aspect ratio is positive and equals the selection's on screen. It carries no source tag yet. |
| PdfCropper.OnScreenToRaster | components/PdfCropper.tsx:161-166 | A page region shown at any zoom maps back to the region times renderScale. |
| PdfCropper.ZoomCancels | components/PdfCropper.tsx:161-166 | The same page region selected at two different zooms gives the same raster rectangle. |
| PdfCropper.CaptureWithinRaster | components/PdfCropper.tsx:161-176 | A selection inside the displayed page maps inside the rendered raster. |
| PdfCropper.FitZoom | components/PdfCropper.tsx:71-85 | The fitted zoom is positive and makes the page dimension equal to the container less 40 px. |
| PdfCropper.ZoomedOut | components/PdfCropper.tsx:287 | Zooming out steps down by 0.1 and never goes below 0.1. A step that would go below lands exactly on 0.1. |
| PdfCropper.ZoomedIn | components/PdfCropper.tsx:291 | Zooming in steps up by 0.1 and never goes above 10. A step that would go above lands exactly on 10. |
| PdfCropper.Rotated | components/PdfCropper.tsx:279 | Rotation stays in [0, 360). A quarter turn goes to the next one clockwise: 0, 90 and 180 gain 90, and 270 goes back to 0. |
| PdfCropper.FourTurnsIsIdentity | components/PdfCropper.tsx:279 | Four presses of the rotate button return to the starting rotation. |
| PdfCropper.Cropper.constructor | components/PdfCropper.tsx:12-24 | The view starts on page 1 at zoom 1, rotation 0 and render scale 2, with no selection and no known page size. |
| PdfCropper.Cropper.PageRendered | components/PdfCropper.tsx:43-50 | After a render, the known page size is the natural size of the raster. |
| PdfCropper.Cropper.FitToWidth | components/PdfCropper.tsx:71-77 | Before any render nothing changes. Otherwise the zoom makes the page width fill the container less 40 px. |
| PdfCropper.Cropper.FitToPage | components/PdfCropper.tsx:79-85 | Before any render nothing changes. Otherwise the zoom makes the page height fill the container less 40 px. |
| PdfCropper.Cropper.ZoomOut | components/PdfCropper.tsx:287 | The zoom becomes ZoomedOut of the old one and the view stays valid. |
| PdfCropper.Cropper.ZoomIn | components/PdfCropper.tsx:291 | The zoom becomes ZoomedIn of the old one and the view stays valid. |
| PdfCropper.Cropper.Rotate | components/PdfCropper.tsx:279 | The rotation becomes the next quarter turn and stays one of 0, 90, 180 and 270. |
| PdfCropper.Cropper.SetRenderScale | components/PdfCropper.tsx:256-267 | The render scale becomes the chosen option. |
| PdfCropper.Cropper.ChangePage | components/PdfCropper.tsx:204-211 | The page moves by delta and the selection is cleared only when the new page is in [1, numPages]. Otherwise nothing changes. A page inside the document stays inside it. |
| PdfCropper.Cropper.DocumentChanged | components/PdfCropper.tsx:11-67 | A change of active document replaces only the page count. Page, zoom, rotation, selection and page size carry over, since one cropper serves every document. |
| PdfCropper.Cropper.DocumentChangedWithReset | components/PdfCropper.tsx:63-67 | The corrected change of document: the view returns to page 1 and drops the selection, so the page on view lies within the new document. |
| PdfCropper.NavigationStranded | components/PdfCropper.tsx:204-211 | A page more than one past the end of the document is refused both one-page steps. Exactly one past the end, only the step back is taken. |
| PdfCropper.NavigationStrandedExample | components/PdfCropper.tsx:204-211 | Page 7 can step both ways in a ten-page document and neither way in a three-page one. |
| PdfCropper.Cropper.MouseDown | components/PdfCropper.tsx:97-106 | A non-left press changes nothing. A left press starts selecting, with the press point as start and a zero-size rectangle there. |
| PdfCropper.Cropper.MouseMove | components/PdfCropper.tsx:109-137 | During a drag the selection becomes the drag rectangle from the start point to the clamped pointer; otherwise nothing changes. |
| PdfCropper.Cropper.MouseUp | components/PdfCropper.tsx:139-192 | Without a drag nothing changes. A release ends the drag and clears the selection. It emits Capture of the selection, so nothing under 10 px, with the current page number. |
| PdfCropper.PressDragRelease | components/PdfCropper.tsx:97-192 | A full press-drag-release emits an image iff the dragged rectangle reaches 10 px in both directions, and leaves the machine idle. |
| PptGenerator.ContentBox | utils/pptGenerator.ts:12-21 | The content box is 9.4 wide and 5.025 high. |
| PptGenerator.SingleFit | utils/pptGenerator.ts:30-43 | A single image keeps its aspect ratio, fits the content box, and reaches its full width or its full height. |
| PptGenerator.SingleFitIsLargest | utils/pptGenerator.ts:36-43 | No box of the same aspect ratio inside the content box is wider or taller than the chosen one. |
| PptGenerator.SingleFitWide | utils/pptGenerator.ts:36-43 | Aspect ratio 2 gives 9.4 by 4.7, with no height re-fit. |
| PptGenerator.SingleFitSquare | utils/pptGenerator.ts:36-43 | Aspect ratio 1 is re-fitted by height to 5.025 by 5.025. |
| PptGenerator.PairFit | utils/pptGenerator.ts:58-80 | Both images keep their aspect ratios and share one width of at most 9.4. A stack that fits stays at full width; one that does not shrinks below it. |
| PptGenerator.PairOvershoot | utils/pptGenerator.ts:69-96 | A scaled pair fills the content height with the gap scaled too. Because the gap is not scaled, the pair overshoots the box by Gap · (1 − 5.025 / T), which lies strictly between 0 and 0.05. |
| PptGenerator.PairHeightsFit | utils/pptGenerator.ts:62-80 | The two image heights together always stay below the content height. |
| PptGenerator.PairOfSquares | utils/pptGenerator.ts:62-80 | Two squares stack to 18.85 and shrink to width and height 9.4 · 5.025 / 18.85. |
| PptGenerator.SlidePage | utils/pptGenerator.ts:26-99 | An empty slide gets no images. Otherwise the page places at most the first two images at the left margin, each at its own aspect ratio within the content width. The second sits the gap below the first, at the same width. |
| PptGenerator.PlacedWithinWidth | utils/pptGenerator.ts:45-98 | Every image ends before the right margin. |
| PptGenerator.PlacedWithinHeight | utils/pptGenerator.ts:45-98 | A single image ends above the bottom margin, and a pair ends less than the gap below it. |
| PptGenerator.PairPage | utils/pptGenerator.ts:54-97 | Two images are placed at the left margin at their own aspect ratios, the second the gap below the first and at the same width. |
| PptGenerator.LayoutSlide | utils/pptGenerator.ts:26-99 | The loop body's steps for one slide produce exactly SlidePage of that slide. |
| PptGenerator.GeneratePages | utils/pptGenerator.ts:23-100 | One page per slide, in order: page i is the layout of slide i. |
| PptGenerator.EmptySlideGivesBlankPage | utils/pptGenerator.ts:23-28 | A slide without images still gets a page, and that page is blank. |
| SlideList.DragState.constructor | components/SlideList.tsx:22 | No drag is in progress at first. |
| SlideList.DragState.HandleDragStart | components/SlideList.tsx:24-29 | A drag start records the dragged slide's index. |
| SlideList.DragState.HandleDrop | components/SlideList.tsx:37-46 | A drop without a drag does nothing. With a drag, the drag ends and exactly one reorder of (dragged, drop) is requested, unless the slide was dropped on itself. |
| SlideList.DragAndDrop | components/SlideList.tsx:24-46 | Dragging from one index to another requests exactly that reorder; dropping on the start requests none. |
| SlideList.MergeOfferedIffMergeSucceeds | components/SlideList.tsx:91 | With distinct ids, the merge button is shown on a slide exactly when the editor's merge of that slide succeeds. |
| SlideList.MergeOfferedOnWorkspace | components/SlideList.tsx:91 | On the deck the editor shows, the merge button is offered on a slide exactly when the merge of that slide goes ahead. |
| SlideList.RequestIsCarriedOut | components/SlideList.tsx:37-46 | A request between two shown slides is carried out by the editor and puts the dragged slide at the drop index. |
| PdfTabs.Substring | components/PdfTabs.tsx:30 | JavaScript substring: with bounds in order it is the slice. From 0 it is the prefix up to the clamped end. It is always a slice of the string. |
| PdfTabs.Bounded | components/PdfTabs.tsx:30 | An index argument is held to [0, length]. |
| PdfTabs.TruncateFileName | components/PdfTabs.tsx:28-31 | A name that fits is unchanged. A longer one ends in "..." after a prefix of the name. With a limit of at least 3 its length is the limit; with a smaller limit it is just "...". |
| PdfTabs.LabelBounded | components/PdfTabs.tsx:28-31 | A label is never longer than the limit, or than 3 characters when the limit is smaller, unless it is an untouched name that fits. |
| PdfTabs.DefaultLimitExample | components/PdfTabs.tsx:28-31 | With the default limit of 15, a 21-character name keeps 12 characters plus "...", and a short name is unchanged. |
| PdfTabs.AddButtonMatchesUploadGuard | components/PdfTabs.tsx:21-25 | The add button is offered exactly when the upload handler would accept another document. While the bar is shown and the limit holds, that happens only with two documents open. |

## Left out

- PDF.js loading and page rendering are not modelled: file reading, document parsing and drawing
  into the canvas. A load is a boolean parameter of `HandleFileChange`; a render is the viewport
  size given to `PageRendered`.
- Canvas pixel work is not modelled: drawing the cropped region and encoding it as a data URL.
  The encoded image is an opaque parameter. Nor is the canvas's truncation of its width and
  height to integers.
- The presentation library is not modelled: creating the presentation, adding pages and images,
  and writing the file. The output is the list of pages with their placements. The file name
  passed to the exporter is left out.
- The registration and removal of window listeners is not modelled, including the keyboard
  shortcuts for undo and page navigation. Only the transitions they trigger are modelled.
- React state batching and closures over stale state are not modelled. Handlers run
  sequentially on the current state; for example, `AddToHistory` reads the current log.
- IEEE floating point is not modelled: sizes are exact reals.
- UUID generation is not modelled: fresh slide and image ids are parameters.
- App.Workspace.HandleCropComplete: requires the new slide id to differ from every shown slide's
  id. The source draws it from uuidv4 (App.tsx:297), whose values are taken to be distinct.
- Error and success messages and their timers are not modelled. The refusals they accompany
  are modelled.
- Rendering is not modelled: JSX, the drag-over overlay, the file-name editing field, the
  source-label toggle (components/SourceToggle.tsx) and the export handler's empty-deck message.
- App.Workspace.HandleFileChange: the name clean-up of App.tsx:93 is not modelled. It removes the
  first occurrence of `.pdf`, case-sensitively, so "a.pdf.pdf" becomes "a.pdf" and "Report.PDF"
  stays as it is. The model receives that cleaned name as `doc.fileName`, and the duplicate
  check compares cleaned names.
- App.Workspace.HandleFileChange: replacing an open document with a new file is not modelled.
  The PDF library is taken to be present, so its missing-library error is not modelled either.
- App.Workspace.HandleFileChange: the drag-and-drop upload path (App.tsx:70-86) is not
  modelled. It applies the same limit and file-type checks as the file input.
- App.Workspace.HandleRemovePdf: keeps the source's clamp (`ClampedActive`). The corrected
  index `ShiftedActive` is proved about separately, and the workspace does not use it.
- The tab click that sets the active index is not modelled (App.tsx:250-252).
- Settings are only stored per document here. The remembered settings are not fed back into the
  cropper, whose own state takes no such inputs.
- PdfCropper.Cropper: one cropper serves every document, as `DocumentChanged` models. The model
  does not connect it to the editor, so App's uploads and removals do not call `DocumentChanged`.
  After a switch the page number may lie past the end of the new document, so `Valid` only asks
  for a page number of at least 1. A capture taken then carries that page number.
- PdfCropper.Cropper.FitToWidth: requires the container to be wider than the 40 px padding. A
  narrower container makes the source set a zero or negative zoom. That state is excluded so
  the view stays valid.
- PdfCropper.Cropper.FitToPage: requires the container to be taller than the 40 px padding, for
  the same reason.
- PdfCropper.FitZoom: requires the container to be larger than the 40 px padding, for the same
  reason.
- PdfCropper.Cropper.MouseUp: the source skips the capture when the 2D context is unavailable.
  The model assumes a context is always there.
- PptGenerator.GeneratePages: requires the first two images of every slide to have a positive
  aspect ratio. Every captured image does, by `PdfCropper.Capture`. The source would divide by
  zero otherwise.
- String lengths count characters, not UTF-16 code units.

## Findings

| source | as written | input that shows it | evidently intended | confidence | as-written member | corrected member |
|---|---|---|---|---|---|---|
| components/PdfCropper.tsx:63-67 | A change of active document keeps the current page. Only the page count of the new document is read, at components/PdfCropper.tsx:206. | On page 7 of a ten-page document, upload a three-page one. Page 7 does not exist there. The steps to 6 and to 8 are both refused, so the view cannot reach a page of the new document. | A change of document brings the view back to a page of that document. | medium, not executed | PdfCropper.NavigationStrandedExample | PdfCropper.Cropper.DocumentChangedWithReset |
| App.tsx:230-234 | Closing a tab does not lower the active index, which is only clamped to the new length. | Three documents are open and the second is shown. Closing the first tab leaves the index at 1, which now designates the third document. | Closing a tab other than the active one keeps the same document on view. | medium, not executed | App.ActiveSwitchesDocument | App.ShiftedActive |
