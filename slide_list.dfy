/**
 * The slide list of components/SlideList.tsx: the drag state that turns a drag-and-drop
 * between two slides into one reorder request, and the rule for offering a merge.
 */
module SlideList {
  import opened Types
  import opened DeckEdits
  import App

  /** A reorder request handed to the editor: move the slide at dragIndex to hoverIndex. */
  datatype ReorderRequest = ReorderRequest(dragIndex: int, hoverIndex: int)

  class DragState {
    /** The index of the slide being dragged, if a drag is in progress. */
    var draggedIndex: Option<int>

    constructor ()
      ensures draggedIndex.None?
    {
      draggedIndex := None;
    }

    /** A drag starts on the slide at index. */
    method HandleDragStart(index: int)
      modifies this
      ensures draggedIndex == Some(index)
    {
      draggedIndex := Some(index);
    }

    /**
     * A drop on the slide at dropIndex: without a drag in progress nothing happens; otherwise
     * the drag ends, and a reorder is requested unless the slide was dropped on itself.
     */
    method HandleDrop(dropIndex: int) returns (request: Option<ReorderRequest>)
      modifies this
      ensures old(draggedIndex).None? ==> request.None? && draggedIndex.None?
      ensures old(draggedIndex).Some? ==> draggedIndex.None?
      ensures old(draggedIndex).Some? ==>
                (request.Some? <==> old(draggedIndex).value != dropIndex)
      ensures request.Some? ==> request.value == ReorderRequest(old(draggedIndex).value, dropIndex)
    {
      request := None;
      if draggedIndex.None? {
        return;
      }
      if draggedIndex.value != dropIndex {
        request := Some(ReorderRequest(draggedIndex.value, dropIndex));
      }
      draggedIndex := None;
    }
  }

  /**
   * A drag from one slide dropped on another: exactly one request, for that pair, and the list
   * is ready for the next drag.
   */
  method DragAndDrop(state: DragState, from: int, to: int) returns (request: Option<ReorderRequest>)
    modifies state
    ensures state.draggedIndex.None?
    ensures request.Some? <==> from != to
    ensures request.Some? ==> request.value == ReorderRequest(from, to)
  {
    state.HandleDragStart(from);
    request := state.HandleDrop(to);
  }

  /** The merge button is shown on a slide that has a predecessor and shares at most two images with it. */
  predicate MergeOffered(slides: Deck, index: int)
    requires 0 <= index < |slides|
  {
    index > 0 && |slides[index].images| + |slides[index - 1].images| <= 2
  }

  /**
   * With distinct slide ids, the button is shown exactly on the slides whose merge the editor
   * carries out; on every other slide the editor would refuse.
   */
  lemma MergeOfferedIffMergeSucceeds(slides: Deck, index: nat)
    requires DistinctIds(slides) && index < |slides|
    ensures MergeOffered(slides, index) <==> MergeUp(slides, slides[index].id).Merged?
  {
    FindIndexOfDistinct(slides, index);
  }

  /**
   * The editor keeps slide ids distinct, so on the deck it shows the button is offered exactly
   * where the merge goes ahead.
   */
  lemma MergeOfferedOnWorkspace(w: App.Workspace, index: nat)
    requires w.Valid() && index < |w.slides|
    ensures MergeOffered(w.slides, index) <==> MergeUp(w.slides, w.slides[index].id).Merged?
  {
    assert App.Snapshot(w.history[w.historyIndex]);
    MergeOfferedIffMergeSucceeds(w.slides, index);
  }

  /**
   * Every request the list makes names a slide that exists when it started on a shown slide,
   * so the editor's reorder goes ahead and puts that slide at the drop position.
   */
  lemma RequestIsCarriedOut(slides: Deck, from: nat, to: nat)
    requires from < |slides| && to < |slides|
    ensures Reorder(slides, from, to).Some?
    ensures Reorder(slides, from, to).value[to] == slides[from]
  {
  }
}
