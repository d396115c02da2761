/**
 * The linear undo log of App.tsx as a value: the list of deck snapshots and the cursor into it.
 * The editor keeps the two as separate state fields; App.Workspace ties them to this value.
 */
module History {
  import opened Types

  datatype History = History(snapshots: seq<Deck>, cursor: nat)

  /** The cursor points into the list, and the first snapshot is the empty deck the editor starts from. */
  ghost predicate Valid(h: History)
  {
    h.cursor < |h.snapshots| && h.snapshots[0] == []
  }

  /** The log the editor starts with: one empty deck, cursor on it. */
  function Initial(): (h: History)
    ensures Valid(h) && Current(h) == []
  {
    History([[]], 0)
  }

  /** The deck the cursor designates. */
  function Current(h: History): Deck
    requires h.cursor < |h.snapshots|
  {
    h.snapshots[h.cursor]
  }

  /** Keep the snapshots up to and including the cursor, append the new deck and point at it. */
  function Push(h: History, deck: Deck): (r: History)
    requires h.cursor < |h.snapshots|
    ensures r.cursor == |r.snapshots| - 1 == h.cursor + 1
    ensures Current(r) == deck
    ensures r.snapshots[..h.cursor + 1] == h.snapshots[..h.cursor + 1]
    ensures Valid(h) ==> Valid(r)
  {
    History(h.snapshots[..h.cursor + 1] + [deck], h.cursor + 1)
  }

  /** Step the cursor back by one; at the first snapshot nothing changes. */
  function Undo(h: History): (r: History)
    ensures r.snapshots == h.snapshots
    ensures h.cursor == 0 ==> r == h
    ensures h.cursor > 0 ==> r.cursor == h.cursor - 1
    ensures Valid(h) ==> Valid(r)
  {
    if h.cursor > 0 then h.(cursor := h.cursor - 1) else h
  }

  /** The log after pushing the decks one after another. */
  function PushAll(h: History, decks: seq<Deck>): (r: History)
    requires h.cursor < |h.snapshots|
    ensures r.cursor < |r.snapshots|
    decreases |decks|
  {
    if decks == [] then h else PushAll(Push(h, decks[0]), decks[1..])
  }

  /** The log after k undos. */
  function UndoTimes(h: History, k: nat): (r: History)
    decreases k
  {
    if k == 0 then h else UndoTimes(Undo(h), k - 1)
  }

  /** Pushing k decks moves the cursor k places on and keeps the snapshots up to the old cursor. */
  lemma {:induction false} PushAllExtends(h: History, decks: seq<Deck>)
    requires h.cursor < |h.snapshots|
    ensures PushAll(h, decks).cursor == h.cursor + |decks|
    ensures PushAll(h, decks).snapshots[..h.cursor + 1] == h.snapshots[..h.cursor + 1]
    decreases |decks|
  {
    if decks != [] {
      var h' := Push(h, decks[0]);
      PushAllExtends(h', decks[1..]);
      assert h'.snapshots[..h.cursor + 1] == h.snapshots[..h.cursor + 1];
      assert PushAll(h, decks).snapshots[..h'.cursor + 1][..h.cursor + 1]
          == PushAll(h, decks).snapshots[..h.cursor + 1];
    }
  }

  /** Undo never touches the snapshot list; k undos move the cursor back by k, stopping at 0. */
  lemma {:induction false} UndoTimesMovesCursor(h: History, k: nat)
    ensures UndoTimes(h, k).snapshots == h.snapshots
    ensures UndoTimes(h, k).cursor == if k <= h.cursor then h.cursor - k else 0
    decreases k
  {
    if k > 0 {
      UndoTimesMovesCursor(Undo(h), k - 1);
    }
  }

  /** k undos after k pushes return to the deck that was current before the pushes. */
  lemma UndoReversesPushes(h: History, decks: seq<Deck>)
    requires h.cursor < |h.snapshots|
    ensures var back := UndoTimes(PushAll(h, decks), |decks|);
            back.cursor == h.cursor && back.cursor < |back.snapshots| && Current(back) == Current(h)
  {
    var pushed := PushAll(h, decks);
    PushAllExtends(h, decks);
    UndoTimesMovesCursor(pushed, |decks|);
    assert pushed.snapshots[..h.cursor + 1][h.cursor] == pushed.snapshots[h.cursor];
  }

  /**
   * After a push, no number of undos reaches a snapshot that was beyond the cursor before it:
   * every deck reachable is one of those up to the old cursor, or the pushed one.
   */
  lemma NoResurrection(h: History, deck: Deck, k: nat)
    requires h.cursor < |h.snapshots|
    ensures var back := UndoTimes(Push(h, deck), k);
            back.cursor < |back.snapshots|
            && back.snapshots == h.snapshots[..h.cursor + 1] + [deck]
            && Current(back) in h.snapshots[..h.cursor + 1] + [deck]
  {
    UndoTimesMovesCursor(Push(h, deck), k);
  }
}
