/** The editor with track changes: the document buffer, the cursor and the
    selection, the track-changes flag, an undo history of snapshots and the
    derived bracket overlay, updated in place by one method per key handler. */
module Editor {
  import opened TrackedText
  import opened Brackets

  datatype Option<T> = None | Some(value: T)

  /** An active selection covers [first, last); it is never empty. */
  datatype Selection = Selection(first: nat, last: nat)

  /** The two keys bound to the deletion handler. */
  datatype DeleteKey = BackSpace | Delete

  /** An undo checkpoint: the document, cursor and overlay before one edit action. */
  datatype Snapshot = Snapshot(doc: seq<Cell>, cursor: nat, bracketed: seq<bool>)

  ghost predicate SnapshotValid(s: Snapshot)
  {
    s.cursor <= |s.doc| && s.bracketed == BracketOverlay(RawText(s.doc))
  }

  /** The one-character window a Delete or BackSpace key acts on, as Tk
      computes it from the cursor: BackSpace takes the character before the
      cursor, except at offset 0 where "insert - 1 chars" clamps to 0; Delete
      takes the character after it. At the end of the document the window is
      empty; in the widget it would hold Tk's final newline, which the
      document excludes. */
  function DeletionWindow(cursor: nat, size: nat, key: DeleteKey): (w: (nat, nat))
    requires cursor <= size
    ensures w.0 <= w.1 <= size && w.1 - w.0 <= 1
    ensures w.0 < w.1 <==> w.0 < size
    ensures key == Delete ==> w.0 == cursor
    ensures key == BackSpace && cursor > 0 ==> w == (cursor - 1, cursor)
    ensures key == BackSpace && cursor == 0 ==> w.0 == 0
  {
    var start := if key == BackSpace && cursor > 0 then cursor - 1
                 else if key == BackSpace then 0
                 else cursor;
    (start, if start < size then start + 1 else start)
  }

  class TrackChangeEditor {
    var doc: seq<Cell>
    var cursor: nat
    var selection: Option<Selection>
    var trackChanges: bool
    var history: seq<Snapshot>
    var bracketed: seq<bool>

    /** Cursor and selection lie inside the document and every checkpoint is
        a consistent state; the overlay may be stale. */
    ghost predicate Inv()
      reads this
    {
      cursor <= |doc|
      && (selection.Some? ==> selection.value.first < selection.value.last <= |doc|)
      && forall k :: 0 <= k < |history| ==> SnapshotValid(history[k])
    }

    /** `Inv` and the overlay agrees with the raw text. */
    ghost predicate Valid()
      reads this
    {
      Inv() && bracketed == BracketOverlay(RawText(doc))
    }

    function Current(): Snapshot
      reads this
    {
      Snapshot(doc, cursor, bracketed)
    }

    /** An empty editor with tracking off and the overlay computed once. */
    constructor ()
      ensures Valid()
      ensures doc == [] && cursor == 0 && selection == None
      ensures !trackChanges && history == []
    {
      doc := [];
      cursor := 0;
      selection := None;
      trackChanges := false;
      history := [];
      bracketed := [];
      new;
      ApplyBracketedColor();
    }

    /** `apply_bracketed_color`: clears the overlay and rebuilds it by the
        bracket scan over the raw text followed by Tk's trailing newline.
        The result depends on the raw text alone, so a second call with no
        edit in between leaves the overlay as it is. */
    method ApplyBracketedColor()
      modifies this`bracketed
      ensures bracketed == BracketOverlay(RawText(doc))
    {
      var raw := RawText(doc);
      bracketed := ScanBracketed(raw + ['\n'], |raw|);
      OverlayIgnoresTrailing(raw, '\n');
    }

    /** The selection becomes one tracked deletion: its text stays, tagged
        deleted; the selection is cleared and the cursor goes to its start. */
    method TrackSelectionAsDeletion()
      requires Valid() && selection.Some?
      modifies this
      ensures Valid()
      ensures doc == Tombstone(old(doc), old(selection).value.first, old(selection).value.last)
      ensures selection == None && cursor == old(selection).value.first
      ensures trackChanges == old(trackChanges)
      ensures history == old(history) + [old(Current())]
    {
      var first, last := selection.value.first, selection.value.last;
      var checkpoint := Current();
      doc := Tombstone(doc, first, last);
      selection := None;
      cursor := first;
      history := history + [checkpoint];
      ApplyBracketedColor();
    }

    /** A key press. With tracking on and a one-character key the character
        is inserted at the cursor tagged added (after turning an active
        selection into a tracked deletion); otherwise nothing is tracked and
        the state is left to the widget's default handling. */
    method TrackInsertion(key: string) returns (handled: bool)
      requires Valid()
      modifies this
      ensures Valid()
      ensures handled == (old(trackChanges) && |key| == 1)
      ensures !handled ==> doc == old(doc) && cursor == old(cursor) && selection == old(selection)
                            && history == old(history) && bracketed == old(bracketed)
      ensures trackChanges == old(trackChanges)
      ensures handled ==>
        var pos := if old(selection).Some? then old(selection).value.first else old(cursor);
        var before := if old(selection).Some?
                      then Tombstone(old(doc), old(selection).value.first, old(selection).value.last)
                      else old(doc);
        && doc == InsertAt(before, pos, Cell(key[0], Added))
        && cursor == pos + 1 && selection == None
        && history == old(history)
                      + (if old(selection).Some? then [old(Current())] else [])
                      + [Snapshot(before, pos, BracketOverlay(RawText(before)))]
    {
      handled := trackChanges && |key| == 1;
      if !handled {
        return;
      }
      if selection.Some? {
        TrackSelectionAsDeletion();
      }
      InsertAdded(key[0]);
    }

    /** The insertion step of a tracked keystroke: `ch` goes in at the cursor
        tagged added, the cursor moves past it (Tk's insert mark has right
        gravity), a checkpoint is pushed and the overlay recomputed. */
    method InsertAdded(ch: char)
      requires Valid() && selection.None?
      modifies this
      ensures Valid()
      ensures doc == InsertAt(old(doc), old(cursor), Cell(ch, Added))
      ensures cursor == old(cursor) + 1 && selection == None && trackChanges == old(trackChanges)
      ensures history == old(history) + [old(Current())]
    {
      var pos := cursor;
      var checkpoint := Current();
      doc := InsertAt(doc, pos, Cell(ch, Added));
      cursor := pos + 1;
      history := history + [checkpoint];
      ApplyBracketedColor();
    }

    /** Delete or BackSpace. With tracking off nothing is tracked. With a
        selection the whole selection is tombstoned. Otherwise the
        one-character window is tombstoned; an empty window (at the end of the
        document, where the widget would act on its final newline) changes
        nothing and records no checkpoint. The cursor ends at the window start after
        BackSpace and just past the tombstone after Delete. */
    method TrackDeletion(key: DeleteKey) returns (handled: bool)
      requires Valid()
      modifies this
      ensures Valid()
      ensures handled == old(trackChanges) && trackChanges == old(trackChanges)
      ensures !old(trackChanges) || (old(selection).None? && DeletionWindow(old(cursor), |old(doc)|, key).0 == |old(doc)|) ==>
        doc == old(doc) && cursor == old(cursor) && selection == old(selection)
        && history == old(history) && bracketed == old(bracketed)
      ensures old(trackChanges) && old(selection).Some? ==>
        && doc == Tombstone(old(doc), old(selection).value.first, old(selection).value.last)
        && selection == None && cursor == old(selection).value.first
        && history == old(history) + [old(Current())]
      ensures old(trackChanges) && old(selection).None? ==>
        var w := DeletionWindow(old(cursor), |old(doc)|, key);
        w.0 < w.1 ==>
          && doc == Tombstone(old(doc), w.0, w.1)
          && selection == None
          && cursor == (if key == BackSpace then w.0 else w.1)
          && history == old(history) + [old(Current())]
    {
      handled := trackChanges;
      if !trackChanges {
        return;
      }
      if selection.Some? {
        TrackSelectionAsDeletion();
        return;
      }
      var w := DeletionWindow(cursor, |doc|, key);
      if w.0 < w.1 {
        var checkpoint := Current();
        doc := Tombstone(doc, w.0, w.1);
        history := history + [checkpoint];
        cursor := if key == BackSpace then w.0 else w.1;
        ApplyBracketedColor();
      }
    }

    /** Flips the track-changes flag and nothing else. */
    method ToggleTrackChanges()
      modifies this
      ensures trackChanges == !old(trackChanges)
      ensures doc == old(doc) && cursor == old(cursor) && selection == old(selection)
      ensures history == old(history) && bracketed == old(bracketed)
    {
      trackChanges := !trackChanges;
    }

    /** Restores the last checkpoint and drops it; with an empty history the
        editor is left unchanged. */
    method UndoAction()
      requires Valid()
      modifies this
      ensures Valid()
      ensures trackChanges == old(trackChanges)
      ensures old(history) == [] ==>
        doc == old(doc) && cursor == old(cursor) && selection == old(selection)
        && history == [] && bracketed == old(bracketed)
      ensures old(history) != [] ==>
        && Current() == old(history)[|old(history)| - 1]
        && history == old(history)[..|old(history)| - 1]
        && selection == None
    {
      if history == [] {
        return;
      }
      var last := history[|history| - 1];
      doc, cursor, bracketed := last.doc, last.cursor, last.bracketed;
      selection := None;
      history := history[..|history| - 1];
    }
  }

  /** The scan loop of `apply_bracketed_color`, tagging the first `n`
      positions of `text`: from `start`, find the next `(` and the first `)`
      after it, flag both and everything between, resume after the `)`;
      stop as soon as either bracket is missing. */
  method ScanBracketed(text: seq<char>, n: nat) returns (marks: seq<bool>)
    requires n <= |text|
    ensures marks == BracketOverlay(text)[..n]
  {
    marks := seq(n, _ => false);
    var start: nat := 0;
    ghost var found: seq<Pair> := [];
    while true
      invariant start <= |text|
      invariant found + Pairs(text, start) == Pairs(text, 0)
      invariant |marks| == n
      invariant forall i :: 0 <= i < n ==> marks[i] == Covered(found, i)
      decreases |text| - start
    {
      var open := Find(text, '(', start);
      var close := Find(text, ')', open + 1);
      if open == -1 || close == -1 {
        assert Pairs(text, start) == [];
        break;
      }
      ghost var next := found + [Pair(open, close)];
      assert next + Pairs(text, close + 1) == Pairs(text, 0) by {
        PairsCons(text, start, open, close);
      }
      marks := seq(n, i requires 0 <= i < n => marks[i] || (open <= i <= close));
      assert forall i :: 0 <= i < n ==> marks[i] == Covered(next, i) by {
        forall i | 0 <= i < n ensures marks[i] == Covered(next, i) {
          CoveredSnoc(found, Pair(open, close), i);
        }
      }
      found := next;
      start := close + 1;
    }
    OverlayPrefixFromRuns(text, n, found, marks);
  }

  /** Undo right after a tracked keystroke with no selection gives back the
      document, cursor and overlay exactly as they were. */
  method UndoRevertsInsertion(e: TrackChangeEditor, key: string)
    requires e.Valid() && e.trackChanges && e.selection.None? && |key| == 1
    modifies e
    ensures e.Valid()
    ensures e.doc == old(e.doc) && e.cursor == old(e.cursor) && e.bracketed == old(e.bracketed)
    ensures e.history == old(e.history)
  {
    var handled := e.TrackInsertion(key);
    e.UndoAction();
  }
}
