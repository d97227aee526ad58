# Track-changes text editor: the tracked-change buffer and its bracket overlay

This project models the editing core of a small Tkinter text editor with
track changes (`trackchagne_texteditor.py`). The editor holds the following state:

- a document in which every character carries one edit state: `Plain`, `Added` or `Deleted`;
- a cursor and an optional non-empty selection;
- a track-changes flag;
- an undo history;
- a derived `bracketed` overlay that greys out text between `(` and `)`.

With tracking on, the editor never removes text:

- a typed character is inserted tagged `Added`;
- Delete, BackSpace and typing over a selection tombstone text: the characters
  stay in place, tagged `Deleted`, and drop out of the live text.

After every tracked edit the overlay is cleared and recomputed from the raw text.
The scan is leftmost and non-nesting: find a `(`, then the first `)` after it,
mark both ends and everything between, resume after the `)`, and stop for good
at a `(` that has no `)` after it.

The model has three modules:

- `TrackedText` (`tracked_text.dfy`) is the document as values. It holds the
  cells, the raw and live text, the tombstone and the single-character insert.
- `Brackets` (`brackets.dfy`) is the scan. It has Python's `str.find`, the
  run list the `while True` loop produces, and a declarative description of
  that run list (`IsBracketScan`). It proves the scan matches the description,
  that the description has only one solution, and the properties of the overlay.
- `Editor` (`editor.dfy`) is the editor object as a class. Each method is one
  handler. The `while True` scan loop is the method `ScanBracketed`, with its
  invariants; `ApplyBracketedColor` runs it on the raw text and stores the flags
  as the overlay. Each method's postcondition gives the new state in terms of
  the old one and the functions above.

Tk text indices are flat character offsets, as the source itself converts them
with `"1.0 + N chars"`. Tk's undo engine is modelled as an explicit stack of
snapshots. A snapshot is pushed wherever the source calls `edit_separator`, and
it records the state from before the edit action that separator closes.

## Model

| member | source | states |
|---|---|---|
| `TrackedText.Tombstone` | trackchagne_texteditor.py:115-119 | A tracked deletion of [s, e) keeps the length and every character. Each position in [s, e) becomes `Deleted`, replacing `Added` or `Plain`, and every other position is unchanged. |
| `TrackedText.TombstoneIsDeleteReinsert` | trackchagne_texteditor.py:118-119 | Deleting [s, e) and re-inserting the same text tagged `deleted` gives exactly the per-character tombstone. |
| `TrackedText.TombstoneHidesRange` | trackchagne_texteditor.py:117-119 | After a tracked deletion, the live text is the live text before s followed by the live text after e: the range disappears from what a reader sees. |
| `TrackedText.InsertAt` | trackchagne_texteditor.py:74-77 | The length grows by one and the new cell sits at the cursor. The prefix before the cursor is unchanged and the suffix shifts right by one, so no other character's state changes. |
| `TrackedText.InsertAddedShows` | trackchagne_texteditor.py:76-77 | A character inserted tagged `Added` appears in the live text exactly at the cursor. |
| `TrackedText.InsertAfterTombstone` | trackchagne_texteditor.py:70-77 | When typing over a selection [s, e), the new `Added` character sits at s, immediately before the tombstoned run, which keeps its text. The text before s is unchanged and the text after e shifts by one. |
| `TrackedText.LiveTextLength` | trackchagne_texteditor.py:25 | A property of the live-text view, in which `deleted` characters are struck through and read as gone. The live text is never longer than the document. It is exactly as long when no character is a tombstone. |
| `Brackets.Find` | trackchagne_texteditor.py:166-167 | The result is -1 or a position at or after the start that holds the character sought. |
| `Brackets.FindLeftmost` | trackchagne_texteditor.py:166-167 | `Find` returns the leftmost occurrence, and -1 only when there is no occurrence from the start onwards (Python `str.find`). |
| `Brackets.PairsIsBracketScan` | trackchagne_texteditor.py:164-178 | Each run the loop marks starts at the leftmost `(` after the previous run and ends at the first `)` after that `(`. After the last run, either no `(` is left or the next `(` has no `)` after it. |
| `Brackets.BracketScanUnique` | trackchagne_texteditor.py:164-178 | Only one run list fits that description, so the declarative account fully determines the overlay. |
| `Brackets.RunsOrdered` | trackchagne_texteditor.py:177-178 | Since the scan resumes at `close_idx + 1`, runs are strictly increasing and pairwise disjoint. |
| `Brackets.RunShape` | trackchagne_texteditor.py:166-175 | Every marked run starts at a `(` and ends, inclusively, at the first `)` after it. Nesting is ignored. |
| `Brackets.NoMarkFromUnmatchedOpen` | trackchagne_texteditor.py:166-170 | At a `(` with no `)` after it, no position from that `(` onwards is marked. |
| `Brackets.PairsIgnoreTrailing` | trackchagne_texteditor.py:161 | The newline that `get("1.0", END)` appends, or any final character that is not a bracket, changes no run. |
| `Brackets.OverlayIgnoresTrailing` | trackchagne_texteditor.py:160-175 | The overlay of the scanned text with that newline agrees with the overlay of the document's raw text at every document position. |
| `Brackets.NestedExample` | trackchagne_texteditor.py:166-178 | In `a(b(c)d)e` exactly `(b(c)` is marked and the `)` before `e` is not. |
| `Brackets.UnmatchedExample` | trackchagne_texteditor.py:166-170 | In `(ab) (cd` only `(ab)` is marked. |
| `Editor.DeletionWindow` | trackchagne_texteditor.py:93-101 | The window has at most one character. BackSpace takes [cursor-1, cursor), except at offset 0, where Tk clamps it to [0, 1). Delete takes [cursor, cursor+1). The window is empty exactly when it starts at the end of the model's document, which excludes Tk's final newline. |
| `Editor.TrackChangeEditor.constructor` | trackchagne_texteditor.py:29 | An editor starts empty, with tracking off, no history and a consistent overlay. |
| `Editor.ScanBracketed` | trackchagne_texteditor.py:162-178 | The `while True` loop marks exactly the first `n` flags of the overlay of the scanned text. Its invariant is that the runs found so far, followed by the runs a scan from `start` would find, are the whole run list. It terminates because `start` strictly increases. |
| `Editor.TrackChangeEditor.ApplyBracketedColor` | trackchagne_texteditor.py:158-178 | The overlay is cleared and rebuilt by the scan over the raw text plus Tk's trailing newline, and it ends equal to `BracketOverlay(RawText(doc))`. Only the overlay changes. Since the result depends only on the raw text, a second call with no edit between leaves it as it is. |
| `Editor.TrackChangeEditor.TrackSelectionAsDeletion` | trackchagne_texteditor.py:111-123 | The document becomes the tombstone of the selection. The selection is cleared and the cursor moves to the selection start. One checkpoint holding the prior state is pushed, and the overlay is recomputed. |
| `Editor.TrackChangeEditor.TrackInsertion` | trackchagne_texteditor.py:66-80 | Handled exactly when tracking is on and the key is one character; otherwise nothing changes. When handled, an active selection is tombstoned first, with its own checkpoint. The character is then inserted tagged `Added` at the selection start or the cursor, the cursor moves just after it, and a second checkpoint is pushed. |
| `Editor.TrackChangeEditor.InsertAdded` | trackchagne_texteditor.py:74-79 | The insertion step of a tracked keystroke. The character goes in at the cursor tagged `Added`, the cursor moves past it, one checkpoint holding the prior state is pushed, and the overlay is recomputed. |
| `Editor.TrackChangeEditor.TrackDeletion` | trackchagne_texteditor.py:82-109 | With tracking off, nothing changes. With a selection, the whole selection is tombstoned. Otherwise only the one-character window is tombstoned, and the length of the model's document never changes. The cursor goes to the window start after BackSpace and past the tombstone after Delete. An empty window changes nothing and records no checkpoint; that case has no counterpart in the program (see Left out). |
| `Editor.TrackChangeEditor.ToggleTrackChanges` | trackchagne_texteditor.py:125-132 | Flips the flag and leaves text, tags, cursor, selection, history and overlay unchanged. |
| `Editor.TrackChangeEditor.UndoAction` | trackchagne_texteditor.py:180-186 | With an empty history the editor is unchanged. Otherwise the last checkpoint's document, cursor and overlay are restored, and that checkpoint is dropped. |
| `Editor.UndoRevertsInsertion` | trackchagne_texteditor.py:74-78 | An undo right after a tracked keystroke with no selection restores the document, the edit states, the cursor and the overlay exactly. |

## Left out

- Window, menu, toolbar, geometry, dark mode and the main loop (trackchagne_texteditor.py:5-64, 134-139, 189-191) are presentation only.
- Font-size changes (trackchagne_texteditor.py:141-156) are presentation only and do not touch the document.
- The untracked paths are not modelled: tracking off, or a key whose `event.char` is not exactly one character. The handler then reports that it did not handle the event and the model's state is unchanged. In the program, Tk's default insertion or deletion then runs; that code is not part of this model.
- Moving the cursor or making a selection with the keyboard or mouse is Tk's own behaviour and is not modelled. The editor's cursor and selection fields stand for whatever the widget holds when a handler runs.
- Tk's tag inheritance on an untagged insert is not modelled. At trackchagne_texteditor.py:76 a typed character inside a deleted run could carry both the `deleted` and the `added` tag. Here every character has exactly one edit state, and a typed character is `Added`.
- Tk's sentinel final newline is not part of the document. The overlay scan appends it, as `get("1.0", END)` does.
- Editor.TrackChangeEditor.TrackDeletion, Editor.DeletionWindow: the program's behaviour at the end of the text is not modelled. This covers Delete at the end of the text and BackSpace on an empty text, where line 94 clamps the index to `1.0`. In the program the window is then Tk's final newline, so `deleted_text` (trackchagne_texteditor.py:99) is never empty. Tk never deletes its final newline, so line 104 re-inserts a `"\n"` tagged `deleted`, line 105 pushes a separator and line 108 recomputes the overlay. By Tk's documented deletion rules, the text then gains a tombstoned newline, or, if it already ends in a newline, that newline is tombstoned. The model's window is empty there instead, and the handler leaves the document, cursor and history unchanged. The `if deleted_text:` else-branch at line 101 therefore never runs in the program; the model's no-op stands in for it.
- Insert-mark gravity is modelled explicitly: after a Delete-key tombstone the cursor sits just past the tombstoned character, and after a typed character it sits just past the new character.
- Editor.TrackChangeEditor.UndoAction: Tk's undo engine (`edit_undo`, autoseparators, and how it treats tags and the insert mark) is replaced by a stack of snapshots. Each snapshot holds the document, the cursor and the overlay. Undo restores those three and clears the selection; what Tk does with the selection and with stale `bracketed` tags after an undo is not captured.
- Edits made with tracking off push no checkpoint here. Because the widget is created with `undo=True` (trackchagne_texteditor.py:14), Tk records every insert and delete in its undo history; autoseparators only decide where one undo step ends.
- Multi-character (pasted) input under tracking is not handled by the program (trackchagne_texteditor.py:68) and is not modelled.
