/** The tracked-change document: a sequence of characters, each carrying one
    edit state. Deleted characters stay in the sequence (tombstones); the
    live text is what remains when they are skipped. */
module TrackedText {

  datatype EditState = Plain | Added | Deleted

  datatype Cell = Cell(ch: char, state: EditState)

  /** Every character, deleted ones included, in order (what the widget holds). */
  function RawText(doc: seq<Cell>): (r: seq<char>)
    ensures |r| == |doc|
    ensures forall i :: 0 <= i < |doc| ==> r[i] == doc[i].ch
  {
    seq(|doc|, i requires 0 <= i < |doc| => doc[i].ch)
  }

  /** The characters a reader sees: every character that is not a tombstone. */
  function LiveText(doc: seq<Cell>): seq<char>
  {
    if doc == [] then []
    else (if doc[0].state == Deleted then [] else [doc[0].ch]) + LiveText(doc[1..])
  }

  /** `text` re-inserted with only the `deleted` tag. */
  function AsDeleted(text: seq<char>): (r: seq<Cell>)
    ensures RawText(r) == text
    ensures forall i :: 0 <= i < |r| ==> r[i].state == Deleted
  {
    seq(|text|, i requires 0 <= i < |text| => Cell(text[i], Deleted))
  }

  /** Tracked deletion of [s, e): the characters stay where they are and
      only their edit state becomes deleted, whatever it was. */
  function Tombstone(doc: seq<Cell>, s: nat, e: nat): (r: seq<Cell>)
    requires s <= e <= |doc|
    ensures |r| == |doc| && RawText(r) == RawText(doc)
    ensures forall i :: s <= i < e ==> r[i].state == Deleted
    ensures forall i :: 0 <= i < |doc| && !(s <= i < e) ==> r[i] == doc[i]
  {
    seq(|doc|, i requires 0 <= i < |doc| => if s <= i < e then Cell(doc[i].ch, Deleted) else doc[i])
  }

  /** The widget does a tracked deletion by deleting [s, e) and inserting
      the same text back with only the deleted tag; that is `Tombstone`. */
  lemma TombstoneIsDeleteReinsert(doc: seq<Cell>, s: nat, e: nat)
    requires s <= e <= |doc|
    ensures Tombstone(doc, s, e) == doc[..s] + AsDeleted(RawText(doc[s..e])) + doc[e..]
  {
    var mid := AsDeleted(RawText(doc[s..e]));
    var spliced := doc[..s] + mid + doc[e..];
    assert |mid| == e - s;
    forall i | 0 <= i < |doc| ensures spliced[i] == Tombstone(doc, s, e)[i] {
      if s <= i < e {
        assert spliced[i] == mid[i - s];
      }
    }
  }

  /** One character inserted at `pos`; everything after it shifts right by one. */
  function InsertAt(doc: seq<Cell>, pos: nat, c: Cell): (r: seq<Cell>)
    requires pos <= |doc|
    ensures |r| == |doc| + 1 && r[pos] == c
    ensures forall i :: 0 <= i < pos ==> r[i] == doc[i]
    ensures forall i :: pos <= i < |doc| ==> r[i + 1] == doc[i]
  {
    doc[..pos] + [c] + doc[pos..]
  }

  /** Typing over a selection [s, e): the new added character sits at the
      old selection start, immediately before the tombstoned run, which
      keeps its text; what was before s is untouched and what was after e
      shifts right by one. */
  lemma InsertAfterTombstone(doc: seq<Cell>, s: nat, e: nat, ch: char)
    requires s <= e <= |doc|
    ensures var r := InsertAt(Tombstone(doc, s, e), s, Cell(ch, Added));
      && |r| == |doc| + 1 && r[s] == Cell(ch, Added)
      && (forall i :: 0 <= i < s ==> r[i] == doc[i])
      && (forall i :: s <= i < e ==> r[i + 1] == Cell(doc[i].ch, Deleted))
      && (forall i :: e <= i < |doc| ==> r[i + 1] == doc[i])
  {
  }

  lemma {:induction false} LiveTextAppend(a: seq<Cell>, b: seq<Cell>)
    ensures LiveText(a + b) == LiveText(a) + LiveText(b)
    decreases |a|
  {
    if a == [] {
      assert a + b == b;
    } else {
      assert (a + b)[1..] == a[1..] + b;
      LiveTextAppend(a[1..], b);
    }
  }

  lemma {:induction false} LiveTextOfDeleted(text: seq<char>)
    ensures LiveText(AsDeleted(text)) == []
    decreases |text|
  {
    if text != [] {
      assert AsDeleted(text)[1..] == AsDeleted(text[1..]);
      LiveTextOfDeleted(text[1..]);
    }
  }

  /** A tombstoned range disappears from the live text; the rest reads as before. */
  lemma TombstoneHidesRange(doc: seq<Cell>, s: nat, e: nat)
    requires s <= e <= |doc|
    ensures LiveText(Tombstone(doc, s, e)) == LiveText(doc[..s]) + LiveText(doc[e..])
  {
    var mid := AsDeleted(RawText(doc[s..e]));
    TombstoneIsDeleteReinsert(doc, s, e);
    LiveTextAppend(doc[..s] + mid, doc[e..]);
    LiveTextAppend(doc[..s], mid);
    LiveTextOfDeleted(RawText(doc[s..e]));
  }

  /** A character inserted tagged added shows up in the live text exactly where it was typed. */
  lemma InsertAddedShows(doc: seq<Cell>, pos: nat, ch: char)
    requires pos <= |doc|
    ensures LiveText(InsertAt(doc, pos, Cell(ch, Added)))
         == LiveText(doc[..pos]) + [ch] + LiveText(doc[pos..])
  {
    LiveTextAppend(doc[..pos] + [Cell(ch, Added)], doc[pos..]);
    LiveTextAppend(doc[..pos], [Cell(ch, Added)]);
    assert [Cell(ch, Added)][1..] == [];
  }

  /** The live text is never longer than the document, and is as long
      exactly when the document holds no tombstone. */
  lemma {:induction false} LiveTextLength(doc: seq<Cell>)
    ensures |LiveText(doc)| <= |doc|
    ensures |LiveText(doc)| == |doc| <==> forall i :: 0 <= i < |doc| ==> doc[i].state != Deleted
    decreases |doc|
  {
    if doc != [] {
      LiveTextLength(doc[1..]);
      assert forall i :: 1 <= i < |doc| ==> doc[i] == doc[1..][i - 1];
    }
  }
}
