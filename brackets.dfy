/** The bracket overlay: a leftmost, non-nesting scan of the raw text for
    `(` ... `)` pairs. Each pair runs from a `(` to the first `)` after it,
    both ends included; the scan resumes after that `)` and stops for good at
    the first `(` that has no `)` after it. */
module Brackets {

  /** Python's `text.find(c, from)` for a single character: the lowest index
      at or after `from` that holds `c`, or -1. */
  function Find(text: seq<char>, c: char, from: nat): (r: int)
    ensures r == -1 || (from <= r < |text| && text[r] == c)
    decreases |text| - from
  {
    if from >= |text| then -1
    else if text[from] == c then from
    else Find(text, c, from + 1)
  }

  /** A bracketed run: the positions of its `(` and of its `)`, both marked. */
  datatype Pair = Pair(open: nat, close: nat)

  /** The runs the scan marks when it starts at `start`. */
  function Pairs(text: seq<char>, start: nat): seq<Pair>
    decreases |text| - start
  {
    var open := Find(text, '(', start);
    var close := Find(text, ')', open + 1);
    if open == -1 || close == -1 then []
    else [Pair(open, close)] + Pairs(text, close + 1)
  }

  /** No `c` at any position in [lo, hi) of `text`. */
  ghost predicate NoneIn(text: seq<char>, c: char, lo: int, hi: int)
  {
    forall j :: lo <= j < hi && 0 <= j < |text| ==> text[j] != c
  }

  /** Where the scan looks for the `(` of the k-th run. */
  function Resume(start: nat, runs: seq<Pair>, k: nat): nat
    requires k <= |runs|
  {
    if k == 0 then start else runs[k - 1].close + 1
  }

  /** The k-th run is the leftmost `(` at or after the resume point, closed
      by the first `)` after it. */
  ghost predicate LeftmostRun(text: seq<char>, start: nat, runs: seq<Pair>, k: nat)
    requires k < |runs|
  {
    var p := runs[k];
    Resume(start, runs, k) <= p.open < p.close < |text|
    && text[p.open] == '(' && text[p.close] == ')'
    && NoneIn(text, '(', Resume(start, runs, k), p.open)
    && NoneIn(text, ')', p.open + 1, p.close)
  }

  /** From `s` on there is no run left: either no `(` at all, or the first
      `(` has no `)` anywhere after it. */
  ghost predicate Halted(text: seq<char>, s: nat)
  {
    NoneIn(text, '(', s, |text|)
    || exists o :: s <= o < |text| && text[o] == '(' && NoneIn(text, '(', s, o)
                   && NoneIn(text, ')', o + 1, |text|)
  }

  /** A declarative account of the scan, independent of `Find`: every run
      is leftmost and closed by the first `)`, and after the last run the
      scan has nothing more to find. */
  ghost predicate IsBracketScan(text: seq<char>, start: nat, runs: seq<Pair>)
  {
    (forall k :: 0 <= k < |runs| ==> LeftmostRun(text, start, runs, k))
    && Halted(text, Resume(start, runs, |runs|))
  }

  /** The overlay: one flag per position of `text`, set exactly on the
      positions some run covers, both brackets included. */
  function BracketOverlay(text: seq<char>): (r: seq<bool>)
  {
    var runs := Pairs(text, 0);
    seq(|text|, i requires 0 <= i < |text| => Covered(runs, i))
  }

  predicate Covered(runs: seq<Pair>, i: int)
  {
    exists k :: 0 <= k < |runs| && runs[k].open <= i <= runs[k].close
  }

  /** Adding a run to the list covers exactly its own positions in addition. */
  lemma CoveredSnoc(runs: seq<Pair>, p: Pair, i: int)
    ensures Covered(runs + [p], i) <==> Covered(runs, i) || p.open <= i <= p.close
  {
    if Covered(runs, i) {
      var k :| 0 <= k < |runs| && runs[k].open <= i <= runs[k].close;
      assert (runs + [p])[k] == runs[k];
    }
    if p.open <= i <= p.close {
      assert (runs + [p])[|runs|] == p;
    }
  }

  /** Flags set exactly on the first `n` positions the scan's runs cover
      are the overlay's first `n` flags. */
  lemma OverlayPrefixFromRuns(text: seq<char>, n: nat, runs: seq<Pair>, marks: seq<bool>)
    requires n <= |text| && runs == Pairs(text, 0)
    requires |marks| == n
    requires forall i :: 0 <= i < n ==> marks[i] == Covered(runs, i)
    ensures marks == BracketOverlay(text)[..n]
  {
  }

  /** `Find` gives the leftmost occurrence: nothing before it holds `c`,
      and -1 means no position at or after `from` does. */
  lemma {:induction false} FindLeftmost(text: seq<char>, c: char, from: nat)
    ensures Find(text, c, from) == -1 ==> NoneIn(text, c, from, |text|)
    ensures Find(text, c, from) != -1 ==> NoneIn(text, c, from, Find(text, c, from))
    decreases |text| - from
  {
    if from < |text| && text[from] != c {
      FindLeftmost(text, c, from + 1);
    }
  }

  lemma {:induction false} FindIsFirst(text: seq<char>, c: char, from: nat, r: nat)
    requires from <= r < |text| && text[r] == c && NoneIn(text, c, from, r)
    ensures Find(text, c, from) == r
    decreases r - from
  {
    if from < r {
      FindIsFirst(text, c, from + 1, r);
    }
  }

  lemma {:induction false} FindNone(text: seq<char>, c: char, from: nat)
    requires NoneIn(text, c, from, |text|)
    ensures Find(text, c, from) == -1
    decreases |text| - from
  {
    if from < |text| {
      FindNone(text, c, from + 1);
    }
  }

  lemma ResumeShift(start: nat, head: Pair, runs: seq<Pair>, k: nat)
    requires k <= |runs|
    ensures Resume(start, [head] + runs, k + 1) == Resume(head.close + 1, runs, k)
  {
    if k > 0 {
      assert ([head] + runs)[k] == runs[k - 1];
    }
  }

  /** A leftmost run followed by a scan from just after its `)` is a scan. */
  lemma ScanCons(text: seq<char>, start: nat, head: Pair, rest: seq<Pair>)
    requires start <= head.open < head.close < |text|
    requires text[head.open] == '(' && text[head.close] == ')'
    requires NoneIn(text, '(', start, head.open) && NoneIn(text, ')', head.open + 1, head.close)
    requires IsBracketScan(text, head.close + 1, rest)
    ensures IsBracketScan(text, start, [head] + rest)
  {
    var runs := [head] + rest;
    forall k | 0 <= k < |runs| ensures LeftmostRun(text, start, runs, k) {
      if k > 0 {
        ResumeShift(start, head, rest, k - 1);
        assert LeftmostRun(text, head.close + 1, rest, k - 1);
      }
    }
    ResumeShift(start, head, rest, |rest|);
  }

  /** What is left of a scan after its first run is a scan from just after
      that run's `)`. */
  lemma ScanTail(text: seq<char>, start: nat, runs: seq<Pair>)
    requires IsBracketScan(text, start, runs) && runs != []
    ensures LeftmostRun(text, start, runs, 0)
    ensures IsBracketScan(text, runs[0].close + 1, runs[1..])
  {
    var head, rest, next := runs[0], runs[1..], runs[0].close + 1;
    assert runs == [head] + rest;
    forall k | 0 <= k < |rest| ensures LeftmostRun(text, next, rest, k) {
      ResumeShift(start, head, rest, k);
      assert LeftmostRun(text, start, runs, k + 1);
    }
    ResumeShift(start, head, rest, |rest|);
  }

  /** When the scan finds no `(`, or no `)` after it, it marks nothing
      more and has halted. */
  lemma PairsNil(text: seq<char>, start: nat)
    requires Find(text, '(', start) == -1 || Find(text, ')', Find(text, '(', start) + 1) == -1
    ensures Pairs(text, start) == []
    ensures IsBracketScan(text, start, [])
  {
    var open := Find(text, '(', start);
    FindLeftmost(text, '(', start);
    FindLeftmost(text, ')', open + 1);
    if open != -1 {
      assert open == start + (open - start);
    }
  }

  /** The scan the editor runs is the declarative one. */
  lemma {:induction false} PairsIsBracketScan(text: seq<char>, start: nat)
    ensures IsBracketScan(text, start, Pairs(text, start))
    decreases |text| - start
  {
    var open := Find(text, '(', start);
    var close := Find(text, ')', open + 1);
    if open == -1 || close == -1 {
      PairsNil(text, start);
    } else {
      var rest := Pairs(text, close + 1);
      assert IsBracketScan(text, start, [Pair(open, close)] + rest) by {
        FindLeftmost(text, '(', start);
        FindLeftmost(text, ')', open + 1);
        PairsIsBracketScan(text, close + 1);
        ScanCons(text, start, Pair(open, close), rest);
      }
      PairsCons(text, start, open, close);
    }
  }

  /** A halted scan finds no `(`, or no `)` after the `(` it finds. */
  lemma HaltedStops(text: seq<char>, start: nat)
    requires Halted(text, start)
    ensures Find(text, '(', start) == -1 || Find(text, ')', Find(text, '(', start) + 1) == -1
  {
    if NoneIn(text, '(', start, |text|) {
      FindNone(text, '(', start);
    } else {
      var o :| start <= o < |text| && text[o] == '(' && NoneIn(text, '(', start, o)
               && NoneIn(text, ')', o + 1, |text|);
      FindIsFirst(text, '(', start, o);
      FindNone(text, ')', o + 1);
    }
  }

  /** Any run list that fits the declarative account is the one the scan
      produces, so the account pins the overlay down completely. */
  lemma {:induction false} BracketScanUnique(text: seq<char>, start: nat, runs: seq<Pair>)
    requires IsBracketScan(text, start, runs)
    ensures runs == Pairs(text, start)
    decreases |runs|
  {
    if runs == [] {
      HaltedStops(text, start);
      PairsNil(text, start);
    } else {
      ScanTail(text, start, runs);
      var head := runs[0];
      FindIsFirst(text, '(', start, head.open);
      FindIsFirst(text, ')', head.open + 1, head.close);
      BracketScanUnique(text, head.close + 1, runs[1..]);
      PairsCons(text, start, head.open, head.close);
      assert runs == [head] + runs[1..];
    }
  }

  /** Runs are in increasing order and pairwise disjoint: each one ends
      before the next one starts. */
  lemma RunsOrdered(text: seq<char>, start: nat, k: nat, l: nat)
    requires k < l < |Pairs(text, start)|
    ensures Pairs(text, start)[k].close < Pairs(text, start)[l].open
  {
    var runs := Pairs(text, start);
    PairsIsBracketScan(text, start);
    RunsOrderedFrom(text, start, runs, k, l);
  }

  lemma {:induction false} RunsOrderedFrom(text: seq<char>, start: nat, runs: seq<Pair>, k: nat, l: nat)
    requires k < l < |runs| && IsBracketScan(text, start, runs)
    ensures runs[k].close < runs[l].open
    decreases l - k
  {
    assert LeftmostRun(text, start, runs, l);
    if l > k + 1 {
      RunsOrderedFrom(text, start, runs, k, l - 1);
      assert LeftmostRun(text, start, runs, l - 1);
    }
  }

  /** Every marked run starts at a `(` and ends, inclusively, at the first
      `)` after it: nesting is ignored. */
  lemma RunShape(text: seq<char>, k: nat)
    requires k < |Pairs(text, 0)|
    ensures var p := Pairs(text, 0)[k];
      p.open < p.close < |text| && text[p.open] == '(' && text[p.close] == ')'
      && forall j :: p.open < j < p.close ==> text[j] != ')'
  {
    PairsIsBracketScan(text, 0);
    assert LeftmostRun(text, 0, Pairs(text, 0), k);
  }

  /** At a `(` with no `)` after it the scan stops: neither that `(` nor
      any position after it is marked. */
  lemma NoMarkFromUnmatchedOpen(text: seq<char>, u: nat)
    requires u < |text| && text[u] == '('
    requires forall j :: u < j < |text| ==> text[j] != ')'
    ensures forall i :: u <= i < |text| ==> !BracketOverlay(text)[i]
  {
    var runs := Pairs(text, 0);
    forall k | 0 <= k < |runs| ensures runs[k].close < u {
      RunShape(text, k);
    }
  }

  /** One step of the scan: a run is found, and the scan goes on after its `)`. */
  lemma PairsCons(text: seq<char>, start: nat, open: int, close: int)
    requires open == Find(text, '(', start) && open != -1
    requires close == Find(text, ')', open + 1) && close != -1
    ensures Pairs(text, start) == [Pair(open, close)] + Pairs(text, close + 1)
  {
  }

  /** Tk's `get("1.0", END)` hands the scan the text plus a trailing
      newline; a character that is not a bracket at the end changes no run. */
  lemma {:induction false} PairsIgnoreTrailing(text: seq<char>, x: char, start: nat)
    requires x != '(' && x != ')'
    ensures Pairs(text + [x], start) == Pairs(text, start)
    decreases |text| - start
  {
    var open := Find(text, '(', start);
    FindAppend(text, x, '(', start);
    if open != -1 {
      var close := Find(text, ')', open + 1);
      FindAppend(text, x, ')', open + 1);
      if close != -1 {
        PairsIgnoreTrailing(text, x, close + 1);
        PairsCons(text, start, open, close);
        PairsCons(text + [x], start, open, close);
      }
    }
  }

  lemma {:induction false} FindAppend(text: seq<char>, x: char, c: char, from: nat)
    requires x != c
    ensures Find(text + [x], c, from) == Find(text, c, from)
    decreases |text| + 1 - from
  {
    var t := text + [x];
    if from < |text| {
      assert t[from] == text[from];
      if text[from] != c {
        FindAppend(text, x, c, from + 1);
      }
    }
  }

  /** The overlay computed from the text plus a trailing non-bracket agrees
      with the overlay of the text on every position of the text. */
  lemma OverlayIgnoresTrailing(text: seq<char>, x: char)
    requires x != '(' && x != ')'
    ensures BracketOverlay(text + [x])[..|text|] == BracketOverlay(text)
  {
    PairsIgnoreTrailing(text, x, 0);
  }

  /** Nesting is not respected: in `a(b(c)d)e` only `(b(c)` is marked. */
  lemma NestedExample()
    ensures BracketOverlay("a(b(c)d)e")
         == [false, true, true, true, true, true, false, false, false]
  {
    var text := "a(b(c)d)e";
    var runs := [Pair(1, 5)];
    assert LeftmostRun(text, 0, runs, 0);
    assert NoneIn(text, '(', 6, |text|);
    BracketScanUnique(text, 0, runs);
  }

  /** An unmatched `(` stops the scan: in `(ab) (cd` only `(ab)` is marked. */
  lemma UnmatchedExample()
    ensures BracketOverlay("(ab) (cd")
         == [true, true, true, true, false, false, false, false]
  {
    var text := "(ab) (cd";
    var runs := [Pair(0, 3)];
    assert LeftmostRun(text, 0, runs, 0);
    assert text[5] == '(' && NoneIn(text, '(', 4, 5) && NoneIn(text, ')', 6, |text|);
    BracketScanUnique(text, 0, runs);
  }
}
