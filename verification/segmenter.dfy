/** The earliest-cut search of src/cutter.py (`cut_sequence_at_cutters`):
    every cutter proposes its leftmost match plus its split offset, the
    strictly smallest proposal below the length of the text wins, and the
    text before it is printed. */
module Segmenter {
  import opened Wrappers
  import opened PyText
  import opened CutterTable

  /** Where cutter `c` would cut `data`, if it may: its leftmost match plus its
      offset, kept only when it is below `|data|`, since the search starts from
      `len(data)` and only accepts strictly smaller points. */
  function Proposal(data: string, c: CutterT): Option<int>
  {
    match Find(data, c.pattern)
    case Some(i) => if i + c.splitAt < |data| then Some(i + c.splitAt) else None
    case None => None
  }

  /** The chosen cut: which cutter, and where. */
  datatype Cut = Cut(cutter: nat, point: int)

  /** `c` is the earliest cut: its cutter proposes its point, no cutter
      proposes an earlier point, and every cutter listed before it proposes a
      strictly later one or none (ties go to the first-listed cutter). */
  predicate IsEarliestCut(data: string, cutters: seq<CutterT>, c: Cut)
  {
    && c.cutter < |cutters|
    && Proposal(data, cutters[c.cutter]) == Some(c.point)
    && (forall k :: 0 <= k < |cutters| && Proposal(data, cutters[k]).Some? ==>
          c.point <= Proposal(data, cutters[k]).value)
    && (forall k :: 0 <= k < c.cutter && Proposal(data, cutters[k]).Some? ==>
          c.point < Proposal(data, cutters[k]).value)
  }

  /** No cutter proposes a cut. */
  predicate NoCut(data: string, cutters: seq<CutterT>)
  {
    forall k :: 0 <= k < |cutters| ==> Proposal(data, cutters[k]).None?
  }

  /** There is at most one earliest cut, so the search is deterministic. */
  lemma EarliestCutUnique(data: string, cutters: seq<CutterT>, c1: Cut, c2: Cut)
    requires IsEarliestCut(data, cutters, c1) && IsEarliestCut(data, cutters, c2)
    ensures c1 == c2
  {
    assert c1.point <= c2.point && c2.point <= c1.point;
  }

  /** The loop state `(lowest_splitloc, lowest_cutter)`; the cutter is kept
      by its position in the list. */
  datatype Lowest = Lowest(splitloc: int, cutter: Option<nat>)

  /** What the loop state says about the cutters already examined. */
  predicate ScanInv(data: string, cutters: seq<CutterT>, i: nat, st: Lowest)
  {
    && i <= |cutters|
    && match st.cutter
       case None =>
         && st.splitloc == |data|
         && forall k :: 0 <= k < i ==> Proposal(data, cutters[k]).None?
       case Some(j) =>
         && j < i
         && Proposal(data, cutters[j]) == Some(st.splitloc)
         && (forall k :: 0 <= k < i && Proposal(data, cutters[k]).Some? ==>
               st.splitloc <= Proposal(data, cutters[k]).value)
         && (forall k :: 0 <= k < j && Proposal(data, cutters[k]).Some? ==>
               st.splitloc < Proposal(data, cutters[k]).value)
  }

  /** One pass of the loop body for cutter `i`: find the pattern, add the
      offset, keep the point when it is strictly below the lowest so far. */
  function Step(data: string, cutters: seq<CutterT>, i: nat, st: Lowest): Lowest
    requires i < |cutters|
  {
    match Find(data, cutters[i].pattern)
    case Some(findloc) =>
      var splitloc := findloc + cutters[i].splitAt;
      if splitloc < st.splitloc then Lowest(splitloc, Some(i)) else st
    case None => st
  }

  /** The loop body keeps the loop invariant. */
  lemma StepKeepsInv(data: string, cutters: seq<CutterT>, i: nat, st: Lowest)
    requires i < |cutters| && ScanInv(data, cutters, i, st)
    ensures ScanInv(data, cutters, i + 1, Step(data, cutters, i, st))
  {
    assert st.splitloc <= |data| by {
      if st.cutter.Some? {
        assert Proposal(data, cutters[st.cutter.value]) == Some(st.splitloc);
      }
    }
    var next := Step(data, cutters, i, st);
    var p := Proposal(data, cutters[i]);
    if next != st {
      assert p == Some(next.splitloc);
    } else {
      assert p.Some? ==> st.splitloc <= p.value;
    }
  }

  /** The `for cutter in cutters` loop from cutter `i` on. */
  function Scan(data: string, cutters: seq<CutterT>, i: nat, st: Lowest): (r: Lowest)
    requires ScanInv(data, cutters, i, st)
    ensures ScanInv(data, cutters, |cutters|, r)
    decreases |cutters| - i
  {
    if i == |cutters| then st
    else
      StepKeepsInv(data, cutters, i, st);
      Scan(data, cutters, i + 1, Step(data, cutters, i, st))
  }

  /** The outcome of the search: `None` exactly when no cutter proposes a
      cut, and otherwise the earliest cut. */
  function EarliestCut(data: string, cutters: seq<CutterT>): (r: Option<Cut>)
    ensures r.None? <==> NoCut(data, cutters)
    ensures r.Some? ==> IsEarliestCut(data, cutters, r.value)
  {
    var st := Scan(data, cutters, 0, Lowest(|data|, None));
    match st.cutter
    case None => None
    case Some(j) => Some(Cut(j, st.splitloc))
  }

  /** What one call prints, and the string it returns. */
  datatype CutResult = CutResult(printed: seq<string>, rest: string)

  /** `cut_sequence_at_cutters`: prints at most one line, and the printed
      line followed by the returned string is `data`, so the call only ever
      moves a prefix of `data` to the output. */
  function CutSequenceAtCutters(data: string, cutters: seq<CutterT>): (r: CutResult)
    ensures |r.printed| <= 1
    ensures r.printed == [] ==> r.rest == data
    ensures r.printed != [] ==> r.printed[0] + r.rest == data
  {
    match EarliestCut(data, cutters)
    case None => CutResult([], data)
    case Some(c) =>
      SliceSplit(data, c.point);
      CutResult([SliceTo(data, c.point)], SliceFrom(data, c.point))
  }

  /** Which prefix is printed: nothing, with `data` returned unchanged, when
      no cutter proposes a cut (in particular when no pattern occurs);
      otherwise the text before the earliest cut (the Python slice
      `data[:point]`), with the text from it on returned. */
  lemma CutSequenceChoosesEarliest(data: string, cutters: seq<CutterT>)
    ensures var r := CutSequenceAtCutters(data, cutters);
            && (NoCut(data, cutters) ==> r.printed == [] && r.rest == data)
            && ((forall k :: 0 <= k < |cutters| ==> Find(data, cutters[k].pattern).None?) ==>
                  r.printed == [] && r.rest == data)
            && (forall c :: IsEarliestCut(data, cutters, c) ==>
                  r.printed == [SliceTo(data, c.point)] && r.rest == SliceFrom(data, c.point))
  {
    var e := EarliestCut(data, cutters);
    if e.Some? {
      forall c' | IsEarliestCut(data, cutters, c')
        ensures c' == e.value
      {
        EarliestCutUnique(data, cutters, e.value, c');
      }
    }
  }

  /** Every accepted cut lies below `len(data)`, so a cut never prints all
      of a non-empty `data`: at least its last character is returned. */
  lemma CutKeepsLastChar(data: string, cutters: seq<CutterT>)
    requires data != []
    ensures CutSequenceAtCutters(data, cutters).rest != []
  {
    var e := EarliestCut(data, cutters);
    if e.Some? {
      assert Proposal(data, cutters[e.value.cutter]) == Some(e.value.point);
      assert SliceIndex(|data|, e.value.point) < |data|;
    }
  }

  /** Printed text and returned text together are `data`. */
  lemma CutSequencePreservesText(data: string, cutters: seq<CutterT>)
    ensures var r := CutSequenceAtCutters(data, cutters);
            Concat(r.printed) + r.rest == data
  {
    var r := CutSequenceAtCutters(data, cutters);
    if r.printed != [] {
      assert r.printed == [r.printed[0]];
      assert Concat(r.printed) == r.printed[0] + Concat([]);
    }
  }

  /** With offsets that are all non-negative, a cut falls inside the text:
      the printed line is the plain prefix `data[..point]`, and the returned
      remainder is non-empty. */
  lemma CutWithinData(data: string, cutters: seq<CutterT>)
    requires forall k :: 0 <= k < |cutters| ==> cutters[k].splitAt >= 0
    requires !NoCut(data, cutters)
    ensures exists c :: IsEarliestCut(data, cutters, c) && 0 <= c.point < |data|
              && CutSequenceAtCutters(data, cutters) == CutResult([data[..c.point]], data[c.point..])
  {
    var c := EarliestCut(data, cutters).value;
    CutSequenceChoosesEarliest(data, cutters);
    assert Proposal(data, cutters[c.cutter]) == Some(c.point);
    assert 0 <= c.point < |data|;
    assert SliceIndex(|data|, c.point) == c.point;
    assert CutSequenceAtCutters(data, cutters) == CutResult([data[..c.point]], data[c.point..]);
  }

  /** A cutter parsed from a line without separator (a blank line, say)
      has the empty pattern and offset -1: it proposes -1 on any non-empty
      text, Python reads `data[:-1]`, and so everything but the last
      character is printed. Listed first, it wins whenever no offset is
      below -1. */
  lemma BlankCutterKeepsLastChar(data: string, cutters: seq<CutterT>)
    requires |cutters| > 0 && cutters[0] == CutterT([], -1)
    requires forall k :: 0 <= k < |cutters| ==> cutters[k].splitAt >= -1
    requires data != []
    ensures CutSequenceAtCutters(data, cutters) ==
              CutResult([data[..|data| - 1]], data[|data| - 1..])
  {
    assert OccursAt(data, [], 0);
    assert Proposal(data, cutters[0]) == Some(-1);
    assert IsEarliestCut(data, cutters, Cut(0, -1));
    CutSequenceChoosesEarliest(data, cutters);
  }
}
