/** Concrete runs of the cutter on small inputs: a one-cutter example that
    cuts once, and the two inputs on which the loop as written
    loses input that the corrected loop prints. */
module Scenarios {
  import opened PyText
  import opened CutterTable
  import opened Segmenter
  import opened Stream

  /* Small facts the runs below are assembled from. */

  lemma Mismatch(s: string, p: string, j: nat)
    requires j + |p| <= |s| && p != [] && s[j] != p[0]
    ensures !OccursAt(s, p, j)
  {
    assert s[j..j + |p|][0] == s[j];
  }

  lemma NoCutWhenAbsent(data: string, cutters: seq<CutterT>)
    requires forall k :: 0 <= k < |cutters| ==> Find(data, cutters[k].pattern).None?
    ensures CutSequenceAtCutters(data, cutters) == CutResult([], data)
  {
    CutSequenceChoosesEarliest(data, cutters);
  }

  lemma CutAtEarliest(data: string, cutters: seq<CutterT>, c: Cut)
    requires IsEarliestCut(data, cutters, c)
    ensures CutSequenceAtCutters(data, cutters) == CutResult([SliceTo(data, c.point)], SliceFrom(data, c.point))
  {
    CutSequenceChoosesEarliest(data, cutters);
  }

  const Agg := [CutterT("AGG", 1)]

  lemma AggAbsent(data: string)
    requires |data| < 3 || (|data| == 4 && data[0] != 'A' && data[1] != 'A')
             || (|data| == 3 && data[0] != 'A')
    ensures CutSequenceAtCutters(data, Agg) == CutResult([], data)
  {
    if |data| == 4 {
      Mismatch(data, "AGG", 0);
      Mismatch(data, "AGG", 1);
    } else if |data| == 3 {
      Mismatch(data, "AGG", 0);
    }
    assert Find(data, "AGG").None?;
    NoCutWhenAbsent(data, Agg);
  }

  lemma AggCut(data: string, i: nat)
    requires OccursAt(data, "AGG", i) && i + 1 < |data|
    requires forall j :: 0 <= j < i ==> data[j] != 'A'
    ensures CutSequenceAtCutters(data, Agg) == CutResult([data[..i + 1]], data[i + 1..])
  {
    forall j | 0 <= j < i
      ensures !OccursAt(data, "AGG", j)
    {
      Mismatch(data, "AGG", j);
    }
    FindAt(data, "AGG", i);
    assert IsEarliestCut(data, Agg, Cut(0, i + 1));
    CutAtEarliest(data, Agg, Cut(0, i + 1));
  }

  /* A one-line control file: pattern "AGG", cut after its "A". */

  lemma ExampleLines()
    ensures ReadLines("A|GG\n") == ["A|GG\n"]
  {
    var text := "A|GG\n";
    forall j | 0 <= j < 4
      ensures !OccursAt(text, "\n", j)
    {
      Mismatch(text, "\n", j);
    }
    FindAt(text, "\n", 4);
    assert text[5..] == [];
    assert text[..5] == text;
  }

  lemma ExampleLine()
    ensures ParseCutterLine("A|GG\n", '|') == CutterT("AGG", 1)
  {
    var text := "A|GG\n";
    Mismatch(text, "|", 0);
    FindAt(text, "|", 1);
    var cleaned := RemoveChar(text, '|');
    assert cleaned == "AGG\n" by {
      assert RemoveChar("\n", '|') == "\n";
      assert RemoveChar("G\n", '|') == "G\n";
      assert RemoveChar("GG\n", '|') == "GG\n";
      assert RemoveChar("|GG\n", '|') == "GG\n";
    }
    assert IsStripOf(cleaned, "AGG") by {
      assert StripAt(cleaned, "AGG", 0);
    }
    StripOfUnique(cleaned, "AGG", Strip(cleaned));
  }

  /** The control file "A|GG\n" holds one cutter: pattern "AGG", cut after
      its first character. */
  lemma ParseExampleCutterFile()
    ensures ParseCutterFile("A|GG\n", DefaultSep) == [CutterT("AGG", 1)]
  {
    ExampleLines();
    ExampleLine();
  }

  /** "TTAGGCC" is cut after "TTA" (match at 2, offset 1); the rest "GGCC"
      holds no match and is flushed as the final line. */
  lemma ExampleRun()
    ensures ParseDnaFile("TTAGGCC", Agg, 1024) == Run(["TTA", "GGCC"], [])
  {
    var input := "TTAGGCC";
    ExampleFirstIteration();
    ExampleTail();
    assert DnaLoop(Agg, 1024, input, []) == Run(["TTA"] + ["GGCC"], []);
  }

  /** Input that fits in one chunk and holds no newline is read whole. */
  lemma ReadWhole(chunksize: int, input: string, buffer: string)
    requires '\n' !in input && (chunksize < 0 || |input| <= chunksize)
    ensures ReadChunk(input, chunksize) == Chunk(input, [])
    ensures Considered(chunksize, input, buffer) == buffer + input
  {
  }

  lemma ExampleFirstIteration()
    ensures Iterate(Agg, 1024, "TTAGGCC", []) == Go(["TTA"], [], "GGCC")
  {
    ReadWhole(1024, "TTAGGCC", []);
    assert [] + "TTAGGCC" == "TTAGGCC";
    ExampleFirstCut();
    IterateByCut(Agg, 1024, "TTAGGCC", []);
  }

  lemma ExampleFirstCut()
    ensures CutSequenceAtCutters("TTAGGCC", Agg) == CutResult(["TTA"], "GGCC")
  {
    var input := "TTAGGCC";
    assert input == "TTA" + "GGCC";
    assert input[..3] == "TTA" && input[3..] == "GGCC";
    AggCut(input, 2);
  }

  lemma ExampleTail()
    ensures DnaLoop(Agg, 1024, [], "GGCC") == Run(["GGCC"], [])
  {
    ReadWhole(1024, [], "GGCC");
    assert "GGCC" + [] == "GGCC";
    AggAbsent("GGCC");
    IterateByCut(Agg, 1024, [], "GGCC");
    assert Iterate(Agg, 1024, [], "GGCC") == Stop([] + ["GGCC"], []);
  }

  lemma EarlyBreakIteration()
    ensures Iterate(Agg, 4, "TTTTAGG", []) == Stop(["TTTT"], "AGG")
  {
    assert ReadChunk("TTTTAGG", 4) == Chunk("TTTT", "AGG");
    assert '\n' !in "TTTT";
    assert [] + "TTTT" == "TTTT";
    assert Considered(4, "TTTTAGG", []) == "TTTT";
    AggAbsent("TTTT");
    IterateByCut(Agg, 4, "TTTTAGG", []);
    assert [] + ["TTTT"] == ["TTTT"];
  }

  /* A table led by a blank cutter line. */

  const Blank := [CutterT([], -1)]

  lemma BlankCutsBeforeLast()
    ensures CutSequenceAtCutters("ACGT", Blank) == CutResult(["ACG"], "T")
  {
    BlankCutterKeepsLastChar("ACGT", Blank);
    assert "ACGT"[..3] == "ACG" && "ACGT"[3..] == "T";
  }

  lemma BlankCutsLoneChar()
    ensures CutSequenceAtCutters("T", Blank) == CutResult([[]], "T")
  {
    BlankCutterKeepsLastChar("T", Blank);
    assert "T"[..0] == [] && "T"[0..] == "T";
  }

  lemma BlankFirstIteration()
    ensures Iterate(Blank, 1024, "ACGT", []) == Go(["ACG"], [], "T")
  {
    ReadWhole(1024, "ACGT", []);
    assert [] + "ACGT" == "ACGT";
    BlankCutsBeforeLast();
    IterateByCut(Blank, 1024, "ACGT", []);
  }

  lemma BlankLastIteration()
    ensures Iterate(Blank, 1024, [], "T") == Stop([[]] + ["T"], [])
  {
    ReadWhole(1024, [], "T");
    assert "T" + [] == "T";
    BlankCutsLoneChar();
    IterateByCut(Blank, 1024, [], "T");
  }

  /** A proof step of `BlankTail`, kept apart so that its solver context
      stays small: the printed list literal. */
  lemma BlankLines()
    ensures [[]] + ["T"] == [[], "T"]
  {
    var empty: string := [];
    assert [empty] + ["T"] == [empty, "T"];
  }

  lemma BlankTail()
    ensures DnaLoop(Blank, 1024, [], "T") == Run([[], "T"], [])
  {
    BlankLastIteration();
    BlankLines();
    DnaLoopOnStop(Blank, 1024, [], "T", [[], "T"], []);
  }

  /** Led by a blank cutter, `ACGT` is cut before its last character, and
      the lone "T" left over is cut at point -1, slice index 0: an empty
      line, then "T" flushed as the final text. */
  lemma BlankCutterRun()
    ensures ParseDnaFile("ACGT", Blank, 1024) == Run(["ACG", [], "T"], [])
  {
    BlankFirstIteration();
    BlankTail();
    assert DnaLoop(Blank, 1024, "ACGT", []) == Run(["ACG"] + [[], "T"], []);
  }

  /** The loop as written stops after the first chunk that holds no cut,
      here "TTTT" with a chunk size of 4, and never reads "AGG". */
  lemma EarlyBreakDropsInput()
    ensures ParseDnaFile("TTTTAGG", Agg, 4) == Run(["TTTT"], "AGG")
    ensures Concat(ParseDnaFile("TTTTAGG", Agg, 4).lines) != StripNewlines("TTTTAGG")
  {
    EarlyBreakIteration();
    assert DnaLoop(Agg, 4, "TTTTAGG", []) == Run(["TTTT"], "AGG");
    assert Concat(["TTTT"]) == "TTTT" + Concat([]);
    assert '\n' !in "TTTTAGG";
  }

  lemma IntendedLastChunk()
    ensures SegmentLoop(Agg, 4, [], "GG") == ["GG"]
  {
    assert ReadChunk([], 4) == Chunk([], []);
    assert StripNewlines([]) == [];
    assert "GG" + [] == "GG";
    AggAbsent("GG");
  }

  lemma IntendedSecondChunk()
    ensures SegmentLoop(Agg, 4, "AGG", "TTTT") == ["TTTTA", "GG"]
  {
    assert ReadChunk("AGG", 4) == Chunk("AGG", []);
    assert StripNewlines("AGG") == "AGG";
    var whole := "TTTT" + "AGG";
    assert whole == "TTTTAGG";
    AggCut(whole, 4);
    assert whole[..5] == "TTTTA" && whole[5..] == "GG";
    IntendedLastChunk();
  }

  /** The corrected loop reads on and cuts where the pattern straddles the
      chunk boundary. */
  lemma IntendedReadsOn()
    ensures SegmentStream("TTTTAGG", Agg, 4) == ["TTTTA", "GG"]
  {
    var input := "TTTTAGG";
    assert ReadChunk(input, 4) == Chunk("TTTT", "AGG");
    assert StripNewlines("TTTT") == "TTTT";
    assert [] + "TTTT" == "TTTT";
    AggAbsent("TTTT");
    IntendedSecondChunk();
  }

  /** The loop as written takes a chunk of newlines, which cleans to the
      empty string, for the end of the input when the buffer is empty. */
  lemma NewlineChunkEndsStream()
    ensures ParseDnaFile("\nA", [], 1) == Run([], "A")
    ensures Concat(ParseDnaFile("\nA", [], 1).lines) != StripNewlines("\nA")
  {
    assert ReadChunk("\nA", 1) == Chunk("\n", "A");
    assert StripNewlines("\n") == [];
    assert StripNewlines("\nA") == "A" by {
      assert "\nA"[1..] == "A";
      assert StripNewlines("A") == "A";
    }
  }

  /** The corrected loop skips the newline and prints the rest. */
  lemma IntendedSkipsNewlineChunk()
    ensures SegmentStream("\nA", [], 1) == ["A"]
  {
    assert ReadChunk("\nA", 1) == Chunk("\n", "A");
    assert StripNewlines("\n") == [];
    assert CutSequenceAtCutters([], []) == CutResult([], []);
    assert ReadChunk("A", 1) == Chunk("A", []);
    assert StripNewlines("A") == "A";
    assert [] + "A" == "A";
    assert CutSequenceAtCutters("A", []) == CutResult([], "A");
    assert SegmentLoop([], 1, [], "A") == ["A"];
  }
}
