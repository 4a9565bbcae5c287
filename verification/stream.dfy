/** The streaming loop of src/cutter.py (`parse_dna_file`): read a chunk,
    drop its newlines, append it to the buffer, make at most one cut, and
    stop, flushing the considered text, as soon as an iteration leaves it
    unchanged. Printing is appending to `lines`; standard input is the
    string `input`, read `chunksize` characters at a time. */
module Stream {
  import opened PyText
  import opened CutterTable
  import opened Segmenter

  /** `s.replace("\n", "")`, applied to every chunk read. */
  function StripNewlines(s: string): string
  {
    RemoveChar(s, '\n')
  }

  /** The lines printed by a run, and the input it never read. */
  datatype Run = Run(lines: seq<string>, unread: string)

  /** `u` is what is left of `input` after reading a prefix of it. */
  predicate IsSuffix(u: string, input: string)
  {
    |u| <= |input| && input[|input| - |u|..] == u
  }

  /** The part of `input` a run consumed. */
  function Consumed(input: string, unread: string): string
    requires IsSuffix(unread, input)
  {
    input[..|input| - |unread|]
  }

  /** Only the second-to-last line may be empty. It is empty when the final
      iteration's cut has Python slice index 0: point 0, or a negative point
      that reaches back to the start, such as -1 on a one-character text. */
  predicate OnlyPenultimateEmpty(lines: seq<string>)
  {
    forall k :: 0 <= k < |lines| && lines[k] == [] ==> k == |lines| - 2
  }

  /** The text flushed last: non-empty, and one the search leaves unchanged
      (no cutter proposes a cut in it, or the cut has slice index 0). */
  predicate IsFinalText(cutters: seq<CutterT>, last: string)
  {
    last != [] && CutSequenceAtCutters(last, cutters).rest == last
  }

  /** What one iteration of the loop does: stop after printing `printed`,
      or print `printed` and go on with a new buffer. Either way `unread` is
      the input not yet read. */
  datatype Iteration =
    | Stop(printed: seq<string>, unread: string)
    | Go(printed: seq<string>, unread: string, buffer: string)

  /** One pass of the `while` body of `parse_dna_file`: read a chunk and
      drop its newlines; stop if both it and the buffer are empty; otherwise
      cut `buffer + data` once, and stop, flushing it, if it came back
      unchanged.
      A stopping pass prints the buffer and the newline-free chunk: nothing
      if both are empty, otherwise a final text, possibly preceded by the
      empty line of a cut at slice index 0 (point 0, or point -1 on a
      one-character text). A continuing pass prints exactly one non-empty
      line, so its cut has slice index at least 1, and that line followed by
      the new, non-empty buffer is
      the old buffer followed by the newline-free chunk. Each continuing
      pass reads input or shrinks the buffer. */
  function Iterate(cutters: seq<CutterT>, chunksize: int, input: string, buffer: string): (it: Iteration)
    ensures IsSuffix(it.unread, input)
    ensures it.Stop? ==> Concat(it.printed) == buffer + StripNewlines(Consumed(input, it.unread))
    ensures it.Stop? && it.printed == [] ==> buffer == []
    ensures it.Stop? && it.printed != [] ==>
              && it.printed[|it.printed| - 1] != []
              && (|it.printed| == 1 || (|it.printed| == 2 && it.printed[0] == []))
    ensures it.Go? ==>
              && |it.printed| == 1 && it.printed[0] != [] && it.buffer != []
              && Concat(it.printed) + it.buffer == buffer + StripNewlines(Consumed(input, it.unread))
    ensures it.Go? ==> |it.unread| < |input| || (it.unread == input && |it.buffer| < |buffer|)
  {
    var chunk := ReadChunk(input, chunksize);
    var data := StripNewlines(chunk.text);
    ChunkConsumed(input, chunk);
    if data == [] && buffer == [] then Stop([], chunk.rest)
    else
      var consider := buffer + data;
      var cut := CutSequenceAtCutters(consider, cutters);
      if consider == cut.rest then
        var lines := cut.printed + [consider];
        FlushShape(cut.printed, consider, lines);
        Stop(lines, chunk.rest)
      else
        CutKeepsLastChar(consider, cutters);
        CutShape(cut.printed, cut.rest, consider);
        assert chunk.text == [] ==> consider == buffer;
        Go(cut.printed, chunk.rest, cut.rest)
  }

  /** A read consumes exactly the text it returns, and reads something
      unless it returns nothing. */
  lemma ChunkConsumed(input: string, chunk: Chunk)
    requires chunk.text + chunk.rest == input
    ensures IsSuffix(chunk.rest, input)
    ensures Consumed(input, chunk.rest) == chunk.text
    ensures chunk.text == [] ==> chunk.rest == input
    ensures chunk.text != [] ==> |chunk.rest| < |input|
  {
    ConsumedSplit(input, chunk.text, chunk.rest, chunk.rest);
  }

  /** The lines a stopping iteration prints when the cut left `consider`
      unchanged: at most an empty line, then `consider` itself. */
  lemma FlushShape(printed: seq<string>, consider: string, lines: seq<string>)
    requires consider != [] && |printed| <= 1
    requires printed != [] ==> printed[0] + consider == consider
    requires lines == printed + [consider]
    ensures Concat(lines) == consider
    ensures lines != [] && lines[|lines| - 1] == consider
    ensures |lines| == 1 || (|lines| == 2 && lines[0] == [])
  {
    assert printed != [] ==> printed == [[]];
    assert Concat([consider]) == consider + Concat([]);
    ConcatAppend(printed, [consider]);
  }

  /** The single line a cutting iteration prints: non-empty, and followed by
      the kept remainder it is the considered text. */
  lemma CutShape(printed: seq<string>, rest: string, consider: string)
    requires |printed| <= 1
    requires printed == [] ==> rest == consider
    requires printed != [] ==> printed[0] + rest == consider
    requires rest != consider
    ensures |printed| == 1 && printed[0] != []
    ensures Concat(printed) + rest == consider
  {
    assert Concat(printed) == printed[0] + Concat([]);
  }

  /** The `while` loop of `parse_dna_file` from the state (unread input,
      buffer). The counter `n` of the source is never incremented, so its
      guard never stops the loop; the loop ends because each iteration
      either consumes input or shrinks the buffer, which is the `decreases`
      measure. */
  function DnaLoop(cutters: seq<CutterT>, chunksize: int, input: string, buffer: string): (r: Run)
    ensures IsSuffix(r.unread, input)
    decreases |input|, |buffer|
  {
    match Iterate(cutters, chunksize, input, buffer)
    case Stop(printed, unread) => Run(printed, unread)
    case Go(printed, unread, next) =>
      var r := DnaLoop(cutters, chunksize, unread, next);
      Run(printed + r.lines, r.unread)
  }

  /** Reading `text` off the front of `input` and then consuming part of
      the rest consumes `text` followed by that part. */
  lemma ConsumedSplit(input: string, text: string, rest: string, unread: string)
    requires text + rest == input
    requires IsSuffix(unread, rest)
    ensures IsSuffix(unread, input)
    ensures Consumed(input, unread) == text + Consumed(rest, unread)
  {
    assert input[|input| - |unread|..] == rest[|rest| - |unread|..];
  }

  /** The bookkeeping of one cutting iteration: if it printed `printed`
      and kept `next`, together the old buffer followed by the newline-free
      chunk `text`, and the later iterations print `next` followed by the
      newline-free later input `rest`, the whole run prints the old buffer
      followed by `text + rest` without newlines. */
  lemma CompleteAfterCut(printed: seq<string>, next: string, buffer: string, text: string,
                         later: seq<string>, rest: string)
    requires Concat(printed) + next == buffer + StripNewlines(text)
    requires Concat(later) == next + StripNewlines(rest)
    ensures Concat(printed + later) == buffer + StripNewlines(text + rest)
  {
    ConcatAppend(printed, later);
    RemoveCharAppend(text, rest, '\n');
    Regroup(Concat(printed), next, buffer, StripNewlines(text), StripNewlines(rest));
  }

  /** A proof step of `CompleteAfterCut`, kept apart so that its solver
      context stays small: moving a common tail across an equation of
      concatenations. */
  lemma Regroup(p: string, n: string, b: string, a: string, r: string)
    requires p + n == b + a
    ensures p + (n + r) == b + (a + r)
  {
    calc {
      p + (n + r);
      (p + n) + r;
      (b + a) + r;
      b + (a + r);
    }
  }

  /** Every run prints, line after line, exactly the buffer followed by the
      newline-free text of the input it consumed. */
  lemma {:induction false} DnaLoopComplete(cutters: seq<CutterT>, chunksize: int, input: string, buffer: string)
    ensures var r := DnaLoop(cutters, chunksize, input, buffer);
            Concat(r.lines) == buffer + StripNewlines(Consumed(input, r.unread))
    decreases |input|, |buffer|
  {
    var it := Iterate(cutters, chunksize, input, buffer);
    if it.Go? {
      var r' := DnaLoop(cutters, chunksize, it.unread, it.buffer);
      DnaLoopComplete(cutters, chunksize, it.unread, it.buffer);
      var text := Consumed(input, it.unread);
      var rest := Consumed(it.unread, r'.unread);
      ConsumedSplit(input, text, it.unread, r'.unread);
      CompleteAfterCut(it.printed, it.buffer, buffer, text, r'.lines, rest);
    }
  }

  /** Putting a non-empty line in front of a run's output keeps its last
      line and its only possibly empty line where they were. */
  lemma PrependLine(line: string, later: seq<string>)
    requires line != [] && later != [] && OnlyPenultimateEmpty(later)
    ensures OnlyPenultimateEmpty([line] + later)
    ensures ([line] + later)[|later|] == later[|later| - 1]
  {
    var lines := [line] + later;
    forall k | 0 <= k < |lines| && lines[k] == []
      ensures k == |lines| - 2
    {
      assert k > 0 && lines[k] == later[k - 1];
    }
  }

  /** The lines of a stopping iteration have only their penultimate line
      possibly empty. */
  lemma StopLines(printed: seq<string>)
    requires printed != [] ==> printed[|printed| - 1] != []
    requires printed == [] || |printed| == 1 || (|printed| == 2 && printed[0] == [])
    ensures OnlyPenultimateEmpty(printed)
  {
  }

  /** Only the second-to-last printed line can be empty, and with a
      non-empty buffer something is printed. */
  lemma {:induction false} DnaLoopLines(cutters: seq<CutterT>, chunksize: int, input: string, buffer: string)
    ensures var lines := DnaLoop(cutters, chunksize, input, buffer).lines;
            && OnlyPenultimateEmpty(lines)
            && (buffer != [] ==> lines != [])
    decreases |input|, |buffer|
  {
    var it := Iterate(cutters, chunksize, input, buffer);
    if it.Go? {
      var r := DnaLoop(cutters, chunksize, it.unread, it.buffer);
      DnaLoopLines(cutters, chunksize, it.unread, it.buffer);
      assert it.printed == [it.printed[0]];
      PrependLine(it.printed[0], r.lines);
      assert DnaLoop(cutters, chunksize, input, buffer).lines == [it.printed[0]] + r.lines;
    } else {
      StopLines(it.printed);
      assert DnaLoop(cutters, chunksize, input, buffer).lines == it.printed;
    }
  }

  /** A stopping iteration that prints ends on a final text: what it
      flushes is the considered text the search left unchanged. */
  lemma IterateStopsOnFinalText(cutters: seq<CutterT>, chunksize: int, input: string, buffer: string)
    ensures var it := Iterate(cutters, chunksize, input, buffer);
            it.Stop? && it.printed != [] ==> IsFinalText(cutters, it.printed[|it.printed| - 1])
  {
  }

  /** The text an iteration hands to the search: the buffer followed by the
      next chunk with its newlines removed. */
  function Considered(chunksize: int, input: string, buffer: string): string
  {
    buffer + StripNewlines(ReadChunk(input, chunksize).text)
  }

  /** A continuing iteration cuts where the cutter table says: at the
      earliest cut of the considered text, printing the text before it and
      keeping the text from it on as the new buffer. */
  lemma IterateCutsAtEarliest(cutters: seq<CutterT>, chunksize: int, input: string, buffer: string)
    ensures var it := Iterate(cutters, chunksize, input, buffer);
            var consider := Considered(chunksize, input, buffer);
            it.Go? ==> exists c :: && IsEarliestCut(consider, cutters, c)
                                   && it.printed == [SliceTo(consider, c.point)]
                                   && it.buffer == SliceFrom(consider, c.point)
  {
    var it := Iterate(cutters, chunksize, input, buffer);
    var consider := Considered(chunksize, input, buffer);
    CutSequenceChoosesEarliest(consider, cutters);
    if it.Go? {
      var c := EarliestCut(consider, cutters).value;
      assert IsEarliestCut(consider, cutters, c);
    }
  }

  /** The `break`s of the loop: an iteration stops exactly when the
      considered text is empty or the search hands it back unchanged. An
      empty text stops with nothing printed; an unchanged one is printed
      after whatever the search printed. Either way the chunk is consumed. */
  lemma IterateStopsWhenUnchanged(cutters: seq<CutterT>, chunksize: int, input: string, buffer: string)
    ensures var it := Iterate(cutters, chunksize, input, buffer);
            var consider := Considered(chunksize, input, buffer);
            var cut := CutSequenceAtCutters(consider, cutters);
            && (it.Stop? <==> (consider == [] || cut.rest == consider))
            && (consider == [] ==> it.printed == [])
            && (consider != [] && cut.rest == consider ==> it.printed == cut.printed + [consider])
            && it.unread == ReadChunk(input, chunksize).rest
  {
  }

  /** An iteration on a non-empty considered text is determined by the one
      call to the search: it stops, printing what the search printed and then
      the text, when the search hands the text back unchanged, and otherwise
      goes on with the search's line and remainder. */
  lemma IterateByCut(cutters: seq<CutterT>, chunksize: int, input: string, buffer: string)
    requires Considered(chunksize, input, buffer) != []
    ensures var consider := Considered(chunksize, input, buffer);
            var cut := CutSequenceAtCutters(consider, cutters);
            var rest := ReadChunk(input, chunksize).rest;
            Iterate(cutters, chunksize, input, buffer) ==
              if cut.rest == consider then Stop(cut.printed + [consider], rest)
              else Go(cut.printed, rest, cut.rest)
  {
  }

  /** A run whose first iteration stops is that iteration. */
  lemma DnaLoopOnStop(cutters: seq<CutterT>, chunksize: int, input: string, buffer: string,
                      printed: seq<string>, unread: string)
    requires Iterate(cutters, chunksize, input, buffer) == Stop(printed, unread)
    ensures DnaLoop(cutters, chunksize, input, buffer) == Run(printed, unread)
  {
  }

  /** The loop as written ends, printing nothing, as soon as the first chunk
      cleans to the empty string, whatever input follows it. */
  lemma FirstChunkBlankStops(cutters: seq<CutterT>, chunksize: int, input: string)
    requires StripNewlines(ReadChunk(input, chunksize).text) == []
    ensures DnaLoop(cutters, chunksize, input, []) == Run([], ReadChunk(input, chunksize).rest)
  {
    var chunk := ReadChunk(input, chunksize);
    assert Iterate(cutters, chunksize, input, []) == Stop([], chunk.rest);
  }

  /** If the input holds nothing but newlines, the first chunk cleans to the
      empty string with an empty buffer and nothing is printed. */
  lemma BlankInputPrintsNothing(cutters: seq<CutterT>, chunksize: int, input: string)
    requires StripNewlines(input) == []
    ensures DnaLoop(cutters, chunksize, input, []).lines == []
  {
    var chunk := ReadChunk(input, chunksize);
    RemoveCharAppend(chunk.text, chunk.rest, '\n');
    assert Iterate(cutters, chunksize, input, []) == Stop([], chunk.rest);
  }

  /** `parse_dna_file`: what it prints, line by line, concatenates to the
      newline-free text of the input it read; the input it did not read is a
      suffix; input with no characters other than newlines prints nothing;
      and every line is non-empty except possibly the second-to-last. */
  function ParseDnaFile(input: string, cutters: seq<CutterT>, chunksize: int): (r: Run)
    ensures IsSuffix(r.unread, input)
    ensures Concat(r.lines) == StripNewlines(Consumed(input, r.unread))
    ensures StripNewlines(input) == [] ==> r.lines == []
    ensures OnlyPenultimateEmpty(r.lines)
  {
    DnaLoopComplete(cutters, chunksize, input, []);
    DnaLoopLines(cutters, chunksize, input, []);
    if StripNewlines(input) == [] then
      BlankInputPrintsNothing(cutters, chunksize, input);
      DnaLoop(cutters, chunksize, input, [])
    else
      DnaLoop(cutters, chunksize, input, [])
  }

  /** With no cutter pattern anywhere in the cleaned input, input that fits
      in one chunk comes out as a single line. */
  lemma SingleChunkNoMatch(input: string, cutters: seq<CutterT>, chunksize: int)
    requires chunksize < 0 || |input| <= chunksize
    requires StripNewlines(input) != []
    requires forall k :: 0 <= k < |cutters| ==> Find(StripNewlines(input), cutters[k].pattern).None?
    ensures ParseDnaFile(input, cutters, chunksize) == Run([StripNewlines(input)], [])
  {
    var chunk := ReadChunk(input, chunksize);
    assert chunk.text == input;
    var consider := [] + StripNewlines(input);
    assert consider == StripNewlines(input);
    CutSequenceChoosesEarliest(consider, cutters);
  }

  /* ---------------------------------------------------------------------- */
  /* The loop as evidently intended                                         */
  /* ---------------------------------------------------------------------- */

  /** The loop with the two early exits corrected: the source counts as
      exhausted only when a read returns nothing at all (not when a chunk of
      newlines cleans to nothing), and an iteration that makes no progress
      ends the loop only once the source is exhausted; otherwise the next
      chunk is read. With a `chunksize` of 0 no read advances, so the loop
      treats the source as exhausted and cuts only its buffer. Only those two exits are corrected: while
      input remains, a considered text whose cut has slice index 0 still
      prints an empty line and is carried on unchanged, so such a text
      prints one empty line per chunk read before the final text. */
  function SegmentLoop(cutters: seq<CutterT>, chunksize: int, input: string, buffer: string): (lines: seq<string>)
    decreases |input|, |buffer|
  {
    var chunk := ReadChunk(input, chunksize);
    var data := StripNewlines(chunk.text);
    if chunk.text == [] && buffer == [] then []
    else
      var consider := buffer + data;
      var cut := CutSequenceAtCutters(consider, cutters);
      if chunk.text == [] && consider == cut.rest then
        cut.printed + [consider]
      else
        assert chunk.text == [] ==> chunk.rest == input && data == [] && consider == buffer;
        cut.printed + SegmentLoop(cutters, chunksize, chunk.rest, cut.rest)
  }

  /** The corrected loop prints the buffer followed by all of the input,
      newlines removed. */
  lemma {:induction false} SegmentLoopComplete(cutters: seq<CutterT>, chunksize: int, input: string, buffer: string)
    requires chunksize != 0
    ensures Concat(SegmentLoop(cutters, chunksize, input, buffer)) == buffer + StripNewlines(input)
    decreases |input|, |buffer|
  {
    var chunk := ReadChunk(input, chunksize);
    var data := StripNewlines(chunk.text);
    if chunk.text == [] {
      assert input == [];
    }
    if chunk.text == [] && buffer == [] {
    } else {
      var consider := buffer + data;
      var cut := CutSequenceAtCutters(consider, cutters);
      CutSequencePreservesText(consider, cutters);
      if chunk.text == [] && consider == cut.rest {
        ConcatAppend(cut.printed, [consider]);
        assert Concat([consider]) == consider + Concat([]);
      } else {
        SegmentLoopComplete(cutters, chunksize, chunk.rest, cut.rest);
        CompleteAfterCut(cut.printed, cut.rest, buffer, chunk.text,
                         SegmentLoop(cutters, chunksize, chunk.rest, cut.rest), chunk.rest);
      }
    }
  }

  /** The corrected `parse_dna_file`: the printed lines concatenate to the
      whole input with its newlines removed, none of it left unread. */
  function SegmentStream(input: string, cutters: seq<CutterT>, chunksize: int): (lines: seq<string>)
    requires chunksize != 0
    ensures Concat(lines) == StripNewlines(input)
  {
    SegmentLoopComplete(cutters, chunksize, input, []);
    SegmentLoop(cutters, chunksize, input, [])
  }

  /** With no cutter pattern anywhere in the text still to come, the
      corrected loop accumulates everything and prints it as one line. */
  lemma {:induction false} SegmentLoopNoMatch(cutters: seq<CutterT>, chunksize: int, input: string, buffer: string)
    requires chunksize != 0
    requires forall k :: 0 <= k < |cutters| ==> Find(buffer + StripNewlines(input), cutters[k].pattern).None?
    ensures SegmentLoop(cutters, chunksize, input, buffer) ==
              if buffer + StripNewlines(input) == [] then [] else [buffer + StripNewlines(input)]
    decreases |input|, |buffer|
  {
    var whole := buffer + StripNewlines(input);
    var chunk := ReadChunk(input, chunksize);
    var data := StripNewlines(chunk.text);
    RemoveCharAppend(chunk.text, chunk.rest, '\n');
    var consider := buffer + data;
    assert whole == consider + StripNewlines(chunk.rest);
    if chunk.text == [] {
      assert input == [];
      assert consider == whole;
    }
    if !(chunk.text == [] && buffer == []) {
      forall k | 0 <= k < |cutters|
        ensures Find(consider, cutters[k].pattern).None?
      {
        forall j | OccursAt(consider, cutters[k].pattern, j)
          ensures false
        {
          OccursInExtension(consider, StripNewlines(chunk.rest), cutters[k].pattern, j);
        }
      }
      CutSequenceChoosesEarliest(consider, cutters);
      if chunk.text != [] {
        SegmentLoopNoMatch(cutters, chunksize, chunk.rest, consider);
      }
    }
  }

  /** The no-match property for the corrected loop: input in
      which no cutter pattern occurs is printed as exactly one line. */
  lemma SegmentStreamNoMatch(input: string, cutters: seq<CutterT>, chunksize: int)
    requires chunksize != 0
    requires StripNewlines(input) != []
    requires forall k :: 0 <= k < |cutters| ==> Find(StripNewlines(input), cutters[k].pattern).None?
    ensures SegmentStream(input, cutters, chunksize) == [StripNewlines(input)]
  {
    assert [] + StripNewlines(input) == StripNewlines(input);
    SegmentLoopNoMatch(cutters, chunksize, input, []);
  }
}
