# dna-cutter, modelled in Dafny

The dna-cutter reads a table of *cutters* from a control file. Each line,
such as `A|GG`, names a DNA pattern (`AGG`) and, through the position of
the separator `|`, the offset inside a match where the sequence is to be
cut. It then reads a DNA sequence from standard input in chunks and prints
it as one segment per line, each segment ending just before a cut point.

The model covers the four pieces of `src/cutter.py` that do the work:

- **`CutterT` and `parse_cutter_file`** (module `CutterTable`). One cutter
  per line, in file order. The pattern is the line with every separator
  deleted and surrounding whitespace stripped. The offset is the index of
  the first separator in the raw line, or -1.
- **`cut_sequence_at_cutters`** (module `Segmenter`). Each cutter proposes
  its leftmost match plus its offset. The strictly smallest proposal below
  the length of the text wins, and ties go to the cutter listed first. The
  text before the cut is printed and the rest is returned.
- **`parse_dna_file`** (module `Stream`). Read a chunk, drop its newlines,
  append it to the buffer and cut once. The loop stops, flushing the
  buffer, as soon as an iteration leaves the text unchanged.
- **The Python primitives these rely on** (module `PyText`): `str.find`,
  `str.replace(c, "")`, `str.strip()`, `file.readlines()`, `file.read(n)`,
  and slicing with negative bounds. Each has an independent
  characterisation, and the model is proved against it.

Printing is modelled as appending a line to a `seq<string>`. Standard input
is a string read `chunksize` characters at a time. `parse_dna_file` returns
a `Run`: the printed lines and the input it never read. Returning the
unread input makes an early stop visible.

The field `seq` of `CutterT` is called `pattern`, because `seq` is a
keyword in Dafny. The source's -1 from `str.find` becomes `Option.None`.
The offset -1 of a line without separator is kept as it is. Slicing goes
through Python's bound normalisation (`PyText.SliceIndex`), so `data[:-1]`
means what it means in Python.

Module `Scenarios` works concrete runs through the model:

- the one-line control file `A|GG`;
- the example input `TTAGGCC`;
- the two inputs on which the loop as written loses input (see Findings).

## Behaviour that may surprise a reader

- **The cut point is match start plus offset.** With the cutter `A|GG`
  (pattern `AGG`, offset 1), `TTAGGCC` has its match at 2. The cut falls
  at 3, so `TTA` is printed and `data[3:]`, which is `GGCC`, is kept. Its
  first `G` belongs to the remainder, and the run prints `TTA` then `GGCC`
  (`Scenarios.ExampleRun`).
- **Offsets can be -1.** `split_at` is `line.find(sep)` on the raw line
  (src/cutter.py:39). A line without a separator therefore gets -1, and
  the value is not clamped to the pattern.
- **A blank cutter line does not cut into single characters.** A blank
  line parses to `CutterT("", -1)`. The empty pattern is found at 0 in any
  text, so the proposed point is -1. Python reads `data[:-1]` as
  everything but the last character
  (`Segmenter.BlankCutterKeepsLastChar`). When a blank cutter leads the
  table, each run that prints anything ends with an empty line and then
  the last character. The single remaining character gets point -1, whose
  slice index is 0, so the cut prints `""` and hands the character back
  unchanged, and the loop flushes it. On `ACGT` the run prints `ACG`,
  `""`, `T` (`Scenarios.BlankCutterRun`).
- **The loop does not always read to the end of the input.** It breaks at
  the first iteration that makes no cut (src/cutter.py:82-84). It also
  breaks at a chunk made only of newlines when the buffer is empty
  (src/cutter.py:77-79). See Findings.

## Model

| member | source | states |
|---|---|---|
| PyText.Find | src/cutter.py:53 | `str.find`: if it returns an index, the pattern occurs there and at no earlier index; it returns nothing exactly when the pattern occurs nowhere |
| PyText.FindAt | src/cutter.py:53 | the result of `find` is fixed by the first occurrence: an occurrence at `i` with none before means `find` returns `i` |
| PyText.RemoveChar | src/cutter.py:38 | `replace(c, "")` leaves no `c`, leaves a string without `c` unchanged, and never lengthens the string |
| PyText.RemoveCharMultiset | src/cutter.py:38 | deleting `c` keeps every other character with its multiplicity and removes all copies of `c` |
| PyText.RemoveCharAppend | src/cutter.py:77 | deleting newlines commutes with concatenation, so cleaning chunk by chunk equals cleaning the whole input |
| PyText.Strip | src/cutter.py:38 | `strip()` returns a slice of its argument that only whitespace surrounds (Python's `isspace` set) and that neither starts nor ends with whitespace |
| PyText.StripOfUnique | src/cutter.py:38 | at most one string has that property, so the characterisation determines `strip()` completely |
| PyText.StripKeepsAbsent | src/cutter.py:38 | a character absent from the line is absent from its stripped form |
| PyText.ReadLines | src/cutter.py:35 | `readlines()` splits the text into lines that concatenate back to it; each line is non-empty with at most a final "\n", and every line but the last ends in "\n" |
| PyText.SliceIndex | src/cutter.py:60-64 | a slice bound counts from the end when negative and is clamped to `0..len`: a bound within range is kept, a negative one within range becomes `len + k`, and bounds beyond either end go to that end |
| PyText.SliceSplit | src/cutter.py:60-64 | for every bound `k`, negative ones included, `s[:k] + s[k:] == s`, and `s[:k]` has the normalised bound as its length |
| PyText.ReadChunk | src/cutter.py:77 | `read(n)` returns a prefix of the unread input, `n` characters or what is left if fewer, and everything when `n` is negative |
| CutterTable.ParseCutterLine | src/cutter.py:37-40 | the parsed pattern is the stripped line with the separator deleted and holds no separator; `split_at` is the index of the first separator in the raw line, or -1 |
| CutterTable.SplitAtFromFind | src/cutter.py:39 | `line.find(sep)` is the first separator position in the raw, unstripped line, or -1 when there is none |
| CutterTable.ParsedFromUnique | src/cutter.py:37-40 | at most one cutter satisfies that characterisation for a given line |
| CutterTable.LinePatternHasNoNewline | src/cutter.py:35-38 | the pattern of a line from `readlines` contains no newline |
| CutterTable.ParseCutterFile | src/cutter.py:31-42 | exactly one cutter per line of the file, in file order, each characterised by its own raw line; no pattern contains a newline and every offset is at least -1 |
| Segmenter.StepKeepsInv | src/cutter.py:53-57 | one pass of the loop body keeps the invariant of the search: the lowest point so far is at most every proposal seen, and strictly below those of earlier cutters |
| Segmenter.Scan | src/cutter.py:52-57 | after all cutters, the loop state records either no proposal at all or the minimum proposal and the first cutter that made it |
| Segmenter.EarliestCut | src/cutter.py:50-57 | the search finds no cut exactly when no cutter's match plus offset lies below `len(data)`; otherwise it finds the earliest such point, with ties going to the cutter listed first |
| Segmenter.EarliestCutUnique | src/cutter.py:55 | because the comparison is strict, the earliest cut is unique |
| Segmenter.CutSequenceAtCutters | src/cutter.py:45-65 | at most one line is printed; with nothing printed `data` comes back unchanged, otherwise the printed line followed by the returned text is `data` |
| Segmenter.CutSequenceChoosesEarliest | src/cutter.py:50-65 | with no proposal (in particular no pattern found) nothing is printed and `data` is returned; otherwise `data[:point]` at the earliest cut is printed and `data[point:]` returned |
| Segmenter.CutSequencePreservesText | src/cutter.py:59-64 | printed text followed by returned text is exactly `data` |
| Segmenter.CutKeepsLastChar | src/cutter.py:50-64 | a cut never consumes all of a non-empty text: since only points below `len(data)` are accepted, the returned text is non-empty |
| Segmenter.CutWithinData | src/cutter.py:50-64 | when every offset is non-negative and a cut is made, the point satisfies `0 <= point < len(data)`, and the result is the plain prefix and suffix at that point |
| Segmenter.BlankCutterKeepsLastChar | src/cutter.py:53-64 | a leading cutter with empty pattern and offset -1 (from a line without separator) cuts any non-empty text before its last character |
| Stream.Iterate | src/cutter.py:77-84 | one iteration either stops, printing nothing (only with an empty buffer) or the whole considered text (possibly after an empty line from a cut whose Python slice index is 0: point 0, or point -1 on a one-character text), or cuts exactly once at a slice index of at least 1, keeping a non-empty buffer; in both cases the printed text and the new buffer are the old buffer plus the newline-free chunk; a continuing iteration reads input or shrinks the buffer |
| Stream.IterateCutsAtEarliest | src/cutter.py:80-81 | a continuing iteration cuts at the earliest cut the cutter table gives on the buffer plus the newline-free chunk: it prints the text before that point and keeps the text from it on as the new buffer |
| Stream.IterateStopsWhenUnchanged | src/cutter.py:78-84 | an iteration stops exactly when the considered text is empty or the search returns it unchanged; an empty text prints nothing, and an unchanged one is printed after whatever the search printed; the chunk is always consumed |
| Stream.FirstChunkBlankStops | src/cutter.py:77-79 | with an empty buffer, a first chunk that cleans to the empty string ends the loop with nothing printed, whatever input follows it |
| Stream.IterateStopsOnFinalText | src/cutter.py:80-84 | the text a stopping iteration flushes is non-empty and is left unchanged by the search |
| Stream.DnaLoop | src/cutter.py:74-84 | the loop terminates although its counter guard never changes, and what it leaves unread is a suffix of the input |
| Stream.DnaLoopComplete | src/cutter.py:74-84 | the printed lines concatenate to the starting buffer followed by the newline-free text of all input consumed, so nothing read is lost or duplicated |
| Stream.DnaLoopLines | src/cutter.py:76-84 | only the second-to-last printed line can be empty, and with a non-empty buffer at least one line is printed |
| Stream.BlankInputPrintsNothing | src/cutter.py:77-79 | input made only of newlines, the empty input among it, prints nothing |
| Stream.ParseDnaFile | src/cutter.py:68-84 | `parse_dna_file` prints lines that concatenate to the newline-free text it consumed, leaves a suffix of the input unread, prints nothing for newline-only input, and prints no empty line except possibly the second-to-last |
| Stream.SingleChunkNoMatch | src/cutter.py:77-84 | input that fits in one chunk and holds no pattern is printed as a single line without its newlines |
| Stream.SegmentLoopComplete | src/cutter.py:74-84 | the corrected loop prints its buffer followed by all of the input, newlines removed |
| Stream.SegmentStream | src/cutter.py:68-84 | the corrected `parse_dna_file` prints lines that concatenate to the whole input without newlines |
| Stream.SegmentLoopNoMatch | src/cutter.py:77-84 | with no pattern anywhere in the buffer and the remaining input, the corrected loop prints the whole text as one line, or nothing if it is empty |
| Stream.SegmentStreamNoMatch | src/cutter.py:77-84 | input with no pattern in it is printed by the corrected loop as exactly one line |
| Scenarios.ParseExampleCutterFile | src/cutter.py:31-42 | a control file whose one line is `A`, the separator, then `GG` and a newline yields the single cutter with pattern `AGG` and offset 1 |
| Scenarios.ExampleRun | src/cutter.py:68-84 | with that cutter, input `TTAGGCC` prints `TTA` then `GGCC` and reads everything |
| Scenarios.BlankCutterRun | src/cutter.py:50-84 | with a single cutter from a blank line, `ACGT` prints `ACG`, an empty line, then `T`, and reads everything |
| Scenarios.EarlyBreakDropsInput | src/cutter.py:82-84 | with that cutter and chunk size 4, `TTTTAGG` prints only `TTTT` and leaves `AGG` unread, so the output misses part of the input |
| Scenarios.IntendedReadsOn | src/cutter.py:82-84 | the corrected loop prints `TTTTA` then `GG` for the same input |
| Scenarios.NewlineChunkEndsStream | src/cutter.py:77-79 | with chunk size 1, input "\nA" prints nothing and leaves `A` unread |
| Scenarios.IntendedSkipsNewlineChunk | src/cutter.py:77-79 | the corrected loop prints `A` for the same input |

## Left out

- `main` (src/cutter.py:87-117): argument parsing, opening the control file, the `--encoding` and `--cutter-separator` flags and `--version`. The model takes the cutter list and the input text as parameters.
- The `find_segments` draft (src/cutter.py:15-23) is a string literal that never runs.
- The `n < 100` guard (src/cutter.py:75-76): `n` is never changed, so the guard never stops the loop. Termination comes from the `decreases` measure: each iteration consumes input or shrinks the buffer.
- Real I/O. Standard input is a finite string and standard output a sequence of lines. The "\n" that `print` appends is implied by the line structure, not stored.
- Text-mode newline translation (any line ending, "\r\n" or a lone "\r", becomes "\n") and decoding: the model starts from already-decoded text. Python strings may hold lone surrogates, which Dafny's `char` cannot.
- Multi-character separators: the separator is one `char`, which is all that `main` ever passes (`"|"`).
- Stream.ParseDnaFile: the fact that the run's last line is text the search leaves unchanged is proved for each stopping iteration (`Stream.IterateStopsOnFinalText`), not restated for the whole run.
- Stream.SegmentStream: requires `chunksize != 0`, because `read(0)` never reaches the end of the input. The loop as written (`Stream.ParseDnaFile`) has no such requirement.

## Findings

| source | as written | input that shows it | evidently intended | confidence | as-written member | corrected member |
|---|---|---|---|---|---|---|
| src/cutter.py:82-84 | any iteration that makes no cut prints the buffer and ends the loop, even though input remains unread | cutters `[("AGG", 1)]`, chunk size 4, input `TTTTAGG`: prints `TTTT`, never reads `AGG` | keep reading while input remains; print `TTTTA`, `GG` | not executed | Scenarios.EarlyBreakDropsInput | Stream.SegmentStream |
| src/cutter.py:77-79 | a chunk made only of newlines cleans to "" and, with an empty buffer, is taken for the end of the input | no cutters, chunk size 1, input "\nA": prints nothing, never reads `A` | treat only an empty read as the end of input; print `A` | not executed | Scenarios.NewlineChunkEndsStream | Stream.SegmentStream |

`Stream.SegmentStream` corrects both rows. It is proved to print all of the
input (`Stream.SegmentLoopComplete`). `Scenarios.IntendedReadsOn` and
`Scenarios.IntendedSkipsNewlineChunk` show what it prints on the two inputs
above.
