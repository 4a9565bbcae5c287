/** The cutter table loader of src/cutter.py: one `CutterT` per line of the
    control file, in file order. */
module CutterTable {
  import opened PyText

  /** A cutter: the pattern to search for (`seq` in the source) and the
      offset of the cut inside a match. `splitAt` is -1 when the line held
      no separator. */
  datatype CutterT = CutterT(pattern: string, splitAt: int)

  /** The separator the program always uses. */
  const DefaultSep: char := '|'

  /** `splitAt` is the index of the first `sep` in the raw line, or -1. */
  predicate IsSplitAtOf(line: string, sep: char, splitAt: int)
  {
    if sep in line then
      0 <= splitAt < |line| && line[splitAt] == sep && sep !in line[..splitAt]
    else
      splitAt == -1
  }

  /** What a parsed cutter is to its raw line: the pattern is the line with
      every separator deleted and then stripped, so it holds no separator;
      the split offset is measured in the raw line. */
  predicate ParsedFrom(line: string, sep: char, c: CutterT)
  {
    && sep !in c.pattern
    && IsStripOf(RemoveChar(line, sep), c.pattern)
    && IsSplitAtOf(line, sep, c.splitAt)
  }

  /** One cutter line: `CutterT(seq=line.replace(sep, "").strip(),
      split_at=line.find(sep))`. */
  function ParseCutterLine(line: string, sep: char): (c: CutterT)
    ensures ParsedFrom(line, sep, c)
  {
    var cleaned := RemoveChar(line, sep);
    var pattern := Strip(cleaned);
    StripKeepsAbsent(cleaned, pattern, sep);
    var splitAt := match Find(line, [sep]) case Some(i) => i as int case None => -1;
    SplitAtFromFind(line, sep);
    CutterT(pattern, splitAt)
  }

  lemma SplitAtFromFind(line: string, sep: char)
    ensures IsSplitAtOf(line, sep, match Find(line, [sep]) case Some(i) => i as int case None => -1)
  {
    var f := Find(line, [sep]);
    forall j | 0 <= j < |line|
      ensures OccursAt(line, [sep], j) <==> line[j] == sep
    {
      assert line[j..j + 1] == [line[j]];
    }
    if f.Some? {
      forall j | 0 <= j < f.value
        ensures line[..f.value][j] != sep
      {
        assert !OccursAt(line, [sep], j);
      }
    } else {
      forall j | 0 <= j < |line|
        ensures line[j] != sep
      {
        assert !OccursAt(line, [sep], j);
      }
    }
  }

  /** A characterisation, not a recipe: at most one cutter is parsed from a
      given line. */
  lemma ParsedFromUnique(line: string, sep: char, c1: CutterT, c2: CutterT)
    requires ParsedFrom(line, sep, c1) && ParsedFrom(line, sep, c2)
    ensures c1 == c2
  {
    StripOfUnique(RemoveChar(line, sep), c1.pattern, c2.pattern);
  }

  /** A line that `readlines` produced yields a pattern without "\n": the
      only newline sits at the end of the line and `strip` removes it. */
  lemma LinePatternHasNoNewline(line: string, sep: char)
    requires IsLine(line)
    ensures '\n' !in ParseCutterLine(line, sep).pattern
  {
    var u := RemoveChar(line, sep);
    CleanedLineKeepsShape(line, sep);
    StrippedHasNoNewline(u, ParseCutterLine(line, sep).pattern);
  }

  /** "\n" can only be the last character of `u`. */
  predicate NewlineOnlyLast(u: string)
  {
    forall j :: 0 <= j < |u| - 1 ==> u[j] != '\n'
  }

  lemma CleanedLineKeepsShape(line: string, sep: char)
    requires IsLine(line)
    ensures NewlineOnlyLast(RemoveChar(line, sep))
  {
    var body, last := line[..|line| - 1], line[|line| - 1..];
    assert line == body + last;
    RemoveCharAppend(body, last, sep);
    RemoveCharKeepsAbsent(body, sep, '\n');
    var a, b := RemoveChar(body, sep), RemoveChar(last, sep);
    assert last == [line[|line| - 1]] && last[1..] == [];
    assert |b| <= 1;
    var u := a + b;
    forall j | 0 <= j < |u| - 1
      ensures u[j] != '\n'
    {
      assert u[j] == a[j];
    }
  }

  lemma StrippedHasNoNewline(u: string, r: string)
    requires NewlineOnlyLast(u) && IsStripOf(u, r)
    ensures '\n' !in r
  {
    var i :| 0 <= i <= |u| && StripAt(u, r, i);
    assert i + |r| <= |u| && r == u[i..i + |r|];
    forall m | 0 <= m < |r|
      ensures r[m] != '\n'
    {
      assert r[m] == u[i + m];
      if m < |r| - 1 {
        assert i + m < |u| - 1;
      }
    }
  }

  /** `parse_cutter_file`: exactly one cutter per line of the file, in the
      same order, each parsed from its own raw line; no pattern contains a
      separator or a newline, and every offset is at least -1. */
  function ParseCutterFile(text: string, sep: char): (cutters: seq<CutterT>)
    ensures |cutters| == |ReadLines(text)|
    ensures forall k :: 0 <= k < |cutters| ==> ParsedFrom(ReadLines(text)[k], sep, cutters[k])
    ensures forall k :: 0 <= k < |cutters| ==> '\n' !in cutters[k].pattern && -1 <= cutters[k].splitAt
  {
    var lines := ReadLines(text);
    var cutters := seq(|lines|, k requires 0 <= k < |lines| => ParseCutterLine(lines[k], sep));
    forall k | 0 <= k < |cutters|
      ensures ParsedFrom(lines[k], sep, cutters[k])
      ensures '\n' !in cutters[k].pattern && -1 <= cutters[k].splitAt
    {
      var c := ParseCutterLine(lines[k], sep);
      assert cutters[k] == c;
      assert IsSplitAtOf(lines[k], sep, c.splitAt);
      LinePatternHasNoNewline(lines[k], sep);
    }
    cutters
  }
}
