/** The Python string and text-stream primitives the cutter relies on:
    `str.find`, `str.replace(c, "")`, `str.strip()`, `file.readlines()`,
    `file.read(n)` and slicing with possibly negative bounds. Each is stated
    against an independent characterisation rather than its own recursion. */
module PyText {
  import opened Wrappers

  /* ---------------------------------------------------------------------- */
  /* Concatenation of emitted lines                                         */
  /* ---------------------------------------------------------------------- */

  /** `"".join(lines)`: the text of a sequence of lines without separators. */
  function Concat(lines: seq<string>): string
  {
    if lines == [] then [] else lines[0] + Concat(lines[1..])
  }

  lemma {:induction false} ConcatAppend(a: seq<string>, b: seq<string>)
    ensures Concat(a + b) == Concat(a) + Concat(b)
    decreases |a|
  {
    if a == [] {
      assert a + b == b;
    } else {
      assert (a + b)[1..] == a[1..] + b;
      ConcatAppend(a[1..], b);
    }
  }

  /* ---------------------------------------------------------------------- */
  /* str.find                                                               */
  /* ---------------------------------------------------------------------- */

  /** `p` occurs in `s` starting at index `i`. */
  predicate OccursAt(s: string, p: string, i: int)
  {
    0 <= i && i + |p| <= |s| && s[i..i + |p|] == p
  }

  /** `s.find(p)`: the leftmost occurrence of `p` in `s`, `None` where Python
      returns -1. The empty pattern occurs at 0. */
  function Find(s: string, p: string): (r: Option<nat>)
    ensures r.Some? ==> OccursAt(s, p, r.value)
    ensures r.Some? ==> forall j :: 0 <= j < r.value ==> !OccursAt(s, p, j)
    ensures r.None? <==> forall j :: !OccursAt(s, p, j)
  {
    FindFrom(s, p, 0)
  }

  /** The scan behind `Find`, having ruled out every start below `start`. */
  function FindFrom(s: string, p: string, start: nat): (r: Option<nat>)
    requires forall j :: 0 <= j < start ==> !OccursAt(s, p, j)
    ensures r.Some? ==> start <= r.value && OccursAt(s, p, r.value)
    ensures r.Some? ==> forall j :: 0 <= j < r.value ==> !OccursAt(s, p, j)
    ensures r.None? ==> forall j :: !OccursAt(s, p, j)
    decreases |s| - start
  {
    if start + |p| > |s| then None
    else if s[start..start + |p|] == p then Some(start)
    else FindFrom(s, p, start + 1)
  }

  /** `Find` is determined by where the first occurrence is. */
  lemma FindAt(s: string, p: string, i: nat)
    requires OccursAt(s, p, i)
    requires forall j :: 0 <= j < i ==> !OccursAt(s, p, j)
    ensures Find(s, p) == Some(i)
  {
    var r := Find(s, p);
    assert r.Some?;
    assert !(r.value < i);
  }

  /** An occurrence inside a prefix is an occurrence in the whole text. */
  lemma OccursInExtension(s: string, t: string, p: string, i: int)
    requires OccursAt(s, p, i)
    ensures OccursAt(s + t, p, i)
  {
    assert (s + t)[i..i + |p|] == s[i..i + |p|];
  }

  /* ---------------------------------------------------------------------- */
  /* str.replace(c, "")                                                     */
  /* ---------------------------------------------------------------------- */

  /** `s.replace(c, "")` for a one-character `c`: every `c` deleted, the
      other characters kept in order. */
  function RemoveChar(s: string, c: char): (r: string)
    ensures c !in r
    ensures c !in s ==> r == s
    ensures |r| <= |s|
    decreases |s|
  {
    if s == [] then []
    else if s[0] == c then RemoveChar(s[1..], c)
    else [s[0]] + RemoveChar(s[1..], c)
  }

  /** Deletion keeps every other character with its multiplicity. */
  lemma {:induction false} RemoveCharMultiset(s: string, c: char)
    ensures multiset(RemoveChar(s, c)) == multiset(s)[c := 0]
    decreases |s|
  {
    if s != [] {
      assert s == [s[0]] + s[1..];
      RemoveCharMultiset(s[1..], c);
    }
  }

  /** Deleting a character commutes with concatenation, which is what lets a
      stream be cleaned chunk by chunk. */
  lemma {:induction false} RemoveCharAppend(a: string, b: string, c: char)
    ensures RemoveChar(a + b, c) == RemoveChar(a, c) + RemoveChar(b, c)
    decreases |a|
  {
    if a == [] {
      assert a + b == b;
    } else {
      assert (a + b)[0] == a[0];
      assert (a + b)[1..] == a[1..] + b;
      RemoveCharAppend(a[1..], b, c);
    }
  }

  /** A character absent from `s` stays absent once `c` is deleted. */
  lemma RemoveCharKeepsAbsent(s: string, c: char, d: char)
    requires d !in s
    ensures d !in RemoveChar(s, c)
  {
    var r := RemoveChar(s, c);
    RemoveCharMultiset(s, c);
    assert multiset(s)[d] == 0;
    if d != c {
      assert multiset(r)[d] == 0;
    }
  }

  /* ---------------------------------------------------------------------- */
  /* str.strip()                                                            */
  /* ---------------------------------------------------------------------- */

  /** Python's `str.isspace` on one character: the ASCII blanks, the file,
      group, record and unit separators, and the Unicode space and line
      separators. */
  predicate IsSpace(ch: char)
  {
    || ('\t' <= ch <= '\r')
    || ('\U{1C}' <= ch <= '\U{1F}')
    || ch == ' '
    || ch == '\U{85}'
    || ch == '\U{A0}'
    || ch == '\U{1680}'
    || ('\U{2000}' <= ch <= '\U{200A}')
    || ch == '\U{2028}'
    || ch == '\U{2029}'
    || ch == '\U{202F}'
    || ch == '\U{205F}'
    || ch == '\U{3000}'
  }

  predicate AllSpace(s: string)
  {
    forall i :: 0 <= i < |s| ==> IsSpace(s[i])
  }

  /** `r` sits in `s` at `i` with only whitespace before and after it. */
  predicate StripAt(s: string, r: string, i: int)
  {
    0 <= i && i + |r| <= |s| && r == s[i..i + |r|]
    && AllSpace(s[..i]) && AllSpace(s[i + |r|..])
  }

  /** `r` is `s` with its leading and trailing whitespace removed: a slice of
      `s` that only whitespace surrounds and that neither starts nor ends
      with whitespace. */
  predicate IsStripOf(s: string, r: string)
  {
    && (r != [] ==> !IsSpace(r[0]) && !IsSpace(r[|r| - 1]))
    && exists i :: 0 <= i <= |s| && StripAt(s, r, i)
  }

  function TrimLeft(s: string): (r: string)
    ensures |r| <= |s| && r == s[|s| - |r|..]
    ensures AllSpace(s[..|s| - |r|])
    ensures r != [] ==> !IsSpace(r[0])
  {
    if s != [] && IsSpace(s[0]) then TrimLeft(s[1..]) else s
  }

  function TrimRight(s: string): (r: string)
    ensures |r| <= |s| && r == s[..|r|]
    ensures AllSpace(s[|r|..])
    ensures r != [] ==> !IsSpace(r[|r| - 1])
  {
    if s != [] && IsSpace(s[|s| - 1]) then
      var r := TrimRight(s[..|s| - 1]);
      assert s[|r|..] == s[..|s| - 1][|r|..] + [s[|s| - 1]];
      r
    else s
  }

  /** `s.strip()` with no argument. */
  function Strip(s: string): (r: string)
    ensures IsStripOf(s, r)
  {
    var t := TrimRight(s);
    var r := TrimLeft(t);
    var i := |t| - |r|;
    assert s[..i] == t[..i];
    assert s[i + |r|..] == s[|t|..];
    assert r == s[i..i + |r|];
    assert StripAt(s, r, i);
    r
  }

  /** Every character of a stripped string comes from the original. */
  lemma StripKeepsAbsent(s: string, r: string, d: char)
    requires IsStripOf(s, r)
    requires d !in s
    ensures d !in r
  {
    var i :| 0 <= i <= |s| && StripAt(s, r, i);
    assert i + |r| <= |s| && r == s[i..i + |r|];
    forall k | 0 <= k < |r|
      ensures r[k] != d
    {
      assert r[k] == s[i + k];
    }
  }

  /** The stripped form is unique: `IsStripOf` pins `strip()` down completely. */
  lemma StripOfUnique(s: string, r1: string, r2: string)
    requires IsStripOf(s, r1) && IsStripOf(s, r2)
    ensures r1 == r2
  {
    var i1 :| StripAt(s, r1, i1);
    var i2 :| StripAt(s, r2, i2);
    if r1 != [] {
      StripStartsAtFirstNonSpace(s, r1, i1, r2, i2);
    }
    if r2 != [] {
      StripStartsAtFirstNonSpace(s, r2, i2, r1, i1);
    }
  }

  /** A non-empty stripped candidate `r` starting at `i` fixes where any
      other candidate `q` starts and ends. */
  lemma StripStartsAtFirstNonSpace(s: string, r: string, i: int, q: string, k: int)
    requires StripAt(s, r, i) && r != [] && !IsSpace(r[0]) && !IsSpace(r[|r| - 1])
    requires StripAt(s, q, k)
    ensures k <= i && i + |r| <= k + |q|
  {
    assert s[i] == r[0];
    assert s[i + |r| - 1] == r[|r| - 1];

  }

  /* ---------------------------------------------------------------------- */
  /* file.readlines()                                                       */
  /* ---------------------------------------------------------------------- */

  /** A line as `readlines` yields it: non-empty, with "\n" at most as its
      final character. */
  predicate IsLine(line: string)
  {
    line != [] && '\n' !in line[..|line| - 1]
  }

  /** `file.readlines()` on the file's whole text: the text split just after
      every "\n", each line keeping its terminator; only the last line may
      lack one. */
  function ReadLines(text: string): (lines: seq<string>)
    ensures Concat(lines) == text
    ensures forall k :: 0 <= k < |lines| ==> IsLine(lines[k])
    ensures forall k :: 0 <= k < |lines| - 1 ==> lines[k] != [] && lines[k][|lines[k]| - 1] == '\n'
    decreases |text|
  {
    match Find(text, "\n")
    case None =>
      NoNewlineBefore(text, |text|);
      if text == [] then [] else [text]
    case Some(i) =>
      NoNewlineBefore(text, i);
      assert text[i..i + 1] == "\n";
      assert text == text[..i + 1] + text[i + 1..];
      [text[..i + 1]] + ReadLines(text[i + 1..])
  }

  /** No occurrence of "\n" starts below `i` means no "\n" character there. */
  lemma NoNewlineBefore(text: string, i: nat)
    requires i <= |text|
    requires forall j :: 0 <= j < i ==> !OccursAt(text, "\n", j)
    ensures '\n' !in text[..i]
  {
    forall j | 0 <= j < i
      ensures text[j] != '\n'
    {
      assert text[j..j + 1] == [text[j]];
      assert !OccursAt(text, "\n", j);
      assert text[..i][j] == text[j];
    }
  }

  /* ---------------------------------------------------------------------- */
  /* Slicing with Python's bound normalisation                              */
  /* ---------------------------------------------------------------------- */

  /** The index a slice bound `k` denotes in a string of length `n`: a
      negative bound counts from the end, and the result is clamped to
      `0..n`. */
  function SliceIndex(n: nat, k: int): (i: nat)
    ensures i <= n
    ensures 0 <= k <= n ==> i == k
    ensures k < 0 && 0 <= n + k ==> i == n + k
    ensures n + k < 0 ==> i == 0
    ensures n < k ==> i == n
  {
    if k < 0 then (if n + k < 0 then 0 else n + k)
    else if k > n then n
    else k
  }

  /** `s[:k]`. */
  function SliceTo(s: string, k: int): string
  {
    s[..SliceIndex(|s|, k)]
  }

  /** `s[k:]`. */
  function SliceFrom(s: string, k: int): string
  {
    s[SliceIndex(|s|, k)..]
  }

  /** `s[:k] + s[k:] == s` for every bound, negative ones included. */
  lemma SliceSplit(s: string, k: int)
    ensures SliceTo(s, k) + SliceFrom(s, k) == s
    ensures |SliceTo(s, k)| == SliceIndex(|s|, k)
  {
  }

  /* ---------------------------------------------------------------------- */
  /* file.read(n)                                                           */
  /* ---------------------------------------------------------------------- */

  /** What one read returns, and the input that remains unread after it. */
  datatype Chunk = Chunk(text: string, rest: string)

  /** `file.read(n)` on a text stream whose unread part is `unread`: the next
      `n` characters, or fewer at the end; a negative `n` reads everything.
      An empty `text` means end of file only when `n` is not 0. */
  function ReadChunk(unread: string, n: int): (c: Chunk)
    ensures c.text + c.rest == unread
    ensures n >= 0 ==> |c.text| == (if n < |unread| then n else |unread|)
    ensures n < 0 ==> c.rest == []
  {
    if n < 0 || n >= |unread| then Chunk(unread, [])
    else Chunk(unread[..n], unread[n..])
  }
}
