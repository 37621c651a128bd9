/**
 The grep user program: a 1024-byte buffer, refilled by reads and carrying the unfinished last
 line down to its start, against the plain filter over the lines of the file.
 */
module Grep {
  import opened Bytes

  const BUFSIZE := 1024
  const NEWLINE: byte := 10
  const COLON: byte := 58

  // ---------------------------------------------------------------- specification

  /** The number of bytes before the first newline. */
  function FirstNewline(f: seq<byte>): (n: nat)
    ensures n <= |f| && NEWLINE !in f[..n]
    ensures n < |f| ==> f[n] == NEWLINE
  {
    if f == [] || f[0] == NEWLINE then 0 else 1 + FirstNewline(f[1..])
  }

  /** The lines of a file; a last line may lack its newline. */
  function Lines(f: seq<byte>): (ls: seq<seq<byte>>)
    decreases |f|
  {
    if f == [] then [] else
      var n := FirstNewline(f);
      if n == |f| then [f] else [f[..n]] + Lines(f[n + 1..])
  }

  /** The lines as a 1024-byte buffer sees them: longer ones are cut every 1024 bytes. */
  function Pieces(f: seq<byte>): (ps: seq<seq<byte>>)
    decreases |f|
  {
    if f == [] then [] else
      var n := FirstNewline(f);
      if n >= BUFSIZE then [f[..BUFSIZE]] + Pieces(f[BUFSIZE..])
      else if n == |f| then [f]
      else [f[..n]] + Pieces(f[n + 1..])
  }

  predicate Contains(line: seq<byte>, p: seq<byte>) {
    exists k :: 0 <= k <= |line| - |p| && OccursAt(line, p, k)
  }

  predicate OccursAt(line: seq<byte>, p: seq<byte>, k: int)
    requires 0 <= k
  {
    k + |p| <= |line| && line[k..k + |p|] == p
  }

  function Reported(line: seq<byte>, fname: seq<byte>): seq<byte> {
    fname + [COLON] + line + [NEWLINE]
  }

  /** The plain line filter: every line that contains the pattern, once, in order. */
  function Filtered(ls: seq<seq<byte>>, p: seq<byte>, fname: seq<byte>): seq<byte> {
    if ls == [] then [] else
      (if Contains(ls[0], p) then Reported(ls[0], fname) else []) + Filtered(ls[1..], p, fname)
  }

  ghost predicate LinesFit(f: seq<byte>) {
    forall l :: l in Lines(f) ==> |l| <= BUFSIZE
  }

  /** What the program tests: its pattern is signed and its buffer is not, so only ASCII starts match. */
  predicate Matches(line: seq<byte>, p: seq<byte>) {
    p != [] && p[0] < 128 && Contains(line, p)
  }

  function Report(line: seq<byte>, p: seq<byte>, fname: seq<byte>): seq<byte> {
    if Matches(line, p) then Reported(line, fname) else []
  }

  /** What the program prints for the pieces it sees. */
  function Grepped(ls: seq<seq<byte>>, p: seq<byte>, fname: seq<byte>): seq<byte> {
    if ls == [] then [] else Report(ls[0], p, fname) + Grepped(ls[1..], p, fname)
  }

  // ---------------------------------------------------------------- facts about the specification

  lemma {:induction false} FirstNewlineUnique(f: seq<byte>, n: nat)
    requires n <= |f| && NEWLINE !in f[..n]
    requires n < |f| ==> f[n] == NEWLINE
    ensures FirstNewline(f) == n
  {
    if n > 0 {
      assert f[0] == f[..n][0];
      assert f[1..][..n - 1] == f[..n][1..];
      FirstNewlineUnique(f[1..], n - 1);
    }
  }

  lemma FirstNewlineAtLeast(f: seq<byte>, n: nat)
    requires n <= |f| && NEWLINE !in f[..n]
    ensures FirstNewline(f) >= n
  {
    assert forall i :: 0 <= i < n ==> f[i] == f[..n][i];
  }

  /** A complete line at the front is one piece if it fits the buffer. */
  lemma PiecesOfLine(line: seq<byte>, rest: seq<byte>)
    requires NEWLINE !in line && |line| < BUFSIZE
    ensures Pieces(line + [NEWLINE] + rest) == [line] + Pieces(rest)
  {
    var f := line + [NEWLINE] + rest;
    assert f[..|line|] == line && f[|line| + 1..] == rest;
    FirstNewlineUnique(f, |line|);
  }

  /** A buffer full of one line is cut; at the end of the file what is left is one piece. */
  lemma PiecesOfRemainder(t: seq<byte>, rest: seq<byte>)
    requires NEWLINE !in t && |t| <= BUFSIZE && t != []
    requires rest == [] || |t| == BUFSIZE
    ensures Pieces(t + rest) == [t] + Pieces(rest)
  {
    var f := t + rest;
    assert f[..|t|] == t && f[|t|..] == rest;
    FirstNewlineAtLeast(f, |t|);
    if rest == [] {
      assert f == t;
    }
  }

  lemma GreppedCons(line: seq<byte>, ls: seq<seq<byte>>, p: seq<byte>, fname: seq<byte>)
    ensures Grepped([line] + ls, p, fname) == Report(line, p, fname) + Grepped(ls, p, fname)
  {
    assert ([line] + ls)[1..] == ls;
  }

  /**
   What one step of the scan reports: t is the unscanned part of the buffer, n the length of
   its first line, rest the part of the file not yet read.
   */
  lemma ScanStep(t: seq<byte>, n: int, rest: seq<byte>, p: seq<byte>, fname: seq<byte>)
    requires 0 <= n <= |t| <= BUFSIZE && NEWLINE !in t[..n]
    requires if n < |t| then t[n] == NEWLINE else rest == [] || n == BUFSIZE
    ensures Grepped(Pieces(t + rest), p, fname) ==
            Report(t[..n], p, fname) + Grepped(Pieces((if n < |t| then t[n + 1..] else []) + rest), p, fname)
  {
    if n < |t| {
      var tail := t[n + 1..] + rest;
      assert t + rest == t[..n] + [NEWLINE] + tail;
      PiecesOfLine(t[..n], tail);
      GreppedCons(t[..n], Pieces(tail), p, fname);
    } else {
      assert t[..n] == t && [] + rest == rest;
      if t == [] {
        assert t + rest == [];
      } else {
        PiecesOfRemainder(t, rest);
        GreppedCons(t, Pieces(rest), p, fname);
      }
    }
  }

  /** The output so far, with what is still to be reported of t and rest, makes up the whole. */
  ghost predicate Owes(out: seq<byte>, t: seq<byte>, rest: seq<byte>,
                       p: seq<byte>, fname: seq<byte>, whole: seq<byte>)
  {
    out + Grepped(Pieces(t + rest), p, fname) == whole
  }

  lemma OwesEnds(out: seq<byte>, t: seq<byte>, rest: seq<byte>, p: seq<byte>, fname: seq<byte>, whole: seq<byte>)
    ensures out == [] && whole == Grepped(Pieces(t + rest), p, fname) ==> Owes(out, t, rest, p, fname, whole)
    ensures t == rest == [] && Owes(out, t, rest, p, fname, whole) ==> out == whole
  {
    assert t == rest == [] ==> t + rest == [];
  }

  lemma OwesAfterRead(out: seq<byte>, t: seq<byte>, file: seq<byte>, pos: int, cnt: int,
                      p: seq<byte>, fname: seq<byte>, whole: seq<byte>)
    requires 0 <= pos && 0 <= cnt && pos + cnt <= |file|
    requires Owes(out, t, file[pos..], p, fname, whole)
    ensures Owes(out, t + file[pos..pos + cnt], file[pos + cnt..], p, fname, whole)
  {
    assert t + file[pos..pos + cnt] + file[pos + cnt..] == t + file[pos..];
  }

  lemma ScanStepOwes(out: seq<byte>, t: seq<byte>, n: int, rest: seq<byte>,
                     p: seq<byte>, fname: seq<byte>, whole: seq<byte>)
    requires 0 <= n <= |t| <= BUFSIZE && NEWLINE !in t[..n]
    requires if n < |t| then t[n] == NEWLINE else rest == [] || n == BUFSIZE
    requires Owes(out, t, rest, p, fname, whole)
    ensures Owes(out + Report(t[..n], p, fname), if n < |t| then t[n + 1..] else [], rest, p, fname, whole)
  {
    ScanStep(t, n, rest, p, fname);
    var report := Report(t[..n], p, fname);
    var due := Grepped(Pieces((if n < |t| then t[n + 1..] else []) + rest), p, fname);
    assert out + report + due == out + (report + due);
  }

  lemma SplitAtNewline(f: seq<byte>, n: int)
    requires 0 <= n < |f| && f[n] == NEWLINE
    ensures f == f[..n] + [NEWLINE] + f[n + 1..]
  {
  }

  lemma {:induction false} ShortLinesArePieces(f: seq<byte>, p: seq<byte>, fname: seq<byte>)
    requires LinesFit(f)
    ensures Grepped(Pieces(f), p, fname) == Grepped(Lines(f), p, fname)
    decreases |f|
  {
    if f != [] {
      var n := FirstNewline(f);
      assert Lines(f)[0] == f[..n];
      assert Lines(f)[0] in Lines(f);
      if n < |f| {
        var rest := f[n + 1..];
        assert forall l :: l in Lines(rest) ==> l in [f[..n]] + Lines(rest);
        ShortLinesArePieces(rest, p, fname);
        GreppedCons(f[..n], Lines(rest), p, fname);
        FrontLine(f[..n], rest, p, fname);
        SplitAtNewline(f, n);
      } else if n == BUFSIZE {
        assert f + [] == f;
        PiecesOfRemainder(f, []);
      }
    }
  }

  /** A line that just fills the buffer is followed by an empty piece, which matches nothing. */
  lemma FrontLine(line: seq<byte>, rest: seq<byte>, p: seq<byte>, fname: seq<byte>)
    requires NEWLINE !in line && |line| <= BUFSIZE
    ensures Grepped(Pieces(line + [NEWLINE] + rest), p, fname) ==
            Report(line, p, fname) + Grepped(Pieces(rest), p, fname)
  {
    if |line| < BUFSIZE {
      PiecesOfLine(line, rest);
      GreppedCons(line, Pieces(rest), p, fname);
    } else {
      var tail := [NEWLINE] + rest;
      assert line + [NEWLINE] + rest == line + tail;
      PiecesOfRemainder(line, tail);
      GreppedCons(line, Pieces(tail), p, fname);
      EmptyLine(rest, p, fname);
    }
  }

  lemma EmptyLine(rest: seq<byte>, p: seq<byte>, fname: seq<byte>)
    ensures Grepped(Pieces([NEWLINE] + rest), p, fname) == Grepped(Pieces(rest), p, fname)
  {
    assert [] + [NEWLINE] + rest == [NEWLINE] + rest;
    PiecesOfLine([], rest);
    GreppedCons([], Pieces(rest), p, fname);
  }

  lemma {:induction false} PiecesFit(f: seq<byte>)
    ensures forall q :: q in Pieces(f) ==> |q| <= BUFSIZE
    decreases |f|
  {
    if f != [] {
      var n := FirstNewline(f);
      if n >= BUFSIZE {
        PiecesFit(f[BUFSIZE..]);
      } else if n < |f| {
        PiecesFit(f[n + 1..]);
      }
    }
  }

  lemma {:induction false} NothingReported(ls: seq<seq<byte>>, p: seq<byte>, fname: seq<byte>)
    requires forall l :: l in ls ==> !Matches(l, p)
    ensures Grepped(ls, p, fname) == []
  {
    if ls != [] {
      NothingReported(ls[1..], p, fname);
    }
  }

  lemma {:induction false} SomethingReported(ls: seq<seq<byte>>, line: seq<byte>, p: seq<byte>, fname: seq<byte>)
    requires line in ls && Matches(line, p)
    ensures Grepped(ls, p, fname) != []
  {
    if ls[0] != line {
      SomethingReported(ls[1..], line, p, fname);
    }
  }

  lemma {:induction false} LinesComeFromFile(f: seq<byte>)
    ensures forall l, i :: l in Lines(f) && 0 <= i < |l| ==> l[i] in f
    decreases |f|
  {
    if f != [] && FirstNewline(f) < |f| {
      LinesComeFromFile(f[FirstNewline(f) + 1..]);
    }
  }

  /** For a non-empty pattern with an ASCII start, or lines that lack the pattern, the two tests agree. */
  lemma {:induction false} TestsAgree(ls: seq<seq<byte>>, p: seq<byte>, fname: seq<byte>)
    requires (p != [] && p[0] < 128) || forall l :: l in ls ==> !Contains(l, p)
    ensures Grepped(ls, p, fname) == Filtered(ls, p, fname)
  {
    if ls != [] {
      assert ls[0] in ls;
      TestsAgree(ls[1..], p, fname);
    }
  }

  /** With lines that fit the buffer and an ASCII start, the program is the plain line filter. */
  lemma GrepFilters(f: seq<byte>, p: seq<byte>, fname: seq<byte>)
    requires LinesFit(f) && p != [] && p[0] < 128
    ensures Grepped(Pieces(f), p, fname) == Filtered(Lines(f), p, fname)
  {
    ShortLinesArePieces(f, p, fname);
    TestsAgree(Lines(f), p, fname);
  }

  lemma {:induction false} LinesHaveNoNewline(f: seq<byte>)
    ensures forall l :: l in Lines(f) ==> NEWLINE !in l
    decreases |f|
  {
    if f != [] && FirstNewline(f) < |f| {
      LinesHaveNoNewline(f[FirstNewline(f) + 1..]);
    }
  }

  lemma SingleLine(p: seq<byte>)
    requires p != [] && NEWLINE !in p
    ensures Lines(p) == [p]
  {
    assert p[..|p|] == p;
    FirstNewlineUnique(p, |p|);
  }

  lemma OccurrenceLacks(l: seq<byte>, p: seq<byte>, k: int, b: byte)
    requires 0 <= k && b !in l && b in p
    ensures !OccursAt(l, p, k)
  {
  }

  /** A pattern with a newline, or longer than any line that fits, is in no line. */
  lemma NotInAnyLine(f: seq<byte>, p: seq<byte>)
    requires LinesFit(f) && (NEWLINE in p || |p| > BUFSIZE)
    ensures forall l :: l in Lines(f) ==> !Contains(l, p)
  {
    LinesHaveNoNewline(f);
    forall l, k | l in Lines(f) && 0 <= k ensures !OccursAt(l, p, k) {
      if NEWLINE in p {
        OccurrenceLacks(l, p, k, NEWLINE);
      }
    }
  }

  /** The file [65] for the empty pattern, and the pattern itself for any other. */
  lemma PatternFails(p: seq<byte>, fname: seq<byte>)
    requires 0 !in p && NEWLINE !in p && |p| <= BUFSIZE && (p == [] || p[0] >= 128)
    ensures var f := if p == [] then [65] else p;
            0 !in f && LinesFit(f) && Grepped(Pieces(f), p, fname) != Filtered(Lines(f), p, fname)
  {
    var f := if p == [] then [65] else p;
    SingleLine(f);
    assert OccursAt(f, p, 0);
    assert Filtered([f], p, fname) == Reported(f, fname) + [];
    NothingReported(Pieces(f), p, fname);
  }

  /**
   For which patterns the program is the plain line filter on every file whose lines fit: those
   with an ASCII start, and those that no line can contain.
   */
  lemma GrepPatternsExact(p: seq<byte>, fname: seq<byte>)
    requires 0 !in p
    ensures (forall f | 0 !in f && LinesFit(f) :: Grepped(Pieces(f), p, fname) == Filtered(Lines(f), p, fname))
            <==> ((p != [] && p[0] < 128) || NEWLINE in p || |p| > BUFSIZE)
  {
    if (p != [] && p[0] < 128) || NEWLINE in p || |p| > BUFSIZE {
      forall f | 0 !in f && LinesFit(f) ensures Grepped(Pieces(f), p, fname) == Filtered(Lines(f), p, fname) {
        ShortLinesArePieces(f, p, fname);
        if NEWLINE in p || |p| > BUFSIZE {
          NotInAnyLine(f, p);
        }
        TestsAgree(Lines(f), p, fname);
      }
    } else {
      PatternFails(p, fname);
    }
  }

  /**
   On an ASCII file, the program is the plain line filter for every non-empty pattern if and only
   if no line is longer than the buffer.
   */
  lemma GrepIsLineFilter(f: seq<byte>, fname: seq<byte>)
    requires forall i :: 0 <= i < |f| ==> 0 < f[i] < 128
    ensures (forall p | 0 !in p && p != [] :: Grepped(Pieces(f), p, fname) == Filtered(Lines(f), p, fname))
            <==> LinesFit(f)
  {
    LinesComeFromFile(f);
    if l :| l in Lines(f) && |l| > BUFSIZE {
      assert 0 !in l && l[0] in f;
      assert OccursAt(l, l, 0);
      SomethingReported(Lines(f), l, l, fname);
      TestsAgree(Lines(f), l, fname);
      PiecesFit(f);
      NothingReported(Pieces(f), l, fname);
    } else {
      forall p | 0 !in p && p != [] ensures Grepped(Pieces(f), p, fname) == Filtered(Lines(f), p, fname) {
        ShortLinesArePieces(f, p, fname);
        if p[0] >= 128 {
          AsciiLinesLack(f, p);
        }
        TestsAgree(Lines(f), p, fname);
      }
    }
  }

  lemma AsciiLinesLack(f: seq<byte>, p: seq<byte>)
    requires (forall i :: 0 <= i < |f| ==> 0 < f[i] < 128) && p != [] && p[0] >= 128
    ensures forall l :: l in Lines(f) ==> !Contains(l, p)
  {
    LinesComeFromFile(f);
    forall l, k | l in Lines(f) && 0 <= k ensures !OccursAt(l, p, k) {
      OccurrenceLacks(l, p, k, p[0]);
    }
  }

  /** The lines that contain the pattern, in order. */
  function Containing(ls: seq<seq<byte>>, p: seq<byte>): seq<seq<byte>> {
    if ls == [] then [] else (if Contains(ls[0], p) then [ls[0]] else []) + Containing(ls[1..], p)
  }

  function Prefixed(ls: seq<seq<byte>>, prefix: seq<byte>): (r: seq<seq<byte>>)
    ensures |r| == |ls| && forall i :: 0 <= i < |ls| ==> r[i] == prefix + ls[i]
  {
    seq(|ls|, i requires 0 <= i < |ls| => prefix + ls[i])
  }

  /** Read line by line, the output is the lines that contain the pattern, each behind the file's name and a colon. */
  lemma {:induction false} OutputLines(ls: seq<seq<byte>>, p: seq<byte>, fname: seq<byte>)
    requires NEWLINE !in fname && forall l :: l in ls ==> NEWLINE !in l
    ensures Lines(Filtered(ls, p, fname)) == Prefixed(Containing(ls, p), fname + [COLON])
  {
    if ls != [] {
      var rest := Filtered(ls[1..], p, fname);
      OutputLines(ls[1..], p, fname);
      if Contains(ls[0], p) {
        var line := fname + [COLON] + ls[0];
        assert Filtered(ls, p, fname) == line + [NEWLINE] + rest;
        FirstLine(line, rest);
      } else {
        assert Filtered(ls, p, fname) == rest;
      }
    }
  }

  lemma FirstLine(line: seq<byte>, rest: seq<byte>)
    requires NEWLINE !in line
    ensures Lines(line + [NEWLINE] + rest) == [line] + Lines(rest)
  {
    var f := line + [NEWLINE] + rest;
    assert f[..|line|] == line && f[|line| + 1..] == rest;
    FirstNewlineUnique(f, |line|);
  }

  // ---------------------------------------------------------------- the program

  /** The bytes of t stand in data from index at. */
  ghost predicate Holds(data: array<byte>, at: int, t: seq<byte>)
    reads data
  {
    0 <= at && at + |t| <= data.Length && forall k :: 0 <= k < |t| ==> data[at + k] == t[k]
  }

  lemma SameStartIsOccurrence(text: seq<byte>, pat: seq<byte>)
    ensures SameStart(text, pat, |pat|) <==> OccursAt(text, pat, 0)
  {
    assert OccursAt(text, pat, 0) ==> forall k :: 0 <= k < |pat| ==> text[k] == text[..|pat|][k];
  }

  /** ece391_strncmp of the NUL-terminated text at data + at with the string s. */
  method Strncmp(data: array<byte>, at: int, s: seq<byte>, n: int, ghost text: seq<byte>) returns (r: int)
    requires Holds(data, at, text) && 0 !in text && at + |text| < data.Length && data[at + |text|] == 0
    requires 0 in s && n >= 0
    ensures r == 0 <==> SameStart(text, CStr(s), n)
  {
    ghost var pat := CStr(s);
    if n == 0 {
      return 0;
    }
    var j, left := 0, n;
    while data[at + j] == s[j]
      invariant 0 <= j < n && left == n - j && j <= |text| && j <= |pat|
      invariant forall k :: 0 <= k < j ==> text[k] == pat[k]
      decreases left
    {
      left := left - 1;
      if data[at + j] == 0 || left == 0 {
        assert j < |text| ==> data[at + j] == text[j];
        assert Min(n, |text|) == Min(n, |pat|);
        return 0;
      }
      j := j + 1;
    }
    var c: int := data[at + j];
    return c - s[j];
  }

  method FindLineEnd(data: array<byte>, lineStart: int, last: int, ghost t: seq<byte>) returns (lineEnd: int)
    requires Holds(data, lineStart, t) && last == lineStart + |t| < data.Length
    ensures lineStart <= lineEnd <= last && NEWLINE !in t[..lineEnd - lineStart]
    ensures lineEnd < last ==> t[lineEnd - lineStart] == NEWLINE
  {
    lineEnd := lineStart;
    while lineEnd < last && data[lineEnd] != NEWLINE
      invariant lineStart <= lineEnd <= last && NEWLINE !in t[..lineEnd - lineStart]
    {
      assert data[lineEnd] == t[lineEnd - lineStart];
      lineEnd := lineEnd + 1;
    }
    assert lineEnd < last ==> data[lineEnd] == t[lineEnd - lineStart];
  }

  /** ece391_strcpy(data, data + from), where source and destination overlap. */
  method CopyDown(data: array<byte>, from: int, ghost t: seq<byte>)
    requires from > 0 && Holds(data, from, t) && 0 !in t
    requires from + |t| < data.Length && data[from + |t|] == 0
    modifies data
    ensures Holds(data, 0, t) && data[|t|] == 0
    ensures forall k :: |t| < k < data.Length ==> data[k] == old(data[k])
  {
    var i := 0;
    data[i] := data[from + i];
    while data[i] != 0
      invariant 0 <= i <= |t|
      invariant forall k :: 0 <= k < i ==> data[k] == t[k]
      invariant data[i] == if i < |t| then t[i] else 0
      invariant forall k :: i < k < data.Length ==> data[k] == old(data[k])
      decreases |t| - i
    {
      assert i + 1 < |t| ==> data[from + (i + 1)] == old(data[from + (i + 1)]) == t[i + 1];
      i := i + 1;
      data[i] := data[from + i];
    }
  }

  /** The search loop over one line, which has been NUL-terminated. */
  method SearchLine(data: array<byte>, lineStart: int, lineEnd: int, s: seq<byte>, sLen: int, fname: seq<byte>,
                    ghost line: seq<byte>)
    returns (out: seq<byte>)
    requires Holds(data, lineStart, line) && 0 !in line && lineEnd == lineStart + |line|
    requires lineEnd < data.Length && data[lineEnd] == 0
    requires 0 in s && sLen == |CStr(s)| && 0 in fname
    ensures out == Report(line, CStr(s), CStr(fname))
  {
    ghost var pat := CStr(s);
    var check := lineStart;
    while check < lineEnd
      invariant lineStart <= check <= lineEnd
      invariant pat != [] && pat[0] < 128 ==> forall k :: 0 <= k < check - lineStart ==> !OccursAt(line, pat, k)
    {
      ghost var k := check - lineStart;
      assert data[lineStart + k] == line[k] != 0;
      if SignedChar(s[0]) == data[check] {
        forall m | 0 <= m < |line| - k ensures data[check + m] == line[k..][m] {
          assert data[lineStart + (k + m)] == line[k + m];
        }
        var cmp := Strncmp(data, check, s, sLen, line[k..]);
        SameStartIsOccurrence(line[k..], pat);
        assert OccursAt(line[k..], pat, 0) == OccursAt(line, pat, k);
        if cmp == 0 {
          out := FdputsFrom(data, lineStart, line);
          return CStr(fname) + [COLON] + out + [NEWLINE];
        }
      } else {
        assert pat != [] && OccursAt(line, pat, k) ==> line[k..k + |pat|][0] == pat[0];
      }
      check := check + 1;
    }
    out := [];
  }

  /** What ece391_fdputs(1, data + from) writes: everything up to the NUL. */
  method FdputsFrom(data: array<byte>, from: int, ghost text: seq<byte>) returns (out: seq<byte>)
    requires Holds(data, from, text) && 0 !in text && from + |text| < data.Length && data[from + |text|] == 0
    ensures out == text
  {
    var n := 0;
    while data[from + n] != 0
      invariant 0 <= n <= |text|
      invariant n < |text| ==> data[from + n] == text[n]
      decreases |text| - n
    {
      n := n + 1;
    }
    assert forall k :: 0 <= k < n ==> data[from..from + n][k] == data[from + k] == text[k];
    out := data[from..from + n];
  }

  method ReadInto(data: array<byte>, at: int, file: seq<byte>, pos: int, cnt: int, ghost t: seq<byte>)
    requires 0 <= cnt && 0 <= at && at + cnt <= data.Length && 0 <= pos && pos + cnt <= |file|
    requires Holds(data, 0, t) && |t| == at
    modifies data
    ensures Holds(data, 0, t + file[pos..pos + cnt])
    ensures forall k :: at + cnt <= k < data.Length ==> data[k] == old(data[k])
  {
    for i := 0 to cnt
      invariant forall k :: 0 <= k < at ==> data[k] == t[k]
      invariant forall k :: at <= k < at + i ==> data[k] == file[pos + (k - at)]
      invariant forall k :: at + i <= k < data.Length ==> data[k] == old(data[k])
    {
      data[at + i] := file[pos + i];
    }
  }

  /** The inner loop: reports every line that is complete in the buffer and moves the rest down. */
  method ScanBuffer(s: seq<byte>, sLen: int, fname: seq<byte>, data: array<byte>, filled: int, cnt: int,
                    ghost text: seq<byte>, ghost rest: seq<byte>, before: seq<byte>, ghost whole: seq<byte>)
    returns (out: seq<byte>, last: int, ghost t: seq<byte>)
    requires 0 in s && sLen == |CStr(s)| && 0 in fname
    requires data.Length == BUFSIZE + 1 && data[BUFSIZE] != NEWLINE
    requires Holds(data, 0, text) && filled == |text| <= BUFSIZE && 0 !in text
    requires (filled == BUFSIZE && cnt != 0) || rest == []
    requires Owes(before, text, rest, CStr(s), CStr(fname), whole)
    modifies data
    ensures Holds(data, 0, t) && last == |t| < BUFSIZE && 0 !in t && data[BUFSIZE] != NEWLINE
    ensures Owes(out, t, rest, CStr(s), CStr(fname), whole)
    ensures cnt == 0 ==> last == 0
  {
    hide Owes;
    out, last, t := before, filled, text;
    var lineStart := 0;
    while true
      invariant 0 <= lineStart && last == filled == lineStart + |t| && (t != [] || lineStart == 0)
      invariant data[BUFSIZE] != NEWLINE && Holds(data, lineStart, t) && 0 !in t
      invariant Owes(out, t, rest, CStr(s), CStr(fname), whole)
      decreases |t|
    {
      var lineEnd := FindLineEnd(data, lineStart, last, t);
      if data[lineEnd] != NEWLINE && cnt != 0 && lineStart != 0 {
        data[lineEnd] := 0;
        CopyDown(data, lineStart, t);
        last := last - lineStart;
        return;
      }
      ScanStepOwes(out, t, lineEnd - lineStart, rest, CStr(s), CStr(fname), whole);
      var report;
      report, t := ReportLine(data, lineStart, lineEnd, s, sLen, fname, t);
      out := out + report;
      lineStart := lineEnd + 1;
      if lineStart >= last {
        last := 0;
        return;
      }
    }
  }

  /** Terminates the line at lineEnd and searches it; what follows it stays in place. */
  method ReportLine(data: array<byte>, lineStart: int, lineEnd: int, s: seq<byte>, sLen: int, fname: seq<byte>,
                    ghost t: seq<byte>)
    returns (out: seq<byte>, ghost tail: seq<byte>)
    requires Holds(data, lineStart, t) && 0 !in t && lineStart <= lineEnd <= lineStart + |t| < data.Length
    requires 0 in s && sLen == |CStr(s)| && 0 in fname
    modifies data
    ensures out == Report(t[..lineEnd - lineStart], CStr(s), CStr(fname))
    ensures tail == if lineEnd < lineStart + |t| then t[lineEnd - lineStart + 1..] else []
    ensures tail != [] ==> Holds(data, lineEnd + 1, tail)
    ensures 0 !in tail && forall k :: 0 <= k < data.Length && k != lineEnd ==> data[k] == old(data[k])
    ensures data[lineEnd] == 0
  {
    hide Report;
    ghost var n := lineEnd - lineStart;
    tail := if n < |t| then t[n + 1..] else [];
    assert forall k :: 0 <= k < |tail| ==> data[lineStart + (n + 1 + k)] == tail[k];
    data[lineEnd] := 0;
    out := SearchLine(data, lineStart, lineEnd, s, sLen, fname, t[..n]);
  }

  /**
   do_one_file on a file that opened: fname and s are C strings, data is the uninitialised
   buffer, and each read returns all it is asked for until the file ends.
   */
  method DoOneFile(s: seq<byte>, fname: seq<byte>, file: seq<byte>, data: array<byte>) returns (out: seq<byte>)
    requires 0 in s && 0 in fname && 0 !in file
    requires data.Length == BUFSIZE + 1 && data[BUFSIZE] != NEWLINE
    modifies data
    ensures out == Grepped(Pieces(file), CStr(s), CStr(fname))
    ensures LinesFit(file) && 0 < s[0] < 128 ==> out == Filtered(Lines(file), CStr(s), CStr(fname))
  {
    hide Owes, Grepped, Pieces;
    var sLen := Strlen(s);
    ghost var whole := Grepped(Pieces(file), CStr(s), CStr(fname));
    var last, pos := 0, 0;
    ghost var t: seq<byte> := [];
    out := [];
    assert t + file[pos..] == file;
    OwesEnds(out, t, file[pos..], CStr(s), CStr(fname), whole);
    while true
      invariant last == |t| < BUFSIZE && 0 <= pos <= |file|
      invariant data[BUFSIZE] != NEWLINE && Holds(data, 0, t) && 0 !in t
      invariant Owes(out, t, file[pos..], CStr(s), CStr(fname), whole)
      decreases |file| - pos
    {
      var cnt := Min(BUFSIZE - last, |file| - pos);
      ReadInto(data, last, file, pos, cnt, t);
      ghost var text := t + file[pos..pos + cnt];
      OwesAfterRead(out, t, file, pos, cnt, CStr(s), CStr(fname), whole);
      last, pos := last + cnt, pos + cnt;
      out, last, t := ScanBuffer(s, sLen, fname, data, last, cnt, text, file[pos..], out, whole);
      if cnt == 0 {
        OwesEnds(out, t, file[pos..], CStr(s), CStr(fname), whole);
        if LinesFit(file) && 0 < s[0] < 128 {
          GrepFilters(file, CStr(s), CStr(fname));
        }
        return;
      }
    }
  }
}
