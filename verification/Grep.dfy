/** grep on one file: a 1024-byte window slides over the file, complete lines are searched in
    place, and an unfinished last line is moved to the front before the next read. */
module Grep {
  import opened Memory
  import opened FileSystem
  import opened Commands

  const BUFSIZE: nat := 1024

  // ----- What grep should print -----

  /** The pattern occurs in the line.  The empty pattern matches nothing: the search compares the
      first character of the pattern, its terminator, with characters of the line. */
  ghost predicate Hits(line: seq<Byte>, s: seq<Byte>) {
    |s| > 0 && exists i :: OccursAt(line, s, i)
  }

  predicate OccursAt(line: seq<Byte>, s: seq<Byte>, i: int) {
    0 <= i && i + |s| <= |line| && forall j :: 0 <= j < |s| ==> s[j] == line[i + j]
  }

  ghost predicate NoNewline(text: seq<Byte>, from: nat, to: nat)
    requires to <= |text|
  {
    forall i :: from <= i < to ==> text[i] != NEWLINE
  }

  /** The end of the line that starts at `at`. */
  function LineEnd(text: seq<Byte>, at: nat): (e: nat)
    requires at <= |text|
    ensures at <= e <= |text|
    decreases |text| - at
  {
    if at == |text| || text[at] == NEWLINE then at else LineEnd(text, at + 1)
  }

  lemma {:induction false} LineEndIs(text: seq<Byte>, at: nat, e: nat)
    requires at <= e <= |text| && NoNewline(text, at, e)
    ensures LineEnd(text, at) >= e
    ensures e == |text| || text[e] == NEWLINE ==> LineEnd(text, at) == e
    decreases e - at
  {
    if at < e {
      LineEndIs(text, at + 1, e);
    }
  }

  lemma {:induction false} LineEndMeaning(text: seq<Byte>, at: nat)
    requires at <= |text|
    ensures var e := LineEnd(text, at);
      NoNewline(text, at, e) && (e < |text| ==> text[e] == NEWLINE)
    decreases |text| - at
  {
    if at < |text| && text[at] != NEWLINE {
      LineEndMeaning(text, at + 1);
    }
  }

  /** `out`, followed by the lines from position `at` on that contain the pattern, in order. */
  ghost function MatchingLines(out: seq<seq<Byte>>, text: seq<Byte>, at: nat, s: seq<Byte>): seq<seq<Byte>>
    requires at <= |text|
    decreases |text| - at
  {
    if at == |text| then out
    else
      var e := LineEnd(text, at);
      var out' := Append(out, text[at..e], s);
      if e < |text| then MatchingLines(out', text, e + 1, s) else out'
  }

  ghost function Append(out: seq<seq<Byte>>, line: seq<Byte>, s: seq<Byte>): seq<seq<Byte>> {
    if Hits(line, s) then out + [line] else out
  }

  /** The lines of the text from position `at` on; after a final newline there is no other line. */
  function Lines(text: seq<Byte>, at: nat): seq<seq<Byte>>
    requires at <= |text|
    decreases |text| - at
  {
    if at == |text| then []
    else
      var e := LineEnd(text, at);
      [text[at..e]] + if e < |text| then Lines(text, e + 1) else []
  }

  function Terminated(lines: seq<seq<Byte>>): seq<Byte> {
    if lines == [] then [] else lines[0] + [NEWLINE] + Terminated(lines[1..])
  }

  ghost function Filter(lines: seq<seq<Byte>>, s: seq<Byte>): seq<seq<Byte>> {
    if lines == [] then []
    else (if Hits(lines[0], s) then [lines[0]] else []) + Filter(lines[1..], s)
  }

  lemma FirstTerminated(line: seq<Byte>, rest: seq<seq<Byte>>)
    ensures Terminated([line] + rest) == line + [NEWLINE] + Terminated(rest)
  {
    assert ([line] + rest)[1..] == rest;
  }

  /** The newline that the text lacks at its end. */
  function Missing(text: seq<Byte>, at: nat): seq<Byte> {
    if at < |text| && text[|text| - 1] != NEWLINE then [NEWLINE] else []
  }

  lemma LineOfText(text: seq<Byte>, at: nat, e: nat, rest: seq<seq<Byte>>)
    requires at <= e < |text| && text[e] == NEWLINE
    requires Terminated(rest) == text[e + 1..] + Missing(text, e + 1)
    ensures Terminated([text[at..e]] + rest) == text[at..] + Missing(text, at)
  {
    FirstTerminated(text[at..e], rest);
    assert text[at..] == text[at..e] + [NEWLINE] + text[e + 1..];
  }

  lemma {:induction false} LinesHoldNoNewline(text: seq<Byte>, at: nat)
    requires at <= |text|
    ensures forall line :: line in Lines(text, at) ==> NEWLINE !in line
    decreases |text| - at
  {
    if at < |text| {
      LineEndMeaning(text, at);
      assert NEWLINE !in text[at..LineEnd(text, at)];
      if LineEnd(text, at) < |text| {
        LinesHoldNoNewline(text, LineEnd(text, at) + 1);
      }
    }
  }

  lemma LastLineOfText(text: seq<Byte>, at: nat)
    requires at < |text| && NoNewline(text, at, |text|)
    ensures Terminated([text[at..|text|]]) == text[at..] + Missing(text, at)
  {
    FirstTerminated(text[at..|text|], []);
    assert [text[at..|text|]] + [] == [text[at..|text|]];
  }

  /** The lines, each with a newline behind it, make up the text with a newline at its end. */
  lemma {:induction false} LinesMakeText(text: seq<Byte>, at: nat)
    requires at <= |text|
    ensures Terminated(Lines(text, at)) == text[at..] + Missing(text, at)
    decreases |text| - at
  {
    if at < |text| {
      var e := LineEnd(text, at);
      LineEndMeaning(text, at);
      if e < |text| {
        LinesMakeText(text, e + 1);
        LineOfText(text, at, e, Lines(text, e + 1));
      } else {
        LastLineOfText(text, at);
        assert Lines(text, at) == [text[at..e]];
      }
    }
  }

  /** What should be printed are the lines with the pattern, each once and in order. */
  lemma {:induction false} MatchingIsFilter(out: seq<seq<Byte>>, text: seq<Byte>, at: nat, s: seq<Byte>)
    requires at <= |text|
    ensures MatchingLines(out, text, at, s) == out + Filter(Lines(text, at), s)
    decreases |text| - at
  {
    if at < |text| {
      var e := LineEnd(text, at);
      var line, out' := text[at..e], Append(out, text[at..e], s);
      if e < |text| {
        assert Lines(text, at) == [line] + Lines(text, e + 1);
        FilterFirst(out, line, Lines(text, e + 1), s);
        MatchingIsFilter(out', text, e + 1, s);
      } else {
        assert Lines(text, at) == [line] + [];
        FilterFirst(out, line, [], s);
        assert out' + Filter([], s) == out';
      }
    } else {
      assert out + Filter([], s) == out;
    }
  }

  lemma FilterFirst(out: seq<seq<Byte>>, line: seq<Byte>, rest: seq<seq<Byte>>, s: seq<Byte>)
    ensures out + Filter([line] + rest, s) == Append(out, line, s) + Filter(rest, s)
  {
    assert ([line] + rest)[1..] == rest;
  }

  // ----- What grep prints -----

  /** The end of the next piece the window yields: a line, but never more than the window holds. */
  function PieceEnd(text: seq<Byte>, at: nat): (e: nat)
    requires at <= |text|
    ensures at <= e <= |text|
  {
    var e := LineEnd(text, at);
    if e > at + BUFSIZE then at + BUFSIZE else e
  }

  /** Where the text goes on after a piece: its newline is skipped if the window still held it. */
  function AfterPiece(text: seq<Byte>, at: nat, e: nat): (next: nat)
    requires at <= e <= |text|
  {
    if e < |text| && e < at + BUFSIZE then e + 1 else e
  }

  /** `out`, followed by the pieces from position `at` on that contain the pattern. */
  ghost function Printed(out: seq<seq<Byte>>, text: seq<Byte>, at: nat, s: seq<Byte>): seq<seq<Byte>>
    requires at <= |text|
    decreases |text| - at
  {
    if at == |text| then out
    else
      var e := PieceEnd(text, at);
      Printed(Append(out, text[at..e], s), text, AfterPiece(text, at, e), s)
  }

  /** One step of the scan is one piece of the text. */
  lemma ScanStep(out: seq<seq<Byte>>, text: seq<Byte>, at: nat, e: nat, s: seq<Byte>)
    requires at <= e <= |text| && e <= at + BUFSIZE && NoNewline(text, at, e)
    requires e == |text| || e == at + BUFSIZE || text[e] == NEWLINE
    ensures Printed(out, text, at, s) == Printed(Append(out, text[at..e], s), text, AfterPiece(text, at, e), s)
  {
    LineEndIs(text, at, e);
    assert PieceEnd(text, at) == e;
    assert at == |text| ==> !Hits(text[at..e], s);
  }

  // ----- The window refines the line filter -----

  /** The pattern occurs in no line longer than the window. */
  ghost predicate LongLinesMiss(text: seq<Byte>, at: nat, s: seq<Byte>)
    requires at <= |text|
    decreases |text| - at
  {
    var e := LineEnd(text, at);
    && (e > at + BUFSIZE ==> !Hits(text[at..e], s))
    && (e < |text| ==> LongLinesMiss(text, e + 1, s))
  }

  /** A pattern in a piece of a line is a pattern in the line. */
  lemma PartHits(text: seq<Byte>, lo: nat, hi: nat, from: nat, to: nat, s: seq<Byte>)
    requires lo <= from <= to <= hi <= |text|
    ensures Hits(text[from..to], s) ==> Hits(text[lo..hi], s)
  {
    if Hits(text[from..to], s) {
      var i :| OccursAt(text[from..to], s, i);
      assert OccursAt(text[lo..hi], s, i + (from - lo));
    }
  }

  /** What is left of a long line when its first piece is gone. */
  lemma RestMisses(text: seq<Byte>, at: nat, s: seq<Byte>)
    requires at <= |text| && LongLinesMiss(text, at, s) && LineEnd(text, at) > at + BUFSIZE
    ensures LineEnd(text, at + BUFSIZE) == LineEnd(text, at)
    ensures LongLinesMiss(text, at + BUFSIZE, s)
    ensures !Hits(text[at..at + BUFSIZE], s)
    ensures !Hits(text[at + BUFSIZE..LineEnd(text, at)], s)
  {
    var e := LineEnd(text, at);
    LineEndMeaning(text, at);
    LineEndIs(text, at + BUFSIZE, e);
    PartHits(text, at, e, at, at + BUFSIZE, s);
    PartHits(text, at, e, at + BUFSIZE, e, s);
  }

  /** Neither the window search nor the filter prints anything of the first piece. */
  lemma PieceSkipped(out: seq<seq<Byte>>, text: seq<Byte>, at: nat, s: seq<Byte>)
    requires at <= |text| && LongLinesMiss(text, at, s) && LineEnd(text, at) > at + BUFSIZE
    ensures Printed(out, text, at, s) == Printed(out, text, at + BUFSIZE, s)
    ensures MatchingLines(out, text, at, s) == MatchingLines(out, text, at + BUFSIZE, s)
  {
    RestMisses(text, at, s);
    LineEndMeaning(text, at);
    ScanStep(out, text, at, at + BUFSIZE, s);
  }

  lemma {:induction false} WindowFilters(out: seq<seq<Byte>>, text: seq<Byte>, at: nat, s: seq<Byte>)
    requires at <= |text| && LongLinesMiss(text, at, s)
    ensures Printed(out, text, at, s) == MatchingLines(out, text, at, s)
    decreases |text| - at
  {
    if at < |text| {
      var e := LineEnd(text, at);
      LineEndMeaning(text, at);
      if e > at + BUFSIZE {
        RestMisses(text, at, s);
        PieceSkipped(out, text, at, s);
        WindowFilters(out, text, at + BUFSIZE, s);
      } else {
        var out' := Append(out, text[at..e], s);
        ScanStep(out, text, at, e, s);
        if e < |text| {
          WindowFilters(out', text, e + 1, s);
          if e == at + BUFSIZE {
            // A line as long as the window leaves its newline behind, which prints nothing.
            ScanStep(out', text, e, e, s);
            assert Append(out', text[e..e], s) == out';
          }
        }
      }
    }
  }

  lemma {:induction false} PiecesAreShort(out: seq<seq<Byte>>, text: seq<Byte>, at: nat, s: seq<Byte>)
    requires at <= |text| && forall l :: l in out ==> |l| <= BUFSIZE
    ensures forall l :: l in Printed(out, text, at, s) ==> |l| <= BUFSIZE
    decreases |text| - at
  {
    if at < |text| {
      var e := PieceEnd(text, at);
      PiecesAreShort(Append(out, text[at..e], s), text, AfterPiece(text, at, e), s);
    }
  }

  lemma {:induction false} MatchingKeeps(out: seq<seq<Byte>>, text: seq<Byte>, at: nat, s: seq<Byte>)
    requires at <= |text|
    ensures out <= MatchingLines(out, text, at, s)
    decreases |text| - at
  {
    if at < |text| && LineEnd(text, at) < |text| {
      MatchingKeeps(Append(out, text[at..LineEnd(text, at)], s), text, LineEnd(text, at) + 1, s);
    }
  }

  /** A long line with the pattern in it is among the matching lines. */
  lemma {:induction false} LongLineMatches(out: seq<seq<Byte>>, text: seq<Byte>, at: nat, s: seq<Byte>)
    requires at <= |text| && !LongLinesMiss(text, at, s)
    ensures exists l :: l in MatchingLines(out, text, at, s) && |l| > BUFSIZE
    decreases |text| - at
  {
    var e := LineEnd(text, at);
    var out' := Append(out, text[at..e], s);
    if e > at + BUFSIZE && Hits(text[at..e], s) {
      assert out'[|out'| - 1] == text[at..e];
      if e < |text| {
        MatchingKeeps(out', text, e + 1, s);
      }
      assert text[at..e] in MatchingLines(out, text, at, s);
    } else {
      LongLineMatches(out', text, e + 1, s);
    }
  }

  /** The window search is the line filter exactly when the pattern occurs in no line that is
      longer than the window. */
  lemma WindowIsFilterIff(text: seq<Byte>, s: seq<Byte>)
    ensures Printed([], text, 0, s) == MatchingLines([], text, 0, s) <==> LongLinesMiss(text, 0, s)
  {
    if LongLinesMiss(text, 0, s) {
      WindowFilters([], text, 0, s);
    } else {
      PiecesAreShort([], text, 0, s);
      LongLineMatches([], text, 0, s);
    }
  }

  // ----- Which files grep filters for every pattern -----

  /** No line from position `at` on is longer than the window. */
  ghost predicate ShortLines(text: seq<Byte>, at: nat)
    requires at <= |text|
    decreases |text| - at
  {
    var e := LineEnd(text, at);
    e <= at + BUFSIZE && (e < |text| ==> ShortLines(text, e + 1))
  }

  /** Every line longer than the window consists of blanks and tabs. */
  ghost predicate LongLinesBlank(text: seq<Byte>, at: nat)
    requires at <= |text|
    decreases |text| - at
  {
    var e := LineEnd(text, at);
    && (e > at + BUFSIZE ==> forall i :: at <= i < e ==> IsBlank(text[i]))
    && (e < |text| ==> LongLinesBlank(text, e + 1))
  }

  /** A pattern that fits the argument field, as a string of at most `size` bytes. */
  ghost predicate Pattern(s: seq<Byte>, size: nat) { 1 <= |s| <= size && NUL !in s }

  /** A pattern that execute passes on to grep. */
  ghost predicate Argument(s: seq<Byte>) {
    s != [] && exists command :: Carries(command, Bytes("grep"), s)
  }

  lemma ArgumentMeaning(s: seq<Byte>)
    ensures Argument(s) <==> Pattern(s, 123) && !IsBlank(s[0])
  {
    if s != [] {
      ArgumentIff(Bytes("grep"), s);
    }
  }

  lemma OneCharHits(line: seq<Byte>, i: nat)
    requires i < |line|
    ensures Hits(line, [line[i]])
  {
    assert OccursAt(line, [line[i]], i);
  }

  lemma {:induction false} ShortLinesMiss(text: seq<Byte>, at: nat, s: seq<Byte>)
    requires at <= |text| && ShortLines(text, at)
    ensures LongLinesMiss(text, at, s)
    decreases |text| - at
  {
    if LineEnd(text, at) < |text| {
      ShortLinesMiss(text, LineEnd(text, at) + 1, s);
    }
  }

  lemma {:induction false} BlankLinesMiss(text: seq<Byte>, at: nat, s: seq<Byte>)
    requires at <= |text| && LongLinesBlank(text, at) && s != [] && !IsBlank(s[0])
    ensures LongLinesMiss(text, at, s)
    decreases |text| - at
  {
    var e := LineEnd(text, at);
    if Hits(text[at..e], s) {
      var i :| OccursAt(text[at..e], s, i);
      assert s[0] == text[at..e][i] == text[at + i];
    }
    if e < |text| {
      BlankLinesMiss(text, e + 1, s);
    }
  }

  lemma {:induction false} LongLine(text: seq<Byte>, at: nat) returns (k: nat)
    requires at <= |text| && !ShortLines(text, at)
    ensures k < |text| && !LongLinesMiss(text, at, [text[k]])
    decreases |text| - at
  {
    var e := LineEnd(text, at);
    if e > at + BUFSIZE {
      k := at;
      OneCharHits(text[at..e], 0);
    } else {
      k := LongLine(text, e + 1);
    }
  }

  lemma {:induction false} LongVisibleLine(text: seq<Byte>, at: nat) returns (k: nat)
    requires at <= |text| && !LongLinesBlank(text, at)
    ensures k < |text| && !IsBlank(text[k]) && !LongLinesMiss(text, at, [text[k]])
    decreases |text| - at
  {
    var e := LineEnd(text, at);
    if e > at + BUFSIZE && exists i :: at <= i < e && !IsBlank(text[i]) {
      k :| at <= k < e && !IsBlank(text[k]);
      OneCharHits(text[at..e], k - at);
    } else {
      k := LongVisibleLine(text, e + 1);
    }
  }

  /** For a text without NULs and patterns up to any size: the window search is the line filter for
      all of them exactly when no line is longer than the window. */
  lemma EveryPatternIff(text: seq<Byte>, size: nat)
    requires NUL !in text && size >= 1
    ensures (forall s :: Pattern(s, size) ==> Printed([], text, 0, s) == MatchingLines([], text, 0, s))
      <==> ShortLines(text, 0)
  {
    if ShortLines(text, 0) {
      forall s
        ensures Printed([], text, 0, s) == MatchingLines([], text, 0, s)
      {
        ShortLinesMiss(text, 0, s);
        WindowIsFilterIff(text, s);
      }
    } else {
      var k := LongLine(text, 0);
      assert Pattern([text[k]], size);
      WindowIsFilterIff(text, [text[k]]);
    }
  }

  /** The same for the arguments that execute can pass on; for these a long line does no harm if it
      consists of blanks and tabs. */
  lemma EveryArgumentIff(text: seq<Byte>)
    requires NUL !in text
    ensures (forall s :: Argument(s) ==> Printed([], text, 0, s) == MatchingLines([], text, 0, s))
      <==> LongLinesBlank(text, 0)
  {
    if LongLinesBlank(text, 0) {
      forall s | Argument(s)
        ensures Printed([], text, 0, s) == MatchingLines([], text, 0, s)
      {
        ArgumentMeaning(s);
        BlankLinesMiss(text, 0, s);
        WindowIsFilterIff(text, s);
      }
    } else {
      var k := LongVisibleLine(text, 0);
      ArgumentMeaning([text[k]]);
      WindowIsFilterIff(text, [text[k]]);
    }
  }

  /** A line of 1025 letters, searched for that letter: the filter prints it, the window does not. */
  lemma LongLineLost()
    ensures var text, s: seq<Byte> := seq(1025, _ => 97), [97];
      && Argument(s) && Printed([], text, 0, s) != MatchingLines([], text, 0, s)
      && MatchingLines([], text, 0, s) == [text]
  {
    var text, s: seq<Byte> := seq(1025, _ => 97), [97];
    LineEndIs(text, 0, 1025);
    assert text[0..1025] == text && [text[0]] == s;
    OneCharHits(text, 0);
    ArgumentMeaning(s);
    WindowIsFilterIff(text, s);
  }

  // ----- The program -----

  /** ece391_strncmp of the string at `at` with a pattern of `n` characters. */
  method StartsWith(data: array<Byte>, at: nat, s: seq<Byte>) returns (equal: bool)
    requires NUL !in s && exists e :: at <= e < data.Length && data[e] == NUL
    ensures equal <==> OccursAt(data[..], s, at)
  {
    var n := |s|;
    if n == 0 {
      return true;
    }
    var i := 0;
    while data[at + i] == s[i]
      invariant 0 <= i < n && at + i < data.Length
      invariant exists e :: at + i <= e < data.Length && data[e] == NUL
      invariant forall j :: 0 <= j < i ==> s[j] == data[at + j]
      decreases n - i
    {
      if data[at + i] == NUL || n - i - 1 == 0 {
        return true;
      }
      i := i + 1;
    }
    assert s[i] != data[..][at + i];
    return false;
  }

  /** ece391_strcpy from `from` down to the start of the buffer, for a string that ends at `end`. */
  method CarryDown(data: array<Byte>, from: nat, ghost end: nat)
    requires 0 < from <= end < data.Length
    requires data[end] == NUL && forall i :: from <= i < end ==> data[i] != NUL
    modifies data
    ensures data[..end - from] == old(data[from..end])
    ensures data[data.Length - 1] == old(data[data.Length - 1])
  {
    ghost var was := data[..];
    var dst, src := 0, from;
    while data[src] != NUL
      invariant dst + from == src && from <= src <= end
      invariant forall i :: dst <= i < data.Length ==> data[i] == was[i]
      invariant forall i :: 0 <= i < dst ==> data[i] == was[i + from]
      decreases end - src
    {
      data[dst] := data[src];
      dst, src := dst + 1, src + 1;
    }
    data[dst] := data[src];
  }

  /** The search loop over one line, which has been terminated at `lineEnd`. */
  method SearchLine(data: array<Byte>, lineStart: nat, lineEnd: nat, s: seq<Byte>) returns (found: bool)
    requires lineStart <= lineEnd < data.Length && data[lineEnd] == NUL
    requires NUL !in data[lineStart..lineEnd] && NUL !in s
    ensures found <==> Hits(data[lineStart..lineEnd], s)
  {
    ghost var line := data[lineStart..lineEnd];
    for check := lineStart to lineEnd
      invariant |s| > 0 ==> forall i :: 0 <= i < check - lineStart ==> !OccursAt(line, s, i)
    {
      assert data[check] == line[check - lineStart];
      var equal := StartsWith(data, check, s);
      InLine(data[..], lineStart, lineEnd, s, check);
      if (if |s| == 0 then NUL else s[0]) == data[check] && equal {
        return true;
      }
    }
    return false;
  }

  lemma NulInside(data: seq<Byte>, s: seq<Byte>, at: nat, e: nat)
    requires OccursAt(data, s, at) && at <= e < at + |s| && data[e] == NUL
    ensures NUL in s
  {
    assert s[e - at] == data[at + (e - at)];
  }

  /** A pattern found in the buffer from inside a terminated line lies inside the line. */
  lemma InLine(data: seq<Byte>, lineStart: nat, lineEnd: nat, s: seq<Byte>, at: nat)
    requires lineStart <= at < lineEnd < |data| && data[lineEnd] == NUL && NUL !in s
    ensures OccursAt(data, s, at) <==> OccursAt(data[lineStart..lineEnd], s, at - lineStart)
    ensures OccursAt(data, s, at) && |s| > 0 ==> data[at] == s[0]
  {
    var line, o := data[lineStart..lineEnd], at - lineStart;
    if OccursAt(data, s, at) {
      if at + |s| > lineEnd {
        NulInside(data, s, at, lineEnd);
      }
      forall j | 0 <= j < |s|
        ensures s[j] == line[o + j]
      {
        assert s[j] == data[at + j];
      }
    }
    if OccursAt(line, s, o) {
      forall j | 0 <= j < |s|
        ensures s[j] == data[at + j]
      {
        assert s[j] == line[o + j];
      }
    }
  }

  /** `data[lo..hi]` holds the text from `begin + lo` on. */
  ghost predicate Holds(data: array<Byte>, lo: nat, hi: nat, text: seq<Byte>, begin: nat)
    reads data
  {
    hi <= data.Length && begin + hi <= |text| && forall i :: lo <= i < hi ==> data[i] == text[begin + i]
  }

  /** What is printed and what is still to be printed make up `total`. */
  ghost predicate Accounts(printed: seq<seq<Byte>>, text: seq<Byte>, at: nat, s: seq<Byte>, total: seq<seq<Byte>>) {
    at <= |text| && Printed(printed, text, at, s) == total
  }

  /** Where the scan goes on: after the line, but not beyond the window. */
  function Resume(lineEnd: nat, filled: nat): nat { if lineEnd < filled then lineEnd + 1 else filled }

  /** `lineEnd` ends the piece that starts at `lineStart` of a window showing `text` from `begin`. */
  ghost predicate EndsPiece(text: seq<Byte>, begin: nat, lineStart: nat, lineEnd: nat, filled: nat) {
    && lineStart <= lineEnd <= filled <= BUFSIZE && begin + filled <= |text|
    && NoNewline(text, begin + lineStart, begin + lineEnd)
    && if lineEnd < filled then text[begin + lineEnd] == NEWLINE
       else begin + filled == |text| || (lineStart == 0 && filled == BUFSIZE)
  }

  /** One piece moves from what is still to be printed to what is printed. */
  lemma StepAccounts(printed: seq<seq<Byte>>, text: seq<Byte>, at: nat, e: nat, next: nat,
                     s: seq<Byte>, total: seq<seq<Byte>>)
    requires at <= e <= |text| && e <= at + BUFSIZE && NoNewline(text, at, e)
    requires e == |text| || e == at + BUFSIZE || text[e] == NEWLINE
    requires next == AfterPiece(text, at, e) && Accounts(printed, text, at, s, total)
    ensures Accounts(Append(printed, text[at..e], s), text, next, s, total)
  {
    ScanStep(printed, text, at, e, s);
  }

  lemma PieceGoesOn(text: seq<Byte>, begin: nat, lineStart: nat, lineEnd: nat, filled: nat)
    requires EndsPiece(text, begin, lineStart, lineEnd, filled)
    ensures AfterPiece(text, begin + lineStart, begin + lineEnd) == begin + Resume(lineEnd, filled)
  {
  }

  lemma TakeStep(printed: seq<seq<Byte>>, text: seq<Byte>, begin: nat, lineStart: nat, lineEnd: nat,
                 filled: nat, s: seq<Byte>, total: seq<seq<Byte>>)
    requires EndsPiece(text, begin, lineStart, lineEnd, filled)
    requires Accounts(printed, text, begin + lineStart, s, total)
    ensures var line := text[begin + lineStart..begin + lineEnd];
      Accounts(Append(printed, line, s), text, begin + Resume(lineEnd, filled), s, total)
  {
    PieceGoesOn(text, begin, lineStart, lineEnd, filled);
    StepAccounts(printed, text, begin + lineStart, begin + lineEnd, begin + Resume(lineEnd, filled), s, total);
  }

  /** Terminate the line at hand, search it and print it on a hit. */
  method TakeLine(data: array<Byte>, lineStart: nat, lineEnd: nat, s: seq<Byte>, printed: seq<seq<Byte>>,
                  ghost line: seq<Byte>)
    returns (printed': seq<seq<Byte>>)
    requires lineStart <= lineEnd < data.Length && NUL !in s && NUL !in line
    requires line == data[lineStart..lineEnd]
    modifies data
    ensures data[lineEnd] == NUL && forall i :: 0 <= i < data.Length && i != lineEnd ==> data[i] == old(data[i])
    ensures printed' == Append(printed, line, s)
  {
    data[lineEnd] := NUL;
    assert data[lineStart..lineEnd] == line;
    var found := SearchLine(data, lineStart, lineEnd, s);
    printed' := printed;
    if found {
      printed' := printed' + [data[lineStart..lineEnd]];
    }
  }

  lemma LineInWindow(data: array<Byte>, lineStart: nat, lineEnd: nat, filled: nat, text: seq<Byte>, begin: nat)
    requires Holds(data, lineStart, filled, text, begin) && lineStart <= lineEnd <= filled
    ensures data[lineStart..lineEnd] == text[begin + lineStart..begin + lineEnd]
  {
  }

  /** The same, keeping account of what is still to be printed. */
  method TakePiece(data: array<Byte>, lineStart: nat, lineEnd: nat, s: seq<Byte>, printed: seq<seq<Byte>>,
                   ghost filled: nat, ghost cnt: nat,
                   ghost text: seq<Byte>, ghost begin: nat, ghost total: seq<seq<Byte>>)
    returns (printed': seq<seq<Byte>>)
    requires lineEnd < data.Length && NUL !in s && NUL !in text
    requires Window(data, lineStart, filled, cnt, text, begin) && EndsPiece(text, begin, lineStart, lineEnd, filled)
    requires Accounts(printed, text, begin + lineStart, s, total)
    modifies data
    ensures lineEnd + 1 < filled ==> Window(data, lineEnd + 1, filled, cnt, text, begin)
    ensures lineEnd + 1 < filled ==> Accounts(printed', text, begin + lineEnd + 1, s, total)
    ensures lineEnd + 1 >= filled ==> Carried(data, 0, cnt, printed', text, begin + filled, s, total)
  {
    ghost var line := text[begin + lineStart..begin + lineEnd];
    TakeStep(printed, text, begin, lineStart, lineEnd, filled, s, total);
    LineInWindow(data, lineStart, lineEnd, filled, text, begin);
    printed' := TakeLine(data, lineStart, lineEnd, s, printed, line);
    assert Accounts(printed', text, begin + Resume(lineEnd, filled), s, total);
    if lineEnd + 1 < filled {
      assert Resume(lineEnd, filled) == lineEnd + 1;
      assert Holds(data, lineEnd + 1, filled, text, begin);
    } else {
      assert Resume(lineEnd, filled) == filled;
      assert BetweenReads(data, 0, begin + filled, printed', text, s, total);
    }
  }

  /** The scan for the end of the line that starts at `lineStart`. */
  method FindNewline(data: array<Byte>, lineStart: nat, last: nat) returns (lineEnd: nat)
    requires lineStart <= last < data.Length
    ensures lineStart <= lineEnd <= last
    ensures forall i :: lineStart <= i < lineEnd ==> data[i] != NEWLINE
    ensures lineEnd < last ==> data[lineEnd] == NEWLINE
  {
    lineEnd := lineStart;
    while lineEnd < last && data[lineEnd] != NEWLINE
      invariant lineStart <= lineEnd <= last
      invariant forall i :: lineStart <= i < lineEnd ==> data[i] != NEWLINE
    {
      lineEnd := lineEnd + 1;
    }
  }

  /** Terminate the unfinished line and move it to the front. */
  method CarryTail(data: array<Byte>, lineStart: nat, lineEnd: nat, ghost text: seq<Byte>, ghost begin: nat)
    requires data.Length == BUFSIZE + 1 && data[BUFSIZE] != NEWLINE
    requires 0 < lineStart < lineEnd <= BUFSIZE
    requires Holds(data, lineStart, lineEnd, text, begin) && NUL !in text
    modifies data
    ensures data[BUFSIZE] != NEWLINE && Holds(data, 0, lineEnd - lineStart, text, begin + lineStart)
  {
    ghost var was := data[..];
    data[lineEnd] := NUL;
    CarryDown(data, lineStart, lineEnd);
    forall i | 0 <= i < lineEnd - lineStart
      ensures data[i] == text[begin + lineStart + i]
    {
      assert data[i] == data[..lineEnd - lineStart][i] == was[lineStart + i];
    }
  }

  /** The window `data[..filled]` shows `text` from `begin` on; a read that returned nothing, or a
      window that is not full, has reached the end of the text. */
  ghost predicate Window(data: array<Byte>, lineStart: nat, filled: nat, cnt: nat, text: seq<Byte>, begin: nat)
    reads data
  {
    && data.Length == BUFSIZE + 1 && data[BUFSIZE] != NEWLINE && lineStart <= filled <= BUFSIZE
    && Holds(data, lineStart, filled, text, begin) && NUL !in text
    && (filled == BUFSIZE || begin + filled == |text|)
    && (cnt == 0 ==> begin + filled == |text|)
    && (lineStart > 0 ==> lineStart < filled)
  }

  /** What a scan of the window leaves: the unfinished line at the front. */
  ghost predicate Carried(data: array<Byte>, last: nat, cnt: nat, printed: seq<seq<Byte>>,
                          text: seq<Byte>, end: nat, s: seq<Byte>, total: seq<seq<Byte>>)
    reads data
  {
    && BetweenReads(data, last, end, printed, text, s, total)
    && (cnt == 0 ==> last == 0)
  }

  lemma FoundEnd(data: array<Byte>, lineStart: nat, lineEnd: nat, filled: nat, cnt: nat, text: seq<Byte>, begin: nat)
    requires Window(data, lineStart, filled, cnt, text, begin) && lineStart <= lineEnd <= filled
    requires forall i :: lineStart <= i < lineEnd ==> data[i] != NEWLINE
    requires lineEnd < filled ==> data[lineEnd] == NEWLINE
    ensures data[lineEnd] != NEWLINE && cnt != 0 && lineStart != 0 ==> lineEnd == filled
    ensures !(data[lineEnd] != NEWLINE && cnt != 0 && lineStart != 0) ==>
              EndsPiece(text, begin, lineStart, lineEnd, filled)
  {
    assert forall i :: begin + lineStart <= i < begin + lineEnd ==>
        text[i] == data[lineStart + (i - begin - lineStart)];
    assert lineEnd < filled ==> data[lineEnd] == text[begin + lineEnd];
  }

  /** The body of the inner loop.  It ends the loop with `last` characters carried over, or goes on
      at `next`. */
  method ScanLine(data: array<Byte>, lineStart: nat, filled: nat, cnt: nat, s: seq<Byte>,
                  printed: seq<seq<Byte>>, ghost text: seq<Byte>, ghost begin: nat, ghost total: seq<seq<Byte>>)
    returns (done: bool, last: nat, next: nat, printed': seq<seq<Byte>>)
    requires Window(data, lineStart, filled, cnt, text, begin) && NUL !in s
    requires Accounts(printed, text, begin + lineStart, s, total)
    modifies data
    ensures done ==> Carried(data, last, cnt, printed', text, begin + filled, s, total)
    ensures !done ==>
      && next > lineStart && Window(data, next, filled, cnt, text, begin)
      && Accounts(printed', text, begin + next, s, total)
  {
    last, next, printed' := filled, lineStart, printed;
    var lineEnd := FindNewline(data, lineStart, last);
    FoundEnd(data, lineStart, lineEnd, filled, cnt, text, begin);
    if data[lineEnd] != NEWLINE && cnt != 0 && lineStart != 0 {
      CarryTail(data, lineStart, lineEnd, text, begin);
      last := last - lineStart;
      return true, last, next, printed';
    }
    printed' := TakePiece(data, lineStart, lineEnd, s, printed, filled, cnt, text, begin, total);
    next := lineEnd + 1;
    done := next >= last;
    if done {
      last := 0;
    }
  }

  /** The inner loop: search every complete line in the window and carry the unfinished one down. */
  method ScanWindow(data: array<Byte>, filled: nat, cnt: nat, s: seq<Byte>, printedBefore: seq<seq<Byte>>,
                    ghost text: seq<Byte>, ghost begin: nat, ghost total: seq<seq<Byte>>)
    returns (last: nat, printed: seq<seq<Byte>>)
    requires Window(data, 0, filled, cnt, text, begin) && NUL !in s
    requires Accounts(printedBefore, text, begin, s, total)
    modifies data
    ensures Carried(data, last, cnt, printed, text, begin + filled, s, total)
  {
    last, printed := filled, printedBefore;
    var lineStart, done := 0, false;
    while !done
      invariant !done ==> Window(data, lineStart, filled, cnt, text, begin)
      invariant !done ==> Accounts(printed, text, begin + lineStart, s, total)
      invariant done ==> Carried(data, last, cnt, printed, text, begin + filled, s, total)
      decreases !done, filled - lineStart
    {
      done, last, lineStart, printed := ScanLine(data, lineStart, filled, cnt, s, printed, text, begin, total);
    }
  }

  /** Between two reads: the unfinished line at the front, and the account of what is printed. */
  ghost predicate BetweenReads(data: array<Byte>, last: nat, position: nat, printed: seq<seq<Byte>>,
                               text: seq<Byte>, s: seq<Byte>, total: seq<seq<Byte>>)
    reads data
  {
    && data.Length == BUFSIZE + 1 && data[BUFSIZE] != NEWLINE
    && last < BUFSIZE && last <= position <= |text|
    && Holds(data, 0, last, text, position - last)
    && Accounts(printed, text, position - last, s, total)
  }

  lemma {:induction false} PrintedExtends(out: seq<seq<Byte>>, text: seq<Byte>, at: nat, s: seq<Byte>)
    requires at <= |text|
    ensures out <= Printed(out, text, at, s)
    decreases |text| - at
  {
    if at < |text| {
      var e := PieceEnd(text, at);
      PrintedExtends(Append(out, text[at..e], s), text, AfterPiece(text, at, e), s);
    }
  }

  /** What has been printed between two reads is a beginning of the total, and all of it at the end. */
  lemma BeginningPrinted(data: array<Byte>, last: nat, position: nat, printed: seq<seq<Byte>>,
                         text: seq<Byte>, s: seq<Byte>, total: seq<seq<Byte>>)
    requires BetweenReads(data, last, position, printed, text, s, total)
    ensures printed <= total
    ensures last == 0 && position == |text| ==> printed == total
  {
    assert Accounts(printed, text, position - last, s, total);
    PrintedExtends(printed, text, position - last, s);
  }

  /** Before the first read. */
  lemma FirstRead(data: array<Byte>, text: seq<Byte>, s: seq<Byte>, total: seq<seq<Byte>>)
    requires data.Length == BUFSIZE + 1 && data[BUFSIZE] != NEWLINE && total == Printed([], text, 0, s)
    ensures BetweenReads(data, 0, 0, [], text, s, total)
  {
  }

  /** Everything up to `position` has been read; if the last read returned nothing, that is all. */
  ghost predicate ReadUpTo(v: Volume, inode: nat, position: nat, cnt: int)
    requires inode < |v.inodes|
  {
    var node := v.inodes[inode];
    && BlocksOk(v, node, 0, position)
    && (cnt == 0 ==> position == node.length && BlockOk(v, node, node.length))
  }

  lemma ReadOn(v: Volume, inode: nat, position: nat, position': nat, cnt: int)
    requires inode < |v.inodes| && BlocksOk(v, v.inodes[inode], 0, position)
    requires BlocksOk(v, v.inodes[inode], position, position')
    requires cnt == 0 ==>
      position' == v.inodes[inode].length && BlockOk(v, v.inodes[inode], v.inodes[inode].length)
    ensures ReadUpTo(v, inode, position', cnt)
  {
  }

  lemma AllRead(v: Volume, inode: nat)
    requires inode < |v.inodes| && ReadUpTo(v, inode, v.inodes[inode].length, 0)
    ensures Readable(v, inode)
  {
    CheckedToTheEnd(v, inode);
  }

  /** One file; `data` is the program's buffer with whatever it held before.  Ends well, having
      printed the matching pieces, just when the file is readable; a failed read ends it early. */
  method DoOneFile(v: Volume, inode: nat, s: seq<Byte>, data: array<Byte>)
    returns (status: int, printed: seq<seq<Byte>>)
    requires inode < |v.inodes| && NUL !in s && NUL !in Text(v, inode)
    requires data.Length == BUFSIZE + 1 && data[BUFSIZE] != NEWLINE
    modifies data
    ensures status == 0 || status == -1
    ensures status == 0 <==> Readable(v, inode)
    ensures status == 0 ==> printed == Printed([], Contents(v, inode), 0, s)
    ensures status == -1 ==> printed <= Printed([], Text(v, inode), 0, s)
  {
    ghost var text := Text(v, inode);
    var f := new OpenFile(inode);
    status, printed := ScanFile(v, f, s, data, text, Printed([], text, 0, s));
    if status == 0 {
      TextIsContents(v, inode);
    }
  }

  /** The outer loop. */
  method ScanFile(v: Volume, f: OpenFile, s: seq<Byte>, data: array<Byte>,
                  ghost text: seq<Byte>, ghost total: seq<seq<Byte>>)
    returns (status: int, printed: seq<seq<Byte>>)
    requires f.inode < |v.inodes| && text == Text(v, f.inode) && NUL !in text && NUL !in s && f.position == 0
    requires data.Length == BUFSIZE + 1 && data[BUFSIZE] != NEWLINE && total == Printed([], text, 0, s)
    modifies f, data
    ensures status == 0 || status == -1
    ensures status == 0 <==> Readable(v, f.inode)
    ensures status == 0 ==> printed == total
    ensures printed <= total
  {
    var last, cnt := 0, -1;
    printed := [];
    FirstRead(data, text, s, total);
    while cnt != 0
      invariant BetweenReads(data, last, f.position, printed, text, s, total)
      invariant ReadUpTo(v, f.inode, f.position, cnt)
      invariant cnt == 0 ==> last == 0
      decreases |text| - f.position, cnt != 0
    {
      BeginningPrinted(data, last, f.position, printed, text, s, total);
      cnt, last, printed := ReadAndScan(v, f, s, data, last, printed, text, total);
      if cnt == -1 {
        return -1, printed;
      }
    }
    AllRead(v, f.inode);
    BeginningPrinted(data, last, f.position, printed, text, s, total);
    return 0, printed;
  }

  /** One round of the outer loop: read into the free part of the window and scan it. */
  method ReadAndScan(v: Volume, f: OpenFile, s: seq<Byte>, data: array<Byte>, last: nat, printed: seq<seq<Byte>>,
                     ghost text: seq<Byte>, ghost total: seq<seq<Byte>>)
    returns (cnt: int, last': nat, printed': seq<seq<Byte>>)
    requires f.inode < |v.inodes| && text == Text(v, f.inode) && NUL !in text && NUL !in s
    requires BetweenReads(data, last, f.position, printed, text, s, total)
    requires BlocksOk(v, v.inodes[f.inode], 0, f.position)
    modifies f, data
    ensures cnt == -1 ==> !Readable(v, f.inode)
    ensures cnt == -1 ==> f.position == old(f.position) && last' == last && printed' == printed
    ensures cnt == -1 || cnt >= 0
    ensures cnt >= 0 ==>
      f.position == old(f.position) + cnt && Carried(data, last', cnt, printed', text, f.position, s, total)
    ensures cnt >= 0 ==> ReadUpTo(v, f.inode, f.position, cnt)
  {
    ghost var begin := f.position - last;
    assert Accounts(printed, text, begin, s, total);
    cnt := FillWindow(v, f, data, last, text, begin);
    if cnt == -1 {
      return cnt, last, printed;
    }
    ghost var end := f.position;
    last', printed' := ScanWindow(data, last + cnt, cnt, s, printed, text, begin, total);
    assert begin + (last + cnt) == end;
    assert Carried(data, last', cnt, printed', text, end, s, total);
  }

  /** The read into the free part of the window. */
  method FillWindow(v: Volume, f: OpenFile, data: array<Byte>, last: nat, ghost text: seq<Byte>, ghost begin: nat)
    returns (cnt: int)
    requires f.inode < |v.inodes| && text == Text(v, f.inode) && NUL !in text
    requires data.Length == BUFSIZE + 1 && data[BUFSIZE] != NEWLINE && last < BUFSIZE
    requires Holds(data, 0, last, text, begin) && begin + last == f.position
    requires BlocksOk(v, v.inodes[f.inode], 0, f.position)
    modifies f, data
    ensures cnt == -1 || cnt >= 0
    ensures cnt == -1 ==> !Readable(v, f.inode) && f.position == old(f.position)
    ensures cnt >= 0 ==> f.position == old(f.position) + cnt == begin + (last + cnt)
    ensures cnt >= 0 ==> Window(data, 0, last + cnt, cnt, text, begin)
    ensures cnt >= 0 ==> ReadUpTo(v, f.inode, f.position, cnt)
  {
    ghost var position := f.position;
    cnt := ReadText(v, f, data, last, BUFSIZE - last, text);
    if cnt >= 0 {
      ReadOn(v, f.inode, position, f.position, cnt);
    }
  }
}
