/** The messages that the kernel prints, on any screen: which of them leave it as it was. */
module Messages {
  import opened Memory
  import opened Console
  import opened Paper
  import KernelModel

  /** Characters that fill one cell each. */
  ghost predicate Plain(word: seq<Byte>) {
    forall i :: 0 <= i < |word| ==> word[i] !in {BACKSPACE, TAB, NEWLINE, RETURN}
  }

  /** A word moves the cursor along, and to the next row at most once. */
  lemma {:induction false} WordMoves(s: Screen, word: seq<Byte>)
    requires OnScreen(s.cursor) && Plain(word) && |word| < COLS
    ensures CanFeedAll(s, word)
    ensures var c := FeedAll(s, word).cursor;
      if s.cursor.x + |word| < COLS then c == Cursor(s.cursor.x + |word|, s.cursor.y)
      else c == Cursor(s.cursor.x + |word| - COLS, if s.cursor.y == ROWS - 1 then ROWS - 1 else s.cursor.y + 1)
    decreases |word|
  {
    if word != [] {
      WordMoves(Feed(s, word[0]), word[1..]);
    }
  }

  /** A word that fits its row changes the cells it covers. */
  lemma {:induction false} WordCells(s: Screen, word: seq<Byte>, r: int, c: int)
    requires OnScreen(s.cursor) && Plain(word) && s.cursor.x + |word| < COLS
    requires 0 <= r < ROWS && 0 <= c < COLS
    ensures CanFeedAll(s, word)
    ensures var x := s.cursor.x;
      Glyph(FeedAll(s, word).page, r, c) ==
      if r == s.cursor.y && x <= c < x + |word| then word[c - x] else Glyph(s.page, r, c)
    decreases |word|
  {
    if word != [] {
      PutCells(s.page, s.cursor.x, s.cursor.y, word[0], r, c);
      WordCells(Feed(s, word[0]), word[1..], r, c);
    }
  }

  lemma {:induction false} TailStays(s: Screen, text: seq<Byte>, o: int)
    requires CanFeedAll(s, text) && BACKSPACE !in text && TAB !in text && 2 * CELLS <= o < PAGE
    ensures FeedAll(s, text).page[o] == s.page[o]
    decreases |text|
  {
    if text != [] {
      TailStays(Feed(s, text[0]), text[1..], o);
    }
  }

  /** A page of 24 rows that all read `line`, and the cursor in the empty last row. */
  ghost predicate FullOf(s: Screen, line: seq<Byte>) { Shows(s, seq(ROWS - 1, _ => line) + [[]]) }

  lemma LineFeeds(s: Screen, line: seq<Byte>)
    requires OnScreen(s.cursor) && Plain(line) && |line| < COLS
    ensures CanFeedAll(s, line) && CanFeedAll(s, line + [NEWLINE])
    ensures FeedAll(s, line + [NEWLINE]) == NewLine(FeedAll(s, line))
  {
    WordMoves(s, line);
    var s' := FeedAll(s, line);
    assert CanFeedAll(s', [NEWLINE]) && FeedAll(s', [NEWLINE]) == NewLine(s') by {
      assert CanFeedAll(NewLine(s'), []);
      assert [NEWLINE][1..] == [];
    }
    FeedAllConcat(s, line, [NEWLINE]);
  }

  /** Cell by cell, a line printed in the last row moves everything up by one. */
  lemma LineShifts(s: Screen, line: seq<Byte>, r: int, c: int)
    requires s.cursor == Cursor(0, ROWS - 1) && Plain(line) && |line| < COLS
    requires 0 <= r < ROWS && 0 <= c < COLS
    ensures CanFeedAll(s, line + [NEWLINE])
    ensures var p := FeedAll(s, line + [NEWLINE]).page;
      && Attribute(p, r, c) == ATTRIB
      && Glyph(p, r, c) == if r == ROWS - 1 then BLANK
                           else if r == ROWS - 2 && c < |line| then line[c]
                           else Glyph(s.page, r + 1, c)
  {
    LineFeeds(s, line);
    WordMoves(s, line);
    ScrollCells(FeedAll(s, line).page, r, c);
    if r + 1 < ROWS {
      WordCells(s, line, r + 1, c);
    }
  }

  /** Row by row from the bottom: a screen that a line leaves alone is full of it. */
  lemma {:induction false} UnmovedRow(s: Screen, line: seq<Byte>, r: int, c: int)
    requires s.cursor == Cursor(0, ROWS - 1) && Plain(line) && |line| < COLS
    requires CanFeedAll(s, line + [NEWLINE]) && FeedAll(s, line + [NEWLINE]) == s
    requires 0 <= r < ROWS && 0 <= c < COLS
    ensures Attribute(s.page, r, c) == ATTRIB
    ensures Glyph(s.page, r, c) == if r < ROWS - 1 && c < |line| then line[c] else BLANK
    decreases ROWS - r
  {
    LineShifts(s, line, r, c);
    if r < ROWS - 1 {
      UnmovedRow(s, line, r + 1, c);
    }
  }

  lemma SamePage(p: Page, q: Page)
    requires forall r, c :: 0 <= r < ROWS && 0 <= c < COLS ==>
      Glyph(p, r, c) == Glyph(q, r, c) && Attribute(p, r, c) == Attribute(q, r, c)
    requires forall o :: 2 * CELLS <= o < PAGE ==> p[o] == q[o]
    ensures p == q
  {
    forall o | 0 <= o < 2 * CELLS
      ensures p[o] == q[o]
    {
      var r, c := o / (2 * COLS), o % (2 * COLS) / 2;
      assert Glyph(p, r, c) == Glyph(q, r, c) && Attribute(p, r, c) == Attribute(q, r, c);
      assert o == 2 * (COLS * r + c) || o == 2 * (COLS * r + c) + 1;
    }
  }

  /** A line and its newline leave a screen as it was exactly when it is full of this line. */
  lemma LineUnmovedIff(s: Screen, line: seq<Byte>)
    requires OnScreen(s.cursor) && Plain(line) && |line| < COLS
    ensures CanFeedAll(s, line + [NEWLINE])
    ensures FeedAll(s, line + [NEWLINE]) == s <==> FullOf(s, line)
  {
    LineFeeds(s, line);
    WordMoves(s, line);
    var s' := FeedAll(s, line + [NEWLINE]);
    var rows := seq(ROWS - 1, _ => line) + [[]];
    if s' == s {
      assert s.cursor == Cursor(0, ROWS - 1);
      forall r, c | 0 <= r < ROWS && 0 <= c < COLS
        ensures Glyph(s.page, r, c) == PaperCell(rows, r, c) && Attribute(s.page, r, c) == ATTRIB
      {
        UnmovedRow(s, line, r, c);
      }
    }
    if FullOf(s, line) {
      forall r, c | 0 <= r < ROWS && 0 <= c < COLS
        ensures Glyph(s'.page, r, c) == Glyph(s.page, r, c) && Attribute(s'.page, r, c) == Attribute(s.page, r, c)
      {
        LineShifts(s, line, r, c);
        assert Glyph(s.page, r, c) == PaperCell(rows, r, c);
        assert r + 1 < ROWS ==> Glyph(s.page, r + 1, c) == PaperCell(rows, r + 1, c);
      }
      forall o | 2 * CELLS <= o < PAGE
        ensures s'.page[o] == s.page[o]
      {
        TailStays(s, line + [NEWLINE], o);
      }
      SamePage(s'.page, s.page);
    }
  }

  const NOT_EXE := Bytes(KernelModel.NOT_EXE)
  const TOO_MANY := Bytes(KernelModel.TOO_MANY)

  const NOT_EXE_LINE := Bytes(KernelModel.NOT_EXE_LINE)

  lemma TooManyIsWord()
    ensures |TOO_MANY| == 21 && Plain(TOO_MANY) && NUL !in TOO_MANY && PERCENT !in TOO_MANY
  {
  }

  lemma NotExeLineIsWord()
    ensures |NOT_EXE_LINE| == 15 && Plain(NOT_EXE_LINE) && NUL !in NOT_EXE_LINE && PERCENT !in NOT_EXE_LINE
  {
  }

  lemma BytesConcat(a: string, b: string)
    ensures Bytes(a + b) == Bytes(a) + Bytes(b)
  {
  }

  lemma NotExeIsLine()
    ensures |NOT_EXE_LINE| == 15 && Plain(NOT_EXE_LINE) && NOT_EXE == NOT_EXE_LINE + [NEWLINE]
    ensures NUL !in NOT_EXE && PERCENT !in NOT_EXE
  {
    NotExeLineIsWord();
    BytesConcat(KernelModel.NOT_EXE_LINE, "\n");
    assert Bytes("\n") == [NEWLINE];
  }

  /** The two messages of execute can be printed anywhere.  The one always moves the cursor; the
      other leaves a screen as it was exactly when it is full of it. */
  lemma MessageUnmovedIff(s: Screen)
    requires OnScreen(s.cursor)
    ensures CanFeedAll(s, TOO_MANY) && FeedAll(s, TOO_MANY) != s
    ensures CanFeedAll(s, NOT_EXE) && (FeedAll(s, NOT_EXE) == s <==> FullOf(s, NOT_EXE_LINE))
  {
    TooManyIsWord();
    NotExeIsLine();
    WordMoves(s, TOO_MANY);
    LineUnmovedIff(s, NOT_EXE_LINE);
  }
}
