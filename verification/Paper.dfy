/** The console as a window on an unbounded typewriter page. */
module Paper {
  import opened Memory
  import opened Console

  // ----- The unbounded page, defined from the whole text -----

  /** Tabs as four blanks; both line ends as newlines. */
  function Expanded(c: Byte): seq<Byte> {
    if c == TAB then [BLANK, BLANK, BLANK, BLANK] else if c == RETURN then [NEWLINE] else [c]
  }

  function Expand(text: seq<Byte>): seq<Byte> {
    if text == [] then [] else Expanded(text[0]) + Expand(text[1..])
  }

  function FirstNewline(text: seq<Byte>): (i: nat)
    ensures i <= |text|
    ensures forall j :: 0 <= j < i ==> text[j] != NEWLINE
    ensures i < |text| ==> text[i] == NEWLINE
  {
    if text == [] || text[0] == NEWLINE then 0 else 1 + FirstNewline(text[1..])
  }

  /** A line broken into rows of 80; a full row is always followed by another one. */
  function Rows(line: seq<Byte>): (rows: seq<seq<Byte>>)
    ensures |rows| > 0 && |rows[|rows| - 1]| < COLS
  {
    if |line| < COLS then [line] else [line[..COLS]] + Rows(line[COLS..])
  }

  /** The rows of a page on which `text` was typed. */
  function Layout(text: seq<Byte>): (rows: seq<seq<Byte>>)
    ensures |rows| > 0 && |rows[|rows| - 1]| < COLS
    decreases |text|
  {
    var i := FirstNewline(text);
    if i == |text| then Rows(text) else Rows(text[..i]) + Layout(text[i + 1..])
  }

  // ----- Typing one more character -----

  function Type(rows: seq<seq<Byte>>, c: Byte): seq<seq<Byte>>
    requires |rows| > 0
  {
    if c == NEWLINE then rows + [[]]
    else
      var line := rows[|rows| - 1] + [c];
      rows[..|rows| - 1] + [line] + (if |line| == COLS then [[]] else [])
  }

  lemma {:induction false} RowsType(line: seq<Byte>, c: Byte)
    requires c != NEWLINE
    ensures Rows(line + [c]) == Type(Rows(line), c)
    decreases |line|
  {
    if |line| < COLS - 1 {
    } else if |line| == COLS - 1 {
      var full := line + [c];
      assert full[..COLS] == full && full[COLS..] == [];
    } else {
      var rest := line[COLS..];
      assert (line + [c])[..COLS] == line[..COLS] && (line + [c])[COLS..] == rest + [c];
      RowsType(rest, c);
      TypeAfter([line[..COLS]], Rows(rest), c);
    }
  }

  lemma TypeAfter(a: seq<seq<Byte>>, b: seq<seq<Byte>>, c: Byte)
    requires |b| > 0
    ensures Type(a + b, c) == a + Type(b, c)
  {
    assert (a + b)[..|a + b| - 1] == a + b[..|b| - 1];
  }

  lemma {:induction false} FirstNewlineExtends(text: seq<Byte>, c: Byte)
    ensures FirstNewline(text + [c]) ==
            if FirstNewline(text) == |text| && c != NEWLINE then |text| + 1 else FirstNewline(text)
  {
    if text != [] && text[0] != NEWLINE {
      assert (text + [c])[1..] == text[1..] + [c];
      FirstNewlineExtends(text[1..], c);
    }
  }

  lemma LayoutSplit(text: seq<Byte>, line: seq<Byte>, rest: seq<Byte>)
    requires text == line + [NEWLINE] + rest && FirstNewline(text) == |line|
    ensures Layout(text) == Rows(line) + Layout(rest)
  {
    assert text[..|line|] == line && text[|line| + 1..] == rest;
  }

  lemma LayoutWhole(text: seq<Byte>)
    requires FirstNewline(text) == |text|
    ensures Layout(text) == Rows(text)
  {
  }

  lemma {:induction false} LayoutType(text: seq<Byte>, c: Byte)
    ensures Layout(text + [c]) == Type(Layout(text), c)
    decreases |text|
  {
    var i := FirstNewline(text);
    FirstNewlineExtends(text, c);
    if i < |text| {
      var line, rest := text[..i], text[i + 1..];
      LayoutSplit(text, line, rest);
      LayoutSplit(text + [c], line, rest + [c]);
      LayoutType(rest, c);
      TypeAfter(Rows(line), Layout(rest), c);
    } else if c == NEWLINE {
      LayoutWhole(text);
      LayoutSplit(text + [c], text, []);
      LayoutWhole([]);
    } else {
      LayoutWhole(text);
      LayoutWhole(text + [c]);
      RowsType(text, c);
    }
  }

  // ----- The window -----

  function PaperCell(rows: seq<seq<Byte>>, r: int, c: int): Byte {
    if 0 <= r < |rows| && 0 <= c < |rows[r]| then rows[r][c] else BLANK
  }

  function Glyph(p: Page, r: int, c: int): Byte
    requires 0 <= r < ROWS && 0 <= c < COLS
  {
    p[2 * (COLS * r + c)]
  }

  function Attribute(p: Page, r: int, c: int): Byte
    requires 0 <= r < ROWS && 0 <= c < COLS
  {
    p[2 * (COLS * r + c) + 1]
  }

  function FirstRow(rows: seq<seq<Byte>>): nat { if |rows| > ROWS then |rows| - ROWS else 0 }

  /** The screen shows exactly the last 25 rows of the page, with the cursor at its end. */
  ghost predicate Shows(s: Screen, rows: seq<seq<Byte>>) {
    && |rows| > 0 && |rows[|rows| - 1]| < COLS
    && s.cursor == Cursor(|rows[|rows| - 1]|, |rows| - 1 - FirstRow(rows))
    && forall r, c :: 0 <= r < ROWS && 0 <= c < COLS ==>
         Glyph(s.page, r, c) == PaperCell(rows, FirstRow(rows) + r, c) && Attribute(s.page, r, c) == ATTRIB
  }

  lemma ScrollCells(p: Page, r: int, c: int)
    requires 0 <= r < ROWS && 0 <= c < COLS
    ensures Glyph(Scroll(p), r, c) == if r + 1 < ROWS then Glyph(p, r + 1, c) else BLANK
    ensures Attribute(Scroll(p), r, c) == ATTRIB
  {
  }

  lemma NewLineShows(s: Screen, rows: seq<seq<Byte>>)
    requires Shows(s, rows)
    ensures Shows(NewLine(s), rows + [[]])
  {
    var rows' := rows + [[]];
    forall r, c | 0 <= r < ROWS && 0 <= c < COLS
      ensures Glyph(NewLine(s).page, r, c) == PaperCell(rows', FirstRow(rows') + r, c)
      ensures Attribute(NewLine(s).page, r, c) == ATTRIB
    {
      ScrollCells(s.page, r, c);
      assert PaperCell(rows', FirstRow(rows') + r, c) == PaperCell(rows, FirstRow(rows') + r, c);
    }
  }

  lemma PutCells(p: Page, x: int, y: int, g: Byte, r: int, c: int)
    requires 0 <= x < COLS && 0 <= y < ROWS && 0 <= r < ROWS && 0 <= c < COLS
    ensures var q := PutCell(p, COLS * y + x, g);
      && Glyph(q, r, c) == (if r == y && c == x then g else Glyph(p, r, c))
      && Attribute(q, r, c) == if r == y && c == x then ATTRIB else Attribute(p, r, c)
  {
  }

  lemma PutGlyphShows(s: Screen, rows: seq<seq<Byte>>, g: Byte)
    requires Shows(s, rows) && g != NEWLINE
    ensures Shows(PutGlyph(s, g), Type(rows, g))
  {
    var n := |rows| - 1;
    var line := rows[n] + [g];
    var p := PutCell(s.page, CellIndex(s.cursor), g);
    forall r, c | 0 <= r < ROWS && 0 <= c < COLS
      ensures Glyph(p, r, c) == PaperCell(rows[..n] + [line], FirstRow(rows) + r, c)
      ensures Attribute(p, r, c) == ATTRIB
    {
      PutCells(s.page, s.cursor.x, s.cursor.y, g, r, c);
      assert Glyph(s.page, r, c) == PaperCell(rows, FirstRow(rows) + r, c);
    }
    if |line| < COLS {
      assert Shows(PutGlyph(s, g), rows[..n] + [line]);
      assert Type(rows, g) == rows[..n] + [line];
    } else {
      FullRowShows(Screen(p, s.cursor), rows[..n] + [line]);
    }
  }

  /** Filling the last column moves to a new row at once. */
  lemma FullRowShows(s: Screen, rows: seq<seq<Byte>>)
    requires |rows| > 0 && |rows[|rows| - 1]| == COLS
    requires s.cursor == Cursor(COLS - 1, |rows| - 1 - FirstRow(rows))
    requires forall r, c :: 0 <= r < ROWS && 0 <= c < COLS ==>
      Glyph(s.page, r, c) == PaperCell(rows, FirstRow(rows) + r, c) && Attribute(s.page, r, c) == ATTRIB
    ensures Shows(NewLine(s), rows + [[]])
  {
    var rows' := rows + [[]];
    forall r, c | 0 <= r < ROWS && 0 <= c < COLS
      ensures Glyph(NewLine(s).page, r, c) == PaperCell(rows', FirstRow(rows') + r, c)
      ensures Attribute(NewLine(s).page, r, c) == ATTRIB
    {
      ScrollCells(s.page, r, c);
      assert PaperCell(rows', FirstRow(rows') + r, c) == PaperCell(rows, FirstRow(rows') + r, c);
    }
  }

  lemma {:induction false} SpacesShow(s: Screen, text: seq<Byte>, n: nat)
    requires Shows(s, Layout(text))
    ensures Shows(Spaces(s, n), Layout(text + seq(n, _ => BLANK)))
    decreases n
  {
    if n == 0 {
      assert text + seq(0, _ => BLANK) == text;
    } else {
      LayoutType(text, BLANK);
      PutGlyphShows(s, Layout(text), BLANK);
      SpacesShow(PutGlyph(s, BLANK), text + [BLANK], n - 1);
      assert text + [BLANK] + seq(n - 1, _ => BLANK) == text + seq(n, _ => BLANK);
    }
  }

  lemma FeedShows(s: Screen, typed: seq<Byte>, c: Byte)
    requires Shows(s, Layout(typed)) && c != BACKSPACE
    ensures Shows(Feed(s, c), Layout(typed + Expanded(c)))
  {
    if c == TAB {
      SpacesShow(s, typed, 4);
      assert seq(4, _ => BLANK) == Expanded(c);
    } else if c == NEWLINE || c == RETURN {
      NewLineShows(s, Layout(typed));
      LayoutType(typed, NEWLINE);
    } else {
      PutGlyphShows(s, Layout(typed), c);
      LayoutType(typed, c);
    }
  }

  lemma ExpandFirst(typed: seq<Byte>, text: seq<Byte>)
    requires text != []
    ensures typed + Expand(text) == (typed + Expanded(text[0])) + Expand(text[1..])
  {
  }

  lemma {:induction false} FeedAllShows(s: Screen, typed: seq<Byte>, text: seq<Byte>)
    requires Shows(s, Layout(typed)) && BACKSPACE !in text
    requires CanFeedAll(s, text)
    ensures Shows(FeedAll(s, text), Layout(typed + Expand(text)))
    decreases |text|
  {
    if text == [] {
      assert typed + Expand(text) == typed;
    } else {
      ExpandFirst(typed, text);
      FeedShows(s, typed, text[0]);
      FeedAllShows(Feed(s, text[0]), typed + Expanded(text[0]), text[1..]);
    }
  }

  /** What `clear` leaves: blank cells and the cursor in the corner. */
  ghost predicate Cleared(s: Screen) {
    && s.cursor == Cursor(0, 0)
    && forall r, c :: 0 <= r < ROWS && 0 <= c < COLS ==>
         Glyph(s.page, r, c) == BLANK && Attribute(s.page, r, c) == ATTRIB
  }

  /** After any text without a backspace, a cleared console shows the last 25 rows of the page. */
  lemma ScrollingRefinesPaper(s: Screen, text: seq<Byte>)
    requires Cleared(s) && BACKSPACE !in text
    ensures CanFeedAll(s, text) && Shows(FeedAll(s, text), Layout(Expand(text)))
  {
    PlainTextFeeds(s, text);
    assert Layout([]) == [[]];
    FeedAllShows(s, [], text);
    assert [] + Expand(text) == Expand(text);
  }

  lemma WipedIsCleared(s: Screen)
    ensures Cleared(Wiped(s))
  {
    forall r, c | 0 <= r < ROWS && 0 <= c < COLS
      ensures Glyph(Wiped(s).page, r, c) == BLANK && Attribute(Wiped(s).page, r, c) == ATTRIB
    {
    }
  }

  /** Whatever a console was given, it is now as if only what was printed after the last clearing
      had been printed, on a cleared page. */
  lemma {:induction false} PlaySinceCleared(clean: Screen, before: seq<Byte>, s: Screen, ops: seq<Op>)
    returns (clean': Screen)
    requires Cleared(clean) && CanFeedAll(clean, before) && s == FeedAll(clean, before) && CanPlay(s, ops)
    ensures Cleared(clean') && CanFeedAll(clean', Since(before, ops))
    ensures Play(s, ops) == FeedAll(clean', Since(before, ops))
    decreases |ops|
  {
    if ops == [] {
      return clean;
    }
    var s' := Apply(s, ops[0]);
    match ops[0]
    case Chars(text) =>
      FeedAllConcat(clean, before, text);
      clean' := PlaySinceCleared(clean, before + text, s', ops[1..]);
    case Wipe =>
      WipedIsCleared(s);
      clean' := PlaySinceCleared(s', [], s', ops[1..]);
  }

  /** The attribute byte: light grey on black. */
  lemma LightGreyOnBlack()
    ensures ATTRIB % 16 == 7 && ATTRIB / 16 == 0
  {
  }
}
