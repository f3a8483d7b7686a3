/** One private text console: a 4 KB page of character and attribute bytes, and a cursor.
    `Feed` is what printing one character should do to it. */
module Console {
  import opened Memory

  const COLS: int := 80
  const ROWS: int := 25
  const CELLS: int := 2000
  const PAGE: int := 4096
  const ATTRIB: Byte := 7

  type Page = p: seq<Byte> | |p| == PAGE witness seq(PAGE, _ => 0)

  datatype Cursor = Cursor(x: int, y: int)

  datatype Screen = Screen(page: Page, cursor: Cursor)

  predicate OnScreen(c: Cursor) { 0 <= c.x < COLS && 0 <= c.y < ROWS }

  function CellIndex(c: Cursor): (k: int)
    requires OnScreen(c)
    ensures 0 <= k < CELLS
  {
    COLS * c.y + c.x
  }

  function PutCell(p: Page, k: int, glyph: Byte): Page
    requires 0 <= k < CELLS
  {
    p[2 * k := glyph][2 * k + 1 := ATTRIB]
  }

  /** Byte `o` of a page after scrolling up by one row; the 96 bytes below the screen stay. */
  function ScrolledByte(p: Page, o: int): Byte
    requires 0 <= o < PAGE
  {
    if o >= 2 * CELLS then p[o]
    else if o % 2 == 1 then ATTRIB
    else if o < 2 * COLS * (ROWS - 1) then p[o + 2 * COLS]
    else BLANK
  }

  function Scroll(p: Page): Page { seq(PAGE, o requires 0 <= o < PAGE => ScrolledByte(p, o)) }

  function NewLine(s: Screen): Screen {
    if s.cursor.y == ROWS - 1 then Screen(Scroll(s.page), Cursor(0, ROWS - 1))
    else s.(cursor := Cursor(0, s.cursor.y + 1))
  }

  /** Eager wrap: the cursor leaves the last column at once. */
  function Advance(s: Screen): Screen {
    if s.cursor.x == COLS - 1 then NewLine(s) else s.(cursor := Cursor(s.cursor.x + 1, s.cursor.y))
  }

  function PutGlyph(s: Screen, c: Byte): Screen
    requires OnScreen(s.cursor)
  {
    Advance(s.(page := PutCell(s.page, CellIndex(s.cursor), c)))
  }

  function CursorBack(c: Cursor): Cursor {
    if c.x == 0 then Cursor(COLS - 1, c.y - 1) else Cursor(c.x - 1, c.y)
  }

  /** A backspace with the cursor in the top left corner would leave the page. */
  predicate CanFeed(cursor: Cursor, c: Byte) {
    OnScreen(cursor) && !(c == BACKSPACE && cursor == Cursor(0, 0))
  }

  function Spaces(s: Screen, n: nat): (r: Screen)
    requires OnScreen(s.cursor)
    ensures OnScreen(r.cursor)
    decreases n
  {
    if n == 0 then s else Spaces(PutGlyph(s, BLANK), n - 1)
  }

  function Feed(s: Screen, c: Byte): (r: Screen)
    requires CanFeed(s.cursor, c)
    ensures OnScreen(r.cursor)
  {
    if c == BACKSPACE then
      var back := CursorBack(s.cursor);
      Screen(PutCell(s.page, CellIndex(back), BLANK), back)
    else if c == NEWLINE || c == RETURN then NewLine(s)
    else if c == TAB then Spaces(s, 4)
    else PutGlyph(s, c)
  }

  predicate CanFeedAll(s: Screen, text: seq<Byte>)
    decreases |text|
  {
    OnScreen(s.cursor) &&
    (text == [] || (CanFeed(s.cursor, text[0]) && CanFeedAll(Feed(s, text[0]), text[1..])))
  }

  function FeedAll(s: Screen, text: seq<Byte>): (r: Screen)
    requires CanFeedAll(s, text)
    ensures OnScreen(r.cursor)
    decreases |text|
  {
    if text == [] then s else FeedAll(Feed(s, text[0]), text[1..])
  }

  lemma {:induction false} FeedAllConcat(s: Screen, a: seq<Byte>, b: seq<Byte>)
    requires CanFeedAll(s, a) && CanFeedAll(FeedAll(s, a), b)
    ensures CanFeedAll(s, a + b) && FeedAll(s, a + b) == FeedAll(FeedAll(s, a), b)
    decreases |a|
  {
    if a == [] {
      assert a + b == b;
    } else {
      assert (a + b)[1..] == a[1..] + b;
      FeedAllConcat(Feed(s, a[0]), a[1..], b);
    }
  }

  /** Text without a backspace can be printed anywhere. */
  lemma {:induction false} PlainTextFeeds(s: Screen, text: seq<Byte>)
    requires OnScreen(s.cursor) && BACKSPACE !in text
    ensures CanFeedAll(s, text)
    decreases |text|
  {
    if text != [] {
      PlainTextFeeds(Feed(s, text[0]), text[1..]);
    }
  }

  /** A backspace takes back the glyph printed before it: its cell is blank and the cursor is where
      it was, or one row higher if printing the glyph scrolled the screen. */
  lemma BackspaceErases(s: Screen, c: Byte)
    requires OnScreen(s.cursor) && c !in {BACKSPACE, TAB, NEWLINE, RETURN}
    ensures CanFeed(Feed(s, c).cursor, BACKSPACE)
    ensures var r := Feed(Feed(s, c), BACKSPACE);
      if s.cursor == Cursor(COLS - 1, ROWS - 1)
      then
        var back := Cursor(COLS - 1, ROWS - 2);
        r == Screen(PutCell(Scroll(PutCell(s.page, CellIndex(s.cursor), c)), CellIndex(back), BLANK), back)
      else r == Screen(PutCell(s.page, CellIndex(s.cursor), BLANK), s.cursor)
  {
    assert PutCell(PutCell(s.page, CellIndex(s.cursor), c), CellIndex(s.cursor), BLANK)
        == PutCell(s.page, CellIndex(s.cursor), BLANK);
  }

  // ----- Clearing -----

  function ClearedByte(p: Page, o: int): Byte
    requires 0 <= o < PAGE
  {
    if o >= 2 * CELLS then p[o] else if o % 2 == 0 then BLANK else ATTRIB
  }

  function ClearPage(p: Page): Page { seq(PAGE, o requires 0 <= o < PAGE => ClearedByte(p, o)) }

  function Wiped(s: Screen): Screen { Screen(ClearPage(s.page), Cursor(0, 0)) }

  /** What a console can be given: text to print, or the order to clear. */
  datatype Op = Chars(text: seq<Byte>) | Wipe

  function Apply(s: Screen, op: Op): (r: Screen)
    requires OnScreen(s.cursor) && (op.Chars? ==> CanFeedAll(s, op.text))
    ensures OnScreen(r.cursor)
  {
    match op
    case Chars(text) => FeedAll(s, text)
    case Wipe => Wiped(s)
  }

  predicate CanPlay(s: Screen, ops: seq<Op>)
    decreases |ops|
  {
    && OnScreen(s.cursor)
    && (ops != [] ==> (ops[0].Chars? ==> CanFeedAll(s, ops[0].text)) && CanPlay(Apply(s, ops[0]), ops[1..]))
  }

  function Play(s: Screen, ops: seq<Op>): Screen
    requires CanPlay(s, ops)
    decreases |ops|
  {
    if ops == [] then s else Play(Apply(s, ops[0]), ops[1..])
  }

  lemma {:induction false} PlayConcat(s: Screen, a: seq<Op>, b: seq<Op>)
    requires CanPlay(s, a) && CanPlay(Play(s, a), b)
    ensures CanPlay(s, a + b) && Play(s, a + b) == Play(Play(s, a), b)
    decreases |a|
  {
    if a == [] {
      assert a + b == b;
    } else {
      assert (a + b)[1..] == a[1..] + b;
      PlayConcat(Apply(s, a[0]), a[1..], b);
    }
  }

  /** The text printed after the last clearing. */
  function Since(before: seq<Byte>, ops: seq<Op>): seq<Byte>
    decreases |ops|
  {
    if ops == [] then before
    else
      match ops[0]
      case Chars(text) => Since(before + text, ops[1..])
      case Wipe => Since([], ops[1..])
  }
}
