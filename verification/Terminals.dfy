/** Three terminals sharing one physical screen.  Page 0 is the screen at 0xB8000; page t + 1 is
    the backing buffer of terminal t.  In every run each terminal behaves as a console of its own. */
module Terminals {
  import KernelModel
  import opened Memory
  import opened Console
  import opened Paper

  const TERMINALS: int := KernelModel.TERMINALS

  datatype Display = Display(
    pages: seq<Page>,
    cursors: seq<Cursor>,
    visible: int,
    executing: int,
    jammer: bool,
    hotjam: bool)

  ghost predicate Valid(d: Display) {
    && |d.pages| == TERMINALS + 1 && |d.cursors| == TERMINALS
    && 0 <= d.visible < TERMINALS && 0 <= d.executing < TERMINALS
    && forall t :: 0 <= t < TERMINALS ==> OnScreen(d.cursors[t])
  }

  /** The page a terminal's console lives on. */
  function PageOf(d: Display, t: int): int { if t == d.visible then 0 else t + 1 }

  function ConsoleOf(d: Display, t: int): Screen
    requires Valid(d) && 0 <= t < TERMINALS
  {
    Screen(d.pages[PageOf(d, t)], d.cursors[t])
  }

  // ----- What the drivers do -----

  function Putc(d: Display, c: Byte): Display
    requires Valid(d) && CanFeed(d.cursors[d.visible], c)
  {
    var s := Feed(Screen(d.pages[0], d.cursors[d.visible]), c);
    d.(pages := d.pages[0 := s.page], cursors := d.cursors[d.visible := s.cursor])
  }

  /** Output to the executing terminal's buffer; a backspace blanks a cell of the screen instead. */
  function KPutc(d: Display, c: Byte): Display
    requires Valid(d) && CanFeed(d.cursors[d.executing], c)
  {
    var e := d.executing;
    if c == BACKSPACE then
      var back := CursorBack(d.cursors[e]);
      d.(pages := d.pages[0 := PutCell(d.pages[0], CellIndex(back), BLANK)],
         cursors := d.cursors[e := back])
    else
      var s := Feed(Screen(d.pages[e + 1], d.cursors[e]), c);
      d.(pages := d.pages[e + 1 := s.page], cursors := d.cursors[e := s.cursor])
  }

  function Emit(d: Display, c: Byte): Display
    requires Valid(d) && CanFeed(d.cursors[d.executing], c)
  {
    if d.visible == d.executing then Putc(d, c) else KPutc(d, c)
  }

  ghost predicate CanEmit(d: Display, text: seq<Byte>)
    decreases |text|
  {
    && Valid(d)
    && (text != [] ==> CanFeed(d.cursors[d.executing], text[0]) && CanEmit(Emit(d, text[0]), text[1..]))
  }

  ghost function EmitAll(d: Display, text: seq<Byte>): (r: Display)
    requires CanEmit(d, text)
    ensures Valid(r)
    decreases |text|
  {
    if text == [] then d else EmitAll(Emit(d, text[0]), text[1..])
  }

  /** write_terminal: one call may be swallowed by each synchronisation flag. */
  ghost function Write(d: Display, text: seq<Byte>): Display
    requires Valid(d) && (!d.jammer && !d.hotjam ==> CanEmit(d, text))
  {
    if d.jammer then d.(jammer := false)
    else if d.hotjam then d.(hotjam := false)
    else EmitAll(d, text)
  }

  /** switch_terminal on the screens: save the visible one, bring up the other. */
  function SwapScreens(d: Display, t: int): Display
    requires Valid(d) && 0 <= t < TERMINALS
  {
    var saved := d.pages[d.visible + 1 := d.pages[0]];
    d.(pages := saved[0 := saved[t + 1]], visible := t)
  }

  /** clear wipes the screen but homes the cursor of the executing terminal. */
  function Clear(d: Display): Display
    requires Valid(d)
  {
    d.(pages := d.pages[0 := ClearPage(d.pages[0])], cursors := d.cursors[d.executing := Cursor(0, 0)])
  }

  /** printf, puts and the keyboard's echo: putc for every character. */
  ghost function PutAll(d: Display, text: seq<Byte>): (r: Display)
    requires Valid(d) && CanFeedAll(ConsoleOf(d, d.visible), text)
    ensures Valid(r)
    decreases |text|
  {
    if text == [] then d else PutAll(Putc(d, text[0]), text[1..])
  }

  // ----- Each driver step on the private consoles -----

  /** `d'` differs from `d` in the console of `t` only, which has become `s`. */
  ghost predicate OnlyConsole(d: Display, d': Display, t: int, s: Screen) {
    && Valid(d) && Valid(d') && 0 <= t < TERMINALS
    && d'.visible == d.visible && d'.executing == d.executing
    && d'.jammer == d.jammer && d'.hotjam == d.hotjam
    && forall u :: 0 <= u < TERMINALS ==> ConsoleOf(d', u) == if u == t then s else ConsoleOf(d, u)
  }

  lemma PutcIsPrivate(d: Display, c: Byte)
    requires Valid(d) && CanFeed(d.cursors[d.visible], c)
    ensures OnlyConsole(d, Putc(d, c), d.visible, Feed(ConsoleOf(d, d.visible), c))
  {
  }

  /** k_putc on a hidden terminal agrees with putc on a visible one, except for the backspace. */
  lemma HiddenOutputIsPrivate(d: Display, c: Byte)
    requires Valid(d) && CanFeed(d.cursors[d.executing], c)
    requires d.executing != d.visible && c != BACKSPACE
    ensures OnlyConsole(d, KPutc(d, c), d.executing, Feed(ConsoleOf(d, d.executing), c))
  {
  }

  predicate BlankCell(p: Page, k: int)
    requires 0 <= k < CELLS
  {
    p[2 * k] == BLANK && p[2 * k + 1] == ATTRIB
  }

  lemma PutBlankIff(p: Page, k: int)
    requires 0 <= k < CELLS
    ensures PutCell(p, k, BLANK) == p <==> BlankCell(p, k)
  {
    var q := PutCell(p, k, BLANK);
    assert q[2 * k] == BLANK && q[2 * k + 1] == ATTRIB;
  }

  /** A backspace printed by a hidden program goes wrong unless the cell it should erase and the
      cell it does erase, on the visible screen, are both blank already. */
  lemma HiddenBackspaceIff(d: Display)
    requires Valid(d) && CanFeed(d.cursors[d.executing], BACKSPACE) && d.executing != d.visible
    ensures var e, k := d.executing, CellIndex(CursorBack(d.cursors[d.executing]));
      OnlyConsole(d, KPutc(d, BACKSPACE), e, Feed(ConsoleOf(d, e), BACKSPACE))
      <==> BlankCell(d.pages[e + 1], k) && BlankCell(d.pages[0], k)
  {
    var e, k := d.executing, CellIndex(CursorBack(d.cursors[d.executing]));
    var d' := KPutc(d, BACKSPACE);
    PutBlankIff(d.pages[e + 1], k);
    PutBlankIff(d.pages[0], k);
    assert ConsoleOf(d', e) == Screen(d.pages[e + 1], CursorBack(d.cursors[e]));
    assert ConsoleOf(d', d.visible) == Screen(PutCell(d.pages[0], k, BLANK), d.cursors[d.visible]);
  }

  /** Switching loses nothing: every terminal keeps its console. */
  lemma SwitchKeepsConsoles(d: Display, t: int)
    requires Valid(d) && 0 <= t < TERMINALS && t != d.visible
    ensures Valid(SwapScreens(d, t))
    ensures forall u :: 0 <= u < TERMINALS ==> ConsoleOf(SwapScreens(d, t), u) == ConsoleOf(d, u)
  {
  }

  predicate ClearStays(d: Display)
    requires Valid(d)
  {
    d.visible == d.executing || d.cursors[d.visible] == d.cursors[d.executing] == Cursor(0, 0)
  }

  /** clear is a private operation of the visible terminal only while that terminal executes (or
      both cursors are home already). */
  lemma ClearIff(d: Display)
    requires Valid(d)
    ensures OnlyConsole(d, Clear(d), d.visible, Wiped(ConsoleOf(d, d.visible))) <==> ClearStays(d)
  {
    var d' := Clear(d);
    assert d.visible != d.executing ==>
        ConsoleOf(d', d.executing) == Screen(d.pages[d.executing + 1], Cursor(0, 0));
    assert ConsoleOf(d', d.visible).cursor == if d.visible == d.executing then Cursor(0, 0) else d.cursors[d.visible];
    assert ConsoleOf(d', d.executing).cursor == Cursor(0, 0);
  }

  lemma {:induction false} EmitAllIsPrivate(d: Display, text: seq<Byte>)
    requires Valid(d) && CanFeedAll(ConsoleOf(d, d.executing), text)
    requires d.executing != d.visible ==> BACKSPACE !in text
    ensures CanEmit(d, text)
    ensures OnlyConsole(d, EmitAll(d, text), d.executing, FeedAll(ConsoleOf(d, d.executing), text))
    decreases |text|
  {
    if text != [] {
      var c := text[0];
      if d.executing == d.visible {
        PutcIsPrivate(d, c);
      } else {
        HiddenOutputIsPrivate(d, c);
      }
      EmitAllIsPrivate(Emit(d, c), text[1..]);
    }
  }

  /** How many writes the synchronisation flags will swallow. */
  function FlagCount(d: Display): nat { (if d.jammer then 1 else 0) + if d.hotjam then 1 else 0 }

  /** A swallowed write uses up one flag, `jammer` first, and does nothing else. */
  lemma SwallowedWrite(d: Display, text: seq<Byte>)
    requires Valid(d) && FlagCount(d) > 0
    ensures Write(d, text) == if d.jammer then d.(jammer := false) else d.(hotjam := false)
    ensures FlagCount(Write(d, text)) == FlagCount(d) - 1
  {
  }

  ghost predicate NoBackspace(texts: seq<seq<Byte>>) {
    forall i :: 0 <= i < |texts| ==> BACKSPACE !in texts[i]
  }

  /** A sequence of writes by the executing program. */
  ghost function WriteAll(d: Display, texts: seq<seq<Byte>>): (r: Display)
    requires Valid(d) && NoBackspace(texts)
    ensures Valid(r)
    decreases |texts|
  {
    if texts == [] then d
    else
      PlainTextFeeds(ConsoleOf(d, d.executing), texts[0]);
      EmitAllIsPrivate(d, texts[0]);
      WriteAll(Write(d, texts[0]), texts[1..])
  }

  function Joined(texts: seq<seq<Byte>>): seq<Byte> {
    if texts == [] then [] else texts[0] + Joined(texts[1..])
  }

  /** In `r` the console of `t` shows `text` after what it showed in `d`, if `t` executes, and is
      otherwise as it was. */
  ghost predicate Appears(d: Display, r: Display, text: seq<Byte>, t: int)
    requires Valid(d) && Valid(r) && 0 <= t < TERMINALS
  {
    && CanFeedAll(ConsoleOf(d, d.executing), text)
    && ConsoleOf(r, t) == if t == d.executing then FeedAll(ConsoleOf(d, t), text) else ConsoleOf(d, t)
  }

  lemma AppearsAfter(d: Display, d': Display, r: Display, first: seq<Byte>, text: seq<Byte>, t: int)
    requires Valid(d) && Valid(d') && Valid(r) && 0 <= t < TERMINALS && d'.executing == d.executing
    requires Appears(d, d', first, t) && Appears(d, d', first, d.executing) && Appears(d', r, text, t)
    ensures Appears(d, r, first + text, t)
  {
    FeedAllConcat(ConsoleOf(d, d.executing), first, text);
  }

  /** With no flag set every write appears, in order, on the writer's console and on no other. */
  lemma {:induction false} AllWritesAppear(d: Display, texts: seq<seq<Byte>>, t: int)
    requires Valid(d) && 0 <= t < TERMINALS && NoBackspace(texts)
    requires FlagCount(d) == 0
    ensures FlagCount(WriteAll(d, texts)) == 0 && Appears(d, WriteAll(d, texts), Joined(texts), t)
    decreases |texts|
  {
    if texts != [] {
      PlainTextFeeds(ConsoleOf(d, d.executing), texts[0]);
      EmitAllIsPrivate(d, texts[0]);
      var d' := Write(d, texts[0]);
      AllWritesAppear(d', texts[1..], t);
      AppearsAfter(d, d', WriteAll(d', texts[1..]), texts[0], Joined(texts[1..]), t);
    }
  }

  lemma FlagsDoNotShow(d: Display, d': Display, r: Display, text: seq<Byte>, t: int)
    requires Valid(d) && Valid(d') && Valid(r) && 0 <= t < TERMINALS
    requires d' == d.(jammer := d'.jammer, hotjam := d'.hotjam) && Appears(d', r, text, t)
    ensures Appears(d, r, text, t)
  {
    assert ConsoleOf(d', t) == ConsoleOf(d, t) && ConsoleOf(d', d.executing) == ConsoleOf(d, d.executing);
  }

  lemma OneSwallowed(d: Display, texts: seq<seq<Byte>>)
    requires Valid(d) && texts != [] && NoBackspace(texts)
    requires FlagCount(d) > 0
    ensures var d' := Write(d, texts[0]);
      && d' == d.(jammer := d'.jammer, hotjam := d'.hotjam) && Valid(d') && FlagCount(d') == FlagCount(d) - 1
      && WriteAll(d, texts) == WriteAll(d', texts[1..])
  {
    SwallowedWrite(d, texts[0]);
  }

  /** Of any sequence of writes exactly the first ones are swallowed, as many as flags were set; all
      others appear, in order, on the writer's console, and no other console changes. */
  lemma {:induction false} FirstWritesSwallowed(d: Display, first: seq<seq<Byte>>, rest: seq<seq<Byte>>, t: int)
    requires Valid(d) && 0 <= t < TERMINALS && NoBackspace(first) && NoBackspace(rest)
    requires |first| <= FlagCount(d) && (rest != [] ==> |first| == FlagCount(d))
    ensures NoBackspace(first + rest)
    ensures FlagCount(WriteAll(d, first + rest)) == FlagCount(d) - |first|
    ensures Appears(d, WriteAll(d, first + rest), Joined(rest), t)
    decreases |first|
  {
    var texts := first + rest;
    if first == [] {
      assert texts == rest;
      if rest != [] {
        AllWritesAppear(d, rest, t);
      }
    } else {
      assert texts[0] == first[0] && texts[1..] == first[1..] + rest;
      OneSwallowed(d, texts);
      FirstWritesSwallowed(Write(d, first[0]), first[1..], rest, t);
      FlagsDoNotShow(d, Write(d, first[0]), WriteAll(d, texts), Joined(rest), t);
    }
  }

  lemma {:induction false} PutAllIsPrivate(d: Display, text: seq<Byte>)
    requires Valid(d) && CanFeedAll(ConsoleOf(d, d.visible), text)
    ensures OnlyConsole(d, PutAll(d, text), d.visible, FeedAll(ConsoleOf(d, d.visible), text))
    decreases |text|
  {
    if text != [] {
      PutcIsPrivate(d, text[0]);
      PutAllIsPrivate(Putc(d, text[0]), text[1..]);
    }
  }

  /** A text leaves the console of a terminal as it is. */
  ghost predicate Unmoved(d: Display, t: int, text: seq<Byte>)
    requires Valid(d) && 0 <= t < TERMINALS
  {
    CanFeedAll(ConsoleOf(d, t), text) && FeedAll(ConsoleOf(d, t), text) == ConsoleOf(d, t)
  }

  /** The guard under which a kernel message reaches the terminal of the program it is for. */
  ghost predicate MessageArrives(d: Display, text: seq<Byte>)
    requires Valid(d)
  {
    text == [] || d.executing == d.visible || (Unmoved(d, d.executing, text) && Unmoved(d, d.visible, text))
  }

  /** A kernel message goes to the visible screen, whoever executes. */
  lemma MessageIff(d: Display, text: seq<Byte>)
    requires Valid(d) && CanFeedAll(ConsoleOf(d, d.visible), text) && CanFeedAll(ConsoleOf(d, d.executing), text)
    ensures OnlyConsole(d, PutAll(d, text), d.executing, FeedAll(ConsoleOf(d, d.executing), text))
      <==> MessageArrives(d, text)
  {
    PutAllIsPrivate(d, text);
    var d', e, v := PutAll(d, text), d.executing, d.visible;
    assert ConsoleOf(d', v) == FeedAll(ConsoleOf(d, v), text);
    assert e != v ==> ConsoleOf(d', e) == ConsoleOf(d, e);
  }

  // ----- Runs -----

  datatype Event =
    | Echo(c: Byte)                  // the keyboard handler
    | ClearKey                       // the keyboard handler on Ctrl-L
    | Message(text: seq<Byte>)       // the kernel, on behalf of the executing program
    | WriteCall(text: seq<Byte>)
    | SwitchKey(t: int, opens: bool) // `opens`: the terminal was not active yet
    | Tick(t: int)
    | Flags(jammer: bool, hotjam: bool)  // halt and read_terminal set or clear the flags

  /** The conditions of `HiddenBackspaceIff`, `ClearIff` and `MessageIff`; and no console is asked
      to print a backspace in its upper left corner. */
  ghost predicate Allowed(d: Display, e: Event)
    requires Valid(d)
  {
    match e
    case Echo(c) => CanFeed(d.cursors[d.visible], c)
    case ClearKey => ClearStays(d)
    case Message(text) =>
      && CanFeedAll(ConsoleOf(d, d.visible), text) && CanFeedAll(ConsoleOf(d, d.executing), text)
      && MessageArrives(d, text)
    case WriteCall(text) =>
      d.jammer || d.hotjam ||
      (CanFeedAll(ConsoleOf(d, d.executing), text) && (d.executing != d.visible ==> BACKSPACE !in text))
    case SwitchKey(t, _) => 0 <= t < TERMINALS
    case Tick(t) => 0 <= t < TERMINALS
    case Flags(_, _) => true
  }

  ghost function Step(d: Display, e: Event): Display
    requires Valid(d) && Allowed(d, e)
  {
    match e
    case Echo(c) => Putc(d, c)
    case ClearKey => Clear(d)
    case Message(text) => PutAll(d, text)
    case WriteCall(text) =>
      if d.jammer || d.hotjam then Write(d, text)
      else EmitAllIsPrivate(d, text); Write(d, text)
    case SwitchKey(t, opens) =>
      if t == d.visible then d
      else if opens then SwapScreens(d, t).(executing := t)
      else SwapScreens(d, t).(jammer := true)
    case Tick(t) => d.(executing := t)
    case Flags(j, h) => d.(jammer := j, hotjam := h)
  }

  /** What an event has for terminal `t`: the keys for the visible one, output and messages for the
      one whose program they come from. */
  function Accepted(d: Display, e: Event, t: int): seq<Op> {
    match e
    case Echo(c) => if t == d.visible then [Chars([c])] else []
    case ClearKey => if t == d.visible then [Wipe] else []
    case Message(text) => if t == d.executing then [Chars(text)] else []
    case WriteCall(text) => if t == d.executing && !d.jammer && !d.hotjam then [Chars(text)] else []
    case _ => []
  }

  /** A console that is given one operation. */
  lemma PlayOne(s: Screen, op: Op)
    requires OnScreen(s.cursor) && (op.Chars? ==> CanFeedAll(s, op.text))
    ensures CanPlay(s, [op]) && Play(s, [op]) == Apply(s, op)
  {
    assert CanPlay(Apply(s, op), []);
    assert [op][1..] == [];
  }

  lemma StepIsPrivate(d: Display, e: Event, t: int)
    requires Valid(d) && Allowed(d, e) && 0 <= t < TERMINALS
    ensures Valid(Step(d, e))
    ensures CanPlay(ConsoleOf(d, t), Accepted(d, e, t))
    ensures ConsoleOf(Step(d, e), t) == Play(ConsoleOf(d, t), Accepted(d, e, t))
  {
    match e
    case Echo(c) =>
      PutcIsPrivate(d, c);
      OneChar(ConsoleOf(d, d.visible), c);
      PlayOne(ConsoleOf(d, d.visible), Chars([c]));
    case ClearKey =>
      ClearIff(d);
      PlayOne(ConsoleOf(d, d.visible), Wipe);
    case Message(text) =>
      MessageIff(d, text);
      PlayOne(ConsoleOf(d, d.executing), Chars(text));
    case WriteCall(text) =>
      if !d.jammer && !d.hotjam {
        EmitAllIsPrivate(d, text);
        PlayOne(ConsoleOf(d, d.executing), Chars(text));
      }
    case SwitchKey(u, opens) =>
      if u != d.visible {
        SwitchKeepsConsoles(d, u);
      }
    case _ =>
  }

  lemma OneChar(s: Screen, c: Byte)
    requires CanFeed(s.cursor, c)
    ensures CanFeedAll(s, [c]) && FeedAll(s, [c]) == Feed(s, c)
  {
    assert CanFeedAll(Feed(s, c), []);
    assert [c][1..] == [];
  }

  ghost predicate AllowedRun(d: Display, es: seq<Event>)
    decreases |es|
  {
    && Valid(d)
    && (es != [] ==> Allowed(d, es[0]) && AllowedRun(Step(d, es[0]), es[1..]))
  }

  ghost function Run(d: Display, es: seq<Event>): Display
    requires AllowedRun(d, es)
    decreases |es|
  {
    if es == [] then d else Run(Step(d, es[0]), es[1..])
  }

  ghost function AcceptedIn(d: Display, es: seq<Event>, t: int): seq<Op>
    requires AllowedRun(d, es)
    decreases |es|
  {
    if es == [] then [] else Accepted(d, es[0], t) + AcceptedIn(Step(d, es[0]), es[1..], t)
  }

  /** In every run each terminal shows what a console of its own would show, had it been given
      exactly what was accepted for that terminal. */
  lemma {:induction false} PrivateConsoles(d: Display, es: seq<Event>, t: int)
    requires AllowedRun(d, es) && 0 <= t < TERMINALS
    ensures Valid(Run(d, es))
    ensures CanPlay(ConsoleOf(d, t), AcceptedIn(d, es, t))
    ensures ConsoleOf(Run(d, es), t) == Play(ConsoleOf(d, t), AcceptedIn(d, es, t))
    decreases |es|
  {
    if es != [] {
      StepIsPrivate(d, es[0], t);
      PrivateConsoles(Step(d, es[0]), es[1..], t);
      PlayConcat(ConsoleOf(d, t), Accepted(d, es[0], t), AcceptedIn(Step(d, es[0]), es[1..], t));
    }
  }

  /** Both refinements together: a terminal that starts cleared shows, after any run that prints
      no backspace on it since it was cleared last, the last 25 rows of everything accepted for it
      since then. */
  lemma TerminalShowsItsPaper(d: Display, es: seq<Event>, t: int)
    requires AllowedRun(d, es) && 0 <= t < TERMINALS
    requires Cleared(ConsoleOf(d, t)) && BACKSPACE !in Since([], AcceptedIn(d, es, t))
    ensures Valid(Run(d, es))
    ensures Shows(ConsoleOf(Run(d, es), t), Layout(Expand(Since([], AcceptedIn(d, es, t)))))
  {
    PrivateConsoles(d, es, t);
    var ops := AcceptedIn(d, es, t);
    var clean := PlaySinceCleared(ConsoleOf(d, t), [], ConsoleOf(d, t), ops);
    ScrollingRefinesPaper(clean, Since([], ops));
  }

  lemma ClearedAfterClear(d: Display)
    requires Valid(d) && d.visible == d.executing
    ensures Valid(Clear(d)) && Cleared(ConsoleOf(Clear(d), d.visible))
  {
    WipedIsCleared(ConsoleOf(d, d.visible));
  }
}
