/** The console drivers in the kernel's own form: byte stores into the 16 KB at 0xB8000 and
    cursor fields updated per character, proved to follow `Terminals`. */
module Video {
  import opened Memory
  import opened Console
  import opened Terminals

  const VIDEO: nat := 0xB8000
  const VRAM_SIZE: int := 16384

  function PageAt(v: seq<Byte>, i: int): Page
    requires |v| == VRAM_SIZE && 0 <= i <= TERMINALS
  {
    v[PAGE * i..PAGE * (i + 1)]
  }

  function Pages(v: seq<Byte>): seq<Page>
    requires |v| == VRAM_SIZE
  {
    [PageAt(v, 0), PageAt(v, 1), PageAt(v, 2), PageAt(v, 3)]
  }

  /** Byte stores inside page `i` change that page only. */
  lemma StoreInPage(v: seq<Byte>, v': seq<Byte>, i: int, p: Page)
    requires |v| == |v'| == VRAM_SIZE && 0 <= i <= TERMINALS
    requires forall o :: 0 <= o < VRAM_SIZE && !(PAGE * i <= o < PAGE * (i + 1)) ==> v'[o] == v[o]
    requires forall o :: 0 <= o < PAGE ==> p[o] == v'[PAGE * i + o]
    ensures Pages(v') == Pages(v)[i := p]
  {
    assert PageAt(v', i) == p;
    forall j | 0 <= j <= TERMINALS && j != i
      ensures PageAt(v', j) == PageAt(v, j)
    {
    }
  }

  /** A tab is the same as four blanks, printed one by one. */
  lemma PutcTab(d: Display)
    requires Valid(d)
    ensures var d1 := Putc(d, BLANK);
      && Valid(d1)
      && var d2 := Putc(d1, BLANK);
         && Valid(d2)
         && var d3 := Putc(d2, BLANK);
            Valid(d3) && Putc(d3, BLANK) == Putc(d, TAB)
  {
  }

  lemma KPutcTab(d: Display)
    requires Valid(d)
    ensures var d1 := KPutc(d, BLANK);
      && Valid(d1)
      && var d2 := KPutc(d1, BLANK);
         && Valid(d2)
         && var d3 := KPutc(d2, BLANK);
            Valid(d3) && KPutc(d3, BLANK) == KPutc(d, TAB)
  {
  }

  class Driver {
    const vram: array<Byte>
    const cursors: array<Cursor>
    var visible: int
    var executing: int
    var jammer: bool
    var hotjam: bool

    ghost predicate Sized()
      reads this
    {
      && vram.Length == VRAM_SIZE
      && cursors.Length == TERMINALS
      && 0 <= visible < TERMINALS && 0 <= executing < TERMINALS
    }

    ghost function View(): Display
      reads this, vram, cursors
      requires Sized()
    {
      Display(Pages(vram[..]), cursors[..], visible, executing, jammer, hotjam)
    }

    ghost predicate Ready()
      reads this, vram, cursors
    {
      Sized() && Valid(View())
    }

    /** The two byte stores that draw one cell of page `i`, which starts at offset `base`. */
    method Draw(base: int, ghost i: int, x: int, y: int, c: Byte)
      requires Sized() && 0 <= i <= TERMINALS && base == PAGE * i && OnScreen(Cursor(x, y))
      modifies vram
      ensures var d := old(View());
        View() == d.(pages := d.pages[i := PutCell(d.pages[i], CellIndex(Cursor(x, y)), c)])
    {
      ghost var was := vram[..];
      ghost var k := 80 * y + x;
      vram[base + (80 * y + x) * 2] := c;
      vram[base + (80 * y + x) * 2 + 1] := ATTRIB;
      StoreInPage(was, vram[..], i, PutCell(PageAt(was, i), k, c));
    }

    // ----- Scrolling -----

    /** The first `n` bytes of page `p` are scrolled, the rest of memory is as it was. */
    static ghost predicate Scrolling(was: seq<Byte>, now: seq<Byte>, p: int, n: int)
      requires |was| == VRAM_SIZE && 0 <= p <= TERMINALS
    {
      && |now| == VRAM_SIZE && 0 <= n <= 4000
      && (forall o :: 0 <= o < n ==> now[PAGE * p + o] == ScrolledByte(PageAt(was, p), o))
      && (forall o :: 0 <= o < VRAM_SIZE && !(PAGE * p <= o < PAGE * p + n) ==> now[o] == was[o])
    }

    /** The two stores of one step of a scroll. */
    method ScrollCell(ghost was: seq<Byte>, ghost p: int, ghost k: int, at: int, x: Byte)
      requires |was| == VRAM_SIZE == vram.Length && 0 <= p <= TERMINALS && 0 <= k < CELLS
      requires at == PAGE * p + 2 * k && Scrolling(was, vram[..], p, 2 * k)
      requires x == ScrolledByte(PageAt(was, p), 2 * k)
      modifies vram
      ensures Scrolling(was, vram[..], p, 2 * k + 2)
    {
      vram[at] := x;
      vram[at + 1] := ATTRIB;
    }

    /** scroll: the screen. */
    method ScrollScreen()
      requires Sized()
      modifies vram
      ensures View() == old(View()).(pages := old(View()).pages[0 := Scroll(old(View()).pages[0])])
    {
      ghost var was := vram[..];
      var i := 0;
      while i < 25 - 1
        invariant 0 <= i <= 24
        invariant Scrolling(was, vram[..], 0, 160 * i)
      {
        var j := 0;
        while j < 80
          invariant 0 <= j <= 80
          invariant Scrolling(was, vram[..], 0, 160 * i + 2 * j)
        {
          var x := vram[(80 * (i + 1) + j) * 2];
          ScrollCell(was, 0, 80 * i + j, (80 * i + j) * 2, x);
          j := j + 1;
        }
        i := i + 1;
      }
      i := 24;
      var j := 0;
      while j < 80
        invariant 0 <= j <= 80
        invariant Scrolling(was, vram[..], 0, 160 * 24 + 2 * j)
      {
        ScrollCell(was, 0, 80 * 24 + j, (80 * i + j) * 2, BLANK);
        j := j + 1;
      }
      StoreInPage(was, vram[..], 0, Scroll(PageAt(was, 0)));
    }

    /** kernel_scroll: the buffer of the executing terminal. */
    method KernelScroll()
      requires Sized()
      modifies vram
      ensures var d, p := old(View()), executing + 1;
        View() == d.(pages := d.pages[p := Scroll(d.pages[p])])
    {
      ghost var was, p := vram[..], executing + 1;
      var i := 0;
      while i < 24
        invariant 0 <= i <= 24
        invariant Scrolling(was, vram[..], p, 160 * i)
      {
        var j := 0;
        while j < 80
          invariant 0 <= j <= 80
          invariant Scrolling(was, vram[..], p, 160 * i + 2 * j)
        {
          KernelScrollCell(was, i, j);
          j := j + 1;
        }
        i := i + 1;
      }
      i := 24;
      var j := 0;
      while j < 80
        invariant 0 <= j <= 80
        invariant Scrolling(was, vram[..], p, 160 * 24 + 2 * j)
      {
        ScrollCell(was, p, 80 * 24 + j, 4096 * (executing + 1) + (80 * i + j) * 2, BLANK);
        j := j + 1;
      }
      StoreInPage(was, vram[..], p, Scroll(PageAt(was, p)));
    }

    /** One step of its loops: the character one row below, taken from the same buffer. */
    method KernelScrollCell(ghost was: seq<Byte>, i: int, j: int)
      requires Sized() && |was| == VRAM_SIZE && 0 <= i < 24 && 0 <= j < 80
      requires Scrolling(was, vram[..], executing + 1, 160 * i + 2 * j)
      modifies vram
      ensures Scrolling(was, vram[..], executing + 1, 160 * i + 2 * j + 2)
    {
      var x := vram[4096 * (executing + 1) + (80 * (i + 1) + j) * 2];
      ScrollCell(was, executing + 1, 80 * i + j, 4096 * (executing + 1) + (80 * i + j) * 2, x);
    }

    // ----- putc -----

    /** The backspace case of putc and of k_putc; both blank a cell of the visible screen. */
    method EraseBack(t: int)
      requires Ready() && 0 <= t < TERMINALS && CanFeed(cursors[t], BACKSPACE)
      modifies vram, cursors
      ensures Ready()
      ensures var d, back := old(View()), CursorBack(old(cursors[t]));
        View() == d.(pages := d.pages[0 := PutCell(d.pages[0], CellIndex(back), BLANK)],
                     cursors := d.cursors[t := back])
    {
      if cursors[t].x == 0 {
        cursors[t] := cursors[t].(x := 79);
        cursors[t] := cursors[t].(y := cursors[t].y - 1);
      } else {
        cursors[t] := cursors[t].(x := cursors[t].x - 1);
      }
      Draw(0, 0, cursors[t].x, cursors[t].y, BLANK);
    }

    method PutcNewline()
      requires Ready()
      modifies vram, cursors
      ensures Ready() && View() == Putc(old(View()), NEWLINE) == Putc(old(View()), RETURN)
    {
      if cursors[visible].y == 25 - 1 {
        cursors[visible] := cursors[visible].(x := 0);
        ScrollScreen();
      } else {
        cursors[visible] := cursors[visible].(y := (cursors[visible].y + 1) % 25);
        cursors[visible] := cursors[visible].(x := 0);
      }
    }

    method PutcGlyph(c: Byte)
      requires Ready()
      modifies vram, cursors
      ensures Ready()
      ensures var d, s := old(View()), PutGlyph(old(Screen(View().pages[0], cursors[visible])), c);
        View() == d.(pages := d.pages[0 := s.page], cursors := d.cursors[visible := s.cursor])
    {
      Draw(0, 0, cursors[visible].x, cursors[visible].y, c);
      PutcAdvance();
    }

    /** What putc does after it has drawn a glyph. */
    method PutcAdvance()
      requires Ready()
      modifies vram, cursors
      ensures Ready()
      ensures var d, s := old(View()), Advance(old(Screen(View().pages[0], cursors[visible])));
        View() == d.(pages := d.pages[0 := s.page], cursors := d.cursors[visible := s.cursor])
    {
      if cursors[visible].x == 79 {
        if cursors[visible].y == 24 {
          ScrollScreen();
          cursors[visible] := cursors[visible].(x := 0);
        } else {
          cursors[visible] := cursors[visible].(x := 0);
          cursors[visible] := cursors[visible].(y := cursors[visible].y + 1);
        }
      } else {
        StepRight();
      }
    }

    method StepRight()
      requires Ready() && cursors[visible].x < 79
      modifies cursors
      ensures Ready()
      ensures cursors[..] == old(cursors[..])[visible := Cursor(old(cursors[visible]).x + 1, old(cursors[visible]).y)]
    {
      cursors[visible] := cursors[visible].(x := cursors[visible].x + 1);
      cursors[visible] := cursors[visible].(x := cursors[visible].x % 80);
      cursors[visible] := cursors[visible].(y := (cursors[visible].y + cursors[visible].x / 80) % 25);
    }

    method PutcOnScreen(c: Byte)
      requires Ready() && CanFeed(cursors[visible], c)
      modifies vram, cursors
      ensures Ready() && View() == Putc(old(View()), c)
      decreases c == TAB
    {
      if c == BACKSPACE {
        EraseBack(visible);
      } else if c == NEWLINE || c == RETURN {
        PutcNewline();
      } else if c == TAB {
        PutcTab(View());
        PutcOnScreen(BLANK);
        PutcOnScreen(BLANK);
        PutcOnScreen(BLANK);
        PutcOnScreen(BLANK);
      } else {
        PutcGlyph(c);
      }
    }

    // ----- k_putc -----

    method KPutcNewline()
      requires Ready()
      modifies vram, cursors
      ensures Ready() && View() == KPutc(old(View()), NEWLINE) == KPutc(old(View()), RETURN)
    {
      if cursors[executing].y == 25 - 1 {
        cursors[executing] := cursors[executing].(x := 0);
        KernelScroll();
      } else {
        cursors[executing] := cursors[executing].(y := (cursors[executing].y + 1) % 25);
        cursors[executing] := cursors[executing].(x := 0);
      }
    }

    /** The glyph case works on copies of the cursor fields and writes them back at the end. */
    method KPutcGlyph(base: int, column: int, row: int, c: Byte)
      requires Ready() && base == PAGE * (executing + 1)
      requires column == cursors[executing].x && row == cursors[executing].y
      modifies vram, cursors
      ensures Ready()
      ensures var d, s := old(View()), PutGlyph(old(Screen(View().pages[executing + 1], cursors[executing])), c);
        View() == d.(pages := d.pages[executing + 1 := s.page], cursors := d.cursors[executing := s.cursor])
    {
      Draw(base, executing + 1, column, row, c);
      var screenX, screenY := KPutcAdvance(column, row);
      cursors[executing] := cursors[executing].(x := screenX);
      cursors[executing] := cursors[executing].(y := screenY);
    }

    method KPutcAdvance(column: int, row: int) returns (screenX: int, screenY: int)
      requires Sized() && OnScreen(Cursor(column, row))
      modifies vram
      ensures var d, s := old(View()), Advance(Screen(old(View()).pages[executing + 1], Cursor(column, row)));
        Cursor(screenX, screenY) == s.cursor && View() == d.(pages := d.pages[executing + 1 := s.page])
    {
      screenX, screenY := column, row;
      if screenX == 79 {
        if screenY == 24 {
          KernelScroll();
          screenX := 0;
        } else {
          screenX := 0;
          screenY := screenY + 1;
        }
      } else {
        screenX := screenX + 1;
        screenX := screenX % 80;
        screenY := (screenY + screenX / 80) % 25;
      }
    }

    method BufferAddress() returns (newVidMem: int)
      requires Sized()
      ensures newVidMem == VIDEO + PAGE * (executing + 1)
    {
      if executing == 0 {
        newVidMem := 0xB9000;
      } else if executing == 1 {
        newVidMem := 0xBA000;
      } else {
        newVidMem := 0xBB000;
      }
    }

    method KPutcHidden(c: Byte)
      requires Ready() && CanFeed(cursors[executing], c)
      modifies vram, cursors
      ensures Ready() && View() == KPutc(old(View()), c)
      decreases c == TAB
    {
      var screenX := cursors[executing].x;
      var screenY := cursors[executing].y;
      var newVidMem := BufferAddress();
      if c == TAB {
        KPutcTab(View());
        KPutcHidden(BLANK);
        KPutcHidden(BLANK);
        KPutcHidden(BLANK);
        KPutcHidden(BLANK);
      } else if c == BACKSPACE {
        EraseBack(executing);
      } else if c == NEWLINE || c == RETURN {
        KPutcNewline();
      } else {
        KPutcGlyph(newVidMem - VIDEO, screenX, screenY, c);
      }
    }

    method WriteTerminal(buf: seq<Byte>) returns (success: int)
      requires Ready() && (!jammer && !hotjam ==> CanEmit(View(), buf))
      modifies this`jammer, this`hotjam, vram, cursors
      ensures Ready() && View() == Write(old(View()), buf)
      ensures success == if old(jammer || hotjam) then 0 else |buf|
    {
      success := 0;
      if jammer {
        jammer := false;
        return 0;
      }
      if hotjam {
        hotjam := false;
        return 0;
      }
      ghost var d := View();
      if visible == executing {
        for i := 0 to |buf|
          invariant Ready() && success == i
          invariant visible == executing
          invariant CanEmit(View(), buf[i..]) && EmitAll(View(), buf[i..]) == EmitAll(d, buf)
        {
          assert buf[i..][1..] == buf[i + 1..];
          PutcOnScreen(buf[i]);
          success := success + 1;
        }
      } else {
        for i := 0 to |buf|
          invariant Ready() && success == i
          invariant visible != executing
          invariant CanEmit(View(), buf[i..]) && EmitAll(View(), buf[i..]) == EmitAll(d, buf)
        {
          assert buf[i..][1..] == buf[i + 1..];
          KPutcHidden(buf[i]);
          success := success + 1;
        }
      }
    }

    /** printf of a format without conversions. */
    method Printf(text: seq<Byte>)
      requires PERCENT !in text && NUL !in text
      requires Ready() && CanFeedAll(ConsoleOf(View(), visible), text)
      modifies vram, cursors
      ensures Ready() && View() == PutAll(old(View()), text)
    {
      ghost var d := View();
      for i := 0 to |text|
        invariant Ready() && CanFeedAll(ConsoleOf(View(), visible), text[i..])
        invariant PutAll(View(), text[i..]) == PutAll(d, text)
      {
        assert text[i..][1..] == text[i + 1..];
        PutcIsPrivate(View(), text[i]);
        PutcOnScreen(text[i]);
      }
    }

    /** The screen part of switch_terminal: two copies of 4 KB. */
    method SwitchScreens(t: int)
      requires Ready() && 0 <= t < TERMINALS && t != visible
      modifies this`visible, vram
      ensures Ready() && View() == SwapScreens(old(View()), t)
    {
      CopyPage(visible + 1, 0);
      visible := t;
      CopyPage(0, visible + 1);
    }

    method CopyPage(to: int, from: int)
      requires Sized() && 0 <= to <= TERMINALS && 0 <= from <= TERMINALS && to != from
      modifies vram
      ensures View() == old(View()).(pages := old(View()).pages[to := old(View()).pages[from]])
    {
      ghost var was := vram[..];
      Memcpy(vram, VIDEO, 4096 * to, 4096 * from, 4096);
      ghost var p := PageAt(was, from);
      assert forall o :: 0 <= o < PAGE ==> p[o] == was[4096 * from + o];
      StoreInPage(was, vram[..], to, p);
    }

    method ClearScreen()
      requires Ready()
      modifies vram, cursors
      ensures Ready() && View() == Clear(old(View()))
    {
      ghost var was := vram[..];
      for i := 0 to 2000
        invariant Wiping(was, vram[..], 2 * i)
        modifies vram
      {
        vram[i * 2] := BLANK;
        vram[i * 2 + 1] := ATTRIB;
      }
      StoreInPage(was, vram[..], 0, ClearPage(PageAt(was, 0)));
      cursors[executing] := cursors[executing].(x := 0);
      cursors[executing] := cursors[executing].(y := 0);
    }

    /** Ctrl-L clears, and open_terminal clears again. */
    method ClearKey()
      requires Ready()
      modifies vram, cursors
      ensures Ready() && View() == Clear(old(View()))
    {
      ClearScreen();
      ClearScreen();
      assert ClearPage(ClearPage(old(View()).pages[0])) == ClearPage(old(View()).pages[0]);
    }

    static ghost predicate Wiping(was: seq<Byte>, now: seq<Byte>, n: int)
      requires |was| == VRAM_SIZE
    {
      && |now| == VRAM_SIZE && 0 <= n <= 4000
      && (forall o :: 0 <= o < n ==> now[o] == ClearedByte(PageAt(was, 0), o))
      && (forall o :: n <= o < VRAM_SIZE ==> now[o] == was[o])
    }
  }
}
