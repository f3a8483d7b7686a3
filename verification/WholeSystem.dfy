/** The process machine and the shared screen side by side: the runs that `Terminals` speaks of
    include every run of the kernel. */
module WholeSystem {
  import K = KernelModel
  import P = ProcessForest
  import L = ProcessLaws
  import M = Messages
  import T = Terminals
  import opened Memory
  import opened Console

  datatype Event =
    | Call(e: P.Event)
    | Print(text: seq<Byte>)
    | Echo(c: Byte)
    | ClearKey

  /** The globals that both sides read agree. */
  ghost predicate Coupled(s: K.State, d: T.Display) {
    && T.Valid(d)
    && s.visible == d.visible && s.executing == d.executing
    && s.jammer == d.jammer && s.hotjam == d.hotjam
  }

  ghost predicate Allowed(s: K.State, d: T.Display, e: Event) {
    && P.Inv(s) && Coupled(s, d)
    && (e.Call? ==> P.Allowed(s, e.e))
    && T.Allowed(d, ScreenEvent(s, e))
  }

  /** What the processes make of an event. */
  ghost function KernelStep(s: K.State, e: Event): K.State
    requires P.Inv(s) && (e.Call? ==> P.Allowed(s, e.e))
  {
    match e
    case Call(e) => P.Step(s, e)
    case Print(_) => K.Write(s)
    case Echo(_) => s
    case ClearKey => s
  }

  /** What the screen sees of it. */
  ghost function ScreenEvent(s: K.State, e: Event): T.Event
    requires P.Inv(s) && (e.Call? ==> P.Allowed(s, e.e))
  {
    match e
    case Call(c) =>
      (match c
       case SwitchKey(t) => T.SwitchKey(t, !s.terms[t].active)
       case TimerTick => T.Tick(K.TickTarget(s))
       case WriteCall => T.WriteCall([])
       case LineRead => T.Flags(false, s.hotjam)
       case HaltCall => T.Flags(s.jammer, s.hotjam || s.terms[s.executing].programPid == s.terms[s.executing].basePid)
       case ExecuteCall(image) => T.Message(Bytes(K.ExecutePrints(s, image)))
       case _ => T.Flags(s.jammer, s.hotjam))
    case Print(text) => T.WriteCall(text)
    case Echo(c) => T.Echo(c)
    case ClearKey => T.ClearKey
  }

  /** The execute calls inside halt and switch_terminal print nothing, since they never fail. */
  lemma RestartsAreSilent(s: K.State, e: P.Event)
    requires P.Inv(s) && P.Allowed(s, e)
    ensures e.HaltCall? ==> K.HaltPrints(s, K.Executable) == ""
    ensures e.SwitchKey? ==> K.SwitchPrints(s, e.t, K.Executable) == ""
  {
    match e
    case HaltCall =>
      if s.terms[s.executing].programPid == s.terms[s.executing].basePid {
        P.RestartState(s);
      }
    case SwitchKey(t) =>
      if !s.terms[t].active {
        P.PredictedPid(s, t);
      }
    case _ =>
  }

  lemma CallCouples(s: K.State, d: T.Display, c: P.Event)
    requires Allowed(s, d, Call(c))
    ensures Coupled(P.Step(s, c), T.Step(d, ScreenEvent(s, Call(c))))
  {
    T.StepIsPrivate(d, ScreenEvent(s, Call(c)), 0);
    CallFlags(s, c);
    if c.ExecuteCall? {
      T.PutAllIsPrivate(d, Bytes(K.ExecutePrints(s, c.image)));
    }
  }

  /** Each step takes both sides to states that agree again. */
  lemma StepCouples(s: K.State, d: T.Display, e: Event)
    requires Allowed(s, d, e)
    ensures P.Inv(KernelStep(s, e))
    ensures Coupled(KernelStep(s, e), T.Step(d, ScreenEvent(s, e)))
  {
    T.StepIsPrivate(d, ScreenEvent(s, e), 0);
    match e
    case Call(c) =>
      P.StepKeeps(s, c);
      CallCouples(s, d, c);
    case Print(text) =>
      P.StepKeeps(s, P.WriteCall);
      if !d.jammer && !d.hotjam {
        T.EmitAllIsPrivate(d, text);
      }
    case Echo(_) =>
      T.PutcIsPrivate(d, e.c);
    case ClearKey =>
  }

  /** Which of the shared globals a kernel call changes. */
  lemma CallFlags(s: K.State, c: P.Event)
    requires P.Inv(s) && P.Allowed(s, c)
    ensures var s' := P.Step(s, c);
      match c
      case SwitchKey(t) =>
        && s'.visible == t
        && s'.executing == (if s.terms[t].active then s.executing else t)
        && s'.jammer == (s.jammer || (t != s.visible && s.terms[t].active))
        && s'.hotjam == s.hotjam
      case TimerTick =>
        s' == s.(next := s'.next, executing := K.TickTarget(s), mapped := s'.mapped, esp0 := s'.esp0)
      case HaltCall =>
        && s'.visible == s.visible && s'.executing == s.executing && s'.jammer == s.jammer
        && s'.hotjam == (s.hotjam || s.terms[s.executing].programPid == s.terms[s.executing].basePid)
      case WriteCall => s' == K.Write(s)
      case LineRead => s' == K.ReadLine(s)
      case _ =>
        s'.visible == s.visible && s'.executing == s.executing && s'.jammer == s.jammer && s'.hotjam == s.hotjam
  {
    match c
    case HaltCall => HaltFlags(s);
    case _ =>
  }

  lemma HaltFlags(s: K.State)
    requires P.Inv(s)
    ensures var s', tm := K.Halt(s, K.Executable), s.terms[s.executing];
      && s'.visible == s.visible && s'.executing == s.executing && s'.jammer == s.jammer
      && s'.hotjam == (s.hotjam || tm.programPid == tm.basePid)
  {
    if s.terms[s.executing].programPid == s.terms[s.executing].basePid {
      P.RestartState(s);
    }
  }

  ghost predicate AllowedRun(s: K.State, d: T.Display, es: seq<Event>)
    decreases |es|
  {
    && P.Inv(s) && Coupled(s, d)
    && (es != [] ==>
          Allowed(s, d, es[0]) &&
          AllowedRun(KernelStep(s, es[0]), T.Step(d, ScreenEvent(s, es[0])), es[1..]))
  }

  ghost function Run(s: K.State, d: T.Display, es: seq<Event>): (r: (K.State, T.Display))
    requires AllowedRun(s, d, es)
    ensures P.Inv(r.0) && Coupled(r.0, r.1)
    decreases |es|
  {
    if es == [] then (s, d)
    else Run(KernelStep(s, es[0]), T.Step(d, ScreenEvent(s, es[0])), es[1..])
  }

  ghost function AcceptedIn(s: K.State, d: T.Display, es: seq<Event>, t: int): seq<Op>
    requires AllowedRun(s, d, es)
    decreases |es|
  {
    if es == [] then []
    else
      T.Accepted(d, ScreenEvent(s, es[0]), t)
      + AcceptedIn(KernelStep(s, es[0]), T.Step(d, ScreenEvent(s, es[0])), es[1..], t)
  }

  /** In every run of the kernel, with all its scheduling, starting and ending of programs, each
      terminal shows a console of its own that was given what was accepted for it. */
  lemma {:induction false} KernelRunsArePrivate(s: K.State, d: T.Display, es: seq<Event>, t: int)
    requires AllowedRun(s, d, es) && 0 <= t < T.TERMINALS
    ensures var d' := Run(s, d, es).1;
      && CanPlay(T.ConsoleOf(d, t), AcceptedIn(s, d, es, t))
      && T.ConsoleOf(d', t) == Play(T.ConsoleOf(d, t), AcceptedIn(s, d, es, t))
    decreases |es|
  {
    if es != [] {
      var e := ScreenEvent(s, es[0]);
      var s1, d1 := KernelStep(s, es[0]), T.Step(d, e);
      T.StepIsPrivate(d, e, t);
      KernelRunsArePrivate(s1, d1, es[1..], t);
      PlayConcat(T.ConsoleOf(d, t), T.Accepted(d, e, t), AcceptedIn(s1, d1, es[1..], t));
    }
  }

  // ----- Messages of a failing execute -----

  lemma PrintsOneOf(s: K.State, image: K.Image)
    requires K.Sized(s)
    ensures K.ExecutePrints(s, image) in {"", K.NOT_EXE, K.TOO_MANY}
    ensures Bytes("") == []
  {
  }

  /** A call of execute concerns the terminal of its program only, exactly when it prints nothing,
      or that terminal is visible, or both screens are full of the message already. */
  lemma ExecuteIsPrivateIff(s: K.State, d: T.Display, image: K.Image)
    requires P.Inv(s) && Coupled(s, d)
    ensures var printed := K.ExecutePrints(s, image);
      var text, e := Bytes(printed), d.executing;
      && CanFeedAll(T.ConsoleOf(d, d.visible), text) && CanFeedAll(T.ConsoleOf(d, e), text)
      && (T.OnlyConsole(d, T.PutAll(d, text), e, FeedAll(T.ConsoleOf(d, e), text))
          <==> printed == "" || e == d.visible ||
               (printed == K.NOT_EXE && M.FullOf(T.ConsoleOf(d, e), M.NOT_EXE_LINE)
                && M.FullOf(T.ConsoleOf(d, d.visible), M.NOT_EXE_LINE)))
  {
    PrintsOneOf(s, image);
    M.MessageUnmovedIff(T.ConsoleOf(d, d.visible));
    M.MessageUnmovedIff(T.ConsoleOf(d, d.executing));
    T.MessageIff(d, Bytes(K.ExecutePrints(s, image)));
  }

  // ----- Reachable states in which a console is not private -----

  ghost predicate BootDisplay(d: T.Display) {
    && T.Valid(d) && d.visible == d.executing == 0 && !d.jammer && !d.hotjam
    && forall t :: 0 <= t < T.TERMINALS ==> d.cursors[t] == Cursor(0, 0)
  }

  ghost predicate Reached(s: K.State, d: T.Display) {
    exists d0, es :: BootDisplay(d0) && AllowedRun(K.Booted(), d0, es) && Run(K.Booted(), d0, es) == (s, d)
  }

  lemma RunFrom(s: K.State, d: T.Display, e: Event, es: seq<Event>)
    requires Allowed(s, d, e) && AllowedRun(KernelStep(s, e), T.Step(d, ScreenEvent(s, e)), es)
    ensures AllowedRun(s, d, [e] + es)
    ensures Run(s, d, [e] + es) == Run(KernelStep(s, e), T.Step(d, ScreenEvent(s, e)), es)
  {
    assert ([e] + es)[1..] == es;
  }

  /** Two ticks after terminal 1 was opened, terminal 0 executes again. */
  lemma TickTwice(s: K.State, d: T.Display) returns (s': K.State, d': T.Display, es: seq<Event>)
    requires P.Inv(s) && Coupled(s, d) && s.next == 0
    requires s.terms[0].active && s.terms[1].active && !s.terms[2].active
    ensures AllowedRun(s, d, es) && Run(s, d, es) == (s', d')
    ensures d' == d.(executing := 0) && s'.jammer == s.jammer && s'.hotjam == s.hotjam
  {
    var tick := Call(P.TimerTick);
    L.NextAmongTwo(s);
    StepCouples(s, d, tick);
    var s1, d1 := KernelStep(s, tick), T.Step(d, ScreenEvent(s, tick));
    L.NextAmongTwo(s1);
    StepCouples(s1, d1, tick);
    s', d' := KernelStep(s1, tick), T.Step(d1, ScreenEvent(s1, tick));
    RunFrom(s1, d1, tick, []);
    RunFrom(s, d, tick, [tick] + []);
    es := [tick] + ([tick] + []);
  }

  /** The first program prints a letter. */
  lemma PrintLetter(s: K.State, d: T.Display) returns (s': K.State, d': T.Display)
    requires P.Inv(s) && Coupled(s, d) && BootDisplay(d)
    ensures Allowed(s, d, Print([65])) && s' == KernelStep(s, Print([65])) == s
    ensures d' == T.Step(d, ScreenEvent(s, Print([65])))
    ensures d' == d.(pages := d'.pages, cursors := d'.cursors) && Coupled(s', d')
    ensures d'.cursors[0] == Cursor(1, 0) && d'.pages[0][0] == 65
  {
    T.OneChar(T.ConsoleOf(d, 0), 65);
    T.EmitAllIsPrivate(d, [65]);
    StepCouples(s, d, Print([65]));
    s', d' := KernelStep(s, Print([65])), T.Step(d, ScreenEvent(s, Print([65])));
    assert T.ConsoleOf(d', 0) == Feed(T.ConsoleOf(d, 0), 65);
  }

  lemma OpenSecond(s: K.State)
    requires P.Inv(s) && !s.jammer && !s.terms[1].active && !s.terms[2].active
    ensures P.Allowed(s, P.SwitchKey(1))
    ensures var s' := P.Step(s, P.SwitchKey(1));
      && s'.next == s.next && s'.jammer == s.jammer && s'.hotjam == s.hotjam
      && |s'.terms| == K.TERMINALS && s'.terms[0].active && s'.terms[1].active && !s'.terms[2].active
  {
    P.PredictedPid(s, 1);
    assert K.Switch(s, 1, K.Executable) == K.Launch(K.Reveal(s, 1)).0;
  }

  lemma BootState()
    ensures P.Inv(K.Booted())
    ensures var s := K.Booted();
      && s.visible == s.executing == s.next == 0 && !s.jammer && !s.hotjam
      && !s.terms[1].active && !s.terms[2].active
  {
    P.BootEstablishes();
  }

  /** Terminal 1 is opened, and the first terminal gets the processor back. */
  lemma OpenAndReturn(s: K.State, d: T.Display) returns (s': K.State, d': T.Display, es: seq<Event>)
    requires P.Inv(s) && Coupled(s, d) && s.next == s.visible == 0 && !s.jammer
    requires !s.terms[1].active && !s.terms[2].active
    ensures AllowedRun(s, d, es) && Run(s, d, es) == (s', d')
    ensures d' == T.SwapScreens(d, 1).(executing := 0) && s'.jammer == s.jammer && s'.hotjam == s.hotjam
  {
    var altF2 := Call(P.SwitchKey(1));
    OpenSecond(s);
    StepCouples(s, d, altF2);
    var s1, d1 := KernelStep(s, altF2), T.Step(d, ScreenEvent(s, altF2));
    s', d', es := TickTwice(s1, d1);
    RunFrom(s, d, altF2, es);
    es := [altF2] + es;
  }

  /** From any boot display: print a letter, open terminal 1, let the timer tick twice.  The first
      program executes again, hidden, with its letter in front of its cursor. */
  lemma HiddenProgram(d0: T.Display) returns (s: K.State, d: T.Display)
    requires BootDisplay(d0)
    ensures Reached(s, d) && P.Inv(s) && Coupled(s, d)
    ensures d.executing == 0 && d.visible == 1 && !s.jammer && !s.hotjam
    ensures d.cursors[0] == Cursor(1, 0) && d.pages[1][0] == 65
  {
    BootState();
    var s1, d1 := PrintLetter(K.Booted(), d0);
    var es;
    s, d, es := OpenAndReturn(s1, d1);
    RunFrom(K.Booted(), d0, Print([65]), es);
    assert Run(K.Booted(), d0, [Print([65])] + es) == (s, d);
  }

  /** There its backspace, Ctrl-L, and a failing execute all go to a wrong terminal. */
  lemma ConsolesLeak(d0: T.Display) returns (s: K.State, d: T.Display)
    requires BootDisplay(d0)
    ensures Reached(s, d) && P.Inv(s) && Coupled(s, d)
    ensures var e := d.executing;
      && CanFeed(d.cursors[e], BACKSPACE) && e != d.visible
      && !T.OnlyConsole(d, T.KPutc(d, BACKSPACE), e, Feed(T.ConsoleOf(d, e), BACKSPACE))
      && !T.OnlyConsole(d, T.Clear(d), d.visible, Wiped(T.ConsoleOf(d, d.visible)))
    ensures var e, text := d.executing, Bytes(K.ExecutePrints(s, K.NotExecutable));
      && CanFeedAll(T.ConsoleOf(d, d.visible), text) && CanFeedAll(T.ConsoleOf(d, e), text)
      && !T.OnlyConsole(d, T.PutAll(d, text), e, FeedAll(T.ConsoleOf(d, e), text))
  {
    s, d := HiddenProgram(d0);
    T.HiddenBackspaceIff(d);
    T.ClearIff(d);
    ExecuteIsPrivateIff(s, d, K.NotExecutable);
  }
}
