/** Consequences of the process forest: what the parent links spell out, what halt undoes, where
    the pids live in memory, how descriptors behave, and how the two excluded cases arise. */
module ProcessLaws {
  import opened KernelModel
  import opened ProcessForest

  // ----- Parent links -----

  /** Follow `k` parent links from pid `p`; stop where a link leaves the table. */
  function Ancestor(s: State, p: int, k: nat): int
    decreases k
  {
    if k == 0 || !(0 <= p < |s.pcbs|) then p else Ancestor(s, s.pcbs[p].parentId, k - 1)
  }

  lemma {:induction false} AncestorPlace(s: State, place: seq<Place>, height: seq<nat>, p: int, k: nat)
    requires Forest(s, place, height) && 0 <= p < |place| && place[p].At? && k <= place[p].depth
    ensures var q := Ancestor(s, p, k);
      0 <= q < |place| && place[q] == At(place[p].term, place[p].depth - k)
    decreases k
  {
    assert PidPlaced(s, place, height, p);
    if k > 0 {
      AncestorPlace(s, place, height, s.pcbs[p].parentId, k - 1);
    }
  }

  /** Parent links lead from the running program of a terminal to its self-parented base shell
      without repeating a pid, and every occupied pid lies on exactly one such path. */
  lemma ParentChains(s: State, place: seq<Place>, height: seq<nat>)
    requires Sized(s) && Forest(s, place, height)
    ensures forall t, k :: 0 <= t < TERMINALS && s.terms[t].active && 0 <= k < height[t] ==>
              var q := Ancestor(s, s.terms[t].programPid, k);
              0 <= q < PROCESSES && s.process[q] && place[q] == At(t, height[t] - 1 - k)
    ensures forall t :: 0 <= t < TERMINALS && s.terms[t].active ==>
              height[t] > 0 && Ancestor(s, s.terms[t].programPid, height[t] - 1) == s.terms[t].basePid
    ensures forall p :: 0 <= p < PROCESSES && s.process[p] ==>
              place[p].At? &&
              var t, d := place[p].term, place[p].depth;
              0 <= t < TERMINALS && s.terms[t].active && d < height[t] &&
              p == Ancestor(s, s.terms[t].programPid, height[t] - 1 - d)
  {
    forall t, k | 0 <= t < TERMINALS && s.terms[t].active && 0 <= k < height[t]
      ensures var q := Ancestor(s, s.terms[t].programPid, k);
        0 <= q < PROCESSES && s.process[q] && place[q] == At(t, height[t] - 1 - k)
    {
      assert TermPlaced(s, place, height, t);
      AncestorPlace(s, place, height, s.terms[t].programPid, k);
      assert PidPlaced(s, place, height, Ancestor(s, s.terms[t].programPid, k));
    }
    forall t | 0 <= t < TERMINALS && s.terms[t].active
      ensures height[t] > 0 && Ancestor(s, s.terms[t].programPid, height[t] - 1) == s.terms[t].basePid
    {
      assert TermPlaced(s, place, height, t);
    }
    forall p | 0 <= p < PROCESSES && s.process[p]
      ensures place[p].At? &&
        var t, d := place[p].term, place[p].depth;
        0 <= t < TERMINALS && s.terms[t].active && d < height[t] &&
        p == Ancestor(s, s.terms[t].programPid, height[t] - 1 - d)
    {
      assert PidPlaced(s, place, height, p);
    }
  }

  /** The kernel state alone determines which terminal owns which pid. */
  lemma ForestIsUnique(s: State, place: seq<Place>, height: seq<nat>, place': seq<Place>, height': seq<nat>)
    requires Sized(s) && Forest(s, place, height) && Forest(s, place', height')
    ensures place == place' && height == height'
  {
    ParentChains(s, place, height);
    ParentChains(s, place', height');
    forall t | 0 <= t < TERMINALS
      ensures height[t] == height'[t]
    {
      assert TermPlaced(s, place, height, t) && TermPlaced(s, place', height', t);
      assert s.terms[t].active ==>
          Ancestor(s, s.terms[t].programPid, height[t] - 1) == s.terms[t].basePid;
    }
    forall p | 0 <= p < PROCESSES
      ensures place[p] == place'[p]
    {
      assert PidPlaced(s, place, height, p) && PidPlaced(s, place', height', p);
    }
  }

  // ----- execute and halt -----

  /** Halting a program right after it was started restores the kernel, except that the slot of
      the new pid stays overwritten (with a cleared descriptor table). */
  lemma HaltUndoesExecute(s: State, image: Image)
    requires Inv(s) && Execute(s, image).1.Started?
    ensures var (s1, outcome) := Execute(s, image);
      && Inv(s1)
      && var s2 := Halt(s1, Executable);
         && s2 == s.(pcbs := s2.pcbs)
         && |s2.pcbs| == PROCESSES
         && (forall q :: 0 <= q < PROCESSES && q != outcome.pid ==> s2.pcbs[q] == s.pcbs[q])
         && FreeTable(s2.pcbs[outcome.pid].fds)
  {
    ActivateActive(s);
    ExecuteKeeps(s, image);
    var (s1, outcome) := Execute(s, image);
    var e := s.executing;
    var place, height :| Forest(s, place, height);
    ForestBasics(s, place, height, e);
    assert outcome.pid != s.terms[e].basePid;
    var s2 := Halt(s1, Executable);
    assert s2.process == s.process;
    assert s2.terms == s.terms;
  }

  // ----- Memory layout -----

  function PcbAddress(pid: int): int { EIGHT_MB - EIGHT_KB * (1 + pid) }

  /** Distinct pids have disjoint kernel slots below 8 MB and disjoint user pages above it; the
      stack pointer of a pid points into its own slot. */
  lemma LayoutDisjoint(p: int, q: int)
    requires 0 <= p < PROCESSES && 0 <= q < PROCESSES
    ensures 0 < PcbAddress(p) <= StackTop(p) < PcbAddress(p) + EIGHT_KB <= EIGHT_MB
    ensures EIGHT_MB <= UserPage(p)
    ensures p != q ==>
      && (PcbAddress(p) + EIGHT_KB <= PcbAddress(q) || PcbAddress(q) + EIGHT_KB <= PcbAddress(p))
      && (UserPage(p) + FOUR_MB <= UserPage(q) || UserPage(q) + FOUR_MB <= UserPage(p))
    ensures UserPage(0) == 0x80_0000 && UserPage(5) == 0x1C0_0000
    ensures PcbAddress(0) == 0x7F_E000 && StackTop(0) == 0x7F_FFFC && StackTop(5) == 0x7F_5FFC
  {
  }

  /** At the end of every run the memory behind the program window and the kernel stack belong to
      the program of the executing terminal, and to no other occupied pid. */
  lemma RunAddressSpace(es: seq<Event>)
    requires AllowedRun(Booted(), es)
    ensures var s := Run(Booted(), es);
      && Inv(s)
      && var p := s.terms[s.executing].programPid;
         && 0 <= p < PROCESSES && s.process[p]
         && s.mapped == UserPage(p) && PcbAddress(p) <= s.esp0 < PcbAddress(p) + EIGHT_KB
         && forall q :: 0 <= q < PROCESSES && q != p ==>
              && s.mapped != UserPage(q)
              && !(PcbAddress(q) <= s.esp0 < PcbAddress(q) + EIGHT_KB)
  {
    BootEstablishes();
    RunKeeps(Booted(), es);
    var s := Run(Booted(), es);
    var place, height :| Forest(s, place, height);
    ForestBasics(s, place, height, s.executing);
    forall q | 0 <= q < PROCESSES
      ensures PcbAddress(q) <= StackTop(q) < PcbAddress(q) + EIGHT_KB
    {
      LayoutDisjoint(q, q);
    }
  }

  // ----- Descriptors -----

  /** A program started by another program sees only standard input and output. */
  lemma FreshDescriptors(s: State, image: Image)
    requires Inv(s) && Execute(s, image).1.Started?
    ensures Inv(Execute(s, image).0)
    ensures CurrentFds(Execute(s, image).0) == [STDIN, STDOUT] + seq(6, _ => CLOSED)
    ensures STDIN == Fd(StdinOps, 0, 0, true) && STDOUT == Fd(StdoutOps, 0, 0, true) && CLOSED == Fd(NoOps, 0, 0, false)
  {
    ActivateActive(s);
    ExecuteKeeps(s, image);
    var (s1, outcome) := Execute(s, image);
    assert FreeTable(s.pcbs[outcome.pid].fds);
  }

  /** open hands out the lowest closed descriptor from 2 up, and close undoes it. */
  lemma CloseUndoesOpen(s: State, entry: Fd)
    requires Inv(s) && entry.inUse
    ensures var (s1, fd) := Open(s, entry);
      && (fd == -1 <==> forall i :: 2 <= i < DESCRIPTORS ==> CurrentFds(s)[i].inUse)
      && (fd == -1 ==> s1 == s)
      && (fd != -1 ==>
            && 2 <= fd < DESCRIPTORS && !CurrentFds(s)[fd].inUse
            && (forall i :: 2 <= i < fd ==> CurrentFds(s)[i].inUse)
            && InRange(s1) && CurrentFds(s1) == CurrentFds(s)[fd := entry]
            && Close(s1, fd) == (s, 0))
  {
    LiveFds(s);
    var (s1, fd) := Open(s, entry);
    if fd != -1 {
      var fds := CurrentFds(s);
      assert fds[fd] == CLOSED;
      assert fds[fd := entry][fd := CLOSED] == fds;
      assert Close(s1, fd).0.pcbs == s.pcbs;
    }
  }

  /** What kind of descriptor an entry of the directory gives. */
  lemma OpenedDescriptor(s: State, filetype: int, inode: nat)
    requires Inv(s) && Open(s, OpenEntry(filetype, inode)).1 != -1
    ensures var (s', fd) := Open(s, OpenEntry(filetype, inode));
      && InRange(s') && 2 <= fd < DESCRIPTORS
      && var slot := CurrentFds(s')[fd];
         && slot.inUse && slot.position == 0
         && (filetype == 0 ==> slot.ops == RtcOps) && (filetype == 1 ==> slot.ops == DirectoryOps)
         && (filetype != 0 && filetype != 1 ==> slot.ops == FileOps && slot.inode == inode)
         && (filetype == 0 || filetype == 1 ==> slot.inode == 0)
  {
    LiveFds(s);
  }

  /** close succeeds exactly for an open descriptor from 2 to 7, closes that one, and else changes
      nothing. */
  lemma CloseIff(s: State, fd: int)
    requires Inv(s)
    ensures var (s', r) := Close(s, fd);
      && (r == 0 <==> 2 <= fd <= 7 && CurrentFds(s)[fd].inUse)
      && (r != 0 ==> r == -1 && s' == s)
      && (r == 0 ==>
            && InRange(s') && s' == s.(pcbs := s'.pcbs)
            && (forall i :: 0 <= i < DESCRIPTORS ==>
                  CurrentFds(s')[i] == if i == fd then Fd(NoOps, 0, 0, false) else CurrentFds(s)[i])
            && forall p :: 0 <= p < PROCESSES && p != s.terms[s.executing].programPid ==> s'.pcbs[p] == s.pcbs[p])
  {
    LiveFds(s);
  }

  // ----- What an event leaves alone -----

  /** The control block of an occupied pid changes only by what its own program does: ending, or
      opening and closing files. */
  lemma BlocksArePrivate(s: State, e: Event, p: int)
    requires Inv(s) && Allowed(s, e) && 0 <= p < PROCESSES && s.process[p]
    ensures Inv(Step(s, e))
    ensures p != s.terms[s.executing].programPid || !(e.HaltCall? || e.OpenCall? || e.CloseCall?) ==>
      Step(s, e).process[p] && Step(s, e).pcbs[p] == s.pcbs[p]
  {
    StepKeeps(s, e);
    match e
    case ExecuteCall(image) => ExecuteOutcome(s, image);
    case HaltCall =>
      if s.terms[s.executing].programPid == s.terms[s.executing].basePid {
        RestartState(s);
        RestartPid(s);
      }
    case SwitchKey(t) =>
      if !s.terms[t].active {
        PredictedPid(s, t);
      }
    case _ =>
  }

  /** The table entry of a terminal changes only while it executes, or by the key that opens it. */
  lemma TerminalsArePrivate(s: State, e: Event, t: int)
    requires Inv(s) && Allowed(s, e) && 0 <= t < TERMINALS && t != s.executing
    requires !(e.SwitchKey? && e.t == t && !s.terms[t].active)
    ensures Sized(Step(s, e)) && Step(s, e).terms[t] == s.terms[t]
  {
    StepKeeps(s, e);
    match e
    case HaltCall =>
      if s.terms[s.executing].programPid == s.terms[s.executing].basePid {
        RestartState(s);
      }
    case SwitchKey(u) =>
      if !s.terms[u].active {
        PredictedPid(s, u);
      }
    case _ =>
  }

  /** Each write uses up one flag that is set, `jammer` first, and reading a line clears `jammer`;
      neither does anything else. */
  lemma FlagsUsedUp(s: State)
    ensures s.jammer ==> Write(s) == s.(jammer := false)
    ensures !s.jammer && s.hotjam ==> Write(s) == s.(hotjam := false)
    ensures !s.jammer && !s.hotjam ==> Write(s) == s
    ensures Write(Write(s)) == s.(jammer := false, hotjam := false)
    ensures ReadLine(s) == s.(jammer := false)
  {
  }

  // ----- The two excluded cases can be reached -----

  lemma BootCounts()
    ensures CountFalse(Booted().process) == 5
    ensures CountFalse(Actives(Booted().terms)) == 2
  {
    var b := BeforeBoot();
    BootEstablishes();
    ActivateActive(b);
    AllFalse(b.process);
    CountUpdate(b.process, 0, true);
    ActivesKept(b.terms, 0, Booted().terms[0]);
    assert Actives(b.terms) == [true, false, false];
    CountUpdate([true, true, false], 1, false);
    CountUpdate([true, true, true], 2, false);
    AllTrue([true, true, true]);
  }

  ghost predicate ReachableFrom(b: State, s: State) {
    exists es :: AllowedRun(b, es) && Run(b, es) == s
  }

  ghost predicate Reachable(s: State) { ReachableFrom(Booted(), s) }

  lemma {:induction false} RunExtends(s: State, es: seq<Event>, e: Event)
    requires Inv(s) && AllowedRun(s, es) && Inv(Run(s, es)) && Allowed(Run(s, es), e)
    ensures AllowedRun(s, es + [e]) && Run(s, es + [e]) == Step(Run(s, es), e)
    decreases |es|
  {
    var es' := es + [e];
    if es == [] {
      assert es'[1..] == [];
      assert AllowedRun(Step(s, e), []);
    } else {
      StepKeeps(s, es[0]);
      RunExtends(Step(s, es[0]), es[1..], e);
      assert es'[1..] == es[1..] + [e];
    }
  }

  lemma ReachBoot()
    ensures Reachable(Booted()) && Inv(Booted())
  {
    BootEstablishes();
    assert AllowedRun(Booted(), []) && Run(Booted(), []) == Booted();
  }

  lemma ReachOn(b: State, s: State, e: Event)
    requires Inv(b) && Inv(s) && ReachableFrom(b, s) && Allowed(s, e)
    ensures ReachableFrom(b, Step(s, e)) && Inv(Step(s, e))
  {
    var es :| AllowedRun(b, es) && Run(b, es) == s;
    RunExtends(b, es, e);
    StepKeeps(s, e);
  }

  lemma ReachStep(s: State, e: Event) returns (s': State)
    requires Inv(s) && Reachable(s) && Allowed(s, e)
    ensures s' == Step(s, e) && Reachable(s') && Inv(s')
  {
    BootEstablishes();
    ReachOn(Booted(), s, e);
    s' := Step(s, e);
  }

  /** Open terminal 1, go back to terminal 0, open terminal 2: the flag left by the second key
      turns the shell away, and terminal 2 stays active without a process. */
  lemma JamBreaksForest() returns (s: State)
    ensures Reachable(s) && Inv(s) && !s.terms[2].active && !Unjammed(s)
    ensures !Inv(Switch(s, 2, Executable))
  {
    ReachBoot();
    PredictedPid(Booted(), 1);
    s := ReachStep(Booted(), SwitchKey(1));
    s := ReachStep(s, SwitchKey(0));
    OpenKeepsIff(s, 2);
  }

  /** The first program above the first shell gets pid 1. */
  lemma FirstProgram()
    ensures Inv(Booted()) && Allowed(Booted(), ExecuteCall(Executable))
    ensures Step(Booted(), ExecuteCall(Executable)) == Launch(Booted()).0
    ensures Launch(Booted()).1 == Started(1)
  {
    ReachBoot();
    BootCounts();
    LaunchOutcome(Booted());
    ActivateActive(Booted());
  }

  /** A program running above the first shell, as pid 1. */
  lemma TwoProcesses() returns (s: State)
    ensures Reachable(s) && Inv(s) && s.process == [true, true, false, false, false, false]
    ensures s.terms == [Terminal(true, 0, 1), Terminal(false, -1, -1), Terminal(false, -1, -1)]
    ensures s.pcbs[1].parentId == 0 && s.pcbs[0].pid == 0
    ensures s.executing == s.visible == s.next == 0 && !s.jammer && !s.hotjam
  {
    ReachBoot();
    FirstProgram();
    s := ReachStep(Booted(), ExecuteCall(Executable));
  }

  /** A shell opened when pids 0 and 1 are taken gets pid 2. */
  lemma SecondShell(s: State)
    requires Inv(s) && s.process == [true, true, false, false, false, false]
    requires !s.terms[1].active && !s.jammer
    ensures Allowed(s, SwitchKey(1)) && s.visible != 1
    ensures Step(s, SwitchKey(1)) == Launch(Reveal(s, 1)).0
    ensures Launch(Reveal(s, 1)).1 == Started(2) && CurrentPid(s.process) == 1
  {
    PredictedPid(s, 1);
    assert !s.process[2];
  }

  lemma SecondShellState(s: State)
    requires Sized(s) && s.process == [true, true, false, false, false, false] && CurrentPid(s.process) == 1
    requires s.terms == [Terminal(true, 0, 1), Terminal(false, -1, -1), Terminal(false, -1, -1)]
    requires Launch(Reveal(s, 1)).1 == Started(2)
    ensures var s' := Launch(Reveal(s, 1)).0;
      && s'.process == [true, true, true, false, false, false]
      && s'.terms == [Terminal(true, 0, 1), Terminal(true, 2, 2), Terminal(false, -1, -1)]
      && s'.pcbs == s.pcbs[2 := s'.pcbs[2]] && s'.executing == 1 && s'.next == s.next
  {
  }

  /** The same with terminal 1 opened: its shell is pid 2. */
  lemma TwoTerminals() returns (s: State)
    ensures Reachable(s) && Inv(s) && s.process == [true, true, true, false, false, false]
    ensures s.terms == [Terminal(true, 0, 1), Terminal(true, 2, 2), Terminal(false, -1, -1)]
    ensures s.pcbs[1].parentId == 0 && s.pcbs[0].pid == 0
    ensures s.executing == 1 && s.next == 0
  {
    var s0 := TwoProcesses();
    SecondShell(s0);
    SecondShellState(s0);
    s := ReachStep(s0, SwitchKey(1));
  }

  lemma NextAmongTwo(s: State)
    requires Sized(s) && s.terms[0].active && s.terms[1].active && !s.terms[2].active
    ensures s.next == 0 ==> TickTarget(s) == 1
    ensures s.next == 1 ==> TickTarget(s) == 0
  {
    var active := Actives(s.terms);
    assert NextActive(active, 1, 3) == NextActive(active, 2, 2) == 0;
    assert NextActive(active, 0, 3) == 1;
  }

  /** Start a program on terminal 0, open terminal 1, end the program and then the second shell:
      its new pid is the freed lower one, and `base_pid` names a free slot. */
  lemma LowRestartBreaksForest() returns (s: State)
    ensures Reachable(s) && Inv(s) && !LowerOccupied(s)
    ensures s.terms[s.executing].programPid == s.terms[s.executing].basePid
    ensures !Inv(Halt(s, Executable))
  {
    s := TwoTerminals();
    NextAmongTwo(s);
    s := ReachStep(s, TimerTick);
    NextAmongTwo(s);
    s := ReachStep(s, TimerTick);
    s := ReachStep(s, HaltCall);
    NextAmongTwo(s);
    s := ReachStep(s, TimerTick);
    assert !s.process[1];
    RestartKeepsIff(s);
  }

  /** The guess is a pid with every lower one occupied; it is occupied itself, and the last before a
      free pid or of all, unless pid 0 is free. */
  lemma GuessIs(p: seq<bool>)
    requires |p| == PROCESSES
    ensures var c := CurrentPid(p);
      && 0 <= c < PROCESSES
      && (p[0] ==> (forall q :: 0 <= q <= c ==> p[q]) && (c + 1 < PROCESSES ==> !p[c + 1]))
      && (!p[0] ==> c == 0)
  {
    var f := FirstFalse(p);
  }

  /** The pid that file_read and directory_read guess is the running program exactly when every
      lower pid is occupied and the next one is free. */
  lemma GuessedPidIff(s: State)
    requires Inv(s)
    ensures var p := s.terms[s.executing].programPid;
      CurrentPid(s.process) == p
      <==> (forall q :: 0 <= q < p ==> s.process[q]) && (p + 1 < PROCESSES ==> !s.process[p + 1])
  {
    var place, height :| Forest(s, place, height);
    ForestBasics(s, place, height, s.executing);
    var p, f := s.terms[s.executing].programPid, FirstFalse(s.process);
    if (forall q :: 0 <= q < p ==> s.process[q]) && (p + 1 < PROCESSES ==> !s.process[p + 1]) {
      assert f < PROCESSES ==> !s.process[f];
    }
  }

  /** With two terminals the pid that the read calls guess need not be the running program. */
  lemma GuessedPidDiffers() returns (s: State)
    ensures Reachable(s) && Inv(s) && CurrentPid(s.process) != s.terms[s.executing].programPid
  {
    s := TwoTerminals();
    NextAmongTwo(s);
    s := ReachStep(s, TimerTick);
    NextAmongTwo(s);
    s := ReachStep(s, TimerTick);
    GuessedPidIff(s);
    assert s.process[2];
  }
}
