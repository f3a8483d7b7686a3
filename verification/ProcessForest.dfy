/** What every run of the kernel keeps: the occupied pids form one parent chain per active
    terminal, enough pids stay free for the terminals not yet opened, the page directory and the
    kernel stack follow the executing terminal, and unused descriptors stay closed. */
module ProcessForest {
  import opened KernelModel

  // ----- Parent chains -----

  /** Where an occupied pid stands: in which terminal, and how far above the base shell. */
  datatype Place = Free | At(term: int, depth: nat)

  /** Pid `p` holds its own control block, which leads to the pid one step nearer the base. */
  ghost predicate PidPlaced(s: State, place: seq<Place>, height: seq<nat>, p: int)
    requires |place| == |s.process| == |s.pcbs| && |height| == |s.terms| && 0 <= p < |place|
  {
    match place[p]
    case Free => !s.process[p]
    case At(t, depth) =>
      && s.process[p]
      && 0 <= t < |s.terms| && s.terms[t].active && depth < height[t]
      && s.pcbs[p].pid == p
      && (depth == 0 ==> s.pcbs[p].parentId == p == s.terms[t].basePid)
      && (depth > 0 ==>
            var parent := s.pcbs[p].parentId;
            0 <= parent < |place| && place[parent] == At(t, depth - 1))
  }

  /** The chain of an active terminal runs from its base shell up to its running program. */
  ghost predicate TermPlaced(s: State, place: seq<Place>, height: seq<nat>, t: int)
    requires |place| == |s.process| && |height| == |s.terms| && 0 <= t < |height|
  {
    var tm := s.terms[t];
    if !tm.active then height[t] == 0
    else
      && height[t] > 0
      && 0 <= tm.programPid < |place| && place[tm.programPid] == At(t, height[t] - 1)
      && 0 <= tm.basePid < |place| && place[tm.basePid] == At(t, 0)
  }

  /** The occupied pids are the disjoint union of one parent chain per active terminal. */
  ghost predicate Forest(s: State, place: seq<Place>, height: seq<nat>) {
    && |place| == |s.process| == |s.pcbs| && |height| == |s.terms|
    && (forall p :: 0 <= p < |place| ==> PidPlaced(s, place, height, p))
    && (forall t :: 0 <= t < |height| ==> TermPlaced(s, place, height, t))
    && Apart(place)
  }

  /** No two pids stand in the same place. */
  ghost predicate Apart(place: seq<Place>) {
    forall p, q :: 0 <= p < q < |place| && place[p].At? ==> place[p] != place[q]
  }

  // ----- The invariant -----

  ghost predicate Reserved(s: State) {
    CountFalse(s.process) >= CountFalse(Actives(s.terms))
  }

  ghost predicate AddressSpace(s: State)
    requires Sized(s)
  {
    && s.mapped == UserPage(s.terms[s.executing].programPid)
    && s.esp0 == StackTop(s.terms[s.executing].programPid)
  }

  ghost predicate FreeTable(fds: seq<Fd>) {
    |fds| == DESCRIPTORS && forall i :: 0 <= i < DESCRIPTORS ==> fds[i] == CLOSED
  }

  ghost predicate LiveTable(fds: seq<Fd>) {
    && |fds| == DESCRIPTORS && fds[0] == STDIN && fds[1] == STDOUT
    && forall i :: 0 <= i < DESCRIPTORS && !fds[i].inUse ==> fds[i] == CLOSED
  }

  ghost predicate Tables(s: State) {
    && |s.pcbs| == |s.process|
    && forall p :: 0 <= p < |s.process| ==>
         if s.process[p] then LiveTable(s.pcbs[p].fds) else FreeTable(s.pcbs[p].fds)
  }

  ghost predicate Frame(s: State) {
    && InRange(s)
    && s.terms[s.visible].active
    && s.terms[0].active && s.terms[0].basePid == 0
    && Reserved(s)
    && AddressSpace(s)
    && Tables(s)
  }

  ghost predicate Inv(s: State) {
    Frame(s) && exists place, height :: Forest(s, place, height)
  }

  // ----- Counting -----

  lemma {:induction false} CountUpdate(p: seq<bool>, i: nat, v: bool)
    requires i < |p|
    ensures CountFalse(p[i := v]) == CountFalse(p) + (if p[i] then 1 else 0) - (if v then 1 else 0)
  {
    var q := p[i := v];
    if i == |p| - 1 {
      assert q[..|q| - 1] == p[..|p| - 1];
    } else {
      assert q[..|q| - 1] == p[..|p| - 1][i := v];
      CountUpdate(p[..|p| - 1], i, v);
    }
  }

  lemma {:induction false} CountPositive(p: seq<bool>)
    ensures CountFalse(p) > 0 <==> FirstFalse(p) < |p|
  {
    if p != [] {
      var q := p[..|p| - 1];
      CountPositive(q);
      if FirstFalse(q) < |q| {
        assert !p[FirstFalse(q)];
      }
    }
  }

  lemma ActivesUpdate(terms: seq<Terminal>, t: nat, tm: Terminal)
    requires t < |terms|
    ensures Actives(terms[t := tm]) == Actives(terms)[t := tm.active]
  {
  }

  lemma ActivesKept(terms: seq<Terminal>, t: nat, tm: Terminal)
    requires t < |terms| && tm.active == terms[t].active
    ensures Actives(terms[t := tm]) == Actives(terms)
  {
    ActivesUpdate(terms, t, tm);
  }

  lemma InactiveCount(terms: seq<Terminal>, t: nat)
    requires t < |terms| && !terms[t].active
    ensures CountFalse(Actives(terms)) > 0
  {
    CountPositive(Actives(terms));
    assert !Actives(terms)[t];
  }

  // ----- Steps on chains -----

  /** Starting a program puts its pid on top of the chain of the executing terminal. */
  lemma LaunchPushes(s: State, place: seq<Place>, height: seq<nat>)
    requires Sized(s) && Forest(s, place, height) && s.terms[s.executing].active
    requires Launch(s).1.Started?
    ensures var e, pid := s.executing, Launch(s).1.pid;
      Forest(Launch(s).0, place[pid := At(e, height[e])], height[e := height[e] + 1])
  {
    assert TermPlaced(s, place, height, s.executing);
    var s' := Launch(s).0;
    var e, pid := s.executing, Launch(s).1.pid;
    var place', height' := place[pid := At(e, height[e])], height[e := height[e] + 1];
    assert PidPlaced(s, place, height, pid);
    forall p | 0 <= p < |place|
      ensures PidPlaced(s', place', height', p)
    {
      assert PidPlaced(s, place, height, p);
    }
    forall t | 0 <= t < |height|
      ensures TermPlaced(s', place', height', t)
    {
      assert TermPlaced(s, place, height, t);
    }
    forall p, q | 0 <= p < q < |place'| && place'[p].At?
      ensures place'[p] != place'[q]
    {
      assert PidPlaced(s, place, height, p) && PidPlaced(s, place, height, q);
    }
  }

  /** Halting a program that is not a base shell takes it off the chain; its parent runs again. */
  lemma ReturnPops(s: State, place: seq<Place>, height: seq<nat>)
    requires InRange(s) && Forest(s, place, height)
    requires s.terms[s.executing].programPid != s.terms[s.executing].basePid
    ensures var e, p := s.executing, s.terms[s.executing].programPid;
      height[e] >= 2 && Forest(ReturnToParent(s, p), place[p := Free], height[e := height[e] - 1])
  {
    var e := s.executing;
    var p := s.terms[e].programPid;
    var s' := ReturnToParent(s, p);
    assert TermPlaced(s, place, height, e);
    assert PidPlaced(s, place, height, p);
    var place', height' := place[p := Free], height[e := height[e] - 1];
    var parent := s.pcbs[p].parentId;
    assert PidPlaced(s, place, height, parent);
    forall q | 0 <= q < |place|
      ensures PidPlaced(s', place', height', q)
    {
      assert PidPlaced(s, place, height, q);
    }
    forall t | 0 <= t < |height|
      ensures TermPlaced(s', place', height', t)
    {
      assert TermPlaced(s, place, height, t);
    }
  }

  /** The forest only looks at the pid table, the terminals and the links in the control blocks. */
  lemma ForestFrame(s: State, s': State, place: seq<Place>, height: seq<nat>)
    requires Forest(s, place, height)
    requires s'.process == s.process && s'.terms == s.terms && |s'.pcbs| == |s.pcbs|
    requires forall p :: 0 <= p < |s.pcbs| ==>
               s'.pcbs[p].pid == s.pcbs[p].pid && s'.pcbs[p].parentId == s.pcbs[p].parentId
    ensures Forest(s', place, height)
  {
    forall p | 0 <= p < |place|
      ensures PidPlaced(s', place, height, p)
    {
      assert PidPlaced(s, place, height, p);
    }
    forall t | 0 <= t < |height|
      ensures TermPlaced(s', place, height, t)
    {
      assert TermPlaced(s, place, height, t);
    }
  }

  lemma ForestBasics(s: State, place: seq<Place>, height: seq<nat>, t: int)
    requires Sized(s) && Forest(s, place, height) && 0 <= t < TERMINALS && s.terms[t].active
    ensures var tm := s.terms[t];
      && 0 <= tm.programPid < PROCESSES && s.process[tm.programPid]
      && s.pcbs[tm.programPid].pid == tm.programPid
      && 0 <= tm.basePid < PROCESSES && s.process[tm.basePid]
      && s.pcbs[tm.basePid].pid == s.pcbs[tm.basePid].parentId == tm.basePid
  {
    var tm := s.terms[t];
    assert TermPlaced(s, place, height, t);
    assert PidPlaced(s, place, height, tm.programPid) && PidPlaced(s, place, height, tm.basePid);
  }

  /** An active terminal whose base pid is free has no chain. */
  lemma FreeBase(s: State, t: int)
    requires Sized(s) && 0 <= t < TERMINALS && s.terms[t].active
    requires 0 <= s.terms[t].basePid < PROCESSES && !s.process[s.terms[t].basePid]
    ensures !Inv(s)
  {
    forall place, height
      ensures !Forest(s, place, height)
    {
      if |place| == |s.process| && |height| == |s.terms| && TermPlaced(s, place, height, t) {
        assert |s.pcbs| == PROCESSES ==> !PidPlaced(s, place, height, s.terms[t].basePid);
      }
    }
  }

  // ----- Steps on the whole invariant -----

  lemma ActivateActive(s: State)
    requires Sized(s) && s.terms[s.executing].active
    ensures Activate(s) == s
  {
    assert Activate(s).terms == s.terms;
  }

  /** Launch fails exactly when the free pids are reserved for unopened terminals, or all taken. */
  lemma LaunchOutcome(s: State)
    requires Sized(s)
    ensures var free, inactive := CountFalse(s.process), CountFalse(Actives(s.terms));
      Launch(s).1.Started? <==> free > inactive
  {
    CountPositive(s.process);
  }

  lemma LaunchFrame(s: State)
    requires InRange(s) && Launch(s).1.Started?
    requires s.terms[s.visible].active && s.terms[0].active && s.terms[0].basePid == 0
    requires forall p :: 0 <= p < PROCESSES ==>
               if s.process[p] then LiveTable(s.pcbs[p].fds)
               else FreeTable(s.pcbs[p].fds) || (p == Launch(s).1.pid && LiveTable(s.pcbs[p].fds))
    ensures Frame(Launch(s).0)
  {
    var s', pid := Launch(s).0, Launch(s).1.pid;
    LaunchOutcome(s);
    CountUpdate(s.process, pid, true);
    ActivesKept(s.terms, s.executing, s'.terms[s.executing]);
    forall p | 0 <= p < PROCESSES
      ensures if s'.process[p] then LiveTable(s'.pcbs[p].fds) else FreeTable(s'.pcbs[p].fds)
    {
      if p == pid {
        assert s'.pcbs[p].fds == s.pcbs[p].fds[0 := STDIN][1 := STDOUT];
      }
    }
  }

  lemma ExecuteKeeps(s: State, image: Image)
    requires Inv(s)
    ensures Inv(Execute(s, image).0)
  {
    ActivateActive(s);
    if Execute(s, image).1.Started? {
      var place, height :| Forest(s, place, height);
      LaunchPushes(s, place, height);
      LaunchFrame(s);
    }
  }

  /** Only a program is started, and only if more pids are free than terminals are unopened; a call
      of execute that starts nothing changes nothing, and prints what went wrong. */
  lemma ExecuteOutcome(s: State, image: Image)
    requires Inv(s)
    ensures var (s', outcome) := Execute(s, image);
      var room := CountFalse(s.process) > CountFalse(Actives(s.terms));
      && (outcome.Started? <==> Unjammed(s) && image == Executable && room)
      && (outcome.Dropped? <==> !Unjammed(s))
      && (!outcome.Started? ==> s' == s)
      && (ExecutePrints(s, image) == "file is not exe\n" <==> Unjammed(s) && image == NotExecutable)
      && (ExecutePrints(s, image) == "too many processes,  " <==> Unjammed(s) && image == Executable && !room)
      && (ExecutePrints(s, image) != "" ==> outcome.Failed? && image != Missing)
  {
    ActivateActive(s);
    LaunchOutcome(s);
    assert |NOT_EXE| == 16 && |TOO_MANY| == 21;
  }

  lemma HaltProgramFrame(s: State, place: seq<Place>, height: seq<nat>)
    requires Inv(s) && s.terms[s.executing].programPid != s.terms[s.executing].basePid
    requires Forest(Halt(s, Executable), place, height)
    ensures Frame(Halt(s, Executable))
  {
    var e := s.executing;
    var p := s.terms[e].programPid;
    var s' := Halt(s, Executable);
    ForestBasics(s', place, height, e);
    CountUpdate(s.process, p, false);
    ActivesKept(s.terms, e, s'.terms[e]);
    assert forall q :: 0 <= q < PROCESSES && q != p ==> s'.pcbs[q] == s.pcbs[q];
  }

  lemma HaltProgramKeeps(s: State)
    requires Inv(s) && s.terms[s.executing].programPid != s.terms[s.executing].basePid
    ensures Inv(Halt(s, Executable))
  {
    var e := s.executing;
    var place, height :| Forest(s, place, height);
    ReturnPops(s, place, height);
    HaltProgramFrame(s, place[s.terms[e].programPid := Free], height[e := height[e] - 1]);
  }

  /** The state in which halt calls execute to restart the shell of the executing terminal. */
  lemma RestartState(s: State)
    requires Inv(s) && s.terms[s.executing].programPid == s.terms[s.executing].basePid
    ensures var p := s.terms[s.executing].basePid;
      && 0 <= p < PROCESSES && s.process[p]
      && Activate(ReleaseBase(s)) == s.(process := s.process[p := false], hotjam := true)
      && Launch(Activate(ReleaseBase(s))).1.Started?
      && Halt(s, Executable) == Launch(Activate(ReleaseBase(s))).0
  {
    var place, height :| Forest(s, place, height);
    var p := s.terms[s.executing].basePid;
    ForestBasics(s, place, height, s.executing);
    var r := Activate(ReleaseBase(s));
    assert r.terms == s.terms;
    CountUpdate(s.process, p, false);
    LaunchOutcome(r);
  }

  /** A base shell may restart only in its own slot; that is when every lower pid is occupied. */
  predicate LowerOccupied(s: State)
    requires Sized(s)
  {
    var p := s.terms[s.executing].basePid;
    forall q :: 0 <= q < PROCESSES && q < p ==> s.process[q]
  }

  /** The pid of a restarted base shell is the lowest free one once its own slot is free. */
  lemma RestartPid(s: State)
    requires Inv(s) && s.terms[s.executing].programPid == s.terms[s.executing].basePid
    ensures Launch(Activate(ReleaseBase(s))).1.Started?
    ensures var p, pid := s.terms[s.executing].basePid, Launch(Activate(ReleaseBase(s))).1.pid;
      && 0 <= pid <= p < PROCESSES && |s.process| == PROCESSES && s.process[p]
      && Halt(s, Executable).process == s.process[p := false][pid := true]
      && (pid < p ==> !s.process[pid])
      && forall q :: 0 <= q < pid ==> s.process[q]
  {
    RestartState(s);
    var p, r := s.terms[s.executing].basePid, Activate(ReleaseBase(s));
    var pid := Launch(r).1.pid;
    assert r.process == s.process[p := false] && pid == FirstFalse(r.process);
    assert !r.process[p];
    assert pid < p ==> !s.process[pid];
    assert forall q :: 0 <= q < pid ==> r.process[q] == s.process[q];
  }

  lemma RestartInPlace(s: State)
    requires Inv(s) && s.terms[s.executing].programPid == s.terms[s.executing].basePid
    requires LowerOccupied(s)
    ensures Inv(Halt(s, Executable))
  {
    RestartState(s);
    RestartPid(s);
    var s' := Halt(s, Executable);
    assert s'.process == s.process && s'.terms == s.terms;
    var place, height :| Forest(s, place, height);
    ForestBasics(s, place, height, s.executing);
    ForestFrame(s, s', place, height);
    LaunchFrame(Activate(ReleaseBase(s)));
  }

  lemma RestartKeepsIff(s: State)
    requires Inv(s) && s.terms[s.executing].programPid == s.terms[s.executing].basePid
    ensures Inv(Halt(s, Executable)) <==> LowerOccupied(s)
  {
    if LowerOccupied(s) {
      RestartInPlace(s);
    } else {
      RestartPid(s);
      var s' := Halt(s, Executable);
      var q :| 0 <= q < s.terms[s.executing].basePid && !s.process[q];
      assert !s'.process[s.terms[s.executing].basePid];
      FreeBase(s', s.executing);
    }
  }

  /** Opening a terminal: the pid written down in advance is the one get_pid then hands out. */
  lemma PredictedPid(s: State, t: int)
    requires Inv(s) && 0 <= t < TERMINALS && !s.terms[t].active
    ensures CurrentPid(s.process) + 1 == FirstFalse(s.process) < PROCESSES
    ensures InRange(Reveal(s, t)) && Activate(Reveal(s, t)) == Reveal(s, t)
    ensures Launch(Reveal(s, t)).1 == Started(CurrentPid(s.process) + 1)
  {
    var place, height :| Forest(s, place, height);
    ForestBasics(s, place, height, 0);
    InactiveCount(s.terms, t);
    CountPositive(s.process);
    var r := Reveal(s, t);
    ActivesUpdate(s.terms, t, r.terms[t]);
    CountUpdate(Actives(s.terms), t, true);
    LaunchOutcome(r);
    ActivateActive(r);
  }

  lemma OpenPlaces(s: State, t: int, place: seq<Place>, height: seq<nat>)
    requires Inv(s) && Forest(s, place, height) && 0 <= t < TERMINALS && !s.terms[t].active
    requires Launch(Reveal(s, t)).1 == Started(CurrentPid(s.process) + 1)
    requires CurrentPid(s.process) + 1 == FirstFalse(s.process) < PROCESSES
    ensures Forest(Launch(Reveal(s, t)).0,
                   place[FirstFalse(s.process) := At(t, 0)], height[t := 1])
  {
    var pid := FirstFalse(s.process);
    var s' := Launch(Reveal(s, t)).0;
    var place', height' := place[pid := At(t, 0)], height[t := 1];
    assert PidPlaced(s, place, height, pid);
    forall p | 0 <= p < |place|
      ensures PidPlaced(s', place', height', p)
    {
      assert PidPlaced(s, place, height, p);
    }
    forall u | 0 <= u < |height|
      ensures TermPlaced(s', place', height', u)
    {
      assert TermPlaced(s, place, height, u);
    }
    NewPlaceDistinct(s, place, height, pid, t);
  }

  /** No pid stands where the first one of an unopened terminal is put. */
  lemma NewPlaceDistinct(s: State, place: seq<Place>, height: seq<nat>, pid: nat, t: int)
    requires Forest(s, place, height) && pid < |place| && 0 <= t < |s.terms| && !s.terms[t].active
    ensures Apart(place[pid := At(t, 0)])
  {
    var place' := place[pid := At(t, 0)];
    forall p, q | 0 <= p < q < |place'| && place'[p].At?
      ensures place'[p] != place'[q]
    {
      assert PidPlaced(s, place, height, p) && PidPlaced(s, place, height, q);
    }
  }

  /** execute inside switch_terminal is not turned away by the synchronisation flags. */
  predicate Unjammed(s: State) { !s.jammer || s.hotjam }

  lemma OpenKeepsIff(s: State, t: int)
    requires Inv(s) && 0 <= t < TERMINALS && !s.terms[t].active
    ensures Inv(Switch(s, t, Executable)) <==> Unjammed(s)
  {
    PredictedPid(s, t);
    var r := Reveal(s, t);
    if Unjammed(s) {
      assert Switch(s, t, Executable) == Launch(r).0;
      var place, height :| Forest(s, place, height);
      OpenPlaces(s, t, place, height);
      LaunchFrame(r);
    } else {
      assert Switch(s, t, Executable) == r;
      FreeBase(r, t);
    }
  }

  lemma SwitchKeeps(s: State, t: int)
    requires Inv(s) && 0 <= t < TERMINALS && (s.terms[t].active || Unjammed(s))
    ensures Inv(Switch(s, t, Executable))
  {
    if s.terms[t].active {
      var place, height :| Forest(s, place, height);
      ForestFrame(s, Switch(s, t, Executable), place, height);
    } else {
      OpenKeepsIff(s, t);
    }
  }

  /** Going round once finds an active terminal if there is one. */
  lemma TickSelects(s: State)
    requires Sized(s) && s.terms[s.executing].active
    ensures s.terms[TickTarget(s)].active
  {
    var active := Actives(s.terms);
    var n1 := Succ(s.next, TERMINALS);
    var n2 := Succ(n1, TERMINALS);
    assert Succ(n2, TERMINALS) == s.next && s.executing in {s.next, n1, n2};
    assert TickTarget(s) == if active[n1] then n1 else NextActive(active, n1, 2);
    assert NextActive(active, n1, 2) == if active[n2] then n2 else NextActive(active, n2, 1);
    assert NextActive(active, n2, 1) == s.next;
  }

  lemma TickKeeps(s: State)
    requires Inv(s)
    ensures s.terms[TickTarget(s)].active && Inv(Tick(s))
  {
    TickSelects(s);
    var place, height :| Forest(s, place, height);
    ForestFrame(s, Tick(s), place, height);
    ForestBasics(s, place, height, TickTarget(s));
  }

  lemma FlagsKeep(s: State, s': State)
    requires Inv(s) && s' == s.(jammer := s'.jammer, hotjam := s'.hotjam)
    ensures Inv(s')
  {
    var place, height :| Forest(s, place, height);
    ForestFrame(s, s', place, height);
  }

  lemma FdsKeep(s: State, fds: seq<Fd>)
    requires Inv(s) && LiveTable(fds)
    ensures Inv(WithFds(s, fds))
  {
    var place, height :| Forest(s, place, height);
    ForestFrame(s, WithFds(s, fds), place, height);
    ForestBasics(s, place, height, s.executing);
  }

  lemma LiveFds(s: State)
    requires Inv(s)
    ensures LiveTable(CurrentFds(s))
  {
    var place, height :| Forest(s, place, height);
    ForestBasics(s, place, height, s.executing);
  }

  // ----- Runs -----

  datatype Event =
    | ExecuteCall(image: Image)
    | HaltCall
    | SwitchKey(t: int)
    | TimerTick
    | WriteCall
    | LineRead
    | OpenCall(filetype: int, inode: nat)
    | CloseCall(fd: int)

  /** The two conditions under which the kernel keeps its forest; nothing else is restricted. */
  ghost predicate Allowed(s: State, e: Event)
    requires InRange(s)
  {
    match e
    case SwitchKey(t) => 0 <= t < TERMINALS && (s.terms[t].active || Unjammed(s))
    case HaltCall =>
      s.terms[s.executing].programPid == s.terms[s.executing].basePid ==> LowerOccupied(s)
    case _ => true
  }

  ghost function Step(s: State, e: Event): State
    requires Inv(s) && Allowed(s, e)
  {
    match e
    case ExecuteCall(image) => Execute(s, image).0
    case HaltCall => Halt(s, Executable)
    case SwitchKey(t) => Switch(s, t, Executable)
    case TimerTick => TickKeeps(s); Tick(s)
    case WriteCall => Write(s)
    case LineRead => ReadLine(s)
    case OpenCall(filetype, inode) => Open(s, OpenEntry(filetype, inode)).0
    case CloseCall(fd) => Close(s, fd).0
  }

  lemma StepKeeps(s: State, e: Event)
    requires Inv(s) && Allowed(s, e)
    ensures Inv(Step(s, e))
  {
    match e
    case ExecuteCall(image) => ExecuteKeeps(s, image);
    case HaltCall =>
      if s.terms[s.executing].programPid == s.terms[s.executing].basePid {
        RestartKeepsIff(s);
      } else {
        HaltProgramKeeps(s);
      }
    case SwitchKey(t) => SwitchKeeps(s, t);
    case TimerTick => TickKeeps(s);
    case WriteCall => FlagsKeep(s, Write(s));
    case LineRead => FlagsKeep(s, ReadLine(s));
    case OpenCall(filetype, inode) =>
      LiveFds(s);
      var (s', fd) := Open(s, OpenEntry(filetype, inode));
      if fd != -1 {
        FdsKeep(s, CurrentFds(s)[fd := OpenEntry(filetype, inode)]);
      }
    case CloseCall(fd) =>
      LiveFds(s);
      if Close(s, fd).1 == 0 {
        FdsKeep(s, CurrentFds(s)[fd := CLOSED]);
      }
  }

  ghost predicate AllowedRun(s: State, es: seq<Event>)
    decreases |es|
  {
    es == [] || (Inv(s) && Allowed(s, es[0]) && AllowedRun(Step(s, es[0]), es[1..]))
  }

  ghost function Run(s: State, es: seq<Event>): State
    requires AllowedRun(s, es)
    decreases |es|
  {
    if es == [] then s else Run(Step(s, es[0]), es[1..])
  }

  lemma {:induction false} RunKeeps(s: State, es: seq<Event>)
    requires Inv(s) && AllowedRun(s, es)
    ensures Inv(Run(s, es))
    decreases |es|
  {
    if es != [] {
      StepKeeps(s, es[0]);
      RunKeeps(Step(s, es[0]), es[1..]);
    }
  }

  // ----- Boot -----

  /** The first execute finds pid 0. */
  lemma BootLaunch()
    ensures Execute(BeforeBoot(), Executable).1 == Launch(BeforeBoot()).1 == Started(0)
    ensures Booted() == Launch(BeforeBoot()).0
  {
    var b := BeforeBoot();
    assert Actives(b.terms) == [true, false, false];
    assert CountFalse([true, false, false]) == 2 by {
      CountUpdate([true, true, false], 1, false);
      CountUpdate([true, true, true], 2, false);
      AllTrue([true, true, true]);
    }
    AllFalse(b.process);
    ActivateActive(b);
    LaunchOutcome(b);
  }

  lemma BootForest()
    requires Booted() == Launch(BeforeBoot()).0 && Launch(BeforeBoot()).1 == Started(0)
    ensures exists place, height :: Forest(Booted(), place, height)
  {
    var s := Booted();
    var place, height := seq(PROCESSES, p => if p == 0 then At(0, 0) else Free), [1, 0, 0];
    forall p | 0 <= p < |place|
      ensures PidPlaced(s, place, height, p)
    {
    }
    forall t | 0 <= t < |height|
      ensures TermPlaced(s, place, height, t)
    {
    }
    assert Forest(s, place, height);
  }

  lemma BootEstablishes()
    ensures Execute(BeforeBoot(), Executable).1 == Started(0)
    ensures Inv(Booted())
  {
    BootLaunch();
    LaunchFrame(BeforeBoot());
    BootForest();
  }

  lemma {:induction false} AllTrue(p: seq<bool>)
    requires forall i :: 0 <= i < |p| ==> p[i]
    ensures CountFalse(p) == 0
  {
    if p != [] {
      AllTrue(p[..|p| - 1]);
    }
  }

  lemma {:induction false} AllFalse(p: seq<bool>)
    requires forall i :: 0 <= i < |p| ==> !p[i]
    ensures CountFalse(p) == |p|
  {
    if p != [] {
      AllFalse(p[..|p| - 1]);
    }
  }
}
