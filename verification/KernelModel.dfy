/** The kernel's process, terminal and scheduler state as a value, and what each system call or
    interrupt does to it.  `Kernel.Machine` carries the same state in mutable fields and is proved
    to follow these functions; `ProcessForest` and `Scheduling` prove what the functions keep. */
module KernelModel {
  const EIGHT_MB: int := 0x800000
  const EIGHT_KB: int := 0x2000
  const FOUR_MB: int := 0x400000
  const PROCESSES: nat := 6
  const TERMINALS: nat := 3
  const DESCRIPTORS: nat := 8

  /** What the file system holds under a command name. */
  datatype Image = Missing | NotExecutable | Executable

  /** The operations table a descriptor points to. */
  datatype Ops = NoOps | StdinOps | StdoutOps | FileOps | DirectoryOps | RtcOps

  datatype Fd = Fd(ops: Ops, inode: nat, position: nat, inUse: bool)

  const CLOSED := Fd(NoOps, 0, 0, false)
  const STDIN := Fd(StdinOps, 0, 0, true)
  const STDOUT := Fd(StdoutOps, 0, 0, true)

  datatype Pcb = Pcb(pid: int, parentId: int, fds: seq<Fd>)

  datatype Terminal = Terminal(active: bool, basePid: int, programPid: int)

  datatype State = State(
    process: seq<bool>,      // which pids are occupied
    terms: seq<Terminal>,
    pcbs: seq<Pcb>,          // the control block at the top of each 8 KB kernel slot
    visible: int,
    executing: int,
    next: int,               // the scheduler's last choice
    jammer: bool,
    hotjam: bool,
    mapped: int,             // physical page behind the 128 MB page-directory slot
    esp0: int)

  /** How a call of execute ends: dropped by the synchronisation flags, failed, or started a pid. */
  datatype Outcome = Dropped | Failed | Started(pid: int)

  // ----- Pid table -----

  function FirstFalse(p: seq<bool>): (f: nat)
    ensures f <= |p|
    ensures forall i :: 0 <= i < f ==> p[i]
    ensures f < |p| ==> !p[f]
  {
    if p == [] || !p[0] then 0 else 1 + FirstFalse(p[1..])
  }

  function CountFalse(p: seq<bool>): (n: nat)
    ensures n <= |p|
  {
    if p == [] then 0 else CountFalse(p[..|p| - 1]) + (if p[|p| - 1] then 0 else 1)
  }

  function Actives(terms: seq<Terminal>): seq<bool> {
    seq(|terms|, i requires 0 <= i < |terms| => terms[i].active)
  }

  /** The pid that get_current_pid guesses: the one below the first free pid. */
  function CurrentPid(p: seq<bool>): int {
    var f := FirstFalse(p);
    if f == |p| then |p| - 1 else if f == 0 then 0 else f - 1
  }

  // ----- Address spaces and kernel stacks -----

  function UserPage(pid: int): int { EIGHT_MB + pid * FOUR_MB }

  function StackTop(pid: int): int { EIGHT_MB - EIGHT_KB * pid - 4 }

  // ----- System calls and interrupts -----

  ghost predicate Sized(s: State) {
    && |s.process| == |s.pcbs| == PROCESSES
    && |s.terms| == TERMINALS
    && 0 <= s.visible < TERMINALS && 0 <= s.executing < TERMINALS && 0 <= s.next < TERMINALS
    && forall p :: 0 <= p < PROCESSES ==> |s.pcbs[p].fds| == DESCRIPTORS
  }

  /** Every control block the kernel may look up lies in one of the pid slots. */
  ghost predicate InRange(s: State) {
    && Sized(s)
    && s.terms[s.executing].active
    && (forall t :: 0 <= t < TERMINALS && s.terms[t].active ==> 0 <= s.terms[t].programPid < PROCESSES)
    && forall p :: 0 <= p < PROCESSES ==> 0 <= s.pcbs[p].parentId < PROCESSES
  }

  /** execute once the image is known to be a program: reserve a pid and set the process up. */
  function Launch(s: State): (State, Outcome)
    requires Sized(s)
  {
    var inactive := CountFalse(Actives(s.terms));
    var pid := FirstFalse(s.process);
    if 0 < inactive && inactive >= CountFalse(s.process) then (s, Failed)
    else if pid == PROCESSES then (s, Failed)
    else
      var tm := s.terms[s.executing];
      var pcb := Pcb(pid, tm.programPid, s.pcbs[pid].fds[0 := STDIN][1 := STDOUT]);
      (s.(process := s.process[pid := true],
          pcbs := s.pcbs[pid := pcb],
          terms := s.terms[s.executing := tm.(programPid := pid)],
          mapped := UserPage(pid),
          esp0 := StackTop(pid)),
       Started(pid))
  }

  function Activate(s: State): State
    requires Sized(s)
  {
    s.(terms := s.terms[s.executing := s.terms[s.executing].(active := true)])
  }

  function Execute(s: State, image: Image): (State, Outcome)
    requires Sized(s)
  {
    if s.jammer && !s.hotjam then (s, Dropped)
    else if image != Executable then (Activate(s), Failed)
    else Launch(Activate(s))
  }

  const NOT_EXE_LINE := "file is not exe"
  const NOT_EXE := NOT_EXE_LINE + "\n"
  const TOO_MANY := "too many processes,  "

  /** What a failing execute prints; a command that no file is named after fails silently. */
  function ExecutePrints(s: State, image: Image): string
    requires Sized(s)
  {
    if s.jammer && !s.hotjam then ""
    else
      match image
      case Missing => ""
      case NotExecutable => NOT_EXE
      case Executable => if Launch(Activate(s)).1.Failed? then TOO_MANY else ""
  }

  /** The part of halt that returns to the parent of the process with pid `p`. */
  function ReturnToParent(s: State, p: int): State
    requires Sized(s) && 0 <= p < PROCESSES
    requires 0 <= s.pcbs[p].parentId < PROCESSES
    requires 0 <= s.terms[s.executing].programPid < PROCESSES
  {
    var tm := s.terms[s.executing];
    var parentPid := s.pcbs[s.pcbs[p].parentId].pid;
    s.(process := s.process[tm.programPid := false],
       terms := s.terms[s.executing := tm.(programPid := parentPid)],
       pcbs := s.pcbs[p := s.pcbs[p].(fds := seq(DESCRIPTORS, _ => CLOSED))],
       mapped := UserPage(parentPid),
       esp0 := StackTop(parentPid))
  }

  /** What halt does before it restarts the shell of a terminal. */
  function ReleaseBase(s: State): State
    requires InRange(s)
  {
    var tm := s.terms[s.executing];
    s.(process := s.process[tm.programPid := false],
       terms := s.terms[s.executing := tm.(active := false)],
       hotjam := true)
  }

  function Halt(s: State, shell: Image): State
    requires InRange(s)
  {
    var tm := s.terms[s.executing];
    if tm.programPid != tm.basePid then ReturnToParent(s, tm.programPid)
    else
      var (s', outcome) := Execute(ReleaseBase(s), shell);
      if outcome.Started? then s' else ReturnToParent(s', tm.programPid)
  }

  function HaltPrints(s: State, shell: Image): string
    requires InRange(s)
  {
    var tm := s.terms[s.executing];
    if tm.programPid != tm.basePid then "" else ExecutePrints(ReleaseBase(s), shell)
  }

  function Reveal(s: State, t: int): State
    requires Sized(s) && 0 <= t < TERMINALS
  {
    var pid := CurrentPid(s.process) + 1;
    s.(visible := t, executing := t, terms := s.terms[t := Terminal(true, pid, pid)])
  }

  function Switch(s: State, t: int, shell: Image): State
    requires Sized(s) && 0 <= t < TERMINALS
  {
    if t == s.visible then s
    else if s.terms[t].active then s.(jammer := true, visible := t)
    else Execute(Reveal(s, t), shell).0
  }

  function SwitchPrints(s: State, t: int, shell: Image): string
    requires Sized(s) && 0 <= t < TERMINALS
  {
    if t == s.visible || s.terms[t].active then "" else ExecutePrints(Reveal(s, t), shell)
  }

  /** The terminal after `n` in cyclic order. */
  function Succ(n: int, size: nat): int { if n + 1 == size then 0 else n + 1 }

  /** Round robin: the first active terminal after `from`, or `from` itself after a full turn. */
  function NextActive(active: seq<bool>, from: int, steps: nat): (n: int)
    requires 0 <= from < |active|
    ensures 0 <= n < |active|
    decreases steps
  {
    if steps == 0 then from
    else
      var n := Succ(from, |active|);
      if active[n] then n else NextActive(active, n, steps - 1)
  }

  function TickTarget(s: State): (n: int)
    requires Sized(s)
    ensures 0 <= n < TERMINALS
  {
    NextActive(Actives(s.terms), s.next, TERMINALS)
  }

  function Tick(s: State): State
    requires Sized(s) && 0 <= s.terms[TickTarget(s)].programPid < PROCESSES
  {
    var n := TickTarget(s);
    s.(next := n, executing := n,
       mapped := UserPage(s.terms[n].programPid),
       esp0 := StackTop(s.pcbs[s.terms[n].programPid].pid))
  }

  /** write_terminal consumes at most one synchronisation flag before it prints. */
  function Write(s: State): State {
    if s.jammer then s.(jammer := false) else s.(hotjam := false)
  }

  /** read_terminal clears `jammer` once it has seen the end of the line. */
  function ReadLine(s: State): State { s.(jammer := false) }

  // ----- Descriptors -----

  /** The table entry open writes for a directory entry of the given type. */
  function OpenEntry(filetype: int, inode: nat): Fd {
    if filetype == 0 then Fd(RtcOps, 0, 0, true)
    else if filetype == 1 then Fd(DirectoryOps, 0, 0, true)
    else Fd(FileOps, inode, 0, true)
  }

  function FirstClosed(fds: seq<Fd>, from: nat): (fd: nat)
    requires from <= |fds|
    ensures from <= fd <= |fds|
    ensures forall i :: from <= i < fd ==> fds[i].inUse
    ensures fd < |fds| ==> !fds[fd].inUse
    decreases |fds| - from
  {
    if from == |fds| || !fds[from].inUse then from else FirstClosed(fds, from + 1)
  }

  function WithFds(s: State, fds: seq<Fd>): State
    requires InRange(s)
  {
    var p := s.terms[s.executing].programPid;
    s.(pcbs := s.pcbs[p := s.pcbs[p].(fds := fds)])
  }

  function CurrentFds(s: State): seq<Fd>
    requires InRange(s)
  {
    s.pcbs[s.terms[s.executing].programPid].fds
  }

  function Open(s: State, entry: Fd): (State, int)
    requires InRange(s)
  {
    var fd: int := FirstClosed(CurrentFds(s), 2);
    if fd == DESCRIPTORS then (s, -1) else (WithFds(s, CurrentFds(s)[fd := entry]), fd)
  }

  /** file_read moves the position of a descriptor of the pid that get_current_pid guesses. */
  function Advance(s: State, fd: nat, n: nat): State
    requires Sized(s) && fd < DESCRIPTORS
  {
    var p := CurrentPid(s.process);
    var slot := s.pcbs[p].fds[fd];
    s.(pcbs := s.pcbs[p := s.pcbs[p].(fds := s.pcbs[p].fds[fd := slot.(position := slot.position + n)])])
  }

  function Close(s: State, fd: int): (State, int)
    requires InRange(s)
  {
    if fd < 2 || fd > 7 || !CurrentFds(s)[fd].inUse then (s, -1)
    else (WithFds(s, CurrentFds(s)[fd := CLOSED]), 0)
  }

  // ----- Boot -----

  /** After init_terminal and init_PIT, before the first execute; memory is zeroed. */
  function BeforeBoot(): State {
    State(seq(PROCESSES, _ => false),
          [Terminal(true, 0, 0), Terminal(false, -1, -1), Terminal(false, -1, -1)],
          seq(PROCESSES, _ => Pcb(0, 0, seq(DESCRIPTORS, _ => CLOSED))),
          0, 0, 0, false, false, 0, EIGHT_MB)
  }

  function Booted(): State { Execute(BeforeBoot(), Executable).0 }
}
