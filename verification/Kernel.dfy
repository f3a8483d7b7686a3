/** The kernel's own form: global tables updated in place by system calls and interrupt handlers.
    Every method is proved to do to the tables what `KernelModel` does to the value. */
module Kernel {
  import opened Memory
  import opened KernelModel
  import opened Commands
  import opened FileSystem
  import opened Directory
  import opened Programs

  /** A pointer to a C string, without its terminator. */
  datatype Text = Null | Chars(chars: seq<Byte>)

  ghost predicate Terminated(text: Text) { text.Chars? ==> NUL !in text.chars }

  const SHELL := Bytes("shell")

  lemma ShellSplits()
    ensures |SHELL| == 5 && NUL !in SHELL && SplitsInto(SHELL, SHELL, [])
  {
    WordSplits(SHELL);
  }

  lemma {:induction false} CountSuffix(p: seq<bool>, i: nat)
    requires i < |p|
    ensures CountFalse(p[..i + 1]) == CountFalse(p[..i]) + if p[i] then 0 else 1
  {
    assert p[..i + 1][..i] == p[..i];
  }

  lemma CountThree(p: seq<bool>)
    requires |p| == 3
    ensures CountFalse(p) == (if p[0] then 0 else 1) + (if p[1] then 0 else 1) + if p[2] then 0 else 1
  {
    assert p[..3] == p && p[..0] == [];
    CountSuffix(p, 0);
    CountSuffix(p, 1);
    CountSuffix(p, 2);
  }

  class Machine {
    const volume: Volume
    const process: array<bool>
    const terms: array<Terminal>
    const pcbs: array<Pcb>
    var visible: int
    var executing: int
    var next: int
    var jammer: bool
    var hotjam: bool
    var mapped: int
    var esp0: int

    ghost function View(): State
      reads this, process, terms, pcbs
    {
      State(process[..], terms[..], pcbs[..], visible, executing, next, jammer, hotjam, mapped, esp0)
    }

    ghost predicate Valid()
      reads this, process, terms, pcbs
    {
      Sized(View()) && NamesFit(volume)
    }

    /** What execute finds under the name "shell", with `stale` in the array that it does not
        initialise. */
    ghost function Shell(stale: seq<Byte>): Image
      requires NamesFit(volume) && |stale| == 4
    {
      ImageOf(volume, SHELL, stale)
    }

    /** init_terminal and init_PIT; the first execute comes after them. */
    constructor (volume: Volume)
      requires NamesFit(volume)
      ensures Valid() && this.volume == volume
      ensures fresh(process) && fresh(terms) && fresh(pcbs)
      ensures View() == BeforeBoot()
    {
      this.volume := volume;
      process := new bool[PROCESSES](_ => false);
      terms := new Terminal[TERMINALS](i => if i == 0 then Terminal(true, 0, 0) else Terminal(false, -1, -1));
      pcbs := new Pcb[PROCESSES](_ => Pcb(0, 0, seq(DESCRIPTORS, _ => CLOSED)));
      visible, executing, next := 0, 0, 0;
      jammer, hotjam := false, false;
      mapped, esp0 := 0, EIGHT_MB;
    }

    method GetPid() returns (pid: int)
      requires Valid()
      modifies process
      ensures var f := FirstFalse(old(process[..]));
        if f == PROCESSES then pid == -1 && process[..] == old(process[..])
        else pid == f && process[..] == old(process[..])[f := true]
    {
      for i := 0 to PROCESSES
        invariant process[..] == old(process[..])
        invariant forall j :: 0 <= j < i ==> process[j]
      {
        if !process[i] {
          assert !process[..][i];
          process[i] := true;
          return i;
        }
      }
      return -1;
    }

    method GetCurrentPid() returns (pid: int)
      requires Valid()
      ensures pid == CurrentPid(process[..])
    {
      for i := 0 to PROCESSES
        invariant forall j :: 0 <= j < i ==> process[j]
      {
        if !process[i] {
          assert !process[..][i];
          if i == 0 {
            return i;
          } else {
            return i - 1;
          }
        }
      }
      return 5;
    }

    method MapPhysicalMemory(pid: int)
      modifies this`mapped
      ensures mapped == UserPage(pid)
    {
      var physicalAddr := EIGHT_MB + pid * 0x400000;
      mapped := physicalAddr;
    }

    /** The reservation check of execute: pids still free. */
    method RemainedProcesses() returns (remained: int)
      requires Valid()
      ensures remained == CountFalse(process[..])
    {
      remained := PROCESSES;
      for i := 0 to PROCESSES
        invariant remained == PROCESSES - i + CountFalse(process[..i])
      {
        CountSuffix(process[..], i);
        assert process[..][..i] == process[..i] && process[..][..i + 1] == process[..i + 1];
        remained := remained - if process[i] then 1 else 0;
      }
      assert process[..PROCESSES] == process[..];
    }

    /** execute, from the reservation check on. */
    method LaunchImage() returns (outcome: Outcome, printed: string)
      requires Valid()
      modifies this, process, terms, pcbs
      ensures Valid() && (View(), outcome) == Launch(old(View()))
      ensures printed == if outcome == Failed then TOO_MANY else ""
    {
      var terminalNum := (if terms[0].active then 1 else 0) + (if terms[1].active then 1 else 0)
                         + (if terms[2].active then 1 else 0);
      CountThree(Actives(terms[..]));
      if terminalNum < 3 {
        var remained := RemainedProcesses();
        if 3 - terminalNum >= remained {
          return Failed, TOO_MANY;
        }
      }
      var pid := GetPid();
      if pid == -1 {
        return Failed, TOO_MANY;
      }
      MapPhysicalMemory(pid);
      var fds := pcbs[pid].fds;
      pcbs[pid] := Pcb(pid, terms[executing].programPid, fds[0 := STDIN][1 := STDOUT]);
      terms[executing] := terms[executing].(programPid := pid);
      esp0 := EIGHT_MB - EIGHT_KB * pid - 4;
      outcome, printed := Started(pid), "";
    }

    /** execute.  A name of 32 characters or more does not fit the array it is copied into, and
        nothing is promised then. */
    method ExecuteText(command: Text, stale: seq<Byte>) returns (outcome: Outcome, printed: string)
      requires Valid() && Terminated(command) && |stale| == 4
      modifies this, process, terms, pcbs
      ensures Valid()
      ensures old(jammer && !hotjam) ==> View() == old(View()) && outcome == Dropped && printed == ""
      ensures !old(jammer && !hotjam) && (command.Null? || |command.chars| > 128) ==>
                View() == old(View()) && outcome == Failed && printed == ""
      ensures command.Chars? && |command.chars| <= 128 ==>
        forall name, arg :: SplitsInto(command.chars, name, arg) && |name| <= 31 ==>
          (View(), outcome) == Execute(old(View()), ImageOf(volume, name, stale)) &&
          printed == ExecutePrints(old(View()), ImageOf(volume, name, stale))
    {
      if jammer && !hotjam {
        return Dropped, "";
      }
      if command.Null? {
        return Failed, "";
      }
      if |command.chars| > 128 {
        return Failed, "";
      }
      var cmd, argument := Split(command.chars);
      forall name, arg | SplitsInto(command.chars, name, arg)
        ensures name == cmd
      {
        SplitIsUnique(command.chars, cmd, argument, name, arg);
      }
      SplitParts(command.chars, cmd, argument);
      if !terms[executing].active {
        terms[executing] := terms[executing].(active := true);
      }
      assert View() == Activate(old(View()));
      var image := CheckImage(volume, cmd, stale);
      if image == Missing {
        return Failed, "";
      }
      if image == NotExecutable {
        return Failed, NOT_EXE;
      }
      outcome, printed := LaunchImage();
    }

    method ExecuteShell(stale: seq<Byte>) returns (outcome: Outcome, printed: string)
      requires Valid() && |stale| == 4
      modifies this, process, terms, pcbs
      ensures Valid() && (View(), outcome) == Execute(old(View()), Shell(stale))
      ensures printed == ExecutePrints(old(View()), Shell(stale))
    {
      ShellSplits();
      outcome, printed := ExecuteText(Chars(SHELL), stale);
    }

    method ClearFds(pid: int)
      requires Valid() && 0 <= pid < PROCESSES
      modifies pcbs
      ensures pcbs[..] == old(pcbs[..])[pid := old(pcbs[pid]).(fds := seq(DESCRIPTORS, _ => CLOSED))]
    {
      for i := 0 to DESCRIPTORS
        invariant |pcbs[pid].fds| == DESCRIPTORS
        invariant forall j :: 0 <= j < i ==> pcbs[pid].fds[j] == CLOSED
        invariant pcbs[..] == old(pcbs[..])[pid := old(pcbs[pid]).(fds := pcbs[pid].fds)]
      {
        pcbs[pid] := pcbs[pid].(fds := pcbs[pid].fds[i := Fd(NoOps, 0, 0, false)]);
      }
      assert pcbs[pid].fds == seq(DESCRIPTORS, _ => CLOSED);
    }

    method HaltCall(stale: seq<Byte>) returns (printed: string)
      requires Valid() && InRange(View()) && |stale| == 4
      modifies this, process, terms, pcbs
      ensures Valid() && View() == Halt(old(View()), Shell(stale))
      ensures printed == HaltPrints(old(View()), Shell(stale))
    {
      printed := "";
      var currPid := terms[executing].programPid;
      if currPid == terms[executing].basePid {
        process[currPid] := false;
        terms[executing] := terms[executing].(active := false);
        hotjam := true;
        assert View() == ReleaseBase(old(View()));
        var outcome;
        outcome, printed := ExecuteShell(stale);
        if outcome.Started? {
          return;
        }
      }
      LeaveToParent(currPid);
    }

    /** halt from the look-up of the parent on. */
    method LeaveToParent(currPid: int)
      requires Valid() && 0 <= currPid < PROCESSES && 0 <= pcbs[currPid].parentId < PROCESSES
      requires 0 <= terms[executing].programPid < PROCESSES
      modifies this, process, terms, pcbs
      ensures Valid() && View() == ReturnToParent(old(View()), currPid)
    {
      var parent := pcbs[currPid].parentId;
      var parentPid := pcbs[parent].pid;
      process[terms[executing].programPid] := false;
      terms[executing] := terms[executing].(programPid := parentPid);
      MapPhysicalMemory(parentPid);
      ClearFds(currPid);
      esp0 := EIGHT_MB - EIGHT_KB * parentPid - 4;
    }

    method SwitchTerminal(t: int, stale: seq<Byte>) returns (printed: string)
      requires Valid() && 0 <= t < TERMINALS && |stale| == 4
      modifies this, process, terms, pcbs
      ensures Valid() && View() == Switch(old(View()), t, Shell(stale))
      ensures printed == SwitchPrints(old(View()), t, Shell(stale))
    {
      printed := "";
      if t == visible {
        return;
      }
      if terms[t].active {
        jammer := true;
        visible := t;
        return;
      }
      visible := t;
      terms[visible] := terms[visible].(active := true);
      var p := GetCurrentPid();
      terms[visible] := terms[visible].(basePid := p + 1);
      p := GetCurrentPid();
      terms[visible] := terms[visible].(programPid := p + 1);
      executing := visible;
      assert View() == Reveal(old(View()), t);
      var outcome;
      outcome, printed := ExecuteShell(stale);
    }

    /** The round-robin loop of the timer handler. */
    method ChooseNext()
      requires Valid()
      modifies this`next
      ensures Valid() && next == old(TickTarget(View()))
    {
      ghost var active := Actives(terms[..]);
      var i := 0;
      while i < 3
        invariant 0 <= i <= 3
        invariant 0 <= next < TERMINALS
        invariant NextActive(active, old(next), 3) == NextActive(active, next, 3 - i)
        modifies this`next
      {
        next := (next + 1) % 3;
        if terms[next].active {
          break;
        }
        i := i + 1;
      }
    }

    method PitHandler()
      requires Valid() && 0 <= terms[TickTarget(View())].programPid < PROCESSES
      modifies this
      ensures Valid() && View() == Tick(old(View()))
    {
      ChooseNext();
      executing := next;
      var newPcb := pcbs[terms[executing].programPid];
      MapPhysicalMemory(terms[executing].programPid);
      esp0 := EIGHT_MB - EIGHT_KB * newPcb.pid - 4;
    }

    method OpenFile(filename: Text) returns (fd: int)
      requires Valid() && InRange(View()) && Terminated(filename)
      modifies pcbs
      ensures Valid()
      ensures filename.Null? ==> fd == -1 && View() == old(View())
      ensures filename.Chars? ==>
        match FindEntry(volume, filename.chars, 0)
        case NotFound => fd == -1 && View() == old(View())
        case Found(_, filetype, inode) => (View(), fd) == Open(old(View()), OpenEntry(filetype, inode))
    {
      if filename.Null? {
        return -1;
      }
      var name := filename.chars + [NUL];
      var entry := ReadDentryByName(volume, name);
      CStringPrefix(name, |filename.chars|);
      LookupIsUnique(volume, filename.chars, entry, FindEntry(volume, filename.chars, 0));
      if entry.NotFound? {
        return -1;
      }
      var p := terms[executing].programPid;
      fd := -1;
      var i := 2;
      while i < 8
        invariant 2 <= i <= 8
        invariant fd == -1
        invariant forall j :: 2 <= j < i ==> pcbs[p].fds[j].inUse
      {
        if !pcbs[p].fds[i].inUse {
          fd := i;
          break;
        }
        i := i + 1;
      }
      if fd == -1 {
        return -1;
      }
      var slot;
      if entry.filetype == 0 {
        slot := Fd(RtcOps, 0, 0, true);
      } else if entry.filetype == 1 {
        slot := Fd(DirectoryOps, 0, 0, true);
      } else {
        slot := Fd(FileOps, entry.inode, 0, true);
      }
      assert fd == FirstClosed(old(CurrentFds(View())), 2);
      pcbs[p] := pcbs[p].(fds := pcbs[p].fds[fd := slot]);
    }

    method CloseFile(fd: int) returns (r: int)
      requires Valid() && InRange(View())
      modifies pcbs
      ensures Valid() && (View(), r) == Close(old(View()), fd)
    {
      if fd < 2 || fd > 7 {
        return -1;
      }
      var p := terms[executing].programPid;
      if !pcbs[p].fds[fd].inUse {
        return -1;
      }
      pcbs[p] := pcbs[p].(fds := pcbs[p].fds[fd := Fd(NoOps, 0, 0, false)]);
      return 0;
    }

    /** file_read, with the control block of the guessed pid. */
    method FileReadCall(fd: nat, buf: array?<Byte>, nbytes: nat) returns (n: int)
      requires Valid() && fd < DESCRIPTORS
      requires var slot := pcbs[CurrentPid(process[..])].fds[fd];
        buf != null && slot.inode < |volume.inodes| ==>
          ReadEnd(volume.inodes[slot.inode], slot.position, nbytes) - slot.position <= buf.Length
      modifies pcbs, buf
      ensures Valid()
      ensures var slot := old(pcbs[CurrentPid(process[..])].fds[fd]);
        && (n >= 0 <==> buf != null && ReadSucceeds(volume, slot.inode, slot.position, nbytes))
        && (n < 0 ==> n == -1 && View() == old(View()))
        && (n >= 0 ==>
              var node := volume.inodes[slot.inode];
              && n == ReadEnd(node, slot.position, nbytes) - slot.position
              && View() == KernelModel.Advance(old(View()), fd, n)
              && Stored(old(buf[..]), buf[..], 0, Flat(volume, node, slot.position, n)))
    {
      if buf == null {
        return -1;
      }
      var availablePid := GetCurrentPid();
      var slot := pcbs[availablePid].fds[fd];
      n := ReadData(volume, slot.inode, slot.position, buf, 0, nbytes);
      if n != -1 {
        pcbs[availablePid] := pcbs[availablePid].(fds :=
          pcbs[availablePid].fds[fd := slot.(position := slot.position + n)]);
      }
    }
  }
}
