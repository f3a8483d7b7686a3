/** As long as only the first terminal is used, the pid table is a stack, and the pid that the
    read calls guess is the pid that the open and close calls use. */
module SingleTerminal {
  import opened KernelModel
  import opened ProcessForest

  ghost predicate Stack(s: State, k: nat) {
    && Inv(s)
    && 1 <= k <= PROCESSES
    && s.executing == 0 && s.visible == 0
    && !s.terms[1].active && !s.terms[2].active
    && s.terms[0].programPid == k - 1
    && (forall p :: 0 <= p < PROCESSES ==> (s.process[p] <==> p < k))
    && forall p :: 0 < p < k ==> s.pcbs[p].parentId == p - 1
  }

  predicate Solo(es: seq<Event>) {
    forall i :: 0 <= i < |es| && es[i].SwitchKey? ==> es[i].t == 0
  }

  lemma StackFirstFree(s: State, k: nat)
    requires Stack(s, k)
    ensures FirstFalse(s.process) == k
    ensures CurrentPid(s.process) == s.terms[0].programPid
  {
    var f := FirstFalse(s.process);
    assert f < PROCESSES ==> !s.process[f];
    assert k < PROCESSES ==> !s.process[k];
  }

  lemma StackStep(s: State, k: nat, e: Event) returns (k': nat)
    requires Stack(s, k) && (e.SwitchKey? ==> e.t == 0)
    ensures Allowed(s, e) && Stack(Step(s, e), k')
  {
    assert Allowed(s, e);
    StepKeeps(s, e);
    if e.ExecuteCall? {
      k' := StackExecute(s, k, e.image);
    } else if e.HaltCall? {
      k' := StackHalt(s, k);
    } else {
      k' := k;
      TickKeeps(s);
    }
  }

  lemma StackExecute(s: State, k: nat, image: Image) returns (k': nat)
    requires Stack(s, k) && Inv(Execute(s, image).0)
    ensures Stack(Execute(s, image).0, k')
  {
    ActivateActive(s);
    StackFirstFree(s, k);
    k' := if Execute(s, image).1.Started? then k + 1 else k;
  }

  lemma StackHalt(s: State, k: nat) returns (k': nat)
    requires Stack(s, k) && Inv(Halt(s, Executable))
    ensures Stack(Halt(s, Executable), k')
  {
    if k == 1 {
      RestartState(s);
      RestartedPid(s);
      k' := k;
    } else {
      ParentPid(s, k);
      k' := k - 1;
    }
  }

  lemma RestartedPid(s: State)
    requires Stack(s, 1)
    ensures Halt(s, Executable).process == s.process
    ensures Halt(s, Executable).terms == s.terms
    ensures Halt(s, Executable).executing == Halt(s, Executable).visible == 0
  {
    RestartState(s);
    var r := Activate(ReleaseBase(s));
    assert !r.process[0];
    assert FirstFalse(r.process) == 0;
  }

  lemma ParentPid(s: State, k: nat)
    requires Stack(s, k) && k >= 2
    ensures s.pcbs[k - 2].pid == k - 2
  {
    var place, height :| Forest(s, place, height);
    assert PidPlaced(s, place, height, k - 2);
  }

  /** Every run that never leaves the first terminal is allowed and keeps the stack shape. */
  lemma {:induction false} SoloRun(s: State, k: nat, es: seq<Event>) returns (k': nat)
    requires Stack(s, k) && Solo(es)
    ensures AllowedRun(s, es) && Stack(Run(s, es), k')
    decreases |es|
  {
    k' := k;
    if es != [] {
      var k1 := StackStep(s, k, es[0]);
      k' := SoloRun(Step(s, es[0]), k1, es[1..]);
    }
  }

  /** Single-terminal runs from boot: occupied pids are 0..k-1, each started by the one below,
      and get_current_pid names the running program. */
  lemma SoloRunFromBoot(es: seq<Event>) returns (k: nat)
    requires Solo(es)
    ensures AllowedRun(Booted(), es)
    ensures Stack(Run(Booted(), es), k)
    ensures CurrentPid(Run(Booted(), es).process) == Run(Booted(), es).terms[0].programPid == k - 1
  {
    BootEstablishes();
    k := SoloRun(Booted(), 1, es);
    StackFirstFree(Run(Booted(), es), k);
  }
}
