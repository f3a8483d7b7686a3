/** The timer's round robin: while the set of active terminals stays the same, each of them is
    chosen exactly once in every turn, whatever else happens between the ticks. */
module Scheduling {
  import opened KernelModel
  import opened ProcessForest

  /** The active terminals among the `m` that follow `n`, in cyclic order. */
  function Window(active: seq<bool>, n: int, m: nat): seq<int>
    requires 0 <= n < |active|
    decreases m
  {
    if m == 0 then []
    else
      var n' := Succ(n, |active|);
      (if active[n'] then [n'] else []) + Window(active, n', m - 1)
  }

  /** The choices of `k` consecutive ticks. */
  function Picks(active: seq<bool>, n: int, k: nat): seq<int>
    requires 0 <= n < |active|
    decreases k
  {
    if k == 0 then []
    else
      var n' := NextActive(active, n, |active|);
      [n'] + Picks(active, n', k - 1)
  }

  function Distance(n: int, t: int, size: int): int { if t > n then t - n else t - n + size }

  /** The terminal `j` places after `n`, going round at most once. */
  function After(n: int, j: int, size: int): int { if n + j < size then n + j else n + j - size }

  /** The choice is the first active terminal after `n`, going upwards and round. */
  lemma {:induction false} NextIsFirst(active: seq<bool>, n: int, steps: nat) returns (k: nat)
    requires 0 <= n < |active| && steps <= |active|
    ensures k <= steps && NextActive(active, n, steps) == After(n, k, |active|)
    ensures forall j :: 1 <= j < k ==> !active[After(n, j, |active|)]
    ensures k < steps ==> k >= 1 && active[After(n, k, |active|)]
    decreases steps
  {
    k := 0;
    if steps > 0 {
      var n' := After(n, 1, |active|);
      k := 1;
      if !active[n'] {
        var k' := NextIsFirst(active, n', steps - 1);
        k := k' + 1;
        assert After(n, k, |active|) == After(n', k', |active|);
        forall j | 1 <= j < k
          ensures !active[After(n, j, |active|)]
        {
          assert j > 1 ==> After(n, j, |active|) == After(n', j - 1, |active|);
        }
      }
    }
  }

  lemma {:induction false} FirstOfWindow(active: seq<bool>, n: int, m: nat, steps: nat)
    requires 0 <= n < |active| && m <= steps && Window(active, n, m) != []
    ensures NextActive(active, n, steps) == Window(active, n, m)[0]
    decreases m
  {
    var n' := Succ(n, |active|);
    if !active[n'] {
      FirstOfWindow(active, n', m - 1, steps - 1);
    }
  }

  lemma {:induction false} PicksAreWindow(active: seq<bool>, n: int, m: nat)
    requires 0 <= n < |active| && m <= |active|
    ensures Picks(active, n, |Window(active, n, m)|) == Window(active, n, m)
    decreases m
  {
    if m > 0 {
      var n' := Succ(n, |active|);
      var w := Window(active, n, m);
      var w' := Window(active, n', m - 1);
      PicksAreWindow(active, n', m - 1);
      if active[n'] {
        assert w == [n'] + w';
      } else if w' != [] {
        FirstOfWindow(active, n', m - 1, |active|);
        FirstOfWindow(active, n', m - 1, |active| - 1);
        assert NextActive(active, n, |active|) == NextActive(active, n', |active|);
      }
    }
  }

  lemma DistanceStep(n: int, t: int, size: int)
    requires 0 <= n < size && 0 <= t < size
    ensures Distance(n, t, size) == if t == Succ(n, size) then 1 else 1 + Distance(Succ(n, size), t, size)
    ensures 1 <= Distance(n, t, size) <= size && Distance(n, n, size) == size
  {
  }

  lemma {:induction false} WindowIsSound(active: seq<bool>, n: int, m: nat, t: int)
    requires 0 <= n < |active| && m <= |active| && t in Window(active, n, m)
    ensures 0 <= t < |active| && active[t] && Distance(n, t, |active|) <= m
    decreases m
  {
    var n' := Succ(n, |active|);
    if t in Window(active, n', m - 1) {
      WindowIsSound(active, n', m - 1, t);
    }
    DistanceStep(n, t, |active|);
  }

  lemma {:induction false} WindowIsComplete(active: seq<bool>, n: int, m: nat, t: int)
    requires 0 <= n < |active| && 0 <= t < |active| && active[t] && Distance(n, t, |active|) <= m
    ensures t in Window(active, n, m)
    decreases m
  {
    var n' := Succ(n, |active|);
    DistanceStep(n, t, |active|);
    if t != n' {
      WindowIsComplete(active, n', m - 1, t);
    }
  }

  ghost predicate Distinct(w: seq<int>) { forall i, j :: 0 <= i < j < |w| ==> w[i] != w[j] }

  lemma DistinctCons(x: int, w: seq<int>)
    requires Distinct(w) && x !in w
    ensures Distinct([x] + w)
  {
  }

  /** Less than a full turn does not come back to where it started. */
  lemma NotRevisited(active: seq<bool>, n: int, m: nat)
    requires 0 <= n < |active| && m < |active|
    ensures n !in Window(active, n, m)
  {
    DistanceStep(n, n, |active|);
    if n in Window(active, n, m) {
      WindowIsSound(active, n, m, n);
    }
  }

  lemma {:induction false} WindowIsDistinct(active: seq<bool>, n: int, m: nat)
    requires 0 <= n < |active| && m <= |active|
    ensures Distinct(Window(active, n, m))
    decreases m
  {
    if m > 0 {
      var n' := Succ(n, |active|);
      var w' := Window(active, n', m - 1);
      WindowIsDistinct(active, n', m - 1);
      NotRevisited(active, n', m - 1);
      if active[n'] {
        DistinctCons(n', w');
      } else {
        assert [] + w' == w';
      }
    }
  }

  ghost function ActiveSet(active: seq<bool>): set<int> {
    set t | 0 <= t < |active| && active[t]
  }

  ghost predicate EachOnce(picks: seq<int>, targets: set<int>) {
    Distinct(picks) && forall t :: t in targets <==> t in picks
  }

  lemma {:induction false} EachOnceCount(picks: seq<int>, targets: set<int>)
    requires EachOnce(picks, targets)
    ensures |picks| == |targets|
  {
    if picks == [] {
      assert forall t :: t in targets ==> t in picks;
      assert targets == {};
    } else {
      var last := picks[|picks| - 1];
      var rest := picks[..|picks| - 1];
      assert picks == rest + [last];
      forall t
        ensures t in targets - {last} <==> t in rest
      {
      }
      EachOnceCount(rest, targets - {last});
    }
  }

  /** For any number of terminals: one turn of as many ticks as there are active terminals. */
  lemma TurnIsFair(active: seq<bool>, n: int)
    requires 0 <= n < |active|
    ensures EachOnce(Picks(active, n, |ActiveSet(active)|), ActiveSet(active))
  {
    var w := Window(active, n, |active|);
    WindowIsDistinct(active, n, |active|);
    forall t
      ensures t in ActiveSet(active) <==> t in w
    {
      if t in w {
        WindowIsSound(active, n, |active|, t);
      } else if t in ActiveSet(active) {
        DistanceStep(n, t, |active|);
        WindowIsComplete(active, n, |active|, t);
      }
    }
    EachOnceCount(w, ActiveSet(active));
    PicksAreWindow(active, n, |active|);
  }

  // ----- Fairness of kernel runs -----

  /** No event of the run opens a terminal. */
  ghost predicate NoOpening(s: State, es: seq<Event>)
    requires AllowedRun(s, es)
    decreases |es|
  {
    es != [] ==>
      && (es[0].SwitchKey? ==> s.terms[es[0].t].active)
      && NoOpening(Step(s, es[0]), es[1..])
  }

  function Ticks(es: seq<Event>): nat {
    if es == [] then 0 else (if es[0].TimerTick? then 1 else 0) + Ticks(es[1..])
  }

  /** The terminals that the ticks of a run hand the processor to. */
  ghost function Chosen(s: State, es: seq<Event>): seq<int>
    requires AllowedRun(s, es)
    decreases |es|
  {
    if es == [] then []
    else
      var s' := Step(s, es[0]);
      (if es[0].TimerTick? then [s'.executing] else []) + Chosen(s', es[1..])
  }

  /** Only opening a terminal changes who is active; only a tick moves the scheduler. */
  lemma StepLeavesActives(s: State, e: Event)
    requires Inv(s) && Allowed(s, e) && (e.SwitchKey? ==> s.terms[e.t].active)
    ensures Actives(Step(s, e).terms) == Actives(s.terms)
    ensures !e.TimerTick? ==> Step(s, e).next == s.next
    ensures e.TimerTick? ==> Step(s, e).next == Step(s, e).executing == TickTarget(s)
  {
    var x := s.executing;
    match e
    case ExecuteCall(image) =>
      ActivateActive(s);
      ActivesKept(s.terms, x, Step(s, e).terms[x]);
    case HaltCall =>
      if s.terms[x].programPid == s.terms[x].basePid {
        RestartState(s);
      }
      ActivesKept(s.terms, x, Step(s, e).terms[x]);
    case _ =>
  }

  lemma {:induction false} ChosenArePicks(s: State, es: seq<Event>)
    requires Inv(s) && AllowedRun(s, es) && NoOpening(s, es)
    ensures Chosen(s, es) == Picks(Actives(s.terms), s.next, Ticks(es))
    decreases |es|
  {
    if es != [] {
      StepLeavesActives(s, es[0]);
      StepKeeps(s, es[0]);
      ChosenArePicks(Step(s, es[0]), es[1..]);
    }
  }

  /** Any stretch of a run with as many ticks as active terminals, and no terminal opened,
      gives each active terminal the processor exactly once. */
  lemma RoundRobinIsFair(s: State, es: seq<Event>)
    requires Inv(s) && AllowedRun(s, es) && NoOpening(s, es)
    requires Ticks(es) == |ActiveSet(Actives(s.terms))|
    ensures EachOnce(Chosen(s, es), ActiveSet(Actives(s.terms)))
  {
    ChosenArePicks(s, es);
    TurnIsFair(Actives(s.terms), s.next);
  }
}
