/** Blinking characters as values: the countdown automaton of one node, and the list of nodes with
    the arena slots they occupy. */
module BlinkModel {
  import opened Arithmetic

  const WORD: int := 65536
  const ARENA: nat := 2000

  type Word = w: int | 0 <= w < WORD

  datatype Node = Node(location: Word, onChar: Word, offChar: Word, onLength: Word, offLength: Word,
                       countdown: Word, status: Word)

  const FREE := Node(0, 0, 0, 0, 0, 0, 0)

  // ----- One node -----

  predicate IsOn(n: Node) { n.status % 2 == 1 }

  /** A 16-bit decrement, and the signed test that follows it. */
  function Decremented(w: Word): Word { if w == 0 then WORD - 1 else w - 1 }

  predicate Positive(w: Word) { 0 < w < 32768 }

  function FlipLowBit(w: Word): Word { if w % 2 == 1 then w - 1 else w + 1 }

  /** One timer tick: count down, and switch over when the count is used up. */
  function TickNode(n: Node): Node {
    var c := Decremented(n.countdown);
    if Positive(c) then n.(countdown := c)
    else n.(countdown := if IsOn(n) then n.offLength else n.onLength, status := FlipLowBit(n.status))
  }

  function TickNodes(n: Node, t: nat): Node {
    if t == 0 then n else TickNode(TickNodes(n, t - 1))
  }

  /** How many ticks a phase of the given length lasts, for every 16-bit length. */
  function PhaseLength(length: Word): (p: nat)
    ensures p > 0
  {
    if 1 <= length <= 32768 then length else 1
  }

  /** A node as `add` creates it: on, with a full count. */
  predicate Fresh(n: Node) { n.status == 1 && n.countdown == n.onLength }

  /** Position `r` of the period: the state of the automaton. */
  ghost predicate AtPhase(start: Node, n: Node, r: nat) {
    var a, b := PhaseLength(start.onLength), PhaseLength(start.offLength);
    && r < a + b
    && n == start.(countdown := n.countdown, status := n.status)
    && (if r < a then n.status == 1 && n.countdown == start.onLength - r
        else n.status == 0 && n.countdown == start.offLength - (r - a))
  }

  lemma TickPhase(start: Node, n: Node, r: nat)
    requires Fresh(start) && AtPhase(start, n, r)
    ensures AtPhase(start, TickNode(n), NextPosition(r, Period(start)))
  {
  }

  function Period(n: Node): (p: nat)
    ensures p > 0
  {
    PhaseLength(n.onLength) + PhaseLength(n.offLength)
  }

  function NextPosition(r: nat, period: nat): nat { if r + 1 == period then 0 else r + 1 }

  /** The position in the period after `t` ticks. */
  function Position(t: nat, period: nat): nat {
    if t == 0 then 0 else NextPosition(Position(t - 1, period), period)
  }

  lemma {:induction false} PositionQuotient(t: nat, period: nat) returns (q: nat)
    requires period > 0
    ensures t == period * q + Position(t, period) && Position(t, period) < period
  {
    q := 0;
    if t > 0 {
      q := PositionQuotient(t - 1, period);
      if Position(t, period) == 0 {
        q := q + 1;
      }
    }
  }

  lemma PositionIsRemainder(t: nat, period: nat)
    requires period > 0
    ensures Position(t, period) == t % period
  {
    var q := PositionQuotient(t, period);
    ModIs(t, period, q, Position(t, period));
  }

  /** After t ticks a fresh node is at position t mod (a + b) of its period: it shows its on
      character exactly while that position is below a. */
  lemma {:induction false} BlinkAutomaton(start: Node, t: nat)
    requires Fresh(start)
    ensures AtPhase(start, TickNodes(start, t), Position(t, Period(start)))
    ensures IsOn(TickNodes(start, t)) <==> Position(t, Period(start)) < PhaseLength(start.onLength)
  {
    if t > 0 {
      BlinkAutomaton(start, t - 1);
      TickPhase(start, TickNodes(start, t - 1), Position(t - 1, Period(start)));
    }
  }

  // ----- The list -----

  /** The arena's nodes, and the slots of the listed ones from the front of the list on. */
  datatype State = State(order: seq<nat>, nodes: seq<Node>)

  /** The listed slots are distinct and are exactly the slots with a nonzero location. */
  ghost predicate Inv(s: State) {
    && |s.nodes| == ARENA
    && (forall i :: 0 <= i < |s.order| ==> s.order[i] < ARENA && s.nodes[s.order[i]].location != 0)
    && (forall i, j :: 0 <= i < j < |s.order| ==> s.order[i] != s.order[j])
    && (forall p :: 0 <= p < ARENA && s.nodes[p].location != 0 ==> p in s.order)
  }

  ghost function Contents(s: State): seq<Node>
    requires Inv(s)
  {
    seq(|s.order|, i requires 0 <= i < |s.order| => s.nodes[s.order[i]])
  }

  /** The first free slot, or the size of the arena. */
  function FirstFree(nodes: seq<Node>, from: nat): (p: nat)
    requires from <= |nodes|
    ensures from <= p <= |nodes|
    ensures forall i :: from <= i < p ==> nodes[i].location != 0
    ensures p < |nodes| ==> nodes[p].location == 0
    decreases |nodes| - from
  {
    if from == |nodes| || nodes[from].location == 0 then from else FirstFree(nodes, from + 1)
  }

  /** The position of the first listed node with the given location, or the length of the list. */
  ghost function FirstMatch(s: State, location: Word, from: nat): (i: nat)
    requires Inv(s) && from <= |s.order|
    ensures from <= i <= |s.order|
    ensures forall k :: from <= k < i ==> s.nodes[s.order[k]].location != location
    ensures i < |s.order| ==> s.nodes[s.order[i]].location == location
    decreases |s.order| - from
  {
    if from == |s.order| || s.nodes[s.order[from]].location == location then from
    else FirstMatch(s, location, from + 1)
  }

  function Started(n: Node): Node { n.(status := 1, countdown := n.onLength) }

  predicate CanAdd(s: State, n: Node)
    requires |s.nodes| == ARENA
  {
    n.location < ARENA && FirstFree(s.nodes, 0) < ARENA
  }

  function Add(s: State, n: Node): State
    requires |s.nodes| == ARENA && CanAdd(s, n)
  {
    var p := FirstFree(s.nodes, 0);
    State([p] + s.order, s.nodes[p := Started(n)])
  }

  ghost function Remove(s: State, location: Word): State
    requires Inv(s) && FirstMatch(s, location, 0) < |s.order|
  {
    var i := FirstMatch(s, location, 0);
    State(Without(s.order, i), s.nodes[s.order[i] := FREE])
  }

  function Synced(from: Node, to: Node): Node {
    to.(onLength := from.onLength, offLength := from.offLength, countdown := from.countdown, status := from.status)
  }

  ghost function Sync(s: State, from: Word, to: Word): State
    requires Inv(s) && FirstMatch(s, from, 0) < |s.order| && FirstMatch(s, to, 0) < |s.order|
  {
    var a, b := s.order[FirstMatch(s, from, 0)], s.order[FirstMatch(s, to, 0)];
    s.(nodes := s.nodes[b := Synced(s.nodes[a], s.nodes[b])])
  }

  ghost function TickAll(s: State): State {
    s.(nodes := seq(|s.nodes|, p requires 0 <= p < |s.nodes| =>
      if p in s.order then TickNode(s.nodes[p]) else s.nodes[p]))
  }

  // ----- What the operations mean for the list -----

  predicate SameTiming(m: Node, n: Node) {
    m.onLength == n.onLength && m.offLength == n.offLength && m.countdown == n.countdown && m.status == n.status
  }

  /** A started node is the caller's, switched on, with its whole on length to go. */
  predicate StartsAs(m: Node, n: Node) {
    && m.location == n.location && m.onChar == n.onChar && m.offChar == n.offChar
    && m.onLength == n.onLength && m.offLength == n.offLength
    && m.countdown == n.onLength && m.status == 1
  }

  /** Adding pushes a started node on the front, and needs a nonzero location to be a list again. */
  lemma AddMeaning(s: State, n: Node)
    requires Inv(s) && CanAdd(s, n)
    ensures Inv(Add(s, n)) <==> n.location != 0
    ensures n.location != 0 ==> Contents(Add(s, n)) == [Started(n)] + Contents(s)
    ensures StartsAs(Started(n), n)
  {
    var p, s' := FirstFree(s.nodes, 0), Add(s, n);
    assert p !in s.order;
    assert s'.order[0] == p;
    if n.location != 0 {
      forall i, j | 0 <= i < j < |s'.order|
        ensures s'.order[i] != s'.order[j]
      {
        assert s'.order[j] == s.order[j - 1];
      }
      forall q | 0 <= q < ARENA && s'.nodes[q].location != 0
        ensures q in s'.order
      {
        assert q == p || q in s.order;
      }
      assert Inv(s');
      assert Contents(s') == [Started(n)] + Contents(s);
    }
  }

  /** Adding fails only on a bad location or when every slot of the arena is listed. */
  lemma FullIff(s: State)
    requires Inv(s)
    ensures FirstFree(s.nodes, 0) == ARENA <==> |s.order| == ARENA
  {
    AllListedIff(s.order, ARENA);
    var p := FirstFree(s.nodes, 0);
    assert p < ARENA ==> p !in s.order;
  }

  /** An add succeeds exactly for a location on the screen while fewer nodes are listed than the
      screen has cells. */
  lemma CanAddIff(s: State, n: Node)
    requires Inv(s)
    ensures CanAdd(s, n) <==> n.location < 80 * 25 && |s.order| < 80 * 25
  {
    FullIff(s);
    AllListedIff(s.order, ARENA);
    OrderBounded(s.order, ARENA);
  }

  lemma OrderBounded(order: seq<nat>, n: nat)
    requires forall i :: 0 <= i < |order| ==> order[i] < n
    requires forall i, j :: 0 <= i < j < |order| ==> order[i] != order[j]
    ensures |order| <= n
  {
    SlotsCount(order);
    if Slots(order) != SlotsBelow(n) {
      ProperSubsetSmaller(Slots(order), SlotsBelow(n));
    }
  }

  lemma AllListedIff(order: seq<nat>, n: nat)
    requires forall i :: 0 <= i < |order| ==> order[i] < n
    requires forall i, j :: 0 <= i < j < |order| ==> order[i] != order[j]
    ensures |order| == n <==> forall p: nat :: p < n ==> p in order
  {
    var listed, all := Slots(order), SlotsBelow(n);
    SlotsCount(order);
    assert listed <= all;
    if p: nat :| p < n && p !in order {
      assert p in all && p !in listed;
      ProperSubsetSmaller(listed, all);
    } else {
      assert listed == all;
    }
  }

  lemma ProperSubsetSmaller(a: set<nat>, b: set<nat>)
    requires a < b
    ensures |a| < |b|
  {
    assert b == a + (b - a);
    assert |b| == |a| + |b - a|;
  }

  ghost function Slots(order: seq<nat>): (r: set<nat>)
    ensures forall p :: p in r <==> p in order
  {
    if order == [] then {} else Slots(order[1..]) + {order[0]}
  }

  lemma {:induction false} SlotsCount(order: seq<nat>)
    requires forall i, j :: 0 <= i < j < |order| ==> order[i] != order[j]
    ensures |Slots(order)| == |order|
  {
    if order != [] {
      assert order[0] !in order[1..];
      SlotsCount(order[1..]);
    }
  }

  ghost function SlotsBelow(n: nat): (all: set<nat>)
    ensures |all| == n && forall p: nat :: p in all <==> p < n
  {
    if n == 0 then {} else SlotsBelow(n - 1) + {n - 1}
  }

  function Without<T>(order: seq<T>, i: nat): (r: seq<T>)
    requires i < |order|
    ensures |r| == |order| - 1
    ensures forall k :: 0 <= k < |r| ==> r[k] == if k < i then order[k] else order[k + 1]
  {
    seq(|order| - 1, k requires 0 <= k < |order| - 1 => if k < i then order[k] else order[k + 1])
  }

  lemma WithoutMembers(order: seq<nat>, i: nat)
    requires i < |order| && forall k, j :: 0 <= k < j < |order| ==> order[k] != order[j]
    ensures order[i] !in Without(order, i)
    ensures forall q :: q in order && q != order[i] ==> q in Without(order, i)
  {
    var r := Without(order, i);
    forall q | q in order && q != order[i]
      ensures q in r
    {
      var k :| 0 <= k < |order| && order[k] == q;
      assert r[if k < i then k else k - 1] == q;
    }
  }

  lemma RemoveKeepsInv(s: State, location: Word)
    requires Inv(s) && FirstMatch(s, location, 0) < |s.order|
    ensures Inv(Remove(s, location))
  {
    var i, s' := FirstMatch(s, location, 0), Remove(s, location);
    WithoutMembers(s.order, i);
    forall k | 0 <= k < |s'.order|
      ensures s'.order[k] in s.order && s'.order[k] != s.order[i]
    {
      assert s'.order[k] in s'.order;
    }
    forall p | 0 <= p < ARENA && s'.nodes[p].location != 0
      ensures p in s'.order
    {
      assert p in s.order && p != s.order[i];
    }
  }

  /** Removing takes out the first match only; the others keep their order. */
  lemma RemoveMeaning(s: State, location: Word)
    requires Inv(s) && FirstMatch(s, location, 0) < |s.order|
    ensures Inv(Remove(s, location))
    ensures Contents(Remove(s, location)) == Without(Contents(s), FirstMatch(s, location, 0))
    ensures Remove(s, location).nodes[s.order[FirstMatch(s, location, 0)]] == Node(0, 0, 0, 0, 0, 0, 0)
  {
    RemoveKeepsInv(s, location);
    var i, s' := FirstMatch(s, location, 0), Remove(s, location);
    forall k | 0 <= k < |s'.order|
      ensures s'.nodes[s'.order[k]] == Without(Contents(s), i)[k]
    {
      assert s'.order[k] != s.order[i];
    }
    assert Contents(s') == Without(Contents(s), i);
  }

  /** Synchronising changes one node's timing and nothing else. */
  lemma SyncMeaning(s: State, from: Word, to: Word)
    requires Inv(s) && FirstMatch(s, from, 0) < |s.order| && FirstMatch(s, to, 0) < |s.order|
    ensures Inv(Sync(s, from, to))
    ensures var i, j := FirstMatch(s, from, 0), FirstMatch(s, to, 0);
      Contents(Sync(s, from, to)) == Contents(s)[j := Synced(Contents(s)[i], Contents(s)[j])]
    ensures var a, b := Contents(s)[FirstMatch(s, from, 0)], Contents(s)[FirstMatch(s, to, 0)];
      var c := Synced(a, b);
      && c.location == b.location && c.onChar == b.onChar && c.offChar == b.offChar && SameTiming(c, a)
  {
  }

  /** A tick moves every listed node on by one, in place. */
  lemma TickMeaning(s: State)
    requires Inv(s)
    ensures Inv(TickAll(s))
    ensures |Contents(TickAll(s))| == |Contents(s)|
    ensures forall i :: 0 <= i < |Contents(s)| ==> Contents(TickAll(s))[i] == TickNode(Contents(s)[i])
  {
  }

  // ----- Runs -----

  datatype Event =
    | AddCall(node: Node)
    | RemoveCall(location: Word)
    | FindCall(location: Word)
    | SyncCall(from: Word, to: Word)
    | TickCall

  ghost predicate Applies(s: State, e: Event)
    requires Inv(s)
  {
    match e
    case AddCall(n) => CanAdd(s, n)
    case RemoveCall(l) => FirstMatch(s, l, 0) < |s.order|
    case SyncCall(from, to) => FirstMatch(s, from, 0) < |s.order| && FirstMatch(s, to, 0) < |s.order|
    case _ => true
  }

  ghost function Step(s: State, e: Event): State
    requires Inv(s)
  {
    if !Applies(s, e) then s
    else
      match e
      case AddCall(n) => Add(s, n)
      case RemoveCall(l) => Remove(s, l)
      case FindCall(_) => s
      case SyncCall(from, to) => Sync(s, from, to)
      case TickCall => TickAll(s)
  }

  predicate NonzeroLocations(es: seq<Event>) {
    forall i :: 0 <= i < |es| && es[i].AddCall? ==> es[i].node.location != 0
  }

  lemma StepKeeps(s: State, e: Event)
    requires Inv(s) && (e.AddCall? ==> e.node.location != 0)
    ensures Inv(Step(s, e))
  {
    if Applies(s, e) {
      match e
      case AddCall(n) => AddMeaning(s, n);
      case RemoveCall(l) => RemoveMeaning(s, l);
      case FindCall(_) =>
      case SyncCall(from, to) => SyncMeaning(s, from, to);
      case TickCall => TickMeaning(s);
    }
  }

  ghost function After(s: State, e: Event): (r: State)
    requires Inv(s) && (e.AddCall? ==> e.node.location != 0)
    ensures Inv(r)
  {
    StepKeeps(s, e);
    Step(s, e)
  }

  ghost function Run(s: State, es: seq<Event>): (r: State)
    requires Inv(s) && NonzeroLocations(es)
    ensures Inv(r)
    decreases |es|
  {
    if es == [] then s
    else Run(After(s, es[0]), es[1..])
  }

  /** The event changes slot `p` other than by a tick. */
  ghost predicate Touches(s: State, e: Event, p: nat)
    requires Inv(s)
  {
    && Applies(s, e)
    && match e
       case RemoveCall(l) => s.order[FirstMatch(s, l, 0)] == p
       case SyncCall(_, to) => s.order[FirstMatch(s, to, 0)] == p
       case _ => false
  }

  ghost predicate Untouched(s: State, es: seq<Event>, p: nat)
    requires Inv(s) && NonzeroLocations(es)
    decreases |es|
  {
    es != [] ==>
      && !Touches(s, es[0], p)
      && Untouched(After(s, es[0]), es[1..], p)
  }

  function TickCount(es: seq<Event>): nat {
    if es == [] then 0 else (if es[0].TickCall? then 1 else 0) + TickCount(es[1..])
  }

  /** Slot `p` is listed and stays untouched for the whole run. */
  ghost predicate Tracks(s: State, es: seq<Event>, p: nat) {
    Inv(s) && NonzeroLocations(es) && p in s.order && Untouched(s, es, p)
  }

  lemma TracksOn(s: State, es: seq<Event>, p: nat)
    requires Tracks(s, es, p) && es != []
    ensures Inv(s) && (es[0].AddCall? ==> es[0].node.location != 0)
    ensures Tracks(After(s, es[0]), es[1..], p)
    ensures Run(s, es) == Run(After(s, es[0]), es[1..])
    ensures p < |s.nodes| && p < |After(s, es[0]).nodes|
    ensures After(s, es[0]).nodes[p] == if es[0].TickCall? then TickNode(s.nodes[p]) else s.nodes[p]
  {
    StepOnSlot(s, es[0], p);
  }

  ghost predicate HasAged(s: State, r: State, p: nat, t: nat) {
    p in r.order && p < |s.nodes| && p < |r.nodes| && r.nodes[p] == TickNodes(s.nodes[p], t)
  }

  /** A listed node that nobody touches only ages: it has moved on by the ticks of the run. */
  lemma {:induction false} UntouchedAges(s: State, es: seq<Event>, p: nat)
    requires Tracks(s, es, p)
    ensures HasAged(s, Run(s, es), p, TickCount(es))
    decreases |es|
  {
    if es != [] {
      TracksOn(s, es, p);
      UntouchedAges(After(s, es[0]), es[1..], p);
      if es[0].TickCall? {
        TickFirst(s.nodes[p], TickCount(es[1..]));
      }
    }
  }

  lemma {:induction false} TickFirst(n: Node, t: nat)
    ensures TickNodes(TickNode(n), t) == TickNodes(n, t + 1)
  {
    if t > 0 {
      TickFirst(n, t - 1);
    }
  }

  lemma StepOnSlot(s: State, e: Event, p: nat)
    requires Inv(s) && p in s.order && !Touches(s, e, p) && (e.AddCall? ==> e.node.location != 0)
    ensures p in Step(s, e).order
    ensures Step(s, e).nodes[p] == if e.TickCall? then TickNode(s.nodes[p]) else s.nodes[p]
  {
    if Applies(s, e) && e.RemoveCall? {
      RemoveOther(s, e.location, p);
    }
  }

  lemma RemoveOther(s: State, location: Word, p: nat)
    requires Inv(s) && p in s.order && FirstMatch(s, location, 0) < |s.order|
    requires s.order[FirstMatch(s, location, 0)] != p
    ensures p in Remove(s, location).order && Remove(s, location).nodes[p] == s.nodes[p]
  {
    WithoutMembers(s.order, FirstMatch(s, location, 0));
  }

  lemma {:induction false} TimingTicks(m: Node, n: Node, t: nat)
    requires SameTiming(m, n)
    ensures SameTiming(TickNodes(m, t), TickNodes(n, t))
  {
    if t > 0 {
      TimingTicks(m, n, t - 1);
    }
  }

  /** After a sync the two nodes blink in step for as long as neither is touched again. */
  lemma SyncedStayInStep(s: State, from: Word, to: Word, es: seq<Event>)
    requires Inv(s) && Applies(s, SyncCall(from, to))
    requires Tracks(After(s, SyncCall(from, to)), es, s.order[FirstMatch(s, from, 0)])
    requires Tracks(After(s, SyncCall(from, to)), es, s.order[FirstMatch(s, to, 0)])
    ensures var r := Run(After(s, SyncCall(from, to)), es);
      SameTiming(r.nodes[s.order[FirstMatch(s, from, 0)]], r.nodes[s.order[FirstMatch(s, to, 0)]])
  {
    var a, b := s.order[FirstMatch(s, from, 0)], s.order[FirstMatch(s, to, 0)];
    var s' := After(s, SyncCall(from, to));
    UntouchedAges(s', es, a);
    UntouchedAges(s', es, b);
    TimingTicks(s'.nodes[a], s'.nodes[b], TickCount(es));
  }

  /** In state `r` slot `p` blinks as a fresh node `start` does after `t` ticks. */
  ghost predicate OnSchedule(start: Node, r: State, p: nat, t: nat) {
    p in r.order && p < |r.nodes| && AtPhase(start, r.nodes[p], Position(t, Period(start)))
  }

  /** `m` is the node that the caller added, except for its countdown and status; it is on for the
      caller's on length and off for the caller's off length, in turn, and `t` ticks have passed. */
  ghost predicate BlinksAs(m: Node, n: Node, t: nat) {
    var on, off := PhaseLength(n.onLength), PhaseLength(n.offLength);
    && m == n.(countdown := m.countdown, status := m.status)
    && (IsOn(m) <==> Position(t, on + off) < on)
  }

  lemma PhaseOfAdded(n: Node, m: Node, t: nat)
    requires AtPhase(Started(n), m, Position(t, Period(Started(n))))
    ensures BlinksAs(m, n, t)
  {
  }

  /** A node blinks on schedule from the moment it is added until it is touched. */
  lemma AddedBlinksOnSchedule(s: State, n: Node, es: seq<Event>)
    requires Inv(s) && CanAdd(s, n) && n.location != 0
    requires Tracks(After(s, AddCall(n)), es, FirstFree(s.nodes, 0))
    ensures OnSchedule(Started(n), Run(After(s, AddCall(n)), es), FirstFree(s.nodes, 0), TickCount(es))
    ensures BlinksAs(Run(After(s, AddCall(n)), es).nodes[FirstFree(s.nodes, 0)], n, TickCount(es))
  {
    var s1, p := After(s, AddCall(n)), FirstFree(s.nodes, 0);
    AddedSlot(s, n);
    AgesOnSchedule(s1, es, p);
    PhaseOfAdded(n, Run(s1, es).nodes[p], TickCount(es));
  }

  lemma AgesOnSchedule(s: State, es: seq<Event>, p: nat)
    requires Tracks(s, es, p) && p < |s.nodes| && Fresh(s.nodes[p])
    ensures OnSchedule(s.nodes[p], Run(s, es), p, TickCount(es))
  {
    UntouchedAges(s, es, p);
    BlinkAutomaton(s.nodes[p], TickCount(es));
  }

  lemma AddedSlot(s: State, n: Node)
    requires Inv(s) && CanAdd(s, n) && n.location != 0
    ensures var p, s' := FirstFree(s.nodes, 0), After(s, AddCall(n));
      p in s'.order && p < |s'.nodes| && s'.nodes[p] == Started(n)
  {
    assert Add(s, n).order[0] == FirstFree(s.nodes, 0);
  }
}
