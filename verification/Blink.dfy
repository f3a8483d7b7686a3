/** The blink list in the program's own form: a singly linked list threaded through a fixed arena,
    with in-place updates; every operation is proved to follow `BlinkModel`. */
module Blink {
  import opened BlinkModel

  const NIL: int := -1

  /** One 16-byte structure of the arena. */
  datatype Cell = Cell(node: Node, next: int)

  function NodesOf(cells: seq<Cell>): seq<Node> {
    seq(|cells|, i requires 0 <= i < |cells| => cells[i].node)
  }

  lemma NodesUpdate(cells: seq<Cell>, cells': seq<Cell>, p: nat, n: Node)
    requires p < |cells| == |cells'| && cells'[p].node == n
    requires forall k :: 0 <= k < |cells| && k != p ==> cells'[k].node == cells[k].node
    ensures NodesOf(cells') == NodesOf(cells)[p := n]
  {
  }

  function SlotAt(order: seq<nat>, i: nat): int { if i < |order| then order[i] else NIL }

  function SlotBefore(order: seq<nat>, i: nat): int
    requires i <= |order|
  {
    if i == 0 then NIL else order[i - 1]
  }

  /** The links lead through the listed slots in order and then end: no cycle, no repetition. */
  ghost predicate Linked(head: int, cells: seq<Cell>, order: seq<nat>) {
    && |cells| == ARENA
    && (forall i :: 0 <= i < |order| ==> order[i] < ARENA)
    && head == SlotAt(order, 0)
    && forall i {:trigger cells[order[i]]} :: 0 <= i < |order| ==> cells[order[i]].next == SlotAt(order, i + 1)
  }

  ghost predicate Distinct(order: seq<nat>) {
    forall i, j :: 0 <= i < j < |order| ==> order[i] != order[j]
  }

  /** Leading the link (or the head) that names the `n`th slot past it cuts that slot out. */
  lemma CutLinks(head: int, cells: seq<Cell>, order: seq<nat>, n: nat, head': int, cells': seq<Cell>)
    requires Linked(head, cells, order) && n < |order| && |cells'| == |cells|
    requires Distinct(order)
    requires head' == if n == 0 then cells[order[0]].next else head
    requires n > 0 ==> cells'[order[n - 1]].next == cells[order[n]].next
    requires forall i {:trigger cells'[order[i]]} :: 0 <= i < |order| && i != n && i + 1 != n ==>
      cells'[order[i]] == cells[order[i]]
    ensures Linked(head', cells', Without(order, n))
  {
    var order' := Without(order, n);
    forall i | 0 <= i < |order'|
      ensures order'[i] < ARENA && cells'[order'[i]].next == SlotAt(order', i + 1)
    {
      var k := if i < n then i else i + 1;
      assert cells[order[k]].next == SlotAt(order, k + 1);
    }
  }

  function CutHead(head: int, cells: seq<Cell>, p: int, prev: int): int
    requires 0 <= p < |cells|
  {
    if prev == NIL then cells[p].next else head
  }

  function CutCells(cells: seq<Cell>, p: int, prev: int): (r: seq<Cell>)
    requires 0 <= p < |cells| && (prev == NIL || 0 <= prev < |cells|)
    ensures |r| == |cells|
  {
    (if prev == NIL then cells else cells[prev := cells[prev].(next := cells[p].next)])[p := Cell(FREE, NIL)]
  }

  /** Leading the link past the `n`th slot and zeroing that slot cuts it out. */
  lemma CutMeaning(head: int, cells: seq<Cell>, order: seq<nat>, n: nat)
    requires Linked(head, cells, order) && Distinct(order) && n < |order|
    ensures var p, prev := order[n], SlotBefore(order, n);
      && Linked(CutHead(head, cells, p, prev), CutCells(cells, p, prev), Without(order, n))
      && NodesOf(CutCells(cells, p, prev)) == NodesOf(cells)[p := FREE]
  {
    var p, prev := order[n], SlotBefore(order, n);
    var cells' := CutCells(cells, p, prev);
    NodesUpdate(cells, cells', p, FREE);
    assert n > 0 ==> prev != p;
    forall i | 0 <= i < |order| && i != n && i + 1 != n
      ensures cells'[order[i]] == cells[order[i]]
    {
      assert n > 0 ==> order[i] != order[n - 1];
    }
    CutLinks(head, cells, order, n, CutHead(head, cells, p, prev), cells');
  }

  /** A slot that is not listed, led to by the head and leading to the old list. */
  lemma LinkFront(head: int, cells: seq<Cell>, order: seq<nat>, p: nat, cells': seq<Cell>)
    requires Linked(head, cells, order) && p < ARENA && p !in order && |cells'| == |cells|
    requires cells'[p].next == head && forall k :: 0 <= k < ARENA && k != p ==> cells'[k] == cells[k]
    ensures Linked(p, cells', [p] + order)
  {
  }

  lemma SameLinks(head: int, cells: seq<Cell>, order: seq<nat>, cells': seq<Cell>)
    requires Linked(head, cells, order) && |cells'| == |cells|
    requires forall i :: 0 <= i < |cells| ==> cells'[i].next == cells[i].next
    ensures Linked(head, cells', order)
  {
  }

  function TickOne(c: Cell): Cell { c.(node := TickNode(c.node)) }

  /** The arena when the first `n` listed cells have been ticked. */
  ghost function Ticked(cells: seq<Cell>, order: seq<nat>, n: nat): seq<Cell>
    requires n <= |order|
  {
    seq(|cells|, p requires 0 <= p < |cells| => if p in order[..n] then TickOne(cells[p]) else cells[p])
  }

  lemma TickedStep(cells: seq<Cell>, order: seq<nat>, n: nat)
    requires n < |order| && order[n] < |cells|
    requires Distinct(order)
    ensures Ticked(cells, order, n)[order[n]] == cells[order[n]]
    ensures Ticked(cells, order, n + 1) == Ticked(cells, order, n)[order[n] := TickOne(cells[order[n]])]
  {
    assert order[..n + 1] == order[..n] + [order[n]];
    assert order[n] !in order[..n];
  }

  lemma AllTicked(head: int, cells: seq<Cell>, order: seq<nat>)
    requires Linked(head, cells, order)
    ensures Linked(head, Ticked(cells, order, |order|), order)
    ensures NodesOf(Ticked(cells, order, |order|)) == TickAll(State(order, NodesOf(cells))).nodes
  {
    assert order[..|order|] == order;
  }

  /** The head and the cells after an add. */
  function AddLinks(head: int, cells: seq<Cell>, n: Node): (r: (int, seq<Cell>))
    requires FirstFree(NodesOf(cells), 0) < |cells|
  {
    var p := FirstFree(NodesOf(cells), 0);
    (p, cells[p := Cell(Started(n), head)])
  }

  class BlinkList {
    const arena: array<Cell>
    var head: int
    ghost var order: seq<nat>

    ghost function View(): State
      reads this, arena
    {
      State(order, NodesOf(arena[..]))
    }

    ghost predicate Valid()
      reads this, arena
    {
      Linked(head, arena[..], order) && Inv(View())
    }

    constructor ()
      ensures Valid() && fresh(arena) && order == []
    {
      arena := new Cell[ARENA](_ => Cell(FREE, NIL));
      head := NIL;
      order := [];
    }

    /** mp1_malloc: the first slot whose location is 0. */
    method Malloc() returns (p: int)
      requires arena.Length == ARENA
      ensures var f := FirstFree(NodesOf(arena[..]), 0);
        p == if f == ARENA then NIL else f
    {
      ghost var nodes := NodesOf(arena[..]);
      for i := 0 to 80 * 25
        invariant forall j :: 0 <= j < i ==> nodes[j].location != 0
      {
        if arena[i].node.location == 0 {
          assert nodes[i].location == 0;
          return i;
        }
      }
      return NIL;
    }

    /** Whatever the links look like, a node that can be added goes into the first free slot and in
        front; the list stays a list if the location is not 0. */
    method Insert(user: Node) returns (r: int)
      requires arena.Length == ARENA
      modifies this, arena
      ensures r == if CanAdd(old(View()), user) then 0 else -1
      ensures r == -1 ==> View() == old(View()) && head == old(head) && arena[..] == old(arena[..])
      ensures r == 0 ==> View() == Add(old(View()), user)
      ensures r == 0 ==> (head, arena[..]) == AddLinks(old(head), old(arena[..]), user)
      ensures old(Valid()) && (r == -1 || user.location != 0) ==> Valid()
    {
      var temp := user;
      if temp.location >= 80 * 25 {
        return -1;
      }
      temp := temp.(status := 1);
      temp := temp.(countdown := temp.onLength);
      var p := Malloc();
      if p == NIL {
        return -1;
      }
      ghost var valid := Valid();
      PushFront(p, temp);
      if valid {
        LinkFront(old(head), old(arena[..]), old(order), p, arena[..]);
        AddMeaning(old(View()), user);
      }
      return 0;
    }

    /** The stores that put a free slot on the front of the list. */
    method PushFront(p: nat, temp: Node)
      requires arena.Length == ARENA && p < ARENA
      modifies this, arena
      ensures order == [p] + old(order) && head == p
      ensures arena[..] == old(arena[..])[p := Cell(temp, old(head))]
      ensures NodesOf(arena[..]) == NodesOf(old(arena[..]))[p := temp]
    {
      arena[p] := Cell(temp, NIL);
      arena[p] := arena[p].(next := head);
      head := p;
      order := [p] + order;
      NodesUpdate(old(arena[..]), arena[..], p, temp);
    }

    /** mp1_find_helper: the slot of the first match, and its position in the list. */
    method FindHelper(location: Word) returns (p: int)
      requires Valid()
      ensures p == SlotAt(order, FirstMatch(View(), location, 0))
    {
      p := head;
      ghost var i := 0;
      while p != NIL
        invariant 0 <= i <= |order| && p == SlotAt(order, i)
        invariant FirstMatch(View(), location, 0) == FirstMatch(View(), location, i)
        decreases |order| - i
      {
        if arena[p].node.location == location {
          return;
        }
        p := arena[p].next;
        i := i + 1;
      }
    }

    method Find(location: Word) returns (r: int, out: Node)
      requires Valid()
      ensures var i := FirstMatch(View(), location, 0);
        if i < |order| then r == 0 && out == Contents(View())[i] else r == -1
    {
      var p := FindHelper(location);
      if p == NIL {
        return -1, FREE;
      }
      return 0, arena[p].node;
    }

    /** What the head variable (for NIL) or the link of a slot holds. */
    function Link(prev: int): int
      reads this, arena
      requires prev == NIL || 0 <= prev < arena.Length
    {
      if prev == NIL then head else arena[prev].next
    }

    /** The pointer that holds the address of slot `p`: NIL for the head variable, otherwise the
        slot whose link it is. */
    method FindPrev(p: int, ghost n: nat) returns (prev: int)
      requires Linked(head, arena[..], order) && Distinct(order) && n < |order| && p == order[n]
      ensures prev == SlotBefore(order, n)
    {
      prev := NIL;
      ghost var i := 0;
      while Link(prev) != p
        invariant 0 <= i <= n && (prev == NIL || 0 <= prev < arena.Length)
        invariant prev == SlotBefore(order, i) && Link(prev) == order[i]
        decreases n - i
      {
        NextSlot(head, arena[..], order, i);
        prev := Link(prev);
        i := i + 1;
      }
    }

    /** Removal through the pointer to the pointer, and mp1_free. */
    method Unlink(arg: int) returns (r: int)
      requires Valid()
      modifies this, arena
      ensures Valid()
      ensures var location: Word := arg % WORD;
        if FirstMatch(old(View()), location, 0) < old(|order|)
        then r == 0 && View() == Remove(old(View()), location)
        else r == -1 && View() == old(View())
    {
      var location: Word := arg % WORD;
      var p := FindHelper(location);
      if p == NIL {
        return -1;
      }
      ghost var n := FirstMatch(View(), location, 0);
      var prev := FindPrev(p, n);
      CutOut(p, prev, n);
      RemoveMeaning(old(View()), location);
      return 0;
    }

    /** The stores of the removal. */
    method CutOut(p: int, prev: int, ghost n: nat)
      requires Valid() && n < |order| && p == order[n] && prev == SlotBefore(order, n)
      modifies this, arena
      ensures order == Without(old(order), n)
      ensures NodesOf(arena[..]) == NodesOf(old(arena[..]))[p := FREE]
      ensures Linked(head, arena[..], order)
    {
      CutMeaning(head, arena[..], order, n);
      Bypass(p, prev);
      order := Without(order, n);
    }

    method Bypass(p: int, prev: int)
      requires 0 <= p < arena.Length && (prev == NIL || 0 <= prev < arena.Length)
      modifies this`head, arena
      ensures head == CutHead(old(head), old(arena[..]), p, prev)
      ensures arena[..] == CutCells(old(arena[..]), p, prev)
    {
      var next := arena[p].next;
      if prev == NIL {
        head := next;
      } else {
        arena[prev] := arena[prev].(next := next);
      }
      arena[p] := Cell(FREE, NIL);
    }

    /** The argument holds the source location in its high half and the target in its low half. */
    method Synchronise(arg: int) returns (r: int)
      requires Valid() && 0 <= arg
      modifies arena
      ensures Valid()
      ensures var from: Word, to: Word := arg / WORD % WORD, arg % WORD;
        if FirstMatch(old(View()), from, 0) < |order| && FirstMatch(old(View()), to, 0) < |order|
        then r == 0 && View() == Sync(old(View()), from, to)
        else r == -1 && View() == old(View())
    {
      r := SyncLocations(arg / WORD % WORD, arg % WORD);
    }

    method SyncLocations(from: Word, to: Word) returns (r: int)
      requires Valid()
      modifies arena
      ensures Valid()
      ensures r == if Applies(old(View()), SyncCall(from, to)) then 0 else -1
      ensures r == 0 ==> View() == Sync(old(View()), from, to)
      ensures r == -1 ==> View() == old(View())
    {
      var p := FindHelper(from);
      if p == NIL {
        return -1;
      }
      var q := FindHelper(to);
      if q == NIL {
        return -1;
      }
      ghost var was, cells := View(), arena[..];
      CopyTiming(p, q);
      SameLinks(head, cells, order, arena[..]);
      assert View() == Sync(was, from, to);
      SyncMeaning(was, from, to);
      return 0;
    }

    /** The four 16-bit moves of the synchronisation. */
    method CopyTiming(p: int, q: int)
      requires arena.Length == ARENA && 0 <= p < ARENA && 0 <= q < ARENA
      modifies arena
      ensures forall i :: 0 <= i < ARENA ==> arena[i].next == old(arena[i].next)
      ensures NodesOf(arena[..]) == NodesOf(old(arena[..]))[q := Synced(old(arena[p]).node, old(arena[q]).node)]
    {
      arena[q] := arena[q].(node := arena[q].node.(onLength := arena[p].node.onLength));
      arena[q] := arena[q].(node := arena[q].node.(offLength := arena[p].node.offLength));
      arena[q] := arena[q].(node := arena[q].node.(countdown := arena[p].node.countdown));
      arena[q] := arena[q].(node := arena[q].node.(status := arena[p].node.status));
    }

    /** mp1_rtc_tasklet without the screen. */
    method Tasklet()
      requires Valid()
      modifies arena
      ensures Valid() && View() == TickAll(old(View()))
    {
      ghost var was, cells := View(), arena[..];
      var p := head;
      ghost var i := 0;
      while p != NIL
        invariant 0 <= i <= |order| && p == SlotAt(order, i)
        invariant arena[..] == Ticked(cells, order, i)
        decreases |order| - i
      {
        TickedStep(cells, order, i);
        TickCell(p);
        assert arena[p].next == cells[p].next;
        p := arena[p].next;
        i := i + 1;
      }
      AllTicked(head, cells, order);
      TickMeaning(was);
    }

    method TickCell(p: int)
      requires 0 <= p < arena.Length
      modifies arena
      ensures arena[..] == old(arena[..])[p := TickOne(old(arena[p]))]
    {
      var node := arena[p].node;
      arena[p] := arena[p].(node := node.(countdown := if node.countdown == 0 then 0xFFFF else node.countdown - 1));
      if 0 < arena[p].node.countdown < 0x8000 {
        return;
      }
      var length: Word;
      if node.status % 2 == 0 {
        length := node.onLength;
      } else {
        length := node.offLength;
      }
      arena[p] := arena[p].(node := arena[p].node.(countdown := length));
      arena[p] := arena[p].(node := arena[p].node.(status := FlipLowBit(node.status)));
    }
  }

  // ----- Adding to any list -----

  /** The links lead through distinct slots and then end: a finite list without a cycle. */
  ghost predicate IsList(head: int, cells: seq<Cell>, order: seq<nat>) {
    Linked(head, cells, order) && Distinct(order)
  }

  lemma NextSlot(head: int, cells: seq<Cell>, order: seq<nat>, i: nat)
    requires Linked(head, cells, order) && i < |order|
    ensures head == order[0] && order[i] < |cells| && cells[order[i]].next == SlotAt(order, i + 1)
  {
  }

  /** After an add the links lead to the new slot and then through the old list, up to where that
      comes to the new slot itself. */
  lemma {:induction false} LinksRepeat(head: int, cells: seq<Cell>, order: seq<nat>, m: Node,
                                       order': seq<nat>, k: nat)
    requires Linked(head, cells, order) && FirstFree(NodesOf(cells), 0) < ARENA && k < |order|
    requires forall i :: 0 <= i < k ==> order[i] != FirstFree(NodesOf(cells), 0)
    requires Linked(AddLinks(head, cells, m).0, AddLinks(head, cells, m).1, order')
    ensures k + 1 < |order'| && order'[0] == FirstFree(NodesOf(cells), 0) && order'[k + 1] == order[k]
    decreases k
  {
    var (head', cells') := AddLinks(head, cells, m);
    if k == 0 {
      NextSlot(head', cells', order', 0);
    } else {
      LinksRepeat(head, cells, order, m, order', k - 1);
      assert cells'[order[k - 1]] == cells[order[k - 1]];
      NextSlot(head', cells', order', k);
      NextSlot(head, cells, order, k - 1);
    }
  }

  lemma {:induction false} FirstPlace(order: seq<nat>, p: nat) returns (k: nat)
    requires p in order
    ensures k < |order| && order[k] == p && forall i :: 0 <= i < k ==> order[i] != p
    decreases |order|
  {
    k := 0;
    if order[0] != p {
      var rest := FirstPlace(order[1..], p);
      k := rest + 1;
    }
  }

  /** An add leaves a list a list exactly when the slot that mp1_malloc hands out is not listed. */
  lemma AddIsListIff(head: int, cells: seq<Cell>, order: seq<nat>, m: Node)
    requires IsList(head, cells, order) && FirstFree(NodesOf(cells), 0) < ARENA
    ensures var (head', cells') := AddLinks(head, cells, m);
      (exists order' :: IsList(head', cells', order')) <==> FirstFree(NodesOf(cells), 0) !in order
  {
    var p := FirstFree(NodesOf(cells), 0);
    var (head', cells') := AddLinks(head, cells, m);
    if p in order {
      var k := FirstPlace(order, p);
      forall order' | Linked(head', cells', order')
        ensures !Distinct(order')
      {
        LinksRepeat(head, cells, order, m, order', k);
      }
    } else {
      LinkFront(head, cells, order, p, cells');
      assert IsList(head', cells', [p] + order);
    }
  }

  /** Location 0 doubles as the mark of a free slot: the slot of such a node is handed out again,
      and the second add makes it its own successor. */
  lemma ZeroLocationCycles(head: int, cells: seq<Cell>, m: Node, n: Node)
    requires FirstFree(NodesOf(cells), 0) < |cells| && m.location == 0
    ensures var (h1, cells1) := AddLinks(head, cells, m);
      && FirstFree(NodesOf(cells1), 0) == h1
      && var (h2, cells2) := AddLinks(h1, cells1, n);
         h2 == h1 && cells2[h2].next == h2
  {
    var (h1, cells1) := AddLinks(head, cells, m);
    var nodes, nodes1 := NodesOf(cells), NodesOf(cells1);
    assert nodes1[h1].location == 0;
    assert forall i :: 0 <= i < h1 ==> nodes1[i] == nodes[i];
    var f := FirstFree(nodes1, 0);
  }

  /** An add with location 0 leaves a list, to which nothing more can be added. */
  lemma ZeroLocationSpoils(head: int, cells: seq<Cell>, order: seq<nat>, m: Node, n: Node)
    requires IsList(head, cells, order) && FirstFree(NodesOf(cells), 0) < ARENA
    requires FirstFree(NodesOf(cells), 0) !in order && m.location == 0
    ensures var (h1, cells1) := AddLinks(head, cells, m);
      && h1 >= 0 && IsList(h1, cells1, [h1] + order) && FirstFree(NodesOf(cells1), 0) == h1
      && var (h2, cells2) := AddLinks(h1, cells1, n);
         forall order' :: !IsList(h2, cells2, order')
  {
    var (h1, cells1) := AddLinks(head, cells, m);
    ZeroLocationCycles(head, cells, m, n);
    LinkFront(head, cells, order, h1, cells1);
    AddIsListIff(h1, cells1, [h1] + order, n);
  }

  /** The program that makes the cycle. */
  method AddTwice(list: BlinkList, m: Node, n: Node) returns (r1: int, r2: int)
    requires list.Valid() && CanAdd(list.View(), m) && m.location == 0 && n.location < ARENA
    modifies list, list.arena
    ensures r1 == r2 == 0
    ensures 0 <= list.head < ARENA && list.arena[list.head].next == list.head
  {
    ZeroLocationCycles(list.head, list.arena[..], m, n);
    r1 := list.Insert(m);
    r2 := list.Insert(n);
  }
}
