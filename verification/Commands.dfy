/** How execute splits a command line into the program name and its argument. */
module Commands {
  import opened Memory

  /** A C string read at index `i`; the terminator follows the last character. */
  function CharAt(s: seq<Byte>, i: nat): Byte
    requires i <= |s|
  {
    if i < |s| then s[i] else NUL
  }

  ghost predicate Blank(s: seq<Byte>) { forall i :: 0 <= i < |s| ==> IsBlank(s[i]) }

  ghost predicate Word(s: seq<Byte>) { forall i :: 0 <= i < |s| ==> !IsBlank(s[i]) }

  /** `command` is blanks, then `name`, then blanks, then `arg`, each part as long as it can be. */
  ghost predicate SplitsInto(command: seq<Byte>, name: seq<Byte>, arg: seq<Byte>) {
    exists lead: seq<Byte>, gap: seq<Byte> :: IsSplit(command, lead, name, gap, arg)
  }

  ghost predicate IsSplit(command: seq<Byte>, lead: seq<Byte>, name: seq<Byte>, gap: seq<Byte>, arg: seq<Byte>) {
    && command == lead + name + gap + arg
    && Blank(lead) && Word(name) && Blank(gap)
    && (name == [] ==> gap == [])
    && (gap == [] ==> arg == [])
    && (arg != [] ==> !IsBlank(arg[0]))
  }

  /** A command line has only one name and one argument. */
  lemma SplitIsUnique(command: seq<Byte>, name: seq<Byte>, arg: seq<Byte>, name': seq<Byte>, arg': seq<Byte>)
    requires SplitsInto(command, name, arg) && SplitsInto(command, name', arg')
    ensures name == name' && arg == arg'
  {
    var lead, gap :| IsSplit(command, lead, name, gap, arg);
    var lead', gap' :| IsSplit(command, lead', name', gap', arg');
    var a, b, c := Boundaries(command, lead, name, gap, arg);
    var a', b', c' := Boundaries(command, lead', name', gap', arg');
    BoundsAreUnique(command, a, b, c, a', b', c');
  }

  /** `command` is blank up to `a`, a word up to `b`, and blank up to `c`, as far as possible. */
  ghost predicate Bounds(command: seq<Byte>, a: nat, b: nat, c: nat) {
    && a <= b <= c <= |command|
    && RunEnd(command, 0, a, true) && RunEnd(command, a, b, false) && RunEnd(command, b, c, true)
  }

  ghost predicate RunEnd(s: seq<Byte>, from: nat, e: nat, blank: bool)
    requires from <= e <= |s|
  {
    && (forall i :: from <= i < e ==> IsBlank(s[i]) == blank)
    && (e < |s| ==> IsBlank(s[e]) != blank)
  }

  lemma BoundsAreUnique(command: seq<Byte>, a: nat, b: nat, c: nat, a': nat, b': nat, c': nat)
    requires Bounds(command, a, b, c) && Bounds(command, a', b', c')
    ensures a == a' && b == b' && c == c'
  {
    RunEnds(command, 0, a, a', true);
    RunEnds(command, a, b, b', false);
    RunEnds(command, b, c, c', true);
  }

  /** A maximal run of blanks, or of other characters, has one end. */
  lemma RunEnds(s: seq<Byte>, from: nat, e: nat, e': nat, blank: bool)
    requires from <= e <= |s| && from <= e' <= |s|
    requires RunEnd(s, from, e, blank) && RunEnd(s, from, e', blank)
    ensures e == e'
  {
  }

  lemma Boundaries(command: seq<Byte>, lead: seq<Byte>, name: seq<Byte>, gap: seq<Byte>, arg: seq<Byte>)
    returns (a: nat, b: nat, c: nat)
    requires IsSplit(command, lead, name, gap, arg)
    ensures Bounds(command, a, b, c) && name == command[a..b] && arg == command[c..]
  {
    a, b, c := |lead|, |lead| + |name|, |lead| + |name| + |gap|;
    assert forall i :: 0 <= i < a ==> command[i] == lead[i];
    assert forall i :: a <= i < b ==> command[i] == name[i - a];
    assert forall i :: b <= i < c ==> command[i] == gap[i - b];
    assert forall i :: c <= i < |command| ==> command[i] == arg[i - c];
    if name == [] {
      assert arg == [] && a == |command|;
    } else {
      assert command[a] == name[0];
    }
    if gap == [] {
      assert arg == [] && b == |command|;
    } else {
      assert command[b] == gap[0];
    }
  }

  /** The index loops of execute. */
  method Split(command: seq<Byte>) returns (name: seq<Byte>, arg: seq<Byte>)
    ensures SplitsInto(command, name, arg)
  {
    var length := |command|;
    var cmdStart := 0;
    while IsBlank(CharAt(command, cmdStart))
      invariant 0 <= cmdStart <= length
      invariant Blank(command[..cmdStart])
      decreases length - cmdStart
    {
      if cmdStart == length { break; }
      cmdStart := cmdStart + 1;
    }
    var cmdEnd := cmdStart;
    while CharAt(command, cmdEnd) != BLANK || CharAt(command, cmdEnd) != TAB
      invariant cmdStart <= cmdEnd <= length
      invariant Word(command[cmdStart..cmdEnd])
      decreases length - cmdEnd
    {
      if cmdEnd == length { break; }
      if IsBlank(CharAt(command, cmdEnd)) { break; }
      assert command[cmdStart..cmdEnd + 1] == command[cmdStart..cmdEnd] + [command[cmdEnd]];
      cmdEnd := cmdEnd + 1;
    }
    name := command[cmdStart..cmdEnd];
    var argStart := cmdEnd;
    while IsBlank(CharAt(command, argStart))
      invariant cmdEnd <= argStart <= length
      invariant Blank(command[cmdEnd..argStart])
      invariant argStart == cmdEnd ==> cmdEnd == length || IsBlank(command[cmdEnd])
      decreases length - argStart
    {
      if argStart == length { break; }
      assert command[cmdEnd..argStart + 1] == command[cmdEnd..argStart] + [command[argStart]];
      argStart := argStart + 1;
    }
    var argEnd := argStart;
    while CharAt(command, argEnd) != BLANK || CharAt(command, argEnd) != TAB
      invariant argStart <= argEnd <= length
      decreases length - argEnd
    {
      if argEnd == length { break; }
      argEnd := argEnd + 1;
    }
    arg := command[argStart..argEnd];
    assert command == command[..cmdStart] + name + command[cmdEnd..argStart] + arg;
    assert IsSplit(command, command[..cmdStart], name, command[cmdEnd..argStart], arg);
  }

  /** The argument always fits its 128-byte field with the terminator, since a command that has
      one also has a name and a blank before it. */
  lemma ArgumentFits(command: seq<Byte>, name: seq<Byte>, arg: seq<Byte>)
    requires SplitsInto(command, name, arg) && |command| <= 128
    ensures |arg| + 1 <= 128
  {
    var lead, gap :| IsSplit(command, lead, name, gap, arg);
    assert |command| == |lead| + |name| + |gap| + |arg|;
  }

  /** Blanks and tabs both separate, any number of them. */
  lemma BlanksSeparate(lead: seq<Byte>, name: seq<Byte>, gap: seq<Byte>, arg: seq<Byte>)
    requires forall c :: c in lead + gap ==> [c] == Bytes(" ") || [c] == Bytes("\t")
    requires forall c :: c in name ==> [c] != Bytes(" ") && [c] != Bytes("\t")
    requires name != [] && gap != [] && (arg != [] ==> [arg[0]] != Bytes(" ") && [arg[0]] != Bytes("\t"))
    ensures SplitsInto(lead + name + gap + arg, name, arg)
  {
    CharacterCodes();
    assert forall i :: 0 <= i < |lead| ==> lead[i] in lead + gap;
    assert forall i :: 0 <= i < |gap| ==> gap[i] in lead + gap;
    assert IsSplit(lead + name + gap + arg, lead, name, gap, arg);
  }

  lemma WordSplits(name: seq<Byte>)
    requires name != [] && Word(name)
    ensures SplitsInto(name, name, [])
  {
    assert name == [] + name + [] + [];
    assert IsSplit(name, [], name, [], []);
  }

  lemma SplitParts(command: seq<Byte>, name: seq<Byte>, arg: seq<Byte>)
    requires SplitsInto(command, name, arg)
    ensures forall c :: c in name ==> c in command
  {
    var lead, gap :| IsSplit(command, lead, name, gap, arg);
  }

  /** A command line that execute accepts and that passes `arg` to the program called `name`. */
  ghost predicate Carries(command: seq<Byte>, name: seq<Byte>, arg: seq<Byte>) {
    |command| <= 128 && NUL !in command && SplitsInto(command, name, arg)
  }

  /** Which arguments a program can be given. */
  lemma ArgumentIff(name: seq<Byte>, arg: seq<Byte>)
    requires name != [] && Word(name) && NUL !in name && arg != []
    ensures (exists command :: Carries(command, name, arg))
      <==> NUL !in arg && !IsBlank(arg[0]) && |name| + 1 + |arg| <= 128
  {
    if exists command :: Carries(command, name, arg) {
      var command :| Carries(command, name, arg);
      var lead, gap :| IsSplit(command, lead, name, gap, arg);
      assert |command| == |lead| + |name| + |gap| + |arg|;
    }
    if NUL !in arg && !IsBlank(arg[0]) && |name| + 1 + |arg| <= 128 {
      var command := [] + name + [BLANK] + arg;
      assert IsSplit(command, [], name, [BLANK], arg);
      assert Carries(command, name, arg);
    }
  }
}
