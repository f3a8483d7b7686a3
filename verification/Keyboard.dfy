/** Line editing: the keyboard handler stores keys in a 128-byte buffer but counts beyond it, and
    read_terminal hands the line over when Enter has been pressed. */
module Keyboard {
  import opened Memory

  const BUFFER: nat := 128

  datatype Line = Line(buffer: seq<Byte>, count: nat, enter: bool)

  ghost predicate Sized(l: Line) { |l.buffer| == BUFFER }

  /** One key. */
  function Key(l: Line, c: Byte): (r: Line)
    requires Sized(l)
    ensures Sized(r)
  {
    var enter := l.enter || c == NEWLINE;
    if l.count < BUFFER then
      if c == BACKSPACE && l.count > 0 then Line(l.buffer[l.count - 1 := 0], l.count - 1, enter)
      else Line(l.buffer[l.count := c], l.count + 1, enter)
    else Line(l.buffer, if c == BACKSPACE then l.count - 1 else l.count + 1, enter)
  }

  function Keys(l: Line, keys: seq<Byte>): (r: Line)
    requires Sized(l)
    ensures Sized(r)
    decreases |keys|
  {
    if keys == [] then l else Keys(Key(l, keys[0]), keys[1..])
  }

  // ----- The edited line -----

  /** An unbounded line: a backspace takes the last character back; on an empty line it is itself
      entered as a character. */
  function Edit(line: seq<Byte>, keys: seq<Byte>): seq<Byte>
    decreases |keys|
  {
    if keys == [] then line
    else if keys[0] == BACKSPACE && line != [] then Edit(line[..|line| - 1], keys[1..])
    else Edit(line + [keys[0]], keys[1..])
  }

  /** The buffer holds as much of the line as fits; whatever stands behind it is left over. */
  ghost predicate Shows(l: Line, line: seq<Byte>) {
    && Sized(l) && l.count == |line|
    && forall i :: 0 <= i < |line| && i < BUFFER ==> l.buffer[i] == line[i]
  }

  /** For every sequence of keys the buffer follows the unbounded line, also when the line grows
      past the buffer and is then taken back. */
  lemma {:induction false} BufferFollowsLine(l: Line, line: seq<Byte>, keys: seq<Byte>)
    requires Shows(l, line)
    ensures Shows(Keys(l, keys), Edit(line, keys))
    ensures Keys(l, keys).enter <==> l.enter || NEWLINE in keys
    decreases |keys|
  {
    if keys != [] {
      var c := keys[0];
      var line' := if c == BACKSPACE && line != [] then line[..|line| - 1] else line + [c];
      assert Shows(Key(l, c), line');
      BufferFollowsLine(Key(l, c), line', keys[1..]);
      assert keys == [c] + keys[1..];
    }
  }

  lemma {:induction false} EditKeepsPlain(line: seq<Byte>, keys: seq<Byte>)
    requires NEWLINE !in line && NEWLINE !in keys
    ensures NEWLINE !in Edit(line, keys)
    decreases |keys|
  {
    if keys != [] {
      EditKeepsPlain(if keys[0] == BACKSPACE && line != [] then line[..|line| - 1] else line + [keys[0]], keys[1..]);
    }
  }

  lemma {:induction false} EditConcat(line: seq<Byte>, a: seq<Byte>, b: seq<Byte>)
    ensures Edit(line, a + b) == Edit(Edit(line, a), b)
    decreases |a|
  {
    if a == [] {
      assert a + b == b;
    } else {
      assert (a + b)[1..] == a[1..] + b;
      EditConcat(if a[0] == BACKSPACE && line != [] then line[..|line| - 1] else line + [a[0]], a[1..], b);
    }
  }

  // ----- Reading -----

  /** How many characters a read looks at.  The loop compares unsigned numbers, so a negative size
      is no limit; a line with its newline in the buffer ends it there. */
  function Task(nbytes: int): nat {
    if nbytes < 0 then BUFFER else if nbytes < 127 then nbytes else 127
  }

  /** The first newline among the characters a read looks at, or their number. */
  function Found(buffer: seq<Byte>, task: nat): (k: nat)
    requires task <= |buffer|
    ensures k <= task
    ensures forall i :: 0 <= i < k ==> buffer[i] != NEWLINE
    ensures k < task ==> buffer[k] == NEWLINE
  {
    if task == 0 then 0
    else
      var k := Found(buffer, task - 1);
      if k < task - 1 || buffer[k] == NEWLINE then k else task
  }

  /** The caller's buffer has a place for every character a read stores; and a read without a limit
      meets a newline. */
  predicate Room(line: seq<Byte>, nbytes: int, length: nat)
    requires |line| == BUFFER
  {
    var task := Task(nbytes);
    var k := Found(line, task);
    && (nbytes < 0 ==> k < task)
    && (if k < task then k < length else task <= length && (task > 0 ==> task < length))
  }

  /** What a read does with the caller's buffer, and what it returns: the characters before the
      newline (or as many as it looks at), a newline, and their number; but never 127. */
  ghost predicate ReadEffect(line: seq<Byte>, was: seq<Byte>, now: seq<Byte>, nbytes: int, returned: nat) {
    var task := Task(nbytes);
    && |line| == BUFFER && |now| == |was| && Room(line, nbytes, |was|)
    && var k := Found(line, task);
       && (task > 0 ==> k < |was| && now[k] == NEWLINE)
       && now[..k] == line[..k]
       && (forall i :: (if task > 0 then k else -1) < i < |was| ==> now[i] == was[i])
       && var n := if k < task then k + 1
                   else if task > 0 && was[task] != NEWLINE then task + 1
                   else task;
          returned == if n == 127 then 128 else n
  }

  function Idle(): Line { Line(seq(BUFFER, _ => 0), 0, false) }

  /** A terminal's keyboard state. */
  class Terminal {
    const keyboardBuffer: array<Byte>
    var keyCount: nat
    var enter: bool

    ghost function View(): Line
      reads this, keyboardBuffer
    {
      Line(keyboardBuffer[..], keyCount, enter)
    }

    ghost predicate Valid()
      reads this, keyboardBuffer
    {
      keyboardBuffer.Length == BUFFER
    }

    constructor ()
      ensures Valid() && View() == Idle() && fresh(keyboardBuffer)
    {
      keyboardBuffer := new Byte[BUFFER](_ => 0);
      keyCount := 0;
      enter := false;
    }

    method GetChar(input: Byte)
      requires Valid()
      modifies this, keyboardBuffer
      ensures Valid() && View() == Key(old(View()), input)
    {
      if keyCount < 128 {
        if input == NEWLINE {
          enter := true;
        }
        if input == BACKSPACE && keyCount > 0 {
          keyboardBuffer[keyCount - 1] := 0;
          keyCount := keyCount - 1;
        } else {
          keyboardBuffer[keyCount] := input;
          keyCount := keyCount + 1;
        }
      } else {
        if input == NEWLINE {
          enter := true;
        }
        if input == BACKSPACE {
          keyCount := keyCount - 1;
        } else {
          keyCount := keyCount + 1;
        }
      }
    }

    /** read_terminal once Enter has been pressed.  A line without a newline among the characters
        looked at is cut, and the newline goes one place behind them. */
    method ReadTerminal(buff: array<Byte>, nbytes: int) returns (returned: nat)
      requires Valid() && enter && buff != keyboardBuffer
      requires Room(keyboardBuffer[..], nbytes, buff.Length)
      modifies this, keyboardBuffer, buff
      ensures Valid() && View() == Idle()
      ensures ReadEffect(old(keyboardBuffer[..]), old(buff[..]), buff[..], nbytes, returned)
    {
      ghost var line, was := keyboardBuffer[..], buff[..];
      var task := if nbytes < 0 then BUFFER else if nbytes < 127 then nbytes else 127;
      ghost var k := Found(line, task);
      returned := 0;
      var i := 0;
      while i < task
        invariant 0 <= i <= k && returned == i
        invariant keyboardBuffer[..] == line
        invariant forall j :: 0 <= j < i ==> buff[j] == line[j]
        invariant forall j :: i <= j < buff.Length ==> buff[j] == was[j]
      {
        buff[i] := keyboardBuffer[i];
        returned := returned + 1;
        if buff[i] == NEWLINE {
          break;
        }
        i := i + 1;
      }
      assert i == k;
      if i > 0 {
        if buff[i] != NEWLINE {
          buff[i] := NEWLINE;
          returned := returned + 1;
        }
      }
      enter := false;
      keyCount := 0;
      ResetBuffer();
      if returned == 127 {
        returned := returned + 1;
      }
    }

    method ResetBuffer()
      requires Valid()
      modifies keyboardBuffer
      ensures keyboardBuffer[..] == Idle().buffer
    {
      for index := 0 to 128
        invariant forall j :: 0 <= j < index ==> keyboardBuffer[j] == 0
      {
        keyboardBuffer[index] := 0;
      }
    }
  }

  // ----- The line discipline -----

  lemma {:induction false} FoundIs(buffer: seq<Byte>, task: nat, k: nat)
    requires k <= task <= |buffer| && (forall i :: 0 <= i < k ==> buffer[i] != NEWLINE)
    requires k < task ==> buffer[k] == NEWLINE
    ensures Found(buffer, task) == k
  {
    var f := Found(buffer, task);
    assert f < task ==> buffer[f] == NEWLINE;
  }

  /** The caller got the whole line and its newline, within the size it asked for, and was told so. */
  ghost predicate Delivered(line: seq<Byte>, now: seq<Byte>, nbytes: int, returned: nat) {
    && returned == |line| + 1 <= nbytes && returned <= |now|
    && now[..returned] == line + [NEWLINE]
  }

  /** How many characters a read of the given size can take of a line. */
  function Limit(nbytes: int): nat { if nbytes < 0 then 128 else if nbytes > 127 then 127 else nbytes }

  /** The number returned; a count of 127 comes out as 128. */
  function Reported(n: nat): nat { if n == 127 then 128 else n }

  /** A read in terms of the buffer. */
  lemma EffectShape(buffer: seq<Byte>, was: seq<Byte>, now: seq<Byte>, nbytes: int, returned: nat)
    requires |buffer| == BUFFER && ReadEffect(buffer, was, now, nbytes, returned)
    ensures var limit := Limit(nbytes);
      var k := Found(buffer, limit);
      && |now| == |was| && (nbytes < 0 ==> k < limit)
      && (limit == 0 ==> now == was && returned == 0)
      && (limit > 0 ==>
            && k < |was| && now == buffer[..k] + [NEWLINE] + was[k + 1..]
            && returned == Reported(if k == limit && was[k] == NEWLINE then k else k + 1))
  {
    assert Limit(nbytes) == Task(nbytes);
    var k := Found(buffer, Limit(nbytes));
    if Limit(nbytes) > 0 {
      OneNewline(buffer, was, now, k);
    } else {
      NothingStored(was, now);
    }
  }

  lemma NothingStored(was: seq<Byte>, now: seq<Byte>)
    requires |now| == |was| && forall i :: 0 <= i < |was| ==> now[i] == was[i]
    ensures now == was
  {
  }

  lemma OneNewline(buffer: seq<Byte>, was: seq<Byte>, now: seq<Byte>, k: nat)
    requires k < |now| == |was| && k <= |buffer| && now[..k] == buffer[..k] && now[k] == NEWLINE
    requires forall i :: k < i < |was| ==> now[i] == was[i]
    ensures now == buffer[..k] + [NEWLINE] + was[k + 1..]
  {
    assert now == now[..k] + [now[k]] + now[k + 1..];
    assert now[k + 1..] == was[k + 1..];
  }

  /** What the buffer has of an entered line. */
  lemma EnteredLine(keys: seq<Byte>, l: Line, limit: nat)
    requires NEWLINE !in keys && l == Keys(Idle(), keys + [NEWLINE]) && limit <= BUFFER
    ensures |l.buffer| == BUFFER && l.enter
    ensures var line := Edit([], keys);
      var k := if |line| < limit then |line| else limit;
      Found(l.buffer, limit) == k && l.buffer[..k] == line[..k]
  {
    var line := Edit([], keys);
    EditConcat([], keys, [NEWLINE]);
    EditKeepsPlain([], keys);
    BufferFollowsLine(Idle(), [], keys + [NEWLINE]);
    var whole := line + [NEWLINE];
    assert Edit(line, [NEWLINE]) == whole;
    var k := if |line| < limit then |line| else limit;
    assert forall i :: 0 <= i < k ==> l.buffer[i] == whole[i] == line[i];
    assert |line| < BUFFER ==> l.buffer[|line|] == whole[|line|] == NEWLINE;
    FoundIs(l.buffer, limit, k);
  }

  /** What any read leaves in the caller's buffer and returns, for every line and every size: the
      whole line and its newline if it is short enough; else as much as the size allows and then a
      newline, which is counted unless there was one before; and the rest of the buffer as it was. */
  lemma ReadMeaning(keys: seq<Byte>, nbytes: int, l: Line, was: seq<Byte>, now: seq<Byte>, returned: nat)
    requires NEWLINE !in keys && l == Keys(Idle(), keys + [NEWLINE])
    requires ReadEffect(l.buffer, was, now, nbytes, returned)
    ensures var line, limit := Edit([], keys), Limit(nbytes);
      && |now| == |was|
      && (|line| < limit ==>
            && |line| < |now| && now == line + [NEWLINE] + was[|line| + 1..]
            && returned == Reported(|line| + 1))
      && (0 < limit <= |line| ==>
            && limit < |now| && now == line[..limit] + [NEWLINE] + was[limit + 1..]
            && returned == Reported(if was[limit] == NEWLINE then limit else limit + 1))
      && (limit == 0 ==> now == was && returned == 0)
  {
    EnteredLine(keys, l, Limit(nbytes));
    EffectShape(l.buffer, was, now, nbytes, returned);
    assert Edit([], keys)[..|Edit([], keys)|] == Edit([], keys);
  }

  /** Whatever keys are pressed before Enter, the read delivers the edited line exactly when it is
      shorter than the size asked for, at most 127 characters long, and not 126 of them: then the
      count is reported one too high. */
  lemma DeliveredIff(keys: seq<Byte>, nbytes: int, l: Line, was: seq<Byte>, now: seq<Byte>, returned: nat)
    requires NEWLINE !in keys && l == Keys(Idle(), keys + [NEWLINE])
    requires ReadEffect(l.buffer, was, now, nbytes, returned)
    ensures l.enter
    ensures var line := Edit([], keys);
      Delivered(line, now, nbytes, returned) <==> |line| < nbytes && |line| <= 127 && |line| != 126
  {
    var line, limit := Edit([], keys), Limit(nbytes);
    ReadMeaning(keys, nbytes, l, was, now, returned);
    EnteredLine(keys, l, limit);
    if |line| < limit {
      assert now[..|line| + 1] == line + [NEWLINE];
    } else if |line| == limit > 0 {
      assert line[..limit] == line;
      assert now[..limit + 1] == line + [NEWLINE];
    }
  }

  /** No key makes the line longer than the buffer can show it with a place to spare. */
  ghost predicate NeverFull(line: seq<Byte>, keys: seq<Byte>)
    decreases |keys|
  {
    |line| < BUFFER && (keys != [] ==> NeverFull(Edit(line, keys[..1]), keys[1..]))
  }

  /** As long as the line never fills the buffer, there is nothing behind it but zeros. */
  lemma {:induction false} BufferIsPadded(l: Line, line: seq<Byte>, keys: seq<Byte>)
    requires NeverFull(line, keys) && Sized(l) && l.count == |line|
    requires l.buffer == line + seq(BUFFER - |line|, _ => 0)
    ensures |Edit(line, keys)| < BUFFER
    ensures Keys(l, keys).buffer == Edit(line, keys) + seq(BUFFER - |Edit(line, keys)|, _ => 0)
    decreases |keys|
  {
    if keys != [] {
      var line' := Edit(line, keys[..1]);
      assert keys[..1] + keys[1..] == keys;
      EditConcat(line, keys[..1], keys[1..]);
      assert line' == if keys[0] == BACKSPACE && line != [] then line[..|line| - 1] else line + [keys[0]];
      assert Key(l, keys[0]).buffer == line' + seq(BUFFER - |line'|, _ => 0);
      BufferIsPadded(Key(l, keys[0]), line', keys[1..]);
    }
  }

  lemma {:induction false} EditPlain(line: seq<Byte>, keys: seq<Byte>)
    requires BACKSPACE !in keys
    ensures Edit(line, keys) == line + keys
    decreases |keys|
  {
    if keys != [] {
      EditPlain(line + [keys[0]], keys[1..]);
      assert line + [keys[0]] + keys[1..] == line + keys;
    } else {
      assert line + keys == line;
    }
  }

  function Letters(n: nat): seq<Byte> { seq(n, _ => 97) }

  /** What the keyboard buffer holds of a line without a backspace. */
  lemma PlainLine(line: seq<Byte>, l: Line)
    requires BACKSPACE !in line && |line| <= BUFFER && l == Keys(Idle(), line)
    ensures |l.buffer| == BUFFER && l.buffer[..|line|] == line
  {
    EditPlain([], line);
    assert [] + line == line;
    BufferFollowsLine(Idle(), [], line);
  }

  /** After 126 letters and Enter, every read of 128 bytes stores these 127 characters, and returns
      128. */
  lemma CountTooHigh(l: Line, was: seq<Byte>, now: seq<Byte>, returned: nat)
    requires l == Keys(Idle(), Letters(126) + [NEWLINE])
    requires ReadEffect(l.buffer, was, now, 128, returned)
    ensures |now| >= 127 && now[..127] == Letters(126) + [NEWLINE] && returned == 128
  {
    var typed := Letters(126) + [NEWLINE];
    PlainLine(typed, l);
    assert forall i :: 0 <= i < 127 ==> l.buffer[i] == l.buffer[..127][i] == typed[i];
    FoundIs(l.buffer, 127, 126);
    assert now[..127] == now[..126] + [now[126]];
    assert now[..126] == Letters(126);
  }
}
