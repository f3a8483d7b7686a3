/** The kernel's block copies: a byte loop up to a word boundary, a run of 4-byte words, and a byte
    loop for the rest.  Memory is an array; `base` is the machine address of its first byte. */
module Memory {
  type Byte = b: int | 0 <= b < 256

  const NUL: Byte := 0
  const BACKSPACE: Byte := 8
  const TAB: Byte := 9
  const NEWLINE: Byte := 10
  const RETURN: Byte := 13
  const BLANK: Byte := 32
  const PERCENT: Byte := 37

  predicate IsBlank(c: Byte) { c == BLANK || c == TAB }

  /** A string literal of the program, as bytes. */
  function Bytes(s: string): (b: seq<Byte>)
    ensures |b| == |s|
  {
    seq(|s|, i requires 0 <= i < |s| => s[i] as int % 256)
  }

  lemma CharacterCodes()
    ensures Bytes(" ") == [BLANK] && Bytes("\t") == [TAB] && Bytes("\n") == [NEWLINE] && Bytes("\r") == [RETURN]
    ensures Bytes("%") == [PERCENT] && Bytes("\0") == [NUL]
    ensures forall c: Byte :: IsBlank(c) <==> [c] == Bytes(" ") || [c] == Bytes("\t")
  {
  }

  /** `now` is `was` with the `n` bytes at `dst` replaced by the `n` bytes `was` holds at `src`. */
  ghost predicate IsCopy(was: seq<Byte>, now: seq<Byte>, dst: nat, src: nat, n: nat)
    requires dst + n <= |was| && src + n <= |was|
  {
    && |now| == |was|
    && (forall i :: dst <= i < dst + n ==> now[i] == was[i - dst + src])
    && forall i :: 0 <= i < |was| && !(dst <= i < dst + n) ==> now[i] == was[i]
  }

  ghost predicate IsFill(was: seq<Byte>, now: seq<Byte>, dst: nat, c: Byte, n: nat)
    requires dst + n <= |was|
  {
    && |now| == |was|
    && (forall i :: dst <= i < dst + n ==> now[i] == c)
    && forall i :: 0 <= i < |was| && !(dst <= i < dst + n) ==> now[i] == was[i]
  }

  /** The contract of a block operation over an array, byte by byte. */
  ghost predicate Copied(was: seq<Byte>, mem: array<Byte>, dst: nat, src: nat, n: nat)
    reads mem
  {
    && dst + n <= |was| && src + n <= |was| && mem.Length == |was|
    && (forall i :: dst <= i < dst + n ==> mem[i] == was[i - dst + src])
    && (forall i :: 0 <= i < |was| && !(dst <= i < dst + n) ==> mem[i] == was[i])
  }

  ghost predicate Filled(was: seq<Byte>, mem: array<Byte>, dst: nat, c: Byte, n: nat)
    reads mem
  {
    && dst + n <= |was| && mem.Length == |was|
    && (forall i :: dst <= i < dst + n ==> mem[i] == c)
    && (forall i :: 0 <= i < |was| && !(dst <= i < dst + n) ==> mem[i] == was[i])
  }

  lemma CopiedIsCopy(was: seq<Byte>, mem: array<Byte>, dst: nat, src: nat, n: nat)
    requires Copied(was, mem, dst, src, n)
    ensures IsCopy(was, mem[..], dst, src, n)
  {
  }

  lemma FilledIsFill(was: seq<Byte>, mem: array<Byte>, dst: nat, c: Byte, n: nat)
    requires Filled(was, mem, dst, c, n)
    ensures IsFill(was, mem[..], dst, c, n)
  {
  }

  /** Bytes upwards until `n` are done or, if asked, a word boundary of the destination; of a copy
      out of `was`, `from` bytes are done already. */
  method MoveBytes(ghost was: seq<Byte>, mem: array<Byte>, base: nat, dst: nat, src: nat,
                   from: nat, n: nat, toBoundary: bool) returns (k: nat)
    requires from <= n && dst + n <= |was| && src + n <= |was|
    requires dst <= src || src + n <= dst
    requires Copied(was, mem, dst, src, from)
    modifies mem
    ensures from <= k <= n && Copied(was, mem, dst, src, k)
    ensures k == n || (toBoundary && (base + dst + k) % 4 == 0)
  {
    k := from;
    while k != n && !(toBoundary && (base + dst + k) % 4 == 0)
      invariant from <= k <= n
      invariant Copied(was, mem, dst, src, k)
    {
      mem[dst + k] := mem[src + k];
      k := k + 1;
    }
  }

  /** `rep movsl`: each 4-byte word is read, then written. */
  method MoveWords(ghost was: seq<Byte>, mem: array<Byte>, dst: nat, src: nat,
                   from: nat, words: nat)
    requires dst + from + 4 * words <= |was| && src + from + 4 * words <= |was|
    requires dst <= src || src + from + 4 * words <= dst
    requires Copied(was, mem, dst, src, from)
    modifies mem
    ensures Copied(was, mem, dst, src, from + 4 * words)
  {
    for i := 0 to words
      invariant Copied(was, mem, dst, src, from + 4 * i)
    {
      MoveWord(was, mem, dst, src, from + 4 * i);
    }
  }

  method MoveWord(ghost was: seq<Byte>, mem: array<Byte>, dst: nat, src: nat, done: nat)
    requires dst + done + 4 <= |was| && src + done + 4 <= |was|
    requires dst <= src || src + done + 4 <= dst
    requires Copied(was, mem, dst, src, done)
    modifies mem
    ensures Copied(was, mem, dst, src, done + 4)
  {
    var d, x := dst + done, src + done;
    mem[d], mem[d + 1], mem[d + 2], mem[d + 3] := mem[x], mem[x + 1], mem[x + 2], mem[x + 3];
  }

  /** memcpy is exact on disjoint ranges and whenever the destination is the lower one. */
  method Memcpy(mem: array<Byte>, base: nat, dst: nat, src: nat, n: nat)
    requires dst + n <= mem.Length && src + n <= mem.Length
    requires dst <= src || src + n <= dst
    modifies mem
    ensures IsCopy(old(mem[..]), mem[..], dst, src, n)
  {
    ghost var was := mem[..];
    var k := MoveBytes(was, mem, base, dst, src, 0, n, true);
    if k != n {
      var words := (n - k) / 4;
      MoveWords(was, mem, dst, src, k, words);
      k := MoveBytes(was, mem, base, dst, src, k + 4 * words, n, false);
    }
    CopiedIsCopy(was, mem, dst, src, n);
  }

  /** The same three runs for memset, which stores the low byte of `c`. */
  method Memset(mem: array<Byte>, base: nat, dst: nat, c: int, n: nat)
    requires dst + n <= mem.Length
    modifies mem
    ensures IsFill(old(mem[..]), mem[..], dst, c % 256, n)
  {
    ghost var was := mem[..];
    var al: Byte := c % 256;
    var k := 0;
    while k != n && (base + dst + k) % 4 != 0
      invariant 0 <= k <= n && Filled(was, mem, dst, al, k)
    {
      mem[dst + k] := al;
      k := k + 1;
    }
    var words := (n - k) / 4;
    StoreWords(was, mem, dst, al, k, words);
    k := k + 4 * words;
    while k != n
      invariant 0 <= k <= n && Filled(was, mem, dst, al, k)
    {
      mem[dst + k] := al;
      k := k + 1;
    }
    FilledIsFill(was, mem, dst, al, n);
  }

  /** `rep stosl` of a word made of four copies of `al`. */
  method StoreWords(ghost was: seq<Byte>, mem: array<Byte>, dst: nat, al: Byte, from: nat, words: nat)
    requires dst + from + 4 * words <= |was| && Filled(was, mem, dst, al, from)
    modifies mem
    ensures Filled(was, mem, dst, al, from + 4 * words)
  {
    for i := 0 to words
      invariant Filled(was, mem, dst, al, from + 4 * i)
    {
      var d := dst + from + 4 * i;
      mem[d], mem[d + 1], mem[d + 2], mem[d + 3] := al, al, al, al;
    }
  }

  /** memmove delivers the old source bytes for every overlap. */
  method Memmove(mem: array<Byte>, dst: nat, src: nat, n: nat)
    requires dst + n <= mem.Length && src + n <= mem.Length
    modifies mem
    ensures IsCopy(old(mem[..]), mem[..], dst, src, n)
  {
    ghost var was := mem[..];
    var edi, esi, ecx := dst, src, n;
    var step := 1;
    if esi < edi {
      esi := -1 + esi + ecx;
      edi := -1 + edi + ecx;
      step := -1;
    }
    while ecx != 0
      invariant 0 <= ecx <= n
      invariant if src >= dst then
                  step == 1 && edi == dst + (n - ecx) && esi == src + (n - ecx) &&
                  Copied(was, mem, dst, src, n - ecx)
                else
                  step == -1 && edi == dst + ecx - 1 && esi == src + ecx - 1 &&
                  Copied(was, mem, dst + ecx, src + ecx, n - ecx)
    {
      mem[edi] := mem[esi];
      edi, esi, ecx := edi + step, esi + step, ecx - 1;
    }
    CopiedIsCopy(was, mem, dst, src, n);
  }
}
