/** Printing numbers: digits are written lowest first and the string is reversed in place. */
module Numbers {
  import opened Arithmetic
  import opened Memory

  const ZERO: Byte := 48
  const UINT32: nat := 0x1_0000_0000

  /** The lookup table: '0'..'9', then 'A'..'Z'. */
  function Digit(d: int): Byte
    requires 0 <= d < 36
  {
    if d < 10 then 48 + d else 55 + d
  }

  /** The table is "0123456789" and then the capital letters in order. */
  lemma DigitTable(d: int)
    requires 0 <= d < 36
    ensures d < 10 ==> Digit(d) == '0' as int + d
    ensures d >= 10 ==> Digit(d) == 'A' as int + (d - 10) <= 'Z' as int
    ensures DigitValue(Digit(d)) == d
  {
  }

  predicate IsDigit(c: Byte, radix: int) {
    2 <= radix <= 36 && (48 <= c < 58 || 65 <= c < 91) && DigitValue(c) < radix
  }

  function DigitValue(c: Byte): int { if c < 58 then c - 48 else c - 55 }

  ghost predicate Digits(s: seq<Byte>, radix: int) {
    forall i :: 0 <= i < |s| ==> IsDigit(s[i], radix)
  }

  /** The number that a digit string, highest digit first, stands for. */
  function Value(s: seq<Byte>, radix: int): int {
    if s == [] then 0 else Value(s[..|s| - 1], radix) * radix + DigitValue(s[|s| - 1])
  }

  /** The same for a string with its lowest digit first. */
  function ValueLow(s: seq<Byte>, radix: int): int {
    if s == [] then 0 else DigitValue(s[0]) + radix * ValueLow(s[1..], radix)
  }

  function Reversed(s: seq<Byte>): (r: seq<Byte>)
    ensures |r| == |s| && forall i :: 0 <= i < |s| ==> r[i] == s[|s| - 1 - i]
  {
    if s == [] then [] else Reversed(s[1..]) + [s[0]]
  }

  lemma {:induction false} ReversedValue(s: seq<Byte>, radix: int)
    ensures Value(Reversed(s), radix) == ValueLow(s, radix)
  {
    if s != [] {
      ReversedValue(s[1..], radix);
      var r := Reversed(s);
      assert r[..|r| - 1] == Reversed(s[1..]);
    }
  }

  /** A printed number: digits of the radix, no leading zero except for zero itself. */
  ghost predicate Printed(s: seq<Byte>, value: nat, radix: int) {
    && Digits(s, radix) && |s| > 0
    && Value(s, radix) == value
    && (s[0] == ZERO ==> s == [ZERO])
  }

  /** Adding a digit at the high end of a string written lowest first. */
  lemma {:induction false} ValueLowAppend(s: seq<Byte>, c: Byte, radix: int)
    ensures ValueLow(s + [c], radix) == ValueLow(s, radix) + Power(radix, |s|) * DigitValue(c)
  {
    if s == [] {
      assert s + [c] == [c];
      assert ValueLow([c][1..], radix) == 0;
    } else {
      assert (s + [c])[1..] == s[1..] + [c];
      ValueLowAppend(s[1..], c, radix);
      Distribute(radix, ValueLow(s[1..], radix), Power(radix, |s| - 1), DigitValue(c));
    }
  }

  lemma Distribute(r: int, a: int, p: int, d: int)
    ensures r * (a + p * d) == r * a + (r * p) * d
  {
  }

  function Power(b: int, n: nat): int { if n == 0 then 1 else b * Power(b, n - 1) }

  /** The C string at `from` has `n` characters. */
  ghost predicate Terminated(s: seq<Byte>, from: nat, n: nat) {
    from + n < |s| && s[from + n] == NUL && forall i :: from <= i < from + n ==> s[i] != NUL
  }

  method Strlen(s: array<Byte>, from: nat, ghost n: nat) returns (len: int)
    requires Terminated(s[..], from, n)
    ensures len == n
  {
    len := 0;
    while s[from + len] != NUL
      invariant 0 <= len <= n
      decreases n - len
    {
      len := len + 1;
    }
  }

  /** strrev on the string at `from`. */
  method Strrev(s: array<Byte>, from: nat, ghost n: nat)
    requires Terminated(s[..], from, n)
    modifies s
    ensures s[from..from + n] == Reversed(old(s[from..from + n]))
    ensures forall i :: 0 <= i < s.Length && !(from <= i < from + n) ==> s[i] == old(s[i])
  {
    ghost var was := s[..];
    var len := Strlen(s, from, n);
    var beg: int, end: int := 0, len - 1;
    while beg < end
      invariant 0 <= beg && beg + end == len - 1 && beg <= end + 2
      invariant Swapped(was, s[..], from, len, beg)
      decreases end - beg
    {
      ghost var now := s[..];
      Swap(s, from + beg, from + end);
      SwapStep(was, now, s[..], from, len, beg);
      beg, end := beg + 1, end - 1;
    }
    AllSwapped(was, s[..], from, len, beg);
  }

  /** The outer `beg` characters on both sides of a string have changed places. */
  ghost predicate Swapped(was: seq<Byte>, now: seq<Byte>, from: nat, len: nat, beg: nat) {
    && |now| == |was| && from + len < |was|
    && (forall k :: 0 <= k < |was| && !(from <= k < from + len) ==> now[k] == was[k])
    && (forall k :: from <= k < from + len && from + beg <= k < from + len - beg ==> now[k] == was[k])
    && forall k :: from <= k < from + len && !(from + beg <= k < from + len - beg) ==>
         now[k] == was[2 * from + len - 1 - k]
  }

  lemma SwapStep(was: seq<Byte>, now: seq<Byte>, next: seq<Byte>, from: nat, len: nat, beg: nat)
    requires Swapped(was, now, from, len, beg) && 2 * beg < len - 1
    requires var i, j := from + beg, from + (len - 1 - beg);
      next == now[i := now[j]][j := now[i]]
    ensures Swapped(was, next, from, len, beg + 1)
  {
  }

  lemma AllSwapped(was: seq<Byte>, now: seq<Byte>, from: nat, len: nat, beg: nat)
    requires Swapped(was, now, from, len, beg) && 2 * beg >= len - 1
    ensures now[from..from + len] == Reversed(was[from..from + len])
    ensures forall i :: 0 <= i < |was| && !(from <= i < from + len) ==> now[i] == was[i]
  {
    var r := Reversed(was[from..from + len]);
    forall i | 0 <= i < len
      ensures now[from + i] == r[i]
    {
      assert r[i] == was[from..from + len][len - 1 - i] == was[from + (len - 1 - i)];
    }
    assert now[from..from + len] == r;
  }

  lemma {:induction false} PowerSum(b: int, m: nat, n: nat)
    ensures Power(b, m + n) == Power(b, m) * Power(b, n)
  {
    if m > 0 {
      PowerSum(b, m - 1, n);
    }
  }

  method Swap(s: array<Byte>, i: nat, j: nat)
    requires i < s.Length && j < s.Length
    modifies s
    ensures s[..] == old(s[..])[i := old(s[j])][j := old(s[i])]
  {
    var tmp := s[j];
    s[j] := s[i];
    s[i] := tmp;
  }

  // ----- itoa -----

  /** The string at `from` is the digits of `value`, and nothing before it has changed. */
  ghost predicate Wrote(s: seq<Byte>, from: nat, n: nat, value: nat, radix: int) {
    from + n < |s| && s[from + n] == NUL && Printed(s[from..from + n], value, radix)
  }

  lemma DigitsHaveNoNul(s: seq<Byte>, radix: int)
    requires Digits(s, radix)
    ensures NUL !in s
  {
  }

  /** The digits written so far, lowest first, and the part of the value still to be written. */
  ghost predicate Partial(low: seq<Byte>, newval: nat, value: nat, radix: int) {
    && Digits(low, radix)
    && value == ValueLow(low, radix) + Power(radix, |low|) * newval
    && (newval == 0 && low != [] ==> low[|low| - 1] != ZERO)
  }

  lemma NextDigit(low: seq<Byte>, newval: nat, q: nat, d: nat, value: nat, radix: int)
    requires 2 <= radix <= 36 && Partial(low, newval, value, radix)
    requires newval > 0 && newval == radix * q + d && d < radix
    ensures Partial(low + [Digit(d)], q, value, radix)
  {
    ValueLowAppend(low, Digit(d), radix);
    SplitProduct(Power(radix, |low|), radix, q, d);
  }

  lemma SplitProduct(p: int, r: int, q: int, d: int)
    ensures p * (r * q + d) == p * d + (r * p) * q
  {
  }

  lemma PowerOfTwo32()
    ensures Power(2, 32) == UINT32
  {
    PowerSum(2, 8, 8);
    PowerSum(2, 16, 16);
  }

  /** The state of the digit loop; a 32-bit value has at most 32 digits. */
  ghost predicate Progress(low: seq<Byte>, newval: nat, value: nat, radix: int) {
    |low| <= 32 && newval < Power(2, 32 - |low|) && Partial(low, newval, value, radix)
  }

  lemma ProgressStep(low: seq<Byte>, newval: nat, q: nat, d: nat, value: nat, radix: int)
    requires 2 <= radix <= 36 && newval > 0 && Progress(low, newval, value, radix)
    requires newval == radix * q + d && d < radix
    ensures |low| < 32 && Progress(low + [Digit(d)], q, value, radix)
    ensures q < newval
  {
    NextDigit(low, newval, q, d, value, radix);
    TwiceAtMost(q, radix);
  }

  lemma TwiceAtMost(q: nat, radix: int)
    requires radix >= 2
    ensures 2 * q <= radix * q
  {
  }

  lemma DivisionSplits(n: nat, r: int)
    requires r >= 2
    ensures n == r * (n / r) + n % r && 0 <= n % r < r && 0 <= n / r
  {
  }

  /** The digit loop of itoa. */
  method WriteLow(value: nat, buf: array<Byte>, from: nat, radix: int) returns (len: nat)
    requires 2 <= radix <= 36 && value < UINT32 && from + 33 <= buf.Length
    modifies buf
    ensures len <= 32 && Partial(buf[from..from + len], 0, value, radix)
    ensures forall i :: 0 <= i < buf.Length && !(from <= i < from + len) ==> buf[i] == old(buf[i])
  {
    PowerOfTwo32();
    var newval: nat := value;
    len := 0;
    ghost var low: seq<Byte> := [];
    while newval > 0
      invariant len == |low| <= 32 && Progress(low, newval, value, radix)
      invariant forall i :: from <= i < from + len ==> buf[i] == low[i - from]
      invariant forall i :: 0 <= i < buf.Length && !(from <= i < from + len) ==> buf[i] == old(buf[i])
      decreases newval
    {
      DivisionSplits(newval, radix);
      var i, q := newval % radix, newval / radix;
      ProgressStep(low, newval, q, i, value, radix);
      newval := q;
      buf[from + len] := Digit(i);
      low := low + [Digit(i)];
      len := len + 1;
    }
    assert buf[from..from + len] == low;
  }

  method Itoa(value: nat, buf: array<Byte>, from: nat, radix: int) returns (ghost n: nat)
    requires 2 <= radix <= 36 && value < UINT32 && from + 33 <= buf.Length
    modifies buf
    ensures n <= 32 && Wrote(buf[..], from, n, value, radix)
    ensures forall i :: 0 <= i < buf.Length && !(from <= i <= from + n) ==> buf[i] == old(buf[i])
  {
    if value == 0 {
      buf[from] := ZERO;
      buf[from + 1] := NUL;
      assert buf[from..from + 1] == [ZERO];
      return 1;
    }
    n := ItoaPositive(value, buf, from, radix);
  }

  method ItoaPositive(value: nat, buf: array<Byte>, from: nat, radix: int) returns (ghost n: nat)
    requires 2 <= radix <= 36 && 0 < value < UINT32 && from + 33 <= buf.Length
    modifies buf
    ensures n <= 32 && Wrote(buf[..], from, n, value, radix)
    ensures forall i :: 0 <= i < buf.Length && !(from <= i <= from + n) ==> buf[i] == old(buf[i])
  {
    var len := WriteLow(value, buf, from, radix);
    ghost var low := buf[from..from + len];
    DigitsHaveNoNul(low, radix);
    Finished(low, value, radix);
    TurnRound(buf, from, len, low);
    return len;
  }

  /** Terminate the digits and reverse them. */
  method TurnRound(buf: array<Byte>, from: nat, len: nat, ghost low: seq<Byte>)
    requires from + len < buf.Length && low == buf[from..from + len] && NUL !in low
    modifies buf
    ensures buf[from..from + len] == Reversed(low) && buf[from + len] == NUL
    ensures forall i :: 0 <= i < buf.Length && !(from <= i <= from + len) ==> buf[i] == old(buf[i])
  {
    buf[from + len] := NUL;
    assert forall i :: from <= i < from + len ==> buf[i] == low[i - from];
    assert buf[from..from + len] == low;
    Strrev(buf, from, len);
  }

  lemma Finished(low: seq<Byte>, value: nat, radix: int)
    requires 2 <= radix <= 36 && value > 0 && Partial(low, 0, value, radix)
    ensures Printed(Reversed(low), value, radix)
  {
    ReversedValue(low, radix);
    assert low != [];
  }

  // ----- Printing and reading back -----

  lemma {:induction false} ValueAtLeast(s: seq<Byte>, radix: int)
    requires 2 <= radix <= 36 && Digits(s, radix) && s != [] && s[0] != ZERO
    ensures Value(s, radix) >= Power(radix, |s| - 1) >= 1
    decreases |s|
  {
    var n := |s| - 1;
    if n > 0 {
      ValueAtLeast(s[..n], radix);
      MulMonotone(Power(radix, n - 1), Value(s[..n], radix), radix);
    }
  }

  lemma MulMonotone(a: int, b: int, r: int)
    requires 1 <= a <= b && r >= 1
    ensures 1 <= r * a <= b * r
  {
  }

  lemma {:induction false} ValueNonNegative(s: seq<Byte>, radix: int)
    requires Digits(s, radix) && radix >= 0
    ensures Value(s, radix) >= 0
    decreases |s|
  {
    if s != [] {
      ValueNonNegative(s[..|s| - 1], radix);
    }
  }

  /** A value has only one digit string without leading zeros. */
  lemma {:induction false} DigitsAreUnique(s: seq<Byte>, t: seq<Byte>, radix: int)
    requires 2 <= radix <= 36 && Digits(s, radix) && Digits(t, radix)
    requires (s == [] || s[0] != ZERO) && (t == [] || t[0] != ZERO)
    requires Value(s, radix) == Value(t, radix)
    ensures s == t
    decreases |s|
  {
    if s == [] {
      if t != [] {
        ValueAtLeast(t, radix);
      }
    } else if t == [] {
      ValueAtLeast(s, radix);
    } else {
      var m, n := |s| - 1, |t| - 1;
      LastDigit(s, t, radix);
      DigitsAreUnique(s[..m], t[..n], radix);
      assert s == s[..m] + [s[m]] && t == t[..n] + [t[n]];
    }
  }

  lemma LastDigit(s: seq<Byte>, t: seq<Byte>, radix: int)
    requires 2 <= radix <= 36 && Digits(s, radix) && Digits(t, radix) && s != [] && t != []
    requires Value(s, radix) == Value(t, radix)
    ensures s[|s| - 1] == t[|t| - 1]
    ensures Value(s[..|s| - 1], radix) == Value(t[..|t| - 1], radix)
  {
    var m, n := |s| - 1, |t| - 1;
    ValueNonNegative(s[..m], radix);
    ValueNonNegative(t[..n], radix);
    var x, d, y, e := Value(s[..m], radix), DigitValue(s[m]), Value(t[..n], radix), DigitValue(t[n]);
    assert IsDigit(s[m], radix) && IsDigit(t[n], radix);
    assert radix * x + d == radix * y + e;
    QuotientIsUnique(radix, x, d, y, e);
  }

  /** Reading a printed number gives the number, and only one string prints it. */
  lemma PrintedIsUnique(s: seq<Byte>, t: seq<Byte>, value: nat, radix: int)
    requires 2 <= radix <= 36 && Printed(s, value, radix) && Printed(t, value, radix)
    ensures s == t
  {
    if s[0] != ZERO && t[0] != ZERO {
      DigitsAreUnique(s, t, radix);
    } else if s[0] != ZERO {
      ValueAtLeast(s, radix);
      ZeroPrints(t, radix);
    } else if t[0] != ZERO {
      ValueAtLeast(t, radix);
      ZeroPrints(s, radix);
    }
  }

  lemma ZeroPrints(s: seq<Byte>, radix: int)
    requires s == [ZERO]
    ensures Value(s, radix) == 0
  {
    assert s[..0] == [];
  }

  // ----- Eight hexadecimal digits -----

  lemma HexLength(s: seq<Byte>, value: nat)
    requires Printed(s, value, 16) && value < UINT32
    ensures |s| <= 8
  {
    if s[0] != ZERO && |s| > 8 {
      ValueAtLeast(s, 16);
      PowerSum(16, 4, 4);
      PowerSum(16, 8, |s| - 9);
      PowerPositive(16, |s| - 9);
    }
  }

  lemma {:induction false} PowerPositive(b: int, n: nat)
    requires b >= 1
    ensures Power(b, n) >= 1
  {
    if n > 0 {
      PowerPositive(b, n - 1);
    }
  }

  lemma {:induction false} LeadingZeros(s: seq<Byte>, k: nat, radix: int)
    ensures Value(seq(k, _ => ZERO) + s, radix) == Value(s, radix)
    decreases k, |s|
  {
    var z := seq(k, _ => ZERO) + s;
    if s == [] {
      if k > 0 {
        assert z[..k - 1] == seq(k - 1, _ => ZERO) + [];
        LeadingZeros([], k - 1, radix);
      }
    } else {
      assert z[..|z| - 1] == seq(k, _ => ZERO) + s[..|s| - 1];
      LeadingZeros(s[..|s| - 1], k, radix);
    }
  }

  /** The characters from `from` on up to the eighth become zeros. */
  method FillZeros(convBuf: array<Byte>, from: nat)
    requires from <= 8 <= convBuf.Length
    modifies convBuf
    ensures forall j :: 0 <= j < convBuf.Length ==>
      convBuf[j] == if from <= j < 8 then ZERO else old(convBuf[j])
  {
    var i := from;
    while i < 8
      invariant from <= i <= 8
      invariant forall j :: 0 <= j < convBuf.Length ==>
        convBuf[j] == if from <= j < i then ZERO else old(convBuf[j])
    {
      convBuf[i] := ZERO;
      i := i + 1;
    }
  }

  /** The `%#x` case of printf: the string that is put out. */
  method HexAligned(value: nat) returns (out: seq<Byte>)
    requires value < UINT32
    ensures |out| == 8 && Digits(out, 16) && Value(out, 16) == value
  {
    var convBuf := new Byte[64](_ => 0);
    var n := Itoa(value, convBuf, 8, 16);
    ghost var digits := convBuf[8..8 + n];
    HexLength(digits, value);
    DigitsHaveNoNul(digits, 16);
    assert forall i :: 8 <= i < 8 + n ==> convBuf[i] == digits[i - 8];
    var startingIndex := Strlen(convBuf, 8, n);
    assert forall j :: 0 <= j < n ==> digits[j] in digits;
    FillZeros(convBuf, startingIndex);
    var length := Strlen(convBuf, startingIndex, 8);
    out := convBuf[startingIndex..startingIndex + length];
    ghost var zeros := seq(8 - n, _ => ZERO);
    forall j | 0 <= j < 8
      ensures out[j] == (zeros + digits)[j]
    {
      assert out[j] == convBuf[n + j];
    }
    assert out == zeros + digits;
    LeadingZeros(digits, 8 - n, 16);
  }
}
