/** The strtoul of libfdt_env.h, and exactly what it returns for well-formed numbers. */
module Strtoul {
  import opened Bytes

  const PLUS_SIGN: Byte := 0x2b
  const ZERO: Byte := 0x30
  const UINT32_MAX: nat := 0xffff_ffff

  predicate IsAlnum(c: Byte) {
    0x30 <= c <= 0x39 || 0x41 <= c <= 0x5a || 0x61 <= c <= 0x7a
  }

  function ToUpper(c: Byte): (u: Byte)
  {
    if 0x61 <= c <= 0x7a then c - 0x20 else c
  }

  predicate IsX(c: Byte) { ToUpper(c) == 0x58 }

  /** Digit2Val of an alphanumeric character. */
  function Digit2Val(c: Byte): (v: nat)
    requires IsAlnum(c)
    ensures v < 36
  {
    if c <= 0x39 then c - 0x30 else ToUpper(c) - 7 - 0x30
  }

  /** Digits count from '0', letters on from 10, in either case. */
  lemma Digit2ValIs(v: nat)
    requires v < 36
    ensures v < 10 ==> IsAlnum(0x30 + v) && Digit2Val(0x30 + v) == v
    ensures v >= 10 ==> IsAlnum(0x41 + v - 10) && Digit2Val(0x41 + v - 10) == v
    ensures v >= 10 ==> IsAlnum(0x61 + v - 10) && Digit2Val(0x61 + v - 10) == v
  {
  }

  predicate IsDigit(c: Byte, base: nat) {
    IsAlnum(c) && Digit2Val(c) < base
  }

  /** The characters that stand for a digit value. */
  function DigitChars(v: nat): (cs: set<int>)
    requires v < 36
  {
    if v < 10 then {0x30 + v} else {0x41 + (v - 10), 0x61 + (v - 10)}
  }

  /** A character is a digit of a base exactly if it stands for a value below it, and that is its value. */
  lemma IsDigitIff(c: Byte, base: nat)
    ensures IsDigit(c, base) <==> exists v :: 0 <= v < 36 && v < base && c in DigitChars(v)
    ensures IsAlnum(c) <==> exists v :: 0 <= v < 36 && c in DigitChars(v)
    ensures IsX(c) <==> c == 0x58 || c == 0x78
  {
    if IsAlnum(c) {
      assert c in DigitChars(Digit2Val(c));
    }
    forall v | 0 <= v < 36 && c in DigitChars(v)
      ensures IsAlnum(c) && Digit2Val(c) == v
    {
    }
  }

  /** The first position from `i` on that does not hold `c`. */
  function SkipAll(s: seq<Byte>, c: Byte, i: nat): (k: nat)
    requires c != 0
    ensures i <= k && At(s, k) != c
    ensures forall j :: i <= j < k ==> At(s, j) == c
    decreases |s| - i
  {
    if At(s, i) == c then SkipAll(s, c, i + 1) else i
  }

  /** Where the digits start, and in which base, once the prefix has been looked at. */
  function Prefix(s: seq<Byte>, i: nat, base: nat): (r: (nat, nat))
  {
    if At(s, i) == ZERO && IsX(At(s, i + 1)) && (base == 0 || base == 16) then (i + 2, 16)
    else if At(s, i) == ZERO && !IsX(At(s, i + 1)) && (base == 0 || base == 8) then (i + 1, 8)
    else (i, if base == 0 then 10 else base)
  }

  /** A value with one more digit. */
  function Push(value: nat, base: nat, digit: nat): (v: nat)
  {
    value * base + digit
  }

  lemma PushGrows(value: nat, base: nat, digit: nat)
    requires base >= 1
    ensures Push(value, base, digit) >= value
  {
    assert value * base >= value;
  }

  /** An unsigned long. */
  function Truncate(v: nat, max: nat): (w: nat)
    ensures w <= max && (v <= max ==> w == v)
  {
    v % (max + 1)
  }

  /** The digit loop: the value and the position where it stops. */
  function Convert(acc: nat, s: seq<Byte>, i: nat, base: nat, max: nat): (r: (nat, nat))
    decreases |s| - i
  {
    if !IsDigit(At(s, i), base) then (acc, i)
    else
      var next := Truncate(Push(acc, base, Digit2Val(At(s, i))), max);
      if next < acc then (UINT32_MAX, i) else Convert(next, s, i + 1, base, max)
  }

  /** The position where prefix and digits are looked for. */
  function StartOf(s: seq<Byte>): (i: nat)
  {
    var p := SkipAll(s, SPACE, 0);
    if At(s, p) == PLUS_SIGN then p + 1 else p
  }

  /** The returned value and *endptr, None for NULL. `max` is the largest unsigned long. */
  function Result(s: seq<Byte>, base: int, max: nat): (r: (nat, Option<nat>))
  {
    if base < 0 || base == 1 || base > 36 then (0, None)
    else
      var (q, b) := Prefix(s, StartOf(s), base);
      var z := SkipAll(s, ZERO, q);
      var (value, end) := Convert(0, s, z, b, max);
      (value, Some(if end > z then end else if z > q then z else 0))
  }

  /** A base that is negative, 1 or above 36 is refused with the value 0 and *endptr NULL, and no other base is. */
  lemma RefusedIff(s: seq<Byte>, base: int, max: nat)
    ensures Result(s, base, max).1 == None <==> !(base == 0 || 2 <= base <= 36)
    ensures Result(s, base, max).1 == None ==> Result(s, base, max).0 == 0
  {
    hide Convert, SkipAll, Prefix, StartOf;
  }

  method SkipLoop(s: seq<Byte>, c: Byte, from: nat) returns (nptr: nat)
    requires c != 0
    ensures nptr == SkipAll(s, c, from)
  {
    nptr := from;
    while At(s, nptr) == c
      invariant SkipAll(s, c, from) == SkipAll(s, c, nptr)
      decreases |s| - nptr
    {
      nptr := nptr + 1;
    }
  }

  /** The digit loop; pEnd follows nptr as soon as a digit has been taken. */
  method ConvertLoop(s: seq<Byte>, z: nat, base: nat, max: nat, pEnd0: nat) returns (result: nat, pEnd: nat)
    ensures var (value, end) := Convert(0, s, z, base, max);
            result == value && pEnd == if end > z then end else pEnd0
  {
    hide IsDigit, Push, Truncate;
    result, pEnd := 0, pEnd0;
    var nptr := z;
    while IsDigit(At(s, nptr), base)
      invariant z <= nptr
      invariant Convert(0, s, z, base, max) == Convert(result, s, nptr, base, max)
      invariant pEnd == if nptr > z then nptr else pEnd0
      decreases |s| - nptr
    {
      NotPastEnd(s, nptr, base);
      var previous := result;
      result := Truncate(Push(result, base, Digit2Val(At(s, nptr))), max);
      if result < previous {
        result := UINT32_MAX;
        break;
      }
      nptr := nptr + 1;
      pEnd := nptr;
    }
  }

  method SkipPrefix(s: seq<Byte>, from: nat, givenBase: nat) returns (nptr: nat, base: nat)
    ensures (nptr, base) == Prefix(s, from, givenBase)
  {
    hide IsX;
    nptr, base := from, givenBase;
    if At(s, nptr) == ZERO {
      if IsX(At(s, nptr + 1)) {
        if base == 0 || base == 16 {
          nptr, base := nptr + 2, 16;
        }
      } else if base == 0 || base == 8 {
        nptr, base := nptr + 1, 8;
      }
    }
    if base == 0 {
      base := 10;
    }
  }

  method StrToUl(s: seq<Byte>, givenBase: int, max: nat) returns (result: nat, endptr: Option<nat>)
    ensures (result, endptr) == Result(s, givenBase, max)
  {
    hide Convert, SkipAll, Prefix;
    var base := givenBase;
    if base < 0 || base == 1 || base > 36 {
      return 0, None;
    }
    var pEnd := 0;
    var nptr := SkipLoop(s, SPACE, 0);
    if At(s, nptr) == PLUS_SIGN {
      nptr := nptr + 1;
    }
    nptr, base := SkipPrefix(s, nptr, base);
    if At(s, nptr) == ZERO {
      nptr := SkipLoop(s, ZERO, nptr);
      pEnd := nptr;
    } else {
      NothingSkipped(s, ZERO, nptr);
    }
    result, pEnd := ConvertLoop(s, nptr, base, max, pEnd);
    return result, Some(pEnd);
  }

  lemma NothingSkipped(s: seq<Byte>, c: Byte, i: nat)
    requires c != 0
    ensures SkipAll(s, c, i) == i <==> At(s, i) != c
  {
  }

  lemma NotPastEnd(s: seq<Byte>, i: nat, base: nat)
    requires IsDigit(At(s, i), base)
    ensures i < |s| && IsAlnum(At(s, i))
  {
  }

  // ----- What the digit loop returns -----

  predicate AllDigits(s: seq<Byte>, base: nat) {
    forall i :: 0 <= i < |s| ==> IsDigit(s[i], base)
  }

  /** The positional value of digits. */
  function Value(digits: seq<Byte>, base: nat): (v: nat)
    requires AllDigits(digits, base)
  {
    if digits == [] then 0
    else Push(Value(digits[..|digits| - 1], base), base, Digit2Val(digits[|digits| - 1]))
  }

  /** The value of the first `k` digits. */
  function Upto(digits: seq<Byte>, k: nat, base: nat): (v: nat)
    requires AllDigits(digits, base) && k <= |digits|
  {
    Value(digits[..k], base)
  }

  lemma UptoNext(digits: seq<Byte>, k: nat, base: nat)
    requires AllDigits(digits, base) && k < |digits|
    ensures Upto(digits, k + 1, base) == Push(Upto(digits, k, base), base, Digit2Val(digits[k]))
  {
    hide IsDigit, Push;
    assert digits[..k + 1][..k] == digits[..k];
  }

  lemma UptoAll(digits: seq<Byte>, base: nat)
    requires AllDigits(digits, base)
    ensures Upto(digits, |digits|, base) == Value(digits, base) && Upto(digits, 0, base) == 0
  {
    assert digits[..|digits|] == digits;
  }

  /** More digits never make less. */
  lemma {:induction false} UptoGrows(digits: seq<Byte>, j: nat, k: nat, base: nat)
    requires AllDigits(digits, base) && j <= k <= |digits| && base >= 1
    ensures Upto(digits, j, base) <= Upto(digits, k, base)
    decreases k - j
  {
    hide IsDigit, Push, Upto;
    if j < k {
      UptoNext(digits, k - 1, base);
      PushGrows(Upto(digits, k - 1, base), base, DigitAt(digits, k - 1, base));
      UptoGrows(digits, j, k - 1, base);
    }
  }

  function DigitAt(digits: seq<Byte>, k: nat, base: nat): (d: nat)
    requires AllDigits(digits, base) && k < |digits|
    ensures d == Digit2Val(digits[k])
  {
    Digit2Val(digits[k])
  }

  /** The first `k` digits in an unsigned long. */
  function Wrapped(digits: seq<Byte>, k: nat, base: nat, max: nat): (w: nat)
    requires AllDigits(digits, base) && k <= |digits|
    ensures w <= max && (Upto(digits, k, base) <= max ==> w == Upto(digits, k, base))
  {
    Truncate(Upto(digits, k, base), max)
  }

  /** One more digit makes the unsigned long smaller: what the overflow test looks for. */
  predicate DropsAt(digits: seq<Byte>, k: nat, base: nat, max: nat)
    requires AllDigits(digits, base) && k < |digits|
  {
    Wrapped(digits, k + 1, base, max) < Wrapped(digits, k, base, max)
  }

  /** The first digit from the i-th on at which the unsigned long drops, or the number of digits. */
  function FirstDrop(digits: seq<Byte>, i: nat, base: nat, max: nat): (k: nat)
    requires AllDigits(digits, base) && i <= |digits|
    ensures i <= k <= |digits| && (k < |digits| ==> DropsAt(digits, k, base, max))
    ensures forall j :: i <= j < k ==> !DropsAt(digits, j, base, max)
    decreases |digits| - i
  {
    if i == |digits| || DropsAt(digits, i, base, max) then i else FirstDrop(digits, i + 1, base, max)
  }

  /** What the digits are read as, and how many of them are taken. */
  function Returned(digits: seq<Byte>, base: nat, max: nat): (r: (nat, nat))
    requires AllDigits(digits, base)
    ensures r.1 <= |digits|
  {
    var k := FirstDrop(digits, 0, base, max);
    (if k < |digits| then UINT32_MAX else Wrapped(digits, k, base, max), k)
  }

  lemma PushMultiple(q: nat, m: nat, r: nat, base: nat, digit: nat)
    ensures Push(q * m + r, base, digit) == (q * base) * m + Push(r, base, digit)
  {
    assert (q * m) * base == (q * base) * m;
  }

  /** Truncating before the next digit is pushed changes nothing after truncating. */
  lemma TruncatePush(v: nat, base: nat, digit: nat, max: nat)
    ensures Truncate(Push(Truncate(v, max), base, digit), max) == Truncate(Push(v, base, digit), max)
  {
    hide Push;
    var m := max + 1;
    var q, r := v / m, v % m;
    assert v == q * m + r;
    PushMultiple(q, m, r, base, digit);
    var pushed := Push(r, base, digit);
    var q2, r2 := pushed / m, pushed % m;
    assert pushed == q2 * m + r2;
    assert (q * base) * m + (q2 * m + r2) == (q * base + q2) * m + r2;
    ModIs(Push(v, base, digit), q * base + q2, r2, m);
  }

  lemma WrappedNext(digits: seq<Byte>, k: nat, base: nat, max: nat)
    requires AllDigits(digits, base) && k < |digits|
    ensures Truncate(Push(Wrapped(digits, k, base, max), base, Digit2Val(digits[k])), max) == Wrapped(digits, k + 1, base, max)
  {
    hide Push, Truncate, IsDigit, Upto;
    UptoNext(digits, k, base);
    TruncatePush(Upto(digits, k, base), base, DigitAt(digits, k, base), max);
  }

  /** Text from `i` on that is these digits followed by no further digit. */
  ghost predicate DigitsAt(s: seq<Byte>, i: nat, digits: seq<Byte>, base: nat) {
    && AllDigits(digits, base)
    && i + |digits| <= |s| && s[i..i + |digits|] == digits
    && !IsDigit(At(s, i + |digits|), base)
  }

  lemma DigitsAtIs(s: seq<Byte>, i: nat, digits: seq<Byte>, base: nat, k: nat)
    requires DigitsAt(s, i, digits, base) && k < |digits|
    ensures At(s, i + k) == digits[k] && IsDigit(digits[k], base)
  {
    assert s[i..i + |digits|][k] == s[i + k];
  }

  /** The loop, from its k-th digit on, for every digit string. */
  lemma {:induction false} ConvertIs(s: seq<Byte>, i: nat, digits: seq<Byte>, k: nat, base: nat, max: nat)
    requires DigitsAt(s, i, digits, base) && k <= |digits|
    ensures var d := FirstDrop(digits, k, base, max);
            Convert(Wrapped(digits, k, base, max), s, i + k, base, max) ==
              (if d < |digits| then UINT32_MAX else Wrapped(digits, d, base, max), i + d)
    decreases |digits| - k
  {
    hide IsDigit, Push, Truncate, Wrapped;
    if k < |digits| {
      DigitsAtIs(s, i, digits, base, k);
      WrappedNext(digits, k, base, max);
      ConvertIs(s, i, digits, k + 1, base, max);
    }
  }

  /** Leading zeros add nothing. */
  lemma {:induction false} ZerosAreWorthNothing(digits: seq<Byte>, k: nat, base: nat, max: nat)
    requires AllDigits(digits, base) && k <= |digits| && (forall i :: 0 <= i < k ==> digits[i] == ZERO)
    ensures Upto(digits, k, base) == 0
    ensures FirstDrop(digits, 0, base, max) == FirstDrop(digits, k, base, max)
  {
    hide Upto;
    if k == 0 {
      UptoAll(digits, base);
    } else {
      ZerosAreWorthNothing(digits, k - 1, base, max);
      UptoNext(digits, k - 1, base);
      assert Push(0, base, 0) == 0;
    }
  }

  /**
   Prefix zeros, further zeros and then the rest of the digits: what is converted, and
   that the position is past the zeros whenever anything else was taken.
   */
  lemma DigitsRead(s: seq<Byte>, start: nat, q: nat, digits: seq<Byte>, base: nat, max: nat)
    requires DigitsAt(s, start, digits, base) && base >= 2 && start <= q <= start + |digits|
    requires forall i :: 0 <= i < q - start ==> digits[i] == ZERO
    ensures var z := SkipAll(s, ZERO, q);
            && z <= start + |digits|
            && Convert(0, s, z, base, max) == (Returned(digits, base, max).0, start + Returned(digits, base, max).1)
            && (start + Returned(digits, base, max).1 <= z ==> z == start + |digits| == start + Returned(digits, base, max).1)
  {
    hide IsDigit, Wrapped;
    var z := SkipAll(s, ZERO, q);
    ZeroIsDigit(base);
    assert At(s, start + |digits|) != ZERO;
    var k := z - start;
    forall i | 0 <= i < k
      ensures digits[i] == ZERO
    {
      DigitsAtIs(s, start, digits, base, i);
    }
    ZerosAreWorthNothing(digits, k, base, max);
    ConvertIs(s, start, digits, k, base, max);
  }

  lemma ZeroIsDigit(base: nat)
    requires base >= 1
    ensures IsDigit(ZERO, base)
  {
  }

  /** Digits whose value fits are read as that value, all of them. */
  lemma FitsIsReturned(digits: seq<Byte>, base: nat, max: nat)
    requires AllDigits(digits, base) && base >= 1 && Value(digits, base) <= max
    ensures Returned(digits, base, max) == (Value(digits, base), |digits|)
  {
    hide IsDigit, Upto;
    UptoAll(digits, base);
    var k := FirstDrop(digits, 0, base, max);
    UptoGrows(digits, k, |digits|, base);
    if k < |digits| {
      UptoGrows(digits, k, k + 1, base);
      UptoGrows(digits, k + 1, |digits|, base);
      assert false;
    }
  }

  /** Leading spaces and an optional '+'. */
  function Lead(spaces: nat, plus: bool): (s: seq<Byte>)
  {
    Repeat(SPACE, spaces) + if plus then [PLUS_SIGN] else []
  }

  lemma LeadIs(spaces: nat)
    ensures Lead(spaces, false) == Repeat(0x20, spaces) && Lead(spaces, true) == Repeat(0x20, spaces) + [0x2b]
  {
    assert Repeat(0x20, spaces) + [] == Repeat(0x20, spaces);
  }

  lemma LeadIsSkipped(spaces: nat, plus: bool, rest: seq<Byte>)
    requires rest != [] && rest[0] != SPACE && (!plus ==> rest[0] != PLUS_SIGN)
    ensures StartOf(Lead(spaces, plus) + rest) == |Lead(spaces, plus)|
  {
    var s := Lead(spaces, plus) + rest;
    var p := SkipAll(s, SPACE, 0);
    assert forall i :: 0 <= i < spaces ==> At(s, i) == SPACE;
    assert At(s, spaces) != SPACE;
  }

  /** The case in which the only digit is taken for an octal prefix. */
  predicate LoneOctalZero(digits: seq<Byte>, tail: seq<Byte>, base: nat) {
    base == 8 && digits == [ZERO] && !(tail != [] && IsX(tail[0]))
  }

  /**
   Every digit string, in every base from 2 to 36: the value returned is that of the
   unsigned long that wraps, or UINT32_MAX if it drops at some digit, which is then not
   taken; and *endptr is just past the last digit taken, except exactly for a lone 0 in
   base 8, where it is the start of the string.
   */
  lemma ParsesEvery(spaces: nat, plus: bool, digits: seq<Byte>, tail: seq<Byte>, base: nat, max: nat)
    requires 2 <= base <= 36 && digits != [] && AllDigits(digits, base)
    requires tail != [] ==> !IsDigit(tail[0], base)
    requires base == 16 && digits == [ZERO] && tail != [] ==> !IsX(tail[0])
    ensures var (value, taken) := Returned(digits, base, max);
            Result(Lead(spaces, plus) + digits + tail, base, max) ==
              (value, Some(if LoneOctalZero(digits, tail, base) then 0 else |Lead(spaces, plus)| + taken))
  {
    hide Result, Lead, IsDigit, Returned, IsX;
    var s := Lead(spaces, plus) + digits + tail;
    assert s == Lead(spaces, plus) + (digits + tail);
    NulIsNoX();
    FirstDigitIsNoSign(digits, base);
    LeadIsSkipped(spaces, plus, digits + tail);
    TextIs(Lead(spaces, plus), digits, tail, base);
    ParsesAt(s, |Lead(spaces, plus)|, digits, base, max);
  }

  /** Numeric parsing is exact: digits whose value fits give that value, and *endptr is past them all. */
  lemma ParsesExactly(spaces: nat, plus: bool, digits: seq<Byte>, tail: seq<Byte>, base: nat, max: nat)
    requires 2 <= base <= 36 && digits != [] && AllDigits(digits, base) && Value(digits, base) <= max
    requires tail != [] ==> !IsDigit(tail[0], base)
    requires base == 16 && digits == [ZERO] && tail != [] ==> !IsX(tail[0])
    ensures var s := Lead(spaces, plus) + digits + tail;
            Result(s, base, max) ==
              (Value(digits, base), Some(if LoneOctalZero(digits, tail, base) then 0 else |s| - |tail|))
  {
    hide Result, Lead, IsDigit, Value, IsX, Returned;
    ParsesEvery(spaces, plus, digits, tail, base, max);
    FitsIsReturned(digits, base, max);
  }

  lemma NulIsNoX()
    ensures !IsX(0)
  {
  }

  lemma ParsesAt(s: seq<Byte>, start: nat, digits: seq<Byte>, base: nat, max: nat)
    requires 2 <= base <= 36 && digits != [] && start == StartOf(s) && DigitsAt(s, start, digits, base)
    requires base == 16 && digits == [ZERO] ==> !IsX(At(s, start + 1))
    ensures var (value, taken) := Returned(digits, base, max);
            Result(s, base, max) ==
              (value, Some(if base == 8 && digits == [ZERO] && !IsX(At(s, start + 1)) then 0 else start + taken))
  {
    hide Convert, IsDigit, SkipAll, Prefix, Returned, IsX, DigitsAt, StartOf;
    PrefixOf(s, start, digits, base);
    var q := Prefix(s, start, base).0;
    DigitsRead(s, start, q, digits, base, max);
    assert |digits| == 1 ==> digits == [digits[0]];
  }

  lemma FirstDigitIsNoSign(digits: seq<Byte>, base: nat)
    requires digits != [] && AllDigits(digits, base)
    ensures digits[0] != SPACE && digits[0] != PLUS_SIGN
  {
    assert IsDigit(digits[0], base);
  }

  lemma TextIs(lead: seq<Byte>, digits: seq<Byte>, tail: seq<Byte>, base: nat)
    requires AllDigits(digits, base) && (tail != [] ==> !IsDigit(tail[0], base))
    ensures DigitsAt(lead + digits + tail, |lead|, digits, base)
    ensures At(lead + digits + tail, |lead| + |digits|) == if tail == [] then 0 else tail[0]
  {
    var s := lead + digits + tail;
    assert s[|lead|..|lead| + |digits|] == digits;
  }

  /** With plain digits only the leading 0 of base 8 counts as a prefix. */
  lemma PrefixOf(s: seq<Byte>, start: nat, digits: seq<Byte>, base: nat)
    requires 2 <= base <= 36 && digits != [] && DigitsAt(s, start, digits, base)
    requires base == 16 && digits == [ZERO] ==> !IsX(At(s, start + 1))
    ensures var (q, b) := Prefix(s, start, base);
            && b == base
            && q == (if base == 8 && digits[0] == ZERO && !IsX(At(s, start + 1)) then start + 1 else start)
  {
    DigitsAtIs(s, start, digits, base, 0);
    if |digits| > 1 {
      DigitsAtIs(s, start, digits, base, 1);
    } else {
      assert digits == [digits[0]];
    }
  }

  // ----- Prefixes -----

  /** A 0x prefix, in base 16 or 0: the hex digits after it; with none, nothing is taken. */
  lemma HexPrefixExactly(s: seq<Byte>, digits: seq<Byte>, base: nat, max: nat)
    requires base == 0 || base == 16
    requires At(s, StartOf(s)) == ZERO && IsX(At(s, StartOf(s) + 1))
    requires DigitsAt(s, StartOf(s) + 2, digits, 16)
    ensures var (value, taken) := Returned(digits, 16, max);
            Result(s, base, max) == (value, Some(if digits == [] then 0 else StartOf(s) + 2 + taken))
    ensures Value(digits, 16) <= max ==> Returned(digits, 16, max) == (Value(digits, 16), |digits|)
  {
    hide Convert, IsDigit, SkipAll, Value, IsX, Returned;
    DigitsRead(s, StartOf(s) + 2, StartOf(s) + 2, digits, 16, max);
    if Value(digits, 16) <= max {
      FitsIsReturned(digits, 16, max);
    }
  }

  /** Base 0 reads the base off the prefix: 0x means 16, another leading 0 means 8, anything else 10. */
  lemma BaseZeroSelects(s: seq<Byte>, max: nat)
    ensures var i := StartOf(s);
            Result(s, 0, max) == Result(s, if At(s, i) != ZERO then 10 else if IsX(At(s, i + 1)) then 16 else 8, max)
  {
    hide Convert, SkipAll, StartOf, IsX;
  }

  // ----- Overflow -----

  /** The value the comment above strtoul promises. */
  function Promised(digits: seq<Byte>, base: nat, max: nat): (v: nat)
    requires AllDigits(digits, base)
  {
    if Value(digits, base) <= max then Value(digits, base) else max
  }

  /**
   Before the first prefix that exceeds `max` the overflow test never fires, and at that
   prefix it fires exactly if the wrapped value is below the last one that fitted.
   */
  lemma OverflowSeenAtOnceIff(digits: seq<Byte>, k: nat, base: nat, max: nat)
    requires AllDigits(digits, base) && base >= 1 && k < |digits|
    requires Upto(digits, k, base) <= max < Upto(digits, k + 1, base)
    ensures FirstDrop(digits, 0, base, max) >= k
    ensures FirstDrop(digits, 0, base, max) == k
       <==> Truncate(Upto(digits, k + 1, base), max) < Upto(digits, k, base)
  {
    hide IsDigit, Upto, Truncate;
    var d := FirstDrop(digits, 0, base, max);
    if d < k {
      UptoGrows(digits, d, d + 1, base);
      UptoGrows(digits, d + 1, k, base);
      assert false;
    }
    assert d == k <==> DropsAt(digits, k, base, max);
  }

  /**
   When the promise is kept, for every digit string: always if the value fits; otherwise,
   if the overflow test fires, exactly where an unsigned long has 32 bits, and if it does
   not, exactly when the value happens to wrap to the largest one. The value itself is
   returned exactly when it fits.
   */
  lemma PromiseKeptIff(spaces: nat, plus: bool, digits: seq<Byte>, tail: seq<Byte>, base: nat, max: nat)
    requires 2 <= base <= 36 && digits != [] && AllDigits(digits, base)
    requires tail != [] ==> !IsDigit(tail[0], base)
    requires base == 16 && digits == [ZERO] && tail != [] ==> !IsX(tail[0])
    ensures Result(Lead(spaces, plus) + digits + tail, base, max).0 == Promised(digits, base, max)
       <==> || Value(digits, base) <= max
            || (if FirstDrop(digits, 0, base, max) < |digits| then max == UINT32_MAX
                else Truncate(Value(digits, base), max) == max)
    ensures UINT32_MAX <= max ==>
              (Result(Lead(spaces, plus) + digits + tail, base, max).0 == Value(digits, base) <==> Value(digits, base) <= max)
  {
    hide Result, Lead, IsDigit, Value, IsX, Truncate;
    ParsesEvery(spaces, plus, digits, tail, base, max);
    UptoAll(digits, base);
    if Value(digits, base) <= max {
      FitsIsReturned(digits, base, max);
    }
  }

  /**
   The common case of one digit too many: what is returned, and that it is the largest
   unsigned long exactly if the value wraps to that, or 32 bits wrap below the value before.
   */
  lemma OneDigitTooMany(digits: seq<Byte>, base: nat, max: nat)
    requires AllDigits(digits, base) && base >= 1 && digits != []
    requires Upto(digits, |digits| - 1, base) <= max < Value(digits, base)
    ensures var wrapped, before := Truncate(Value(digits, base), max), Upto(digits, |digits| - 1, base);
            && Returned(digits, base, max).0 == (if wrapped < before then UINT32_MAX else wrapped)
            && (Returned(digits, base, max).0 == max <==> wrapped == max || (max == UINT32_MAX && wrapped < before))
  {
    hide IsDigit, Upto, Value, Truncate;
    UptoAll(digits, base);
    OverflowSeenAtOnceIff(digits, |digits| - 1, base, max);
  }

  /** With more than 32 bits a detected overflow is never reported as the largest unsigned long. */
  lemma WideOverflowMisreported(spaces: nat, plus: bool, digits: seq<Byte>, tail: seq<Byte>, base: nat, max: nat)
    requires 2 <= base <= 36 && digits != [] && AllDigits(digits, base) && max > UINT32_MAX
    requires tail != [] ==> !IsDigit(tail[0], base)
    requires base == 16 && digits == [ZERO] && tail != [] ==> !IsX(tail[0])
    ensures FirstDrop(digits, 0, base, max) < |digits| ==>
              && Value(digits, base) > max
              && Result(Lead(spaces, plus) + digits + tail, base, max).0 == UINT32_MAX != Promised(digits, base, max)
  {
    hide Result, Lead, IsDigit, Value, IsX, Wrapped;
    ParsesEvery(spaces, plus, digits, tail, base, max);
    if Value(digits, base) <= max {
      FitsIsReturned(digits, base, max);
    }
  }

  /**
   The overflow test compares with the previous value only and misses wraps: with 32 bits
   the decimal string 14316557660 is returned as 1431655772, not as the largest value.
   */
  lemma OverflowCanGoUnseen(s: seq<Byte>)
    requires s == [0x31, 0x34, 0x33, 0x31, 0x36, 0x35, 0x35, 0x37, 0x36, 0x36, 0x30]
    ensures Result(s, 10, UINT32_MAX) == (1431655772, Some(11))
  {
    NothingSkipped(s, SPACE, 0);
    NothingSkipped(s, ZERO, 0);
    assert Convert(1431655766, s, 10, 10, UINT32_MAX) == (1431655772, 11);
    assert Convert(143165576, s, 9, 10, UINT32_MAX) == (1431655772, 11);
    assert Convert(14316557, s, 8, 10, UINT32_MAX) == (1431655772, 11);
    assert Convert(1431655, s, 7, 10, UINT32_MAX) == (1431655772, 11);
    assert Convert(143165, s, 6, 10, UINT32_MAX) == (1431655772, 11);
    assert Convert(14316, s, 5, 10, UINT32_MAX) == (1431655772, 11);
    assert Convert(1431, s, 4, 10, UINT32_MAX) == (1431655772, 11);
    assert Convert(143, s, 3, 10, UINT32_MAX) == (1431655772, 11);
    assert Convert(14, s, 2, 10, UINT32_MAX) == (1431655772, 11);
    assert Convert(1, s, 1, 10, UINT32_MAX) == (1431655772, 11);
  }
}
