/** Bytes, C strings and the hexadecimal conversions shared by the byte-level models. */
module Bytes {

  datatype Option<+T> = None | Some(value: T)

  type Byte = b: int | 0 <= b < 256

  const SPACE: Byte := 0x20

  /** The largest value of the source's UINTN on a 64-bit target. */
  const MAX_UINTN: nat := 0xFFFF_FFFF_FFFF_FFFF

  /** The number of values of a 64-bit word. */
  const WORD64: nat := 0x1_0000_0000_0000_0000

  /** An integer as a 64-bit word. */
  function Word(x: int): (w: nat)
    ensures w < WORD64 && (0 <= x < WORD64 ==> w == x)
  {
    x % WORD64
  }

  /** A 64-bit word read as the signed INTN it is assigned to. */
  function Intn(w: nat): (i: int)
    requires w <= MAX_UINTN
    ensures i >= 0 <==> w < WORD64 / 2
  {
    if w < WORD64 / 2 then w else w - WORD64
  }

  function Ascii(s: string): (b: seq<Byte>)
    ensures |b| == |s|
  {
    seq(|s|, i requires 0 <= i < |s| => s[i] as int % 256)
  }

  /** The character at a position of a C string, NUL at and after its end. */
  function At(s: seq<Byte>, i: nat): (c: Byte)
  {
    if i < |s| then s[i] else 0
  }

  /** The C string held in a buffer: everything before the first NUL. */
  function CString(buf: seq<Byte>): (s: seq<Byte>)
    ensures 0 !in s
  {
    if buf == [] || buf[0] == 0 then [] else [buf[0]] + CString(buf[1..])
  }

  lemma {:induction false} CStringTerminated(s: seq<Byte>, tail: seq<Byte>)
    requires 0 !in s
    ensures CString(s + [0] + tail) == s
  {
    if s == [] {
    } else {
      assert (s + [0] + tail)[1..] == s[1..] + [0] + tail;
      CStringTerminated(s[1..], tail);
    }
  }

  lemma {:induction false} CStringClean(s: seq<Byte>)
    requires 0 !in s
    ensures CString(s) == s
  {
    if s != [] {
      CStringClean(s[1..]);
    }
  }

  /** A C string that stops before the end of its buffer is a prefix of it, followed by the NUL. */
  lemma {:induction false} CStringPrefix(buf: seq<Byte>)
    requires |CString(buf)| < |buf|
    ensures var s := CString(buf); buf[|s|] == 0 && s == buf[..|s|]
  {
    if buf[0] != 0 {
      CStringPrefix(buf[1..]);
      assert buf == [buf[0]] + buf[1..];
    }
  }

  lemma {:induction false} CStringStops(buf: seq<Byte>)
    requires 0 in buf
    ensures |CString(buf)| < |buf|
  {
    if buf[0] != 0 {
      CStringStops(buf[1..]);
    }
  }

  lemma CStringAt(buf: seq<Byte>, n: nat)
    requires n < |buf| && buf[n] == 0 && 0 !in buf[..n]
    ensures CString(buf) == buf[..n]
  {
    assert buf == buf[..n] + [0] + buf[n + 1..];
    CStringTerminated(buf[..n], buf[n + 1..]);
  }

  function Repeat<T>(x: T, n: nat): (s: seq<T>)
    ensures |s| == n && forall i :: 0 <= i < n ==> s[i] == x
  {
    seq(n, _ => x)
  }

  /** The upper-case digit table mHexToStr. */
  function HexDigit(n: nat): (c: Byte)
    requires n < 16
  {
    if n < 10 then 0x30 + n else 0x41 + n - 10
  }

  /** HexCharToInt: the digit's value, or -1 for any other character. */
  function HexCharToInt(c: Byte): (v: int)
    ensures -1 <= v < 16
    ensures v >= 0 <==> 0x30 <= c <= 0x39 || 0x41 <= c <= 0x46 || 0x61 <= c <= 0x66
  {
    if 0x41 <= c <= 0x46 then c - 0x41 + 10
    else if 0x61 <= c <= 0x66 then c - 0x61 + 10
    else if 0x30 <= c <= 0x39 then c - 0x30
    else -1
  }

  /** The digits count from '0', the letters of either case on from 10. */
  lemma HexCharValues(v: nat)
    requires v < 16
    ensures v < 10 ==> HexCharToInt(0x30 + v) == v
    ensures v >= 10 ==> HexCharToInt(0x41 + (v - 10)) == v && HexCharToInt(0x61 + (v - 10)) == v
  {
  }

  predicate AllHex(s: seq<Byte>) {
    forall i :: 0 <= i < |s| ==> HexCharToInt(s[i]) >= 0
  }

  /** The positional value of hexadecimal digits read after others worth `acc`. */
  function HexValueFrom(acc: nat, s: seq<Byte>): (v: nat)
    requires AllHex(s)
    ensures v >= acc
    decreases |s|
  {
    if s == [] then acc else HexValueFrom(acc * 16 + HexCharToInt(s[0]), s[1..])
  }

  function HexValue(s: seq<Byte>): (v: nat)
    requires AllHex(s)
  {
    HexValueFrom(0, s)
  }

  function SkipBlanks(s: seq<Byte>): (r: seq<Byte>)
    ensures |r| <= |s|
  {
    if s != [] && (s[0] == SPACE || s[0] == 0x09) then SkipBlanks(s[1..]) else s
  }

  function SkipZeros(s: seq<Byte>): (r: seq<Byte>)
    ensures |r| <= |s|
    ensures r != [] ==> r[0] != 0x30
  {
    if s != [] && s[0] == 0x30 then SkipZeros(s[1..]) else s
  }

  /** The digit loop of AsciiStrHexToUintnS, which saturates at MAX_UINTN. */
  function HexDigits(acc: nat, s: seq<Byte>): (v: nat)
    requires acc <= MAX_UINTN
    ensures v <= MAX_UINTN
    decreases |s|
  {
    if s == [] || HexCharToInt(s[0]) < 0 then acc
    else if acc > (MAX_UINTN - HexCharToInt(s[0])) / 16 then MAX_UINTN
    else HexDigits(acc * 16 + HexCharToInt(s[0]), s[1..])
  }

  /**
   AsciiStrHexToUintn on a C string: blanks, zeros, an optional 'x' that must follow
   a zero, then digits up to the first other character.
   */
  function HexToUintn(s: seq<Byte>): (v: nat)
    ensures v <= MAX_UINTN
  {
    var unpadded := SkipBlanks(s);
    var t := SkipZeros(unpadded);
    if t != [] && (t[0] == 0x58 || t[0] == 0x78) then
      if |t| == |unpadded| then 0 else HexDigits(0, t[1..])
    else HexDigits(0, t)
  }

  lemma {:induction false} SkipZerosValue(s: seq<Byte>)
    requires AllHex(s)
    ensures AllHex(SkipZeros(s)) && HexValue(SkipZeros(s)) == HexValue(s)
  {
    if s != [] && s[0] == 0x30 {
      SkipZerosValue(s[1..]);
    }
  }

  lemma FitsInUintn(acc: nat, d: nat)
    requires d < 16 && acc <= MAX_UINTN
    ensures acc <= (MAX_UINTN - d) / 16 <==> acc * 16 + d <= MAX_UINTN
  {
  }

  /** One digit of the loop. */
  lemma HexDigitsStep(acc: nat, s: seq<Byte>)
    requires acc <= MAX_UINTN && s != [] && HexCharToInt(s[0]) >= 0
    ensures var next := acc * 16 + HexCharToInt(s[0]);
            HexDigits(acc, s) == if next <= MAX_UINTN then HexDigits(next, s[1..]) else MAX_UINTN
  {
    hide HexCharToInt;
    FitsInUintn(acc, HexCharToInt(s[0]));
  }

  /** A value that saturates at MAX_UINTN. */
  function Saturated(v: nat): (w: nat)
  {
    if v <= MAX_UINTN then v else MAX_UINTN
  }

  /** The rest of the digits behind the first. */
  lemma HexValueStep(acc: nat, s: seq<Byte>)
    requires AllHex(s) && s != []
    ensures AllHex(s[1..]) && HexCharToInt(s[0]) >= 0
    ensures HexValueFrom(acc, s) == HexValueFrom(acc * 16 + HexCharToInt(s[0]), s[1..])
  {
  }

  lemma {:induction false} HexDigitsExact(acc: nat, s: seq<Byte>, stop: seq<Byte>)
    requires AllHex(s) && acc <= MAX_UINTN
    requires stop != [] ==> HexCharToInt(stop[0]) < 0
    ensures HexDigits(acc, s + stop) == Saturated(HexValueFrom(acc, s))
    decreases |s|
  {
    hide HexCharToInt, AllHex;
    if s == [] {
      assert s + stop == stop;
    } else {
      hide HexDigits, HexValueFrom;
      HexValueStep(acc, s);
      HexDigitsStep(acc, s + stop);
      assert (s + stop)[1..] == s[1..] + stop;
      var next := acc * 16 + HexCharToInt(s[0]);
      if next <= MAX_UINTN {
        HexDigitsExact(next, s[1..], stop);
      }
    }
  }

  /** What may follow digits, or no digits, without being read with them. */
  predicate Stops(digits: seq<Byte>, stop: seq<Byte>) {
    stop != [] ==>
      && HexCharToInt(stop[0]) < 0 && stop[0] != 0x58 && stop[0] != 0x78
      && (digits == [] ==> stop[0] != SPACE && stop[0] != 0x09)
  }

  /** Any run of hex digits is read as its value, which saturates, whatever non-digit follows. */
  lemma HexToUintnExact(s: seq<Byte>, stop: seq<Byte>)
    requires AllHex(s) && Stops(s, stop)
    ensures HexToUintn(s + stop) == Saturated(HexValue(s))
  {
    hide HexDigits, SkipZeros, HexValueFrom;
    var t := SkipZeros(s);
    SkipZerosValue(s);
    SkipZerosAppend(s, stop);
    HexDigitsExact(0, t, stop);
    NotBlank(s, stop);
    assert t + stop != [] ==> (t + stop)[0] == if t == [] then stop[0] else t[0];
  }

  lemma NotBlank(s: seq<Byte>, stop: seq<Byte>)
    requires AllHex(s) && Stops(s, stop)
    ensures SkipBlanks(s + stop) == s + stop
  {
    assert s == [] ==> s + stop == stop;
    assert s != [] ==> (s + stop)[0] == s[0];
  }

  lemma {:induction false} SkipZerosAppend(s: seq<Byte>, stop: seq<Byte>)
    requires stop != [] ==> stop[0] != 0x30
    ensures SkipZeros(s + stop) == SkipZeros(s) + stop
  {
    if s == [] {
      assert s + stop == stop;
    } else if s[0] == 0x30 {
      assert (s + stop)[1..] == s[1..] + stop;
      SkipZerosAppend(s[1..], stop);
    }
  }

  /** Spaces and tabs in front are skipped. */
  lemma {:induction false} BlanksAreSkipped(pad: seq<Byte>, s: seq<Byte>)
    requires forall i :: 0 <= i < |pad| ==> pad[i] == 0x20 || pad[i] == 0x09
    ensures HexToUintn(pad + s) == HexToUintn(s)
  {
    hide SkipZeros, HexDigits;
    if pad == [] {
      assert pad + s == s;
    } else {
      assert (pad + s)[1..] == pad[1..] + s;
      BlanksAreSkipped(pad[1..], s);
    }
  }

  /** An 'x' of either case counts as a prefix behind a zero; without one it ends the number. */
  lemma PrefixIsSkipped(zeros: nat, x: Byte, digits: seq<Byte>, stop: seq<Byte>)
    requires (x == 0x58 || x == 0x78) && AllHex(digits) && (stop != [] ==> HexCharToInt(stop[0]) < 0)
    ensures HexToUintn(Repeat(0x30, zeros) + [x] + digits + stop) == if zeros > 0 then Saturated(HexValue(digits)) else 0
  {
    hide HexDigits, HexValue, AllHex;
    var rest := [x] + (digits + stop);
    var s := Repeat(0x30, zeros) + rest;
    assert Repeat(0x30, zeros) + [x] + digits + stop == s;
    ZerosAreSkipped(zeros, rest);
    HexDigitsExact(0, digits, stop);
    HexValueIs(digits);
    assert rest[1..] == digits + stop;
    assert s[0] == if zeros > 0 then 0x30 else x;
  }

  lemma HexValueIs(digits: seq<Byte>)
    requires AllHex(digits)
    ensures HexValue(digits) == HexValueFrom(0, digits)
  {
  }

  lemma {:induction false} ZerosAreSkipped(zeros: nat, rest: seq<Byte>)
    requires rest != [] ==> rest[0] != 0x30
    ensures SkipZeros(Repeat(0x30, zeros) + rest) == rest
  {
    if zeros == 0 {
      assert Repeat(0x30, 0) + rest == rest;
    } else {
      assert (Repeat(0x30, zeros) + rest)[1..] == Repeat(0x30, zeros - 1) + rest;
      ZerosAreSkipped(zeros - 1, rest);
    }
  }

  /** The two digits the sender writes for a checksum read back as that checksum. */
  lemma ByteHexRoundTrip(n: nat)
    requires n < 256
    ensures HexToUintn([HexDigit(n / 16), HexDigit(n % 16)]) == n
  {
    var s := [HexDigit(n / 16), HexDigit(n % 16)];
    assert s[1..] == [HexDigit(n % 16)];
    assert HexValueFrom(n / 16, s[1..]) == n;
    HexToUintnExact(s, []);
    assert s + [] == s;
  }

  // ----- Division -----

  lemma AtLeastOnce(e: nat, m: nat)
    requires e >= 1
    ensures e * m >= m
  {
    assert e * m == (e - 1) * m + m;
  }

  lemma QuotientUnique(q: nat, r: nat, q': nat, r': nat, m: nat)
    requires r < m && r' < m && q * m + r == q' * m + r' && q <= q'
    ensures q == q'
  {
    if q < q' {
      assert q' * m == q * m + (q' - q) * m;
      AtLeastOnce(q' - q, m);
    }
  }

  /** The remainder is the one below the divisor. */
  lemma ModIs(y: nat, q: nat, r: nat, m: nat)
    requires r < m && y == q * m + r
    ensures y % m == r
  {
    var q', r' := y / m, y % m;
    assert y == q' * m + r';
    if q <= q' {
      QuotientUnique(q, r, q', r', m);
    } else {
      QuotientUnique(q', r', q, r, m);
    }
  }
}
