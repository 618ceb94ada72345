/** The memory commands of the GDB stub: "M addr,length:XX..." writes, "m addr,length" reads. */
module GdbMemory {
  import opened Bytes

  const MAX_BUF_SIZE := 2000
  const MAX_ADDR_SIZE := 32
  const MAX_LENGTH_SIZE := 32
  const GDB_EBADMEMADDRBUFSIZE := 11
  const GDB_EBADMEMLENGBUFSIZE := 12
  const GDB_EBADMEMLENGTH := 13
  const GDB_EBADMEMDATA := 14
  const GDB_EBADMEMDATASIZE := 15
  const COMMA: Byte := 0x2c
  const COLON: Byte := 0x3a

  /**
   The reply a command sends. Runaway stands for what the source does not guard against:
   a missing separator, and a read longer than its output buffer.
   */
  datatype Reply = Ok | Error(code: nat) | Data(text: seq<Byte>) | Runaway

  /** One byte for every UINTN address. */
  type Memory = m: seq<Byte> | |m| == WORD64 witness Zeros()

  function Zeros(): (z: seq<Byte>)
    ensures |z| == WORD64
  {
    Repeat(0, WORD64)
  }

  /** address + i, wrapping. */
  function Plus(address: nat, i: nat): (a: nat)
    requires address <= MAX_UINTN && i <= MAX_UINTN
    ensures a <= MAX_UINTN
  {
    if address + i <= MAX_UINTN then address + i else address + i - WORD64
  }

  /** The i with address + i == a. */
  function Minus(a: nat, address: nat): (i: nat)
    requires address <= MAX_UINTN && a <= MAX_UINTN
    ensures i <= MAX_UINTN && Plus(address, i) == a
  {
    if address <= a then a - address else a - address + WORD64
  }

  lemma MinusPlus(address: nat, i: nat)
    requires address <= MAX_UINTN && i <= MAX_UINTN
    ensures Minus(Plus(address, i), address) == i
  {
  }

  /** Memory with `data` at `address` and nothing else changed. */
  function Stored(m: Memory, address: nat, data: seq<Byte>): (m': Memory)
    requires address <= MAX_UINTN && |data| <= MAX_UINTN
  {
    seq(WORD64, a requires 0 <= a < WORD64 =>
      var i := Minus(a, address); if i < |data| then data[i] else m[a])
  }

  /** The `n` bytes at `address`. */
  function Loaded(m: Memory, address: nat, n: nat): (data: seq<Byte>)
    requires address <= MAX_UINTN && n <= MAX_UINTN
    ensures |data| == n
  {
    seq(n, i requires 0 <= i < n => m[Plus(address, i)])
  }

  /** What was stored is loaded back, and every other address keeps its byte. */
  lemma LoadStored(m: Memory, address: nat, data: seq<Byte>)
    requires address <= MAX_UINTN && |data| <= MAX_UINTN
    ensures Loaded(Stored(m, address, data), address, |data|) == data
    ensures forall a :: 0 <= a < WORD64 && Minus(a, address) >= |data| ==> Stored(m, address, data)[a] == m[a]
  {
    var m' := Stored(m, address, data);
    forall i | 0 <= i < |data|
      ensures m'[Plus(address, i)] == data[i]
    {
      MinusPlus(address, i);
    }
  }

  // ----- Hexadecimal data -----

  /** (CHAR8)HexCharToInt: -1 survives the cast only where CHAR8 is signed. */
  function Digit(c: Byte, signedChar: bool): (v: int)
    ensures -1 <= v < 256
  {
    if HexCharToInt(c) >= 0 then HexCharToInt(c) else if signedChar then -1 else 255
  }

  /** Byte `i` of hexadecimal text, None where the test for a negative digit rejects it. */
  function Pair(text: seq<Byte>, i: nat, signedChar: bool): (b: Option<Byte>)
  {
    var c1, c2 := Digit(At(text, 2 * i), signedChar), Digit(At(text, 2 * i + 1), signedChar);
    if c1 < 0 || c2 < 0 then None else Some((c1 * 16 + c2) % 256)
  }

  predicate PairsOk(text: seq<Byte>, n: nat, signedChar: bool) {
    forall i :: 0 <= i < n ==> Pair(text, i, signedChar).Some?
  }

  function Decoded(text: seq<Byte>, n: nat, signedChar: bool): (data: seq<Byte>)
    requires PairsOk(text, n, signedChar)
    ensures |data| == n
  {
    seq(n, i requires 0 <= i < n => Pair(text, i, signedChar).value)
  }

  /** A pair of hex digits is the number they spell, whatever the signedness of CHAR8. */
  lemma PairIsHexValue(text: seq<Byte>, i: nat, signedChar: bool)
    requires 2 * i + 2 <= |text| && AllHex(text[2 * i..2 * i + 2])
    ensures Pair(text, i, signedChar) == Some(HexValue(text[2 * i..2 * i + 2]))
  {
    var two := text[2 * i..2 * i + 2];
    TwoDigits(two);
    assert two[0] == text[2 * i] && two[1] == text[2 * i + 1];
  }

  lemma TwoDigits(two: seq<Byte>)
    requires |two| == 2 && AllHex(two)
    ensures HexValue(two) == HexCharToInt(two[0]) * 16 + HexCharToInt(two[1])
  {
    assert two[1..] == [two[1]];
    assert HexValueFrom(HexCharToInt(two[0]), two[1..]) == HexValueFrom(HexCharToInt(two[0]) * 16 + HexCharToInt(two[1]), []);
  }

  /** The number of leading bytes of the text that are accepted, at most `n`. */
  function Accepted(text: seq<Byte>, n: nat, signedChar: bool): (k: nat)
    ensures k <= n && PairsOk(text, k, signedChar)
    ensures k < n ==> Pair(text, k, signedChar) == None
  {
    if n == 0 then 0
    else
      var k := Accepted(text, n - 1, signedChar);
      if k < n - 1 || Pair(text, k, signedChar) == None then k else n
  }

  /** A digit of the table, made lower-case. */
  function LowerHexDigit(n: nat): (c: Byte)
    requires n < 16
    ensures HexCharToInt(c) == n
  {
    var c := HexDigit(n);
    if 0x41 <= c <= 0x46 then c - 0x41 + 0x61 else c
  }

  /** The lower-case text of some bytes. */
  function HexText(data: seq<Byte>): (text: seq<Byte>)
    ensures |text| == 2 * |data|
  {
    if data == [] then []
    else
      var n := |data| - 1;
      HexText(data[..n]) + [LowerHexDigit(data[n] / 16), LowerHexDigit(data[n] % 16)]
  }

  lemma PairOf(text: seq<Byte>, i: nat, signedChar: bool)
    ensures var c1, c2 := Digit(At(text, 2 * i), signedChar), Digit(At(text, 2 * i + 1), signedChar);
            Pair(text, i, signedChar) == if c1 < 0 || c2 < 0 then None else Some((c1 * 16 + c2) % 256)
  {
  }

  /** The two digits written for a byte are the pair that is read as it. */
  lemma PairOfDigits(text: seq<Byte>, i: nat, b: Byte, signedChar: bool)
    requires At(text, 2 * i) == LowerHexDigit(b / 16) && At(text, 2 * i + 1) == LowerHexDigit(b % 16)
    ensures Pair(text, i, signedChar) == Some(b)
  {
    hide At, LowerHexDigit;
    assert b / 16 * 16 + b % 16 == b;
  }

  lemma HexTextIs(data: seq<Byte>)
    requires data != []
    ensures var n := |data| - 1;
            HexText(data) == HexText(data[..n]) + [LowerHexDigit(data[n] / 16), LowerHexDigit(data[n] % 16)]
  {
    hide LowerHexDigit;
  }

  lemma AtPair(a: seq<Byte>, high: Byte, low: Byte, k: nat)
    requires k < |a| + 2
    ensures At(a + [high, low], k) == if k < |a| then At(a, k) else if k == |a| then high else low
  {
  }

  /** The text of the bytes before the last, and the last's two digits. */
  lemma HexTextLast(data: seq<Byte>, k: nat)
    requires data != [] && k < 2 * |data|
    ensures var n := |data| - 1;
            At(HexText(data), k) == if k < 2 * n then At(HexText(data[..n]), k)
                                    else LowerHexDigit(if k == 2 * n then data[n] / 16 else data[n] % 16)
  {
    hide LowerHexDigit, HexText, At;
    var n := |data| - 1;
    HexTextIs(data);
    AtPair(HexText(data[..n]), LowerHexDigit(data[n] / 16), LowerHexDigit(data[n] % 16), k);
  }

  lemma {:induction false} HexTextAt(data: seq<Byte>, i: nat, signedChar: bool)
    requires i < |data|
    ensures Pair(HexText(data), i, signedChar) == Some(data[i])
  {
    hide HexText, Pair, At, LowerHexDigit, Digit;
    var n := |data| - 1;
    HexTextLast(data, 2 * i);
    HexTextLast(data, 2 * i + 1);
    if i == n {
      PairOfDigits(HexText(data), i, data[i], signedChar);
    } else {
      HexTextAt(data[..n], i, signedChar);
      PairOf(HexText(data), i, signedChar);
      PairOf(HexText(data[..n]), i, signedChar);
    }
  }

  /** The text of a byte spells it. */
  lemma HexTextSpells(b: Byte)
    ensures AllHex(HexText([b])) && HexValue(HexText([b])) == b
  {
    var text := HexText([b]);
    assert text == [LowerHexDigit(b / 16), LowerHexDigit(b % 16)];
    TwoDigits(text);
  }

  /** The text holds digits and the letters a to f only. */
  lemma {:induction false} HexTextIsLower(data: seq<Byte>)
    ensures forall c <- HexText(data) :: 0x30 <= c <= 0x39 || 0x61 <= c <= 0x66
  {
    if data != [] {
      HexTextIsLower(data[..|data| - 1]);
    }
  }

  /** Text produced by a read decodes, anywhere, to the bytes it was made from. */
  lemma HexTextRoundTrip(data: seq<Byte>, signedChar: bool)
    ensures PairsOk(HexText(data), |data|, signedChar)
    ensures Decoded(HexText(data), |data|, signedChar) == data
  {
    forall i | 0 <= i < |data|
      ensures Pair(HexText(data), i, signedChar) == Some(data[i])
    {
      HexTextAt(data, i, signedChar);
    }
  }

  /** What storing the accepted part of the text does, and the reply. */
  function Transfer(m: Memory, length: nat, address: nat, text: seq<Byte>, signedChar: bool): (r: (Memory, Reply))
    requires address <= MAX_UINTN && length <= MAX_UINTN
  {
    var k := Accepted(text, length, signedChar);
    (Stored(m, address, Decoded(text, k, signedChar)), if k == length then Ok else Error(GDB_EBADMEMDATA))
  }

  /** Storing one more byte behind those already stored. */
  lemma StoredNext(m: Memory, address: nat, data: seq<Byte>, b: Byte)
    requires address <= MAX_UINTN && |data| < MAX_UINTN
    ensures Stored(m, address, data)[Plus(address, |data|) := b] == Stored(m, address, data + [b])
  {
    var at := Plus(address, |data|);
    var m1, m2 := Stored(m, address, data)[at := b], Stored(m, address, data + [b]);
    MinusPlus(address, |data|);
    forall a | 0 <= a < WORD64
      ensures m1[a] == m2[a]
    {
      if Minus(a, address) == |data| {
        assert a == at;
      }
    }
  }

  /** The byte a pair of characters stands for goes behind the ones before it. */
  lemma StoredPair(m: Memory, address: nat, text: seq<Byte>, k: nat, signedChar: bool)
    requires address <= MAX_UINTN && k < MAX_UINTN
    requires PairsOk(text, k, signedChar) && Pair(text, k, signedChar).Some?
    ensures PairsOk(text, k + 1, signedChar)
    ensures Stored(m, address, Decoded(text, k, signedChar))[Plus(address, k) := Pair(text, k, signedChar).value]
         == Stored(m, address, Decoded(text, k + 1, signedChar))
  {
    StoredNext(m, address, Decoded(text, k, signedChar), Pair(text, k, signedChar).value);
    assert Decoded(text, k + 1, signedChar)
        == Decoded(text, k, signedChar) + [Pair(text, k, signedChar).value];
  }

  lemma AcceptedIs(text: seq<Byte>, k: nat, n: nat, signedChar: bool)
    requires k <= n && PairsOk(text, k, signedChar)
    requires k < n ==> Pair(text, k, signedChar) == None
    ensures Accepted(text, n, signedChar) == k
  {
    var j := Accepted(text, n, signedChar);
    assert j == k || Pair(text, j, signedChar).None? || Pair(text, j, signedChar).Some?;
  }

  /** TransferFromInBufToMem, byte by byte into memory. */
  method TransferFromInBufToMem(length: nat, address: nat, newData: seq<Byte>, mem: array<Byte>, signedChar: bool)
    returns (reply: Reply)
    requires mem.Length == WORD64 && address <= MAX_UINTN && length <= MAX_UINTN
    modifies mem
    ensures (mem[..], reply) == Transfer(old(mem[..]), length, address, newData, signedChar)
  {
    hide Stored, Decoded, Accepted, Pair;
    ghost var m: Memory := mem[..];
    var done: nat, at, ptr: nat := 0, address, 0;
    StoredNothing(m, address, newData, signedChar);
    while done < length
      invariant done <= length && ptr == 2 * done && at == Plus(address, done)
      invariant PairsOk(newData, done, signedChar)
      invariant mem[..] == Stored(m, address, Decoded(newData, done, signedChar))
    {
      var c1, c2 := Digit(At(newData, ptr), signedChar), Digit(At(newData, ptr + 1), signedChar);
      PairOf(newData, done, signedChar);
      if c1 < 0 || c2 < 0 {
        AcceptedIs(newData, done, length, signedChar);
        return Error(GDB_EBADMEMDATA);
      }
      StoredPair(m, address, newData, done, signedChar);
      mem[at] := (c1 * 16 + c2) % 256;
      at, ptr, done := Plus(at, 1), ptr + 2, done + 1;
    }
    AcceptedIs(newData, length, length, signedChar);
    return Ok;
  }

  lemma StoredNothing(m: Memory, address: nat, text: seq<Byte>, signedChar: bool)
    requires address <= MAX_UINTN
    ensures Stored(m, address, Decoded(text, 0, signedChar)) == m
  {
  }

  // ----- The commands -----

  /** The first position of `c` from `i` on, or the length. */
  function IndexFrom(s: seq<Byte>, c: Byte, i: nat): (k: nat)
    requires i <= |s|
    ensures i <= k <= |s| && c !in s[i..k]
    ensures k < |s| ==> s[k] == c
    decreases |s| - i
  {
    if i == |s| || s[i] == c then i
    else
      var k := IndexFrom(s, c, i + 1);
      assert s[i..k] == [s[i]] + s[i + 1..k];
      k
  }

  lemma {:induction false} IndexFromIs(s: seq<Byte>, c: Byte, i: nat, k: nat)
    requires i <= k <= |s| && c !in s[i..k] && (k < |s| ==> s[k] == c)
    ensures IndexFrom(s, c, i) == k
    decreases k - i
  {
    if i < k {
      assert s[i..k] == [s[i]] + s[i + 1..k];
      IndexFromIs(s, c, i + 1, k);
    }
  }

  /** The loops that copy a field up to its separator; None when there is no separator. */
  method CopyField(packet: seq<Byte>, from: nat, sep: Byte) returns (field: seq<Byte>, next: Option<nat>)
    requires from <= |packet|
    ensures var k := IndexFrom(packet, sep, from);
            field == packet[from..k] && next == if k < |packet| then Some(k + 1) else None
  {
    hide IndexFrom;
    var i := from;
    field := [];
    while i < |packet| && packet[i] != sep
      invariant from <= i <= |packet| && field == packet[from..i] && sep !in field
    {
      field := field + [packet[i]];
      i := i + 1;
    }
    IndexFromIs(packet, sep, from, i);
    next := if i < |packet| then Some(i + 1) else None;
  }

  /** "M addr,length:XX...": what it does to memory and replies. */
  function WriteCommand(m: Memory, packet: seq<Byte>, signedChar: bool): (r: (Memory, Reply))
    requires packet != []
  {
    var c := IndexFrom(packet, COMMA, 1);
    if c == |packet| then (m, Runaway) else
    var d := IndexFrom(packet, COLON, c + 1);
    if d == |packet| then (m, Runaway) else
    WriteFields(m, packet[1..c], packet[c + 1..d], packet[d + 1..], signedChar)
  }

  /** The checks on the three fields; 2*Length is a UINTN product and wraps. */
  function WriteFields(m: Memory, addressBuffer: seq<Byte>, lengthBuffer: seq<Byte>, text: seq<Byte>,
                       signedChar: bool): (r: (Memory, Reply))
  {
    var length := HexToUintn(lengthBuffer);
    if |addressBuffer| >= MAX_ADDR_SIZE then (m, Error(GDB_EBADMEMADDRBUFSIZE))
    else if |lengthBuffer| >= MAX_LENGTH_SIZE then (m, Error(GDB_EBADMEMLENGBUFSIZE))
    else if |text| != 2 * length % WORD64 then (m, Error(GDB_EBADMEMDATASIZE))
    else Transfer(m, length, HexToUintn(addressBuffer), text, signedChar)
  }

  /** WriteToMemory */
  method WriteToMemory(packet: seq<Byte>, mem: array<Byte>, signedChar: bool) returns (reply: Reply)
    requires mem.Length == WORD64 && packet != []
    modifies mem
    ensures (mem[..], reply) == WriteCommand(old(mem[..]), packet, signedChar)
  {
    hide Transfer, HexToUintn;
    var addressBuffer, afterAddress := CopyField(packet, 1, COMMA);
    if afterAddress == None { return Runaway; }
    var lengthBuffer, afterLength := CopyField(packet, afterAddress.value, COLON);
    if afterLength == None { return Runaway; }
    var address, length := HexToUintn(addressBuffer), HexToUintn(lengthBuffer);
    if |addressBuffer| >= MAX_ADDR_SIZE {
      return Error(GDB_EBADMEMADDRBUFSIZE);
    }
    if |lengthBuffer| >= MAX_LENGTH_SIZE {
      return Error(GDB_EBADMEMLENGBUFSIZE);
    }
    var messageLength := |packet| - |addressBuffer| - |lengthBuffer| - 3;
    if messageLength != 2 * length % WORD64 {
      return Error(GDB_EBADMEMDATASIZE);
    }
    reply := TransferFromInBufToMem(length, address, packet[afterLength.value..], mem, signedChar);
  }

  /** "m addr,length": the reply. ValidateAddress is given. */
  function ReadCommand(m: Memory, packet: seq<Byte>, valid: nat -> bool): (r: Reply)
    requires packet != []
  {
    var c := IndexFrom(packet, COMMA, 1);
    if c == |packet| then Runaway else
    var addressBuffer, lengthText := packet[1..c], packet[c + 1..];
    var address, length := HexToUintn(addressBuffer), HexToUintn(lengthText);
    if |addressBuffer| >= MAX_ADDR_SIZE then Error(GDB_EBADMEMADDRBUFSIZE)
    else if |packet| - |addressBuffer| - 2 >= MAX_LENGTH_SIZE then Error(GDB_EBADMEMLENGTH)
    else if !valid(address) then Error(14)
    else if 2 * length >= MAX_BUF_SIZE then Runaway
    else Data(HexText(Loaded(m, address, length)))
  }

  /** ReadFromMemory and TransferFromMemToOutBufAndSend */
  method ReadFromMemory(packet: seq<Byte>, mem: array<Byte>, valid: nat -> bool) returns (reply: Reply)
    requires mem.Length == WORD64 && packet != []
    ensures reply == ReadCommand(mem[..], packet, valid)
  {
    var addressBuffer, next := CopyField(packet, 1, COMMA);
    if next == None { return Runaway; }
    if |addressBuffer| >= MAX_ADDR_SIZE {
      return Error(GDB_EBADMEMADDRBUFSIZE);
    }
    if |packet| - |addressBuffer| - 2 >= MAX_LENGTH_SIZE {
      return Error(GDB_EBADMEMLENGTH);
    }
    var address, length := HexToUintn(addressBuffer), HexToUintn(packet[next.value..]);
    if !valid(address) {
      return Error(14);
    }
    var text := TransferFromMem(length, address, mem);
    return if text == None then Runaway else Data(text.value);
  }

  /** The text of the bytes at `address`; None where it would run past the output buffer. */
  method TransferFromMem(length: nat, address: nat, mem: array<Byte>) returns (text: Option<seq<Byte>>)
    requires mem.Length == WORD64 && address <= MAX_UINTN
    ensures text.Some? <==> 2 * length < MAX_BUF_SIZE
    ensures text.Some? ==> text.value == HexText(Loaded(mem[..], address, length))
  {
    hide HexText, Loaded, LowerHexDigit, HexDigit;
    if 2 * length >= MAX_BUF_SIZE {
      return None;
    }
    HexTextNothing(mem[..], address);
    ghost var m: Memory := mem[..];
    var outBuffer := new Byte[MAX_BUF_SIZE];
    var done: nat, at, out: nat := 0, address, 0;
    while done < length
      invariant done <= length && out == 2 * done && at == Plus(address, done)
      invariant mem[..] == m
      invariant outBuffer[..out] == HexText(Loaded(m, address, done))
    {
      ghost var before := outBuffer[..out];
      outBuffer[out] := LowerHexDigit(mem[at] / 16);
      outBuffer[out + 1] := LowerHexDigit(mem[at] % 16);
      LoadedNext(m, address, done);
      assert outBuffer[..out + 2] == before + [LowerHexDigit(m[at] / 16), LowerHexDigit(m[at] % 16)];
      at, out, done := Plus(at, 1), out + 2, done + 1;
    }
    outBuffer[out] := 0;
    assert outBuffer[..out] == HexText(Loaded(m, address, length));
    text := Some(outBuffer[..out]);
  }

  lemma HexTextNothing(m: Memory, address: nat)
    requires address <= MAX_UINTN
    ensures HexText(Loaded(m, address, 0)) == []
  {
  }

  lemma LoadedNext(m: Memory, address: nat, k: nat)
    requires address <= MAX_UINTN && k < MAX_UINTN
    ensures HexText(Loaded(m, address, k + 1)) == HexText(Loaded(m, address, k))
            + [LowerHexDigit(m[Plus(address, k)] / 16), LowerHexDigit(m[Plus(address, k)] % 16)]
  {
    assert Loaded(m, address, k + 1)[..k] == Loaded(m, address, k);
  }

  // ----- What the commands guarantee -----

  /** Address or length text a command accepts: some hex digits that fit the field and the machine word. */
  predicate Number(text: seq<Byte>) {
    text != [] && AllHex(text) && |text| < MAX_ADDR_SIZE && HexValue(text) <= MAX_UINTN
  }

  function WritePacket(address: seq<Byte>, length: seq<Byte>, text: seq<Byte>): (p: seq<Byte>)
  {
    [0x4d] + address + [COMMA] + length + [COLON] + text
  }

  function ReadPacket(address: seq<Byte>, length: seq<Byte>): (p: seq<Byte>)
  {
    [0x6d] + address + [COMMA] + length
  }

  lemma NumberHasNoSeparator(text: seq<Byte>)
    requires Number(text)
    ensures COMMA !in text && COLON !in text && HexToUintn(text) == HexValue(text)
  {
    HexToUintnExact(text, []);
    assert text + [] == text;
  }

  lemma ParseWritePacket(address: seq<Byte>, length: seq<Byte>, text: seq<Byte>)
    requires Number(address) && Number(length)
    ensures var packet := WritePacket(address, length, text);
            var c := IndexFrom(packet, COMMA, 1);
            && c == 1 + |address| < |packet| && packet[1..c] == address
            && var d := IndexFrom(packet, COLON, c + 1);
            && d == c + 1 + |length| < |packet| && packet[c + 1..d] == length && packet[d + 1..] == text
  {
    var packet := WritePacket(address, length, text);
    var c := 1 + |address|;
    var d := c + 1 + |length|;
    NumberHasNoSeparator(address);
    NumberHasNoSeparator(length);
    assert packet[1..c] == address && packet[c + 1..d] == length && packet[d + 1..] == text;
    IndexFromIs(packet, COMMA, 1, c);
    IndexFromIs(packet, COLON, c + 1, d);
  }

  /**
   Every write command, field by field: which error number a field that is too long or a
   text of the wrong length gets, and that otherwise the transfer is done.
   */
  lemma WriteReplies(m: Memory, address: seq<Byte>, length: seq<Byte>, text: seq<Byte>, signedChar: bool)
    requires 0x2c !in address && 0x3a !in length
    ensures var n := HexToUintn(length);
            WriteCommand(m, [0x4d] + address + [0x2c] + length + [0x3a] + text, signedChar) ==
              if |address| >= 32 then (m, Error(11))
              else if |length| >= 32 then (m, Error(12))
              else if |text| != 2 * n % WORD64 then (m, Error(15))
              else Transfer(m, n, HexToUintn(address), text, signedChar)
  {
    hide Transfer, HexToUintn;
    var packet := [0x4d] + address + [0x2c] + length + [0x3a] + text;
    var c := 1 + |address|;
    var d := c + 1 + |length|;
    assert packet[1..c] == address && packet[c + 1..d] == length && packet[d + 1..] == text;
    IndexFromIs(packet, COMMA, 1, c);
    IndexFromIs(packet, COLON, c + 1, d);
  }

  /** A transfer is refused with 14 exactly if some pair is rejected. */
  lemma TransferReplies(m: Memory, length: nat, address: nat, text: seq<Byte>, signedChar: bool)
    requires address <= MAX_UINTN && length <= MAX_UINTN
    ensures Transfer(m, length, address, text, signedChar).1 == if PairsOk(text, length, signedChar) then Ok else Error(14)
  {
    hide Stored, Decoded, Pair;
  }

  /** Every read command likewise; `valid` is ValidateAddress. */
  lemma ReadReplies(m: Memory, address: seq<Byte>, length: seq<Byte>, valid: nat -> bool)
    requires 0x2c !in address
    ensures var a, n := HexToUintn(address), HexToUintn(length);
            ReadCommand(m, [0x6d] + address + [0x2c] + length, valid) ==
              if |address| >= 32 then Error(11)
              else if |length| >= 32 then Error(13)
              else if !valid(a) then Error(14)
              else if 2 * n >= 2000 then Runaway
              else Data(HexText(Loaded(m, a, n)))
  {
    hide HexToUintn, HexText, Loaded;
    var packet := [0x6d] + address + [0x2c] + length;
    var c := 1 + |address|;
    assert packet[1..c] == address && packet[c + 1..] == length;
    IndexFromIs(packet, COMMA, 1, c);
  }

  /**
   Every well-formed write does exactly what its transfer does, unless the text has the
   wrong length, which changes nothing.
   */
  lemma WriteIsTransfer(m: Memory, address: seq<Byte>, length: seq<Byte>, text: seq<Byte>, signedChar: bool)
    requires Number(address) && Number(length)
    ensures WriteCommand(m, WritePacket(address, length, text), signedChar)
         == if |text| == 2 * HexValue(length) % WORD64
            then Transfer(m, HexValue(length), HexValue(address), text, signedChar)
            else (m, Error(GDB_EBADMEMDATASIZE))
  {
    hide Transfer, HexToUintn, WritePacket, IndexFrom;
    ParseWritePacket(address, length, text);
    NumberHasNoSeparator(address);
    NumberHasNoSeparator(length);
  }

  /** A write of the text of some bytes stores exactly those bytes. */
  lemma WriteStores(m: Memory, address: seq<Byte>, length: seq<Byte>, data: seq<Byte>, signedChar: bool)
    requires Number(address) && Number(length) && HexValue(length) == |data| && 2 * |data| <= MAX_UINTN
    ensures WriteCommand(m, WritePacket(address, length, HexText(data)), signedChar) == (Stored(m, HexValue(address), data), Ok)
  {
    hide WriteCommand, Stored, HexText, Decoded, Accepted, Pair, WritePacket;
    WriteIsTransfer(m, address, length, HexText(data), signedChar);
    HexTextRoundTrip(data, signedChar);
    AcceptedIs(HexText(data), |data|, |data|, signedChar);
  }

  /**
   The remote memory round trip: writing any bytes and reading the same valid range back
   yields hex text for exactly those bytes, and no other address changed.
   */
  lemma RemoteMemoryRoundTrip(m: Memory, address: seq<Byte>, length: seq<Byte>, data: seq<Byte>,
                              signedChar: bool, valid: nat -> bool)
    requires Number(address) && Number(length)
    requires HexValue(length) == |data| && 2 * |data| < MAX_BUF_SIZE && valid(HexValue(address))
    ensures var (m', reply) := WriteCommand(m, WritePacket(address, length, HexText(data)), signedChar);
            && reply == Ok
            && ReadCommand(m', ReadPacket(address, length), valid) == Data(HexText(data))
            && PairsOk(HexText(data), |data|, signedChar) && Decoded(HexText(data), |data|, signedChar) == data
            && forall a :: 0 <= a < WORD64 && Minus(a, HexValue(address)) >= |data| ==> m'[a] == m[a]
  {
    hide WriteCommand, ReadCommand, Stored, Loaded, HexText, Decoded, Accepted, Pair, WritePacket, ReadPacket;
    var base := HexValue(address);
    WriteStores(m, address, length, data, signedChar);
    HexTextRoundTrip(data, signedChar);
    LoadStored(m, base, data);
    ReadIsLoad(Stored(m, base, data), address, length, valid);
  }

  lemma ReadIsLoad(m: Memory, address: seq<Byte>, length: seq<Byte>, valid: nat -> bool)
    requires Number(address) && Number(length)
    requires 2 * HexValue(length) < MAX_BUF_SIZE && valid(HexValue(address))
    ensures ReadCommand(m, ReadPacket(address, length), valid)
         == Data(HexText(Loaded(m, HexValue(address), HexValue(length))))
  {
    hide HexToUintn, HexText, Loaded;
    var packet := ReadPacket(address, length);
    var c := 1 + |address|;
    NumberHasNoSeparator(address);
    NumberHasNoSeparator(length);
    assert packet[1..c] == address && packet[c + 1..] == length;
    IndexFromIs(packet, COMMA, 1, c);
  }

  /**
   Malformed data is refused exactly where CHAR8 is signed. Where it is unsigned, as the
   ARM builds make it, the test for a negative digit never fires and bad text is stored.
   */
  lemma BadDataRefusedIffSigned(m: Memory, address: seq<Byte>, length: seq<Byte>, text: seq<Byte>, signedChar: bool)
    requires Number(address) && Number(length) && |text| == 2 * HexValue(length) <= MAX_UINTN
    requires !AllHex(text)
    ensures WriteCommand(m, WritePacket(address, length, text), signedChar).1
         == if signedChar then Error(GDB_EBADMEMDATA) else Ok
  {
    hide WriteCommand, Stored, HexToUintn;
    WriteIsTransfer(m, address, length, text, signedChar);
    var n := HexValue(length);
    if signedChar {
      var i :| 0 <= i < |text| && HexCharToInt(text[i]) < 0;
      assert Pair(text, i / 2, true) == None by {
        assert At(text, i) == text[i];
      }
    }
    assert PairsOk(text, n, signedChar) <==> !signedChar;
  }
}
