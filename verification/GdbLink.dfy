/**
 The packet layer of the GDB remote serial link: `$payload#checksum` framing, the
 receiver that restarts on '$', and the sender that retransmits a bounded number of
 times.
 */
module GdbLink {
  import opened Bytes

  const DOLLAR: Byte := 0x24
  const HASH: Byte := 0x23
  const PLUS: Byte := 0x2b
  const MINUS: Byte := 0x2d

  /** The modulo-256 sum kept in the UINT8 CheckSum. */
  function Sum(s: seq<Byte>): (c: Byte)
  {
    if s == [] then 0 else (Sum(s[..|s| - 1]) + s[|s| - 1]) % 256
  }

  /** All bytes added up. */
  function Total(s: seq<Byte>): (n: nat)
  {
    if s == [] then 0 else s[0] + Total(s[1..])
  }

  lemma {:induction false} TotalSnoc(s: seq<Byte>, c: Byte)
    ensures Total(s + [c]) == Total(s) + c
  {
    if s == [] {
      assert [] + [c] == [c];
      assert Total([c]) == c + Total([]);
    } else {
      assert (s + [c])[1..] == s[1..] + [c];
      TotalSnoc(s[1..], c);
    }
  }

  lemma TotalNothing()
    ensures Total([]) == 0
  {
  }

  lemma AddModulo(t: nat, c: nat)
    ensures (t % 256 + c) % 256 == (t + c) % 256
  {
  }

  /** The checksum is the sum of all bytes modulo 256. */
  lemma {:induction false} SumIsTotal(s: seq<Byte>)
    ensures Sum(s) == Total(s) % 256
  {
    hide Total;
    if s == [] {
      TotalNothing();
    } else {
      var n := |s| - 1;
      SumIsTotal(s[..n]);
      TotalSnoc(s[..n], s[n]);
      assert s[..n] + [s[n]] == s;
      AddModulo(Total(s[..n]), s[n]);
    }
  }

  /** The frame SendPacket writes for a payload. */
  function Frame(p: seq<Byte>): (f: seq<Byte>)
  {
    [DOLLAR] + p + [HASH, HexDigit(Sum(p) / 16), HexDigit(Sum(p) % 16)]
  }

  /** A frame byte for byte: '$', the payload, '#', and two digits 0 to 9 or A to F that are worth its checksum. */
  lemma FrameIs(p: seq<Byte>)
    ensures |Frame(p)| == |p| + 4 && Frame(p)[0] == 0x24 && Frame(p)[1..|p| + 1] == p && Frame(p)[|p| + 1] == 0x23
    ensures var high, low := Frame(p)[|p| + 2], Frame(p)[|p| + 3];
            && (forall c <- [high, low] :: 0x30 <= c <= 0x39 || 0x41 <= c <= 0x46)
            && HexCharToInt(high) * 16 + HexCharToInt(low) == Sum(p)
  {
  }

  predicate Clean(s: seq<Byte>) {
    DOLLAR !in s && HASH !in s
  }

  // ----- The serial port -----

  /**
   The serial line as the stub sees it: the bytes still to arrive and the bytes put so
   far. GdbGetChar waits for a byte; on a line that will never deliver one it never
   returns, which the model reports as None.
   */
  class SerialPort {
    var rx: seq<Byte>
    var tx: seq<Byte>

    constructor (incoming: seq<Byte>)
      ensures rx == incoming && tx == []
    {
      rx, tx := incoming, [];
    }

    method GetChar() returns (c: Option<Byte>)
      modifies this`rx
      ensures old(rx) == [] ==> c == None && rx == []
      ensures old(rx) != [] ==> c == Some(old(rx)[0]) && rx == old(rx)[1..]
    {
      if |rx| == 0 {
        return None;
      }
      c := Some(rx[0]);
      rx := rx[1..];
    }

    method PutChar(c: Byte)
      modifies this`tx
      ensures tx == old(tx) + [c]
    {
      tx := tx + [c];
    }
  }

  // ----- The receiver as a machine over single bytes -----

  datatype RxState =
    | Hunting
    | Body(data: seq<Byte>)
    | SumHigh(data: seq<Byte>)
    | SumLow(data: seq<Byte>, high: Byte)
    | Done(data: seq<Byte>)

  /** A receiver: where it is, and the acknowledgements it has put. */
  datatype Rx = Rx(state: RxState, acks: seq<Byte>)

  const IDLE := Rx(Hunting, [])

  predicate SumOk(data: seq<Byte>, high: Byte, low: Byte) {
    HexToUintn(CString([high, low])) == Sum(data)
  }

  /** The body loop goes on only while a slot is left for the terminating NUL. */
  function Collect(data: seq<Byte>, size: nat): (st: RxState)
  {
    if |data| + 1 < size then Body(data) else SumHigh(data)
  }

  function Step(r: Rx, c: Byte, size: nat): (r': Rx)
  {
    match r.state
    case Hunting => if c == DOLLAR then r.(state := Collect([], size)) else r
    case Body(data) =>
      if c == DOLLAR then r.(state := Collect([], size))
      else if c == HASH then r.(state := SumHigh(data))
      else r.(state := Collect(data + [c], size))
    case SumHigh(data) => r.(state := SumLow(data, c))
    case SumLow(data, high) =>
      if SumOk(data, high, c) then Rx(Done(data), r.acks + [PLUS]) else Rx(Hunting, r.acks + [MINUS])
    case Done(_) => r
  }

  /** The receiver after reading all of the input. */
  function Run(r: Rx, input: seq<Byte>, size: nat): (r': Rx)
  {
    if input == [] then r else Step(Run(r, input[..|input| - 1], size), input[|input| - 1], size)
  }

  /** Reading in two portions is reading at once. */
  lemma {:induction false} RunAppend(r: Rx, a: seq<Byte>, b: seq<Byte>, size: nat)
    ensures Run(r, a + b, size) == Run(Run(r, a, size), b, size)
  {
    if b == [] {
      assert a + b == a;
    } else {
      assert (a + b)[..|a + b| - 1] == a + b[..|b| - 1];
      RunAppend(r, a, b[..|b| - 1], size);
    }
  }

  lemma RunSnoc(r: Rx, a: seq<Byte>, c: Byte, size: nat)
    ensures Run(r, a + [c], size) == Step(Run(r, a, size), c, size)
  {
    assert (a + [c])[..|a|] == a;
  }

  /**
   From `line`, `taken` has been read, `left` is still to come and the receiver is in `r`;
   it had accepted nothing before its last byte.
   */
  ghost predicate Reading(line: seq<Byte>, taken: seq<Byte>, left: seq<Byte>, r: Rx, size: nat) {
    && line == taken + left
    && r == Run(IDLE, taken, size)
    && (taken != [] ==> !Run(IDLE, taken[..|taken| - 1], size).state.Done?)
  }

  lemma ReadingNothing(line: seq<Byte>, size: nat)
    ensures Reading(line, [], line, IDLE, size)
  {
  }

  /** GdbGetChar, moving the machine along. */
  method Read(port: SerialPort, ghost line: seq<Byte>, ghost taken: seq<Byte>, ghost r: Rx, ghost size: nat)
    returns (c: Option<Byte>, ghost taken': seq<Byte>, ghost r': Rx)
    requires Reading(line, taken, port.rx, r, size) && !r.state.Done?
    modifies port`rx
    ensures Reading(line, taken', port.rx, r', size)
    ensures c == None ==> port.rx == [] && r' == r
    ensures c.Some? ==> |port.rx| < |old(port.rx)| && taken' == taken + [c.value] && r' == Step(r, c.value, size)
  {
    taken', r' := taken, r;
    if |port.rx| > 0 {
      RunSnoc(IDLE, taken, port.rx[0], size);
      taken', r' := taken + [port.rx[0]], Step(r, port.rx[0], size);
      assert taken'[..|taken'| - 1] == taken;
    }
    c := port.GetChar();
  }

  /** Waits for the start of a packet; false when the line stays silent. */
  method AwaitStart(port: SerialPort, ghost line: seq<Byte>, ghost taken: seq<Byte>, ghost r: Rx, ghost size: nat)
    returns (ok: bool, ghost taken': seq<Byte>, ghost r': Rx)
    requires Reading(line, taken, port.rx, r, size) && r.state == Hunting
    modifies port`rx
    ensures Reading(line, taken', port.rx, r', size)
    ensures ok ==> |port.rx| < |old(port.rx)| && r' == r.(state := Collect([], size))
    ensures !ok ==> port.rx == [] && r' == r
  {
    var testChar;
    testChar, taken', r' := Read(port, line, taken, r, size);
    while testChar.Some? && testChar.value != DOLLAR
      invariant Reading(line, taken', port.rx, r', size)
      invariant r' == (if testChar == Some(DOLLAR) then r.(state := Collect([], size)) else r)
      invariant if testChar.Some? then |port.rx| < |old(port.rx)| else port.rx == []
      decreases |port.rx|, testChar.Some?
    {
      testChar, taken', r' := Read(port, line, taken', r', size);
    }
    ok := testChar.Some?;
  }

  lemma SumNothing()
    ensures Sum([]) == 0
  {
  }

  lemma SumSnoc(s: seq<Byte>, c: Byte)
    ensures Sum(s + [c]) == (Sum(s) + c) % 256
  {
    assert (s + [c])[..|s|] == s;
  }

  /** The body loop with its `goto retry`; None when the line stays silent. */
  method ReceiveBody(port: SerialPort, packetData: array<Byte>,
                     ghost line: seq<Byte>, ghost taken: seq<Byte>, ghost r: Rx)
    returns (n: Option<nat>, checkSum: Byte, ghost taken': seq<Byte>, ghost r': Rx)
    requires packetData.Length >= 1
    requires Reading(line, taken, port.rx, r, packetData.Length) && r.state == Collect([], packetData.Length)
    modifies port`rx, packetData
    ensures Reading(line, taken', port.rx, r', packetData.Length)
    ensures |port.rx| <= |old(port.rx)| && r'.acks == r.acks
    ensures match n
            case None => port.rx == [] && !r'.state.Done?
            case Some(k) =>
              && k < packetData.Length
              && r'.state == SumHigh(packetData[..k]) && checkSum == Sum(packetData[..k])
  {
    hide Reading, Sum, SumOk;
    var size := packetData.Length;
    var index: nat := 0;
    checkSum := 0;
    taken', r' := taken, r;
    assert packetData[..0] == [] && Sum([]) == 0 by { SumNothing(); }
    while index < size - 1
      invariant index <= size - 1 && |port.rx| <= |old(port.rx)|
      invariant Reading(line, taken', port.rx, r', size)
      invariant checkSum == Sum(packetData[..index])
      invariant r' == r.(state := Collect(packetData[..index], size))
      decreases |port.rx|
    {
      var c;
      c, taken', r' := Read(port, line, taken', r', size);
      if c == None { return None, 0, taken', r'; }
      if c.value == DOLLAR {
        index, checkSum := 0, 0;   // goto retry
        assert packetData[..0] == [];
        SumNothing();
      } else if c.value == HASH {
        return Some(index), checkSum, taken', r';
      } else {
        ghost var before := packetData[..index];
        packetData[index] := c.value;
        assert packetData[..index + 1] == before + [c.value];
        SumSnoc(before, c.value);
        checkSum := (checkSum + c.value) % 256;
        index := index + 1;
      }
    }
    return Some(index), checkSum, taken', r';
  }

  /** The two checksum characters and the verdict; None when the line stays silent. */
  method ReceiveSum(port: SerialPort, checkSum: Byte,
                    ghost line: seq<Byte>, ghost taken: seq<Byte>, ghost r: Rx, ghost size: nat)
    returns (ok: Option<bool>, ghost taken': seq<Byte>, ghost r': Rx)
    requires Reading(line, taken, port.rx, r, size)
    requires r.state.SumHigh? && checkSum == Sum(r.state.data)
    modifies port
    ensures Reading(line, taken', port.rx, r', size) && |port.rx| <= |old(port.rx)|
    ensures match ok
            case None => port.rx == [] && !r'.state.Done? && r'.acks == r.acks && port.tx == old(port.tx)
            case Some(true) => r' == Rx(Done(r.state.data), r.acks + [PLUS]) && port.tx == old(port.tx) + [PLUS]
            case Some(false) => r' == Rx(Hunting, r.acks + [MINUS]) && port.tx == old(port.tx) + [MINUS]
  {
    var high, low;
    high, taken', r' := Read(port, line, taken, r, size);
    if high == None { return None, taken', r'; }
    low, taken', r' := Read(port, line, taken', r', size);
    if low == None { return None, taken', r'; }
    if HexToUintn(CString([high.value, low.value])) == checkSum {
      port.PutChar(PLUS);
      return Some(true), taken', r';
    } else {
      port.PutChar(MINUS);
      return Some(false), taken', r';
    }
  }

  /**
   ReceivePacket. `taken` is what it read from the line, ending with the first packet the
   machine accepts. The buffer holds the accepted payload, NUL-terminated, and one '+' or
   '-' was put for every packet that ended. On a line with no acceptable packet it reads
   everything and never returns (None).
   */
  method ReceivePacket(port: SerialPort, packetData: array<Byte>)
    returns (n: Option<nat>, ghost taken: seq<Byte>, ghost r: Rx)
    requires packetData.Length >= 1
    modifies port, packetData
    ensures Reading(old(port.rx), taken, port.rx, r, packetData.Length)
    ensures port.tx == old(port.tx) + r.acks
    ensures match n
            case None => port.rx == [] && !r.state.Done?
            case Some(k) => k < packetData.Length && packetData[k] == 0 && r.state == Done(packetData[..k])
  {
    hide Reading, Sum;
    var size := packetData.Length;
    forall i | 0 <= i < size { packetData[i] := 0; }
    ghost var line := port.rx;
    taken, r := [], IDLE;
    ReadingNothing(line, size);
    while true
      invariant Reading(line, taken, port.rx, r, size)
      invariant r.state == Hunting && port.tx == old(port.tx) + r.acks
      decreases |port.rx|
    {
      var started, checkSum, ok;
      started, taken, r := AwaitStart(port, line, taken, r, size);
      if !started { return None, taken, r; }
      n, checkSum, taken, r := ReceiveBody(port, packetData, line, taken, r);
      if n == None { return None, taken, r; }
      packetData[n.value] := 0;
      assert packetData[..n.value] == r.state.data;
      ok, taken, r := ReceiveSum(port, checkSum, line, taken, r, size);
      if ok == None { return None, taken, r; }
      if ok.value { return n, taken, r; }
    }
  }

  // ----- The sender -----

  /** The line after `n` more copies of the frame of `p`. */
  function AfterFrames(tx: seq<Byte>, p: seq<Byte>, n: nat): (tx': seq<Byte>)
  {
    if n == 0 then tx else AfterFrames(tx, p, n - 1) + Frame(p)
  }

  lemma FramePieces(tx: seq<Byte>, p: seq<Byte>)
    ensures tx + [DOLLAR] + p + [HASH] + [HexDigit(Sum(p) / 16)] + [HexDigit(Sum(p) % 16)] == tx + Frame(p)
  {
  }

  /** The payload loop of SendPacket. */
  method PutPayload(port: SerialPort, packetData: seq<Byte>) returns (count: nat, checkSum: Byte)
    requires 0 in packetData
    modifies port`tx
    ensures port.tx == old(port.tx) + CString(packetData)
    ensures count == |CString(packetData)| && checkSum == Sum(CString(packetData))
  {
    checkSum := 0;
    count := 0;
    while packetData[count] != 0
      invariant count < |packetData| && (exists i :: count <= i < |packetData| && packetData[i] == 0)
      invariant 0 !in packetData[..count]
      invariant port.tx == old(port.tx) + packetData[..count]
      invariant checkSum == Sum(packetData[..count])
      decreases |packetData| - count
    {
      port.PutChar(packetData[count]);
      checkSum := (checkSum + packetData[count]) % 256;
      assert packetData[..count + 1] == packetData[..count] + [packetData[count]];
      count := count + 1;
    }
    CStringAt(packetData, count);
  }

  /** One pass of the sending loop: the frame of the C string in `packetData`. */
  method PutFrame(port: SerialPort, packetData: seq<Byte>) returns (count: nat)
    requires 0 in packetData
    modifies port`tx
    ensures port.tx == old(port.tx) + Frame(CString(packetData))
    ensures count == |CString(packetData)|
  {
    FramePieces(port.tx, CString(packetData));
    port.PutChar(DOLLAR);
    var checkSum;
    count, checkSum := PutPayload(port, packetData);
    port.PutChar(HASH);
    port.PutChar(HexDigit(checkSum / 16));
    port.PutChar(HexDigit(checkSum % 16));
  }

  /** What SendPacket did: `frames` copies of one frame, and one reply read for each. */
  ghost predicate Sent(p: seq<Byte>, retries: nat, replies: seq<Byte>, frames: nat, result: Option<nat>) {
    && frames <= retries
    && match result {
         // every frame so far was answered, none with '+', and no further reply will come
         case None => frames == |replies| + 1 && PLUS !in replies
         case Some(count) =>
           && frames <= |replies|
           && count == (if frames == 0 then 0 else |p|)
           && (frames < retries ==> frames > 0 && replies[frames - 1] == PLUS)
           && (forall i :: 0 <= i < frames - 1 ==> replies[i] != PLUS)
       }
  }

  /**
   SendPacket. The number of frames is the position of the first '+' among the replies,
   bounded by the retry count; the returned count does not tell an acknowledged packet
   from an abandoned one.
   */
  method SendPacket(port: SerialPort, packetData: seq<Byte>, retryCount: nat)
    returns (result: Option<nat>, ghost frames: nat)
    requires 0 in packetData
    modifies port
    ensures port.tx == AfterFrames(old(port.tx), CString(packetData), frames)
    ensures Sent(CString(packetData), retryCount, old(port.rx), frames, result)
    ensures port.rx == if result == None then [] else old(port.rx)[frames..]
  {
    ghost var p, replies := CString(packetData), port.rx;
    var timeout := retryCount;
    var count: nat := 0;
    frames := 0;
    while timeout > 0
      invariant frames == retryCount - timeout <= |replies|
      invariant port.rx == replies[frames..]
      invariant forall i :: 0 <= i < frames ==> replies[i] != PLUS
      invariant port.tx == AfterFrames(old(port.tx), p, frames)
      invariant count == if frames == 0 then 0 else |p|
    {
      timeout := timeout - 1;
      count := PutFrame(port, packetData);
      frames := frames + 1;
      var testChar := port.GetChar();
      if testChar == None {
        return None, frames;
      }
      if testChar.value == PLUS {
        return Some(count), frames;
      }
    }
    return Some(count), frames;
  }
}
