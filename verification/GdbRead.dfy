/**
 GdbRead, GdbWrite and the periodic callback in the source's own form, proved to do what
 the machine of GdbFileIo does.
 */
module GdbReadMethod {
  import opened Bytes
  import opened GdbLink
  import opened GdbMemory
  import opened GdbFileIo

  ghost predicate Reaches(m: Main, line: seq<Byte>, m': Main, cfg: Config) {
    exists k: nat :: Alone(m, line, k, cfg) == m'
  }

  lemma {:induction false} AloneAdd(m: Main, line: seq<Byte>, j: nat, k: nat, cfg: Config)
    ensures Alone(Alone(m, line, j, cfg), line, k, cfg) == Alone(m, line, j + k, cfg)
  {
    hide AloneStep;
    if k > 0 {
      AloneAdd(m, line, j, k - 1, cfg);
    }
  }

  lemma ReachesTrans(a: Main, b: Main, c: Main, line: seq<Byte>, cfg: Config)
    requires Reaches(a, line, b, cfg) && Reaches(b, line, c, cfg)
    ensures Reaches(a, line, c, cfg)
  {
    hide AloneStep;
    var j: nat :| Alone(a, line, j, cfg) == b;
    var k: nat :| Alone(b, line, k, cfg) == c;
    AloneAdd(a, line, j, k, cfg);
  }

  lemma ReachesSelf(m: Main, line: seq<Byte>, cfg: Config)
    ensures Reaches(m, line, m, cfg)
  {
    hide AloneStep;
    assert Alone(m, line, 0, cfg) == m;
  }

  lemma ReachesNext(a: Main, b: Main, line: seq<Byte>, cfg: Config)
    requires Reaches(a, line, b, cfg)
    ensures Reaches(a, line, AloneStep(b, line, cfg), cfg)
  {
    hide AloneStep;
    var j: nat :| Alone(a, line, j, cfg) == b;
    assert Alone(a, line, j + 1, cfg) == AloneStep(b, line, cfg);
  }

  /** One frame and its reply. */
  lemma SendOnce(m: Main, line: seq<Byte>, cfg: Config)
    requires m.pc.Send? && m.pc.retries > 0 && m.read < |line|
    ensures var Send(p, retries, after) := m.pc;
            var m' := m.(pc := if line[m.read] == PLUS then Resume(after) else Send(p, retries - 1, after),
                         tx := m.tx + Frame(p), read := m.read + 1);
            Reaches(m, line, m', cfg)
  {
    hide Frame, Reaches;
    ReachesSelf(m, line, cfg);
    ReachesNext(m, m, line, cfg);
    ReachesNext(m, AloneStep(m, line, cfg), line, cfg);
  }

  /** The machine after `i` frames that were not acknowledged. */
  function AfterRetries(m: Main, i: nat): (m': Main)
    requires m.pc.Send? && i <= m.pc.retries
  {
    m.(pc := Send(m.pc.payload, m.pc.retries - i, m.pc.after), tx := AfterFrames(m.tx, m.pc.payload, i), read := m.read + i)
  }

  lemma {:induction false} RetriesReach(m: Main, line: seq<Byte>, i: nat, cfg: Config)
    requires m.pc.Send? && i <= m.pc.retries && m.read + i <= |line|
    requires forall k :: m.read <= k < m.read + i ==> line[k] != PLUS
    ensures Reaches(m, line, AfterRetries(m, i), cfg)
  {
    hide Frame, Reaches, AloneStep;
    if i == 0 {
      ReachesSelf(m, line, cfg);
    } else {
      RetriesReach(m, line, i - 1, cfg);
      SendOnce(AfterRetries(m, i - 1), line, cfg);
      ReachesTrans(m, AfterRetries(m, i - 1), AfterRetries(m, i), line, cfg);
    }
  }

  /** What SendPacket leaves: the machine goes on, or waits for a reply that never comes. */
  function AfterSend(m: Main, line: seq<Byte>, frames: nat, result: Option<nat>): (m': Main)
    requires m.pc.Send?
    requires result == None ==> 0 < frames <= m.pc.retries
  {
    var tx := AfterFrames(m.tx, m.pc.payload, frames);
    if result == None then m.(pc := AwaitAck(m.pc.payload, m.pc.retries - frames, m.pc.after), tx := tx, read := |line|)
    else m.(pc := Resume(m.pc.after), tx := tx, read := m.read + frames)
  }

  /** SendPacket's contract describes what the machine does from Send on. */
  lemma SendReaches(m: Main, line: seq<Byte>, frames: nat, result: Option<nat>, cfg: Config)
    requires m.pc.Send? && m.read <= |line|
    requires Sent(m.pc.payload, m.pc.retries, line[m.read..], frames, result)
    ensures Reaches(m, line, AfterSend(m, line, frames, result), cfg)
    ensures AfterSend(m, line, frames, result).read <= |line|
  {
    hide Frame, Reaches;
    var replies := line[m.read..];
    assert forall k :: m.read <= k < |line| ==> line[k] == replies[k - m.read];
    if frames == 0 {
      ReachesSelf(m, line, cfg);
      ReachesNext(m, m, line, cfg);
    } else {
      var last := AfterRetries(m, frames - 1);
      RetriesReach(m, line, frames - 1, cfg);
      if result == None {
        ReachesNext(m, last, line, cfg);
      } else {
        SendOnce(last, line, cfg);
        SendEnds(m, line, frames, cfg);
      }
    }
  }

  /** The frame that is acknowledged, or the last one that may be sent. */
  lemma SendEnds(m: Main, line: seq<Byte>, frames: nat, cfg: Config)
    requires m.pc.Send? && 0 < frames <= m.pc.retries && m.read + frames <= |line|
    requires frames < m.pc.retries ==> line[m.read + frames - 1] == PLUS
    requires Reaches(m, line, AfterRetries(m, frames - 1), cfg)
    ensures Reaches(m, line, AfterSend(m, line, frames, Some(0)), cfg)
  {
    hide Frame, Reaches;
    var last := AfterRetries(m, frames - 1);
    SendOnce(last, line, cfg);
    if line[last.read] == PLUS {
      ReachesTrans(m, last, AfterSend(m, line, frames, Some(0)), line, cfg);
    } else {
      var spent := AfterRetries(m, frames);
      ReachesTrans(m, last, spent, line, cfg);
      ReachesNext(m, spent, line, cfg);
    }
  }

  lemma StepAcks(st: RxState, acks: seq<Byte>, c: Byte, size: nat)
    ensures var r := Step(Rx(st, []), c, size);
            Step(Rx(st, acks), c, size) == Rx(r.state, acks + r.acks)
  {
    hide SumOk;
  }

  /** The machine after a byte that leaves the receiver in `r`. */
  function AfterByte(m: Main, r: Rx, read: nat): (m': Main)
  {
    if r.state.Done? then
      var packet := CString(r.state.data);
      m.(pc := Serve(packet), tx := m.tx + r.acks, read := read, packets := m.packets + [packet])
    else m.(pc := Receiving(r.state), tx := m.tx + r.acks, read := read)
  }

  lemma ReceiveByte(m: Main, line: seq<Byte>, r: Rx, read: nat, cfg: Config)
    requires read < |line| && !r.state.Done? && Reaches(m, line, AfterByte(m, r, read), cfg)
    ensures Reaches(m, line, AfterByte(m, Step(r, line[read], PACKET_SIZE), read + 1), cfg)
  {
    hide Step, Reaches;
    StepAcks(r.state, r.acks, line[read], PACKET_SIZE);
    var r1 := Step(Rx(r.state, []), line[read], PACKET_SIZE);
    assert (m.tx + r.acks) + r1.acks == m.tx + (r.acks + r1.acks);
    ReachesNext(m, AfterByte(m, r, read), line, cfg);
  }

  /** The machine follows the receiver byte by byte. */
  lemma {:induction false} ReceivingReaches(m: Main, line: seq<Byte>, taken: seq<Byte>, cfg: Config)
    requires m.pc == Receiving(Hunting)
    requires m.read + |taken| <= |line| && taken == line[m.read..m.read + |taken|]
    requires taken != [] ==> !Run(IDLE, taken[..|taken| - 1], PACKET_SIZE).state.Done?
    ensures Reaches(m, line, AfterByte(m, Run(IDLE, taken, PACKET_SIZE), m.read + |taken|), cfg)
  {
    hide Step, Reaches, AfterByte;
    if taken == [] {
      AfterNothing(m);
      ReachesSelf(m, line, cfg);
    } else {
      var init, c := taken[..|taken| - 1], taken[|taken| - 1];
      LastOfSlice(line, m.read, taken);
      NotDoneBefore(init);
      ReceivingReaches(m, line, init, cfg);
      ReceiveByte(m, line, Run(IDLE, init, PACKET_SIZE), m.read + |init|, cfg);
    }
  }

  lemma AfterNothing(m: Main)
    requires m.pc == Receiving(Hunting)
    ensures AfterByte(m, IDLE, m.read) == m
  {
    assert m.tx + [] == m.tx;
  }

  lemma LastOfSlice(line: seq<Byte>, from: nat, taken: seq<Byte>)
    requires taken != [] && from + |taken| <= |line| && taken == line[from..from + |taken|]
    ensures var n := |taken| - 1;
            taken[..n] == line[from..from + n] && taken[n] == line[from + n]
  {
  }

  lemma NotDoneBefore(taken: seq<Byte>)
    requires !Run(IDLE, taken, PACKET_SIZE).state.Done?
    ensures taken != [] ==> !Run(IDLE, taken[..|taken| - 1], PACKET_SIZE).state.Done?
  {
  }

  /** ReceivePacket's contract describes what the machine does between Receiving and Serve. */
  lemma ReceiveReaches(m: Main, line: seq<Byte>, taken: seq<Byte>, left: seq<Byte>, r: Rx, cfg: Config)
    requires m.pc == Receiving(Hunting) && m.read <= |line|
    requires Reading(line[m.read..], taken, left, r, PACKET_SIZE)
    ensures Reaches(m, line, AfterByte(m, r, m.read + |taken|), cfg)
    ensures m.read + |taken| <= |line| && left == line[m.read + |taken|..]
  {
    hide Step, Reaches, AfterByte;
    var tail := line[m.read..];
    assert |tail| == |taken| + |left|;
    assert taken == tail[..|taken|] == line[m.read..m.read + |taken|];
    assert left == tail[|taken|..] == line[m.read + |taken|..];
    ReceivingReaches(m, line, taken, cfg);
  }

  /** The globals that the file functions and the callback share, with the port. */
  class Stub {
    const port: SerialPort
    var ctrlCBreakFlag: bool
    var processingFPacket: bool
    var singleSteps: nat

    constructor (serial: SerialPort)
      ensures port == serial && !ctrlCBreakFlag && !processingFPacket && singleSteps == 0
    {
      port, ctrlCBreakFlag, processingFPacket, singleSteps := serial, false, false, 0;
    }

    /** GdbPeriodicCallBack. Here port.rx is what has arrived. */
    method GdbPeriodicCallBack(ghost main: Main)
      modifies this, port
      ensures World(main, port.rx, [], ctrlCBreakFlag, processingFPacket, singleSteps)
           == Callback(old(World(main, port.rx, [], ctrlCBreakFlag, processingFPacket, singleSteps)))
      ensures port.tx == old(port.tx)
    {
      if !ctrlCBreakFlag && !processingFPacket {
        while |port.rx| > 0 && !ctrlCBreakFlag
          invariant processingFPacket == old(processingFPacket) && singleSteps == old(singleSteps)
          invariant port.tx == old(port.tx)
          invariant AfterCtrlC(old(port.rx)) == if ctrlCBreakFlag then (port.rx, true) else AfterCtrlC(port.rx)
          decreases |port.rx|
        {
          var c := port.GetChar();
          if c == Some(CTRL_C) {
            ctrlCBreakFlag := true;
          }
        }
      }
      if ctrlCBreakFlag {
        singleSteps := singleSteps + 1;
        ctrlCBreakFlag := false;
      }
    }
  }

  // ----- Where a run ends -----

  /** The thread waits for a byte that never comes, or ran away. */
  predicate Stuck(m: Main, line: seq<Byte>) {
    m.pc.Lost? || (Wants(m.pc) && m.read >= |line|)
  }

  predicate Final(m: Main, line: seq<Byte>) {
    m.pc.Returned? || Stuck(m, line)
  }

  lemma {:induction false} FinalStays(m: Main, line: seq<Byte>, k: nat, cfg: Config)
    requires Final(m, line)
    ensures Alone(m, line, k, cfg) == m
  {
    if k > 0 {
      FinalStays(m, line, k - 1, cfg);
    }
  }

  /** A run has at most one end. */
  lemma FinalUnique(m: Main, line: seq<Byte>, a: Main, b: Main, cfg: Config)
    requires Reaches(m, line, a, cfg) && Final(a, line) && Reaches(m, line, b, cfg) && Final(b, line)
    ensures a == b
  {
    hide AloneStep, Final;
    var j: nat :| Alone(m, line, j, cfg) == a;
    var k: nat :| Alone(m, line, k, cfg) == b;
    if j <= k {
      AloneAdd(m, line, j, k - j, cfg);
      FinalStays(a, line, k - j, cfg);
    } else {
      AloneAdd(m, line, k, j - k, cfg);
      FinalStays(b, line, j - k, cfg);
    }
  }

  // ----- The methods -----

  /** From `m0` the machine has come to `m`, which is where a method is that left this port. */
  ghost predicate Follows(m0: Main, line: seq<Byte>, m: Main, rx: seq<Byte>, tx: seq<Byte>, cfg: Config) {
    Reaches(m0, line, m, cfg) && m.read <= |line| && rx == line[m.read..] && tx == m.tx
  }

  lemma FollowsNext(m0: Main, line: seq<Byte>, m: Main, rx: seq<Byte>, tx: seq<Byte>, cfg: Config)
    requires Follows(m0, line, m, rx, tx, cfg) && !Wants(m.pc) && Internal(m, cfg).read == m.read && Internal(m, cfg).tx == m.tx
    ensures Follows(m0, line, Internal(m, cfg), rx, tx, cfg)
  {
    hide Reaches, Internal;
    ReachesNext(m0, m, line, cfg);
  }

  lemma SendFollows(m0: Main, line: seq<Byte>, m: Main, rx: seq<Byte>, tx: seq<Byte>,
                    frames: nat, result: Option<nat>, rx': seq<Byte>, tx': seq<Byte>, cfg: Config)
    requires Follows(m0, line, m, rx, tx, cfg) && m.pc.Send?
    requires Sent(m.pc.payload, m.pc.retries, rx, frames, result)
    requires rx' == (if result == None then [] else rx[frames..]) && tx' == AfterFrames(tx, m.pc.payload, frames)
    ensures Follows(m0, line, AfterSend(m, line, frames, result), rx', tx', cfg)
  {
    hide Reaches, AfterFrames;
    SendReaches(m, line, frames, result, cfg);
    ReachesTrans(m0, m, AfterSend(m, line, frames, result), line, cfg);
  }

  /** SendPacket as a step: the machine goes from Send to what follows it, or waits forever. */
  method SendStep(port: SerialPort, payload: seq<Byte>, cfg: Config,
                  ghost m0: Main, ghost m: Main, ghost line: seq<Byte>)
    returns (ok: bool, ghost m': Main)
    requires 0 !in payload && m.pc.Send? && m.pc.payload == payload && m.pc.retries == cfg.retryCount
    requires Follows(m0, line, m, port.rx, port.tx, cfg)
    modifies port
    ensures Follows(m0, line, m', port.rx, port.tx, cfg)
    ensures m' == m.(pc := m'.pc, tx := m'.tx, read := m'.read) && m'.read >= m.read
    ensures if ok then m'.pc == Resume(m.pc.after) else Stuck(m', line)
  {
    hide Reaches, Frame, AfterFrames;
    assert CString(payload + [0]) == payload by {
      CStringTerminated(payload, []);
      assert payload + [0] + [] == payload + [0];
    }
    ghost var rx, tx := port.rx, port.tx;
    var result;
    ghost var frames;
    result, frames := SendPacket(port, payload + [0], cfg.retryCount);
    ok := result.Some?;
    m' := AfterSend(m, line, frames, result);
    SendFollows(m0, line, m, rx, tx, frames, result, port.rx, port.tx, cfg);
  }

  lemma ReceiveFollows(m0: Main, line: seq<Byte>, m: Main, rx: seq<Byte>, tx: seq<Byte>,
                       taken: seq<Byte>, r: Rx, rx': seq<Byte>, tx': seq<Byte>, cfg: Config)
    requires Follows(m0, line, m, rx, tx, cfg) && m.pc == Receiving(Hunting)
    requires Reading(rx, taken, rx', r, PACKET_SIZE) && tx' == tx + r.acks
    ensures Follows(m0, line, AfterByte(m, r, m.read + |taken|), rx', tx', cfg)
    ensures r.state.Done? ==> taken != []
    ensures rx' == [] ==> m.read + |taken| == |line|
  {
    hide Reaches;
    ReceiveReaches(m, line, taken, rx', r, cfg);
    ReachesTrans(m0, m, AfterByte(m, r, m.read + |taken|), line, cfg);
  }

  /** ReceivePacket as a step: the machine goes from Receiving to Serve, or waits forever. */
  method ReceiveStep(port: SerialPort, buffer: array<Byte>, cfg: Config,
                     ghost m0: Main, ghost m: Main, ghost line: seq<Byte>)
    returns (packet: Option<seq<Byte>>, ghost m': Main)
    requires buffer.Length == PACKET_SIZE && m.pc == Receiving(Hunting)
    requires Follows(m0, line, m, port.rx, port.tx, cfg)
    modifies port, buffer
    ensures Follows(m0, line, m', port.rx, port.tx, cfg)
    ensures m'.mem == m.mem
    ensures if packet == None then Stuck(m', line) else
              && 0 !in packet.value && m'.read > m.read
              && m' == m.(pc := Serve(packet.value), tx := m'.tx, read := m'.read, packets := m.packets + [packet.value])
  {
    hide Reading, Follows;
    ghost var rx, tx := port.rx, port.tx;
    var n;
    ghost var taken, r;
    n, taken, r := ReceivePacket(port, buffer);
    m' := AfterByte(m, r, m.read + |taken|);
    ReceiveFollows(m0, line, m, rx, tx, taken, r, port.rx, port.tx, cfg);
    packet := if n == None then None else Some(CString(buffer[..n.value]));
  }

  lemma {:induction false} HexTextHasNoNul(data: seq<Byte>)
    ensures 0 !in HexText(data)
  {
    if data != [] {
      HexTextHasNoNul(data[..|data| - 1]);
    }
  }

  lemma WriteRepliesNoData(mem: Memory, packet: seq<Byte>, signedChar: bool)
    requires packet != []
    ensures !WriteCommand(mem, packet, signedChar).1.Data?
  {
    hide Stored, Decoded, Accepted, HexToUintn, IndexFrom;
  }

  lemma ReadDataHasNoNul(mem: Memory, packet: seq<Byte>, valid: nat -> bool)
    requires packet != []
    ensures var reply := ReadCommand(mem, packet, valid); reply.Data? ==> 0 !in reply.text
  {
    hide HexText, Loaded, HexToUintn, IndexFrom;
    forall data: seq<Byte>
      ensures 0 !in HexText(data)
    {
      HexTextHasNoNul(data);
    }
  }

  lemma ReplyTextHasNoNul(mem: Memory, packet: seq<Byte>, cfg: Config)
    ensures var reply := Served(mem, packet, cfg).1; reply.Some? ==> 0 !in reply.value
  {
    hide WriteCommand, ReadCommand;
    if packet != [] {
      WriteRepliesNoData(mem, packet, cfg.signedChar);
      ReadDataHasNoNul(mem, packet, cfg.valid);
    }
  }

  /** The switch on a packet that is not an F reply: the reply to send, None if it runs away. */
  method Dispatch(packet: seq<Byte>, mem: array<Byte>, cfg: Config) returns (reply: Option<seq<Byte>>)
    requires mem.Length == WORD64 && At(packet, 0) != LETTER_F
    modifies mem
    ensures (mem[..], reply) == old(Served(mem[..], packet, cfg))
    ensures reply.Some? ==> 0 !in reply.value
  {
    hide WriteCommand, ReadCommand;
    ReplyTextHasNoNul(mem[..], packet, cfg);
    if !cfg.writes && At(packet, 0) == LETTER_M {
      var r := WriteToMemory(packet, mem, cfg.signedChar);
      return ReplyText(r);
    } else if cfg.writes && At(packet, 0) == LETTER_SMALL_M {
      var r := ReadFromMemory(packet, mem, cfg.valid);
      return ReplyText(r);
    }
    return Some([]);
  }

  /** The do-while: serves packets until the F reply arrives. */
  method AwaitFReply(port: SerialPort, mem: array<Byte>, cfg: Config, ghost m0: Main, ghost m: Main, ghost line: seq<Byte>)
    returns (last: seq<Byte>, ok: bool, ghost m': Main)
    requires mem.Length == WORD64 && m.pc == Receiving(Hunting) && m.mem == mem[..]
    requires Follows(m0, line, m, port.rx, port.tx, cfg)
    modifies port, mem
    ensures Follows(m0, line, m', port.rx, port.tx, cfg) && m'.mem == mem[..]
    ensures if !ok then Stuck(m', line) else
              && At(last, 0) == LETTER_F && m'.pc == Serve(last)
              && m'.packets != [] && m'.packets[|m'.packets| - 1] == last
  {
    hide Follows, Internal, Served;
    var packet := new Byte[PACKET_SIZE];
    m' := m;
    last := [];
    InLine(m0, line, m', port.rx, port.tx, cfg);
    while true
      invariant Follows(m0, line, m', port.rx, port.tx, cfg) && m'.read <= |line|
      invariant m'.mem == mem[..] && m'.pc == Receiving(Hunting)
      decreases |line| - m'.read
    {
      var got;
      got, m' := ReceiveStep(port, packet, cfg, m0, m', line);
      if got == None { return [], false, m'; }
      last := got.value;
      if At(last, 0) == LETTER_F {
        return last, true, m';
      }
      ServeStep(m', last, cfg);
      var reply := Dispatch(last, mem, cfg);
      FollowsNext(m0, line, m', port.rx, port.tx, cfg);
      m' := Internal(m', cfg);
      if reply == None { return [], false, m'; }
      ok, m' := SendStep(port, reply.value, cfg, m0, m', line);
      if !ok { return [], false, m'; }
      InLine(m0, line, m', port.rx, port.tx, cfg);
    }
  }

  lemma InLine(m0: Main, line: seq<Byte>, m: Main, rx: seq<Byte>, tx: seq<Byte>, cfg: Config)
    requires Follows(m0, line, m, rx, tx, cfg)
    ensures m.read <= |line|
  {
  }

  lemma ServeStep(m: Main, packet: seq<Byte>, cfg: Config)
    requires m.pc == Serve(packet) && At(packet, 0) != LETTER_F
    ensures var (mem', reply) := Served(m.mem, packet, cfg);
            Internal(m, cfg) == m.(pc := if reply == None then Lost else Send(reply.value, cfg.retryCount, ToReceive), mem := mem')
  {
    hide Served;
  }

  /** After the loop: the reply is parsed, and an error number in it is sent back. */
  method Conclude(stub: Stub, last: seq<Byte>, cfg: Config, ghost m0: Main, ghost m: Main, ghost line: seq<Byte>)
    returns (retCode: Option<int>, ghost m': Main)
    requires At(last, 0) == LETTER_F && m.pc == Serve(last) && Follows(m0, line, m, stub.port.rx, stub.port.tx, cfg)
    modifies stub`ctrlCBreakFlag, stub.port
    ensures Follows(m0, line, m', stub.port.rx, stub.port.tx, cfg)
    ensures m' == m.(pc := m'.pc, tx := m'.tx, read := m'.read)
    ensures if retCode == None then Stuck(m', line) else m'.pc == Release && retCode.value == ParseFReply(last).retCode
    ensures stub.ctrlCBreakFlag == (old(stub.ctrlCBreakFlag) || ParseFReply(last).ctrlC)
  {
    hide Follows, ParseFReply;
    var code, errNo, ctrlC := GdbParseFReplyPacket(last);
    if ctrlC {
      stub.ctrlCBreakFlag := true;
    }
    ReplyHasErrNo(last);
    ParseFollows(m0, line, m, last, stub.port.rx, stub.port.tx, cfg);
    m' := m.(pc := if errNo.value > 0 then Send(ErrorText(errNo.value), cfg.retryCount, ToRelease) else Release);
    if errNo.value > 0 {
      var ok;
      ok, m' := SendStep(stub.port, ErrorText(errNo.value), cfg, m0, m', line);
      if !ok { return None, m'; }
    }
    return Some(code), m';
  }

  lemma ReplyHasErrNo(packet: seq<Byte>)
    requires At(packet, 0) == LETTER_F
    ensures ParseFReply(packet).errNo.Some?
  {
    hide HexToUintn, IndexFrom;
  }

  /** Parsing the reply takes the machine from Serve to reporting its error number. */
  lemma ParseFollows(m0: Main, line: seq<Byte>, m: Main, last: seq<Byte>, rx: seq<Byte>, tx: seq<Byte>, cfg: Config)
    requires At(last, 0) == LETTER_F && m.pc == Serve(last) && Follows(m0, line, m, rx, tx, cfg)
    requires ParseFReply(last).errNo.Some?
    ensures var errNo := ParseFReply(last).errNo.value;
            Follows(m0, line, m.(pc := if errNo > 0 then Send(ErrorText(errNo), cfg.retryCount, ToRelease) else Release),
                    rx, tx, cfg)
  {
    hide Follows, ParseFReply, Served;
    FollowsNext(m0, line, m, rx, tx, cfg);
    var m1 := Internal(m, cfg);
    FollowsNext(m0, line, m1, rx, tx, cfg);
    FollowsNext(m0, line, Internal(m1, cfg), rx, tx, cfg);
  }

  /** The whole exchange: the request, the packets up to the F reply, and the conclusion. */
  method Exchange(stub: Stub, request: seq<Byte>, mem: array<Byte>, cfg: Config)
    returns (retCode: Option<int>, ghost m': Main)
    requires 0 !in request && mem.Length == WORD64
    modifies stub`ctrlCBreakFlag, stub.port, mem
    ensures Follows(Beginning(request, old(mem[..]), old(stub.port.tx), cfg), old(stub.port.rx), m',
                    stub.port.rx, stub.port.tx, cfg)
    ensures m'.mem == mem[..]
    ensures if retCode == None then Stuck(m', old(stub.port.rx)) else m'.pc == Release && Replied(m', retCode.value)
    ensures retCode.Some? ==> stub.ctrlCBreakFlag == (old(stub.ctrlCBreakFlag) || RaisedBy(m'))
  {
    hide Follows, ParseFReply;
    ghost var line := stub.port.rx;
    ghost var start := Beginning(request, mem[..], stub.port.tx, cfg);
    m' := start;
    FollowsSelf(start, line, cfg);
    var ok, last;
    ok, m' := SendStep(stub.port, request, cfg, start, m', line);
    if !ok { return None, m'; }
    last, ok, m' := AwaitFReply(stub.port, mem, cfg, start, m', line);
    if !ok { return None, m'; }
    retCode, m' := Conclude(stub, last, cfg, start, m', line);
  }

  lemma FollowsSelf(m: Main, line: seq<Byte>, cfg: Config)
    requires m.read == 0
    ensures Follows(m, line, m, line, m.tx, cfg)
  {
    hide Reaches;
    ReachesSelf(m, line, cfg);
  }

  function Beginning(request: seq<Byte>, mem: Memory, tx: seq<Byte>, cfg: Config): (m: Main)
  {
    Main(Send(request, cfg.retryCount, ToReceive), mem, tx, 0, [])
  }

  /** The last packet is an F reply with this return code. */
  ghost predicate Replied(m: Main, retCode: int) {
    && m.packets != []
    && var last := m.packets[|m.packets| - 1];
    At(last, 0) == LETTER_F && retCode == ParseFReply(last).retCode
  }

  /** The last packet raises Ctrl-C. */
  ghost predicate RaisedBy(m: Main) {
    m.packets != [] && ParseFReply(m.packets[|m.packets| - 1]).ctrlC
  }

  lemma ReleaseFollows(m0: Main, line: seq<Byte>, m: Main, rx: seq<Byte>, tx: seq<Byte>, cfg: Config)
    requires Follows(m0, line, m, rx, tx, cfg) && m.pc == Release
    ensures Follows(m0, line, m.(pc := Returned), rx, tx, cfg)
  {
    hide Follows;
    FollowsNext(m0, line, m, rx, tx, cfg);
  }

  /**
   GdbRead, given the text of its request. Its whole effect (the bytes read and put, the
   packets, memory) is the one end that the machine has alone on this line, started just
   after gProcessingFPacket is set. It returns exactly if the machine does; then the last
   packet is the F reply whose code it returns, and Ctrl-C is left pending exactly if that
   reply, or something before, raised it.
   */
  method GdbRead(stub: Stub, request: seq<Byte>, mem: array<Byte>, cfg: Config)
    returns (retCode: Option<int>, ghost end: Main)
    requires 0 !in request && mem.Length == WORD64 && !cfg.writes
    modifies stub, stub.port, mem
    ensures Follows(Beginning(request, old(mem[..]), old(stub.port.tx), cfg), old(stub.port.rx), end,
                    stub.port.rx, stub.port.tx, cfg)
    ensures end.mem == mem[..]
    ensures if retCode == None then Stuck(end, old(stub.port.rx)) else end.pc == Returned && Replied(end, retCode.value)
    ensures stub.processingFPacket == (retCode == None)
    ensures retCode.Some? ==> stub.ctrlCBreakFlag == (old(stub.ctrlCBreakFlag) || RaisedBy(end))
    ensures stub.singleSteps == old(stub.singleSteps)
  {
    hide Follows;
    ghost var line := stub.port.rx;
    ghost var start := Beginning(request, mem[..], stub.port.tx, cfg);
    stub.processingFPacket := true;
    retCode, end := Exchange(stub, request, mem, cfg);
    if retCode == None { return; }
    stub.processingFPacket := false;
    ReleaseFollows(start, line, end, stub.port.rx, stub.port.tx, cfg);
    end := end.(pc := Returned);
  }

  lemma {:induction false} WritingRunKeepsMemory(m: Main, line: seq<Byte>, k: nat, cfg: Config)
    requires cfg.writes
    ensures Alone(m, line, k, cfg).mem == m.mem
  {
    hide ParseFReply, Step, Frame, ReadCommand;
    if k > 0 {
      WritingRunKeepsMemory(m, line, k - 1, cfg);
    }
  }

  lemma WritingKeepsMemory(m0: Main, line: seq<Byte>, m: Main, rx: seq<Byte>, tx: seq<Byte>, cfg: Config)
    requires cfg.writes && Follows(m0, line, m, rx, tx, cfg)
    ensures m.mem == m0.mem
  {
    hide Alone;
    var k: nat :| Alone(m0, line, k, cfg) == m;
    WritingRunKeepsMemory(m0, line, k, cfg);
  }

  /** GdbWrite: the same exchange serving 'm' instead of 'M', without the flag. */
  method GdbWrite(stub: Stub, request: seq<Byte>, mem: array<Byte>, cfg: Config)
    returns (retCode: Option<int>, ghost end: Main)
    requires 0 !in request && mem.Length == WORD64 && cfg.writes
    modifies stub, stub.port, mem
    ensures Follows(Beginning(request, old(mem[..]), old(stub.port.tx), cfg), old(stub.port.rx), end,
                    stub.port.rx, stub.port.tx, cfg)
    ensures end.mem == mem[..] == old(mem[..])
    ensures if retCode == None then Stuck(end, old(stub.port.rx)) else end.pc == Returned && Replied(end, retCode.value)
    ensures stub.processingFPacket == old(stub.processingFPacket)
    ensures retCode.Some? ==> stub.ctrlCBreakFlag == (old(stub.ctrlCBreakFlag) || RaisedBy(end))
    ensures stub.singleSteps == old(stub.singleSteps)
  {
    hide Follows;
    ghost var line := stub.port.rx;
    ghost var start := Beginning(request, mem[..], stub.port.tx, cfg);
    retCode, end := Exchange(stub, request, mem, cfg);
    WritingKeepsMemory(start, line, end, stub.port.rx, stub.port.tx, cfg);
    if retCode == None { return; }
    ReleaseFollows(start, line, end, stub.port.rx, stub.port.tx, cfg);
    end := end.(pc := Returned);
  }
}
