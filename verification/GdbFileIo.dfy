/**
 File I/O over the GDB link: the exchange of F packets in GdbRead and GdbWrite, and that
 exchange interleaved in every possible way with the periodic callback.
 */
module GdbFileIo {
  import opened Bytes
  import opened GdbLink
  import opened GdbMemory

  const PACKET_SIZE := 128
  const CTRL_C: Byte := 0x03
  const DASH: Byte := 0x2d
  const LETTER_C: Byte := 0x43
  const LETTER_E: Byte := 0x45
  const LETTER_F: Byte := 0x46
  const LETTER_M: Byte := 0x4d
  const LETTER_SMALL_M: Byte := 0x6d
  const OK_TEXT: seq<Byte> := [0x4f, 0x4b]

  /** The characters of the protocol. */
  lemma ProtocolCharacters()
    ensures [LETTER_C, LETTER_E, LETTER_F, LETTER_M, LETTER_SMALL_M, DASH, COMMA, COLON] == Ascii("CEFMm-,:")
    ensures OK_TEXT == Ascii("OK") && [PLUS, MINUS, DOLLAR, HASH] == Ascii("+-$#")
    ensures CTRL_C == 3 && PACKET_SIZE == 128
  {
  }

  // ----- The F reply -----

  /** What GdbParseFReplyPacket returns; errNo is None where it leaves *ErrNo alone. */
  datatype FReply = FReply(retCode: int, errNo: Option<nat>, ctrlC: bool)

  /** "Fretcode,errno,C;...": the second and third fields are optional. */
  function ParseFReply(packet: seq<Byte>): (r: FReply)
  {
    if At(packet, 0) != LETTER_F then FReply(-1, None, false)
    else
      var retCode := Intn(HexToUintn(packet[1..]));
      var first := IndexFrom(packet, COMMA, 0);
      if first == |packet| then FReply(retCode, Some(0), false)
      else
        var second := IndexFrom(packet, COMMA, first + 1);
        FReply(retCode, Some(HexToUintn(packet[first + 1..])), At(packet, second + 1) == LETTER_C)
  }

  /**
   GdbParseFReplyPacket on the C string in the packet buffer. A raised flag stands for the
   call of GdbCtrlCBreakMessage.
   */
  method GdbParseFReplyPacket(packet: seq<Byte>) returns (retCode: int, errNo: Option<nat>, ctrlC: bool)
    ensures FReply(retCode, errNo, ctrlC) == ParseFReply(packet)
  {
    hide HexToUintn;
    if At(packet, 0) != LETTER_F {
      return -1, None, false;
    }
    retCode := Intn(HexToUintn(packet[1..]));
    var field, next := CopyField(packet, 0, COMMA);
    if next == None {
      return retCode, Some(0), false;
    }
    errNo := Some(HexToUintn(packet[next.value..]));
    field, next := CopyField(packet, next.value, COMMA);
    if next == None {
      return retCode, errNo, false;
    }
    ctrlC := At(packet, next.value) == LETTER_C;
  }

  /** Any other packet is answered with -1, and *ErrNo is left alone. */
  lemma OtherIsNoReply(packet: seq<Byte>)
    requires packet == [] || packet[0] != 0x46
    ensures ParseFReply(packet) == FReply(-1, None, false)
  {
  }

  /** A field ends at the next comma or at the end. */
  lemma FieldEnds(packet: seq<Byte>, before: seq<Byte>, field: seq<Byte>, after: seq<Byte>)
    requires packet == before + field + after && COMMA !in field && (after != [] ==> after[0] == COMMA)
    ensures IndexFrom(packet, COMMA, |before|) == |before| + |field|
  {
    assert packet[|before|..|before| + |field|] == field;
    IndexFromIs(packet, COMMA, |before|, |before| + |field|);
  }

  lemma FlagIs(packet: seq<Byte>, head: seq<Byte>, err: seq<Byte>, third: seq<Byte>)
    requires packet == head + ([COMMA] + err + third) && head != [] && head[0] == LETTER_F
    requires COMMA !in head && COMMA !in err && (third != [] ==> third[0] == COMMA)
    ensures ParseFReply(packet).ctrlC <==> At(third, 1) == LETTER_C
  {
    hide HexToUintn, IndexFrom;
    assert packet == [] + head + ([COMMA] + err + third);
    FieldEnds(packet, [], head, [COMMA] + err + third);
    assert packet == (head + [COMMA]) + err + third;
    FieldEnds(packet, head + [COMMA], err, third);
  }

  /** The flag is raised exactly by a third field that starts with 'C'. */
  lemma CtrlCIsThirdField(ret: seq<Byte>, err: seq<Byte>, third: seq<Byte>)
    requires COMMA !in ret && COMMA !in err
    ensures ParseFReply([LETTER_F] + ret + [COMMA] + err + [COMMA] + third).ctrlC
       <==> third != [] && third[0] == LETTER_C
    ensures !ParseFReply([LETTER_F] + ret + [COMMA] + err).ctrlC && !ParseFReply([LETTER_F] + ret).ctrlC
  {
    hide HexToUintn, IndexFrom;
    var head := [LETTER_F] + ret;
    FlagIs(head + [COMMA] + err + [COMMA] + third, head, err, [COMMA] + third) by {
      assert head + [COMMA] + err + [COMMA] + third == head + ([COMMA] + err + ([COMMA] + third));
    }
    FlagIs(head + [COMMA] + err, head, err, []) by {
      assert head + [COMMA] + err == head + ([COMMA] + err + []);
    }
    FieldEnds(head, [], head, []) by {
      assert head == [] + head + [];
    }
  }

  /** The second field of a reply: its number, which saturates; without one the error number is 0. */
  lemma ErrNoIsSecondField(ret: seq<Byte>, err: seq<Byte>, rest: seq<Byte>)
    requires COMMA !in ret && AllHex(err) && (rest != [] ==> rest[0] == COMMA)
    ensures ParseFReply([LETTER_F] + ret + [COMMA] + err + rest).errNo == Some(Saturated(HexValue(err)))
    ensures ParseFReply([LETTER_F] + ret).errNo == Some(0)
  {
    hide HexToUintn, HexValue, IndexFrom;
    var head := [LETTER_F] + ret;
    var packet := head + [COMMA] + err + rest;
    FieldEnds(packet, [], head, [COMMA] + err + rest) by {
      assert packet == [] + head + ([COMMA] + err + rest);
    }
    assert packet[|head| + 1..] == err + rest;
    HexToUintnExact(err, rest);
    FieldEnds(head, [], head, []) by {
      assert head == [] + head + [];
    }
  }

  lemma RetCodeIs(text: seq<Byte>)
    ensures ParseFReply([LETTER_F] + text).retCode == Intn(HexToUintn(text))
  {
    hide HexToUintn, IndexFrom;
    assert ([LETTER_F] + text)[1..] == text;
  }

  /** Whatever follows a '-', the return code is 0. */
  lemma FailureReadsAsZero(rest: seq<Byte>)
    ensures ParseFReply([LETTER_F, DASH] + rest).retCode == 0
  {
    hide ParseFReply;
    assert [LETTER_F, DASH] + rest == [LETTER_F] + ([DASH] + rest);
    RetCodeIs([DASH] + rest);
  }

  /** The return code of a reply: a sign, hexadecimal digits, and the end or a further field. */
  function SignedReply(minus: bool, digits: seq<Byte>, fields: seq<Byte>): (packet: seq<Byte>)
  {
    [LETTER_F] + (if minus then [DASH] else []) + digits + fields
  }

  /**
   When the return code is read correctly, for every reply: exactly if the number written
   is 0, or has no '-' and is below 2^63. A negative number is read as 0 and a number too
   large for INTN as a negative one.
   */
  lemma RetCodeReadIff(minus: bool, digits: seq<Byte>, fields: seq<Byte>)
    requires AllHex(digits) && (fields != [] ==> fields[0] == COMMA)
    ensures var v: int := HexValue(digits);
            var retCode := ParseFReply(SignedReply(minus, digits, fields)).retCode;
            && retCode == (if minus then 0 else Intn(Saturated(v)))
            && (retCode == (if minus then -v else v) <==> v == 0 || (!minus && v < WORD64 / 2))
  {
    hide ParseFReply, HexToUintn, HexValue;
    if minus {
      assert SignedReply(minus, digits, fields) == [LETTER_F, DASH] + (digits + fields);
      FailureReadsAsZero(digits + fields);
    } else {
      assert SignedReply(minus, digits, fields) == [LETTER_F] + (digits + fields);
      RetCodeIs(digits + fields);
      HexToUintnExact(digits, fields);
    }
  }

  // ----- GdbRead and GdbWrite as a machine -----

  datatype After = ToReceive | ToRelease

  datatype Pc =
    | Send(payload: seq<Byte>, retries: nat, after: After)
    | AwaitAck(payload: seq<Byte>, retries: nat, after: After)
    | Receiving(rx: RxState)
    | Serve(packet: seq<Byte>)
    | Parse(packet: seq<Byte>)
    | Report(errNo: nat)
    | Release
    | Returned
    | Lost

  /** The thread: where it is, memory, what it put, how far it read, and the packets it got. */
  datatype Main = Main(pc: Pc, mem: Memory, tx: seq<Byte>, read: nat, packets: seq<seq<Byte>>)

  /** Which of the two runs, and what the commands it serves depend on. */
  datatype Config = Config(writes: bool, retryCount: nat, signedChar: bool, valid: nat -> bool)

  predicate Wants(pc: Pc) {
    pc.AwaitAck? || pc.Receiving?
  }

  predicate Ended(pc: Pc) {
    pc.Returned? || pc.Lost?
  }

  function ErrorText(code: nat): (t: seq<Byte>)
  {
    [LETTER_E, HexDigit(code % 256 / 16), HexDigit(code % 256 % 16)]
  }

  /** An error reply carries the low byte of its number as two hex digits. */
  lemma ErrorTextReadsBack(code: nat)
    ensures ErrorText(code)[0] == LETTER_E && HexToUintn(ErrorText(code)[1..]) == code % 256
  {
    ByteHexRoundTrip(code % 256);
    assert ErrorText(code)[1..] == [HexDigit(code % 256 / 16), HexDigit(code % 256 % 16)];
  }

  function Resume(after: After): (pc: Pc)
  {
    if after == ToReceive then Receiving(Hunting) else Release
  }

  /** A step that needs the next byte of the line. */
  function Consume(m: Main, c: Byte, cfg: Config): (m': Main)
    requires Wants(m.pc)
  {
    var m1 := m.(read := m.read + 1);
    match m.pc
    case AwaitAck(payload, retries, after) =>
      m1.(pc := if c == PLUS then Resume(after) else Send(payload, retries, after))
    case Receiving(st) =>
      var r := Step(Rx(st, []), c, PACKET_SIZE);
      var m2 := m1.(tx := m.tx + r.acks);
      if r.state.Done? then
        var packet := CString(r.state.data);
        m2.(pc := Serve(packet), packets := m.packets + [packet])
      else m2.(pc := Receiving(r.state))
  }

  /** The text of a reply, None if the command runs away. */
  function ReplyText(reply: Reply): (text: Option<seq<Byte>>)
  {
    match reply
    case Ok => Some(OK_TEXT)
    case Error(code) => Some(ErrorText(code))
    case Data(text) => Some(text)
    case Runaway => None
  }

  /** A packet that is not the F reply: GdbRead serves 'M', GdbWrite 'm', anything else gets an empty reply. */
  function Served(mem: Memory, packet: seq<Byte>, cfg: Config): (r: (Memory, Option<seq<Byte>>))
  {
    if !cfg.writes && At(packet, 0) == LETTER_M then
      var (mem', reply) := WriteCommand(mem, packet, cfg.signedChar);
      (mem', ReplyText(reply))
    else if cfg.writes && At(packet, 0) == LETTER_SMALL_M then (mem, ReplyText(ReadCommand(mem, packet, cfg.valid)))
    else (mem, Some([]))
  }

  /**
   Which packets are served how: GdbRead answers a write command, GdbWrite a read command,
   and every other packet, each other's commands included, gets the empty reply.
   */
  lemma OthersGetEmptyReply(mem: Memory, packet: seq<Byte>, cfg: Config)
    requires packet == [] || packet[0] != (if cfg.writes then 0x6d else 0x4d)
    ensures Served(mem, packet, cfg) == (mem, Some([])) && Frame([]) == [0x24, 0x23, 0x30, 0x30]
  {
  }

  /** A step that needs no input. */
  function Internal(m: Main, cfg: Config): (m': Main)
    requires !Wants(m.pc)
  {
    match m.pc
    case Send(payload, retries, after) =>
      if retries == 0 then m.(pc := Resume(after))
      else m.(pc := AwaitAck(payload, retries - 1, after), tx := m.tx + Frame(payload))
    case Serve(packet) =>
      if At(packet, 0) == LETTER_F then m.(pc := Parse(packet))
      else
        var (mem', reply) := Served(m.mem, packet, cfg);
        m.(pc := if reply == None then Lost else Send(reply.value, cfg.retryCount, ToReceive), mem := mem')
    case Parse(packet) =>
      var errNo := ParseFReply(packet).errNo;
      m.(pc := Report(if errNo == None then 0 else errNo.value))
    case Report(errNo) =>
      m.(pc := if errNo > 0 then Send(ErrorText(errNo), cfg.retryCount, ToRelease) else Release)
    case Release => m.(pc := Returned)
    case _ => m
  }

  // ----- The machine, the line and the callback together -----

  /** `pending` has arrived and waits in the port; `future` is still to arrive. */
  datatype World = World(main: Main, pending: seq<Byte>, future: seq<Byte>,
                         ctrlCBreakFlag: bool, processingFPacket: bool, singleSteps: nat)

  datatype Event = MainEvent | CallbackEvent | ArriveEvent

  predicate Flagged(pc: Pc) {
    pc.Parse? && ParseFReply(pc.packet).ctrlC
  }

  function MainStep(w: World, cfg: Config): (w': World)
  {
    if Wants(w.main.pc) then
      if w.pending == [] then w
      else w.(main := Consume(w.main, w.pending[0], cfg), pending := w.pending[1..])
    else w.(main := Internal(w.main, cfg),
            ctrlCBreakFlag := w.ctrlCBreakFlag || Flagged(w.main.pc),
            processingFPacket := w.processingFPacket && (cfg.writes || !w.main.pc.Release?))
  }

  /** GdbRead gives the flag up with its last step before it returns and no sooner; GdbWrite never touches it. */
  lemma FlagGivenUpAtReturn(w: World, cfg: Config)
    ensures var w' := MainStep(w, cfg);
            if w.main.pc == Release then w'.main.pc == Returned && w'.processingFPacket == (w.processingFPacket && cfg.writes)
            else w'.processingFPacket == w.processingFPacket
  {
    hide Served, ParseFReply, Step, Frame;
  }

  /** The pending bytes up to the first Ctrl-C are dropped. */
  function AfterCtrlC(pending: seq<Byte>): (r: (seq<Byte>, bool))
    ensures r.1 <==> CTRL_C in pending
    ensures |r.0| <= |pending| && (pending != [] ==> |r.0| < |pending|)
  {
    if pending == [] then ([], false)
    else if pending[0] == CTRL_C then (pending[1..], true)
    else AfterCtrlC(pending[1..])
  }

  /** What comes before the first Ctrl-C is lost with it, and what comes after it stays. */
  lemma {:induction false} AfterCtrlCIs(before: seq<Byte>, after: seq<Byte>)
    requires 0x03 !in before
    ensures AfterCtrlC(before + [0x03] + after) == (after, true) && AfterCtrlC(before) == ([], false)
  {
    var all := before + [0x03] + after;
    if before == [] {
      assert all[1..] == after;
    } else {
      assert all[1..] == before[1..] + [0x03] + after;
      AfterCtrlCIs(before[1..], after);
    }
  }

  function Callback(w: World): (w': World)
  {
    var w1 := if w.ctrlCBreakFlag || w.processingFPacket then w
              else w.(pending := AfterCtrlC(w.pending).0, ctrlCBreakFlag := AfterCtrlC(w.pending).1);
    if w1.ctrlCBreakFlag then w1.(singleSteps := w1.singleSteps + 1, ctrlCBreakFlag := false) else w1
  }

  function Happen(w: World, e: Event, cfg: Config): (w': World)
  {
    match e
    case MainEvent => MainStep(w, cfg)
    case CallbackEvent => Callback(w)
    case ArriveEvent =>
      if w.future == [] then w else w.(pending := w.pending + [w.future[0]], future := w.future[1..])
  }

  function Play(w: World, events: seq<Event>, cfg: Config): (w': World)
  {
    if events == [] then w
    else Happen(Play(w, events[..|events| - 1], cfg), events[|events| - 1], cfg)
  }

  /** The thread alone on a line where every byte is already there. */
  function AloneStep(m: Main, line: seq<Byte>, cfg: Config): (m': Main)
  {
    if !Wants(m.pc) then Internal(m, cfg)
    else if m.read < |line| then Consume(m, line[m.read], cfg)
    else m
  }

  function Alone(m: Main, line: seq<Byte>, k: nat, cfg: Config): (m': Main)
  {
    if k == 0 then m else AloneStep(Alone(m, line, k - 1, cfg), line, cfg)
  }

  /** While the F packet is in progress no byte is missing: read, waiting and to come make up the line. */
  ghost predicate Aligned(w: World, line: seq<Byte>) {
    && w.main.read + |w.pending| + |w.future| == |line|
    && w.pending == line[w.main.read..w.main.read + |w.pending|]
    && w.future == line[w.main.read + |w.pending|..]
  }

  ghost predicate Guarded(w: World, line: seq<Byte>) {
    Ended(w.main.pc) || (w.processingFPacket && Aligned(w, line))
  }

  lemma HappenGuarded(w: World, e: Event, line: seq<Byte>, cfg: Config)
    requires Guarded(w, line)
    ensures Guarded(Happen(w, e, cfg), line)
    ensures Happen(w, e, cfg).main == w.main || Happen(w, e, cfg).main == AloneStep(w.main, line, cfg)
  {
    hide Served, ParseFReply, Step, Frame, Aligned;
    if !Ended(w.main.pc) {
      match e {
        case MainEvent => MainAligned(w, line, cfg);
        case ArriveEvent => ArriveAligned(w, line, cfg);
        case CallbackEvent => CallbackAligned(w, line);
      }
    }
  }

  lemma MainAligned(w: World, line: seq<Byte>, cfg: Config)
    requires Aligned(w, line)
    ensures Aligned(MainStep(w, cfg), line)
    ensures MainStep(w, cfg).main == w.main || MainStep(w, cfg).main == AloneStep(w.main, line, cfg)
  {
    hide Served, ParseFReply, Step, Frame;
    var w' := MainStep(w, cfg);
    if Wants(w.main.pc) && w.pending != [] {
      assert w.pending[0] == line[w.main.read];
      assert w'.pending == line[w.main.read + 1..w.main.read + |w.pending|];
    }
  }

  lemma ArriveAligned(w: World, line: seq<Byte>, cfg: Config)
    requires Aligned(w, line)
    ensures Aligned(Happen(w, ArriveEvent, cfg), line)
  {
    if w.future != [] {
      var n := w.main.read + |w.pending|;
      assert line[w.main.read..n + 1] == line[w.main.read..n] + [line[n]];
    }
  }

  lemma CallbackAligned(w: World, line: seq<Byte>)
    requires w.processingFPacket && Aligned(w, line)
    ensures Aligned(Callback(w), line)
  {
  }

  /**
   F-packet isolation over every interleaving: however the callback and the arrival of
   bytes are scheduled, the reading thread does exactly what it does alone on the same
   line (so it gets the same packets, sends the same bytes and writes the same memory),
   and until it has returned the callback has consumed nothing.
   */
  lemma {:induction false} FPacketIsolation(w: World, events: seq<Event>, cfg: Config) returns (k: nat)
    requires w.processingFPacket && w.main.read == 0
    ensures var line := w.pending + w.future;
            var w' := Play(w, events, cfg);
            w'.main == Alone(w.main, line, k, cfg) && Guarded(w', line)
  {
    hide Happen, AloneStep;
    var line := w.pending + w.future;
    if events == [] {
      k := 0;
    } else {
      var init, last := events[..|events| - 1], events[|events| - 1];
      var j := FPacketIsolation(w, init, cfg);
      HappenGuarded(Play(w, init, cfg), last, line, cfg);
      k := if Play(w, events, cfg).main == Alone(w.main, line, j, cfg) then j else j + 1;
    }
  }

  /** What decides whether the callback reads: exactly the two flags, and whether anything waits. */
  lemma CallbackReadsIff(w: World)
    ensures Callback(w).pending == w.pending
       <==> w.ctrlCBreakFlag || w.processingFPacket || w.pending == []
  {
  }

  // ----- Without the flag -----

  /** A callback in this state leaves the line alone. */
  predicate Harmless(w: World) {
    w.ctrlCBreakFlag || w.processingFPacket || w.pending == []
  }

  ghost predicate CallbacksHarmless(w: World, events: seq<Event>, cfg: Config) {
    forall i :: 0 <= i < |events| && events[i] == CallbackEvent ==> Harmless(Play(w, events[..i], cfg))
  }

  lemma CallbacksHarmlessSnoc(w: World, events: seq<Event>, cfg: Config)
    requires events != []
    ensures var init, last := events[..|events| - 1], events[|events| - 1];
            CallbacksHarmless(w, events, cfg) <==>
            CallbacksHarmless(w, init, cfg) && (last == CallbackEvent ==> Harmless(Play(w, init, cfg)))
  {
    hide Play, Harmless;
    var n := |events| - 1;
    assert forall i :: 0 <= i < n ==> events[..n][i] == events[i] && events[..n][..i] == events[..i];
  }

  /** Bytes that are neither read, nor waiting, nor still to come. */
  function Missing(w: World, line: seq<Byte>): (n: int)
  {
    |line| - w.main.read - |w.pending| - |w.future|
  }

  /** No event gives a byte back, and a callback that is not harmless takes one. */
  lemma HappenMissing(w: World, e: Event, line: seq<Byte>, cfg: Config)
    ensures Missing(Happen(w, e, cfg), line) >= Missing(w, line)
    ensures e == CallbackEvent && !Harmless(w) ==> Missing(Happen(w, e, cfg), line) > Missing(w, line)
  {
    hide Served, ParseFReply, Step, Frame;
  }

  lemma HappenHarmless(w: World, e: Event, line: seq<Byte>, cfg: Config)
    requires Aligned(w, line) && (e == CallbackEvent ==> Harmless(w))
    ensures Aligned(Happen(w, e, cfg), line)
    ensures Happen(w, e, cfg).main == w.main || Happen(w, e, cfg).main == AloneStep(w.main, line, cfg)
  {
    hide Served, ParseFReply, Step, Frame, Aligned, MainStep, AloneStep;
    match e {
      case MainEvent => MainAligned(w, line, cfg);
      case ArriveEvent => ArriveAligned(w, line, cfg);
      case CallbackEvent => HarmlessAligned(w, line);
    }
  }

  lemma HarmlessAligned(w: World, line: seq<Byte>)
    requires Harmless(w) && Aligned(w, line)
    ensures Aligned(Callback(w), line) && Callback(w).main == w.main
  {
  }

  /**
   Exactly when the line stays whole, whether the flag is set, as in GdbRead, or never, as
   in GdbWrite: no byte is missing after a run if and only if every callback of the run
   found nothing waiting or one of the two flags set; and then the thread has done what it
   does alone on the line.
   */
  lemma {:induction false} LineWholeIff(w: World, events: seq<Event>, cfg: Config) returns (k: nat)
    requires w.main.read == 0
    ensures var line := w.pending + w.future;
            var w' := Play(w, events, cfg);
            && (Aligned(w', line) <==> CallbacksHarmless(w, events, cfg))
            && (Aligned(w', line) <==> Missing(w', line) == 0) && Missing(w', line) >= 0
            && (Aligned(w', line) ==> w'.main == Alone(w.main, line, k, cfg))
  {
    hide Happen, AloneStep, CallbacksHarmless, Aligned, Missing, Harmless;
    var line := w.pending + w.future;
    if events == [] {
      k := 0;
      WholeAtFirst(w, cfg);
    } else {
      var init, last := events[..|events| - 1], events[|events| - 1];
      var w1 := Play(w, init, cfg);
      k := LineWholeIff(w, init, cfg);
      CallbacksHarmlessSnoc(w, events, cfg);
      HappenMissing(w1, last, line, cfg);
      if CallbacksHarmless(w, events, cfg) {
        HappenHarmless(w1, last, line, cfg);
        k := if Happen(w1, last, cfg).main == w1.main then k else k + 1;
      }
      AlignedMissesNothing(Happen(w1, last, cfg), line);
    }
  }

  lemma WholeAtFirst(w: World, cfg: Config)
    requires w.main.read == 0
    ensures var line := w.pending + w.future;
            Aligned(w, line) && Missing(w, line) == 0 && CallbacksHarmless(w, [], cfg)
  {
  }

  lemma AlignedMissesNothing(w: World, line: seq<Byte>)
    ensures Aligned(w, line) ==> Missing(w, line) == 0
  {
  }

  /**
   Without the flag (GdbWrite never sets it) isolation does fail: a callback between the
   arrival of a reply and its reading leaves the thread waiting forever.
   */
  lemma UnguardedReplyCanBeLost(m: Main, cfg: Config, reply: seq<Byte>, events: seq<Event>)
    requires m.pc == Receiving(Hunting) && reply != [] && CTRL_C !in reply
    ensures var w := World(m, reply, [], false, false, 0);
            Play(w, [CallbackEvent] + events, cfg).main == m
  {
    var w := World(m, reply, [], false, false, 0);
    CallbackTakesAll(reply);
    var w1 := Callback(w);
    assert w1 == World(m, [], [], false, false, 0);
    StuckForever(w1, events, cfg);
    PlayFirst(w, CallbackEvent, events, cfg);
  }

  lemma {:induction false} CallbackTakesAll(pending: seq<Byte>)
    requires CTRL_C !in pending
    ensures AfterCtrlC(pending) == ([], false)
  {
    if pending != [] {
      CallbackTakesAll(pending[1..]);
    }
  }

  lemma {:induction false} StuckForever(w: World, events: seq<Event>, cfg: Config)
    requires w.main.pc == Receiving(Hunting) && w.pending == [] == w.future && !w.ctrlCBreakFlag
    ensures Play(w, events, cfg) == w
  {
    if events != [] {
      StuckForever(w, events[..|events| - 1], cfg);
    }
  }

  lemma {:induction false} PlayFirst(w: World, e: Event, events: seq<Event>, cfg: Config)
    ensures Play(w, [e] + events, cfg) == Play(Happen(w, e, cfg), events, cfg)
  {
    hide Happen;
    if events == [] {
      assert [e] + events == [e];
      assert Play(w, [e], cfg) == Happen(Play(w, [], cfg), e, cfg);
    } else {
      assert ([e] + events)[..|events|] == [e] + events[..|events| - 1];
      PlayFirst(w, e, events[..|events| - 1], cfg);
    }
  }

  // ----- Ctrl-C -----

  /** The reply has been parsed and the flag is not released yet. */
  predicate Parsed(pc: Pc) {
    || pc.Report? || pc.Release?
    || ((pc.Send? || pc.AwaitAck?) && pc.after == ToRelease)
  }

  /** Requests for a trap: those made and the one that may be waiting. */
  function Traps(w: World): (n: nat)
  {
    w.singleSteps + if w.ctrlCBreakFlag then 1 else 0
  }

  /** In the guarded part nothing but a flagged F reply asks for a trap, whatever bytes the packets hold. */
  lemma TrapsKept(w: World, e: Event, cfg: Config)
    requires w.processingFPacket
    ensures Traps(Happen(w, e, cfg)) == Traps(w) + (if e == MainEvent && Flagged(w.main.pc) && !w.ctrlCBreakFlag then 1 else 0)
  {
    hide Served, ParseFReply, Step, Frame;
  }

  lemma ParsedOnce(w: World, e: Event, cfg: Config)
    requires w.processingFPacket && Parsed(w.main.pc)
    ensures var w' := Happen(w, e, cfg);
            && Traps(w') == Traps(w) && (!w.ctrlCBreakFlag ==> !w'.ctrlCBreakFlag)
            && ((Parsed(w'.main.pc) && w'.processingFPacket) || w'.main.pc.Returned?)
  {
    hide Served, ParseFReply, Step, Frame;
  }

  /** Until the thread returns, the number of traps asked for does not change after the parse. */
  lemma {:induction false} ParsedQuiet(w: World, events: seq<Event>, cfg: Config)
    requires w.processingFPacket && Parsed(w.main.pc)
    ensures var w' := Play(w, events, cfg);
            || w'.main.pc.Returned?
            || (w'.processingFPacket && Parsed(w'.main.pc) && Traps(w') == Traps(w)
                && (!w.ctrlCBreakFlag ==> !w'.ctrlCBreakFlag))
  {
    hide Happen;
    if events != [] {
      var w1 := Play(w, events[..|events| - 1], cfg);
      ParsedQuiet(w, events[..|events| - 1], cfg);
      if w1.main.pc.Returned? {
        ReturnedStays(w1, events[|events| - 1], cfg);
      } else {
        ParsedOnce(w1, events[|events| - 1], cfg);
      }
    }
  }

  lemma ReturnedStays(w: World, e: Event, cfg: Config)
    requires w.main.pc.Returned?
    ensures Happen(w, e, cfg).main == w.main
  {
  }

  lemma {:induction false} NoCallbackKeepsFlag(w: World, events: seq<Event>, cfg: Config)
    requires w.ctrlCBreakFlag && CallbackEvent !in events
    ensures Play(w, events, cfg).ctrlCBreakFlag && Play(w, events, cfg).singleSteps == w.singleSteps
  {
    hide Internal, Consume;
    if events != [] {
      NoCallbackKeepsFlag(w, events[..|events| - 1], cfg);
    }
  }

  /**
   A Ctrl-C flagged in the F reply: whatever happens before the next callback, that
   callback makes exactly one AddSingleStep and clears the flag, and later callbacks make
   no further one for it while the thread is still in its guarded part.
   */
  lemma CtrlCBreaksOnce(w: World, before: seq<Event>, after: seq<Event>, cfg: Config)
    requires w.processingFPacket && Flagged(w.main.pc) && CallbackEvent !in before
    ensures var w1 := Play(MainStep(w, cfg), before, cfg);
            var w2 := Callback(w1);
            && w1.singleSteps == w.singleSteps
            && w2.singleSteps == w.singleSteps + 1 && !w2.ctrlCBreakFlag
            && var w3 := Play(w2, after, cfg);
               w3.main.pc.Returned? || w3.singleSteps == w.singleSteps + 1
  {
    hide Internal, Consume;
    var w0 := MainStep(w, cfg);
    var w1 := Play(w0, before, cfg);
    NoCallbackKeepsFlag(w0, before, cfg);
    var w2 := Callback(w1);
    ParseStep(w, cfg);
    ParsedQuiet(w0, before, cfg);
    if w1.main.pc.Returned? {
      ReturnedForever(w2, after, cfg);
    } else {
      ParsedQuiet(w2, after, cfg);
    }
  }

  lemma ParseStep(w: World, cfg: Config)
    requires w.processingFPacket && w.main.pc.Parse?
    ensures var w' := MainStep(w, cfg); w'.processingFPacket && Parsed(w'.main.pc)
  {
  }

  lemma {:induction false} ReturnedForever(w: World, events: seq<Event>, cfg: Config)
    requires w.main.pc.Returned?
    ensures Play(w, events, cfg).main == w.main
  {
    hide Happen;
    if events != [] {
      ReturnedForever(w, events[..|events| - 1], cfg);
      ReturnedStays(Play(w, events[..|events| - 1], cfg), events[|events| - 1], cfg);
    }
  }
}
