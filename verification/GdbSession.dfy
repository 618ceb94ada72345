/**
 A whole file exchange, end to end: framing, the memory commands and the machine of
 GdbRead and GdbWrite together, for any number of packets before the F reply, on a line
 where packets may fail and replies may have to be repeated.
 */
module GdbSession {
  import opened Bytes
  import opened GdbLink
  import opened GdbMemory
  import opened GdbFileIo
  import opened GdbReadMethod
  import GdbFraming

  // ----- Parts of the line -----

  predicate HoldsAt(line: seq<Byte>, i: nat, s: seq<Byte>) {
    i + |s| <= |line| && line[i..i + |s|] == s
  }

  lemma HoldsParts(line: seq<Byte>, i: nat, a: seq<Byte>, b: seq<Byte>)
    requires HoldsAt(line, i, a + b)
    ensures HoldsAt(line, i, a) && HoldsAt(line, i + |a|, b)
  {
    var s := line[i..i + |a + b|];
    assert line[i..i + |a|] == s[..|a|] && line[i + |a|..i + |a| + |b|] == s[|a|..];
  }

  /** How a packet comes in: attempts that fail their checksum, then one that passes, each with its noise and abandoned packets. */
  datatype Arrival = Arrival(failed: seq<GdbFraming.Attempt>, good: GdbFraming.Attempt)

  ghost predicate ArrivesAs(a: Arrival, packet: seq<Byte>) {
    GdbFraming.Accepted(a.failed, a.good, PACKET_SIZE) && CString(a.good.body) == packet
  }

  function ArrivalBytes(a: Arrival): (s: seq<Byte>)
  {
    GdbFraming.RenderAll(a.failed, PACKET_SIZE) + GdbFraming.Render(a.good, PACKET_SIZE)
  }

  /** What is put for it: '-' for each failed attempt, then '+'. */
  function ArrivalAcks(a: Arrival): (s: seq<Byte>)
  {
    Repeat(MINUS, |a.failed|) + [PLUS]
  }

  /** What SendPacket reads for one packet: the first '+' ends it, and so does the retry count. */
  predicate AcksFor(acks: seq<Byte>, retries: nat) {
    && |acks| <= retries
    && (forall i :: 0 <= i < |acks| - 1 ==> acks[i] != PLUS)
    && (|acks| < retries ==> acks != [] && acks[|acks| - 1] == PLUS)
  }

  /** `n` copies of a frame. */
  function Copies(p: seq<Byte>, n: nat): (s: seq<Byte>)
  {
    AfterFrames([], p, n)
  }

  lemma {:induction false} AfterFramesIs(tx: seq<Byte>, p: seq<Byte>, n: nat)
    ensures AfterFrames(tx, p, n) == tx + Copies(p, n)
  {
    hide Frame;
    if n > 0 {
      AfterFramesIs(tx, p, n - 1);
      assert tx + (Copies(p, n - 1) + Frame(p)) == (tx + Copies(p, n - 1)) + Frame(p);
    }
  }

  /** A packet of plain text that is short enough arrives in its frame, after any noise and abandoned packets. */
  predicate Carried(packet: seq<Byte>) {
    Clean(packet) && 0 !in packet && |packet| + 2 <= PACKET_SIZE
  }

  function Framed(noise: seq<Byte>, partials: seq<seq<Byte>>, packet: seq<Byte>): (a: Arrival)
  {
    Arrival([], GdbFraming.FrameAttempt(noise, partials, packet))
  }

  lemma FrameArrives(noise: seq<Byte>, partials: seq<seq<Byte>>, packet: seq<Byte>)
    requires Carried(packet) && DOLLAR !in noise && GdbFraming.PartialsOk(partials, PACKET_SIZE)
    ensures ArrivesAs(Framed(noise, partials, packet), packet)
    ensures ArrivalBytes(Framed(noise, partials, packet)) == noise + GdbFraming.Partials(partials) + Frame(packet)
    ensures ArrivalAcks(Framed(noise, partials, packet)) == [PLUS]
  {
    hide Frame, GdbFraming.Render, GdbFraming.Passes;
    GdbFraming.FrameIsAttempt(noise, partials, packet, PACKET_SIZE);
    CStringClean(packet);
  }

  // ----- One packet -----

  lemma PacketArrives(m: Main, line: seq<Byte>, a: Arrival, packet: seq<Byte>, cfg: Config)
    requires m.pc == Receiving(Hunting) && ArrivesAs(a, packet) && HoldsAt(line, m.read, ArrivalBytes(a))
    ensures Reaches(m, line, m.(pc := Serve(packet), tx := m.tx + ArrivalAcks(a), read := m.read + |ArrivalBytes(a)|,
                                packets := m.packets + [packet]), cfg)
  {
    hide Reaches, Run, GdbFraming.Render, GdbFraming.RenderAll, GdbFraming.Accepted;
    GdbFraming.AcceptedIsReceived(a.failed, a.good, PACKET_SIZE);
    GdbFraming.AcceptedIsFirst(a.failed, a.good, PACKET_SIZE);
    ReceivingReaches(m, line, ArrivalBytes(a), cfg);
  }

  lemma AcksAreSent(p: seq<Byte>, acks: seq<Byte>, rest: seq<Byte>, retries: nat)
    requires AcksFor(acks, retries)
    ensures Sent(p, retries, acks + rest, |acks|, Some(if acks == [] then 0 else |p|))
  {
  }

  lemma ReplyIsAcked(m: Main, line: seq<Byte>, acks: seq<Byte>, cfg: Config)
    requires m.pc.Send? && AcksFor(acks, m.pc.retries) && HoldsAt(line, m.read, acks)
    ensures Reaches(m, line, m.(pc := Resume(m.pc.after), tx := m.tx + Copies(m.pc.payload, |acks|),
                                read := m.read + |acks|), cfg)
  {
    hide Reaches, AfterFrames, Sent, AcksFor;
    var p := m.pc.payload;
    var result := Some(if acks == [] then 0 else |p|);
    assert line[m.read..] == acks + line[m.read + |acks|..];
    AcksAreSent(p, acks, line[m.read + |acks|..], m.pc.retries);
    SendReaches(m, line, |acks|, result, cfg);
    AfterFramesIs(m.tx, p, |acks|);
  }

  // ----- All packets before the F reply -----

  /** A packet, how it arrives, memory after serving it, the reply, and the bytes the host sends for the reply. */
  datatype Service = Service(packet: seq<Byte>, arrival: Arrival, mem: Memory, reply: seq<Byte>, acks: seq<Byte>)

  function ServiceBytes(s: Service): (b: seq<Byte>)
  {
    ArrivalBytes(s.arrival) + s.acks
  }

  function Answer(s: Service): (b: seq<Byte>)
  {
    ArrivalAcks(s.arrival) + Copies(s.reply, |s.acks|)
  }

  /** The packet arrives, is not the F reply, and is served as its entry says. */
  ghost predicate ServedAs(mem: Memory, s: Service, cfg: Config) {
    && ArrivesAs(s.arrival, s.packet) && At(s.packet, 0) != LETTER_F
    && Served(mem, s.packet, cfg) == (s.mem, Some(s.reply))
    && AcksFor(s.acks, cfg.retryCount)
  }

  /** The machine after serving a packet. */
  function AfterServing(m: Main, s: Service): (m': Main)
  {
    m.(mem := s.mem, tx := m.tx + Answer(s), read := m.read + |ServiceBytes(s)|, packets := m.packets + [s.packet])
  }

  lemma ServesOne(m: Main, line: seq<Byte>, s: Service, cfg: Config)
    requires m.pc == Receiving(Hunting) && ServedAs(m.mem, s, cfg) && HoldsAt(line, m.read, ServiceBytes(s))
    ensures Reaches(m, line, AfterServing(m, s), cfg)
  {
    hide Reaches, Served, HoldsAt, Internal, ArrivesAs, ArrivalBytes, ArrivalAcks, Copies, AcksFor;
    HoldsParts(line, m.read, ArrivalBytes(s.arrival), s.acks);
    PacketArrives(m, line, s.arrival, s.packet, cfg);
    var m1 := m.(pc := Serve(s.packet), tx := m.tx + ArrivalAcks(s.arrival), read := m.read + |ArrivalBytes(s.arrival)|,
                 packets := m.packets + [s.packet]);
    ServeStep(m1, s.packet, cfg);
    ReachesNext(m, m1, line, cfg);
    var m2 := Internal(m1, cfg);
    ReplyIsAcked(m2, line, s.acks, cfg);
    assert (m.tx + ArrivalAcks(s.arrival)) + Copies(s.reply, |s.acks|) == m.tx + Answer(s);
    ReachesTrans(m, m2, AfterServing(m, s), line, cfg);
  }

  /** What the host sends for these packets. */
  function Stream(services: seq<Service>): (s: seq<Byte>)
  {
    if services == [] then [] else Stream(services[..|services| - 1]) + ServiceBytes(services[|services| - 1])
  }

  /** What the stub puts for them. */
  function Answers(services: seq<Service>): (s: seq<Byte>)
  {
    if services == [] then [] else Answers(services[..|services| - 1]) + Answer(services[|services| - 1])
  }

  function Packets(services: seq<Service>): (p: seq<seq<Byte>>)
    ensures |p| == |services| && forall i :: 0 <= i < |p| ==> p[i] == services[i].packet
  {
    seq(|services|, i requires 0 <= i < |services| => services[i].packet)
  }

  /** Memory before the i-th packet. */
  function MemBefore(mem: Memory, services: seq<Service>, i: nat): (m: Memory)
    requires i <= |services|
  {
    if i == 0 then mem else services[i - 1].mem
  }

  ghost predicate ServedInTurn(mem: Memory, services: seq<Service>, cfg: Config) {
    forall i :: 0 <= i < |services| ==> ServedAs(MemBefore(mem, services, i), services[i], cfg)
  }

  function AfterAll(m: Main, services: seq<Service>): (m': Main)
  {
    m.(mem := MemBefore(m.mem, services, |services|), tx := m.tx + Answers(services),
       read := m.read + |Stream(services)|, packets := m.packets + Packets(services))
  }

  lemma ServedBefore(mem: Memory, services: seq<Service>, cfg: Config)
    requires services != [] && ServedInTurn(mem, services, cfg)
    ensures ServedInTurn(mem, services[..|services| - 1], cfg)
    ensures MemBefore(mem, services, |services| - 1) == MemBefore(mem, services[..|services| - 1], |services| - 1)
  {
    hide ServedAs;
    var init := services[..|services| - 1];
    forall i | 0 <= i < |init|
      ensures ServedAs(MemBefore(mem, init, i), init[i], cfg)
    {
      assert init[i] == services[i] && MemBefore(mem, init, i) == MemBefore(mem, services, i);
    }
  }

  lemma {:induction false} ServesAll(m: Main, line: seq<Byte>, services: seq<Service>, cfg: Config)
    requires m.pc == Receiving(Hunting)
    requires ServedInTurn(m.mem, services, cfg) && HoldsAt(line, m.read, Stream(services))
    ensures Reaches(m, line, AfterAll(m, services), cfg)
  {
    hide Reaches, HoldsAt, AfterAll, ServedInTurn, ServiceBytes;
    if services == [] {
      NothingServed(m);
      ReachesSelf(m, line, cfg);
    } else {
      var init, last := services[..|services| - 1], services[|services| - 1];
      ServedBefore(m.mem, services, cfg);
      HoldsParts(line, m.read, Stream(init), ServiceBytes(last));
      ServesAll(m, line, init, cfg);
      ServesLast(m, line, services, cfg);
    }
  }

  lemma NothingServed(m: Main)
    ensures AfterAll(m, []) == m
  {
    assert m.tx + [] == m.tx && m.packets + Packets([]) == m.packets;
  }

  lemma ServesLast(m: Main, line: seq<Byte>, services: seq<Service>, cfg: Config)
    requires m.pc == Receiving(Hunting) && services != [] && ServedInTurn(m.mem, services, cfg)
    requires var init, last := services[..|services| - 1], services[|services| - 1];
             && HoldsAt(line, m.read + |Stream(init)|, ServiceBytes(last))
             && Reaches(m, line, AfterAll(m, init), cfg)
    ensures Reaches(m, line, AfterAll(m, services), cfg)
  {
    hide Reaches, ServedAs, HoldsAt, Stream, Packets, Answers, AfterServing, MemBefore, ServiceBytes;
    assert ServedAs(MemBefore(m.mem, services, |services| - 1), services[|services| - 1], cfg);
    var init, last := services[..|services| - 1], services[|services| - 1];
    ServedBefore(m.mem, services, cfg);
    var m1 := AfterAll(m, init);
    ServesOne(m1, line, last, cfg);
    AfterOneMore(m, services);
    ReachesTrans(m, m1, AfterAll(m, services), line, cfg);
  }

  lemma AfterOneMore(m: Main, services: seq<Service>)
    requires services != []
    ensures AfterAll(m, services) == AfterServing(AfterAll(m, services[..|services| - 1]), services[|services| - 1])
  {
    hide Answer, ServiceBytes;
    var init, last := services[..|services| - 1], services[|services| - 1];
    assert m.tx + (Answers(init) + Answer(last)) == (m.tx + Answers(init)) + Answer(last);
    assert m.packets + Packets(services) == (m.packets + Packets(init)) + [last.packet];
  }

  // ----- The whole exchange -----

  function ErrNoOf(reply: seq<Byte>): (n: nat)
  {
    if ParseFReply(reply).errNo == None then 0 else ParseFReply(reply).errNo.value
  }

  /**
   What the host sends: bytes that acknowledge the request, packets to serve, the F reply,
   and, if that carries an error number, bytes that acknowledge its report.
   */
  datatype Session = Session(requestAcks: seq<Byte>, services: seq<Service>, arrival: Arrival, reply: seq<Byte>, errorAcks: seq<Byte>)

  ghost predicate SessionOk(s: Session, mem: Memory, cfg: Config) {
    && AcksFor(s.requestAcks, cfg.retryCount)
    && ServedInTurn(mem, s.services, cfg)
    && ArrivesAs(s.arrival, s.reply) && At(s.reply, 0) == LETTER_F
    && if ErrNoOf(s.reply) > 0 then AcksFor(s.errorAcks, cfg.retryCount) else s.errorAcks == []
  }

  function HostLine(s: Session): (line: seq<Byte>)
  {
    s.requestAcks + (Stream(s.services) + (ArrivalBytes(s.arrival) + s.errorAcks))
  }

  /** What the stub puts for the F reply. */
  function Closing(s: Session): (b: seq<Byte>)
  {
    ArrivalAcks(s.arrival) + Copies(ErrorText(ErrNoOf(s.reply)), |s.errorAcks|)
  }

  /** All the stub puts: each frame once for every byte read for it. */
  function StubLine(request: seq<Byte>, s: Session): (tx: seq<Byte>)
  {
    Copies(request, |s.requestAcks|) + Answers(s.services) + Closing(s)
  }

  /**
   What an exchange sends back for the F reply: the frame of 'E' and the low byte of the
   error number in two digits, as often as it is asked for, exactly if the second field is
   there and is not 0.
   */
  lemma ClosingReportsErrNo(s: Session, ret: seq<Byte>, err: seq<Byte>, rest: seq<Byte>)
    requires COMMA !in ret && AllHex(err) && (rest != [] ==> rest[0] == COMMA)
    requires s.reply == [LETTER_F] + ret + [COMMA] + err + rest
    ensures ErrNoOf(s.reply) > 0 <==> HexValue(err) > 0
    ensures var low := Saturated(HexValue(err)) % 256;
            Closing(s) == ArrivalAcks(s.arrival) + Copies([0x45, HexDigit(low / 16), HexDigit(low % 16)], |s.errorAcks|)
    ensures ErrNoOf([LETTER_F] + ret) == 0
  {
    hide ParseFReply, HexValue, ArrivalAcks, Copies;
    ErrNoIsSecondField(ret, err, rest);
  }

  /** From the F reply on. */
  lemma Concludes(m: Main, line: seq<Byte>, s: Session, cfg: Config)
    requires m.pc == Receiving(Hunting) && ArrivesAs(s.arrival, s.reply) && At(s.reply, 0) == LETTER_F
    requires if ErrNoOf(s.reply) > 0 then AcksFor(s.errorAcks, cfg.retryCount) else s.errorAcks == []
    requires HoldsAt(line, m.read, ArrivalBytes(s.arrival) + s.errorAcks)
    ensures Reaches(m, line, m.(pc := Returned, tx := m.tx + Closing(s),
                                read := m.read + |ArrivalBytes(s.arrival)| + |s.errorAcks|,
                                packets := m.packets + [s.reply]), cfg)
  {
    hide Reaches, Served, HoldsAt, ParseFReply, ArrivesAs, ArrivalBytes, ArrivalAcks, Copies, AcksFor, Closing;
    HoldsParts(line, m.read, ArrivalBytes(s.arrival), s.errorAcks);
    PacketArrives(m, line, s.arrival, s.reply, cfg);
    var errNo := ErrNoOf(s.reply);
    var m1 := m.(pc := Serve(s.reply), tx := m.tx + ArrivalAcks(s.arrival), read := m.read + |ArrivalBytes(s.arrival)|,
                 packets := m.packets + [s.reply]);
    ReachesNext(m, m1, line, cfg);
    ReachesNext(m, m1.(pc := Parse(s.reply)), line, cfg);
    ReachesNext(m, m1.(pc := Report(errNo)), line, cfg);
    ClosingIs(m.tx, s);
    if errNo > 0 {
      var m2 := m1.(pc := Send(ErrorText(errNo), cfg.retryCount, ToRelease));
      ReplyIsAcked(m2, line, s.errorAcks, cfg);
      var m3 := m2.(pc := Release, tx := m2.tx + Copies(ErrorText(errNo), |s.errorAcks|), read := m2.read + |s.errorAcks|);
      ReachesTrans(m, m2, m3, line, cfg);
      ReachesNext(m, m3, line, cfg);
    } else {
      ReachesNext(m, m1.(pc := Release), line, cfg);
    }
  }

  lemma ClosingIs(tx: seq<Byte>, s: Session)
    ensures (tx + ArrivalAcks(s.arrival)) + Copies(ErrorText(ErrNoOf(s.reply)), |s.errorAcks|) == tx + Closing(s)
    ensures s.errorAcks == [] ==> tx + ArrivalAcks(s.arrival) == tx + Closing(s)
  {
    hide ArrivalAcks, ErrNoOf, ErrorText;
  }

  /** Where the exchange ends. */
  function SessionEnd(request: seq<Byte>, mem: Memory, tx: seq<Byte>, s: Session): (m: Main)
  {
    Main(Returned, MemBefore(mem, s.services, |s.services|), tx + StubLine(request, s), |HostLine(s)|,
         Packets(s.services) + [s.reply])
  }

  lemma ExchangeReaches(request: seq<Byte>, mem: Memory, tx: seq<Byte>, s: Session, line: seq<Byte>, cfg: Config)
    requires SessionOk(s, mem, cfg) && HoldsAt(line, 0, HostLine(s))
    ensures Reaches(Beginning(request, mem, tx, cfg), line, SessionEnd(request, mem, tx, s), cfg)
  {
    hide Reaches, HoldsAt, Stream, Packets, Answers, Closing, Copies, ServedInTurn, ArrivesAs, ArrivalBytes, AcksFor, ErrNoOf;
    var start := Beginning(request, mem, tx, cfg);
    var tail := ArrivalBytes(s.arrival) + s.errorAcks;
    HoldsParts(line, 0, s.requestAcks, Stream(s.services) + tail);
    HoldsParts(line, |s.requestAcks|, Stream(s.services), tail);
    ReplyIsAcked(start, line, s.requestAcks, cfg);
    var m1 := start.(pc := Receiving(Hunting), tx := tx + Copies(request, |s.requestAcks|), read := |s.requestAcks|);
    ServesAll(m1, line, s.services, cfg);
    var m2 := AfterAll(m1, s.services);
    ReachesTrans(start, m1, m2, line, cfg);
    Concludes(m2, line, s, cfg);
    var m3 := m2.(pc := Returned, tx := m2.tx + Closing(s), read := m2.read + |ArrivalBytes(s.arrival)| + |s.errorAcks|,
                  packets := m2.packets + [s.reply]);
    ReachesTrans(start, m2, m3, line, cfg);
    assert m3.tx == tx + StubLine(request, s);
    assert [] + Packets(s.services) == Packets(s.services);
  }

  /**
   The whole exchange. On a line that starts with a session the end described by the
   contracts of GdbRead and GdbWrite is the return, with every packet served in turn,
   however often it had to be sent, and nothing behind the session read.
   */
  lemma ExchangeEnds(request: seq<Byte>, mem: Memory, tx: seq<Byte>, s: Session, rest: seq<Byte>, cfg: Config, end: Main)
    requires SessionOk(s, mem, cfg)
    requires var line := HostLine(s) + rest;
             Reaches(Beginning(request, mem, tx, cfg), line, end, cfg) && Final(end, line)
    ensures end == SessionEnd(request, mem, tx, s)
  {
    hide Reaches, HostLine, StubLine, Packets, SessionOk;
    var line := HostLine(s) + rest;
    assert line[0..|HostLine(s)|] == HostLine(s);
    ExchangeReaches(request, mem, tx, s, line, cfg);
    FinalUnique(Beginning(request, mem, tx, cfg), line, end, SessionEnd(request, mem, tx, s), cfg);
  }

  // ----- GdbRead delivers -----

  /** A chunk of the file: where it goes, as the host writes it, its bytes, how its packet arrives, and the bytes sent for the reply. */
  datatype Chunk = Chunk(address: seq<Byte>, length: seq<Byte>, data: seq<Byte>, arrival: Arrival, acks: seq<Byte>)

  function ChunkPacket(c: Chunk): (p: seq<Byte>)
  {
    WritePacket(c.address, c.length, HexText(c.data))
  }

  ghost predicate ChunkOk(c: Chunk) {
    && Number(c.address) && Number(c.length) && HexValue(c.length) == |c.data|
    && ArrivesAs(c.arrival, ChunkPacket(c))
  }

  /** Memory with all chunks stored, one after another. */
  ghost function StoredAll(mem: Memory, chunks: seq<Chunk>): (m: Memory)
    requires forall c <- chunks :: ChunkOk(c)
  {
    if chunks == [] then mem
    else
      var last := chunks[|chunks| - 1];
      assert ChunkOk(last);
      Stored(StoredAll(mem, chunks[..|chunks| - 1]), HexValue(last.address), last.data)
  }

  ghost function ChunkService(mem: Memory, chunks: seq<Chunk>, i: nat): (s: Service)
    requires (forall c <- chunks :: ChunkOk(c)) && i < |chunks|
  {
    Service(ChunkPacket(chunks[i]), chunks[i].arrival, StoredAll(mem, chunks[..i + 1]), OK_TEXT, chunks[i].acks)
  }

  ghost function ChunkServices(mem: Memory, chunks: seq<Chunk>): (s: seq<Service>)
    requires forall c <- chunks :: ChunkOk(c)
    ensures |s| == |chunks|
  {
    seq(|chunks|, i requires 0 <= i < |chunks| =>
      ChunkService(mem, chunks, i))
  }

  lemma HexIsCarried(text: seq<Byte>)
    requires AllHex(text)
    ensures Clean(text) && 0 !in text
  {
  }

  lemma {:induction false} HexTextIsHex(data: seq<Byte>)
    ensures AllHex(HexText(data))
    decreases |data|
  {
    hide LowerHexDigit;
    if data != [] {
      HexTextIsHex(data[..|data| - 1]);
    }
  }

  lemma ChunkCarried(c: Chunk)
    requires Number(c.address) && Number(c.length)
    ensures Clean(ChunkPacket(c)) && 0 !in ChunkPacket(c) && At(ChunkPacket(c), 0) == LETTER_M
  {
    hide HexText, HexValue, AllHex;
    HexTextIsHex(c.data);
    HexIsCarried(HexText(c.data));
    HexIsCarried(c.address);
    HexIsCarried(c.length);
  }

  /** A chunk that the host sends in one frame and acknowledges at once is such a chunk, if its packet fits. */
  lemma PlainChunkOk(address: seq<Byte>, length: seq<Byte>, data: seq<Byte>)
    requires Number(address) && Number(length) && HexValue(length) == |data|
    requires |WritePacket(address, length, HexText(data))| + 2 <= PACKET_SIZE
    ensures var packet := WritePacket(address, length, HexText(data));
            var c := Chunk(address, length, data, Framed([], [], packet), [PLUS]);
            && ChunkOk(c) && ArrivalBytes(c.arrival) == Frame(packet) && ArrivalAcks(c.arrival) == [PLUS]
  {
    hide ArrivesAs, ArrivalBytes, ArrivalAcks, Frame, HexText, HexValue, AllHex;
    var packet := WritePacket(address, length, HexText(data));
    ChunkCarried(Chunk(address, length, data, Framed([], [], packet), [PLUS]));
    FrameArrives([], [], packet);
    assert [] + GdbFraming.Partials([]) + Frame(packet) == Frame(packet);
  }

  /** What arrived was no longer than the packet buffer. */
  lemma SmallEnough(c: Chunk)
    requires ArrivesAs(c.arrival, ChunkPacket(c))
    ensures 2 * |c.data| <= MAX_UINTN
  {
    hide GdbFraming.Rejected, GdbFraming.Passes, HexText;
    CStringNoLonger(c.arrival.good.body);
  }

  lemma {:induction false} CStringNoLonger(buf: seq<Byte>)
    ensures |CString(buf)| <= |buf|
  {
    if buf != [] && buf[0] != 0 {
      CStringNoLonger(buf[1..]);
    }
  }

  lemma ChunkIsServed(mem: Memory, c: Chunk, cfg: Config)
    requires ChunkOk(c) && !cfg.writes
    ensures Served(mem, ChunkPacket(c), cfg) == (Stored(mem, HexValue(c.address), c.data), Some(OK_TEXT))
  {
    hide WriteCommand, Stored, HexText, WritePacket, HexValue, ArrivesAs;
    ChunkCarried(c);
    SmallEnough(c);
    WriteStores(mem, c.address, c.length, c.data, cfg.signedChar);
  }

  lemma NothingStored(mem: Memory, chunks: seq<Chunk>)
    ensures StoredAll(mem, chunks[..0]) == mem
  {
  }

  lemma NextChunkServed(mem: Memory, chunks: seq<Chunk>, i: nat, cfg: Config)
    requires (forall c <- chunks :: ChunkOk(c)) && !cfg.writes && i < |chunks|
    requires AcksFor(chunks[i].acks, cfg.retryCount)
    ensures ServedAs(StoredAll(mem, chunks[..i]), ChunkService(mem, chunks, i), cfg)
  {
    hide Served, ArrivesAs, ChunkPacket, Stored, AcksFor, Number, HexValue;
    assert ChunkOk(chunks[i]);
    ChunkCarried(chunks[i]);
    assert chunks[..i + 1][..i] == chunks[..i];
    ChunkIsServed(StoredAll(mem, chunks[..i]), chunks[i], cfg);
  }

  lemma ChunksServed(mem: Memory, chunks: seq<Chunk>, cfg: Config)
    requires (forall c <- chunks :: ChunkOk(c) && AcksFor(c.acks, cfg.retryCount)) && !cfg.writes
    ensures ServedInTurn(mem, ChunkServices(mem, chunks), cfg)
    ensures MemBefore(mem, ChunkServices(mem, chunks), |chunks|) == StoredAll(mem, chunks)
  {
    hide ServedAs, ChunkOk, ChunkService, StoredAll, ChunkServices, MemBefore, AcksFor;
    var services := ChunkServices(mem, chunks);
    forall i | 0 <= i < |services|
      ensures ServedAs(MemBefore(mem, services, i), services[i], cfg)
    {
      ChunkServiceIs(mem, chunks, i);
      MemBeforeChunk(mem, chunks, i);
      NextChunkServed(mem, chunks, i, cfg);
    }
    MemBeforeChunk(mem, chunks, |chunks|);
    assert chunks[..|chunks|] == chunks;
  }

  lemma ChunkServiceIs(mem: Memory, chunks: seq<Chunk>, i: nat)
    requires (forall c <- chunks :: ChunkOk(c)) && i < |chunks|
    ensures ChunkServices(mem, chunks)[i] == ChunkService(mem, chunks, i)
  {
    hide ChunkOk, ChunkService;
  }

  lemma MemBeforeChunk(mem: Memory, chunks: seq<Chunk>, i: nat)
    requires (forall c <- chunks :: ChunkOk(c)) && i <= |chunks|
    ensures MemBefore(mem, ChunkServices(mem, chunks), i) == StoredAll(mem, chunks[..i])
  {
    hide ChunkOk, ChunkPacket, StoredAll, ChunkServices;
    if i == 0 {
      NothingStored(mem, chunks);
    } else {
      ChunkServiceIs(mem, chunks, i - 1);
    }
  }

  /**
   GdbRead delivers: on a line that holds the host's writes of any chunks and then an F
   reply, it returns, memory holds exactly the chunks, each chunk was answered "OK" as
   often as the host made it, and what is behind the exchange is still on the line.
   */
  lemma ReadDelivers(request: seq<Byte>, mem: Memory, tx: seq<Byte>, chunks: seq<Chunk>, s: Session,
                     rest: seq<Byte>, cfg: Config, end: Main)
    requires !cfg.writes && (forall c <- chunks :: ChunkOk(c) && AcksFor(c.acks, cfg.retryCount))
    requires s.services == ChunkServices(mem, chunks)
    requires AcksFor(s.requestAcks, cfg.retryCount) && ArrivesAs(s.arrival, s.reply) && At(s.reply, 0) == LETTER_F
    requires if ErrNoOf(s.reply) > 0 then AcksFor(s.errorAcks, cfg.retryCount) else s.errorAcks == []
    requires var line := HostLine(s) + rest;
             Reaches(Beginning(request, mem, tx, cfg), line, end, cfg) && Final(end, line)
    ensures end.pc == Returned && end.mem == StoredAll(mem, chunks)
    ensures end.tx == tx + StubLine(request, s) && end.read == |HostLine(s)|
    ensures end.packets == Packets(s.services) + [s.reply]
  {
    hide Reaches, HostLine, StubLine, Packets, ServedInTurn, ArrivesAs, ChunkServices, AcksFor, ErrNoOf, ChunkOk, StoredAll;
    ChunksServed(mem, chunks, cfg);
    ExchangeEnds(request, mem, tx, s, rest, cfg, end);
  }

  // ----- GdbWrite delivers -----

  /** A part of the buffer the host asks for, how its packet arrives, and the bytes sent for the reply. */
  datatype Fetch = Fetch(address: seq<Byte>, length: seq<Byte>, arrival: Arrival, acks: seq<Byte>)

  ghost predicate FetchOk(f: Fetch, valid: nat -> bool) {
    && Number(f.address) && Number(f.length) && valid(HexValue(f.address))
    && 2 * HexValue(f.length) < MAX_BUF_SIZE && ArrivesAs(f.arrival, ReadPacket(f.address, f.length))
  }

  /** The bytes a part stands for. */
  ghost function Fetched(mem: Memory, f: Fetch, valid: nat -> bool): (data: seq<Byte>)
    requires FetchOk(f, valid)
  {
    Loaded(mem, HexValue(f.address), HexValue(f.length))
  }

  ghost function FetchService(mem: Memory, f: Fetch, valid: nat -> bool): (s: Service)
    requires FetchOk(f, valid)
  {
    Service(ReadPacket(f.address, f.length), f.arrival, mem, HexText(Fetched(mem, f, valid)), f.acks)
  }

  ghost function FetchServices(mem: Memory, fetches: seq<Fetch>, valid: nat -> bool): (s: seq<Service>)
    requires forall f <- fetches :: FetchOk(f, valid)
    ensures |s| == |fetches| && forall i :: 0 <= i < |s| ==> s[i] == FetchService(mem, fetches[i], valid)
  {
    seq(|fetches|, i requires 0 <= i < |fetches| => FetchService(mem, fetches[i], valid))
  }

  lemma FetchIsServed(mem: Memory, f: Fetch, cfg: Config)
    requires FetchOk(f, cfg.valid) && cfg.writes && AcksFor(f.acks, cfg.retryCount)
    ensures ServedAs(mem, FetchService(mem, f, cfg.valid), cfg)
  {
    hide ReadCommand, HexText, HexValue, AllHex, Loaded, ArrivesAs, AcksFor;
    ReadIsLoad(mem, f.address, f.length, cfg.valid);
  }

  lemma FetchesServed(mem: Memory, fetches: seq<Fetch>, cfg: Config)
    requires (forall f <- fetches :: FetchOk(f, cfg.valid) && AcksFor(f.acks, cfg.retryCount)) && cfg.writes
    ensures ServedInTurn(mem, FetchServices(mem, fetches, cfg.valid), cfg)
    ensures MemBefore(mem, FetchServices(mem, fetches, cfg.valid), |fetches|) == mem
  {
    hide ServedAs, FetchOk, FetchServices, AcksFor;
    var services := FetchServices(mem, fetches, cfg.valid);
    forall i | 0 <= i < |fetches|
      ensures ServedAs(mem, services[i], cfg) && services[i].mem == mem
    {
      FetchIsServed(mem, fetches[i], cfg);
    }
  }

  /**
   GdbWrite delivers: on a line that holds the host's reads of any parts and then an F
   reply, it returns with memory unchanged, having answered each read with text that
   decodes to exactly the bytes in memory.
   */
  lemma WriteDelivers(request: seq<Byte>, mem: Memory, tx: seq<Byte>, fetches: seq<Fetch>, s: Session,
                      rest: seq<Byte>, cfg: Config, end: Main)
    requires cfg.writes && (forall f <- fetches :: FetchOk(f, cfg.valid) && AcksFor(f.acks, cfg.retryCount))
    requires s.services == FetchServices(mem, fetches, cfg.valid)
    requires AcksFor(s.requestAcks, cfg.retryCount) && ArrivesAs(s.arrival, s.reply) && At(s.reply, 0) == LETTER_F
    requires if ErrNoOf(s.reply) > 0 then AcksFor(s.errorAcks, cfg.retryCount) else s.errorAcks == []
    requires var line := HostLine(s) + rest;
             Reaches(Beginning(request, mem, tx, cfg), line, end, cfg) && Final(end, line)
    ensures end.pc == Returned && end.mem == mem
    ensures end.tx == tx + StubLine(request, s) && end.read == |HostLine(s)|
    ensures forall i :: 0 <= i < |fetches| ==>
              var data := Fetched(mem, fetches[i], cfg.valid);
              PairsOk(s.services[i].reply, |data|, cfg.signedChar) && Decoded(s.services[i].reply, |data|, cfg.signedChar) == data
  {
    hide Reaches, HostLine, StubLine, Packets, ServedInTurn, ArrivesAs, AcksFor, ErrNoOf, Fetched, HexText, Decoded, PairsOk, FetchOk;
    FetchesServed(mem, fetches, cfg);
    ExchangeEnds(request, mem, tx, s, rest, cfg, end);
    forall i | 0 <= i < |fetches|
      ensures var data := Fetched(mem, fetches[i], cfg.valid);
              PairsOk(s.services[i].reply, |data|, cfg.signedChar) && Decoded(s.services[i].reply, |data|, cfg.signedChar) == data
    {
      HexTextRoundTrip(Fetched(mem, fetches[i], cfg.valid), cfg.signedChar);
    }
  }
}
