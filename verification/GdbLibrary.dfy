/** Binary escaping of responses, and the resumable library-list transfer built on it. */
module GdbLibrary {
  import opened Bytes
  import opened GdbLink
  import opened GdbFraming
  import GdbFileIo
  import GdbMemory

  const ESCAPE: Byte := 0x7d
  const STAR: Byte := 0x2a

  predicate Special(c: Byte) {
    c == ESCAPE || c == HASH || c == DOLLAR || c == STAR
  }

  /** c ^ 0x20 */
  function Flip(c: Byte): (d: Byte)
  {
    if c / 32 % 2 == 1 then c - 32 else c + 32
  }

  /** Exactly the bit worth 32 changes; the four characters that are escaped become these. */
  lemma FlipIs(c: Byte)
    ensures Flip(c) != c && Flip(c) % 32 == c % 32 && Flip(c) / 64 == c / 64
    ensures EscapeByte(0x7d) == [0x7d, 0x5d] && EscapeByte(0x23) == [0x7d, 0x03]
    ensures EscapeByte(0x24) == [0x7d, 0x04] && EscapeByte(0x2a) == [0x7d, 0x0a]
    ensures c !in [0x7d, 0x23, 0x24, 0x2a] ==> EscapeByte(c) == [c]
  {
  }

  function EscapeByte(c: Byte): (e: seq<Byte>)
  {
    if Special(c) then [ESCAPE, Flip(c)] else [c]
  }

  function Escape(s: seq<Byte>): (e: seq<Byte>)
    ensures |s| <= |e| <= 2 * |s|
  {
    if s == [] then [] else EscapeByte(s[0]) + Escape(s[1..])
  }

  /** The peer's decoding: the byte after an escape character is flipped. */
  function Unescape(e: seq<Byte>): (s: seq<Byte>)
  {
    if e == [] then []
    else if e[0] == ESCAPE && |e| > 1 then [Flip(e[1])] + Unescape(e[2..])
    else [e[0]] + Unescape(e[1..])
  }

  lemma {:induction false} EscapeSnoc(s: seq<Byte>, c: Byte)
    ensures Escape(s + [c]) == Escape(s) + EscapeByte(c)
  {
    if s == [] {
      assert [] + [c] == [c];
      assert Escape([c]) == EscapeByte(c) + Escape([]);
    } else {
      assert (s + [c])[1..] == s[1..] + [c];
      EscapeSnoc(s[1..], c);
    }
  }

  lemma {:induction false} EscapeRoundTrip(s: seq<Byte>)
    ensures Unescape(Escape(s)) == s
  {
    if s != [] {
      var rest := Escape(s[1..]);
      EscapeRoundTrip(s[1..]);
      if Special(s[0]) {
        assert ([ESCAPE, Flip(s[0])] + rest)[2..] == rest;
        assert Flip(Flip(s[0])) == s[0];
      } else {
        assert ([s[0]] + rest)[1..] == rest;
      }
    }
  }

  /** No byte that would end, restart or run-length-encode a packet is left. */
  lemma {:induction false} EscapedIsSafe(s: seq<Byte>)
    ensures Clean(Escape(s)) && STAR !in Escape(s)
    ensures 0 !in s ==> 0 !in Escape(s)
  {
    if s != [] {
      EscapedIsSafe(s[1..]);
    }
  }

  /** An escaped response survives the link exactly when it fits, and decodes to the original. */
  lemma EscapedSurvives(s: seq<Byte>, size: nat)
    requires size >= 1
    ensures Reading(Frame(Escape(s)), Frame(Escape(s)), [], Rx(Done(Escape(s)), [PLUS]), size)
       <==> |Escape(s)| + 2 <= size
    ensures Unescape(Escape(s)) == s
  {
    hide Reading, Frame;
    EscapedIsSafe(s);
    EscapeRoundTrip(s);
    FrameSurvivesIff(Escape(s), size);
  }

  /** One more byte of the text: what it adds, and that the whole text's room suffices for it. */
  lemma EscapeNext(s: seq<Byte>, i: nat)
    requires i < |s|
    ensures Escape(s[..i + 1]) == Escape(s[..i]) + EscapeByte(s[i])
    ensures |Escape(s[..i + 1])| <= |Escape(s)|
  {
    assert s[..i + 1] == s[..i] + [s[i]];
    EscapeSnoc(s[..i], s[i]);
    EscapePrefix(s, i + 1);
  }

  lemma {:induction false} EscapePrefix(s: seq<Byte>, k: nat)
    requires k <= |s|
    ensures |Escape(s[..k])| <= |Escape(s)|
    decreases |s| - k
  {
    if k == |s| {
      assert s[..k] == s;
    } else {
      assert s[..k + 1] == s[..k] + [s[k]];
      EscapeSnoc(s[..k], s[k]);
      EscapePrefix(s, k + 1);
    }
  }

  method PutEscaped(ch: Byte, outBuffer: array<Byte>, at: nat) returns (next: nat)
    requires at + |EscapeByte(ch)| <= outBuffer.Length
    modifies outBuffer
    ensures next == at + |EscapeByte(ch)|
    ensures outBuffer[..next] == old(outBuffer[..at]) + EscapeByte(ch)
  {
    var c := ch;
    next := at;
    if c == 0x7d || c == 0x23 || c == 0x24 || c == 0x2a {
      outBuffer[next] := ESCAPE;
      next := next + 1;
      c := Flip(c);
    }
    outBuffer[next] := c;
    next := next + 1;
  }

  /** The escaping loop, from where the output pointer is rewound; None where it runs past the output buffer. */
  method EscapeInto(str: seq<Byte>, outBuffer: array<Byte>) returns (count: Option<nat>)
    requires 0 in str && outBuffer.Length > 0
    modifies outBuffer
    ensures count.Some? <==> |Escape(CString(str))| < outBuffer.Length
    ensures count.Some? ==> CString(outBuffer[..]) == Escape(CString(str)) && count.value == 1 + |CString(str)|
  {
    hide Escape, EscapeByte;
    ghost var s := CString(str);
    var i: nat, out: nat, size: nat := 0, 0, 1;
    CStringStops(str);
    CStringPrefix(str);
    EscapeNothing(s);
    while str[i] != 0
      invariant i <= |s| && out < outBuffer.Length
      invariant outBuffer[..out] == Escape(s[..i])
      invariant size == 1 + i
      decreases |s| - i
    {
      EscapeNext(s, i);
      if out + |EscapeByte(str[i])| >= outBuffer.Length {
        return None;
      }
      out := PutEscaped(str[i], outBuffer, out);
      i := i + 1;
      size := size + 1;
    }
    assert s[..i] == s;
    outBuffer[out] := 0;
    EscapedIsSafe(s);
    assert outBuffer[..out] == Escape(s);
    CStringAt(outBuffer[..], out);
    return Some(size);
  }

  lemma EscapeNothing(s: seq<Byte>)
    ensures Escape(s[..0]) == []
  {
  }

  /** How a call that sends a reply ends: with a count, waiting forever for an acknowledgement, or past the output buffer. */
  datatype Outcome = Counted(count: nat) | NeverReturns | Overran

  /** What SendPacket did with a payload, and what it left on the port. */
  ghost predicate Delivered(p: seq<Byte>, retryCount: nat, rx: seq<Byte>, tx: seq<Byte>, rx': seq<Byte>, tx': seq<Byte>,
                            frames: nat, result: Option<nat>) {
    && Sent(p, retryCount, rx, frames, result)
    && tx' == AfterFrames(tx, p, frames)
    && rx' == if result == None then [] else rx[frames..]
  }

  /**
   gXferObjectReadResponse. The Type byte is stored and then overwritten, because the
   output pointer is rewound before the data: what goes out is the escaped text alone,
   while the returned count still includes the lost byte.
   */
  method XferObjectReadResponse(port: SerialPort, typeChar: Byte, str: seq<Byte>, outBuffer: array<Byte>, retryCount: nat)
    returns (outcome: Outcome, ghost frames: nat, ghost result: Option<nat>)
    requires 0 in str && outBuffer.Length > 0
    modifies port, outBuffer
    ensures outcome.Overran? <==> |Escape(CString(str))| >= outBuffer.Length
    ensures outcome.Overran? ==> port.rx == old(port.rx) && port.tx == old(port.tx)
    ensures !outcome.Overran? ==>
              && Delivered(Escape(CString(str)), retryCount, old(port.rx), old(port.tx), port.rx, port.tx, frames, result)
              && outcome == if result == None then NeverReturns else Counted(1 + |CString(str)|)
  {
    hide Escape, Sent;
    outBuffer[0] := typeChar;
    var count := EscapeInto(str, outBuffer);
    if count == None {
      return Overran, 0, None;
    }
    CStringPrefix(outBuffer[..]);
    var sent;
    sent, frames := SendPacket(port, outBuffer[..], retryCount);
    return if sent == None then NeverReturns else Counted(count.value), frames, sent;
  }

  /** How many bytes of a text need escaping. */
  function Specials(s: seq<Byte>): (n: nat)
  {
    if s == [] then 0 else (if Special(s[0]) then 1 else 0) + Specials(s[1..])
  }

  lemma {:induction false} EscapedLength(s: seq<Byte>)
    ensures |Escape(s)| == |s| + Specials(s)
  {
    hide Special;
    if s != [] {
      EscapedLength(s[1..]);
    }
  }

  // ----- The library list -----

  const EFI_DEBUG_IMAGE_INFO_TYPE_NORMAL := 1
  const XFER_LIBRARY_BUFFER_SIZE := 2000
  const GDB_EINVALIDARG := 31

  /** What the transfer looks at in a debug image: PeCoffLoaderGetDebuggerInfo's two results are given. */
  datatype Image = Image(infoType: nat, loaded: bool, debug: Option<DebugInfo>)
  datatype DebugInfo = DebugInfo(pdb: Text, loadAddress: Text)

  /** The contents of a C string. */
  type Text = s: seq<Byte> | 0 !in s

  type Table = seq<Option<Image>>

  /** A reply; Overrun stands for a response whose escaped text runs past the output buffer, after which nothing is known. */
  datatype Reply = Error(code: nat) | Response(typeChar: char, text: seq<Byte>) | Overrun

  /** The response's escaped text and its NUL fit gOutBuffer. */
  predicate Fits(r: Reply) {
    r.Response? && |Escape(r.text)| < GdbMemory.MAX_BUF_SIZE
  }

  /** What is framed for a reply. */
  function Payload(r: Reply): (p: seq<Byte>)
  {
    match r
    case Error(code) => GdbFileIo.ErrorText(code)
    case Response(_, text) => Escape(text)
    case Overrun => []
  }

  const HEADER := Response('m', Ascii("<library-list>\n"))
  const FOOTER := Response('l', Ascii("</library-list>\n"))

  const LINE_NAME := Ascii("  <library name=\"")
  const LINE_ADDRESS := Ascii("\"><segment address=\"0x")
  const LINE_END := Ascii("\"/></library>\n")

  function LibraryLine(d: DebugInfo): (b: seq<Byte>)
  {
    LINE_NAME + d.pdb + LINE_ADDRESS + d.loadAddress + LINE_END
  }

  /** The entry's line, or None for an entry the transfer skips: no normal image, nothing loaded, no symbols, or a line too long for the buffer. */
  function Chunk(e: Option<Image>): (c: Option<Reply>)
  {
    if e.Some? && e.value.infoType == EFI_DEBUG_IMAGE_INFO_TYPE_NORMAL && e.value.loaded && e.value.debug.Some?
       && |LibraryLine(e.value.debug.value)| < XFER_LIBRARY_BUFFER_SIZE - 1
    then Some(Response('m', LibraryLine(e.value.debug.value)))
    else None
  }

  /** The lines of the eligible entries from `k` on, in table order. */
  function Chunks(table: Table, k: nat): (cs: seq<Reply>)
    decreases |table| - k
  {
    if k >= |table| then []
    else (if Chunk(table[k]).Some? then [Chunk(table[k]).value] else []) + Chunks(table, k + 1)
  }

  /** The whole document: header, every eligible image once in table order, footer. */
  function Document(table: Table): (d: seq<Reply>)
  {
    [HEADER] + Chunks(table, 0) + [FOOTER]
  }

  /** The globals of the transfer; debugTable is gDebugTable as an index, None for NULL; overrun says that a response ran past the output buffer. */
  datatype Xfer = Xfer(offset: nat, entry: nat, debugTable: Option<nat>, overrun: bool)

  const XFER_START := Xfer(0, 0, None, false)

  /** The table pointer and the entry index are in step whenever a transfer is under way. */
  ghost predicate InStep(x: Xfer, table: Option<Table>) {
    x.offset > 0 ==>
      match table
      case None => x.debugTable == None
      case Some(t) => x.debugTable == Some(x.entry) && x.entry <= |t|
  }

  /**
   What a request does: an error and a reset, the header, the next line, or the footer. A
   line that does not fit the output buffer ends it all. The offset is a UINTN and wraps.
   */
  function Request(x: Xfer, table: Option<Table>, offset: nat): (r: (Xfer, Reply))
  {
    if x.overrun then (x, Overrun)
    else if offset != x.offset then (x.(offset := 0), Error(GDB_EINVALIDARG))
    else if offset == 0 then
      (Xfer(1 + |HEADER.text|, 0, if table.Some? then Some(0) else None, false), HEADER)
    else if table.Some? && Chunks(table.value, x.entry) != [] then
      var k := NextEligible(table.value, x.entry);
      var c := Chunk(table.value[k]).value;
      if Fits(c) then (Xfer(Word(offset + 1 + |c.text|), k + 1, Some(k + 1), false), c)
      else (Xfer(offset, k, Some(k), true), Overrun)
    else if table.Some? then (Xfer(0, |table.value|, Some(|table.value|), false), FOOTER)
    else (x.(offset := 0), FOOTER)
  }

  function NextEligible(table: Table, k: nat): (j: nat)
    requires Chunks(table, k) != []
    ensures k <= j < |table| && Chunk(table[j]).Some?
    ensures Chunks(table, k) == [Chunk(table[j]).value] + Chunks(table, j + 1)
    decreases |table| - k
  {
    if Chunk(table[k]).Some? then k else NextEligible(table, k + 1)
  }

  class LibraryTransfer {
    const table: Option<Table>
    const port: SerialPort
    const outBuffer: array<Byte>
    const retryCount: nat
    var offset: nat
    var entry: nat
    var debugTable: Option<nat>
    var overrun: bool

    function State(): (x: Xfer)
      reads this
    {
      Xfer(offset, entry, debugTable, overrun)
    }

    constructor (imageTable: Option<Table>, serial: SerialPort, retries: nat)
      ensures table == imageTable && port == serial && retryCount == retries && State() == XFER_START
      ensures outBuffer.Length == GdbMemory.MAX_BUF_SIZE && fresh(outBuffer)
    {
      table, port, retryCount, offset, entry, debugTable, overrun := imageTable, serial, retries, 0, 0, None, false;
      outBuffer := new Byte[GdbMemory.MAX_BUF_SIZE];
    }

    /** gXferObjectReadResponse on gOutBuffer. */
    method Respond(typeChar: Byte, r: Reply) returns (outcome: Outcome, ghost frames: nat, ghost result: Option<nat>)
      requires r.Response? && 0 !in r.text && outBuffer.Length == GdbMemory.MAX_BUF_SIZE
      modifies this`overrun, port, outBuffer
      ensures outcome.Overran? <==> !Fits(r)
      ensures overrun == (old(overrun) || outcome.Overran?)
      ensures outcome.Overran? ==> port.rx == old(port.rx) && port.tx == old(port.tx)
      ensures !outcome.Overran? ==>
                && Delivered(Payload(r), retryCount, old(port.rx), old(port.tx), port.rx, port.tx, frames, result)
                && outcome == if result == None then NeverReturns else Counted(1 + |r.text|)
    {
      hide Delivered, Escape;
      assert CString(r.text + [0]) == r.text by {
        CStringTerminated(r.text, []);
        assert r.text + [0] + [] == r.text + [0];
      }
      outcome, frames, result := XferObjectReadResponse(port, typeChar, r.text + [0], outBuffer, retryCount);
      overrun := overrun || outcome.Overran?;
    }

    /** SendError */
    method SendError(code: nat) returns (ok: bool, ghost frames: nat, ghost result: Option<nat>)
      modifies port
      ensures Delivered(Payload(Error(code)), retryCount, old(port.rx), old(port.tx), port.rx, port.tx, frames, result)
      ensures ok == result.Some?
    {
      hide Sent;
      var text := GdbFileIo.ErrorText(code);
      assert CString(text + [0]) == text by {
        CStringTerminated(text, []);
        assert text + [0] + [] == text + [0];
      }
      var sent;
      sent, frames := SendPacket(port, text + [0], retryCount);
      return sent.Some?, frames, sent;
    }

    /** The loop over the table: stops at the first eligible entry, with both cursors on it. */
    method Advance(t: Table)
      requires table == Some(t) && debugTable == Some(entry) && entry <= |t|
      modifies this`entry, this`debugTable
      ensures debugTable == Some(entry)
      ensures old(Chunks(t, entry)) == [] ==> entry == |t|
      ensures old(Chunks(t, entry)) != [] ==> entry == old(NextEligible(t, entry))
    {
      while entry < |t| && Chunk(t[debugTable.value]) == None
        invariant entry <= |t| && debugTable == Some(entry)
        invariant old(Chunks(t, entry)) == Chunks(t, entry)
        invariant old(Chunks(t, entry)) != [] ==> old(NextEligible(t, entry)) == NextEligible(t, entry)
      {
        entry, debugTable := entry + 1, Some(debugTable.value + 1);
      }
    }

    /**
     QxferLibrary. Length is not used by the source beyond a diagnostic. The reply of the
     request is framed on the port, unless it overruns the output buffer; the new state
     is reached unless the acknowledgement never comes.
     */
    method QxferLibrary(requested: nat) returns (outcome: Outcome, ghost frames: nat, ghost result: Option<nat>)
      requires InStep(State(), table) && !overrun && outBuffer.Length == GdbMemory.MAX_BUF_SIZE
      modifies this, port, outBuffer
      ensures Answered(old(Request(State(), table, requested)), old(port.rx), old(port.tx), outcome, frames, result)
    {
      hide Delivered, Fits, Payload, Chunks, Word;
      if requested != offset {
        var ok;
        ok, frames, result := SendError(GDB_EINVALIDARG);
        offset := 0;
        return if ok then Counted(0) else NeverReturns, frames, result;
      }
      if requested == 0 {
        HeaderFits();
        outcome, frames, result := Respond(0x6d, HEADER);
        if outcome.NeverReturns? { return; }
        offset := Word(offset + outcome.count);
        debugTable := if table.Some? then Some(0) else None;
        entry := 0;
        return;
      }
      outcome, frames, result := NextPart();
    }

    /** The loop over the table and its response, or the end of the document. */
    method NextPart() returns (outcome: Outcome, ghost frames: nat, ghost result: Option<nat>)
      requires InStep(State(), table) && !overrun && offset > 0 && outBuffer.Length == GdbMemory.MAX_BUF_SIZE
      modifies this, port, outBuffer
      ensures Answered(old(Request(State(), table, offset)), old(port.rx), old(port.tx), outcome, frames, result)
    {
      hide Delivered, Fits, Payload, Chunks, Word, Chunk;
      if debugTable != None {
        Advance(table.value);
        if entry < |table.value| {
          ChunkHasNoNul(table.value[entry]);
          outcome, frames, result := Respond(0x6d, Chunk(table.value[debugTable.value]).value);
          if !outcome.Counted? { return; }
          offset := Word(offset + outcome.count);
          entry := entry + 1;
          debugTable := Some(debugTable.value + 1);
          return;
        }
      }
      NoTableNoChunks(entry);
      HeaderFits();
      outcome, frames, result := Respond(0x6c, FOOTER);
      offset := 0;
    }

    /**
     A request with this new state and reply has been answered: the reply is framed on the
     port, unless it overran the output buffer; the state is the new one unless the call
     waits forever for an acknowledgement.
     */
    ghost predicate Answered(request: (Xfer, Reply), rx: seq<Byte>, tx: seq<Byte>,
                             outcome: Outcome, frames: nat, result: Option<nat>)
      reads this, port
    {
      && (outcome.Overran? <==> request.1 == Overrun)
      && (outcome.Overran? ==> port.rx == rx && port.tx == tx)
      && (!outcome.Overran? ==>
            && Delivered(Payload(request.1), retryCount, rx, tx, port.rx, port.tx, frames, result)
            && (outcome.NeverReturns? <==> result == None))
      && (!outcome.NeverReturns? ==> InStep(State(), table) && State() == request.0)
    }
  }

  lemma HeaderFits()
    ensures Fits(HEADER) && Fits(FOOTER) && 0 !in HEADER.text && 0 !in FOOTER.text
  {
  }

  /** Plain characters: no NUL, and nothing that is escaped. */
  ghost predicate Plain(s: seq<Byte>) {
    forall c <- s :: c != 0 && !Special(c)
  }

  predicate PlainChar(c: char) {
    var n := c as int % 256;
    n != 0 && n != 0x7d && n != 0x23 && n != 0x24 && n != 0x2a
  }

  lemma AsciiIsPlain(s: string)
    requires forall i :: 0 <= i < |s| ==> PlainChar(s[i])
    ensures Plain(Ascii(s))
  {
    forall c | c in Ascii(s)
      ensures c != 0 && !Special(c)
    {
      var i :| 0 <= i < |s| && Ascii(s)[i] == c;
      assert PlainChar(s[i]);
    }
  }

  lemma LineTextIsPlain()
    ensures Plain(LINE_NAME) && Plain(LINE_ADDRESS) && Plain(LINE_END)
  {
    hide Plain, Ascii;
    AsciiIsPlain("  <library name=\"");
    AsciiIsPlain("\"><segment address=\"0x");
    AsciiIsPlain("\"/></library>\n");
  }

  lemma LineHasNoNul(d: DebugInfo)
    ensures 0 !in LibraryLine(d)
  {
    hide Ascii;
    LineTextIsPlain();
    assert 0 !in LINE_NAME && 0 !in LINE_ADDRESS && 0 !in LINE_END;
  }

  lemma ChunkHasNoNul(e: Option<Image>)
    ensures Chunk(e).Some? ==> Chunk(e).value.Response? && 0 !in Chunk(e).value.text
  {
    hide LibraryLine;
    if Chunk(e).Some? {
      LineHasNoNul(e.value.debug.value);
    }
  }

  // ----- Reading the document back -----

  const QUOTE: Byte := 0x22

  /** The pieces of a text between its quotes. */
  function Pieces(s: seq<Byte>): (p: seq<seq<Byte>>)
    ensures |p| >= 1
  {
    if s == [] then [[]]
    else if s[0] == QUOTE then [[]] + Pieces(s[1..])
    else
      var p := Pieces(s[1..]);
      [[s[0]] + p[0]] + p[1..]
  }

  /** The value of an attribute: the quoted piece behind the first unquoted one that ends with its key. */
  function Attribute(pieces: seq<seq<Byte>>, key: seq<Byte>): (value: Option<seq<Byte>>)
  {
    if |pieces| < 2 then None
    else if |key| <= |pieces[0]| && pieces[0][|pieces[0]| - |key|..] == key then Some(pieces[1])
    else Attribute(pieces[2..], key)
  }

  lemma {:induction false} PiecesPlain(s: seq<Byte>)
    requires QUOTE !in s
    ensures Pieces(s) == [s]
  {
    if s != [] {
      PiecesPlain(s[1..]);
      assert [s[0]] + s[1..] == s;
    }
  }

  lemma {:induction false} PiecesFirst(s: seq<Byte>, rest: seq<Byte>)
    requires QUOTE !in s
    ensures Pieces(s + [QUOTE] + rest) == [s] + Pieces(rest)
  {
    var all := s + [QUOTE] + rest;
    if s == [] {
      assert all[1..] == rest;
    } else {
      assert all[1..] == s[1..] + [QUOTE] + rest;
      PiecesFirst(s[1..], rest);
      assert [s[0]] + s[1..] == s && ([s[1..]] + Pieces(rest))[1..] == Pieces(rest);
    }
  }

  lemma AsciiAppend(a: string, b: string)
    ensures Ascii(a + b) == Ascii(a) + Ascii(b)
  {
  }

  lemma QuoteIsQuote()
    ensures Ascii("\"") == [QUOTE]
  {
  }

  const NAME_PIECE := Ascii("  <library name=")
  const ADDRESS_PIECE := Ascii("><segment address=")
  const LAST_PIECE := Ascii("/></library>\n")

  lemma LinePieces(d: DebugInfo)
    ensures LibraryLine(d) == NAME_PIECE + [QUOTE] + (d.pdb + [QUOTE] + (ADDRESS_PIECE + [QUOTE] +
                              ((Ascii("0x") + d.loadAddress) + [QUOTE] + LAST_PIECE)))
  {
    hide Ascii;
    QuoteIsQuote();
    AsciiAppend("  <library name=", "\"");
    AsciiAppend("\"><segment address=", "\"0x");
    AsciiAppend("\"", "><segment address=");
    AsciiAppend("\"", "0x");
    AsciiAppend("\"", "/></library>\n");
    LiteralsJoin();
  }

  lemma LiteralsJoin()
    ensures "  <library name=" + "\"" == "  <library name=\""
    ensures "\"" + "><segment address=" == "\"><segment address="
    ensures "\"" + "0x" == "\"0x"
    ensures "\"><segment address=" + "\"0x" == "\"><segment address=\"0x"
    ensures "\"" + "/></library>\n" == "\"/></library>\n"
  {
  }

  lemma PiecesHaveNoQuote()
    ensures QUOTE !in NAME_PIECE && QUOTE !in ADDRESS_PIECE && QUOTE !in LAST_PIECE && QUOTE !in Ascii("0x")
  {
  }

  /** A reader of the line finds the image's name and its load address, where these hold no quote. */
  lemma LineReadsBack(d: DebugInfo)
    requires QUOTE !in d.pdb && QUOTE !in d.loadAddress
    ensures Attribute(Pieces(LibraryLine(d)), Ascii("name=")) == Some(d.pdb)
    ensures Attribute(Pieces(LibraryLine(d)), Ascii("address=")) == Some(Ascii("0x") + d.loadAddress)
  {
    hide Pieces, LibraryLine, Ascii;
    var address := Ascii("0x") + d.loadAddress;
    PiecesHaveNoQuote();
    LinePieces(d);
    PiecesPlain(LAST_PIECE);
    PiecesFirst(address, LAST_PIECE);
    PiecesFirst(ADDRESS_PIECE, address + [QUOTE] + LAST_PIECE);
    PiecesFirst(d.pdb, ADDRESS_PIECE + [QUOTE] + (address + [QUOTE] + LAST_PIECE));
    PiecesFirst(NAME_PIECE, d.pdb + [QUOTE] + (ADDRESS_PIECE + [QUOTE] + (address + [QUOTE] + LAST_PIECE)));
    var pieces := [NAME_PIECE, d.pdb, ADDRESS_PIECE, address, LAST_PIECE];
    assert Pieces(LibraryLine(d)) == pieces;
    KeysEnd();
    assert pieces[2..] == [ADDRESS_PIECE, address, LAST_PIECE];
  }

  /** Which piece ends with which key. */
  lemma KeysEnd()
    ensures |Ascii("name=")| == 5 <= |NAME_PIECE| && NAME_PIECE[|NAME_PIECE| - 5..] == Ascii("name=")
    ensures |Ascii("address=")| == 8 <= |ADDRESS_PIECE| && ADDRESS_PIECE[|ADDRESS_PIECE| - 8..] == Ascii("address=")
    ensures 8 <= |NAME_PIECE| && NAME_PIECE[|NAME_PIECE| - 8..] != Ascii("address=")
  {
    assert NAME_PIECE[|NAME_PIECE| - 8..][0] != Ascii("address=")[0];
  }

  /** An image that belongs into the document: a normal one that is loaded and has a symbol file, whose line has at most 1998 bytes. */
  predicate Listed(e: Option<Image>) {
    && e.Some? && e.value.infoType == 1 && e.value.loaded && e.value.debug.Some?
    && 53 + |e.value.debug.value.pdb| + |e.value.debug.value.loadAddress| <= 1998
  }

  /** The images that belong into the document, in table order. */
  function Images(table: Table, k: nat): (ds: seq<DebugInfo>)
    decreases |table| - k
  {
    if k >= |table| then []
    else (if Listed(table[k]) then [table[k].value.debug.value] else []) + Images(table, k + 1)
  }

  lemma ChunkIsListed(e: Option<Image>)
    ensures Chunk(e).Some? <==> Listed(e)
    ensures Listed(e) ==> Chunk(e).value == Response('m', LibraryLine(e.value.debug.value))
  {
    hide Ascii;
    assert |LINE_NAME| == 17 && |LINE_ADDRESS| == 22 && |LINE_END| == 14;
  }

  lemma {:induction false} ChunksAreImages(table: Table, k: nat)
    ensures |Chunks(table, k)| == |Images(table, k)|
    ensures forall i :: 0 <= i < |Chunks(table, k)| ==> Chunks(table, k)[i] == Response('m', LibraryLine(Images(table, k)[i]))
    decreases |table| - k
  {
    hide Chunk, Listed, LibraryLine;
    if k < |table| {
      ChunkIsListed(table[k]);
      ChunksAreImages(table, k + 1);
    }
  }

  ghost predicate NoQuotes(table: Table) {
    forall d <- Images(table, 0) :: QUOTE !in d.pdb && QUOTE !in d.loadAddress
  }

  /**
   What the document says, to a reader of its lines: the opening tag, then for the k-th
   image that belongs into it that image's name and load address, then the closing tag
   with the type that ends the transfer.
   */
  lemma DocumentReadsBack(table: Table)
    ensures var d, images := Document(table), Images(table, 0);
            && |d| == |images| + 2
            && d[0] == Response('m', Ascii("<library-list>\n")) && d[|d| - 1] == Response('l', Ascii("</library-list>\n"))
            && (NoQuotes(table) ==> forall k :: 0 <= k < |images| ==>
                  && d[k + 1].Response? && d[k + 1].typeChar == 'm'
                  && Attribute(Pieces(d[k + 1].text), Ascii("name=")) == Some(images[k].pdb)
                  && Attribute(Pieces(d[k + 1].text), Ascii("address=")) == Some(Ascii("0x") + images[k].loadAddress))
  {
    hide Chunks, Images, Pieces, Attribute, LibraryLine, Ascii;
    var d, images := Document(table), Images(table, 0);
    ChunksAreImages(table, 0);
    if NoQuotes(table) {
      forall k | 0 <= k < |images|
        ensures d[k + 1] == Response('m', LibraryLine(images[k]))
        ensures Attribute(Pieces(LibraryLine(images[k])), Ascii("name=")) == Some(images[k].pdb)
        ensures Attribute(Pieces(LibraryLine(images[k])), Ascii("address=")) == Some(Ascii("0x") + images[k].loadAddress)
      {
        assert images[k] in images;
        LineReadsBack(images[k]);
      }
    }
  }

  // ----- Which lines fit -----

  lemma {:induction false} SpecialsAppend(a: seq<Byte>, b: seq<Byte>)
    ensures Specials(a + b) == Specials(a) + Specials(b)
  {
    hide Special;
    if a == [] {
      assert a + b == b;
    } else {
      assert (a + b)[1..] == a[1..] + b;
      SpecialsAppend(a[1..], b);
    }
  }

  lemma {:induction false} PlainHasNoSpecials(s: seq<Byte>)
    requires Plain(s)
    ensures Specials(s) == 0
  {
    hide Special;
    if s != [] {
      PlainHasNoSpecials(s[1..]);
    }
  }

  /**
   An image's line fits the output buffer exactly if its length and the bytes of its name
   and address that need escaping stay below the buffer's size together.
   */
  lemma LineFitsIff(d: DebugInfo)
    ensures Fits(Response('m', LibraryLine(d)))
       <==> |LibraryLine(d)| + Specials(d.pdb) + Specials(d.loadAddress) < GdbMemory.MAX_BUF_SIZE
  {
    hide Ascii, Specials, Escape;
    LineTextIsPlain();
    PlainHasNoSpecials(LINE_NAME);
    PlainHasNoSpecials(LINE_ADDRESS);
    PlainHasNoSpecials(LINE_END);
    SpecialsAppend(LINE_NAME, d.pdb);
    SpecialsAppend(LINE_NAME + d.pdb, LINE_ADDRESS);
    SpecialsAppend(LINE_NAME + d.pdb + LINE_ADDRESS, d.loadAddress);
    SpecialsAppend(LINE_NAME + d.pdb + LINE_ADDRESS + d.loadAddress, LINE_END);
    EscapedLength(LibraryLine(d));
  }

  lemma {:induction false} AllSpecial(n: nat)
    ensures Specials(Repeat(HASH, n)) == n
  {
    if n > 0 {
      assert Repeat(HASH, n)[1..] == Repeat(HASH, n - 1);
      AllSpecial(n - 1);
    }
  }

  /** An eligible image whose line does not fit: the length test looks at the text before it is escaped. */
  lemma EligibleCanOverrun(loadAddress: Text)
    requires |loadAddress| <= 16
    ensures var image := Image(EFI_DEBUG_IMAGE_INFO_TYPE_NORMAL, true, Some(DebugInfo(Repeat(HASH, 1000), loadAddress)));
            Chunk(Some(image)).Some? && !Fits(Chunk(Some(image)).value)
  {
    hide Escape, Specials;
    var d := DebugInfo(Repeat(HASH, 1000), loadAddress);
    AllSpecial(1000);
    LineFitsIff(d);
  }

  // ----- Whole transfers -----

  /** The offset the stub expects after sending these replies from the start of a document. */
  function OffsetAfter(sent: seq<Reply>): (n: nat)
    requires forall r <- sent :: r.Response?
  {
    if sent == [] then 0 else OffsetAfter(sent[..|sent| - 1]) + 1 + |sent[|sent| - 1].text|
  }

  function TableOf(table: Option<Table>): (t: Table)
  {
    if table.Some? then table.value else []
  }

  lemma {:induction false} ChunksAreResponses(table: Table, k: nat)
    ensures forall c <- Chunks(table, k) :: c.Response?
    decreases |table| - k
  {
    if k < |table| {
      ChunksAreResponses(table, k + 1);
    }
  }

  /** The document is not so long that the offset would wrap. */
  ghost predicate Countable(table: Option<Table>) {
    var d := Document(TableOf(table));
    (forall r <- d :: r.Response?) && OffsetAfter(d) < WORD64
  }

  lemma {:induction false} OffsetGrows(sent: seq<Reply>, m: nat)
    requires (forall r <- sent :: r.Response?) && m <= |sent|
    ensures OffsetAfter(sent[..m]) <= OffsetAfter(sent)
  {
    if m == |sent| {
      assert sent[..m] == sent;
    } else {
      var init := sent[..|sent| - 1];
      OffsetGrows(init, m);
      assert init[..m] == sent[..m];
    }
  }

  /** Every reply of the document fits the output buffer. */
  ghost predicate AllFit(table: Option<Table>) {
    forall r <- Document(TableOf(table)) :: Fits(r)
  }

  /** The line of entry `j`, if it is eligible, fits. */
  predicate EntryFits(table: Table, j: nat)
    requires j < |table|
  {
    Chunk(table[j]).Some? ==> Fits(Chunk(table[j]).value)
  }

  lemma {:induction false} ChunksFitIff(table: Table, k: nat)
    requires k <= |table|
    ensures (forall c <- Chunks(table, k) :: Fits(c)) <==> forall j :: k <= j < |table| ==> EntryFits(table, j)
    decreases |table| - k
  {
    hide Fits, Chunk;
    if k < |table| {
      ChunksFitIff(table, k + 1);
      var rest := Chunks(table, k + 1);
      if Chunk(table[k]).Some? {
        var first := Chunk(table[k]).value;
        assert Chunks(table, k) == [first] + rest;
        assert forall c :: c in [first] + rest <==> c == first || c in rest;
      }
      assert (forall j :: k <= j < |table| ==> EntryFits(table, j))
        <==> EntryFits(table, k) && forall j :: k + 1 <= j < |table| ==> EntryFits(table, j);
    }
  }

  /** The document fits exactly if the line of every eligible entry does. */
  lemma AllFitIff(table: Option<Table>)
    ensures AllFit(table) <==> forall j :: 0 <= j < |TableOf(table)| ==> EntryFits(TableOf(table), j)
  {
    hide Fits, EntryFits;
    var cs := Chunks(TableOf(table), 0);
    HeaderFits();
    ChunksFitIff(TableOf(table), 0);
    assert forall r :: r in [HEADER] + cs + [FOOTER] <==> r == HEADER || r in cs || r == FOOTER;
  }

  /** The state after `m` replies of the document: what remains is what has not been sent. */
  ghost predicate Sending(x: Xfer, table: Option<Table>, m: nat) {
    var t := TableOf(table);
    && InStep(x, table) && !x.overrun
    && Countable(table)
    && if m == 0 then x.offset == 0 else
         && m < |Document(t)|
         && x.offset == OffsetAfter(Document(t)[..m])
         && Chunks(t, x.entry) == Chunks(t, 0)[m - 1..]
  }

  /** One more reply of the document. */
  lemma OffsetNext(d: seq<Reply>, m: nat)
    requires (forall r <- d :: r.Response?) && OffsetAfter(d) < WORD64 && m < |d|
    ensures d[m].Response? && OffsetAfter(d[..m + 1]) == OffsetAfter(d[..m]) + 1 + |d[m].text| < WORD64
  {
    assert d[m] in d;
    assert d[..m + 1][..m] == d[..m];
    OffsetGrows(d, m + 1);
  }

  /** Where the lines stand in the document. */
  lemma DocumentAt(t: Table, m: nat)
    requires m < |Document(t)|
    ensures |Document(t)| == |Chunks(t, 0)| + 2
    ensures Document(t)[m] == if m == 0 then HEADER else if m <= |Chunks(t, 0)| then Chunks(t, 0)[m - 1] else FOOTER
  {
    hide Chunks;
  }

  lemma RequestFirst(x: Xfer, table: Option<Table>)
    requires Sending(x, table, 0)
    ensures var (x', r) := Request(x, table, x.offset);
            r == HEADER && Sending(x', table, 1)
  {
    hide Chunks, Word, OffsetAfter;
    var d := Document(TableOf(table));
    DocumentAt(TableOf(table), 0);
    OffsetNext(d, 0);
    assert d[..0] == [];
    NothingCounted();
    assert Chunks(TableOf(table), 0)[0..] == Chunks(TableOf(table), 0);
  }

  lemma NothingCounted()
    ensures OffsetAfter([]) == 0
  {
  }

  lemma RequestLater(x: Xfer, table: Option<Table>, m: nat)
    requires Sending(x, table, m) && m > 0
    ensures var d := Document(TableOf(table));
            var (x', r) := Request(x, table, x.offset);
            if Fits(d[m]) then r == d[m] && Sending(x', table, if m + 1 == |d| then 0 else m + 1)
            else r == Overrun && x'.overrun
  {
    hide Chunks, Word, OffsetAfter, Document, Fits;
    HeaderFits();
    var t := TableOf(table);
    var d := Document(t);
    SomethingSent(d, m);
    DocumentAt(t, m);
    OffsetNext(d, m);
    NoTableNoChunks(x.entry);
    var left := Chunks(t, x.entry);
    if left != [] {
      assert left[0] == Chunks(t, 0)[m - 1];
      assert left[1..] == Chunks(t, 0)[m..];
    }
  }

  lemma NoTableNoChunks(k: nat)
    ensures Chunks([], k) == []
  {
  }

  lemma SomethingSent(d: seq<Reply>, m: nat)
    requires (forall r <- d :: r.Response?) && 0 < m <= |d|
    ensures OffsetAfter(d[..m]) > 0
  {
  }

  /**
   A request at the expected offset sends exactly the next reply of the document, if that
   fits the output buffer, and otherwise overruns it.
   */
  lemma RequestNext(x: Xfer, table: Option<Table>, m: nat)
    requires Sending(x, table, m)
    ensures var d := Document(TableOf(table));
            var (x', r) := Request(x, table, x.offset);
            && m < |d|
            && if Fits(d[m]) then r == d[m] && Sending(x', table, if m + 1 == |d| then 0 else m + 1)
               else r == Overrun && x'.overrun
  {
    hide Request, Chunks, Fits;
    HeaderFits();
    if m == 0 {
      RequestFirst(x, table);
    } else {
      RequestLater(x, table, m);
    }
  }

  lemma SendingStart(x: Xfer, table: Option<Table>)
    requires x.offset == 0 && !x.overrun && Countable(table)
    ensures Sending(x, table, 0)
  {
  }

  /** What Countable says of a table: its replies, with one byte more for each, are fewer than 2^64 bytes. */
  lemma CountableIff(table: Option<Table>)
    ensures var d := Document(TableOf(table));
            (forall r <- d :: r.Response?) && (Countable(table) <==> TextLength(d) + |d| < WORD64)
  {
    hide OffsetAfter, TextLength;
    ChunksAreResponses(TableOf(table), 0);
    OffsetCountsLostTypes(Document(TableOf(table)));
  }

  /** The replies to `n` requests, each at the offset the stub expects. */
  function Follow(x: Xfer, table: Option<Table>, n: nat): (r: (Xfer, seq<Reply>))
  {
    if n == 0 then (x, [])
    else
      var (x1, sent) := Follow(x, table, n - 1);
      var (x2, r) := Request(x1, table, x1.offset);
      (x2, sent + [r])
  }

  /** The first reply from `i` on that does not fit, or the number of replies. */
  function FirstMisfit(d: seq<Reply>, i: nat): (k: nat)
    requires i <= |d|
    ensures i <= k <= |d| && (k < |d| ==> !Fits(d[k]))
    ensures forall j :: i <= j < k ==> Fits(d[j])
    decreases |d| - i
  {
    if i == |d| || !Fits(d[i]) then i else FirstMisfit(d, i + 1)
  }

  /** The replies of `n` requests: the document as far as it fits, then overruns. */
  function Upto(d: seq<Reply>, n: nat): (s: seq<Reply>)
    requires n <= |d|
    ensures |s| == n
  {
    CutAt(d, FirstMisfit(d, 0), n)
  }

  /** `n` replies: those of the document before the f-th, then overruns. */
  function CutAt(d: seq<Reply>, f: nat, n: nat): (s: seq<Reply>)
    requires n <= |d| && f <= |d|
    ensures |s| == n
  {
    if n <= f then d[..n] else d[..f] + Repeat(Overrun, n - f)
  }

  lemma CutNext(d: seq<Reply>, f: nat, n: nat)
    requires n < |d| && f <= |d|
    ensures CutAt(d, f, n + 1) == CutAt(d, f, n) + [if n < f then d[n] else Overrun]
  {
    if n < f {
      assert d[..n + 1] == d[..n] + [d[n]];
    } else if n == f {
      assert Repeat(Overrun, 1) == [Overrun];
    } else {
      RepeatSnoc(Overrun, n - f);
      assert d[..f] + (Repeat(Overrun, n - f) + [Overrun]) == (d[..f] + Repeat(Overrun, n - f)) + [Overrun];
    }
  }

  lemma RepeatSnoc(r: Reply, n: nat)
    ensures Repeat(r, n + 1) == Repeat(r, n) + [r]
  {
  }

  lemma UptoNext(d: seq<Reply>, n: nat)
    requires n < |d|
    ensures Upto(d, n + 1) == Upto(d, n) + [if n < FirstMisfit(d, 0) then d[n] else Overrun]
  {
    hide FirstMisfit, CutAt;
    CutNext(d, FirstMisfit(d, 0), n);
  }

  /** Exactly the documents that fit are sent whole. */
  lemma UptoAll(d: seq<Reply>)
    requires forall r <- d :: r.Response?
    ensures Upto(d, |d|) == d <==> forall r <- d :: Fits(r)
  {
    hide Fits;
    var f := FirstMisfit(d, 0);
    assert d[..|d|] == d;
    if f < |d| {
      assert d[f] in d && Upto(d, |d|)[f] == Overrun;
    } else {
      forall r | r in d
        ensures Fits(r)
      {
        var i :| 0 <= i < |d| && d[i] == r;
      }
    }
  }

  lemma NoMisfit(d: seq<Reply>)
    requires forall r <- d :: Fits(r)
    ensures FirstMisfit(d, 0) == |d|
  {
    var f := FirstMisfit(d, 0);
    assert forall i :: 0 <= i < |d| ==> d[i] in d;
  }

  lemma {:induction false} FollowIs(x: Xfer, table: Option<Table>, n: nat)
    requires x.offset == 0 && !x.overrun && Countable(table) && n <= |Document(TableOf(table))|
    ensures var d := Document(TableOf(table));
            && Follow(x, table, n).1 == Upto(d, n)
            && if n <= FirstMisfit(d, 0) then Sending(Follow(x, table, n).0, table, if n == |d| then 0 else n)
               else Follow(x, table, n).0.overrun
  {
    hide Request, Document, Sending, Countable, Fits, Upto;
    var d := Document(TableOf(table));
    if n == 0 {
      SendingStart(x, table);
      NothingUpto(d);
    } else {
      FollowIs(x, table, n - 1);
      UptoNext(d, n - 1);
      var x1 := Follow(x, table, n - 1).0;
      if n - 1 <= FirstMisfit(d, 0) {
        RequestNext(x1, table, n - 1);
      } else {
        OverrunStays(x1, table, x1.offset);
      }
    }
  }

  lemma NothingUpto(d: seq<Reply>)
    ensures Upto(d, 0) == []
  {
  }

  lemma OverrunStays(x: Xfer, table: Option<Table>, offset: nat)
    requires x.overrun
    ensures Request(x, table, offset) == (x, Overrun)
  {
  }

  /**
   The resumable transfer. From any state that expects offset 0, a client that always asks
   for the expected offset gets the header, each eligible image once in table order and
   the footer, in 2 + (eligible images) requests, if and only if every line fits the output
   buffer; after that offset 0 is expected again. Otherwise it gets the lines before the
   first that does not fit.
   */
  lemma TransferComplete(x: Xfer, table: Option<Table>)
    requires x.offset == 0 && !x.overrun && Countable(table)
    ensures var d := Document(TableOf(table));
            var n := 2 + |Chunks(TableOf(table), 0)|;
            && n == |d|
            && Follow(x, table, n).1 == Upto(d, n)
            && (Follow(x, table, n).1 == d <==> AllFit(table))
            && (AllFit(table) ==> Follow(x, table, n).0.offset == 0 && !Follow(x, table, n).0.overrun
                                  && forall k :: 0 < k < n ==> Follow(x, table, k).0.offset > 0)
  {
    hide Chunks, Request, Fits, Upto, OffsetAfter, Follow;
    var d := Document(TableOf(table));
    FollowIs(x, table, |d|);
    UptoAll(d);
    if AllFit(table) {
      NoMisfit(d);
      forall k | 0 < k < |d|
        ensures Follow(x, table, k).0.offset > 0
      {
        FollowIs(x, table, k);
        SomethingSent(d, k);
      }
    }
  }

  /** What such a client reads when every line fits: the tags, and each image's name and load address in table order. */
  lemma TransferReadsBack(x: Xfer, table: Option<Table>)
    requires x.offset == 0 && !x.overrun && Countable(table) && AllFit(table) && NoQuotes(TableOf(table))
    ensures var images := Images(TableOf(table), 0);
            var sent := Follow(x, table, |images| + 2).1;
            && |sent| == |images| + 2
            && sent[0] == Response('m', Ascii("<library-list>\n")) && sent[|sent| - 1] == Response('l', Ascii("</library-list>\n"))
            && forall k :: 0 <= k < |images| ==>
                 && sent[k + 1].Response?
                 && Attribute(Pieces(sent[k + 1].text), Ascii("name=")) == Some(images[k].pdb)
                 && Attribute(Pieces(sent[k + 1].text), Ascii("address=")) == Some(Ascii("0x") + images[k].loadAddress)
  {
    hide Countable, AllFit, NoQuotes, Images, Document, Follow, Pieces, Attribute, Ascii, Chunks;
    DocumentReadsBack(TableOf(table));
    TransferComplete(x, table);
  }

  /** Any other offset, at any point, is answered with an error, and the next request at 0 starts over. */
  lemma WrongOffsetRestarts(x: Xfer, table: Option<Table>, offset: nat)
    requires offset != x.offset && !x.overrun && Countable(table)
    ensures var d := Document(TableOf(table));
            var (x1, r1) := Request(x, table, offset);
            && x1.offset == 0 && !x1.overrun && r1 == Error(31)
            && Follow(x1, table, |d|).1 == Upto(d, |d|)
            && (Follow(x1, table, |d|).1 == d <==> AllFit(table))
  {
    hide Upto, Follow, AllFit, Countable, Fits;
    TransferComplete(Request(x, table, offset).0, table);
  }

  /** The state and all replies after any requests whatever. */
  function Serve(table: Option<Table>, requests: seq<nat>): (r: (Xfer, seq<Reply>))
  {
    if requests == [] then (XFER_START, [])
    else
      var (x1, sent) := Serve(table, requests[..|requests| - 1]);
      var (x2, r) := Request(x1, table, requests[|requests| - 1]);
      (x2, sent + [r])
  }

  /** The last `m` of the first `i` replies are the first `m` of the document. */
  ghost predicate Served(sent: seq<Reply>, i: nat, d: seq<Reply>, m: nat) {
    m <= i <= |sent| && m <= |d| && sent[i - m..i] == d[..m]
  }

  lemma ServedStays(sent: seq<Reply>, i: nat, d: seq<Reply>, m: nat, r: Reply)
    requires Served(sent, i, d, m)
    ensures Served(sent + [r], i, d, m)
  {
    assert (sent + [r])[i - m..i] == sent[i - m..i];
  }

  lemma ServedGrows(sent: seq<Reply>, d: seq<Reply>, m: nat)
    requires Served(sent, |sent|, d, m) && m < |d|
    ensures Served(sent + [d[m]], |sent| + 1, d, m + 1)
  {
    assert (sent + [d[m]])[|sent| - m..|sent| + 1] == sent[|sent| - m..|sent|] + [d[m]];
    assert d[..m + 1] == d[..m] + [d[m]];
  }

  /** Where a run of requests is: at point `m` of the document, or past the output buffer since reply `i`, at a line that does not fit. */
  ghost predicate RunIs(x: Xfer, sent: seq<Reply>, table: Option<Table>, i: nat, m: nat) {
    var d := Document(TableOf(table));
    && Served(sent, i, d, m)
    && if x.overrun then m < |d| && !Fits(d[m]) && i < |sent| && (forall j :: i <= j < |sent| ==> sent[j] == Overrun)
       else i == |sent| && Sending(x, table, m)
  }

  lemma RunNext(x: Xfer, sent: seq<Reply>, table: Option<Table>, i: nat, m: nat, offset: nat) returns (i': nat, m': nat)
    requires RunIs(x, sent, table, i, m) && Countable(table)
    ensures var (x', r) := Request(x, table, offset);
            RunIs(x', sent + [r], table, i', m')
  {
    hide Document, Sending, Request, Countable, Fits, Served;
    var d := Document(TableOf(table));
    var (x', r) := Request(x, table, offset);
    if x.overrun {
      OverrunStays(x, table, offset);
      ServedStays(sent, i, d, m, r);
      i', m' := i, m;
    } else if offset != x.offset {
      RefusedStarts(x, table, offset);
      SendingInBuffer(x', table, 0);
      ServedNothing(sent + [r], d);
      i', m' := |sent| + 1, 0;
    } else {
      RequestNext(x, table, m);
      if Fits(d[m]) {
        SendingInBuffer(x', table, if m + 1 == |d| then 0 else m + 1);
        ServedGrows(sent, d, m);
        ServedNothing(sent + [r], d);
        i', m' := |sent| + 1, if m + 1 == |d| then 0 else m + 1;
      } else {
        ServedStays(sent, i, d, m, r);
        i', m' := i, m;
      }
    }
  }

  lemma RefusedStarts(x: Xfer, table: Option<Table>, offset: nat)
    requires !x.overrun && offset != x.offset && Countable(table)
    ensures Sending(Request(x, table, offset).0, table, 0)
  {
    hide Countable;
  }

  lemma SendingInBuffer(x: Xfer, table: Option<Table>, m: nat)
    requires Sending(x, table, m)
    ensures !x.overrun
  {
  }

  lemma ServedNothing(sent: seq<Reply>, d: seq<Reply>)
    ensures Served(sent, |sent|, d, 0)
  {
  }

  /**
   Over every run of requests, right or wrong: while no response has overrun the output
   buffer, the stub is at some point `m` of the document, and the last `m` replies it sent
   are exactly the first `m` of the document. It overruns only at a line that does not fit,
   having sent the document up to that line.
   */
  lemma {:induction false} ServesDocumentPrefixes(table: Option<Table>, requests: seq<nat>) returns (i: nat, m: nat)
    requires Countable(table)
    ensures var (x, sent) := Serve(table, requests);
            RunIs(x, sent, table, i, m)
    ensures AllFit(table) ==> !Serve(table, requests).0.overrun
  {
    hide Request, Countable, RunIs, AllFit;
    if requests == [] {
      RunStarts(table);
      i, m := 0, 0;
    } else {
      var init := requests[..|requests| - 1];
      var i0, m0 := ServesDocumentPrefixes(table, init);
      i, m := RunNext(Serve(table, init).0, Serve(table, init).1, table, i0, m0, requests[|requests| - 1]);
    }
    FitNeverOverruns(Serve(table, requests).0, Serve(table, requests).1, table, i, m);
  }

  lemma RunStarts(table: Option<Table>)
    requires Countable(table)
    ensures RunIs(XFER_START, [], table, 0, 0)
  {
    hide Countable;
    SendingStart(XFER_START, table);
  }

  lemma FitNeverOverruns(x: Xfer, sent: seq<Reply>, table: Option<Table>, i: nat, m: nat)
    requires RunIs(x, sent, table, i, m)
    ensures AllFit(table) ==> !x.overrun
  {
    hide Fits, Served, Sending;
    var d := Document(TableOf(table));
    assert x.overrun ==> d[m] in d;
  }

  function TextLength(sent: seq<Reply>): (n: nat)
    requires forall r <- sent :: r.Response?
  {
    if sent == [] then 0 else TextLength(sent[..|sent| - 1]) + |sent[|sent| - 1].text|
  }

  lemma {:induction false} OffsetCountsLostTypes(sent: seq<Reply>)
    requires forall r <- sent :: r.Response?
    ensures OffsetAfter(sent) == TextLength(sent) + |sent|
  {
    if sent != [] {
      OffsetCountsLostTypes(sent[..|sent| - 1]);
    }
  }

  /**
   The expected offset counts one lost type byte per reply. A client that asks, as the
   protocol has it, for the number of document bytes it received so far is refused at
   every point after the start; a request is served if and only if it adds the replies.
   */
  lemma ByteOffsetsAreRefused(x: Xfer, table: Option<Table>, m: nat, offset: nat)
    requires Sending(x, table, m) && m > 0
    ensures var d := Document(TableOf(table));
            Request(x, table, offset).1.Error? <==> offset != TextLength(d[..m]) + m
  {
    var d := Document(TableOf(table));
    OffsetCountsLostTypes(d[..m]);
    if offset == x.offset {
      RequestNext(x, table, m);
    }
  }
}
