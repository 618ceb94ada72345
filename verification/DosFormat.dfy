/**
 FormatFile's chain of five substitutions on the bytes of a file, proved equal to a plain
 line-by-line formatter, and what the result is then known to be.
 */
module DosFormat {
  import opened Bytes

  const CR: Byte := 0x0d
  const LF: Byte := 0x0a
  const TAB: Byte := 0x09
  const CRLF: seq<Byte> := [CR, LF]

  predicate Blank(c: Byte) {
    c == SPACE || c == TAB
  }

  predicate Break(c: Byte) {
    c == CR || c == LF
  }

  // ----- The five substitutions, each scanning left to right without overlaps -----

  /** `([^\r])\n` becomes the character, CR, LF. */
  function Sub1(s: seq<Byte>): (t: seq<Byte>)
  {
    if |s| >= 2 && s[0] != CR && s[1] == LF then [s[0]] + CRLF + Sub1(s[2..])
    else if s == [] then []
    else [s[0]] + Sub1(s[1..])
  }

  /** `^\n` in multi-line mode becomes CR, LF; `lineStart` says whether ^ matches here. */
  function Sub2(lineStart: bool, s: seq<Byte>): (t: seq<Byte>)
    decreases |s|
  {
    if s == [] then []
    else if lineStart && s[0] == LF then CRLF + Sub2(true, s[1..])
    else [s[0]] + Sub2(s[0] == LF, s[1..])
  }

  /** `([^\r\n])$` becomes the character, CR, LF; $ also matches before a final LF. */
  function Sub3(s: seq<Byte>): (t: seq<Byte>)
  {
    if s == [] then []
    else if !Break(s[0]) && (|s| == 1 || (|s| == 2 && s[1] == LF)) then [s[0]] + CRLF + Sub3(s[1..])
    else [s[0]] + Sub3(s[1..])
  }

  /** The number of blanks at the front. */
  function BlankRun(s: seq<Byte>): (n: nat)
    ensures n <= |s| && (forall i :: 0 <= i < n ==> Blank(s[i]))
    ensures n < |s| ==> !Blank(s[n])
  {
    if s == [] || !Blank(s[0]) then 0 else 1 + BlankRun(s[1..])
  }

  predicate StartsCrLf(s: seq<Byte>) {
    |s| >= 2 && s[0] == CR && s[1] == LF
  }

  /** `[ \t]+(\r\n)` becomes CR, LF. */
  function Sub4(s: seq<Byte>): (t: seq<Byte>)
  {
    var n := BlankRun(s);
    if s == [] then []
    else if n > 0 && StartsCrLf(s[n..]) then CRLF + Sub4(s[n + 2..])
    else [s[0]] + Sub4(s[1..])
  }

  /** A tab becomes two spaces. */
  function Sub5(s: seq<Byte>): (t: seq<Byte>)
  {
    if s == [] then [] else (if s[0] == TAB then [SPACE, SPACE] else [s[0]]) + Sub5(s[1..])
  }

  /** The pieces of a text between its tabs. */
  function Pieces(s: seq<Byte>): (p: seq<seq<Byte>>)
    ensures |p| >= 1
  {
    if s == [] then [[]]
    else if s[0] == TAB then [[]] + Pieces(s[1..])
    else
      var p := Pieces(s[1..]);
      [[s[0]] + p[0]] + p[1..]
  }

  function Joined(pieces: seq<seq<Byte>>): (s: seq<Byte>)
    requires |pieces| >= 1
  {
    if |pieces| == 1 then pieces[0] else pieces[0] + [0x20, 0x20] + Joined(pieces[1..])
  }

  /** Every tab becomes two spaces and nothing else changes. */
  lemma {:induction false} Sub5IsJoin(s: seq<Byte>)
    ensures Sub5(s) == Joined(Pieces(s))
  {
    if s != [] {
      Sub5IsJoin(s[1..]);
      var p := Pieces(s[1..]);
      if s[0] == TAB {
        assert ([[]] + p)[1..] == p;
        assert [] + [0x20, 0x20] + Joined(p) == [0x20, 0x20] + Joined(p);
      } else {
        assert ([[s[0]] + p[0]] + p[1..])[1..] == p[1..];
        if |p| > 1 {
          assert ([s[0]] + p[0]) + [0x20, 0x20] + Joined(p[1..]) == [s[0]] + (p[0] + [0x20, 0x20] + Joined(p[1..]));
        }
      }
    }
  }

  function FormatFile(content: seq<Byte>): (formatted: seq<Byte>)
  {
    Sub5(Sub4(Sub3(Sub2(true, Sub1(content)))))
  }

  // ----- The plain formatter -----

  /** The line up to the first LF, or everything. */
  function LineLength(s: seq<Byte>): (n: nat)
    ensures n <= |s| && LF !in s[..n] && (n < |s| ==> s[n] == LF)
  {
    if s == [] || s[0] == LF then 0
    else
      var n := 1 + LineLength(s[1..]);
      assert s[..n] == [s[0]] + s[1..][..n - 1];
      n
  }

  function TrimRight(s: seq<Byte>): (t: seq<Byte>)
    ensures t <= s && (t != [] ==> !Blank(t[|t| - 1]))
  {
    if s != [] && Blank(s[|s| - 1]) then TrimRight(s[..|s| - 1]) else s
  }

  function DropCr(line: seq<Byte>): (t: seq<Byte>)
  {
    if line != [] && line[|line| - 1] == CR then line[..|line| - 1] else line
  }

  /** The text of a finished line: one CR, trailing blanks and tabs gone, then CR, LF. */
  function TidyLine(text: seq<Byte>): (t: seq<Byte>)
  {
    Sub5(TrimRight(text)) + CRLF
  }

  /** The last line, which no LF ends: left open only if empty or ending in CR. */
  function TidyLast(text: seq<Byte>): (t: seq<Byte>)
  {
    if text == [] then [] else if text[|text| - 1] == CR then Sub5(text) else TidyLine(text)
  }

  function FormatLines(s: seq<Byte>): (t: seq<Byte>)
  {
    var n := LineLength(s);
    if n == |s| then TidyLast(s) else TidyLine(DropCr(s[..n])) + FormatLines(s[n + 1..])
  }

  lemma FormatLinesIs(s: seq<Byte>)
    ensures var n := LineLength(s);
            FormatLines(s) == if n == |s| then TidyLast(s) else TidyLine(DropCr(s[..n])) + FormatLines(s[n + 1..])
  {
    hide TidyLast, TidyLine, DropCr, LineLength;
  }

  // ----- Substitutions 1 and 2 put a CR before every bare LF -----

  function FixBreaks(afterCr: bool, s: seq<Byte>): (t: seq<Byte>)
    decreases |s|
  {
    if s == [] then []
    else if s[0] == LF && !afterCr then CRLF + FixBreaks(false, s[1..])
    else [s[0]] + FixBreaks(s[0] == CR, s[1..])
  }

  lemma Sub2Crlf(lineStart: bool, s: seq<Byte>)
    ensures Sub2(lineStart, CRLF + s) == CRLF + Sub2(true, s)
  {
    assert (CRLF + s)[1..] == [LF] + s && ([LF] + s)[1..] == s;
    assert Sub2(false, [LF] + s) == [LF] + Sub2(true, s);
  }

  lemma {:induction false} Subs12(lineStart: bool, afterCr: bool, s: seq<Byte>)
    requires !(lineStart && afterCr)
    requires s != [] && s[0] == LF ==> lineStart || afterCr
    ensures Sub2(lineStart, Sub1(s)) == FixBreaks(afterCr, s)
    decreases |s|
  {
    if s == [] {
    } else if |s| >= 2 && s[0] != CR && s[1] == LF {
      var tail := Sub1(s[2..]);
      Subs12(true, false, s[2..]);
      assert Sub1(s) == [s[0]] + (CRLF + tail);
      assert ([s[0]] + (CRLF + tail))[1..] == CRLF + tail;
      Sub2Crlf(true, tail);
      Sub2Crlf(s[0] == LF, tail);
      assert s[1..][1..] == s[2..];
      assert FixBreaks(false, s[1..]) == CRLF + FixBreaks(false, s[2..]);
    } else {
      Subs12(s[0] == LF, s[0] == CR, s[1..]);
      assert ([s[0]] + Sub1(s[1..]))[1..] == Sub1(s[1..]);
    }
  }

  /** A line with its LF, fixed. */
  function FixedLine(afterCr: bool, line: seq<Byte>): (t: seq<Byte>)
    decreases |line|
  {
    if line == [] then if afterCr then [LF] else CRLF else [line[0]] + FixedLine(line[0] == CR, line[1..])
  }

  lemma {:induction false} FixedLineIs(line: seq<Byte>)
    requires line != []
    ensures forall afterCr :: FixedLine(afterCr, line) == DropCr(line) + CRLF
    decreases |line|
  {
    if |line| == 1 {
      assert line == [line[0]];
      assert FixedLine(line[0] == CR, line[1..]) == if line[0] == CR then [LF] else CRLF;
    } else {
      FixedLineIs(line[1..]);
      assert DropCr(line) == [line[0]] + DropCr(line[1..]);
    }
  }

  /** Fixing a file fixes its first line and then the rest. */
  lemma {:induction false} FixFirstLine(afterCr: bool, line: seq<Byte>, rest: seq<Byte>)
    requires LF !in line
    ensures FixBreaks(afterCr, line + [LF] + rest) == FixedLine(afterCr, line) + FixBreaks(false, rest)
    decreases |line|
  {
    var s := line + [LF] + rest;
    if line == [] {
      assert s[1..] == rest;
    } else {
      assert s[1..] == line[1..] + [LF] + rest;
      FixFirstLine(line[0] == CR, line[1..], rest);
    }
  }

  lemma {:induction false} FixLast(afterCr: bool, s: seq<Byte>)
    requires LF !in s
    ensures FixBreaks(afterCr, s) == s
    decreases |s|
  {
    if s != [] {
      FixLast(s[0] == CR, s[1..]);
    }
  }

  /** Substitutions 1 and 2 on the first line: its text, CR, LF, and the rest likewise. */
  lemma FixedFirstLine(line: seq<Byte>, rest: seq<Byte>)
    requires LF !in line
    ensures FixBreaks(false, line + [LF] + rest) == DropCr(line) + CRLF + FixBreaks(false, rest)
  {
    FixFirstLine(false, line, rest);
    if line != [] {
      FixedLineIs(line);
    } else {
      assert DropCr([]) + CRLF == CRLF;
    }
  }

  // ----- Substitution 3 ends the last line -----

  /** Every LF of `s` follows a CR; `afterCr` says whether the byte before `s` is one. */
  ghost predicate LfOk(afterCr: bool, s: seq<Byte>)
    decreases |s|
  {
    s == [] || ((s[0] == LF ==> afterCr) && LfOk(s[0] == CR, s[1..]))
  }

  lemma {:induction false} FixedIsLfOk(afterCr: bool, s: seq<Byte>)
    ensures LfOk(afterCr, FixBreaks(afterCr, s))
    decreases |s|
  {
    if s != [] {
      if s[0] == LF && !afterCr {
        var rest := FixBreaks(false, s[1..]);
        FixedIsLfOk(false, s[1..]);
        assert (CRLF + rest)[1..] == [LF] + rest && ([LF] + rest)[1..] == rest;
        assert LfOk(true, [LF] + rest);
      } else {
        FixedIsLfOk(s[0] == CR, s[1..]);
        assert FixBreaks(afterCr, s)[1..] == FixBreaks(s[0] == CR, s[1..]);
      }
    }
  }

  predicate Open(s: seq<Byte>) {
    s != [] && !Break(s[|s| - 1])
  }

  lemma {:induction false} Sub3Closes(afterCr: bool, s: seq<Byte>)
    requires LfOk(afterCr, s)
    ensures Sub3(s) == if Open(s) then s + CRLF else s
    decreases |s|
  {
    if |s| == 1 {
      assert s == [s[0]] && Sub3(s[1..]) == [];
    } else if |s| > 1 {
      Sub3Closes(s[0] == CR, s[1..]);
      assert s == [s[0]] + s[1..];
    }
  }

  // ----- Substitutions 4 and 5 work line by line -----

  lemma {:induction false} BlankRunAll(s: seq<Byte>)
    ensures BlankRun(s) == |s| <==> TrimRight(s) == []
    decreases |s|
  {
    if s != [] {
      var n := |s| - 1;
      if Blank(s[n]) {
        BlankRunAll(s[..n]);
        BlankRunPrefix(s[..n], s[n..]);
        assert s[..n] + s[n..] == s;
      }
    }
  }

  lemma {:induction false} BlankRunPrefix(a: seq<Byte>, b: seq<Byte>)
    ensures BlankRun(a + b) == if BlankRun(a) == |a| then |a| + BlankRun(b) else BlankRun(a)
  {
    if a == [] {
      assert a + b == b;
    } else if Blank(a[0]) {
      assert (a + b)[1..] == a[1..] + b;
      BlankRunPrefix(a[1..], b);
    }
  }

  lemma TrimRightOnce(s: seq<Byte>)
    ensures s == [] ==> TrimRight(s) == s
    ensures s != [] ==> TrimRight(s) == if Blank(s[|s| - 1]) then TrimRight(s[..|s| - 1]) else s
  {
  }

  lemma {:induction false} TrimRightCons(s: seq<Byte>)
    requires s != [] && TrimRight(s) != []
    ensures TrimRight(s) == [s[0]] + TrimRight(s[1..])
    decreases |s|
  {
    var n := |s| - 1;
    TrimRightOnce(s);
    TrimRightOnce(s[1..]);
    hide TrimRight, Blank;
    if n > 0 && Blank(s[n]) {
      TrimRightCons(s[..n]);
      assert s[1..][..n - 1] == s[..n][1..];
    }
  }

  lemma Sub4Single(s: seq<Byte>)
    requires s != [] && !Blank(s[0])
    ensures Sub4(s) == [s[0]] + Sub4(s[1..])
  {
  }

  lemma Sub4Match(s: seq<Byte>)
    requires 0 < BlankRun(s) && StartsCrLf(s[BlankRun(s)..])
    ensures Sub4(s) == CRLF + Sub4(s[BlankRun(s) + 2..])
  {
  }

  lemma Sub4Crlf(rest: seq<Byte>)
    ensures Sub4(CRLF + rest) == CRLF + Sub4(rest)
  {
    hide Sub4;
    Sub4Single(CRLF + rest);
    Sub4Single([LF] + rest);
    assert (CRLF + rest)[1..] == [LF] + rest && ([LF] + rest)[1..] == rest;
    assert [CR] + ([LF] + Sub4(rest)) == CRLF + Sub4(rest);
  }

  /** A line of nothing but blanks goes at once. */
  lemma Sub4AllBlank(text: seq<Byte>, rest: seq<Byte>)
    requires BlankRun(text) == |text|
    ensures Sub4(text + CRLF + rest) == CRLF + Sub4(rest)
  {
    hide Sub4;
    var s := text + CRLF + rest;
    assert s == text + (CRLF + rest);
    if text == [] {
      assert s == CRLF + rest;
      Sub4Crlf(rest);
    } else {
      BlankRunPrefix(text, CRLF + rest);
      assert s[|text|..] == CRLF + rest && s[|text| + 2..] == rest;
      Sub4Match(s);
    }
  }

  /** Otherwise its first byte stays. */
  lemma Sub4FirstStays(text: seq<Byte>, rest: seq<Byte>)
    requires LF !in text && BlankRun(text) < |text|
    ensures Sub4(text + CRLF + rest) == [text[0]] + Sub4(text[1..] + CRLF + rest)
  {
    var s, n := text + CRLF + rest, BlankRun(text);
    assert s == text + (CRLF + rest);
    BlankRunPrefix(text, CRLF + rest);
    assert s[n + 1] == if n + 1 < |text| then text[n + 1] else CR;
    assert !StartsCrLf(s[n..]);
    assert s[1..] == text[1..] + CRLF + rest;
  }

  /** Trailing blanks of a line go; nothing else of it does. */
  lemma {:induction false} Sub4Line(text: seq<Byte>, rest: seq<Byte>)
    requires LF !in text
    ensures Sub4(text + CRLF + rest) == TrimRight(text) + CRLF + Sub4(rest)
    decreases |text|
  {
    hide Sub4, TrimRight;
    BlankRunAll(text);
    if BlankRun(text) == |text| {
      Sub4AllBlank(text, rest);
      assert [] + CRLF == CRLF;
    } else {
      Sub4FirstStays(text, rest);
      TrimRightCons(text);
      Sub4Line(text[1..], rest);
      assert [text[0]] + (TrimRight(text[1..]) + CRLF + Sub4(rest)) == TrimRight(text) + CRLF + Sub4(rest);
    }
  }

  lemma {:induction false} Sub4Last(text: seq<Byte>)
    requires LF !in text
    ensures Sub4(text) == text
  {
    if text != [] {
      var n := BlankRun(text);
      assert !StartsCrLf(text[n..]);
      Sub4Last(text[1..]);
    }
  }

  lemma {:induction false} Sub5Append(a: seq<Byte>, b: seq<Byte>)
    ensures Sub5(a + b) == Sub5(a) + Sub5(b)
  {
    if a == [] {
      assert a + b == b;
    } else {
      assert (a + b)[1..] == a[1..] + b;
      Sub5Append(a[1..], b);
    }
  }

  lemma Sub5Crlf()
    ensures Sub5(CRLF) == CRLF
  {
    assert CRLF[1..] == [LF] && [LF][1..] == [];
    assert Sub5([LF]) == [LF];
  }

  /** Substitutions 3 to 5 together. */
  function Finish(fixed: seq<Byte>): (t: seq<Byte>)
  {
    Sub5(Sub4(if Open(fixed) then fixed + CRLF else fixed))
  }

  lemma FinishLine(text: seq<Byte>, rest: seq<Byte>)
    requires LF !in text
    ensures Finish(text + CRLF + rest) == TidyLine(text) + Finish(rest)
  {
    var s := text + CRLF + rest;
    var rest' := if Open(rest) then rest + CRLF else rest;
    assert (if Open(s) then s + CRLF else s) == text + CRLF + rest';
    Sub4Line(text, rest');
    Sub5Append(TrimRight(text) + CRLF, Sub4(rest'));
    Sub5Append(TrimRight(text), CRLF);
    Sub5Crlf();
  }

  lemma FinishLast(text: seq<Byte>)
    requires LF !in text
    ensures Finish(text) == TidyLast(text)
  {
    if Open(text) {
      assert text + CRLF == text + CRLF + [];
      Sub4Line(text, []);
      assert TrimRight(text) + CRLF + Sub4([]) == TrimRight(text) + CRLF;
      Sub5Append(TrimRight(text), CRLF);
      Sub5Crlf();
    } else {
      Sub4Last(text);
    }
  }

  lemma {:induction false} FinishIsFormatLines(s: seq<Byte>)
    ensures Finish(FixBreaks(false, s)) == FormatLines(s)
    decreases |s|
  {
    hide Finish, TidyLine, TidyLast;
    var n := LineLength(s);
    if n == |s| {
      assert s[..n] == s;
      FixLast(false, s);
      FinishLast(s);
    } else {
      var line, rest := s[..n], s[n + 1..];
      assert s == line + [LF] + rest;
      FixedFirstLine(line, rest);
      FinishLine(DropCr(line), FixBreaks(false, rest));
      FinishIsFormatLines(rest);
    }
  }

  /** The five substitutions in a row are the plain formatter, on every byte string. */
  lemma FormatFileIsFormatLines(s: seq<Byte>)
    ensures FormatFile(s) == FormatLines(s)
  {
    var fixed := FixBreaks(false, s);
    Subs12(true, false, s);
    FixedIsLfOk(false, s);
    Sub3Closes(false, fixed);
    FinishIsFormatLines(s);
  }

  // ----- What a formatted file is -----

  /** Every LF follows a CR, no tab, no space before CR LF, and the end is CR, LF or nothing. */
  ghost predicate NormalForm(s: seq<Byte>) {
    && (forall i :: 0 <= i < |s| && s[i] == LF ==> i > 0 && s[i - 1] == CR)
    && TAB !in s
    && (forall i :: 0 <= i < |s| - 2 && s[i] == SPACE ==> !(s[i + 1] == CR && s[i + 2] == LF))
    && (s == [] || Break(s[|s| - 1]))
  }

  lemma {:induction false} Sub5Bytes(s: seq<Byte>)
    ensures TAB !in Sub5(s) && (LF !in s ==> LF !in Sub5(s))
    ensures s != [] ==> Sub5(s) != [] && (!Blank(s[|s| - 1]) ==> Sub5(s)[|Sub5(s)| - 1] == s[|s| - 1])
  {
    if s != [] {
      Sub5Bytes(s[1..]);
    }
  }

  /** A tidy line with a normal file behind it is normal. */
  lemma NormalAppend(text: seq<Byte>, rest: seq<Byte>)
    requires LF !in text && TAB !in text && (text != [] ==> text[|text| - 1] != SPACE) && NormalForm(rest)
    ensures NormalForm(text + CRLF + rest)
  {
    var s, n := text + CRLF + rest, |text|;
    forall i | 0 <= i < |s| && s[i] == LF
      ensures i > 0 && s[i - 1] == CR
    {
      if i >= n + 2 {
        assert s[i] == rest[i - n - 2];
        assert i > n + 2 ==> s[i - 1] == rest[i - n - 3];
      }
    }
    forall i | 0 <= i < |s| - 2 && s[i] == SPACE
      ensures !(s[i + 1] == CR && s[i + 2] == LF)
    {
      if i >= n + 2 {
        assert s[i] == rest[i - n - 2] && s[i + 1] == rest[i - n - 1] && s[i + 2] == rest[i - n];
      } else {
        assert i < n - 1 && (i + 2 < n ==> s[i + 2] == text[i + 2]);
      }
    }
    assert rest != [] ==> s[|s| - 1] == rest[|rest| - 1];
  }

  lemma TidyNormal(text: seq<Byte>, rest: seq<Byte>)
    requires LF !in text && NormalForm(rest)
    ensures NormalForm(TidyLine(text) + rest)
  {
    var t := Sub5(TrimRight(text));
    Sub5Bytes(TrimRight(text));
    NormalAppend(t, rest);
  }

  lemma LastNormal(text: seq<Byte>)
    requires LF !in text
    ensures NormalForm(TidyLast(text))
  {
    if text != [] {
      if text[|text| - 1] == CR {
        Sub5Bytes(text);
      } else {
        TidyNormal(text, []);
        assert TidyLine(text) + [] == TidyLine(text);
      }
    }
  }

  lemma {:induction false} LinesNormal(s: seq<Byte>)
    ensures NormalForm(FormatLines(s))
    decreases |s|
  {
    hide NormalForm, TidyLine, TidyLast, FormatLines, LineLength;
    var n := LineLength(s);
    FormatLinesIs(s);
    if n == |s| {
      assert s[..n] == s;
      LastNormal(s);
    } else {
      LinesNormal(s[n + 1..]);
      TidyNormal(DropCr(s[..n]), FormatLines(s[n + 1..]));
    }
  }

  // ----- Formatting again changes nothing -----

  lemma {:induction false} Sub5Idle(s: seq<Byte>)
    requires TAB !in s
    ensures Sub5(s) == s
  {
    if s != [] {
      Sub5Idle(s[1..]);
    }
  }

  lemma {:induction false} LineLengthIs(line: seq<Byte>, rest: seq<Byte>)
    requires LF !in line
    ensures LineLength(line + [LF] + rest) == |line|
  {
    var s := line + [LF] + rest;
    if line != [] {
      assert s[1..] == line[1..] + [LF] + rest;
      LineLengthIs(line[1..], rest);
    }
  }

  lemma {:induction false} LineLengthAll(s: seq<Byte>)
    requires LF !in s
    ensures LineLength(s) == |s|
  {
    if s != [] {
      LineLengthAll(s[1..]);
    }
  }

  /** The text of a tidy line is left as it is. */
  lemma TidyAgain(text: seq<Byte>)
    requires LF !in text
    ensures var t := Sub5(TrimRight(text));
            LF !in t && TidyLine(DropCr(t + [CR])) == t + CRLF
  {
    var t := Sub5(TrimRight(text));
    Sub5Bytes(TrimRight(text));
    assert TrimRight(t) == t;
    Sub5Idle(t);
    assert DropCr(t + [CR]) == t;
  }

  lemma FormatFirstLine(line: seq<Byte>, rest: seq<Byte>)
    requires LF !in line
    ensures FormatLines(line + [LF] + rest) == TidyLine(DropCr(line)) + FormatLines(rest)
  {
    hide TidyLine, DropCr;
    var s := line + [LF] + rest;
    LineLengthIs(line, rest);
    assert s[..|line|] == line && s[|line| + 1..] == rest;
  }

  lemma FormatTidyLine(text: seq<Byte>, rest: seq<Byte>)
    requires LF !in text
    ensures FormatLines(TidyLine(text) + rest) == TidyLine(text) + FormatLines(rest)
  {
    hide FormatLines;
    var t := Sub5(TrimRight(text));
    TidyAgain(text);
    FormatFirstLine(t + [CR], rest);
    assert TidyLine(text) + rest == (t + [CR]) + [LF] + rest;
  }

  lemma FormatTidyLast(text: seq<Byte>)
    requires LF !in text
    ensures FormatLines(TidyLast(text)) == TidyLast(text)
  {
    if text != [] {
      if text[|text| - 1] == CR {
        var t := Sub5(text);
        Sub5Bytes(text);
        LineLengthAll(t);
        Sub5Idle(t);
      } else {
        FormatTidyLine(text, []);
        assert TidyLine(text) + [] == TidyLine(text);
      }
    }
  }

  lemma {:induction false} LinesIdempotent(s: seq<Byte>)
    ensures FormatLines(FormatLines(s)) == FormatLines(s)
    decreases |s|
  {
    hide TidyLine, TidyLast;
    var n := LineLength(s);
    if n == |s| {
      assert s[..n] == s;
      FormatTidyLast(s);
    } else {
      LinesIdempotent(s[n + 1..]);
      FormatTidyLine(DropCr(s[..n]), FormatLines(s[n + 1..]));
    }
  }

  // ----- Nothing but breaks and blanks is added or lost -----

  function Ink(s: seq<Byte>): (t: seq<Byte>)
  {
    if s == [] then [] else (if Break(s[0]) || Blank(s[0]) then [] else [s[0]]) + Ink(s[1..])
  }

  lemma {:induction false} InkAppend(a: seq<Byte>, b: seq<Byte>)
    ensures Ink(a + b) == Ink(a) + Ink(b)
  {
    if a == [] {
      assert a + b == b;
    } else {
      assert (a + b)[1..] == a[1..] + b;
      InkAppend(a[1..], b);
    }
  }

  lemma InkOne(c: Byte)
    requires Break(c) || Blank(c)
    ensures Ink([c]) == []
  {
    assert [c][1..] == [];
  }

  lemma {:induction false} InkSub5(s: seq<Byte>)
    ensures Ink(Sub5(s)) == Ink(s)
  {
    hide Ink;
    if s == [] {
    } else {
      var t := Sub5(s[1..]);
      InkSub5(s[1..]);
      assert s == [s[0]] + s[1..];
      InkAppend([s[0]], s[1..]);
      if s[0] == TAB {
        InkAppend([SPACE, SPACE], t);
        InkAppend([SPACE], [SPACE]);
        InkOne(SPACE);
        InkOne(TAB);
        assert [SPACE] + [SPACE] == [SPACE, SPACE];
      } else {
        InkAppend([s[0]], t);
      }
    }
  }

  lemma {:induction false} InkTrimRight(s: seq<Byte>)
    ensures Ink(TrimRight(s)) == Ink(s)
  {
    if s != [] && Blank(s[|s| - 1]) {
      var n := |s| - 1;
      InkTrimRight(s[..n]);
      InkAppend(s[..n], [s[n]]);
      InkOne(s[n]);
      assert s[..n] + [s[n]] == s;
    }
  }

  lemma InkCrlf()
    ensures Ink(CRLF) == []
  {
    InkAppend([CR], [LF]);
    InkOne(CR);
    InkOne(LF);
    assert [CR] + [LF] == CRLF;
  }

  lemma InkTidyLine(text: seq<Byte>)
    ensures Ink(TidyLine(text)) == Ink(text)
  {
    InkTrimRight(text);
    InkSub5(TrimRight(text));
    InkAppend(Sub5(TrimRight(text)), CRLF);
    InkCrlf();
  }

  lemma InkDropCr(line: seq<Byte>)
    ensures Ink(DropCr(line)) == Ink(line)
  {
    if line != [] && line[|line| - 1] == CR {
      var n := |line| - 1;
      InkAppend(line[..n], [CR]);
      InkOne(CR);
      assert line[..n] + [CR] == line;
    }
  }

  lemma LastKeepsInk(s: seq<Byte>)
    ensures Ink(TidyLast(s)) == Ink(s)
  {
    hide TidyLine, Ink;
    InkTidyLine(s);
    InkSub5(s);
  }

  lemma {:induction false} LinesKeepInk(s: seq<Byte>)
    ensures Ink(FormatLines(s)) == Ink(s)
    decreases |s|
  {
    hide TidyLine, Ink, DropCr, FormatLines, TidyLast, LineLength;
    var n := LineLength(s);
    FormatLinesIs(s);
    if n == |s| {
      LastKeepsInk(s);
    } else {
      var line, rest := s[..n], s[n + 1..];
      LinesKeepInk(rest);
      InkDropCr(line);
      InkTidyLine(DropCr(line));
      InkAppend(TidyLine(DropCr(line)), FormatLines(rest));
      InkAppend(line + [LF], rest);
      InkAppend(line, [LF]);
      InkOne(LF);
      assert line + [LF] + rest == s;
    }
  }

  /**
   A line of text without trailing blanks, whichever way it ends, comes out with its tabs
   as two spaces each and the end 0x0d, 0x0a.
   */
  lemma FormatOneLine(text: seq<Byte>)
    requires 0x0d !in text && 0x0a !in text && text != [] && !Blank(text[|text| - 1])
    ensures FormatFile(text + [0x0d, 0x0a]) == Joined(Pieces(text)) + [0x0d, 0x0a]
    ensures FormatFile(text + [0x0a]) == Joined(Pieces(text)) + [0x0d, 0x0a]
    ensures FormatFile(text) == Joined(Pieces(text)) + [0x0d, 0x0a]
  {
    hide FormatFile, FormatLines, Pieces, Joined;
    FormatFileIsFormatLines(text + [0x0d, 0x0a]);
    FormatFileIsFormatLines(text + [0x0a]);
    FormatFileIsFormatLines(text);
    TidyIs(text);
    EndedLine(text, text + [0x0d]);
    assert text + [0x0d] + [0x0a] == text + [0x0d, 0x0a];
    EndedLine(text, text);
    OpenLine(text);
  }

  lemma TidyIs(text: seq<Byte>)
    requires text != [] && !Blank(text[|text| - 1])
    ensures TidyLine(text) == Joined(Pieces(text)) + [0x0d, 0x0a]
  {
    hide Pieces, Joined, Sub5;
    TrimNothing(text);
    Sub5IsJoin(text);
  }

  lemma OpenLine(text: seq<Byte>)
    requires LF !in text && CR !in text && text != []
    ensures FormatLines(text) == TidyLine(text)
  {
    hide FormatLines, TidyLine, LineLength;
    NoLineEnd(text);
    FormatLinesIs(text);
    assert text[|text| - 1] in text;
  }

  lemma TrimNothing(text: seq<Byte>)
    requires text != [] && !Blank(text[|text| - 1])
    ensures TrimRight(text) == text
  {
  }

  lemma {:induction false} NoLineEnd(s: seq<Byte>)
    requires LF !in s
    ensures LineLength(s) == |s|
  {
    if s != [] {
      NoLineEnd(s[1..]);
    }
  }

  lemma EndedLine(text: seq<Byte>, line: seq<Byte>)
    requires LF !in text && CR !in text && (line == text || line == text + [CR])
    ensures FormatLines(line + [LF]) == TidyLine(text)
  {
    hide TidyLine, FormatLines;
    assert line + [LF] + [] == line + [LF];
    LineLengthIs(line, []);
    FormatLinesIs(line + [LF]);
    FormatLinesIs([]);
    assert (line + [LF])[..|line|] == line && (line + [LF])[|line| + 1..] == [];
    assert DropCr(line) == text;
    assert TidyLine(text) + [] == TidyLine(text);
  }

  /**
   For every file: the result is in normal form, formatting it again changes nothing, and
   apart from CR, LF, space and tab it holds the same bytes in the same order.
   */
  lemma FormatFileCorrect(s: seq<Byte>)
    ensures NormalForm(FormatFile(s))
    ensures FormatFile(FormatFile(s)) == FormatFile(s)
    ensures Ink(FormatFile(s)) == Ink(s)
  {
    hide NormalForm, Ink, FormatFile, FormatLines;
    FormatFileIsFormatLines(s);
    FormatFileIsFormatLines(FormatFile(s));
    LinesNormal(s);
    LinesIdempotent(s);
    LinesKeepInk(s);
  }
}
