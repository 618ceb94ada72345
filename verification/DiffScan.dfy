/**
 GitDiffCheck: the line-by-line scanner of a git diff, proved against a description of
 which lines are checked under which rules that never mentions the scanner's state.
 */
module DiffScan {
  import opened Bytes
  import opened Text

  // ----- Lines -----

  predicate IsDiff(l: string) { "diff --git" <= l }

  predicate IsHunk(l: string) { "@@ " <= l }

  predicate IsBinary(l: string) { "GIT binary patch" <= l || "Binary files" <= l }

  predicate IsSubmodule(l: string) { "new file mode 160000" <= l }

  const PRE_PATCH_PREFIXES := ["--- ", "+++ ", "index ", "new file ", "deleted file ", "old mode ", "new mode ",
                               "similarity index ", "copy from ", "copy to ", "rename "]

  predicate IsPrePatch(l: string) { exists p <- PRE_PATCH_PREFIXES :: p <= l }

  /** The lines git writes that the scanner knows, whatever follows. */
  lemma KnownLines(rest: string)
    ensures IsDiff("diff --git" + rest) && IsHunk("@@ " + rest)
    ensures IsBinary("GIT binary patch" + rest) && IsBinary("Binary files" + rest)
    ensures IsSubmodule("new file mode 160000" + rest)
    ensures IsPrePatch("--- " + rest) && IsPrePatch("+++ " + rest) && IsPrePatch("index " + rest)
    ensures IsPrePatch("new file " + rest) && IsPrePatch("deleted file " + rest)
    ensures IsPrePatch("old mode " + rest) && IsPrePatch("new mode " + rest) && IsPrePatch("similarity index " + rest)
    ensures IsPrePatch("copy from " + rest) && IsPrePatch("copy to " + rest) && IsPrePatch("rename " + rest)
  {
    StartsPrePatch("--- ", rest);
    StartsPrePatch("+++ ", rest);
    StartsPrePatch("index ", rest);
    StartsPrePatch("new file ", rest);
    StartsPrePatch("deleted file ", rest);
    StartsPrePatch("old mode ", rest);
    StartsPrePatch("new mode ", rest);
    StartsPrePatch("similarity index ", rest);
    StartsPrePatch("copy from ", rest);
    StartsPrePatch("copy to ", rest);
    StartsPrePatch("rename ", rest);
  }

  lemma StartsPrePatch(p: string, rest: string)
    requires p in PRE_PATCH_PREFIXES
    ensures IsPrePatch(p + rest)
  {
    assert p <= p + rest;
  }

  /** line[13:].split(' ', 1)[0] */
  function FileName(l: string): (name: string)
  {
    Before(if |l| < 13 then "" else l[13..], ' ')
  }

  /** On a header as git writes it, the name is the first path without its "a/". */
  lemma {:induction false} FileNameOf(name: string, rest: string)
    requires ' ' !in name
    ensures FileName("diff --git a/" + name + " " + rest) == name
  {
    var header := "diff --git a/";
    var line := header + name + " " + rest;
    assert |header| == 13;
    assert line[13..] == name + " " + rest;
    BeforeSpace(name, rest);
  }

  lemma {:induction false} BeforeSpace(name: string, rest: string)
    requires ' ' !in name
    ensures Before(name + " " + rest, ' ') == name
  {
    if name != "" {
      assert (name + " " + rest)[1..] == name[1..] + " " + rest;
      BeforeSpace(name[1..], rest);
    }
  }

  predicate EndsWith(s: string, e: string) {
    |e| <= |s| && s[|s| - |e|..] == e
  }

  // ----- Which lines are where -----

  predicate Marker(l: string) { IsDiff(l) || IsHunk(l) || IsBinary(l) }

  /** The last line before `n` that opens a file, a text hunk or a binary hunk; -1 if none. */
  function LastMarker(lines: seq<string>, n: nat): (i: int)
    requires n <= |lines|
    ensures -1 <= i < n && (i >= 0 ==> Marker(lines[i]))
    ensures forall j :: i < j < n ==> !Marker(lines[j])
  {
    if n == 0 then -1 else if Marker(lines[n - 1]) then n - 1 else LastMarker(lines, n - 1)
  }

  /** The last line before `n` that opens a file; -1 if none. */
  function LastDiff(lines: seq<string>, n: nat): (i: int)
    requires n <= |lines|
    ensures -1 <= i <= LastMarker(lines, n) && (i >= 0 ==> IsDiff(lines[i]))
    ensures forall j :: i < j < n ==> !IsDiff(lines[j])
  {
    if n == 0 then -1 else if IsDiff(lines[n - 1]) then n - 1 else LastDiff(lines, n - 1)
  }

  datatype Mode = START | PRE_PATCH | PATCH

  function ModeAt(lines: seq<string>, n: nat): (m: Mode)
    requires n <= |lines|
  {
    if LastDiff(lines, n) < 0 then START
    else if IsDiff(lines[LastMarker(lines, n)]) then PRE_PATCH
    else PATCH
  }

  /** Line `n` is in a text hunk: the last marker before it is a hunk header of some file. */
  predicate InText(lines: seq<string>, n: nat)
    requires n <= |lines|
  {
    ModeAt(lines, n) == PATCH && IsHunk(lines[LastMarker(lines, n)])
  }

  predicate Added(lines: seq<string>, i: nat)
    requires i < |lines|
  {
    InText(lines, i) && "+" <= lines[i]
  }

  /** The rules in force: a submodule announced in the file's header, or an exempt name, lifts them. */
  predicate ForceCrlf(lines: seq<string>, n: nat)
    requires n <= |lines| && LastDiff(lines, n) >= 0
  {
    var d := LastDiff(lines, n);
    var name := FileName(lines[d]);
    && !EndsWith(name, ".sh") && name != ".gitmodules"
    && forall j :: d < j < n && IsSubmodule(lines[j]) ==> LastMarker(lines, j) != d
  }

  predicate ForceNotabs(lines: seq<string>, n: nat)
    requires n <= |lines| && LastDiff(lines, n) >= 0
  {
    FileName(lines[LastDiff(lines, n)]) != ".gitmodules"
  }

  /** Text in a hunk that cannot belong to it ends the patch. */
  predicate EndsPatch(lines: seq<string>, i: nat)
    requires i < |lines|
  {
    var l := lines[i];
    && InText(lines, i) && !IsDiff(l) && !IsHunk(l)
    && l != "" && l[0] !in " -+" && !("\r\n" <= l) && !("\\ No newline " <= l)
  }

  /** Which lines of a text hunk belong to it: a header, an empty line, or one that starts as a hunk's lines do. */
  lemma EndsPatchIff(lines: seq<string>, i: nat)
    requires i < |lines| && InText(lines, i)
    ensures var l := lines[i];
            EndsPatch(lines, i) <==>
              !(l == "" || IsDiff(l) || IsHunk(l) || " " <= l || "-" <= l || "+" <= l || "\r\n" <= l || "\\ No newline " <= l)
  {
    hide InText;
    var l := lines[i];
    if l != "" {
      assert " " <= l <==> l[0] == ' ';
      assert "-" <= l <==> l[0] == '-';
      assert "+" <= l <==> l[0] == '+';
    }
  }

  /** A line that is no part of a diff: text before the first file, or an unknown header line. */
  predicate BadLine(lines: seq<string>, i: nat)
    requires i < |lines|
  {
    var l := lines[i];
    && !IsDiff(l)
    && match ModeAt(lines, i) {
         case START => Rstrip(l) != ""
         case PRE_PATCH => !IsHunk(l) && !IsBinary(l) && !IsSubmodule(l) && !IsPrePatch(l)
         case PATCH => false
       }
  }

  /** The first line from `i` on that stops the scan, or the number of lines. */
  function FirstHalt(lines: seq<string>, i: nat): (k: nat)
    requires i <= |lines|
    ensures i <= k <= |lines| && (k < |lines| ==> EndsPatch(lines, k) || BadLine(lines, k))
    ensures forall j :: i <= j < k ==> !EndsPatch(lines, j) && !BadLine(lines, j)
    decreases |lines| - i
  {
    hide EndsPatch, BadLine;
    if i == |lines| || EndsPatch(lines, i) || BadLine(lines, i) then i else FirstHalt(lines, i + 1)
  }

  function AddedBefore(lines: seq<string>, n: nat): (s: seq<nat>)
    requires n <= |lines|
  {
    if n == 0 then [] else AddedBefore(lines, n - 1) + if Added(lines, n - 1) then [n - 1] else []
  }

  /** Each added line is in the list, once and in order, and nothing else is. */
  lemma {:induction false} AddedBeforeIs(lines: seq<string>, n: nat)
    requires n <= |lines|
    ensures forall i :: i in AddedBefore(lines, n) <==> 0 <= i < n && Added(lines, i)
    ensures forall x, y :: 0 <= x < y < |AddedBefore(lines, n)| ==> AddedBefore(lines, n)[x] < AddedBefore(lines, n)[y]
  {
    hide Added;
    if n > 0 {
      AddedBeforeIs(lines, n - 1);
      var prev := AddedBefore(lines, n - 1);
      assert forall x :: 0 <= x < |prev| ==> prev[x] in prev;
    }
  }

  predicate FormatFine(lines: seq<string>) {
    var stop := FirstHalt(lines, 0);
    stop == |lines| || (EndsPatch(lines, stop) && forall j :: stop < j < |lines| ==> !IsDiff(lines[j]))
  }

  // ----- The rules for an added line -----

  const LINE_ENDINGS := ["\r\n", "\n\r", "\n", "\r"]

  /** The line ending and the text after the endings from `k` on have been tried in turn. */
  function StripEndings(eol: string, line: string, k: nat): (r: (string, string))
    requires k <= 4
    decreases 4 - k
  {
    if k == 4 then (eol, line)
    else if EndsWith(line, LINE_ENDINGS[k])
    then StripEndings(LINE_ENDINGS[k], line[..|line| - |LINE_ENDINGS[k]|], k + 1)
    else StripEndings(eol, line, k + 1)
  }

  /** old_debug_re.search is given. */
  predicate LineFine(line: string, forceCrlf: bool, forceNotabs: bool, oldDebug: string -> bool) {
    var (eol, text) := StripEndings("", line, 0);
    && (forceCrlf ==> eol == "\r\n")
    && (forceNotabs ==> '\t' !in text)
    && Rstrip(text) == text
    && !oldDebug(text)
  }

  ghost predicate AddedFine(lines: seq<string>, n: nat, oldDebug: string -> bool)
    requires n <= |lines|
  {
    forall i :: 0 <= i < n && Added(lines, i) ==>
      LineFine(lines[i][1..], ForceCrlf(lines, i), ForceNotabs(lines, i), oldDebug)
  }

  // ----- How one line changes where the next one is -----

  lemma NextMode(lines: seq<string>, n: nat)
    requires n < |lines|
    ensures var l := lines[n];
            ModeAt(lines, n + 1) ==
              if IsDiff(l) then PRE_PATCH
              else if ModeAt(lines, n) == PRE_PATCH && (IsHunk(l) || IsBinary(l)) then PATCH
              else ModeAt(lines, n)
    ensures var l := lines[n];
            ModeAt(lines, n + 1) == PATCH ==>
              (InText(lines, n + 1) <==> IsHunk(l) || (InText(lines, n) && !IsBinary(l)))
    ensures LastDiff(lines, n + 1) == if IsDiff(lines[n]) then n else LastDiff(lines, n)
  {
  }

  lemma NextRules(lines: seq<string>, n: nat)
    requires n < |lines| && LastDiff(lines, n + 1) >= 0
    ensures var l := lines[n];
            if IsDiff(l) then
              var name := FileName(l);
              && ForceCrlf(lines, n + 1) == (!EndsWith(name, ".sh") && name != ".gitmodules")
              && ForceNotabs(lines, n + 1) == (name != ".gitmodules")
            else
              && LastDiff(lines, n) >= 0
              && ForceCrlf(lines, n + 1) == (ForceCrlf(lines, n) && !(IsSubmodule(l) && ModeAt(lines, n) == PRE_PATCH))
              && ForceNotabs(lines, n + 1) == ForceNotabs(lines, n)
  {
    var d := LastDiff(lines, n + 1);
    if !IsDiff(lines[n]) {
      assert ModeAt(lines, n) == PRE_PATCH <==> LastMarker(lines, n) == d;
    }
  }

  class GitDiffCheck {
    const lines: seq<string>
    const oldDebug: string -> bool
    var ok: bool
    var formatOk: bool
    var lineNum: nat
    var state: Mode
    // attributes that the constructor does not set
    var filename: Option<string>
    var forceCrlf: Option<bool>
    var forceNotabs: Option<bool>
    var binary: Option<bool>
    /** The line numbers given to check_added_line, in order. */
    var checked: seq<nat>

    ghost predicate Input() {
      forall l <- lines :: l != ""
    }

    /** Whenever the scanner is past START the file's attributes are set, and in PATCH so is binary. */
    ghost predicate AttributesSet()
      reads this
    {
      && (state != START ==> filename.Some? && forceCrlf.Some? && forceNotabs.Some?)
      && (state == PATCH ==> binary.Some?)
    }

    /** The attributes hold what the lines so far say. */
    ghost predicate Tracks()
      reads this
    {
      && lineNum <= |lines|
      && state == ModeAt(lines, lineNum)
      && (state != START ==>
            && filename == Some(FileName(lines[LastDiff(lines, lineNum)]))
            && forceCrlf == Some(ForceCrlf(lines, lineNum))
            && forceNotabs == Some(ForceNotabs(lines, lineNum)))
      && (state == PATCH ==> binary == Some(!InText(lines, lineNum)))
    }

    /** Every line so far was looked at and none stopped the scan. */
    ghost predicate Scanning()
      reads this
    {
      && Tracks() && formatOk
      && lineNum <= FirstHalt(lines, 0)
      && checked == AddedBefore(lines, lineNum)
      && (ok <==> AddedFine(lines, lineNum, oldDebug))
    }

    /** The scan is over: what was checked, and the verdicts. */
    ghost predicate Finished()
      reads this
    {
      var stop := FirstHalt(lines, 0);
      && (lineNum == |lines| || !formatOk)
      && formatOk == FormatFine(lines)
      && checked == AddedBefore(lines, stop)
      && (ok <==> formatOk && AddedFine(lines, stop, oldDebug))
    }

    method Error()
      modifies this`ok
      ensures !ok
    {
      ok := false;
    }

    method FormatError()
      modifies this`ok, this`formatOk
      ensures !ok && !formatOk
    {
      formatOk := false;
      Error();
    }

    /** check_added_line */
    method CheckAddedLine(added: string)
      requires forceCrlf.Some? && forceNotabs.Some?
      modifies this`ok
      ensures ok == (old(ok) && LineFine(added, forceCrlf.value, forceNotabs.value, oldDebug))
    {
      var eol, line := "", added;
      var k := 0;
      while k < 4
        invariant 0 <= k <= 4 && ok == old(ok)
        invariant StripEndings("", added, 0) == StripEndings(eol, line, k)
      {
        if EndsWith(line, LINE_ENDINGS[k]) {
          eol, line := LINE_ENDINGS[k], line[..|line| - |LINE_ENDINGS[k]|];
        }
        k := k + 1;
      }
      var stripped := Rstrip(line);
      if forceCrlf.value && eol != "\r\n" {
        Error();
      }
      if forceNotabs.value && '\t' in line {
        Error();
      }
      if |stripped| < |line| {
        Error();
      }
      if oldDebug(line) {
        Error();
      }
    }

    /** The START branch of run. */
    method RunStart()
      requires lineNum < |lines| && Scanning() && (state == START || IsDiff(lines[lineNum]))
      modifies this
      ensures lineNum == old(lineNum) + 1 && AttributesSet() && (Scanning() || (!formatOk && Finished()))
    {
      hide AddedFine, AddedBefore, FileName, EndsWith, FirstHalt, IsDiff, Rstrip, ModeAt, InText, LastDiff, LastMarker,
        ForceCrlf, ForceNotabs, FormatFine, EndsPatch, BadLine, Added;
      var line := lines[lineNum];
      NextMode(lines, lineNum);
      Quiet(lines, lineNum, oldDebug);
      StartLine(lines, lineNum);
      if IsDiff(line) {
        NextRules(lines, lineNum);
        state := PRE_PATCH;
        filename := Some(FileName(line));
        forceCrlf := Some(true);
        forceNotabs := Some(true);
        if EndsWith(filename.value, ".sh") {
          forceCrlf := Some(false);
        }
        if filename.value == ".gitmodules" {
          forceCrlf := Some(false);
          forceNotabs := Some(false);
        }
      } else if |Rstrip(line)| != 0 {
        FormatError();
      }
      lineNum := lineNum + 1;
    }

    /** The PRE_PATCH branch of run; a hunk header inside a patch is sent here too. */
    method RunPrePatch()
      requires lineNum < |lines| && Scanning() && !IsDiff(lines[lineNum])
      requires state == PRE_PATCH || (state == PATCH && IsHunk(lines[lineNum]))
      modifies this
      ensures lineNum == old(lineNum) + 1 && AttributesSet() && (Scanning() || (!formatOk && Finished()))
    {
      hide AddedFine, AddedBefore, FileName, FirstHalt, IsDiff, IsHunk, IsBinary, IsSubmodule, IsPrePatch, ModeAt, InText,
        LastDiff, LastMarker, ForceCrlf, ForceNotabs, FormatFine, EndsPatch, BadLine, Added;
      var line := lines[lineNum];
      NextMode(lines, lineNum);
      Quiet(lines, lineNum, oldDebug);
      PrePatchLine(lines, lineNum);
      NextRules(lines, lineNum);
      if IsHunk(line) {
        state := PATCH;
        binary := Some(false);
      } else if IsBinary(line) {
        state := PATCH;
        binary := Some(true);
      } else if IsSubmodule(line) {
        forceCrlf := Some(false);
      } else if !IsPrePatch(line) {
        FormatError();
      }
      lineNum := lineNum + 1;
    }

    /** The PATCH branch of run, for a line that belongs to the patch. */
    method RunPatch()
      requires lineNum < |lines| && Scanning() && state == PATCH && lines[lineNum] != ""
      requires !IsDiff(lines[lineNum]) && !IsHunk(lines[lineNum]) && !EndsPatch(lines, lineNum)
      modifies this
      ensures lineNum == old(lineNum) + 1 && AttributesSet() && Scanning()
    {
      hide AddedFine, AddedBefore, FileName, FirstHalt, IsDiff, IsHunk, IsBinary, IsSubmodule, ModeAt, InText,
        LastDiff, LastMarker, ForceCrlf, ForceNotabs, FormatFine, BadLine, Added, LineFine, EndsPatch;
      var line := lines[lineNum];
      NextMode(lines, lineNum);
      Quiet(lines, lineNum, oldDebug);
      PatchLine(lines, lineNum);
      NextRules(lines, lineNum);
      if binary.value {
      } else if "-" <= line {
      } else if "+" <= line {
        AddedLine(lines, lineNum, oldDebug);
        CheckAddedLine(line[1..]);
        checked := checked + [lineNum];
      } else if "\r\n" <= line {
      } else if "\\ No newline " <= line {
      } else if !(" " <= line) {
        assert false; // "unexpected patch line" is unreachable
      }
      lineNum := lineNum + 1;
    }

    /** run: always moves on, and either goes on scanning or is finished. */
    method Run()
      requires Input() && lineNum < |lines| && Scanning()
      modifies this
      ensures old(lineNum) < lineNum <= |lines| && AttributesSet()
      ensures Scanning() || Finished()
    {
      hide AddedFine, AddedBefore, FileName, FirstHalt, IsDiff, IsHunk, ModeAt, InText, LastDiff, LastMarker,
        ForceCrlf, ForceNotabs, FormatFine, Added;
      var line := lines[lineNum];
      assert line in lines;
      if state == START || IsDiff(line) {
        RunStart();
      } else if state == PRE_PATCH || IsHunk(line) {
        RunPrePatch();
      } else if line[0] !in " -+" && !("\r\n" <= line) && !("\\ No newline " <= line) && !binary.value {
        EndOfPatch();
      } else {
        RunPatch();
      }
    }

    /** Text after the patch: the scan ends here, with an error if another diff follows. */
    method EndOfPatch()
      requires lineNum < |lines| && Scanning() && EndsPatch(lines, lineNum)
      modifies this`ok, this`formatOk, this`lineNum
      ensures lineNum == |lines| && AttributesSet() && Finished()
    {
      hide AddedFine, AddedBefore, FileName, FirstHalt, IsDiff, ModeAt, InText, LastDiff, LastMarker,
        ForceCrlf, ForceNotabs, Added, EndsPatch, BadLine;
      HaltsHere(lines, lineNum);
      var i := lineNum + 1;
      while i < |lines|
        invariant lineNum < i <= |lines| && formatOk == old(formatOk) && ok == old(ok)
        invariant forall j :: lineNum < j < i ==> !IsDiff(lines[j])
      {
        if IsDiff(lines[i]) {
          FormatError();
          break;
        }
        i := i + 1;
      }
      lineNum := |lines|;
    }

    /**
     The constructor's whole scan. The lines checked are exactly the added lines of text
     hunks before the first halt, each once and in order; and the final ok says that the
     format is fine and all of them satisfy the rules in force for their file.
     */
    constructor (diff: seq<string>, debugSearch: string -> bool)
      requires forall l <- diff :: l != ""
      ensures lines == diff && oldDebug == debugSearch
      ensures Finished() && AttributesSet()
    {
      lines, oldDebug := diff, debugSearch;
      ok, formatOk, lineNum, state, checked := true, true, 0, START, [];
      filename, forceCrlf, forceNotabs, binary := None, None, None, None;
      new;
      while lineNum < |lines| && formatOk
        invariant lineNum <= |lines| && AttributesSet()
        invariant Scanning() || Finished()
        invariant lineNum < |lines| && formatOk ==> Scanning()
        decreases |lines| - lineNum
      {
        Run();
      }
      if Scanning() {
        NoHalt(lines);
      }
    }
  }

  lemma NoHalt(lines: seq<string>)
    ensures FirstHalt(lines, 0) == |lines| ==> FormatFine(lines)
  {
  }

  lemma HaltsHere(lines: seq<string>, n: nat)
    requires n < |lines| && n <= FirstHalt(lines, 0) && EndsPatch(lines, n)
    ensures FirstHalt(lines, 0) == n
  {
  }

  lemma PrePatchLine(lines: seq<string>, n: nat)
    requires n < |lines| && !IsDiff(lines[n])
    requires ModeAt(lines, n) == PRE_PATCH || (ModeAt(lines, n) == PATCH && IsHunk(lines[n]))
    ensures var l := lines[n];
            && !Added(lines, n) && !EndsPatch(lines, n)
            && (BadLine(lines, n) <==> !IsHunk(l) && !IsBinary(l) && !IsSubmodule(l) && !IsPrePatch(l))
            && !(IsHunk(l) && IsSubmodule(l)) && !(IsBinary(l) && IsSubmodule(l)) && !(IsHunk(l) && IsBinary(l))
            && LastDiff(lines, n) >= 0
  {
    var l := lines[n];
    assert IsHunk(l) ==> l[0] == '@';
    assert IsSubmodule(l) ==> l[0] == 'n';
    assert IsBinary(l) ==> l[0] == 'G' || l[0] == 'B';
  }

  lemma PatchLine(lines: seq<string>, n: nat)
    requires n < |lines| && ModeAt(lines, n) == PATCH && lines[n] != ""
    requires !IsDiff(lines[n]) && !IsHunk(lines[n]) && !EndsPatch(lines, n)
    ensures var l := lines[n];
            && LastDiff(lines, n) >= 0 && !BadLine(lines, n)
            && (Added(lines, n) <==> InText(lines, n) && "+" <= l) && !("-" <= l && "+" <= l)
            && (InText(lines, n) ==> !IsBinary(l) && ("-" <= l || "+" <= l || "\r\n" <= l || "\\ No newline " <= l || " " <= l))
  {
    var l := lines[n];
    assert IsBinary(l) ==> l[0] == 'G' || l[0] == 'B';
    assert "-" <= l ==> l[0] == '-';
    assert l[0] in " -+" ==> ("-" <= l || "+" <= l || " " <= l);
  }

  lemma AddedLine(lines: seq<string>, n: nat, oldDebug: string -> bool)
    requires n < |lines| && Added(lines, n)
    ensures AddedBefore(lines, n + 1) == AddedBefore(lines, n) + [n]
    ensures lines[n] != "" && LastDiff(lines, n) >= 0
    ensures AddedFine(lines, n + 1, oldDebug) <==>
            AddedFine(lines, n, oldDebug) && LineFine(lines[n][1..], ForceCrlf(lines, n), ForceNotabs(lines, n), oldDebug)
  {
  }

  /** A line that is not added leaves the checks as they were; one that does not halt moves the first halt on. */
  lemma Quiet(lines: seq<string>, n: nat, oldDebug: string -> bool)
    requires n < |lines| && n <= FirstHalt(lines, 0)
    ensures !Added(lines, n) ==> AddedBefore(lines, n + 1) == AddedBefore(lines, n)
    ensures !Added(lines, n) ==> (AddedFine(lines, n + 1, oldDebug) <==> AddedFine(lines, n, oldDebug))
    ensures !EndsPatch(lines, n) && !BadLine(lines, n) ==> n + 1 <= FirstHalt(lines, 0)
    ensures BadLine(lines, n) ==> FirstHalt(lines, 0) == n && !FormatFine(lines)
  {
  }

  lemma StartLine(lines: seq<string>, n: nat)
    requires n < |lines| && (ModeAt(lines, n) == START || IsDiff(lines[n]))
    ensures !Added(lines, n) && !EndsPatch(lines, n)
    ensures BadLine(lines, n) <==> !IsDiff(lines[n]) && Rstrip(lines[n]) != ""
  {
    assert IsDiff(lines[n]) ==> lines[n][0] == 'd';
  }

  // ----- What a line ending that passes looks like -----

  /**
   A line satisfies the CRLF rule exactly when it is some text followed by CR LF where
   the text itself ends in neither CR nor LF.
   */
  lemma CrlfRuleIff(line: string)
    ensures StripEndings("", line, 0).0 == "\r\n"
       <==> EndsWith(line, "\r\n") && (|line| > 2 ==> line[|line| - 3] != '\r' && line[|line| - 3] != '\n')
  {
    if EndsWith(line, "\r\n") {
      var text := line[..|line| - 2];
      assert StripEndings("", line, 0) == StripEndings("\r\n", text, 1);
      LaterEndings("\r\n", text);
      assert text != "" ==> text[|text| - 1] == line[|line| - 3];
    } else {
      assert StripEndings("", line, 0) == StripEndings("", line, 1);
      LaterEndings("", line);
    }
  }

  /** Text and a line ending are told apart. */
  lemma EndingIs(text: string)
    requires text != "" ==> text[|text| - 1] != '\r' && text[|text| - 1] != '\n'
    ensures StripEndings("", text + "\r\n", 0) == ("\r\n", text)
    ensures StripEndings("", text + "\n", 0) == ("\n", text)
    ensures StripEndings("", text, 0) == ("", text)
  {
    hide EndsWith;
    NoEnding("\r\n", text, 1);
    NoEnding("", text, 0);
    NoEnding("\n", text, 3);
    HasEnding(text, "\r\n");
    HasEnding(text, "\n");
    OtherEnding(text + "\n", "\n\r");
    NotCrlf(text);
    assert StripEndings("", text + "\r\n", 0) == StripEndings("\r\n", text, 1);
    assert StripEndings("", text + "\n", 0) == StripEndings("", text + "\n", 1);
    assert StripEndings("", text + "\n", 1) == StripEndings("", text + "\n", 2);
    assert StripEndings("", text + "\n", 2) == StripEndings("\n", text, 3);
  }

  lemma NoEnding(eol: string, text: string, k: nat)
    requires k <= 4 && (text != "" ==> text[|text| - 1] != '\r' && text[|text| - 1] != '\n')
    ensures StripEndings(eol, text, k) == (eol, text)
    decreases 4 - k
  {
    if k < 4 {
      EndsWithLast(text, LINE_ENDINGS[k]);
      NoEnding(eol, text, k + 1);
    }
  }

  lemma HasEnding(text: string, e: string)
    ensures EndsWith(text + e, e) && (text + e)[..|text + e| - |e|] == text
  {
  }

  lemma OtherEnding(s: string, e: string)
    requires s != "" && e != "" && s[|s| - 1] != e[|e| - 1]
    ensures !EndsWith(s, e)
  {
    EndsWithLast(s, e);
  }

  lemma NotCrlf(text: string)
    requires text != "" ==> text[|text| - 1] != '\r'
    ensures !EndsWith(text + "\n", "\r\n")
  {
    var s := text + "\n";
    assert |s| >= 2 ==> s[|s| - 2..] == [text[|text| - 1], '\n'];
  }

  /** The rules on the text of an added line, apart from its ending. */
  ghost predicate TextFine(text: string, forceNotabs: bool, oldDebug: string -> bool) {
    && (forceNotabs ==> '\t' !in text)
    && (text != "" ==> !IsSpace(text[|text| - 1]))
    && !oldDebug(text)
  }

  /**
   What an added line must be: no tab where tabs are forbidden, no white space before its
   ending, no old DEBUG macro, and where CRLF is demanded that ending and no other.
   */
  lemma LineFineIff(text: string, forceCrlf: bool, forceNotabs: bool, oldDebug: string -> bool)
    requires text != "" ==> text[|text| - 1] != '\r' && text[|text| - 1] != '\n'
    ensures LineFine(text + "\r\n", forceCrlf, forceNotabs, oldDebug) <==> TextFine(text, forceNotabs, oldDebug)
    ensures LineFine(text + "\n", forceCrlf, forceNotabs, oldDebug) <==> !forceCrlf && TextFine(text, forceNotabs, oldDebug)
    ensures LineFine(text, forceCrlf, forceNotabs, oldDebug) <==> !forceCrlf && TextFine(text, forceNotabs, oldDebug)
  {
    hide StripEndings, IsSpace;
    EndingIs(text);
    assert Rstrip(text) == text <==> text == "" || !IsSpace(text[|text| - 1]);
  }

  /** The three later endings replace the ending found so far exactly when the text still ends in CR or LF. */
  lemma LaterEndings(eol: string, text: string)
    ensures var e := StripEndings(eol, text, 1).0;
            if text != "" && (text[|text| - 1] == '\r' || text[|text| - 1] == '\n')
            then e == "\n\r" || e == "\n" || e == "\r" else e == eol
  {
    hide EndsWith;
    EndsWithLast(text, "\n\r");
    if EndsWith(text, "\n\r") {
      LastTwoEndings("\n\r", text[..|text| - 2]);
    } else {
      LastTwoEndings(eol, text);
    }
  }

  lemma LastTwoEndings(eol: string, text: string)
    ensures var e := StripEndings(eol, text, 2).0;
            if text != "" && (text[|text| - 1] == '\r' || text[|text| - 1] == '\n')
            then e == "\n" || e == "\r" else e == eol
  {
    hide EndsWith;
    EndsWithLast(text, "\n");
    if EndsWith(text, "\n") {
      LastEnding("\n", text[..|text| - 1]);
    } else {
      LastEnding(eol, text);
    }
  }

  lemma LastEnding(eol: string, text: string)
    ensures StripEndings(eol, text, 3).0 == if text != "" && text[|text| - 1] == '\r' then "\r" else eol
  {
    hide EndsWith;
    EndsWithLast(text, "\r");
  }

  lemma EndsWithLast(s: string, e: string)
    requires e != ""
    ensures EndsWith(s, e) ==> |s| >= |e| && s[|s| - 1] == e[|e| - 1]
    ensures |e| == 1 && s != "" && s[|s| - 1] == e[0] ==> EndsWith(s, e)
  {
    if EndsWith(s, e) {
      assert s[|s| - |e|..][|e| - 1] == s[|s| - 1];
    }
  }
}
