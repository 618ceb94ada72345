/**
 DetectNotUsedItem: the backward loop that strips comments in place, the parser that
 attaches to every declared item the lines that go with it, and the cleaning of a file.
 */
module UnusedItems {
  import opened Text

  predicate EmptyLine(l: string) { l == "\n" || l == "\r\n" }

  predicate Hash(l: string) { "#" <= Strip(l) }

  // ----- Removing comments in place -----

  predicate Dropped(l: string) { Hash(l) || EmptyLine(l) }

  function Tidy(l: string): (t: string)
  {
    if '#' in l then Strip(Before(l, '#')) else Strip(l)
  }

  /** A line is a comment exactly if '#' is the first character that is no white space. */
  lemma HashIff(before: string, c: char, rest: string)
    requires AllSpace(before) && !IsSpace(c)
    ensures Hash(before + [c] + rest) <==> c == '#'
    ensures !Hash(before)
  {
    hide IsSpace, Rstrip, Lstrip;
    assert before + [c] + rest == before + ([c] + rest);
    LstripIs(before, [c] + rest);
    KeepsFirst([c] + rest);
    assert before + "" == before;
    LstripIs(before, "");
  }

  lemma KeepsFirst(s: string)
    requires s != "" && !IsSpace(s[0])
    ensures Rstrip(s) != "" && Rstrip(s)[0] == s[0]
  {
    hide IsSpace;
  }

  /** A line of white space is dropped exactly if it is a bare line end; any other line exactly if it is a comment. */
  lemma DroppedIff(before: string, c: char, rest: string)
    requires AllSpace(before) && !IsSpace(c)
    ensures Dropped(before) <==> before == ['\n'] || before == ['\r', '\n']
    ensures Dropped(before + [c] + rest) <==> c == '#'
  {
    hide IsSpace, Hash;
    HashIff(before, c, rest);
    SpacesAre('\n');
    SpacesAre('\r');
    var l := before + [c] + rest;
    assert l[|before|] == c;
    LineEndsAreSpace(c);
  }

  lemma LineEndsAreSpace(c: char)
    requires !IsSpace(c)
    ensures c != '\n' && c != '\r'
  {
  }

  /** A kept line is its text without the white space around it and without a comment behind it. */
  lemma TidyIs(before: string, code: string, after: string, comment: string)
    requires AllSpace(before) && AllSpace(after) && (code == "" || Trim(code))
    requires '#' !in before && '#' !in code && '#' !in after
    ensures Tidy(before + code + after) == code
    ensures Tidy(before + code + after + "#" + comment) == code
  {
    hide Strip, Before;
    var text := before + code + after;
    StripIs(before, code, after);
    BeforeIs(text, '#', comment);
    assert text + "#" + comment == text + ['#'] + comment;
    assert (text + "#" + comment)[|text|] == '#';
  }

  /** The plain description: drop comment and empty lines, tidy the others, in order. */
  function Kept(lines: seq<string>): (k: seq<string>)
  {
    if lines == [] then []
    else
      var l := lines[|lines| - 1];
      Kept(lines[..|lines| - 1]) + if Dropped(l) then [] else [Tidy(l)]
  }

  /** list.remove: the first equal element goes. */
  function RemoveFirst(s: seq<string>, x: string): (t: seq<string>)
    requires x in s
    ensures |t| == |s| - 1
  {
    if s[0] == x then s[1..] else [s[0]] + RemoveFirst(s[1..], x)
  }

  lemma {:induction false} RemoveFromPrefix(a: seq<string>, b: seq<string>, x: string)
    requires x in a
    ensures x in a + b && RemoveFirst(a + b, x) == RemoveFirst(a, x) + b
  {
    if a[0] == x {
      assert (a + b)[1..] == a[1..] + b;
    } else {
      assert (a + b)[1..] == a[1..] + b;
      RemoveFromPrefix(a[1..], b, x);
    }
  }

  lemma {:induction false} KeptAppend(a: seq<string>, b: seq<string>)
    ensures Kept(a + b) == Kept(a) + Kept(b)
  {
    hide Dropped, Tidy;
    if b == [] {
      assert a + b == a;
    } else {
      assert (a + b)[..|a + b| - 1] == a + b[..|b| - 1];
      KeptAppend(a, b[..|b| - 1]);
    }
  }

  lemma KeptOne(l: string)
    ensures Kept([l]) == if Dropped(l) then [] else [Tidy(l)]
  {
    assert [l][..0] == [];
  }

  /** Which of several equal comment lines goes makes no difference. */
  lemma {:induction false} KeptWithout(s: seq<string>, x: string)
    requires x in s && Dropped(x)
    ensures Kept(RemoveFirst(s, x)) == Kept(s)
  {
    hide Dropped, Tidy, Kept;
    assert s == [s[0]] + s[1..];
    KeptAppend([s[0]], s[1..]);
    KeptOne(s[0]);
    if s[0] != x {
      KeptWithout(s[1..], x);
      KeptAppend([s[0]], RemoveFirst(s[1..], x));
    } else {
      assert [] + Kept(s[1..]) == Kept(s[1..]);
    }
  }

  /**
   ParseDscFdfInfContent on the lines of a file: deleting "the first equal line" while
   indexing backwards gives exactly the plain description, duplicates included.
   */
  method ParseDscFdfInfContent(file: seq<string>) returns (lines: seq<string>)
    ensures lines == Kept(file)
  {
    hide Dropped, Tidy, Kept, RemoveFirst;
    lines := file;
    assert file[..|file|] == file && file[|file|..] == [];
    ghost var done: seq<string> := [];
    ghost var todo := file;
    assert Kept(todo) + done == Kept(file);
    for index := |file| downto 0
      invariant lines == todo + done && |todo| == index
      invariant Kept(todo) + done == Kept(file)
    {
      var line := lines[index];
      assert line == todo[index];
      ghost var init := todo[..index];
      assert todo == init + [line];
      KeptAppend(init, [line]);
      KeptOne(line);
      if Dropped(line) {
        RemoveFromPrefix(todo, done, line);
        KeptWithout(todo, line);
        lines := RemoveFirst(lines, line);
        todo := RemoveFirst(todo, line);
      } else {
        lines := lines[index := Tidy(line)];
        assert lines == init + ([Tidy(line)] + done);
        assert Kept(init) + [Tidy(line)] + done == Kept(init) + ([Tidy(line)] + done);
        todo, done := init, [Tidy(line)] + done;
      }
    }
    EmptyKept(todo);
    assert [] + done == done && [] + lines == lines;
  }

  lemma EmptyKept(s: seq<string>)
    requires s == []
    ensures Kept(s) == []
  {
  }

  // ----- Items and the lines that go with them -----

  const SECTIONS := ["LibraryClasses", "Guids", "Ppis", "Protocols", "Pcd"]

  predicate IsNeedParseSection(name: string) {
    exists s <- SECTIONS :: Contains(name, s)
  }

  /** The sections looked at: those whose name contains one of five words. */
  lemma NeedParseIff(name: string)
    ensures IsNeedParseSection(name) <==>
              || Contains(name, "LibraryClasses") || Contains(name, "Guids") || Contains(name, "Ppis")
              || Contains(name, "Protocols") || Contains(name, "Pcd")
  {
    hide Contains;
    assert "LibraryClasses" in SECTIONS && "Guids" in SECTIONS && "Ppis" in SECTIONS && "Protocols" in SECTIONS && "Pcd" in SECTIONS;
  }

  function LastIndex(s: string, c: char): (i: int)
    ensures -1 <= i < |s|
  {
    if s == "" then -1 else if s[|s| - 1] == c then |s| - 1 else LastIndex(s[..|s| - 1], c)
  }

  /** The first match of `\[(.*)\]`: what stands between the first '[' and the last ']' after it. */
  function SectionOf(l: string): (name: seq<string>)
  {
    var open, close := |Before(l, '[')|, LastIndex(l, ']');
    if 0 <= open < close then [l[open + 1..close]] else []
  }

  predicate OpensSection(l: string) {
    SectionOf(l) != [] && !Hash(l)
  }

  /** Line `i` is in a section of interest: the last section header up to it names one. */
  predicate Flagged(lines: seq<string>, i: nat)
    requires i < |lines|
  {
    if OpensSection(lines[i]) then IsNeedParseSection(SectionOf(lines[i])[0])
    else i > 0 && Flagged(lines, i - 1)
  }

  /** A line is flagged exactly if the last section header up to it, itself included, names a section of interest. */
  lemma {:induction false} FlaggedIff(lines: seq<string>, i: nat)
    requires i < |lines|
    ensures Flagged(lines, i) <==>
              exists h :: 0 <= h <= i && OpensSection(lines[h]) && IsNeedParseSection(SectionOf(lines[h])[0])
                          && forall k :: h < k <= i ==> !OpensSection(lines[k])
  {
    hide IsNeedParseSection, OpensSection, SectionOf;
    if !OpensSection(lines[i]) && i > 0 {
      FlaggedIff(lines, i - 1);
    }
  }

  predicate Item(lines: seq<string>, i: nat)
    requires i < |lines|
  {
    Flagged(lines, i) && !Hash(lines[i]) && !EmptyLine(lines[i])
  }

  function ItemName(l: string): (name: string)
  {
    Strip(Before(Before(Before(l, '='), '|'), '#'))
  }

  /** The name of an item: what stands before the first '=', '|' or '#', without the white space around it. */
  lemma ItemNameIs(before: string, name: string, after: string, c: char, rest: string)
    requires AllSpace(before) && AllSpace(after) && (name == "" || Trim(name)) && c in "=|#"
    requires forall x <- before + name + after :: x !in "=|#"
    ensures ItemName(before + name + after) == name
    ensures ItemName(before + name + after + [c] + rest) == name
  {
    hide Strip, Before;
    var text := before + name + after;
    StripIs(before, name, after);
    assert '=' !in text && '|' !in text && '#' !in text;
    BeforeIs(text, '=', rest);
    BeforeIs(text, '|', rest);
    BeforeIs(text, '#', rest);
    BeforeOther(text, c, rest);
  }

  /** Cutting at other characters first does not reach into the text before `c`. */
  lemma BeforeOther(text: string, c: char, rest: string)
    requires c in "=|#" && '=' !in text && '|' !in text && '#' !in text
    ensures Before(Before(Before(text + [c] + rest, '='), '|'), '#') == text
  {
    hide Before;
    if c == '=' {
      BeforeIs(text, '=', rest);
      BeforeIs(text, '|', rest);
      BeforeIs(text, '#', rest);
    } else {
      var more := BeforeKeeps(text + [c], rest, '=');
      assert (text + [c]) + rest == text + [c] + rest;
      if c == '|' {
        assert text + [c] + more == text + ['|'] + more;
        BeforeIs(text, '|', more);
        BeforeIs(text, '#', rest);
      } else {
        var more2 := BeforeKeeps(text + [c], more, '|');
        assert text + [c] + more2 == text + ['#'] + more2;
        BeforeIs(text, '#', more2);
      }
    }
  }

  lemma {:induction false} BeforeKeeps(a: string, b: string, c: char) returns (more: string)
    requires c !in a
    ensures Before(a + b, c) == a + more
  {
    if a == "" {
      assert a + b == b;
      more := Before(b, c);
    } else {
      assert (a + b)[1..] == a[1..] + b;
      more := BeforeKeeps(a[1..], b, c);
    }
  }

  /** A section header names what stands between its first '[' and its last ']'. */
  lemma SectionOfIs(before: string, name: string, after: string)
    requires '[' !in before && ']' !in after
    ensures SectionOf(before + "[" + name + "]" + after) == [name]
  {
    hide Before, LastIndex;
    var l := before + "[" + name + "]" + after;
    assert l == before + ['['] + (name + "]" + after);
    BeforeIs(before, '[', name + "]" + after);
    assert l == (before + "[" + name) + [']'] + after;
    LastIndexIs(before + "[" + name, ']', after);
    assert l[|before| + 1..|before| + 1 + |name|] == name;
  }

  lemma {:induction false} LastIndexIs(a: string, c: char, b: string)
    requires c !in b
    ensures LastIndex(a + [c] + b, c) == |a|
  {
    var s := a + [c] + b;
    if b == "" {
      assert s == a + [c];
    } else {
      assert s[..|s| - 1] == a + [c] + b[..|b| - 1];
      assert s[|s| - 1] == b[|b| - 1];
      LastIndexIs(a, c, b[..|b| - 1]);
    }
  }

  /** No item stands on the lines from `j` up to, not including, `i`. */
  predicate NoItem(lines: seq<string>, j: nat, i: nat)
    requires i <= |lines|
  {
    forall k :: j <= k < i ==> !Item(lines, k)
  }

  /** The flagged lines before `n` that wait for their item. */
  function Waiting(lines: seq<string>, n: nat): (w: seq<nat>)
    requires n <= |lines|
  {
    if n == 0 || Item(lines, n - 1) then []
    else Waiting(lines, n - 1) + if Flagged(lines, n - 1) then [n - 1] else []
  }

  /** The lines that go with an item: those waiting, and its own. */
  function Block(lines: seq<string>, i: nat): (b: seq<nat>)
    requires i < |lines|
  {
    Waiting(lines, i) + [i]
  }

  lemma {:induction false} WaitingIs(lines: seq<string>, n: nat)
    requires n <= |lines|
    ensures forall j :: j in Waiting(lines, n) <==> 0 <= j < n && Flagged(lines, j) && NoItem(lines, j, n)
  {
    hide Item, Flagged;
    if n > 0 {
      WaitingIs(lines, n - 1);
      forall j | 0 <= j < n
        ensures NoItem(lines, j, n) <==> NoItem(lines, j, n - 1) && !Item(lines, n - 1)
      {
      }
    }
  }

  /** A line is in an item's block exactly when it is flagged and that item is the first from it on. */
  lemma BlockIs(lines: seq<string>, i: nat, j: nat)
    requires i < |lines| && Item(lines, i)
    ensures j in Block(lines, i) <==> j <= i && Flagged(lines, j) && NoItem(lines, j, i)
  {
    hide Flagged;
    WaitingIs(lines, i);
  }

  /** The blocks of different items have no line in common. */
  lemma BlocksDisjoint(lines: seq<string>, i: nat, k: nat, j: nat)
    requires i < |lines| && k < |lines| && i != k && Item(lines, i) && Item(lines, k)
    ensures !(j in Block(lines, i) && j in Block(lines, k))
  {
    hide Item, Block;
    BlockIs(lines, i, j);
    BlockIs(lines, k, j);
  }

  /** ParseDecContent: every item with its name, and its block. */
  method ParseDecContent(lines: seq<string>) returns (itemName: map<nat, string>, comments: map<nat, seq<nat>>)
    ensures itemName == map i: nat | 0 <= i < |lines| && Item(lines, i) :: ItemName(lines[i])
    ensures comments == map i: nat | 0 <= i < |lines| && Item(lines, i) :: Block(lines, i)
  {
    hide ItemName, SectionOf, IsNeedParseSection, Hash;
    itemName, comments := map[], map[];
    var flag := false;
    var commentLine: seq<nat> := [];
    for index := 0 to |lines|
      invariant flag == (index > 0 && Flagged(lines, index - 1))
      invariant commentLine == Waiting(lines, index)
      invariant itemName == map i: nat | 0 <= i < index && Item(lines, i) :: ItemName(lines[i])
      invariant comments == map i: nat | 0 <= i < index && Item(lines, i) :: Block(lines, i)
    {
      var content := lines[index];
      var notComment := !Hash(content);
      var section := SectionOf(content);
      if section != [] && notComment {
        flag := IsNeedParseSection(section[0]);
      }
      if flag {
        commentLine := commentLine + [index];
        if notComment && !EmptyLine(content) {
          itemName := itemName[index := ItemName(content)];
          comments := comments[index := commentLine];
          commentLine := [];
        }
      }
    }
  }

  /** The lines not removed, in order. */
  function Remaining(lines: seq<string>, removed: set<nat>): (r: seq<string>)
  {
    if lines == [] then []
    else
      var n := |lines| - 1;
      Remaining(lines[..n], removed) + if n in removed then [] else [lines[n]]
  }

  /** The numbers below `n` that are not removed, in order. */
  function Staying(n: nat, removed: set<nat>): (s: seq<nat>)
    ensures forall i :: i in s <==> 0 <= i < n && i !in removed
    ensures forall x, y :: 0 <= x < y < |s| ==> s[x] < s[y]
  {
    if n == 0 then []
    else
      var s := Staying(n - 1, removed);
      assert forall x :: 0 <= x < |s| ==> s[x] in s;
      if n - 1 in removed then s else s + [n - 1]
  }

  /** The lines with these numbers. */
  function Picked(lines: seq<string>, numbers: seq<nat>): (p: seq<string>)
    requires forall i <- numbers :: i < |lines|
    ensures |p| == |numbers|
  {
    seq(|numbers|, x requires 0 <= x < |numbers| => assert numbers[x] in numbers; lines[numbers[x]])
  }

  lemma PickedBefore(lines: seq<string>, n: nat, numbers: seq<nat>)
    requires n <= |lines| && forall i <- numbers :: i < n
    ensures Picked(lines, numbers) == Picked(lines[..n], numbers)
  {
    assert forall x :: 0 <= x < |numbers| ==> numbers[x] in numbers;
  }

  lemma PickedNext(lines: seq<string>, numbers: seq<nat>, i: nat)
    requires (forall k <- numbers :: k < |lines|) && i < |lines|
    ensures Picked(lines, numbers + [i]) == Picked(lines, numbers) + [lines[i]]
  {
  }

  /** What remains is the lines whose numbers stay, in order. */
  lemma {:induction false} RemainingIs(lines: seq<string>, removed: set<nat>)
    ensures Remaining(lines, removed) == Picked(lines, Staying(|lines|, removed))
  {
    hide Picked;
    if lines == [] {
      PickedNothing(lines);
    } else {
      var n := |lines| - 1;
      RemainingIs(lines[..n], removed);
      PickedBefore(lines, n, Staying(n, removed));
      PickedNext(lines, Staying(n, removed), n);
    }
  }

  lemma PickedNothing(lines: seq<string>)
    ensures Picked(lines, []) == []
  {
  }

  /** The item a flagged line goes with is unused. */
  ghost predicate GoesWithUnused(lines: seq<string>, j: nat, unused: set<nat>) {
    exists i :: i in unused && j <= i < |lines| && Item(lines, i) && Flagged(lines, j) && NoItem(lines, j, i)
  }

  /**
   Clean, with the parser's blocks: it removes exactly the flagged lines whose item is
   unused, and keeps every other line in order.
   */
  method Clean(lines: seq<string>, unused: seq<nat>, comments: map<nat, seq<nat>>) returns (cleaned: seq<string>, ghost removed: set<nat>)
    requires comments == map i: nat | 0 <= i < |lines| && Item(lines, i) :: Block(lines, i)
    ensures cleaned == Remaining(lines, removed) == Picked(lines, Staying(|lines|, removed))
    ensures forall j :: 0 <= j < |lines| ==> (j in removed <==> GoesWithUnused(lines, j, set i | i in unused))
  {
    hide Item, Block, Flagged;
    var removedNum: seq<nat> := [];
    for k := 0 to |unused|
      invariant forall j :: j in removedNum <==> exists i :: i in unused[..k] && i in comments && j in comments[i]
    {
      var num := unused[k];
      assert unused[..k + 1] == unused[..k] + [num];
      if num in comments {
        removedNum := removedNum + comments[num];
      }
    }
    assert unused[..|unused|] == unused;
    removed := set j | j in removedNum;
    RemovedAre(lines, unused, comments, removed);
    cleaned := [];
    for lineNum := 0 to |lines|
      invariant cleaned == Remaining(lines[..lineNum], removed)
    {
      assert lines[..lineNum + 1][..lineNum] == lines[..lineNum];
      if lineNum !in removedNum {
        cleaned := cleaned + [lines[lineNum]];
      }
    }
    assert lines[..|lines|] == lines;
    RemainingIs(lines, removed);
  }

  lemma RemovedAre(lines: seq<string>, unused: seq<nat>, comments: map<nat, seq<nat>>, removed: set<nat>)
    requires comments == map i: nat | 0 <= i < |lines| && Item(lines, i) :: Block(lines, i)
    requires forall j :: j in removed <==> exists i :: i in unused && i in comments && j in comments[i]
    ensures forall j :: 0 <= j < |lines| ==> (j in removed <==> GoesWithUnused(lines, j, set i | i in unused))
  {
    hide Item, Block, Flagged;
    forall j | 0 <= j < |lines|
      ensures j in removed <==> GoesWithUnused(lines, j, set i | i in unused)
    {
      forall i | 0 <= i < |lines| && Item(lines, i)
        ensures j in Block(lines, i) <==> j <= i && Flagged(lines, j) && NoItem(lines, j, i)
      {
        BlockIs(lines, i, j);
      }
      if j in removed {
        var i :| i in unused && i in comments && j in comments[i];
        assert i in (set i | i in unused);
      }
      if GoesWithUnused(lines, j, set i | i in unused) {
        var i :| i in (set i | i in unused) && j <= i < |lines| && Item(lines, i) && Flagged(lines, j) && NoItem(lines, j, i);
        assert i in unused && i in comments && j in comments[i];
      }
    }
  }
}
