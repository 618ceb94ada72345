/** The parts of Python's str that the text tools use. */
module Text {

  /** What str.strip removes. */
  predicate IsSpace(c: char) {
    var n := c as int;
    || 0x09 <= n <= 0x0d || 0x1c <= n <= 0x20 || n == 0x85 || n == 0xa0 || n == 0x1680
    || 0x2000 <= n <= 0x200a || n == 0x2028 || n == 0x2029 || n == 0x202f || n == 0x205f || n == 0x3000
  }

  function Rstrip(s: string): (t: string)
    ensures t <= s && (t != "" ==> !IsSpace(t[|t| - 1]))
    ensures forall i :: |t| <= i < |s| ==> IsSpace(s[i])
  {
    if s != "" && IsSpace(s[|s| - 1]) then Rstrip(s[..|s| - 1]) else s
  }

  function Lstrip(s: string): (t: string)
  {
    if s != "" && IsSpace(s[0]) then Lstrip(s[1..]) else s
  }

  function Strip(s: string): (t: string)
  {
    Rstrip(Lstrip(s))
  }

  /** s.split(c)[0] */
  function Before(s: string, c: char): (t: string)
  {
    if s == "" || s[0] == c then "" else [s[0]] + Before(s[1..], c)
  }

  /** `part in s` */
  predicate Contains(s: string, part: string) {
    part <= s || (s != "" && Contains(s[1..], part))
  }

  // ----- What these do -----

  /** The white space of Unicode, by character numbers. */
  lemma SpacesAre(c: char)
    ensures IsSpace(c) <==> c as int in {9, 10, 11, 12, 13, 28, 29, 30, 31, 32, 133, 160, 5760,
                                         8192, 8193, 8194, 8195, 8196, 8197, 8198, 8199, 8200, 8201, 8202,
                                         8232, 8233, 8239, 8287, 12288}
  {
  }

  ghost predicate AllSpace(s: string) {
    forall c <- s :: IsSpace(c)
  }

  /** Text that neither starts nor ends with white space. */
  ghost predicate Trim(s: string) {
    s != "" && !IsSpace(s[0]) && !IsSpace(s[|s| - 1])
  }

  lemma {:induction false} LstripIs(pad: string, s: string)
    requires AllSpace(pad) && (s != "" ==> !IsSpace(s[0]))
    ensures Lstrip(pad + s) == s
  {
    hide IsSpace;
    if pad == "" {
      assert pad + s == s;
    } else {
      assert (pad + s)[1..] == pad[1..] + s;
      assert pad[0] in pad;
      LstripIs(pad[1..], s);
    }
  }

  lemma RstripIs(s: string, pad: string)
    requires AllSpace(pad) && (s != "" ==> !IsSpace(s[|s| - 1]))
    ensures Rstrip(s + pad) == s
  {
    hide IsSpace;
    var t := Rstrip(s + pad);
    assert forall i :: 0 <= i < |pad| ==> pad[i] in pad;
    assert t == (s + pad)[..|t|] && s == (s + pad)[..|s|];
  }

  /** strip takes the white space around a text away and nothing else. */
  lemma StripIs(before: string, s: string, after: string)
    requires AllSpace(before) && AllSpace(after) && (s == "" || Trim(s))
    ensures Strip(before + s + after) == s
  {
    hide IsSpace, Lstrip, Rstrip;
    if s == "" {
      assert before + s + after == (before + after) + "";
      LstripIs(before + after, "");
      RstripIs("", "");
      assert "" + "" == "";
    } else {
      assert before + s + after == before + (s + after);
      LstripIs(before, s + after);
      RstripIs(s, after);
    }
  }

  /** What stands before the first `c`; everything if there is none. */
  lemma {:induction false} BeforeIs(s: string, c: char, rest: string)
    requires c !in s
    ensures Before(s + [c] + rest, c) == s && Before(s, c) == s
  {
    if s != "" {
      assert (s + [c] + rest)[1..] == s[1..] + [c] + rest;
      BeforeIs(s[1..], c, rest);
    }
  }

  /** A text contains another exactly if that stands somewhere in it. */
  lemma {:induction false} ContainsIff(s: string, part: string)
    ensures Contains(s, part) <==> exists i :: 0 <= i <= |s| && part <= s[i..]
  {
    if part <= s {
      assert s[0..] == s;
    } else if s != "" {
      ContainsIff(s[1..], part);
      if i :| 0 <= i <= |s[1..]| && part <= s[1..][i..] {
        assert s[1..][i..] == s[i + 1..];
      }
      if i :| 0 <= i <= |s| && part <= s[i..] {
        assert s[0..] == s;
        assert i > 0 && s[i..] == s[1..][i - 1..];
      }
    }
  }
}
