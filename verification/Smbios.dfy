/** Packing strings behind an SMBIOS structure (LogSmbiosData), and reading them back by number. */
module Smbios {
  import opened Bytes

  /** Each string with its NUL, in order. */
  function Terminated(strings: seq<seq<Byte>>): (b: seq<Byte>)
  {
    if strings == [] then []
    else Terminated(strings[..|strings| - 1]) + strings[|strings| - 1] + [0]
  }

  /** The string set: the strings and a further NUL, or two NULs when there are none. */
  function StringSet(strings: seq<seq<Byte>>): (b: seq<Byte>)
  {
    if strings == [] then [0, 0] else Terminated(strings) + [0]
  }

  /** The fixed part of a structure; its second byte is its length. */
  ghost predicate IsTemplate(template: seq<Byte>) {
    |template| >= 4 && template[1] == |template|
  }

  ghost predicate AreCStrings(strings: seq<seq<Byte>>) {
    forall i :: 0 <= i < |strings| ==> 0 !in strings[i]
  }

  lemma {:induction false} TerminatedPrefix(strings: seq<seq<Byte>>, k: nat)
    requires k <= |strings|
    ensures |Terminated(strings[..k])| <= |Terminated(strings)|
    ensures k < |strings| ==>
              |Terminated(strings[..k])| + |strings[k]| + 1 == |Terminated(strings[..k + 1])| <= |Terminated(strings)|
    decreases |strings| - k
  {
    if k < |strings| {
      assert strings[..k + 1][..k] == strings[..k];
      TerminatedPrefix(strings, k + 1);
    } else {
      assert strings[..k] == strings;
    }
  }

  /** The first pass: the size of the record. */
  method SizeOf(template: seq<Byte>, strings: seq<seq<Byte>>) returns (size: nat)
    ensures size == |template| + |StringSet(strings)|
  {
    size := |template|;
    for index := 0 to |strings|
      invariant size == |template| + |Terminated(strings[..index])|
    {
      assert strings[..index + 1][..index] == strings[..index];
      size := size + (|strings[index]| + 1);
    }
    assert strings[..|strings|] == strings;
    if |strings| == 0 {
      size := size + 1;
    }
    size := size + 1;
  }

  method CopyInto(record: array<Byte>, at: nat, bytes: seq<Byte>)
    requires at + |bytes| <= record.Length
    modifies record
    ensures record[..] == old(record[..at]) + bytes + old(record[at + |bytes|..])
  {
    forall i | 0 <= i < |bytes| {
      record[at + i] := bytes[i];
    }
  }

  /** A record filled so far, the rest zero. */
  ghost predicate FilledTo(record: seq<Byte>, done: seq<Byte>) {
    |done| <= |record| && record == done + Repeat(0, |record| - |done|)
  }

  method AppendString(record: array<Byte>, at: nat, s: seq<Byte>, ghost done: seq<Byte>)
    requires FilledTo(record[..], done) && at == |done| && at + |s| + 1 <= record.Length
    modifies record
    ensures FilledTo(record[..], done + (s + [0]))
  {
    var bytes := s + [0];
    CopyInto(record, at, bytes);
    assert old(record[..at]) == done;
    Appended(record[..], done, bytes, record.Length);
  }

  /** The second pass: the strings go into the zero-filled room behind the template. */
  method AppendStrings(record: array<Byte>, template: seq<Byte>, strings: seq<seq<Byte>>)
    requires record.Length == |template| + |StringSet(strings)| && FilledTo(record[..], template)
    modifies record
    ensures record[..] == template + StringSet(strings)
  {
    hide FilledTo, Terminated, StringSet;
    var str := |template|;
    RoomFor(template, strings, 0);
    for index := 0 to |strings|
      invariant str == |template| + |Terminated(strings[..index])| < record.Length
      invariant FilledTo(record[..], template + Terminated(strings[..index]))
    {
      RoomFor(template, strings, index);
      AppendString(record, str, strings[index], template + Terminated(strings[..index]));
      str := str + |strings[index]| + 1;
    }
    assert strings[..|strings|] == strings;
    LastNul(record[..], template, strings);
    record[str] := 0;
  }

  /** How the filled part grows, and that it never takes the last byte. */
  lemma RoomFor(template: seq<Byte>, strings: seq<seq<Byte>>, k: nat)
    requires k <= |strings|
    ensures k == 0 ==> template + Terminated(strings[..k]) == template
    ensures |template| + |Terminated(strings[..k])| < |template| + |StringSet(strings)|
    ensures k < |strings| ==>
      && template + Terminated(strings[..k + 1]) == template + Terminated(strings[..k]) + (strings[k] + [0])
      && |template| + |Terminated(strings[..k + 1])| < |template| + |StringSet(strings)|
  {
    TerminatedPrefix(strings, k);
    if k < |strings| {
      assert strings[..k + 1][..k] == strings[..k];
    }
  }

  lemma LastNul(record: seq<Byte>, template: seq<Byte>, strings: seq<seq<Byte>>)
    requires |record| == |template| + |StringSet(strings)| && FilledTo(record, template + Terminated(strings))
    ensures var str := |template| + |Terminated(strings)|;
            str < |record| && record[str := 0] == template + StringSet(strings)
  {
    Tail(strings);
    var room := Repeat(0, |StringSet(strings)| - |Terminated(strings)|);
    assert template + Terminated(strings) + room == template + (Terminated(strings) + room);
  }

  lemma Appended(now: seq<Byte>, before: seq<Byte>, bytes: seq<Byte>, length: nat)
    requires |before| + |bytes| <= length
    requires now == before + bytes + (before + Repeat(0, length - |before|))[|before| + |bytes|..]
    ensures now == before + bytes + Repeat(0, length - |before| - |bytes|)
  {
  }

  lemma Tail(strings: seq<seq<Byte>>)
    ensures Terminated(strings) + Repeat(0, |StringSet(strings)| - |Terminated(strings)|) == StringSet(strings)
  {
  }

  /**
   LogSmbiosData up to the call of Smbios->Add. The precomputed size is exactly filled.
   None stands for the dereference of a NULL string array, which the size computation
   allows for but the copying loop does not.
   */
  method LogSmbiosData(template: seq<Byte>, stringPack: Option<seq<seq<Byte>>>) returns (record: Option<seq<Byte>>)
    requires IsTemplate(template)
    ensures stringPack == None ==> record == None
    ensures stringPack.Some? ==> record == Some(template + StringSet(stringPack.value))
  {
    if stringPack == None {
      return None;
    }
    var strings := stringPack.value;
    var size := SizeOf(template, strings);
    var buffer := new Byte[size](_ => 0);
    assert buffer[..] == Repeat(0, size);
    CopyInto(buffer, 0, template);
    assert FilledTo(buffer[..], template);
    AppendStrings(buffer, template, strings);
    return Some(buffer[..]);
  }

  // ----- Reading a string by its number -----

  /** String number `n`, counted from 1, of a string set; None past its end. */
  function StringNumber(stringSet: seq<Byte>, n: nat): (s: Option<seq<Byte>>)
    decreases n
  {
    var first := CString(stringSet);
    if n == 0 || first == [] then None
    else if n == 1 then Some(first)
    else if |first| + 1 <= |stringSet| then StringNumber(stringSet[|first| + 1..], n - 1)
    else None
  }

  /** The strings of a record, found behind its fixed part. */
  function RecordString(record: seq<Byte>, n: nat): (s: Option<seq<Byte>>)
    requires |record| >= 2 && record[1] <= |record|
  {
    StringNumber(record[record[1]..], n)
  }

  lemma {:induction false} TerminatedCons(strings: seq<seq<Byte>>)
    requires strings != []
    ensures Terminated(strings) == strings[0] + [0] + Terminated(strings[1..])
  {
    var n := |strings| - 1;
    if n == 0 {
      assert strings[..0] == [] == strings[1..];
    } else {
      TerminatedCons(strings[..n]);
      assert strings[..n][1..] == strings[1..][..n - 1];
      assert strings[0] + [0] + Terminated(strings[1..][..n - 1]) + strings[n] + [0]
          == strings[0] + [0] + (Terminated(strings[1..][..n - 1]) + strings[n] + [0]);
    }
  }

  /** As long as no string before it is empty, string `n` is found; an empty one ends the set. */
  lemma {:induction false} NumberedString(strings: seq<seq<Byte>>, n: nat, rest: seq<Byte>)
    requires AreCStrings(strings) && 1 <= n <= |strings|
    requires forall i :: 0 <= i < n - 1 ==> strings[i] != []
    ensures StringNumber(Terminated(strings) + rest, n) == if strings[n - 1] == [] then None else Some(strings[n - 1])
    decreases n
  {
    hide Terminated;
    var tail := Terminated(strings[1..]) + rest;
    TerminatedCons(strings);
    assert Terminated(strings) + rest == strings[0] + [0] + tail;
    CStringTerminated(strings[0], tail);
    assert (strings[0] + [0] + tail)[|strings[0]| + 1..] == tail;
    if n > 1 {
      NumberedString(strings[1..], n - 1, rest);
    }
  }

  lemma RecordStringIs(template: seq<Byte>, strings: seq<seq<Byte>>, n: nat)
    requires IsTemplate(template) && AreCStrings(strings) && 1 <= n <= |strings|
    requires forall i :: 0 <= i < n - 1 ==> strings[i] != []
    ensures RecordString(template + StringSet(strings), n) == if strings[n - 1] == [] then None else Some(strings[n - 1])
  {
    var record := template + StringSet(strings);
    assert record[1] == |template| && record[record[1]..] == Terminated(strings) + [0];
    NumberedString(strings, n, [0]);
  }

  /**
   The record ends in two NULs, and every string is read back under its number if and only
   if none of them is empty.
   */
  lemma PackedStringsReadBackIff(template: seq<Byte>, strings: seq<seq<Byte>>)
    requires IsTemplate(template) && AreCStrings(strings)
    ensures var record := template + StringSet(strings);
            && record[|record| - 2..] == [0, 0]
            && ((forall n :: 1 <= n <= |strings| ==> RecordString(record, n) == Some(strings[n - 1]))
                <==> forall i :: 0 <= i < |strings| ==> strings[i] != [])
  {
    hide RecordString;
    var record := template + StringSet(strings);
    EndsInNuls(template, strings);
    if forall i :: 0 <= i < |strings| ==> strings[i] != [] {
      forall n | 1 <= n <= |strings|
        ensures RecordString(record, n) == Some(strings[n - 1])
      {
        RecordStringIs(template, strings, n);
      }
    } else {
      var i := FirstEmpty(strings);
      RecordStringIs(template, strings, i + 1);
      assert RecordString(record, i + 1) != Some(strings[i]);
    }
  }

  lemma EndsInNuls(template: seq<Byte>, strings: seq<seq<Byte>>)
    ensures var record := template + StringSet(strings); |record| >= 2 && record[|record| - 2..] == [0, 0]
  {
  }

  lemma FirstEmpty(strings: seq<seq<Byte>>) returns (i: nat)
    requires exists k :: 0 <= k < |strings| && strings[k] == []
    ensures i < |strings| && strings[i] == [] && forall j :: 0 <= j < i ==> strings[j] != []
  {
    i := 0;
    while strings[i] != []
      invariant i < |strings| && (forall j :: 0 <= j < i ==> strings[j] != [])
      invariant exists k :: i <= k < |strings| && strings[k] == []
      decreases |strings| - i
    {
      i := i + 1;
    }
  }
}
