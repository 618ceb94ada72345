/**
 Searching the device tree (FdtClientDxe) and registering the RAM it describes
 (HighMemDxe). A node is its position in tree order, node 0 the root; fdt_next_node goes
 to the next position and fdt_getprop looks a property up.
 */
module DeviceTree {
  import opened Bytes

  datatype Node = Node(props: map<string, seq<Byte>>)

  type Tree = seq<Node>

  /** A missing status means enabled; a present one must be the C string "okay" or "ok", terminator included. */
  predicate IsNodeEnabled(n: Node) {
    "status" !in n.props ||
    var status := n.props["status"];
    || (|status| >= 5 && CString(status) == Ascii("okay"))
    || (|status| >= 3 && CString(status) == Ascii("ok"))
  }

  /** A node is enabled exactly when it has no status, or one that starts with "okay" or "ok" and a NUL. */
  lemma EnabledIff(n: Node)
    ensures IsNodeEnabled(n) <==>
              "status" in n.props ==>
                [0x6f, 0x6b, 0x61, 0x79, 0] <= n.props["status"] || [0x6f, 0x6b, 0] <= n.props["status"]
  {
    if "status" in n.props {
      assert Ascii("okay") + [0] == [0x6f, 0x6b, 0x61, 0x79, 0] && Ascii("ok") + [0] == [0x6f, 0x6b, 0];
      StartsWithCString(n.props["status"], Ascii("okay"));
      StartsWithCString(n.props["status"], Ascii("ok"));
    }
  }

  lemma StartsWithCString(buf: seq<Byte>, s: seq<Byte>)
    requires 0 !in s
    ensures |buf| > |s| && CString(buf) == s <==> s + [0] <= buf
  {
    if s + [0] <= buf {
      assert buf == s + [0] + buf[|s| + 1..];
      CStringTerminated(s, buf[|s| + 1..]);
    }
    if |buf| > |s| && CString(buf) == s {
      CStringPrefix(buf);
    }
  }

  // ----- The compatible list -----

  /** The strings of a NUL-separated list, up to the first empty one. */
  function Names(list: seq<Byte>): (names: seq<seq<Byte>>)
    decreases |list|
  {
    if list == [] || list[0] == 0 then []
    else
      var name := CString(list);
      [name] + if |name| + 1 <= |list| then Names(list[|name| + 1..]) else []
  }

  function Pack(names: seq<seq<Byte>>): (list: seq<Byte>)
  {
    if names == [] then [] else names[0] + [0] + Pack(names[1..])
  }

  ghost predicate Proper(name: seq<Byte>) {
    name != [] && 0 !in name
  }

  lemma NamesFirst(name: seq<Byte>, rest: seq<Byte>)
    requires Proper(name)
    ensures Names(name + [0] + rest) == [name] + Names(rest)
  {
    var list := name + [0] + rest;
    CStringTerminated(name, rest);
    assert list[0] == name[0] && list[|name| + 1..] == rest;
  }

  lemma PackNothing()
    ensures Pack([]) == []
  {
  }

  lemma PackFirst(names: seq<seq<Byte>>, rest: seq<Byte>)
    requires names != []
    ensures Pack(names) + rest == names[0] + [0] + (Pack(names[1..]) + rest)
  {
  }

  /** The list read back from a packed one, whatever follows its end mark. */
  lemma {:induction false} NamesPack(names: seq<seq<Byte>>, rest: seq<Byte>)
    requires forall i :: 0 <= i < |names| ==> Proper(names[i])
    ensures Names(Pack(names) + rest) == names + Names(rest)
  {
    hide Names, Pack;
    if names == [] {
      PackNothing();
      assert [] + rest == rest;
    } else {
      var tail := Pack(names[1..]) + rest;
      PackFirst(names, rest);
      NamesFirst(names[0], tail);
      NamesPack(names[1..], rest);
      assert [names[0]] + (names[1..] + Names(rest)) == names + Names(rest);
    }
  }

  /** What the cursor skips: the names of the list are the current one and those after it. */
  lemma NamesNext(list: seq<Byte>, at: nat)
    requires at < |list| && list[at] != 0
    ensures var current := CString(list[at..]);
            Names(list[at..]) == [current] + if at + 1 + |current| <= |list| then Names(list[at + 1 + |current|..]) else []
  {
    hide CString;
    var current := CString(list[at..]);
    assert at + 1 + |current| <= |list| ==> list[at..][|current| + 1..] == list[at + 1 + |current|..];
  }

  /** The search loop over the list. */
  method HasName(list: seq<Byte>, name: seq<Byte>) returns (found: bool)
    ensures found <==> name in Names(list)
  {
    hide Names, CString;
    var at := 0;
    assert list[0..] == list;
    while at < |list| && list[at] != 0
      invariant 0 <= at
      invariant name in Names(list) <==> at <= |list| && name in Names(list[at..])
      decreases |list| - at
    {
      NamesNext(list, at);
      var current := CString(list[at..]);
      if current == name {
        return true;
      }
      at := at + 1 + |current|;
    }
    if at <= |list| {
      NamesEnd(list[at..]);
    }
    return false;
  }

  lemma NamesEnd(list: seq<Byte>)
    ensures list == [] || list[0] == 0 ==> Names(list) == []
  {
  }

  // ----- Finding nodes -----

  predicate Compatible(n: Node, name: seq<Byte>) {
    IsNodeEnabled(n) && "compatible" in n.props && name in Names(n.props["compatible"])
  }

  predicate MemoryNode(n: Node) {
    && IsNodeEnabled(n)
    && "device_type" in n.props && CString(n.props["device_type"]) == Ascii("memory")
    && "reg" in n.props && |n.props["reg"]| % 16 == 0
  }

  /** A buffer spells a text as a C string: it is the text, or the text and a NUL begin it. */
  lemma SpellsIff(buf: seq<Byte>, s: seq<Byte>)
    requires 0 !in s
    ensures CString(buf) == s <==> buf == s || s + [0] <= buf
  {
    hide CString;
    StartsWithCString(buf, s);
    CStringClean(s);
    CStringWhole(buf);
  }

  /** A memory node: enabled, of the type "memory", with a property of whole base and size pairs. */
  lemma MemoryNodeIff(n: Node)
    ensures MemoryNode(n) <==>
              && IsNodeEnabled(n) && "device_type" in n.props && "reg" in n.props
              && (n.props["device_type"] == MEMORY_TEXT || MEMORY_TEXT + [0] <= n.props["device_type"])
              && exists pairs: nat :: |n.props["reg"]| == 16 * pairs
  {
    hide IsNodeEnabled, CString;
    assert Ascii("memory") == MEMORY_TEXT;
    hide Ascii;
    if "device_type" in n.props {
      SpellsIff(n.props["device_type"], MEMORY_TEXT);
    }
    if "reg" in n.props && |n.props["reg"]| % 16 == 0 {
      assert |n.props["reg"]| == 16 * (|n.props["reg"]| / 16);
    }
  }

  const MEMORY_TEXT: seq<Byte> := [0x6d, 0x65, 0x6d, 0x6f, 0x72, 0x79]

  /** A C string as long as its buffer is the buffer. */
  lemma {:induction false} CStringWhole(buf: seq<Byte>)
    ensures |CString(buf)| >= |buf| ==> CString(buf) == buf
    ensures |CString(buf)| <= |buf|
  {
    if buf != [] {
      CStringWhole(buf[1..]);
    }
  }

  /** FindNextCompatibleNode: the next enabled node after `prev` whose list holds the name. */
  method FindNextCompatibleNode(tree: Tree, name: seq<Byte>, prevNode: nat) returns (node: Option<nat>)
    ensures match node
            case None => forall i :: prevNode < i < |tree| ==> !Compatible(tree[i], name)
            case Some(k) => prevNode < k < |tree| && Compatible(tree[k], name) &&
                            forall i :: prevNode < i < k ==> !Compatible(tree[i], name)
  {
    hide IsNodeEnabled, Names;
    var next := prevNode + 1;
    while next < |tree|
      invariant prevNode < next && (forall i :: prevNode < i < next && i < |tree| ==> !Compatible(tree[i], name))
    {
      if IsNodeEnabled(tree[next]) && "compatible" in tree[next].props {
        var found := HasName(tree[next].props["compatible"], name);
        if found {
          return Some(next);
        }
      }
      next := next + 1;
    }
    return None;
  }

  /** FindNextMemoryNodeReg, which passes over nodes whose 'reg' is missing or not a multiple of 16 bytes. */
  method FindNextMemoryNodeReg(tree: Tree, prevNode: nat) returns (node: Option<nat>, reg: seq<Byte>)
    ensures match node
            case None => forall i :: prevNode < i < |tree| ==> !MemoryNode(tree[i])
            case Some(k) => prevNode < k < |tree| && MemoryNode(tree[k]) && reg == tree[k].props["reg"] &&
                            forall i :: prevNode < i < k ==> !MemoryNode(tree[i])
  {
    hide IsNodeEnabled, Ascii;
    var next := prevNode + 1;
    while next < |tree|
      invariant prevNode < next && (forall i :: prevNode < i < next && i < |tree| ==> !MemoryNode(tree[i]))
    {
      var n := tree[next];
      if IsNodeEnabled(n) && "device_type" in n.props && CString(n.props["device_type"]) == Ascii("memory") {
        if "reg" in n.props && |n.props["reg"]| % 16 == 0 {
          return Some(next), n.props["reg"];
        }
      }
      next := next + 1;
    }
    return None, [];
  }

  /** The nodes after `prev` that hold the name, in tree order. */
  function CompatibleAfter(tree: Tree, name: seq<Byte>, prev: nat): (nodes: seq<nat>)
    decreases |tree| - prev
  {
    if prev + 1 >= |tree| then []
    else (if Compatible(tree[prev + 1], name) then [prev + 1] else []) + CompatibleAfter(tree, name, prev + 1)
  }

  ghost predicate Increasing(s: seq<nat>) {
    forall x, y :: 0 <= x < y < |s| ==> s[x] < s[y]
  }

  /** That list is complete, sound, and in tree order without repetition. */
  lemma {:induction false} CompatibleAfterIs(tree: Tree, name: seq<Byte>, prev: nat)
    ensures forall i :: i in CompatibleAfter(tree, name, prev) <==> prev < i < |tree| && Compatible(tree[i], name)
    ensures Increasing(CompatibleAfter(tree, name, prev))
    decreases |tree| - prev
  {
    hide Compatible;
    if prev + 1 < |tree| {
      var nodes, rest := CompatibleAfter(tree, name, prev), CompatibleAfter(tree, name, prev + 1);
      CompatibleAfterIs(tree, name, prev + 1);
      forall x | 0 <= x < |rest|
        ensures prev + 1 < rest[x]
      {
        assert rest[x] in rest;
      }
      if Compatible(tree[prev + 1], name) {
        assert nodes == [prev + 1] + rest;
        assert Increasing(nodes);
      } else {
        assert nodes == rest;
      }
    }
  }

  lemma CompatibleStep(tree: Tree, name: seq<Byte>, prev: nat)
    requires prev + 1 < |tree|
    ensures CompatibleAfter(tree, name, prev)
         == (if Compatible(tree[prev + 1], name) then [prev + 1] else []) + CompatibleAfter(tree, name, prev + 1)
  {
  }

  lemma {:induction false} SkipIncompatible(tree: Tree, name: seq<Byte>, prev: nat, k: nat)
    requires prev <= k && (forall i :: prev < i <= k && i < |tree| ==> !Compatible(tree[i], name))
    ensures CompatibleAfter(tree, name, prev) == CompatibleAfter(tree, name, k)
    decreases k - prev
  {
    hide Compatible;
    if prev < k {
      SkipIncompatible(tree, name, prev + 1, k);
      if prev + 1 < |tree| {
        CompatibleStep(tree, name, prev);
        assert [] + CompatibleAfter(tree, name, prev + 1) == CompatibleAfter(tree, name, prev + 1);
      } else {
        assert CompatibleAfter(tree, name, prev + 1) == [];
      }
    }
  }

  /**
   Enumeration by repeated calls, each resuming at the node found last, starting at node
   0: every compatible node except the root, each once and in tree order.
   */
  method EnumerateCompatible(tree: Tree, name: seq<Byte>) returns (nodes: seq<nat>)
    ensures nodes == CompatibleAfter(tree, name, 0)
  {
    hide Compatible;
    nodes := [];
    var prev := 0;
    while true
      invariant nodes + CompatibleAfter(tree, name, prev) == CompatibleAfter(tree, name, 0)
      decreases |tree| - prev
    {
      var node := FindNextCompatibleNode(tree, name, prev);
      match node {
        case None =>
          SkipIncompatible(tree, name, prev, if prev < |tree| then |tree| else prev);
          assert nodes + [] == nodes;
          return;
        case Some(k) =>
          SkipIncompatible(tree, name, prev, k - 1);
          assert CompatibleAfter(tree, name, k - 1) == [k] + CompatibleAfter(tree, name, k);
          assert nodes + ([k] + CompatibleAfter(tree, name, k)) == (nodes + [k]) + CompatibleAfter(tree, name, k);
          nodes := nodes + [k];
          prev := k;
      }
    }
  }

  // ----- Registering RAM -----

  const WORD32: nat := 0x1_0000_0000

  /** A big-endian cell: SwapBytes32 of a little-endian load. */
  function Cell(b: seq<Byte>, i: nat): (v: nat)
    requires i + 4 <= |b|
    ensures v < WORD32
  {
    (b[i] as int) * 0x100_0000 + (b[i + 1] as int) * 0x1_0000 + (b[i + 2] as int) * 0x100 + b[i + 3]
  }

  function Quantity(b: seq<Byte>, i: nat): (v: nat)
    requires i + 8 <= |b|
  {
    Cell(b, i) * WORD32 + Cell(b, i + 4)
  }

  /** The number some bytes spell, most significant first. */
  function BigEndian(b: seq<Byte>): (v: nat)
  {
    if b == [] then 0 else BigEndian(b[..|b| - 1]) * 256 + b[|b| - 1]
  }

  /** Two swapped cells, anywhere in a property, are one big-endian number of eight bytes. */
  lemma QuantityIsBigEndian(b: seq<Byte>, i: nat)
    requires i + 8 <= |b|
    ensures Quantity(b, i) == BigEndian(b[i..i + 8])
  {
    hide BigEndian;
    var q := b[i..i + 8];
    assert forall k :: 0 <= k < 8 ==> q[k] == b[i + k];
    assert q[..0] == [] && q[..8] == q;
    BigEndianNothing();
    BigEndianNext(q, 0);
    BigEndianNext(q, 1);
    BigEndianNext(q, 2);
    BigEndianNext(q, 3);
    BigEndianNext(q, 4);
    BigEndianNext(q, 5);
    BigEndianNext(q, 6);
    BigEndianNext(q, 7);
  }

  /** The ranges of a property are its groups of sixteen bytes: eight for the base, eight for the size. */
  lemma RangesAre(reg: seq<Byte>, k: nat)
    requires |reg| % 16 == 0 && 16 * k < |reg|
    ensures k < |Ranges(reg)| == |reg| / 16
    ensures Ranges(reg)[k] == (BigEndian(reg[16 * k..16 * k + 8]), BigEndian(reg[16 * k + 8..16 * k + 16]))
  {
    hide BigEndian, Quantity;
    QuantityIsBigEndian(reg, 16 * k);
    QuantityIsBigEndian(reg, 16 * k + 8);
  }

  lemma BigEndianNothing()
    ensures BigEndian([]) == 0
  {
  }

  lemma BigEndianNext(b: seq<Byte>, k: nat)
    requires k < |b|
    ensures BigEndian(b[..k + 1]) == BigEndian(b[..k]) * 256 + b[k]
  {
    assert b[..k + 1][..k] == b[..k];
  }

  /** The base and size pairs of a 'reg' property. */
  function Ranges(reg: seq<Byte>): (r: seq<Range>)
    requires |reg| % 16 == 0
    ensures |r| == |reg| / 16
    ensures forall k :: 0 <= k < |r| ==> r[k] == (Quantity(reg, 16 * k), Quantity(reg, 16 * k + 8))
  {
    seq(|reg| / 16, k requires 0 <= k < |reg| / 16 => (Quantity(reg, 16 * k), Quantity(reg, 16 * k + 8)))
  }

  /**
   Why the other file's check matters: RegSize is a UINT32 that drops by 16 in every pass,
   so it reaches zero if and only if it started as a multiple of 16.
   */
  lemma CountdownEndsIff(regSize: nat)
    requires regSize < WORD32
    ensures (exists passes: nat :: (regSize - 16 * passes) % WORD32 == 0) <==> regSize % 16 == 0
  {
    if regSize % 16 == 0 {
      var passes := regSize / 16;
      assert (regSize - 16 * passes) % WORD32 == 0;
    }
    forall passes: nat | (regSize - 16 * passes) % WORD32 == 0
      ensures regSize % 16 == 0
    {
      var wraps := (regSize - 16 * passes) / WORD32;
      assert regSize == 16 * (passes + wraps * (WORD32 / 16));
    }
  }

  datatype Kind = NonExistent | SystemMemory | OtherKind

  type Range = (nat, nat)

  predicate Within(a: nat, r: Range) {
    r.0 <= a < r.0 + r.1
  }

  /**
   The GCD memory space map at the start: the kind of each address (None outside the map);
   `refuses` stands for the reasons beside overlap that AddMemorySpace may have to fail.
   */
  datatype Gcd = Gcd(initial: nat -> Option<Kind>, refuses: Range -> bool)

  /** The kind of an address once these ranges have been added. */
  function KindAt(g: Gcd, added: seq<Range>, a: nat): (k: Option<Kind>)
  {
    if exists r <- added :: Within(a, r) then Some(SystemMemory) else g.initial(a)
  }

  /** AddMemorySpace turns a wholly nonexistent range into system memory, or fails. */
  predicate Addable(g: Gcd, added: seq<Range>, r: Range) {
    r.1 > 0 && !g.refuses(r) && forall a :: r.0 <= a < r.0 + r.1 ==> KindAt(g, added, a) == Some(NonExistent)
  }

  /** What one range of a memory node leads to. */
  function AddOne(g: Gcd, added: seq<Range>, r: Range): (added': seq<Range>)
  {
    if KindAt(g, added, r.0) == Some(NonExistent) && Addable(g, added, r) then added + [r] else added
  }

  function AddAll(g: Gcd, added: seq<Range>, ranges: seq<Range>): (added': seq<Range>)
  {
    if ranges == [] then added else AddOne(g, AddAll(g, added, ranges[..|ranges| - 1]), ranges[|ranges| - 1])
  }

  lemma {:induction false} AddAllAppend(g: Gcd, added: seq<Range>, x: seq<Range>, y: seq<Range>)
    ensures AddAll(g, added, x + y) == AddAll(g, AddAll(g, added, x), y)
  {
    hide AddOne;
    if y == [] {
      assert x + y == x;
    } else {
      assert (x + y)[..|x + y| - 1] == x + y[..|y| - 1];
      AddAllAppend(g, added, x, y[..|y| - 1]);
    }
  }

  /** An address that exists keeps its kind through any registration. */
  lemma {:induction false} ExistingKept(g: Gcd, ranges: seq<Range>, a: nat)
    requires g.initial(a) != Some(NonExistent)
    ensures KindAt(g, AddAll(g, [], ranges), a) == g.initial(a)
  {
    if ranges != [] {
      var before, r := AddAll(g, [], ranges[..|ranges| - 1]), ranges[|ranges| - 1];
      ExistingKept(g, ranges[..|ranges| - 1], a);
      if AddOne(g, before, r) != before {
        assert Within(a, r) ==> KindAt(g, before, a) == Some(NonExistent);
        assert forall q :: q in before + [r] <==> q in before || q == r;
      }
    }
  }

  ghost predicate Apart(ranges: seq<Range>) {
    forall i, j, a :: 0 <= i < j < |ranges| && Within(a, ranges[i]) ==> !Within(a, ranges[j])
  }

  /** Everything added comes from the ranges, and no two added ranges overlap. */
  lemma {:induction false} AddedAreDisjointRanges(g: Gcd, ranges: seq<Range>)
    ensures forall r :: r in AddAll(g, [], ranges) ==> r in ranges && r.1 > 0
    ensures Apart(AddAll(g, [], ranges))
  {
    if ranges != [] {
      var before, r := AddAll(g, [], ranges[..|ranges| - 1]), ranges[|ranges| - 1];
      var added := AddAll(g, [], ranges);
      AddedAreDisjointRanges(g, ranges[..|ranges| - 1]);
      assert forall q :: q in ranges[..|ranges| - 1] ==> q in ranges;
      assert added == AddOne(g, before, r);
      if added != before {
        assert added == before + [r] && r in ranges;
        forall i, a | 0 <= i < |before| && Within(a, before[i])
          ensures !Within(a, r)
        {
          assert before[i] in before;
          assert KindAt(g, before, a) == Some(SystemMemory);
        }
      }
    }
  }

  /** A nonempty, acceptable range of nonexistent memory that no earlier range touches is added. */
  lemma {:induction false} FreeRangeIsAdded(g: Gcd, ranges: seq<Range>, k: nat)
    requires k < |ranges| && ranges[k].1 > 0 && !g.refuses(ranges[k])
    requires forall a :: Within(a, ranges[k]) ==> g.initial(a) == Some(NonExistent)
    requires forall i, a :: 0 <= i < k && Within(a, ranges[i]) ==> !Within(a, ranges[k])
    ensures ranges[k] in AddAll(g, [], ranges)
  {
    var n := |ranges| - 1;
    if k < n {
      FreeRangeIsAdded(g, ranges[..n], k);
    } else {
      var before, r := AddAll(g, [], ranges[..n]), ranges[n];
      AddedAreDisjointRanges(g, ranges[..n]);
      assert forall q <- before :: q in ranges[..n];
      assert forall a :: Within(a, r) ==> KindAt(g, before, a) == Some(NonExistent);
      assert Within(r.0, r);
    }
  }

  /** The memory space map as HighMemDxe changes it. */
  class MemorySpace {
    const gcd: Gcd
    var added: seq<Range>

    constructor (start: Gcd)
      ensures gcd == start && added == []
    {
      gcd, added := start, [];
    }

    method AddMemorySpace(base: nat, size: nat) returns (ok: bool)
      modifies this
      ensures ok == Addable(gcd, old(added), (base, size))
      ensures added == if ok then old(added) + [(base, size)] else old(added)
    {
      ok := Addable(gcd, added, (base, size));
      if ok {
        added := added + [(base, size)];
      }
    }

    /** One pass over a range of a memory node. */
    method Register(base: nat, size: nat)
      modifies this
      ensures added == AddOne(gcd, old(added), (base, size))
    {
      var kind := KindAt(gcd, added, base);
      if kind == None {
        return;
      }
      if kind.value == NonExistent {
        var ok := AddMemorySpace(base, size);
      }
    }

    /** The decoding loop of InitializeHighMemDxe on one 'reg' property. */
    method RegisterReg(reg: seq<Byte>)
      requires |reg| % 16 == 0
      modifies this
      ensures added == AddAll(gcd, old(added), Ranges(reg))
    {
      hide AddOne, Quantity;
      var regSize, at := |reg|, 0;
      ghost var done := 0;
      while regSize > 0
        invariant 0 <= regSize && at + regSize == |reg| && at == 16 * done
        invariant added == AddAll(gcd, old(added), Ranges(reg)[..done])
        decreases regSize
      {
        var curBase := Quantity(reg, at);
        var curSize := Quantity(reg, at + 8);
        Register(curBase, curSize);
        assert Ranges(reg)[..done + 1][..done] == Ranges(reg)[..done];
        at, regSize, done := at + 16, regSize - 16, done + 1;
      }
      assert Ranges(reg)[..done] == Ranges(reg);
    }
  }

  /** All ranges of the memory nodes after `prev`, in tree order. */
  function MemoryAfter(tree: Tree, prev: nat): (r: seq<Range>)
    decreases |tree| - prev
  {
    if prev + 1 >= |tree| then []
    else (if MemoryNode(tree[prev + 1]) then Ranges(tree[prev + 1].props["reg"]) else []) + MemoryAfter(tree, prev + 1)
  }

  /** The range belongs to the memory node at this position. */
  predicate BelongsTo(tree: Tree, i: nat, r: Range)
    requires i < |tree|
  {
    MemoryNode(tree[i]) && r in Ranges(tree[i].props["reg"])
  }

  lemma MemoryAfterFirst(tree: Tree, prev: nat, r: Range)
    requires prev + 1 < |tree|
    ensures r in MemoryAfter(tree, prev) <==> BelongsTo(tree, prev + 1, r) || r in MemoryAfter(tree, prev + 1)
  {
    hide Ranges, IsNodeEnabled, Ascii;
  }

  /** Exactly the ranges of the memory nodes behind `prev` are in the list. */
  lemma {:induction false} MemoryAfterIs(tree: Tree, prev: nat, r: Range)
    ensures r in MemoryAfter(tree, prev) <==> exists i :: prev < i < |tree| && BelongsTo(tree, i, r)
    decreases |tree| - prev
  {
    hide BelongsTo;
    if prev + 1 < |tree| {
      hide MemoryAfter;
      MemoryAfterFirst(tree, prev, r);
      MemoryAfterIs(tree, prev + 1, r);
    }
  }

  lemma {:induction false} SkipOthers(tree: Tree, prev: nat, k: nat)
    requires prev <= k && (forall i :: prev < i <= k && i < |tree| ==> !MemoryNode(tree[i]))
    ensures MemoryAfter(tree, prev) == MemoryAfter(tree, k)
    decreases k - prev
  {
    hide MemoryNode;
    if prev < k {
      SkipOthers(tree, prev + 1, k);
      if prev + 1 < |tree| {
        assert [] + MemoryAfter(tree, prev + 1) == MemoryAfter(tree, prev + 1);
      } else {
        assert MemoryAfter(tree, prev + 1) == [];
      }
    }
  }

  /**
   InitializeHighMemDxe. It ends, having registered exactly the ranges of the enabled
   memory nodes, in tree order.
   */
  method InitializeHighMemDxe(tree: Tree, space: MemorySpace)
    modifies space
    ensures space.added == AddAll(space.gcd, old(space.added), MemoryAfter(tree, 0))
  {
    hide MemoryNode, Ranges, AddAll;
    var node, reg := FindNextMemoryNodeReg(tree, 0);
    ghost var prev: nat, seen: seq<Range> := 0, [];
    NothingAdded(space.gcd, space.added);
    while node.Some?
      invariant seen + MemoryAfter(tree, prev) == MemoryAfter(tree, 0)
      invariant space.added == AddAll(space.gcd, old(space.added), seen)
      invariant FoundNext(tree, prev, node, reg)
      decreases |tree| - prev
    {
      NextMemory(tree, prev, node.value, reg);
      space.RegisterReg(reg);
      AddAllAppend(space.gcd, old(space.added), seen, Ranges(reg));
      assert seen + (Ranges(reg) + MemoryAfter(tree, node.value)) == (seen + Ranges(reg)) + MemoryAfter(tree, node.value);
      seen, prev := seen + Ranges(reg), node.value;
      node, reg := FindNextMemoryNodeReg(tree, node.value);
    }
    SkipOthers(tree, prev, if prev < |tree| then |tree| else prev);
    assert seen + [] == seen;
  }

  lemma NothingAdded(g: Gcd, added: seq<Range>)
    ensures AddAll(g, added, []) == added
  {
  }

  ghost predicate FoundNext(tree: Tree, prev: nat, node: Option<nat>, reg: seq<Byte>) {
    match node
    case None => forall i :: prev < i < |tree| ==> !MemoryNode(tree[i])
    case Some(k) => prev < k < |tree| && MemoryNode(tree[k]) && reg == tree[k].props["reg"] &&
                    forall i :: prev < i < k ==> !MemoryNode(tree[i])
  }

  lemma NextMemory(tree: Tree, prev: nat, k: nat, reg: seq<Byte>)
    requires FoundNext(tree, prev, Some(k), reg)
    ensures |reg| % 16 == 0 && MemoryAfter(tree, prev) == Ranges(reg) + MemoryAfter(tree, k)
  {
    hide IsNodeEnabled, Ascii, Ranges;
    SkipOthers(tree, prev, k - 1);
  }
}
