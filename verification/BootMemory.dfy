/**
 The boot memory map: where InitializeMemory places UEFI memory around the firmware
 image, and how MemoryPeim splits the resource descriptor that holds the firmware.
 */
module BootMemory {
  import opened Bytes

  const EFI_RESOURCE_SYSTEM_MEMORY := 0
  const SYSTEM_MEMORY_ATTRIBUTES := 0x3807
  const EFI_BOOT_SERVICES_DATA := 4

  /** A hand-off block; only resource descriptors and memory allocations matter here. */
  datatype Hob =
    | Resource(kind: nat, attributes: nat, start: nat, length: nat)
    | Allocation(base: nat, size: nat, memoryType: nat)
    | Other

  /** The platform settings the code reads. */
  datatype Platform = Platform(memBase: nat, memSize: nat, fdBase: nat, fdSize: nat)

  function Add64(a: nat, b: nat): (s: nat)
    ensures a + b < WORD64 ==> s == a + b
  {
    Word(a + b)
  }

  function MemTop(p: Platform): (top: nat) { Add64(p.memBase, p.memSize) }

  function FdTop(p: Platform): (top: nat) { Add64(p.fdBase, p.fdSize) }

  function Top(h: Hob): (top: nat)
    requires h.Resource?
  {
    Add64(h.start, h.length)
  }

  predicate SystemMemory(h: Hob) {
    h.Resource? && h.kind == EFI_RESOURCE_SYSTEM_MEMORY
  }

  /** The test of the first search. */
  predicate Declares(h: Hob, p: Platform) {
    SystemMemory(h) && p.memBase >= h.start && Top(h) <= MemTop(p)
  }

  /** The test of the second search. */
  predicate Holds(h: Hob, p: Platform) {
    SystemMemory(h) && p.fdBase >= h.start && FdTop(p) <= Top(h)
  }

  predicate FdInMemory(p: Platform) {
    p.fdBase >= p.memBase && FdTop(p) <= MemTop(p)
  }

  /** The firmware is in memory exactly if each of its addresses is. */
  lemma FdInMemoryIff(p: Platform)
    requires p.memBase + p.memSize < WORD64 && p.fdBase + p.fdSize < WORD64 && p.fdSize > 0
    ensures FdInMemory(p) <==> forall a :: p.fdBase <= a < p.fdBase + p.fdSize ==> AddressInMemory(p, a)
  {
    if forall a :: p.fdBase <= a < p.fdBase + p.fdSize ==> AddressInMemory(p, a) {
      assert AddressInMemory(p, p.fdBase) && AddressInMemory(p, p.fdBase + p.fdSize - 1);
    }
  }

  predicate AddressInMemory(p: Platform, a: int) {
    p.memBase <= a < p.memBase + p.memSize
  }

  /** Which descriptors pass the first search: those of system memory that start no later and end no later than it. */
  lemma DeclaresIff(h: Hob, p: Platform)
    requires p.memBase + p.memSize < WORD64 && h.Resource? && h.start + h.length < WORD64
    ensures Declares(h, p) <==> h.kind == 0 && h.start <= p.memBase && h.start + h.length <= p.memBase + p.memSize
  {
  }

  /** The HOB list when the split begins. */
  function Declared(hobs: seq<Hob>, p: Platform): (hobs': seq<Hob>)
  {
    if exists h <- hobs :: Declares(h, p) then hobs
    else hobs + [Resource(EFI_RESOURCE_SYSTEM_MEMORY, SYSTEM_MEMORY_ATTRIBUTES, p.memBase, p.memSize)]
  }

  function FdHob(h: Hob, p: Platform): (fd: Hob)
    requires h.Resource?
  {
    Resource(EFI_RESOURCE_SYSTEM_MEMORY, h.attributes, p.fdBase, p.fdSize)
  }

  /** The found descriptor after the split and the descriptors appended for it. */
  function Pieces(h: Hob, p: Platform): (r: (Hob, seq<Hob>))
    requires Holds(h, p)
  {
    if p.fdBase == h.start then
      if MemTop(p) == FdTop(p) then (h, [])
      else (h.(start := Add64(h.start, p.fdSize), length := Word(h.length - p.fdSize)), [FdHob(h, p)])
    else
      (h.(length := p.fdBase - h.start),
       [FdHob(h, p)] +
       if FdTop(p) < Top(h)
       then [Resource(EFI_RESOURCE_SYSTEM_MEMORY, h.attributes, FdTop(p), Top(h) - FdTop(p))] else [])
  }

  function Split(hobs: seq<Hob>, i: nat, p: Platform): (hobs': seq<Hob>)
    requires i < |hobs| && Holds(hobs[i], p)
  {
    hobs[i := Pieces(hobs[i], p).0] + Pieces(hobs[i], p).1
    + [Allocation(p.fdBase, p.fdSize, EFI_BOOT_SERVICES_DATA)]
  }

  /** The first descriptor from `i` on that holds the firmware, or the length. */
  function FirstHolding(hobs: seq<Hob>, p: Platform, i: nat): (k: nat)
    requires i <= |hobs|
    ensures i <= k <= |hobs| && (k < |hobs| ==> Holds(hobs[k], p))
    ensures forall j :: i <= j < k ==> !Holds(hobs[j], p)
    decreases |hobs| - i
  {
    if i == |hobs| || Holds(hobs[i], p) then i else FirstHolding(hobs, p, i + 1)
  }

  /** What MemoryPeim leaves, and whether its ASSERT(Found) holds. */
  function Result(hobs: seq<Hob>, p: Platform): (r: (seq<Hob>, bool))
  {
    var declared := Declared(hobs, p);
    if !FdInMemory(p) then (declared, true)
    else
      var i := FirstHolding(declared, p, 0);
      if i == |declared| then (declared, false) else (Split(declared, i, p), true)
  }

  class HobList {
    var hobs: seq<Hob>

    constructor (initial: seq<Hob>)
      ensures hobs == initial
    {
      hobs := initial;
    }

    method BuildResourceDescriptorHob(kind: nat, attributes: nat, start: nat, length: nat)
      modifies this
      ensures hobs == old(hobs) + [Resource(kind, attributes, start, length)]
    {
      hobs := hobs + [Resource(kind, attributes, start, length)];
    }

    /** MemoryPeim, up to the set-up of the MMU; `found` is the value ASSERT(Found) sees. */
    method MemoryPeim(p: Platform) returns (found: bool)
      modifies this
      ensures (hobs, found) == old(Result(hobs, p))
    {
      found := false;
      var i := 0;
      while i < |hobs| && !found
        invariant 0 <= i <= |hobs| && hobs == old(hobs)
        invariant found <==> exists j :: 0 <= j < i && Declares(hobs[j], p)
      {
        found := Declares(hobs[i], p);
        i := i + 1;
      }
      if !found {
        BuildResourceDescriptorHob(EFI_RESOURCE_SYSTEM_MEMORY, SYSTEM_MEMORY_ATTRIBUTES, p.memBase, p.memSize);
      }
      assert hobs == Declared(old(hobs), p);
      found := true;
      if p.fdBase >= p.memBase && FdTop(p) <= MemTop(p) {
        found := SplitFirmware(p);
      }
    }

    /** The second search and the split of the descriptor it finds, in place. */
    method SplitFirmware(p: Platform) returns (found: bool)
      modifies this
      ensures var i := FirstHolding(old(hobs), p, 0);
              if i == |old(hobs)| then !found && hobs == old(hobs)
              else found && hobs == Split(old(hobs), i, p)
    {
      var i := 0;
      while i < |hobs|
        invariant 0 <= i <= |hobs| && hobs == old(hobs)
        invariant FirstHolding(hobs, p, 0) == FirstHolding(hobs, p, i)
      {
        if Holds(hobs[i], p) {
          var h := hobs[i];
          if p.fdBase == h.start {
            if MemTop(p) != FdTop(p) {
              BuildResourceDescriptorHob(EFI_RESOURCE_SYSTEM_MEMORY, h.attributes, p.fdBase, p.fdSize);
              hobs := hobs[i := h.(start := Add64(h.start, p.fdSize), length := Word(h.length - p.fdSize))];
            }
          } else {
            BuildResourceDescriptorHob(EFI_RESOURCE_SYSTEM_MEMORY, h.attributes, p.fdBase, p.fdSize);
            hobs := hobs[i := h.(length := p.fdBase - h.start)];
            if FdTop(p) < Top(h) {
              BuildResourceDescriptorHob(EFI_RESOURCE_SYSTEM_MEMORY, h.attributes, FdTop(p), Top(h) - FdTop(p));
            }
          }
          hobs := hobs + [Allocation(p.fdBase, p.fdSize, EFI_BOOT_SERVICES_DATA)];
          return true;
        }
        i := i + 1;
      }
      return false;
    }
  }

  // ----- Conservation -----

  /** Sums that do not wrap. */
  ghost predicate NoWrap(hobs: seq<Hob>, p: Platform) {
    && p.memBase + p.memSize < WORD64 && p.fdBase + p.fdSize < WORD64
    && forall h <- hobs :: SystemMemory(h) ==> h.start + h.length < WORD64
  }

  function CoverOne(h: Hob, a: nat, attributes: nat): (n: nat)
  {
    if SystemMemory(h) && h.attributes == attributes && h.start <= a < h.start + h.length then 1 else 0
  }

  /** How many system-memory descriptors with these attributes cover an address. */
  function Cover(hobs: seq<Hob>, a: nat, attributes: nat): (n: nat)
  {
    if hobs == [] then 0
    else Cover(hobs[..|hobs| - 1], a, attributes) + CoverOne(hobs[|hobs| - 1], a, attributes)
  }

  lemma {:induction false} CoverAppend(x: seq<Hob>, y: seq<Hob>, a: nat, attributes: nat)
    ensures Cover(x + y, a, attributes) == Cover(x, a, attributes) + Cover(y, a, attributes)
  {
    if y == [] {
      assert x + y == x;
    } else {
      assert (x + y)[..|x + y| - 1] == x + y[..|y| - 1];
      CoverAppend(x, y[..|y| - 1], a, attributes);
    }
  }

  lemma {:induction false} CoverUpdate(hobs: seq<Hob>, i: nat, h: Hob, a: nat, attributes: nat)
    requires i < |hobs|
    ensures Cover(hobs[i := h], a, attributes) + CoverOne(hobs[i], a, attributes)
         == Cover(hobs, a, attributes) + CoverOne(h, a, attributes)
  {
    hide CoverOne;
    var n := |hobs| - 1;
    if i == n {
      assert hobs[i := h][..n] == hobs[..n];
    } else {
      assert hobs[i := h][..n] == hobs[..n][i := h];
      CoverUpdate(hobs[..n], i, h, a, attributes);
    }
  }

  lemma CoverFew(hobs: seq<Hob>, a: nat, attributes: nat)
    requires |hobs| <= 2
    ensures Cover(hobs, a, attributes) == (if |hobs| >= 1 then CoverOne(hobs[0], a, attributes) else 0)
                                        + (if |hobs| == 2 then CoverOne(hobs[1], a, attributes) else 0)
  {
    hide CoverOne;
    if |hobs| == 2 {
      assert hobs[..1] == [hobs[0]];
      CoverFew(hobs[..1], a, attributes);
    } else if |hobs| == 1 {
      assert hobs[..0] == [];
    }
  }

  /** The pieces of a split descriptor cover exactly what it covered. */
  lemma PiecesCover(h: Hob, p: Platform, a: nat, attributes: nat)
    requires Holds(h, p) && h.start + h.length < WORD64 && p.fdBase + p.fdSize < WORD64
    ensures CoverOne(Pieces(h, p).0, a, attributes) + Cover(Pieces(h, p).1, a, attributes) == CoverOne(h, a, attributes)
  {
    hide Cover;
    CoverFew(Pieces(h, p).1, a, attributes);
  }

  /** Memory conservation: the split leaves the address-to-attributes map of system memory unchanged. */
  lemma SplitConserves(hobs: seq<Hob>, i: nat, p: Platform, a: nat, attributes: nat)
    requires i < |hobs| && Holds(hobs[i], p) && NoWrap(hobs, p)
    ensures Cover(Split(hobs, i, p), a, attributes) == Cover(hobs, a, attributes)
  {
    hide Pieces, CoverOne;
    var h := hobs[i];
    var h', more := Pieces(h, p).0, Pieces(h, p).1;
    var tail := [Allocation(p.fdBase, p.fdSize, EFI_BOOT_SERVICES_DATA)];
    PiecesCover(h, p, a, attributes);
    CoverUpdate(hobs, i, h', a, attributes);
    CoverAppend(hobs[i := h'], more, a, attributes);
    CoverAppend(hobs[i := h'] + more, tail, a, attributes);
    AllocationCoversNothing(p, a, attributes);
  }

  lemma AllocationCoversNothing(p: Platform, a: nat, attributes: nat)
    ensures Cover([Allocation(p.fdBase, p.fdSize, EFI_BOOT_SERVICES_DATA)], a, attributes) == 0
  {
    var tail := [Allocation(p.fdBase, p.fdSize, EFI_BOOT_SERVICES_DATA)];
    CoverFew(tail, a, attributes);
  }

  // ----- Disjointness and the firmware's own descriptor -----

  ghost predicate Overlap(h: Hob, k: Hob, a: nat) {
    SystemMemory(h) && SystemMemory(k) && h.start <= a < h.start + h.length && k.start <= a < k.start + k.length
  }

  ghost predicate PairwiseDisjoint(hobs: seq<Hob>) {
    forall i, j, a: nat :: 0 <= i < j < |hobs| ==> !Overlap(hobs[i], hobs[j], a)
  }

  lemma DisjointAt(hobs: seq<Hob>, i: nat, j: nat, a: nat)
    requires PairwiseDisjoint(hobs) && i < |hobs| && j < |hobs| && i != j
    ensures !Overlap(hobs[i], hobs[j], a)
  {
    assert Overlap(hobs[i], hobs[j], a) == Overlap(hobs[j], hobs[i], a);
  }

  /** Each piece lies inside the descriptor, and no two pieces meet. */
  lemma PiecesInside(h: Hob, p: Platform)
    requires Holds(h, p) && h.start + h.length < WORD64 && p.fdBase + p.fdSize < WORD64
    ensures var parts := [Pieces(h, p).0] + Pieces(h, p).1;
            && (forall k <- parts :: SystemMemory(k) && h.start <= k.start && k.start + k.length <= h.start + h.length)
            && PairwiseDisjoint(parts)
  {
  }

  /** The split keeps system memory pairwise disjoint. */
  lemma SplitKeepsDisjoint(hobs: seq<Hob>, i: nat, p: Platform)
    requires i < |hobs| && Holds(hobs[i], p) && NoWrap(hobs, p) && PairwiseDisjoint(hobs)
    ensures PairwiseDisjoint(Split(hobs, i, p))
  {
    hide Pieces;
    var after := Split(hobs, i, p);
    var parts := [Pieces(hobs[i], p).0] + Pieces(hobs[i], p).1;
    PiecesInside(hobs[i], p);
    forall x, y, a: nat | 0 <= x < y < |after|
      ensures !Overlap(after[x], after[y], a)
    {
      // a descriptor after the split is an old one or a piece of the i-th
      assert x < |hobs| && x != i ==> after[x] == hobs[x];
      assert y < |hobs| && y != i ==> after[y] == hobs[y];
      if y < |after| - 1 {
        var px, py := if x == i then 0 else x - |hobs| + 1, if y == i then 0 else y - |hobs| + 1;
        if (x == i || x >= |hobs|) && (y == i || y >= |hobs|) {
          assert 0 <= px < py < |parts| && after[x] == parts[px] && after[y] == parts[py];
          assert !Overlap(parts[px], parts[py], a);
        } else if x == i || x >= |hobs| {
          assert after[x] == parts[px];
          DisjointAt(hobs, i, y, a);
        } else if y == i || y >= |hobs| {
          assert after[y] == parts[py];
          DisjointAt(hobs, x, i, a);
        } else {
          DisjointAt(hobs, x, y, a);
        }
      }
    }
  }

  ghost predicate IsFirmware(h: Hob, p: Platform) {
    SystemMemory(h) && h.start == p.fdBase && h.length == p.fdSize
  }

  /** The descriptor the firmware shares without being split off: it starts with the firmware and goes on above all memory. */
  predicate LeftWhole(h: Hob, p: Platform)
    requires h.Resource?
  {
    p.fdBase == h.start && FdTop(p) == MemTop(p) && Top(h) > MemTop(p)
  }

  /**
   The split gives the firmware a descriptor of its own, except exactly when the found
   descriptor starts with the firmware, the firmware ends at the top of system memory and
   the descriptor extends above that top.
   */
  lemma FirmwareSplitOffIff(hobs: seq<Hob>, i: nat, p: Platform)
    requires i < |hobs| && Holds(hobs[i], p) && NoWrap(hobs, p) && PairwiseDisjoint(hobs) && p.fdSize > 0
    ensures (exists h <- Split(hobs, i, p) :: IsFirmware(h, p)) <==> !LeftWhole(hobs[i], p)
  {
    var h := hobs[i];
    var after := Split(hobs, i, p);
    if LeftWhole(h, p) {
      forall k | k in after
        ensures !IsFirmware(k, p)
      {
        var x :| 0 <= x < |after| && after[x] == k;
        if x < |hobs| && x != i {
          DisjointAt(hobs, x, i, p.fdBase);
        }
      }
    } else if p.fdBase == h.start && MemTop(p) == FdTop(p) {
      assert IsFirmware(after[i], p);
    } else {
      assert IsFirmware(after[|hobs|], p);
    }
  }

  /** A descriptor of length zero is left behind exactly when the firmware fills a descriptor below the top of memory. */
  lemma EmptyRemainderIff(hobs: seq<Hob>, i: nat, p: Platform)
    requires i < |hobs| && Holds(hobs[i], p) && NoWrap(hobs, p) && p.fdSize > 0 && hobs[i].length > 0
    ensures Split(hobs, i, p)[i].length == 0
       <==> p.fdBase == hobs[i].start && FdTop(p) == Top(hobs[i]) && FdTop(p) != MemTop(p)
  {
    var h := hobs[i];
    assert Split(hobs, i, p)[i] == Pieces(h, p).0;
    assert FdTop(p) == p.fdBase + p.fdSize && Top(h) == h.start + h.length;
  }

  /** That is the only empty one: the firmware's descriptor and the one above it are not. */
  lemma OtherPiecesNonempty(h: Hob, p: Platform)
    requires Holds(h, p) && h.start + h.length < WORD64 && p.fdBase + p.fdSize < WORD64 && p.fdSize > 0
    ensures forall k <- Pieces(h, p).1 :: k.Resource? && k.length > 0
  {
  }

  /**
   The firmware is recorded as boot-services data exactly when a descriptor was found for
   it, and no other allocation is recorded.
   */
  lemma AllocationsAre(hobs: seq<Hob>, p: Platform)
    ensures var (after, found) := Result(hobs, p);
            var n := |after|;
            if FdInMemory(p) && found then
              n > 0 && after[n - 1] == Allocation(p.fdBase, p.fdSize, 4) && forall h <- after[..n - 1] :: h.Allocation? ==> h in hobs
            else forall h <- after :: h.Allocation? ==> h in hobs
  {
    hide Declares;
    var declared := Declared(hobs, p);
    var i := FirstHolding(declared, p, 0);
    assert forall h <- declared :: h.Allocation? ==> h in hobs;
    if FdInMemory(p) && i < |declared| {
      var after := Split(declared, i, p);
      forall h | h in after[..|after| - 1] && h.Allocation?
        ensures h in hobs
      {
        var k :| 0 <= k < |after| - 1 && after[k] == h;
        assert k < |declared| && k != i && h == declared[k];
      }
    }
  }

  /** When the first search added its own descriptor, the second finds one and ASSERT(Found) holds. */
  lemma AddedDescriptorIsFound(hobs: seq<Hob>, p: Platform)
    requires p.memBase + p.memSize < WORD64 && p.fdBase + p.fdSize < WORD64
    requires !exists h <- hobs :: Declares(h, p)
    ensures Result(hobs, p).1
  {
    if FdInMemory(p) {
      var declared := Declared(hobs, p);
      assert Holds(declared[|hobs|], p);
    }
  }

  /** In general ASSERT(Found) holds exactly when the firmware is outside memory or some descriptor holds it. */
  lemma AssertHoldsIff(hobs: seq<Hob>, p: Platform)
    requires p.memBase + p.memSize < WORD64 && p.fdBase + p.fdSize < WORD64
    ensures Result(hobs, p).1
       <==> !FdInMemory(p) || (!exists h <- hobs :: Declares(h, p)) || (exists h <- hobs :: Holds(h, p))
  {
    if !exists h <- hobs :: Declares(h, p) {
      AddedDescriptorIsFound(hobs, p);
    } else {
      var i := FirstHolding(hobs, p, 0);
      if h :| h in hobs && Holds(h, p) {
        var j :| 0 <= j < |hobs| && hobs[j] == h;
        assert i <= j;
      }
    }
  }

  /**
   The first search accepts any descriptor that starts at or below memory and ends by its
   top, even one wholly below it; ASSERT(Found) then fails on a sound configuration.
   */
  lemma AssertCanFail(attributes: nat)
    ensures !Result([Resource(EFI_RESOURCE_SYSTEM_MEMORY, attributes, 0, 0x1000)],
                    Platform(0x8000_0000, 0x4000_0000, 0x8000_0000, 0x10_0000)).1
  {
    var h := Resource(EFI_RESOURCE_SYSTEM_MEMORY, attributes, 0, 0x1000);
    var p := Platform(0x8000_0000, 0x4000_0000, 0x8000_0000, 0x10_0000);
    assert h in [h] && Declares(h, p);
    AssertHoldsIff([h], p);
  }

  /** What the descriptor of the first search adds at an address: once system memory, with the usual attributes, if no descriptor passed the test. */
  function AddedCover(hobs: seq<Hob>, p: Platform, a: nat, attributes: nat): (n: nat)
  {
    if (forall h <- hobs :: !Declares(h, p)) && attributes == 0x3807 && p.memBase <= a < p.memBase + p.memSize then 1 else 0
  }

  lemma DeclaredCover(hobs: seq<Hob>, p: Platform, a: nat, attributes: nat)
    ensures Cover(Declared(hobs, p), a, attributes) == Cover(hobs, a, attributes) + AddedCover(hobs, p, a, attributes)
  {
    hide Cover, Declares;
    var added := Resource(EFI_RESOURCE_SYSTEM_MEMORY, SYSTEM_MEMORY_ATTRIBUTES, p.memBase, p.memSize);
    CoverAppend(hobs, [added], a, attributes);
    CoverFew([added], a, attributes);
  }

  /**
   Over the whole call, for every address and attributes: coverage by system-memory
   descriptors is what it was, and one more on system memory exactly if no descriptor
   passed the first search.
   */
  lemma MemoryPeimConserves(hobs: seq<Hob>, p: Platform, a: nat, attributes: nat)
    requires NoWrap(hobs, p)
    ensures Cover(Result(hobs, p).0, a, attributes) == Cover(hobs, a, attributes) + AddedCover(hobs, p, a, attributes)
    ensures PairwiseDisjoint(Declared(hobs, p)) ==> PairwiseDisjoint(Result(hobs, p).0)
  {
    hide Split, Cover, AddedCover;
    var declared := Declared(hobs, p);
    var i := FirstHolding(declared, p, 0);
    DeclaredCover(hobs, p, a, attributes);
    if FdInMemory(p) && i < |declared| {
      SplitConserves(declared, i, p, a, attributes);
      if PairwiseDisjoint(declared) {
        SplitKeepsDisjoint(declared, i, p);
      }
    }
  }

  /** The list stays disjoint exactly if the first search adds nothing, or system memory that no descriptor covered. */
  lemma DeclaredDisjointIff(hobs: seq<Hob>, p: Platform)
    requires PairwiseDisjoint(hobs)
    ensures PairwiseDisjoint(Declared(hobs, p)) <==>
              (exists h <- hobs :: Declares(h, p)) ||
              forall i, a: nat :: 0 <= i < |hobs| ==> !Overlap(hobs[i], Resource(0, 0x3807, p.memBase, p.memSize), a)
  {
    hide Declares, Overlap;
    var added := Resource(0, 0x3807, p.memBase, p.memSize);
    var all := hobs + [added];
    if PairwiseDisjoint(all) {
      forall i, a: nat | 0 <= i < |hobs|
        ensures !Overlap(hobs[i], added, a)
      {
        assert all[i] == hobs[i] && all[|hobs|] == added;
      }
    }
    if forall i, a: nat :: 0 <= i < |hobs| ==> !Overlap(hobs[i], added, a) {
      forall i, j, a: nat | 0 <= i < j < |all|
        ensures !Overlap(all[i], all[j], a)
      {
        assert all[i] == hobs[i] && all[j] == if j < |hobs| then hobs[j] else added;
      }
    }
  }

  // ----- Placement of UEFI memory -----

  /** The word size of the target and its highest allocatable address. */
  datatype Target = Target(maxUintn: nat, maxAlloc: nat)

  function Uintn(x: int, t: Target): (y: nat)
    ensures 0 <= x <= t.maxUintn ==> y == x
  {
    x % (t.maxUintn + 1)
  }

  /** A UINTN is the value reduced by whole multiples of the word's size. */
  lemma UintnIs(x: nat, t: Target, wraps: nat, y: nat)
    requires y <= t.maxUintn && x == wraps * (t.maxUintn + 1) + y
    ensures Uintn(x, t) == y
  {
    ModIs(x, wraps, y, t.maxUintn + 1);
  }

  /** The top of system memory capped to what can be allocated. */
  function CappedTop(p: Platform, t: Target): (top: nat)
  {
    var top := Add64(Uintn(p.memBase, t), p.memSize);
    if Word(top - 1) > t.maxAlloc then t.maxAlloc + 1 else top
  }

  function Placed(p: Platform, regionSize: nat, t: Target): (region: Option<nat>)
  {
    var base, top := Uintn(p.memBase, t), CappedTop(p, t);
    var fdBase := Uintn(p.fdBase, t);
    var fdTop := Uintn(fdBase + p.fdSize, t);
    var inside := fdBase >= base && fdTop <= top;
    var clear := (fdBase < base || fdBase >= top) && (fdTop <= base || fdTop > top);
    if p.memSize == 0 || p.memBase >= t.maxAlloc then None
    else if inside && top - fdTop < regionSize then
      if Uintn(base + regionSize, t) <= fdBase then Some(Uintn(fdBase - regionSize, t)) else None
    else if inside || clear then Some(Uintn(top - regionSize, t))
    else None
  }

  /** Nothing wraps, and the region fits in the capped memory. */
  predicate Sane(p: Platform, regionSize: nat, t: Target) {
    && t.maxAlloc <= t.maxUintn < WORD64
    && p.memBase + p.memSize < WORD64 && p.fdBase + p.fdSize <= t.maxUintn
    && p.memBase + regionSize <= CappedTop(p, t) && p.memBase + regionSize <= t.maxUintn
  }

  /** The place lies in the capped memory. */
  predicate InMemory(base: nat, size: nat, p: Platform, t: Target) {
    p.memBase <= base && base + size <= CappedTop(p, t)
  }

  predicate AvoidsFirmware(base: nat, size: nat, p: Platform) {
    base + size <= p.fdBase || p.fdBase + p.fdSize <= base
  }

  /** The firmware begins below memory and ends above it. */
  predicate Surrounds(p: Platform, t: Target) {
    p.fdBase < p.memBase && p.fdBase + p.fdSize > CappedTop(p, t)
  }

  /** The firmware is partly in memory. */
  predicate Straddles(p: Platform, t: Target) {
    var fdTop, top := p.fdBase + p.fdSize, CappedTop(p, t);
    (p.memBase <= p.fdBase < top < fdTop) || (p.fdBase < p.memBase < fdTop <= top)
  }

  /**
   What the choice of a region means: a chosen one lies in the capped memory, avoids the
   firmware image exactly unless that surrounds memory, and is the highest place that does;
   and nothing is chosen exactly if there is no usable memory, the firmware is partly in
   it, or it does not surround memory and yet no place there avoids it.
   */
  ghost predicate WellPlaced(region: Option<nat>, p: Platform, regionSize: nat, t: Target) {
    match region
    case Some(base) =>
      && InMemory(base, regionSize, p, t) && CappedTop(p, t) <= p.memBase + p.memSize
      && (AvoidsFirmware(base, regionSize, p) <==> !Surrounds(p, t))
      && (forall b: nat :: InMemory(b, regionSize, p, t) && AvoidsFirmware(b, regionSize, p) ==> b <= base)
      && p.memSize > 0 && p.memBase < t.maxAlloc && !Straddles(p, t)
    case None =>
      || p.memSize == 0 || p.memBase >= t.maxAlloc || Straddles(p, t)
      || (!Surrounds(p, t) && forall b: nat :: InMemory(b, regionSize, p, t) ==> !AvoidsFirmware(b, regionSize, p))
  }

  lemma PlacementSafe(p: Platform, regionSize: nat, t: Target)
    requires Sane(p, regionSize, t) && regionSize > 0
    ensures WellPlaced(Placed(p, regionSize, t), p, regionSize, t)
  {
    if p.memSize > 0 && p.memBase < t.maxAlloc {
      UintnSmall(p, regionSize, t);
    }
  }

  lemma UintnSmall(p: Platform, regionSize: nat, t: Target)
    requires Sane(p, regionSize, t) && p.memSize > 0 && p.memBase < t.maxAlloc
    ensures Uintn(p.memBase, t) == p.memBase
    ensures CappedTop(p, t) == if p.memBase + p.memSize - 1 > t.maxAlloc then t.maxAlloc + 1 else p.memBase + p.memSize
  {
    var top := p.memBase + p.memSize;
    assert Add64(p.memBase, p.memSize) == top;
    assert Word(top - 1) == top - 1;
  }

  /** InitializeMemory up to the installation; None when one of its ASSERTs fails. */
  method InitializeMemory(p: Platform, regionSize: nat, t: Target) returns (region: Option<nat>)
    ensures region == Placed(p, regionSize, t)
    ensures Sane(p, regionSize, t) && regionSize > 0 ==> WellPlaced(region, p, regionSize, t)
  {
    if Sane(p, regionSize, t) && regionSize > 0 {
      PlacementSafe(p, regionSize, t);
    }
    hide Placed, WellPlaced, Sane;
    region := Place(p, regionSize, t);
  }

  /** The decisions of InitializeMemory. */
  method Place(p: Platform, regionSize: nat, t: Target) returns (region: Option<nat>)
    ensures region == Placed(p, regionSize, t)
  {
    hide Uintn, Add64, Word;
    if p.memSize == 0 || p.memBase >= t.maxAlloc {
      return None;
    }
    var systemMemoryBase := Uintn(p.memBase, t);
    var systemMemoryTop := Add64(systemMemoryBase, p.memSize);
    if Word(systemMemoryTop - 1) > t.maxAlloc {
      systemMemoryTop := t.maxAlloc + 1;
    }
    var fdBase := Uintn(p.fdBase, t);
    var fdTop := Uintn(fdBase + p.fdSize, t);
    var uefiMemoryBase;
    if fdBase >= systemMemoryBase && fdTop <= systemMemoryTop {
      if systemMemoryTop - fdTop >= regionSize {
        uefiMemoryBase := systemMemoryTop - regionSize;
      } else {
        if !(Uintn(systemMemoryBase + regionSize, t) <= fdBase) { return None; }
        uefiMemoryBase := fdBase - regionSize;
      }
    } else {
      if !(fdBase < systemMemoryBase || fdBase >= systemMemoryTop) { return None; }
      if !(fdTop <= systemMemoryBase || fdTop > systemMemoryTop) { return None; }
      uefiMemoryBase := systemMemoryTop - regionSize;
    }
    return Some(Uintn(uefiMemoryBase, t));
  }

  /**
   The two files together: the memory InitializeMemory hands to PEI never meets the
   allocation MemoryPeim records for the firmware.
   */
  lemma RegionAvoidsFirmwareAllocation(hobs: seq<Hob>, p: Platform, regionSize: nat, t: Target, h: Hob)
    requires Sane(p, regionSize, t) && regionSize > 0 && Placed(p, regionSize, t).Some?
    requires h in Result(hobs, p).0 && h !in hobs && h.Allocation?
    ensures var base := Placed(p, regionSize, t).value;
            base + regionSize <= h.base || h.base + h.size <= base
  {
    PlacementSafe(p, regionSize, t);
    assert h.base == p.fdBase && h.size == p.fdSize && FdInMemory(p);
  }
}
