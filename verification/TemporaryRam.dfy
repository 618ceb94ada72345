/**
 The pre-PEI hand-off: how PrimaryMain splits temporary RAM into heap and stack, and how
 PrePeiCoreTemporaryRamSupport moves both to permanent memory in swapped order.
 */
module TemporaryRam {
  import opened Bytes

  /** ALIGN_VALUE, for an alignment that is a power of two. */
  function AlignValue(value: nat, alignment: nat): (v: nat)
    requires alignment > 0
    ensures value <= v < value + alignment
  {
    value + (alignment - value) % alignment
  }

  /** The result is aligned. */
  lemma AlignedIsMultiple(value: nat, alignment: nat)
    requires alignment > 0
    ensures AlignValue(value, alignment) % alignment == 0
  {
    var q, r := (alignment - value) / alignment, (alignment - value) % alignment;
    MultipleOf(value, alignment, q, r);
  }

  lemma MultipleOf(value: nat, alignment: nat, q: int, r: nat)
    requires r < alignment && alignment - value == q * alignment + r
    ensures (value + r) % alignment == 0
  {
    assert value + r == (1 - q) * alignment == -((q - 1) * alignment);
    if q > 1 {
      AtLeastOnce(q - 1, alignment);
    }
    ModIs(value + r, 1 - q, 0, alignment);
  }

  /** The fields of EFI_SEC_PEI_HAND_OFF that describe temporary RAM. */
  datatype HandOff = HandOff(ramBase: nat, ramSize: nat, heapBase: nat, heapSize: nat, stackBase: nat, stackSize: nat)

  /** PrimaryMain from the adjustment of temporary RAM on; CPU_STACK_ALIGNMENT is `alignment`. */
  method PrimaryMain(ppiListSize: nat, coresStackBase: nat, primaryStackSize: nat, alignment: nat) returns (h: HandOff)
    requires alignment > 0
    ensures h == HandedOff(ppiListSize, coresStackBase, primaryStackSize, alignment)
    ensures var listSize := AlignValue(ppiListSize, alignment);
            var left := primaryStackSize - listSize;
            left >= 0 && coresStackBase + primaryStackSize + alignment < WORD64 ==>
              (Tiles(h, coresStackBase + listSize, coresStackBase + primaryStackSize) <==> left <= 1 || left >= alignment)
    ensures h.ramSize <= 2 * h.heapSize + 1 < h.ramSize + 2 * alignment + 1
  {
    hide AlignValue, Word, Tiles;
    if AlignValue(ppiListSize, alignment) <= primaryStackSize && coresStackBase + primaryStackSize + alignment < WORD64 {
      SplitPartitionsIff(ppiListSize, coresStackBase, primaryStackSize, alignment);
    }
    var listSize := AlignValue(ppiListSize, alignment);
    var temporaryRamBase: int := Word(coresStackBase + listSize);
    var temporaryRamSize: int := Word(primaryStackSize - listSize);
    var heapSize := AlignValue(temporaryRamSize / 2, alignment);
    var stackBase: int := Word(temporaryRamBase + heapSize);
    var stackSize := Word(temporaryRamBase + temporaryRamSize - stackBase);
    h := HandOff(temporaryRamBase, temporaryRamSize, temporaryRamBase, heapSize, stackBase, stackSize);
  }

  function HandedOff(ppiListSize: nat, coresStackBase: nat, primaryStackSize: nat, alignment: nat): (h: HandOff)
    requires alignment > 0
  {
    var listSize := AlignValue(ppiListSize, alignment);
    var base, size := Word(coresStackBase + listSize), Word(primaryStackSize - listSize);
    var heapSize := AlignValue(size / 2, alignment);
    HandOff(base, size, base, heapSize, Word(base + heapSize), Word(base + size - Word(base + heapSize)))
  }

  /** Heap and stack tile the RAM above the PPI list, heap first. */
  ghost predicate Tiles(h: HandOff, low: nat, high: nat) {
    && h.ramBase == h.heapBase == low
    && h.heapBase + h.heapSize == h.stackBase
    && h.stackBase + h.stackSize == high == h.ramBase + h.ramSize
  }

  /** Rounding half of a size up stays within the size exactly when it is at most 1 or at least the alignment. */
  lemma HalfFitsIff(size: nat, alignment: nat)
    requires alignment > 0
    ensures AlignValue(size / 2, alignment) <= size <==> size <= 1 || size >= alignment
  {
    var half := size / 2;
    if 0 < half <= alignment {
      assert AlignValue(half, alignment) == alignment;
    } else if half == 0 {
      AlignZero(alignment);
    }
  }

  lemma AlignZero(alignment: nat)
    requires alignment > 0
    ensures AlignValue(0, alignment) == 0
  {
    assert alignment % alignment == 0;
  }

  /**
   The split is a partition of the RAM above the PPI list exactly when the RAM left is at
   most one byte or at least one alignment unit.
   */
  lemma SplitPartitionsIff(ppiListSize: nat, coresStackBase: nat, primaryStackSize: nat, alignment: nat)
    requires alignment > 0 && coresStackBase + primaryStackSize + alignment < WORD64
    requires AlignValue(ppiListSize, alignment) <= primaryStackSize
    ensures var listSize := AlignValue(ppiListSize, alignment);
            var h := HandedOff(ppiListSize, coresStackBase, primaryStackSize, alignment);
            Tiles(h, coresStackBase + listSize, coresStackBase + primaryStackSize) <==>
            primaryStackSize - listSize <= 1 || primaryStackSize - listSize >= alignment
  {
    HalfFitsIff(primaryStackSize - AlignValue(ppiListSize, alignment), alignment);
  }

  // ----- Migration -----

  /** Memory after a copy, overlapping or not. */
  function Copied(m: seq<Byte>, destination: nat, source: nat, length: nat): (m': seq<Byte>)
    requires destination + length <= |m| && source + length <= |m|
    ensures |m'| == |m|
  {
    m[..destination] + m[source..source + length] + m[destination + length..]
  }

  method CopyMem(mem: array<Byte>, destination: nat, source: nat, length: nat)
    requires destination + length <= mem.Length && source + length <= mem.Length
    modifies mem
    ensures mem[..] == Copied(old(mem[..]), destination, source, length)
  {
    var block := mem[source..source + length];
    forall i | 0 <= i < length {
      mem[destination + i] := block[i];
    }
  }

  /** Memory after the migration: the new region holds the old stack first, then the old heap. */
  ghost predicate Migrated(before: seq<Byte>, after: seq<Byte>, temporary: nat, permanent: nat, copySize: nat, heapSize: nat)
    requires heapSize <= copySize && temporary + copySize <= |before| == |after| && permanent + copySize <= |before|
  {
    var newHeap := permanent + copySize - heapSize;
    && after[permanent..newHeap] == before[temporary + heapSize..temporary + copySize]
    && after[newHeap..permanent + copySize] == before[temporary..temporary + heapSize]
    && after[..permanent] == before[..permanent]
    && after[permanent + copySize..] == before[permanent + copySize..]
  }

  /** Every byte of the old heap that the new stack is written over equals the byte written there. */
  ghost predicate HeapSurvives(m: seq<Byte>, temporary: nat, permanent: nat, copySize: nat, heapSize: nat)
    requires heapSize <= copySize && temporary + copySize <= |m| && permanent + copySize <= |m|
  {
    forall a :: temporary <= a < temporary + heapSize && permanent <= a < permanent + (copySize - heapSize) ==>
      m[a] == m[temporary + heapSize + (a - permanent)]
  }

  /**
   PrePeiCoreTemporaryRamSupport; `delta` is what SecSwitchStack adds to stack addresses.
   The regions may overlap in any way: the migration succeeds exactly if the old heap
   survives the copy of the stack.
   */
  method TemporaryRamSupport(mem: array<Byte>, temporary: nat, permanent: nat, copySize: nat, alignment: nat)
    returns (delta: nat)
    requires alignment > 0 && AlignValue(copySize / 2, alignment) <= copySize
    requires temporary + copySize <= mem.Length < WORD64 && permanent + copySize <= mem.Length
    modifies mem
    ensures mem[..] == CopiedTwice(old(mem[..]), temporary, permanent, copySize, AlignValue(copySize / 2, alignment))
    ensures Migrated(old(mem[..]), mem[..], temporary, permanent, copySize, AlignValue(copySize / 2, alignment))
       <==> HeapSurvives(old(mem[..]), temporary, permanent, copySize, AlignValue(copySize / 2, alignment))
    ensures delta == Word(permanent - (temporary + AlignValue(copySize / 2, alignment)))
  {
    hide AlignValue, Word, Migrated, Copied, HeapSurvives;
    var heapSize := AlignValue(copySize / 2, alignment);
    var oldHeap, newHeap := temporary, permanent + (copySize - heapSize);
    var oldStack, newStack := temporary + heapSize, permanent;
    CopyMem(mem, newStack, oldStack, copySize - heapSize);
    CopyMem(mem, newHeap, oldHeap, heapSize);
    delta := Word(newStack - oldStack);
    MigratesIff(old(mem[..]), temporary, permanent, copySize, heapSize);
  }

  /** The two copies, stack first. */
  function CopiedTwice(m: seq<Byte>, temporary: nat, permanent: nat, copySize: nat, heapSize: nat): (m': seq<Byte>)
    requires heapSize <= copySize && temporary + copySize <= |m| && permanent + copySize <= |m|
    ensures |m'| == |m|
  {
    var stackSize := copySize - heapSize;
    Copied(Copied(m, permanent, temporary + heapSize, stackSize), permanent + stackSize, temporary, heapSize)
  }

  /** What a copy is, byte by byte. */
  ghost predicate IsCopy(m: seq<Byte>, m': seq<Byte>, destination: nat, source: nat, length: nat)
    requires destination + length <= |m| == |m'| && source + length <= |m|
  {
    forall a :: 0 <= a < |m| ==> m'[a] == if destination <= a < destination + length then m[source + (a - destination)] else m[a]
  }

  lemma CopiedIsCopy(m: seq<Byte>, destination: nat, source: nat, length: nat)
    requires destination + length <= |m| && source + length <= |m|
    ensures IsCopy(m, Copied(m, destination, source, length), destination, source, length)
  {
  }

  lemma ByteOfCopy(m: seq<Byte>, m': seq<Byte>, destination: nat, source: nat, length: nat, a: nat)
    requires destination + length <= |m| == |m'| && source + length <= |m| && IsCopy(m, m', destination, source, length)
    requires a < |m|
    ensures m'[a] == if destination <= a < destination + length then m[source + (a - destination)] else m[a]
  {
  }

  /** The destination holds what the source held. */
  lemma CopyArrives(m: seq<Byte>, m': seq<Byte>, destination: nat, source: nat, length: nat)
    requires destination + length <= |m| == |m'| && source + length <= |m| && IsCopy(m, m', destination, source, length)
    ensures m'[destination..destination + length] == m[source..source + length]
  {
    var a, b := m'[destination..destination + length], m[source..source + length];
    forall i | 0 <= i < length
      ensures a[i] == b[i]
    {
      ByteOfCopy(m, m', destination, source, length, destination + i);
      assert a[i] == m'[destination + i] && b[i] == m[source + i];
    }
  }

  /** What is outside is unchanged. */
  lemma CopyElsewhere(m: seq<Byte>, m': seq<Byte>, destination: nat, source: nat, length: nat, from: nat, to: nat)
    requires destination + length <= |m| == |m'| && source + length <= |m| && IsCopy(m, m', destination, source, length)
    requires from <= to <= |m| && (to <= destination || destination + length <= from)
    ensures m'[from..to] == m[from..to]
  {
    var a, b := m'[from..to], m[from..to];
    forall i | 0 <= i < to - from
      ensures a[i] == b[i]
    {
      ByteOfCopy(m, m', destination, source, length, from + i);
      assert a[i] == m'[from + i] && b[i] == m[from + i];
    }
  }

  /** Everything but the heap always arrives; the heap arrives as the first copy left it. */
  lemma MigratesIff(m: seq<Byte>, temporary: nat, permanent: nat, copySize: nat, heapSize: nat)
    requires heapSize <= copySize && temporary + copySize <= |m| && permanent + copySize <= |m|
    ensures Migrated(m, CopiedTwice(m, temporary, permanent, copySize, heapSize), temporary, permanent, copySize, heapSize)
       <==> HeapSurvives(m, temporary, permanent, copySize, heapSize)
  {
    hide Copied, IsCopy, HeapSurvives;
    var stackSize := copySize - heapSize;
    var newHeap, end := permanent + stackSize, permanent + copySize;
    var m1 := Copied(m, permanent, temporary + heapSize, stackSize);
    var m2 := Copied(m1, newHeap, temporary, heapSize);
    CopiedIsCopy(m, permanent, temporary + heapSize, stackSize);
    CopiedIsCopy(m1, newHeap, temporary, heapSize);
    CopyArrives(m, m1, permanent, temporary + heapSize, stackSize);
    CopyArrives(m1, m2, newHeap, temporary, heapSize);
    CopyElsewhere(m1, m2, newHeap, temporary, heapSize, permanent, newHeap);
    CopiedOutside(m, temporary, permanent, copySize, heapSize);
    HeapKeptIff(m, m1, temporary, permanent, copySize, heapSize);
  }

  lemma CopiedOutside(m: seq<Byte>, temporary: nat, permanent: nat, copySize: nat, heapSize: nat)
    requires heapSize <= copySize && temporary + copySize <= |m| && permanent + copySize <= |m|
    ensures var m2 := CopiedTwice(m, temporary, permanent, copySize, heapSize);
            m2[..permanent] == m[..permanent] && m2[permanent + copySize..] == m[permanent + copySize..]
  {
    hide Copied, IsCopy;
    var stackSize := copySize - heapSize;
    var newHeap, end := permanent + stackSize, permanent + copySize;
    var m1 := Copied(m, permanent, temporary + heapSize, stackSize);
    var m2 := Copied(m1, newHeap, temporary, heapSize);
    CopiedIsCopy(m, permanent, temporary + heapSize, stackSize);
    CopiedIsCopy(m1, newHeap, temporary, heapSize);
    CopyElsewhere(m, m1, permanent, temporary + heapSize, stackSize, 0, permanent);
    CopyElsewhere(m, m1, permanent, temporary + heapSize, stackSize, end, |m|);
    CopyElsewhere(m1, m2, newHeap, temporary, heapSize, 0, permanent);
    CopyElsewhere(m1, m2, newHeap, temporary, heapSize, end, |m|);
    assert m2[..permanent] == m2[0..permanent] && m[..permanent] == m[0..permanent];
    assert m2[end..] == m2[end..|m|] && m[end..] == m[end..|m|];
  }

  lemma HeapKeptIff(m: seq<Byte>, m1: seq<Byte>, temporary: nat, permanent: nat, copySize: nat, heapSize: nat)
    requires heapSize <= copySize && temporary + copySize <= |m| == |m1| && permanent + copySize <= |m|
    requires IsCopy(m, m1, permanent, temporary + heapSize, copySize - heapSize)
    ensures m1[temporary..temporary + heapSize] == m[temporary..temporary + heapSize]
       <==> HeapSurvives(m, temporary, permanent, copySize, heapSize)
  {
    var kept, heap := m1[temporary..temporary + heapSize], m[temporary..temporary + heapSize];
    if kept == heap {
      forall a | temporary <= a < temporary + heapSize && permanent <= a < permanent + (copySize - heapSize)
        ensures m[a] == m[temporary + heapSize + (a - permanent)]
      {
        ByteOfCopy(m, m1, permanent, temporary + heapSize, copySize - heapSize, a);
        assert kept[a - temporary] == heap[a - temporary];
        assert kept[a - temporary] == m1[a] && heap[a - temporary] == m[a];
      }
    }
    if HeapSurvives(m, temporary, permanent, copySize, heapSize) {
      forall i | 0 <= i < heapSize
        ensures kept[i] == heap[i]
      {
        ByteOfCopy(m, m1, permanent, temporary + heapSize, copySize - heapSize, temporary + i);
        assert kept[i] == m1[temporary + i] && heap[i] == m[temporary + i];
      }
    }
  }

  /** The new stack region and the old heap have an address in common. */
  predicate StackMeetsHeap(temporary: nat, permanent: nat, copySize: nat, heapSize: nat)
    requires heapSize <= copySize
  {
    && permanent < temporary + heapSize && temporary < permanent + (copySize - heapSize)
    && heapSize > 0 && copySize > heapSize
  }

  /** Where they have none, as when the regions are disjoint, the heap survives whatever memory holds. */
  lemma ApartSurvives(m: seq<Byte>, temporary: nat, permanent: nat, copySize: nat, heapSize: nat)
    requires heapSize <= copySize && temporary + copySize <= |m| && permanent + copySize <= |m|
    requires !StackMeetsHeap(temporary, permanent, copySize, heapSize)
    ensures HeapSurvives(m, temporary, permanent, copySize, heapSize)
  {
  }

  /** Where they have one, some memory contents lose a heap byte. */
  lemma MeetingCanLoseHeap(size: nat, temporary: nat, permanent: nat, copySize: nat, heapSize: nat) returns (m: seq<Byte>)
    requires heapSize <= copySize && temporary + copySize <= size && permanent + copySize <= size
    requires StackMeetsHeap(temporary, permanent, copySize, heapSize)
    ensures |m| == size && !HeapSurvives(m, temporary, permanent, copySize, heapSize)
  {
    var a := if temporary < permanent then permanent else temporary;
    m := Repeat(0, size)[a := 1];
    assert m[a] != m[temporary + heapSize + (a - permanent)];
  }

  /**
   The two files agree. Called with the RAM that PrimaryMain handed over, the migration
   recomputes the same split, so every byte of the old stack is found at its address plus
   the SecSwitchStack delta, and the heap fills exactly the rest of the new region.
   */
  lemma SplitAndMigrationAgree(ppiListSize: nat, coresStackBase: nat, primaryStackSize: nat, alignment: nat,
                               before: seq<Byte>, after: seq<Byte>, permanent: nat, delta: nat, x: nat)
    requires alignment > 0 && coresStackBase + primaryStackSize + alignment < WORD64
    requires AlignValue(ppiListSize, alignment) + alignment <= primaryStackSize
    requires var h := HandedOff(ppiListSize, coresStackBase, primaryStackSize, alignment);
             var heapSize := AlignValue(h.ramSize / 2, alignment);
             && heapSize <= h.ramSize
             && h.ramBase + h.ramSize <= |before| == |after| < WORD64 && permanent + h.ramSize <= |before|
             && Migrated(before, after, h.ramBase, permanent, h.ramSize, heapSize)
             && delta == Word(permanent - (h.ramBase + heapSize))
    ensures var h := HandedOff(ppiListSize, coresStackBase, primaryStackSize, alignment);
            && (h.stackBase <= x < h.stackBase + h.stackSize ==>
                  permanent <= Word(x + delta) < permanent + h.stackSize && after[Word(x + delta)] == before[x])
            && (h.heapBase <= x < h.heapBase + h.heapSize ==>
                  after[permanent + h.stackSize + (x - h.heapBase)] == before[x])
            && permanent + h.stackSize + h.heapSize == permanent + h.ramSize
  {
    hide AlignValue, Word, HandedOff;
    var h := HandedOff(ppiListSize, coresStackBase, primaryStackSize, alignment);
    SplitPartitionsIff(ppiListSize, coresStackBase, primaryStackSize, alignment);
    HeapSizeIs(ppiListSize, coresStackBase, primaryStackSize, alignment);
    MovedByte(before, after, h, permanent, x);
    if h.stackBase <= x < h.stackBase + h.stackSize {
      WordShift(x, h.stackBase, permanent, delta);
    }
  }

  lemma HeapSizeIs(ppiListSize: nat, coresStackBase: nat, primaryStackSize: nat, alignment: nat)
    requires alignment > 0
    ensures var h := HandedOff(ppiListSize, coresStackBase, primaryStackSize, alignment);
            h.heapSize == AlignValue(h.ramSize / 2, alignment)
  {
  }

  /** Where each byte of a tiled region is after the migration. */
  lemma MovedByte(before: seq<Byte>, after: seq<Byte>, h: HandOff, permanent: nat, x: nat)
    requires Tiles(h, h.ramBase, h.ramBase + h.ramSize)
    requires h.ramBase + h.ramSize <= |before| == |after| && permanent + h.ramSize <= |before|
    requires Migrated(before, after, h.ramBase, permanent, h.ramSize, h.heapSize)
    ensures h.stackBase <= x < h.stackBase + h.stackSize ==> after[permanent + (x - h.stackBase)] == before[x]
    ensures h.heapBase <= x < h.heapBase + h.heapSize ==>
              after[permanent + h.stackSize + (x - h.heapBase)] == before[x]
  {
    var newHeap := permanent + h.ramSize - h.heapSize;
    if h.stackBase <= x < h.stackBase + h.stackSize {
      assert after[permanent..newHeap][x - h.stackBase]
          == before[h.ramBase + h.heapSize..h.ramBase + h.ramSize][x - h.stackBase];
    }
    if h.heapBase <= x < h.heapBase + h.heapSize {
      assert after[newHeap..permanent + h.ramSize][x - h.heapBase]
          == before[h.ramBase..h.ramBase + h.heapSize][x - h.heapBase];
    }
  }

  /** Adding a wrapped difference moves an address as the unwrapped one would. */
  lemma WordShift(x: nat, from: nat, to: nat, delta: nat)
    requires from <= x < WORD64 && to + (x - from) < WORD64 && from < WORD64 && delta == Word(to - from)
    ensures Word(x + delta) == to + (x - from)
  {
    assert delta == to - from || delta == to - from + WORD64;
  }
}
