/*
 * `StaticArena<Size>` (utils/static_arena.hpp): a bump allocator over a
 * Size-byte buffer. `offset` is the number of bytes handed out; a block is
 * identified by its offset into the buffer, and `None` is nullptr.
 *
 * size_t is 32 bits wide on the Cortex-M targets this code runs on, so every
 * size_t sum wraps modulo 2^32 (`Wrap`).
 */
module StaticArenas {
  import opened BitOps
  import opened Options

  /** The width of size_t. */
  const WordBits: nat := 32

  /** 2^32, the number of size_t values. */
  const Word: nat := 0x1_0000_0000

  /** size_t arithmetic. */
  function Wrap(x: nat): (r: nat)
    ensures r < Word && r == x % Word
  {
    if x < Word then x else x % Word
  }

  /** `~x` on a size_t. */
  function Not(x: nat): nat
  {
    Xor(x, Word - 1)
  }

  predicate IsPowerOfTwo(a: nat)
  {
    a == 1 || (a > 1 && a % 2 == 0 && IsPowerOfTwo(a / 2))
  }

  /** The exponent of a power of two. */
  function Log2(a: nat): (k: nat)
    requires IsPowerOfTwo(a)
    ensures Pow2(k) == a
  {
    if a == 1 then 0 else 1 + Log2(a / 2)
  }

  lemma Pow2Word()
    ensures Pow2(WordBits) == Word
  {
    assert Pow2(8) == 0x100;
    assert Pow2(16) == 0x10000;
    assert Pow2(24) == 0x100_0000;
    assert Pow2(32) == 0x1_0000_0000;
  }

  /** aligned_offset: `(expected + alignment - 1) & ~(alignment - 1)` in size_t. */
  function AlignUp(expected: nat, alignment: nat): (r: nat)
    requires alignment >= 1
    ensures r < Word
  {
    AndAtMost(Wrap(expected + alignment - 1), Not(alignment - 1));
    And(Wrap(expected + alignment - 1), Not(alignment - 1))
  }

  /**
   * Without wrap-around, aligned_offset is the least multiple of the
   * (power-of-two) alignment at or above `expected`: its low bits below the
   * alignment are clear and it lies in [expected, expected + alignment).
   */
  lemma AlignUpLeast(expected: nat, alignment: nat)
    requires IsPowerOfTwo(alignment) && alignment < Word && expected + alignment - 1 < Word
    ensures And(AlignUp(expected, alignment), alignment - 1) == 0
    ensures expected <= AlignUp(expected, alignment) < expected + alignment
  {
    var k := Log2(alignment);
    assert Ones(k) == alignment - 1;
    RoundDown(expected + alignment - 1, alignment - 1, k);
  }

  /** `x & ~m`, for m = 2^k - 1, clears the low k bits of x and removes at most m. */
  lemma RoundDown(x: nat, m: nat, k: nat)
    requires x < Word && m + 1 < Word && m == Ones(k)
    ensures And(And(x, Not(m)), m) == 0
    ensures x - m <= And(x, Not(m)) <= x
  {
    var r := And(x, Not(m));
    Pow2Word();
    if k >= WordBits {
      Pow2Mono(WordBits, k);
    }
    ClearLowBits(x, m, k);
    SplitLow(x, r, k);
    LowBelow(x, k);
    NoLowBits(r, k);
  }

  /** `x & ~(2^k - 1)` on a size_t keeps exactly the bits of x from k up. */
  lemma ClearLowBits(x: nat, m: nat, k: nat)
    requires x < Word && k < WordBits && m == Ones(k)
    ensures forall j: nat :: Bit(And(x, Not(m)), j) <==> (j >= k && Bit(x, j))
  {
    Pow2Word();
    BelowPow2(x, WordBits);
    forall j: nat ensures Bit(And(x, Not(m)), j) <==> (j >= k && Bit(x, j)) {
      BitAnd(x, Not(m), j);
      BitXor(m, Word - 1, j);
      BitOnes(k, j);
      BitOnes(WordBits, j);
    }
  }

  /** A number with no bit below k set has zero low k bits. */
  lemma NoLowBits(r: nat, k: nat)
    requires forall j: nat :: j < k ==> !Bit(r, j)
    ensures And(r, Ones(k)) == 0
  {
    forall j: nat ensures Bit(And(r, Ones(k)), j) == Bit(0, j) {
      BitLow(r, k, j);
      BitZero(j);
    }
    BitsEqual(And(r, Ones(k)), 0);
  }

  /** When `expected + alignment - 1` wraps, aligned_offset falls below `expected`. */
  lemma AlignUpWrapped(expected: nat, alignment: nat)
    requires 1 <= alignment < Word && expected < Word <= expected + alignment - 1
    ensures AlignUp(expected, alignment) < expected
  {
    AndAtMost(Wrap(expected + alignment - 1), Not(alignment - 1));
  }

  /** The new offset and the returned block of one call. */
  datatype Outcome = Outcome(offset: nat, block: Option<nat>)

  /** `allocate(size, alignment)` as written, with the compare-and-swap succeeding at once. */
  function Allocation(cap: nat, offset: nat, size: nat, alignment: nat): (r: Outcome)
    requires alignment >= 1
    ensures r.block.None? ==> r.offset == offset
    ensures r.block.Some? ==> r.block.value == AlignUp(offset, alignment) && r.offset <= cap
    ensures r.block.Some? ==> r.offset == Wrap(r.block.value + size)
  {
    var aligned := AlignUp(offset, alignment);
    var desired := Wrap(aligned + size);
    if desired > cap then Outcome(offset, None) else Outcome(desired, Some(aligned))
  }

  /** Even as written, the offset never passes Size. */
  lemma AllocationBounded(cap: nat, offset: nat, size: nat, alignment: nat)
    requires alignment >= 1 && offset <= cap
    ensures Allocation(cap, offset, size, alignment).offset <= cap
  {
  }

  /** `desired` wraps: an allocation larger than the arena succeeds and moves the offset back. */
  lemma AllocationWraps()
    ensures Allocation(16, 8, Word - 4, 1) == Outcome(4, Some(8))
  {
    Pow2Word();
    assert Not(0) == Word - 1;
    LowOfBelow(Wrap(8), WordBits);
    assert AlignUp(8, 1) == 8;
  }

  /** The guard the code evidently intends: reject when aligned_offset wrapped or the block does not fit. */
  function CheckedAllocation(cap: nat, offset: nat, size: nat, alignment: nat): (r: Outcome)
    requires alignment >= 1
    ensures r.block.None? ==> r.offset == offset
    ensures r.block.Some? ==> offset <= r.block.value && r.block.value + size == r.offset <= cap
  {
    var aligned := AlignUp(offset, alignment);
    if aligned < offset || aligned > cap || size > cap - aligned then Outcome(offset, None)
    else Outcome(aligned + size, Some(aligned))
  }

  /** A failed allocation leaves the offset alone; a successful one returns an aligned block inside the buffer at or after the old offset, and the offset moves to its end. */
  lemma CheckedAllocationSpec(cap: nat, offset: nat, size: nat, alignment: nat)
    requires IsPowerOfTwo(alignment) && alignment < Word && offset <= cap < Word
    ensures var r := CheckedAllocation(cap, offset, size, alignment);
      && (r.block == None ==> r.offset == offset)
      && (r.block.Some? ==>
            && And(r.block.value, alignment - 1) == 0
            && offset <= r.block.value
            && r.block.value + size <= cap
            && r.offset == r.block.value + size)
      && offset <= r.offset <= cap
  {
    if offset + alignment - 1 < Word {
      AlignUpLeast(offset, alignment);
    } else {
      AlignUpWrapped(offset, alignment);
    }
  }

  /** It fails exactly when the least aligned offset plus size passes Size. */
  lemma CheckedAllocationFails(cap: nat, offset: nat, size: nat, alignment: nat)
    requires IsPowerOfTwo(alignment) && alignment < Word && offset <= cap < Word
    ensures CheckedAllocation(cap, offset, size, alignment).block == None
        <==> offset + alignment - 1 >= Word || AlignUp(offset, alignment) + size > cap
  {
    if offset + alignment - 1 < Word {
      AlignUpLeast(offset, alignment);
    } else {
      AlignUpWrapped(offset, alignment);
    }
  }

  /** Blocks from two successive successful allocations do not overlap. */
  lemma CheckedAllocationsDisjoint(cap: nat, offset: nat, size1: nat, align1: nat, size2: nat, align2: nat)
    requires IsPowerOfTwo(align1) && align1 < Word && IsPowerOfTwo(align2) && align2 < Word
    requires offset <= cap < Word
    requires CheckedAllocation(cap, offset, size1, align1).block.Some?
    requires CheckedAllocation(cap, CheckedAllocation(cap, offset, size1, align1).offset, size2, align2).block.Some?
    ensures var first := CheckedAllocation(cap, offset, size1, align1);
      first.block.value + size1 <= CheckedAllocation(cap, first.offset, size2, align2).block.value
  {
    var first := CheckedAllocation(cap, offset, size1, align1);
    CheckedAllocationSpec(cap, offset, size1, align1);
    CheckedAllocationSpec(cap, first.offset, size2, align2);
  }

  /** Where no size_t sum wraps, the code as written behaves as the checked version. */
  lemma AllocationAgrees(cap: nat, offset: nat, size: nat, alignment: nat)
    requires IsPowerOfTwo(alignment) && alignment < Word && offset <= cap < Word
    requires offset + alignment - 1 < Word && AlignUp(offset, alignment) + size < Word
    ensures Allocation(cap, offset, size, alignment) == CheckedAllocation(cap, offset, size, alignment)
  {
    AlignUpLeast(offset, alignment);
  }

  class StaticArena {
    /** The template parameter Size. */
    const cap: nat
    var offset: nat

    ghost predicate Valid()
      reads this
    {
      offset <= cap < Word
    }

    constructor (size: nat)
      requires size < Word
      ensures Valid() && cap == size && offset == 0
    {
      cap := size;
      offset := 0;
    }

    /** `allocate(size, alignment)`, single-threaded. */
    method Allocate(size: nat, alignment: nat) returns (block: Option<nat>)
      requires Valid() && 1 <= alignment < Word && size < Word
      modifies this
      ensures Valid()
      ensures Outcome(offset, block) == Allocation(cap, old(offset), size, alignment)
    {
      var expected := offset;
      var aligned := AlignUp(expected, alignment);
      var desired := Wrap(aligned + size);
      if desired > cap {
        assert Allocation(cap, expected, size, alignment) == Outcome(expected, None);
        return None;
      }
      assert Allocation(cap, expected, size, alignment) == Outcome(desired, Some(aligned));
      offset := desired;
      return Some(aligned);
    }

    /** `used()`: never more than Size. */
    function Used(): (n: nat)
      reads this
      requires Valid()
      ensures n <= Capacity()
    {
      offset
    }

    /** `capacity()`: the template parameter Size, which bounds `used()`. */
    function Capacity(): (c: nat)
      reads this
      ensures c == cap
      ensures Valid() ==> offset <= c < Word
    {
      cap
    }

    /** `clear()` */
    method Clear()
      requires Valid()
      modifies this
      ensures Valid() && Used() == 0
    {
      offset := 0;
    }
  }
}
