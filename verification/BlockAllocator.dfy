/** A bitmap of allocated blocks, eight to a byte, and the circular search over it. */
module BlockAllocator {
  import opened Types
  import opened Placement

  // ------------------------------------------------------------ bits of a byte

  function Mask(bit: nat): bv8
    requires bit < 8
  {
    (1 as bv8) << bit
  }

  predicate BitSet(byte: bv8, bit: nat)
    requires bit < 8
  {
    Mask(bit) & byte != 0
  }

  // Bit i of a byte is the one with weight 2^i.
  lemma BitIsShift(byte: bv8, bit: nat)
    requires bit < 8
    ensures BitSet(byte, bit) <==> (byte >> bit) & 1 == 1
  {
  }

  lemma Masks()
    ensures Mask(0) == 1 && Mask(1) == 2 && Mask(2) == 4 && Mask(3) == 8
    ensures Mask(4) == 16 && Mask(5) == 32 && Mask(6) == 64 && Mask(7) == 128
  {
  }

  // Or-ing in a mask sets its bit and no other.
  lemma SetBit(byte: bv8, bit: nat, other: nat)
    requires bit < 8 && other < 8
    ensures BitSet(byte | Mask(bit), other) <==> other == bit || BitSet(byte, other)
  {
    Masks();
  }

  // And-ing with the complement clears its bit and no other.
  lemma ClearBit(byte: bv8, bit: nat, other: nat)
    requires bit < 8 && other < 8
    ensures BitSet(byte & !Mask(bit), other) <==> other != bit && BitSet(byte, other)
  {
    Masks();
  }

  // ------------------------------------------------------------- the bitmap

  class BlockAllocator {
    const numberOfBlocks: nat
    const bits: array<bv8>

    ghost predicate Valid() {
      bits.Length == (numberOfBlocks + 7) / 8
    }

    // The bitmap as a set of block numbers.
    ghost function Allocated(): set<nat>
      requires Valid()
      reads bits
    {
      set b: nat | b < numberOfBlocks && IsSet(b)
    }

    predicate IsSet(block: nat)
      requires Valid() && block < numberOfBlocks
      reads bits
    {
      BitSet(bits[block / 8], block % 8)
    }

    // The number of bytes is computed in 32 bits, so that the bitmap has room
    // for all its blocks exactly when adding 7 does not wrap.
    constructor (numberOfBlocks: nat)
      requires numberOfBlocks < UINT32_MODULUS
      ensures fresh(bits) && this.numberOfBlocks == numberOfBlocks
      ensures bits.Length == (numberOfBlocks + 7) % UINT32_MODULUS / 8
      ensures Valid() <==> numberOfBlocks + 7 < UINT32_MODULUS
      ensures Valid() ==> Allocated() == {}
    {
      this.numberOfBlocks := numberOfBlocks;
      bits := new bv8[(numberOfBlocks + 7) % UINT32_MODULUS / 8](_ => 0);
    }

    method MarkBlockAsAllocated(block: nat)
      requires Valid() && block < numberOfBlocks
      modifies bits
      ensures Allocated() == old(Allocated()) + {block}
    {
      bits[block / 8] := bits[block / 8] | Mask(block % 8);
      forall b: nat | b < numberOfBlocks
        ensures IsSet(b) <==> b == block || old(IsSet(b))
      {
        if b / 8 == block / 8 {
          SetBit(old(bits[block / 8]), block % 8, b % 8);
        }
      }
    }

    method FreeBlock(block: nat)
      requires Valid() && block < numberOfBlocks
      modifies bits
      ensures Allocated() == old(Allocated()) - {block}
    {
      bits[block / 8] := bits[block / 8] & !Mask(block % 8);
      forall b: nat | b < numberOfBlocks
        ensures IsSet(b) <==> b != block && old(IsSet(b))
      {
        if b / 8 == block / 8 {
          ClearBit(old(bits[block / 8]), block % 8, b % 8);
        }
      }
    }

    // From the start to the end, then from 0 up to the start.
    method FindNextFreeBlock(startingBlock: nat) returns (block: nat)
      requires Valid() && startingBlock <= numberOfBlocks < UINT32_MAX
      ensures block == NextFree(numberOfBlocks, Allocated(), startingBlock)
      ensures block == 0xFFFF_FFFF <==> forall b: nat :: b < numberOfBlocks ==> b in Allocated()
      ensures 0 < numberOfBlocks ==> IsNextFree(numberOfBlocks, Allocated(), startingBlock, block)
    {
      ghost var used := Allocated();
      if 0 < numberOfBlocks {
        NextFreeExact(numberOfBlocks, used, startingBlock, NextFree(numberOfBlocks, used, startingBlock));
      }
      var start := if startingBlock == numberOfBlocks then 0 else startingBlock;
      ghost var high := FreeFrom(used, start, numberOfBlocks);
      for b := start to numberOfBlocks
        invariant b <= high
      {
        if !IsSet(b) {
          assert b !in used && high == b;
          return b;
        }
        assert b in used;
      }
      if start > 0 {
        ghost var low := FreeFrom(used, 0, start);
        for b := 0 to start
          invariant b <= low
        {
          if !IsSet(b) {
            assert b !in used && low == b;
            return b;
          }
          assert b in used;
        }
      }
      return UINT32_MAX;
    }
  }
}
