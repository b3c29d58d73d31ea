/** The cursor: it moves forward to the next free block and wraps, and the replay restores it. */
module AppendPoint {
  import opened Types
  import opened Placement
  import opened BlockAllocator

  class AppendPoint {
    const allocator: BlockAllocator
    var currentAppendPoint: nat
    var lastScannedSequenceNumber: nat

    constructor (allocator: BlockAllocator)
      ensures this.allocator == allocator
      ensures currentAppendPoint == 0 && lastScannedSequenceNumber == 0
    {
      this.allocator := allocator;
      currentAppendPoint := 0;
      lastScannedSequenceNumber := 0;
    }

    // Starts at the block handed out last, or at 0 after running out of space.
    method GetAppendPoint() returns (block: nat)
      requires allocator.Valid() && allocator.numberOfBlocks < UINT32_MAX
      requires currentAppendPoint == UINT32_MAX || currentAppendPoint <= allocator.numberOfBlocks
      modifies this`currentAppendPoint
      ensures block == currentAppendPoint
      ensures block == NextFree(allocator.numberOfBlocks, allocator.Allocated(),
                                if old(currentAppendPoint) == UINT32_MAX then 0 else old(currentAppendPoint))
    {
      if currentAppendPoint == UINT32_MAX {
        currentAppendPoint := 0;
      }
      currentAppendPoint := allocator.FindNextFreeBlock(currentAppendPoint);
      return currentAppendPoint;
    }

    // The cursor ends on the block with the greatest sequence number seen, the later one on a tie.
    method UpdateAppendPoint(block: nat, sequence: nat)
      modifies this
      ensures sequence >= old(lastScannedSequenceNumber) ==>
                currentAppendPoint == block && lastScannedSequenceNumber == sequence
      ensures sequence < old(lastScannedSequenceNumber) ==>
                currentAppendPoint == old(currentAppendPoint)
                && lastScannedSequenceNumber == old(lastScannedSequenceNumber)
    {
      if sequence >= lastScannedSequenceNumber {
        currentAppendPoint := block;
        lastScannedSequenceNumber := sequence;
      }
    }
  }
}
