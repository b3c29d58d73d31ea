/** A file seen as an array of fixed-size blocks at offsets block * rawBlockBytes. */
module BlockArray {
  import opened Types
  import opened StoreModel
  import opened Codec

  // ------------------------------------------------------- bytes of a file

  // Writing at an offset; a gap past the end of the file is filled with zeros.
  function FileWrite(file: seq<Byte>, offset: nat, data: seq<Byte>): seq<Byte> {
    var end := offset + |data|;
    (if offset <= |file| then file[..offset] else file + seq(offset - |file|, _ => 0))
    + data
    + (if end <= |file| then file[end..] else [])
  }

  function BlockCount(file: seq<Byte>, raw: nat): nat
    requires raw > 0
  {
    |file| / raw
  }

  lemma {:induction false} MulMonotone(a: nat, b: nat, raw: nat)
    requires a <= b
    ensures a * raw <= b * raw
    decreases b
  {
    if a < b {
      MulMonotone(a, b - 1, raw);
      assert b * raw == (b - 1) * raw + raw;
    }
  }

  lemma Quotient(x: nat, raw: nat)
    requires raw > 0
    ensures x / raw * raw <= x < x / raw * raw + raw
  {
    assert x == x / raw * raw + x % raw;
  }

  lemma BlockInside(file: seq<Byte>, raw: nat, i: nat)
    requires raw > 0
    ensures i < BlockCount(file, raw) <==> i * raw + raw <= |file|
  {
    var q := |file| / raw;
    Quotient(|file|, raw);
    assert (i + 1) * raw == i * raw + raw;
    if i < q {
      MulMonotone(i + 1, q, raw);
    } else {
      MulMonotone(q, i, raw);
    }
  }

  function BlockBytes(file: seq<Byte>, raw: nat, i: nat): (b: seq<Byte>)
    requires raw > 0 && i < BlockCount(file, raw)
    ensures |b| == raw
  {
    BlockInside(file, raw, i);
    file[i * raw..i * raw + raw]
  }

  lemma Apart(raw: nat, i: nat, d: nat)
    requires i != d
    ensures i * raw + raw <= d * raw || d * raw + raw <= i * raw
  {
    assert (i + 1) * raw == i * raw + raw && (d + 1) * raw == d * raw + raw;
    if i < d {
      MulMonotone(i + 1, d, raw);
    } else {
      MulMonotone(d + 1, i, raw);
    }
  }

  lemma FileWriteAt(file: seq<Byte>, offset: nat, data: seq<Byte>, lo: nat, hi: nat)
    requires lo <= hi
    ensures var f := FileWrite(file, offset, data);
            && |f| == (if offset + |data| <= |file| then |file| else offset + |data|)
            && f[offset..offset + |data|] == data
            && (hi <= |file| && (hi <= offset || offset + |data| <= lo) ==> f[lo..hi] == file[lo..hi])
  {
  }

  // A write to block d is read back exactly, leaves every other block alone,
  // and makes the file long enough for d and no longer, holes included.
  lemma WriteBlockBytes(file: seq<Byte>, raw: nat, d: nat, data: seq<Byte>)
    requires raw > 0 && |data| == raw
    ensures var f := FileWrite(file, d * raw, data);
            && BlockCount(f, raw) == (if d < BlockCount(file, raw) then BlockCount(file, raw) else d + 1)
            && BlockBytes(f, raw, d) == data
            && (forall i: nat :: i < BlockCount(file, raw) && i != d ==>
                  BlockBytes(f, raw, i) == BlockBytes(file, raw, i))
  {
    var f := FileWrite(file, d * raw, data);
    var count := BlockCount(file, raw);
    FileWriteAt(file, d * raw, data, 0, 0);
    BlockInside(file, raw, d);
    BlockInside(f, raw, d);
    if d >= count {
      BlockInside(f, raw, d + 1);
      assert (d + 1) * raw == d * raw + raw;
    }
    forall i: nat | i < count && i != d
      ensures BlockBytes(f, raw, i) == BlockBytes(file, raw, i)
    {
      BlockInside(file, raw, i);
      BlockInside(f, raw, i);
      Apart(raw, i, d);
      FileWriteAt(file, d * raw, data, i * raw, i * raw + raw);
    }
  }

  // ---------------------------------------------------- the file as a disk

  function DiskOf(file: seq<Byte>): (disk: seq<Block>)
    ensures |disk| == BlockCount(file, BLOCK_BYTES)
    ensures forall i :: 0 <= i < |disk| ==> Fits(disk[i])
  {
    seq(BlockCount(file, BLOCK_BYTES),
        i requires 0 <= i < BlockCount(file, BLOCK_BYTES) => Decode(BlockBytes(file, BLOCK_BYTES, i)))
  }

  lemma DiskOfBlocks(file: seq<Byte>, f: seq<Byte>, d: nat, raw: seq<Byte>)
    requires |raw| == BLOCK_BYTES && d <= BlockCount(file, BLOCK_BYTES)
    requires BlockCount(f, BLOCK_BYTES) ==
             if d < BlockCount(file, BLOCK_BYTES) then BlockCount(file, BLOCK_BYTES) else d + 1
    requires BlockBytes(f, BLOCK_BYTES, d) == raw
    requires forall i: nat :: i < BlockCount(file, BLOCK_BYTES) && i != d ==>
               BlockBytes(f, BLOCK_BYTES, i) == BlockBytes(file, BLOCK_BYTES, i)
    ensures DiskOf(f) == WriteAt(DiskOf(file), d, Decode(raw))
  {
  }

  // Writing the bytes of a block to the file writes the block to the disk.
  lemma DiskOfWrite(file: seq<Byte>, d: nat, raw: seq<Byte>)
    requires |raw| == BLOCK_BYTES && d <= BlockCount(file, BLOCK_BYTES)
    ensures DiskOf(FileWrite(file, d * BLOCK_BYTES, raw)) == WriteAt(DiskOf(file), d, Decode(raw))
  {
    WriteBlockBytes(file, BLOCK_BYTES, d, raw);
    DiskOfBlocks(file, FileWrite(file, d * BLOCK_BYTES, raw), d, raw);
  }

  // ------------------------------------------------------------- the object

  class BlockArray {
    const rawBlockBytes: nat
    var file: seq<Byte>

    ghost predicate Valid()
      reads this
    {
      0 < rawBlockBytes
    }

    // An open file; `contents` is empty when it was created or truncated.
    constructor (rawBlockBytes: nat, contents: seq<Byte>)
      requires 0 < rawBlockBytes
      ensures Valid() && this.rawBlockBytes == rawBlockBytes && file == contents
    {
      this.rawBlockBytes := rawBlockBytes;
      file := contents;
    }

    // The quotient is cut down to 32 bits.
    method GetFileBlockCount() returns (total: nat)
      requires Valid()
      ensures total == |file| / rawBlockBytes % 0x1_0000_0000
    {
      total := (|file| / rawBlockBytes) % UINT32_MODULUS;
    }

    // A read that ends early is an error.
    method ReadBlock(block: nat) returns (ret: Ret, data: seq<Byte>)
      requires Valid()
      ensures ret == if block < BlockCount(file, rawBlockBytes) then OK else EIO
      ensures ret == OK ==> data == BlockBytes(file, rawBlockBytes, block)
    {
      BlockInside(file, rawBlockBytes, block);
      var offset := block * rawBlockBytes;
      if offset + rawBlockBytes > |file| {
        return EIO, [];
      }
      return OK, file[offset..offset + rawBlockBytes];
    }

    // `writeOk` is what the disk answers; a write that fails changes nothing.
    method WriteBlock(destination: nat, data: seq<Byte>, writeOk: bool) returns (ret: Ret)
      requires Valid() && |data| == rawBlockBytes
      modifies this
      ensures Valid()
      ensures ret == if writeOk then OK else EIO
      ensures file == if writeOk then FileWrite(old(file), destination * rawBlockBytes, data) else old(file)
    {
      if !writeOk {
        return EIO;
      }
      file := FileWrite(file, destination * rawBlockBytes, data);
      return OK;
    }
  }
}
