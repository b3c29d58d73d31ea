/** Machine integers, return codes and the block record shared by every part of the store. */
module Types {

  const UINT16_MODULUS: nat := 0x1_0000
  const UINT32_MODULUS: nat := 0x1_0000_0000
  const UINT64_MODULUS: nat := 0x1_0000_0000_0000_0000

  // The "no block" value of every uint32_t block number.
  const UINT32_MAX: nat := 0xFFFF_FFFF
  const UINT64_MAX: nat := 0xFFFF_FFFF_FFFF_FFFF

  const MAXKEYS: nat := 100000
  // The size kv_store__init gives every store: room for deleted keys as well.
  const NUMBER_OF_BLOCKS: nat := 2 * MAXKEYS + 1
  const MAXBLOB: nat := 4096

  const SIGNATURE: U64 := 0xB142_3CB4_C5BC_BC4A

  type Byte = x: int | 0 <= x < 0x100
  type U16 = x: int | 0 <= x < 0x1_0000
  type U32 = x: int | 0 <= x < 0x1_0000_0000
  type U64 = x: int | 0 <= x < 0x1_0000_0000_0000_0000

  // 0 and the negated errno values that the operations return.
  datatype Ret = OK | ENOENT | EINVAL | ENOSPC | EIO | EFAULT

  // One block of the log. The sequence number is unbounded here; the byte
  // encoding in module Codec is where its 64 bits matter.
  datatype BlockRecord = BlockRecord(
    signature: U64, key: U64, sequence: nat, dataBytes: U16, pad1: U16, pad2: U32, data: seq<Byte>)

  type Block = b: BlockRecord | |b.data| == MAXBLOB
    witness BlockRecord(0, 0, 0, 0, 0, 0, seq(MAXBLOB, _ => 0))

  // What reading a hole of a sparse file yields.
  function ZeroBlock(): Block {
    BlockRecord(0, 0, 0, 0, 0, 0, seq(MAXBLOB, _ => 0))
  }

  // The header signature is the only thing that makes a block part of the log.
  predicate Signed(b: Block) {
    b.signature == SIGNATURE
  }

  // The first `bytes` bytes of the value area.
  function Payload(b: Block, bytes: nat): seq<Byte> {
    b.data[..if bytes <= MAXBLOB then bytes else MAXBLOB]
  }

  // The block that a write builds on top of `junk`, the former contents of
  // the stack variable: padding and the bytes past the value keep that junk.
  function NewBlock(key: U64, value: seq<Byte>, sequence: nat, junk: Block): (b: Block)
    requires |value| <= MAXBLOB
    ensures b.signature == 0xB142_3CB4_C5BC_BC4A && Signed(b)
    ensures b.key == key && b.sequence == sequence && b.dataBytes == |value|
    ensures b.data[..|value|] == value && b.data[|value|..] == junk.data[|value|..]
    ensures b.pad1 == junk.pad1 && b.pad2 == junk.pad2
    ensures Payload(b, b.dataBytes) == value
  {
    junk.(signature := SIGNATURE, key := key, sequence := sequence, dataBytes := |value|,
          data := value + junk.data[|value|..])
  }

  // The directory's record of the newest block of a key.
  datatype Entry = Entry(sequence: nat, block: nat, bytes: U16)

  // In memory the directory is a search tree on the key id; here a finite map.
  type Dir = map<U64, Entry>

  // memcpy: the first n bytes of `from` replace those of `to`.
  method MemCopy(to: array<Byte>, from: array<Byte>, n: nat)
    requires n <= to.Length && n <= from.Length && to != from
    modifies to
    ensures to[..] == from[..n] + old(to[..])[n..]
  {
    forall i | 0 <= i < n {
      to[i] := from[i];
    }
  }
}
