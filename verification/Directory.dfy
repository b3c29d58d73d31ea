/** The in-memory directory: the newest block of every key. */
module Directory {
  import opened Types
  import opened StoreModel

  class Directory {
    var entries: Dir

    constructor ()
      ensures entries == map[]
    {
      entries := map[];
    }

    // Newest sequence wins. `replaced` is the block of the version that lost
    // its place, UINT32_MAX if there is none. Two versions of a key never
    // carry the same sequence number.
    method StoreKey(key: U64, block: nat, bytes: nat, sequence: nat)
      returns (isLatest: bool, replaced: nat)
      requires key in entries ==> sequence != entries[key].sequence
      modifies this
      ensures StoreResult(entries, isLatest, replaced) ==
              StoreModel.StoreKey(old(entries), key, block, bytes, sequence)
      ensures key in entries && entries - {key} == old(entries) - {key}
      ensures isLatest ==> entries[key] == Entry(sequence, block, bytes % 0x1_0000)
      ensures !isLatest ==> key in old(entries) && entries[key] == old(entries[key])
      ensures sequence <= entries[key].sequence
      ensures key in old(entries) ==> old(entries[key]).sequence <= entries[key].sequence
      ensures replaced == if isLatest && key in old(entries) then old(entries[key]).block else 0xFFFF_FFFF
    {
      isLatest, replaced := false, UINT32_MAX;
      if key in entries {
        var entry := entries[key];
        if sequence > entry.sequence {
          replaced := entry.block;
          entries := entries[key := Entry(sequence, block, bytes % UINT16_MODULUS)];
          isLatest := true;
        }
        return;
      }
      entries := entries[key := Entry(sequence, block, bytes % UINT16_MODULUS)];
      isLatest := true;
    }

    method LookupKey(key: U64) returns (ret: Ret, block: nat, bytes: nat)
      ensures ret == if key in entries then OK else ENOENT
      ensures ret == OK ==> block == entries[key].block && bytes == entries[key].bytes
    {
      if key !in entries {
        return ENOENT, 0, 0;
      }
      return OK, entries[key].block, entries[key].bytes;
    }
  }
}
