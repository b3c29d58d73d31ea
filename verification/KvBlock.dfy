/** The block as an object: header fields and value area, filled in place. */
module KvBlock {
  import opened Types
  import opened Codec

  class KvBlock {
    var signature: U64
    var keyId: U64
    var sequence: U64
    var dataBytes: U16
    var pad1: U16
    var pad2: U32
    const data: array<Byte>

    ghost predicate Valid()
    {
      data.Length == MAXBLOB
    }

    // The contents as a value.
    function Value(): Block
      requires Valid()
      reads this, data
    {
      BlockRecord(signature, keyId, sequence, dataBytes, pad1, pad2, data[..])
    }

    // An uninitialised variable: it holds whatever was there before.
    constructor (junk: Block)
      requires Fits(junk)
      ensures Valid() && fresh(data) && Value() == junk
    {
      signature, keyId, sequence, dataBytes := junk.signature, junk.key, junk.sequence, junk.dataBytes;
      pad1, pad2 := junk.pad1, junk.pad2;
      data := new Byte[MAXBLOB](i requires 0 <= i < MAXBLOB => junk.data[i]);
    }

    // Clears the header fields; padding and value area keep their contents.
    method InitEmpty()
      requires Valid()
      modifies this
      ensures Value() == old(Value()).(signature := 0, key := 0, sequence := 0, dataBytes := 0)
      ensures !Signed(Value())
    {
      signature, keyId, sequence, dataBytes := 0, 0, 0, 0;
    }

    // Without `valueData` only the header is filled, as for a tombstone. The
    // byte count is cut down to 16 bits.
    method Init(keyId: U64, dataBytes: nat, valueData: array?<Byte>, sequence: U64)
      requires Valid() && dataBytes <= MAXBLOB
      requires valueData != null ==> dataBytes <= valueData.Length && valueData != data
      modifies this, data
      ensures valueData != null ==> Value() == NewBlock(keyId, valueData[..dataBytes], sequence, old(Value()))
      ensures valueData == null ==>
                Value() == old(Value()).(signature := SIGNATURE, key := keyId, sequence := sequence,
                                         dataBytes := dataBytes)
    {
      signature := SIGNATURE;
      this.keyId := keyId;
      this.sequence := sequence;
      this.dataBytes := dataBytes % UINT16_MODULUS;
      if valueData != null {
        MemCopy(data, valueData, dataBytes);
      }
    }

    predicate Validate()
      requires Valid()
      reads this, data
      ensures Validate() <==> Signed(Value())
      ensures Validate() <==> signature == 0xB142_3CB4_C5BC_BC4A
    {
      signature == SIGNATURE
    }

    // The bytes of the structure, as they go to the file.
    function Raw(): (raw: seq<Byte>)
      requires Valid()
      reads this, data
      ensures |raw| == BLOCK_BYTES && Decode(raw) == Value()
    {
      DecodeEncode(Value());
      Encode(Value())
    }

    // Overwrites the whole structure with bytes from the file.
    method Load(raw: seq<Byte>)
      requires Valid() && |raw| == BLOCK_BYTES
      modifies this, data
      ensures Value() == Decode(raw) && Raw() == raw
    {
      var b := Decode(raw);
      signature, keyId, sequence, dataBytes := b.signature, b.key, b.sequence, b.dataBytes;
      pad1, pad2 := b.pad1, b.pad2;
      forall i | 0 <= i < MAXBLOB {
        data[i] := b.data[i];
      }
      assert data[..] == b.data;
      Reencoded(raw);
    }
  }
}
