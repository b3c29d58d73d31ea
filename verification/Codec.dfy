/** The bytes of a block: a 32-byte little-endian header followed by the 4096-byte value area. */
module Codec {
  import opened Types

  const HEADER_BYTES: nat := 32
  const BLOCK_BYTES: nat := HEADER_BYTES + MAXBLOB

  function Pow256(width: nat): nat {
    if width == 0 then 1 else 256 * Pow256(width - 1)
  }

  function Bytes(v: nat, width: nat): (b: seq<Byte>)
    ensures |b| == width
    decreases width
  {
    if width == 0 then [] else [v % 256] + Bytes(v / 256, width - 1)
  }

  function Number(b: seq<Byte>): (v: nat)
    ensures v < Pow256(|b|)
  {
    if b == [] then 0 else b[0] + 256 * Number(b[1..])
  }

  lemma {:induction false} NumberOfBytes(v: nat, width: nat)
    requires v < Pow256(width)
    ensures Number(Bytes(v, width)) == v
    decreases width
  {
    if width > 0 {
      NumberOfBytes(v / 256, width - 1);
      assert Bytes(v, width)[1..] == Bytes(v / 256, width - 1);
    }
  }

  lemma {:induction false} BytesOfNumber(b: seq<Byte>)
    ensures Bytes(Number(b), |b|) == b
  {
    if b != [] {
      BytesOfNumber(b[1..]);
      assert Number(b) % 256 == b[0] && Number(b) / 256 == Number(b[1..]);
      assert b == [b[0]] + b[1..];
    }
  }

  lemma Widths()
    ensures Pow256(2) == UINT16_MODULUS && Pow256(4) == UINT32_MODULUS && Pow256(8) == UINT64_MODULUS
  {
    assert Pow256(4) == 256 * 256 * Pow256(2);
    assert Pow256(6) == 256 * 256 * Pow256(4);
  }

  // A block can be written when its sequence number has 64 bits.
  predicate Fits(b: Block) {
    b.sequence < UINT64_MODULUS
  }

  function Header(b: Block): (h: seq<Byte>)
    ensures |h| == HEADER_BYTES
  {
    Bytes(b.signature, 8) + Bytes(b.key, 8) + Bytes(b.sequence, 8)
    + Bytes(b.dataBytes, 2) + Bytes(b.pad1, 2) + Bytes(b.pad2, 4)
  }

  function Encode(b: Block): (raw: seq<Byte>)
    ensures |raw| == BLOCK_BYTES
  {
    Header(b) + b.data
  }

  function Decode(raw: seq<Byte>): (b: Block)
    requires |raw| == BLOCK_BYTES
    ensures Fits(b)
  {
    Widths();
    BlockRecord(Number(raw[0..8]), Number(raw[8..16]), Number(raw[16..24]),
                Number(raw[24..26]), Number(raw[26..28]), Number(raw[28..32]), raw[32..])
  }

  lemma Slices(a: seq<Byte>, b: seq<Byte>, c: seq<Byte>, d: seq<Byte>, e: seq<Byte>, f: seq<Byte>, data: seq<Byte>)
    requires |a| == |b| == |c| == 8 && |d| == |e| == 2 && |f| == 4
    ensures var raw := a + b + c + d + e + f + data;
            && raw[0..8] == a && raw[8..16] == b && raw[16..24] == c && raw[24..26] == d
            && raw[26..28] == e && raw[28..32] == f && raw[32..] == data
  {
  }

  // What is written is what is read back, and where each part lies in the bytes.
  lemma DecodeEncode(b: Block)
    requires Fits(b)
    ensures Decode(Encode(b)) == b
    ensures var raw := Encode(b);
            && |raw| == 4128
            && Number(raw[0..8]) == b.signature && Number(raw[8..16]) == b.key && Number(raw[16..24]) == b.sequence
            && Number(raw[24..26]) == b.dataBytes && Number(raw[26..28]) == b.pad1 && Number(raw[28..32]) == b.pad2
            && raw[32..4128] == b.data
  {
    Slices(Bytes(b.signature, 8), Bytes(b.key, 8), Bytes(b.sequence, 8),
           Bytes(b.dataBytes, 2), Bytes(b.pad1, 2), Bytes(b.pad2, 4), b.data);
    Widths();
    NumberOfBytes(b.signature, 8);
    NumberOfBytes(b.key, 8);
    NumberOfBytes(b.sequence, 8);
    NumberOfBytes(b.dataBytes, 2);
    NumberOfBytes(b.pad1, 2);
    NumberOfBytes(b.pad2, 4);
  }

  lemma Reassembled(raw: seq<Byte>)
    requires |raw| == BLOCK_BYTES
    ensures raw == raw[0..8] + raw[8..16] + raw[16..24] + raw[24..26] + raw[26..28] + raw[28..32] + raw[32..]
  {
  }

  lemma DecodeLayout(raw: seq<Byte>)
    requires |raw| == 4128
    ensures var b := Decode(raw);
            && b.signature == Number(raw[0..8]) && b.key == Number(raw[8..16]) && b.sequence == Number(raw[16..24])
            && b.dataBytes == Number(raw[24..26]) && b.pad1 == Number(raw[26..28]) && b.pad2 == Number(raw[28..32])
            && b.data == raw[32..4128]
  {
  }

  lemma Reencoded(raw: seq<Byte>)
    requires |raw| == BLOCK_BYTES
    ensures Encode(Decode(raw)) == raw
  {
    BytesOfNumber(raw[0..8]);
    BytesOfNumber(raw[8..16]);
    BytesOfNumber(raw[16..24]);
    BytesOfNumber(raw[24..26]);
    BytesOfNumber(raw[26..28]);
    BytesOfNumber(raw[28..32]);
    Reassembled(raw);
  }

  // Every run of block-sized bytes is the encoding of exactly one block, whose
  // parts are read from the same places.
  lemma EncodeDecode(raw: seq<Byte>)
    requires |raw| == 4128
    ensures Encode(Decode(raw)) == raw
    ensures var b := Decode(raw);
            && b.signature == Number(raw[0..8]) && b.key == Number(raw[8..16]) && b.sequence == Number(raw[16..24])
            && b.dataBytes == Number(raw[24..26]) && b.pad1 == Number(raw[26..28]) && b.pad2 == Number(raw[28..32])
            && b.data == raw[32..4128]
  {
    Reencoded(raw);
    DecodeLayout(raw);
  }
}
