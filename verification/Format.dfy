/**
 The file format and the limits of the program in plain numbers: what the bytes
 of a block mean, which values are accepted, and how many keys there is room
 for. Nothing here is stated through the functions that read or write.
 */
module Format {
  import opened Types
  import opened StoreModel
  import opened StoreInvariant
  import opened Replay
  import opened Crash
  import opened Runs
  import opened History
  import opened Wrap
  import opened Codec
  import opened BlockArray

  // ------------------------------------------------------------ bytes of a block

  // The signature, least significant byte first.
  lemma MagicNumber()
    ensures Number([0x4A, 0xBC, 0xBC, 0xC5, 0xB4, 0x3C, 0x42, 0xB1]) == 0xB142_3CB4_C5BC_BC4A
  {
    var b: seq<Byte> := [0x4A, 0xBC, 0xBC, 0xC5, 0xB4, 0x3C, 0x42, 0xB1];
    assert b[1..][1..] == [0xBC, 0xC5, 0xB4, 0x3C, 0x42, 0xB1];
    assert b[1..][1..][1..][1..] == [0xB4, 0x3C, 0x42, 0xB1];
    assert b[1..][1..][1..][1..][1..][1..] == [0x42, 0xB1];
    assert Number(b[1..][1..][1..][1..][1..][1..]) == 0xB142;
    assert Number(b[1..][1..][1..][1..]) == 0xB142_3CB4;
    assert Number(b[1..][1..]) == 0xB142_3CB4_C5BC;
  }

  // Which bytes the replay takes for a block of the log.
  lemma SignatureBytes(raw: seq<Byte>)
    requires |raw| == 4128
    ensures Signed(Decode(raw)) <==> raw[0..8] == [0x4A, 0xBC, 0xBC, 0xC5, 0xB4, 0x3C, 0x42, 0xB1]
  {
    MagicNumber();
    BytesOfNumber(raw[0..8]);
    BytesOfNumber([0x4A, 0xBC, 0xBC, 0xC5, 0xB4, 0x3C, 0x42, 0xB1]);
  }

  // The bytes that a write of value v for key k with number q hands to the
  // disk; `junk` shows through in the padding and after the value.
  lemma WrittenLayout(k: U64, v: seq<Byte>, q: U64, junk: Block)
    requires |v| <= 4096
    ensures var raw := Encode(NewBlock(k, v, q, junk));
            && |raw| == 4128
            && raw[0..8] == [0x4A, 0xBC, 0xBC, 0xC5, 0xB4, 0x3C, 0x42, 0xB1]
            && Number(raw[8..16]) == k && Number(raw[16..24]) == q && Number(raw[24..26]) == |v|
            && Number(raw[26..28]) == junk.pad1 && Number(raw[28..32]) == junk.pad2
            && raw[32..32 + |v|] == v && raw[32 + |v|..] == junk.data[|v|..]
  {
    var b := NewBlock(k, v, q, junk);
    DecodeEncode(b);
    SignatureBytes(Encode(b));
    ValuePlace(Encode(b), b.data, v, junk.data[|v|..]);
  }

  lemma ValuePlace(raw: seq<Byte>, data: seq<Byte>, v: seq<Byte>, rest: seq<Byte>)
    requires |raw| == 4128 && data == raw[32..] && data == v + rest
    ensures raw[32..32 + |v|] == v && raw[32 + |v|..] == rest
  {
    assert raw[32..32 + |v|] == data[..|v|] && raw[32 + |v|..] == data[|v|..];
  }

  // ------------------------------------------------------------ bytes of a file

  // The i-th 4128 bytes of the file are a block of the log.
  predicate LogBlock(file: seq<Byte>, i: nat) {
    i < |file| / 4128 && file[i * 4128..i * 4128 + 8] == [0x4A, 0xBC, 0xBC, 0xC5, 0xB4, 0x3C, 0x42, 0xB1]
  }

  function KeyAt(file: seq<Byte>, i: nat): nat
    requires i < |file| / 4128
  {
    Number(file[i * 4128 + 8..i * 4128 + 16])
  }

  function SequenceAt(file: seq<Byte>, i: nat): nat
    requires i < |file| / 4128
  {
    Number(file[i * 4128 + 16..i * 4128 + 24])
  }

  function SizeAt(file: seq<Byte>, i: nat): nat
    requires i < |file| / 4128
  {
    Number(file[i * 4128 + 24..i * 4128 + 26])
  }

  // The bytes of the file that hold the first `size` bytes of the value.
  function ValueAt(file: seq<Byte>, i: nat, size: nat): seq<Byte>
    requires i < |file| / 4128 && size <= 4096
  {
    file[i * 4128 + 32..i * 4128 + 32 + size]
  }

  lemma FileLayout(file: seq<Byte>, i: nat)
    requires i < |file| / 4128
    ensures |DiskOf(file)| == |file| / 4128
    ensures var b := DiskOf(file)[i];
            && (Signed(b) <==> LogBlock(file, i))
            && b.key == KeyAt(file, i) && b.sequence == SequenceAt(file, i) && b.dataBytes == SizeAt(file, i)
            && (forall size: nat :: size <= 4096 ==> b.data[..size] == ValueAt(file, i, size))
  {
    var raw := BlockBytes(file, 4128, i);
    SignatureBytes(raw);
    DecodeLayout(raw);
    SliceOfBlock(file, i * 4128, 0, 8);
    SliceOfBlock(file, i * 4128, 8, 16);
    SliceOfBlock(file, i * 4128, 16, 24);
    SliceOfBlock(file, i * 4128, 24, 26);
    forall size: nat | size <= 4096 ensures raw[32..4128][..size] == ValueAt(file, i, size) {
      SliceOfBlock(file, i * 4128, 32, 32 + size);
      assert raw[32..4128][..size] == raw[32..32 + size];
    }
  }

  lemma SliceOfBlock(file: seq<Byte>, offset: nat, lo: nat, hi: nat)
    requires offset + 4128 <= |file| && lo <= hi <= 4128
    ensures file[offset..offset + 4128][lo..hi] == file[offset + lo..offset + hi]
  {
    var one, two := file[offset..offset + 4128][lo..hi], file[offset + lo..offset + hi];
    forall x | 0 <= x < hi - lo ensures one[x] == two[x] {
      assert one[x] == file[offset..offset + 4128][lo + x];
    }
  }

  // Block i of the file is the newest one for key k, by its bytes alone.
  ghost predicate NewestAt(file: seq<Byte>, k: nat, i: nat) {
    && LogBlock(file, i) && KeyAt(file, i) == k
    && forall j: nat :: LogBlock(file, j) && KeyAt(file, j) == k && j != i ==> SequenceAt(file, j) < SequenceAt(file, i)
  }

  lemma NewestIsIndexed(n: nat, file: seq<Byte>, k: U64, i: nat)
    requires |file| / 4128 < UINT32_MAX && NewestAt(file, k, i)
    ensures var s := Reopen64(n, DiskOf(file));
            k in s.dir && s.dir[k].block == i && s.dir[k].bytes == SizeAt(file, i)
  {
    var disk := DiskOf(file);
    Reopen64Exact(n, disk);
    ReopenRecovers(n, disk);
    FileLayout(file, i);
    var dir := Reopen64(n, disk).dir;
    assert disk[i].key in dir;
    assert EntryOk(disk, k, dir[k]);
    FileLayout(file, dir[k].block);
  }

  // Opening any file and getting a key yields exactly the value bytes of the
  // newest block with that key's bytes, and ENOENT when it has no value.
  lemma OpenedFileIsRead(n: nat, file: seq<Byte>, k: U64, i: nat, size: nat)
    requires |file| / 4128 < UINT32_MAX && NewestAt(file, k, i) && SizeAt(file, i) <= 4096
    ensures GetStep(Reopen64(n, DiskOf(file)), k, size) ==
            if SizeAt(file, i) == 0 then (ENOENT, [])
            else if size < SizeAt(file, i) then (EINVAL, [])
            else (OK, ValueAt(file, i, SizeAt(file, i)))
  {
    NewestIsIndexed(n, file, k, i);
    FileLayout(file, i);
  }

  // A key without a block in the file is not found.
  lemma AbsentFromFile(n: nat, file: seq<Byte>, k: U64, size: nat)
    requires |file| / 4128 < UINT32_MAX
    requires forall j: nat :: LogBlock(file, j) ==> KeyAt(file, j) != k
    ensures GetStep(Reopen64(n, DiskOf(file)), k, size) == (ENOENT, [])
  {
    var disk := DiskOf(file);
    Reopen64Exact(n, disk);
    ReopenRecovers(n, disk);
    var dir := Reopen64(n, disk).dir;
    if k in dir {
      assert EntryOk(disk, k, dir[k]);
      FileLayout(file, dir[k].block);
    }
  }

  // ----------------------------------------------------------------- limits

  // A set is refused for its size exactly when the value is empty or longer than 4096 bytes.
  lemma AcceptedSizes(s: State, k: U64, v: seq<Byte>, junk: Block, writeOk: bool)
    ensures SetStep(s, k, v, junk, writeOk).1 == EINVAL <==> |v| == 0 || |v| > 4096
  {
  }

  // The outcome of a write does not depend on the sequence number it takes.
  lemma OutcomeOf(s: State, sequence: nat, k: U64, v: Blob, junk: Block, writeOk: bool)
    requires Inv(s)
    ensures var (t, ret) := AppendAs(s, sequence, k, v, junk, writeOk);
            && ret == (if |s.dir| == s.n then ENOSPC else if !writeOk then EIO else OK)
            && (ret != OK ==> Contents(t) == Contents(s))
            && |s.dir| <= s.n
  {
    DestOk(s);
    var (t, ret) := AppendAs(s, sequence, k, v, junk, writeOk);
    if ret != OK {
      ContentsOf(s, t);
    }
  }

  lemma AppendCodes(s: State, k: U64, v: Blob, junk: Block, writeOk: bool)
    requires Inv(s)
    ensures var (t, ret) := Append(s, k, v, junk, writeOk);
            && ret == (if |s.dir| == s.n then ENOSPC else if !writeOk then EIO else OK)
            && Contents(t) == (if ret != OK then Contents(s)
                               else if v == [] then Contents(s) - {k} else Contents(s)[k := v])
            && |s.dir| <= s.n
  {
    DestOk(s);
    AppendCode(s, k, v, junk, writeOk);
    if Append(s, k, v, junk, writeOk).1 == OK {
      AppendView(s, k, v, junk, writeOk);
    } else {
      ContentsOf(s, Append(s, k, v, junk, writeOk).0);
    }
  }

  lemma AppendCode(s: State, k: U64, v: Blob, junk: Block, writeOk: bool)
    ensures var (t, ret) := Append(s, k, v, junk, writeOk);
            && ret == (if Dest(s) == UINT32_MAX then ENOSPC else if !writeOk then EIO else OK)
            && (ret != OK ==> t.disk == s.disk && t.dir == s.dir)
  {
  }

  // What a client can tell about a set and a delete: every return code, and
  // when the call has its effect.
  lemma SetCodes(s: State, k: U64, v: seq<Byte>, junk: Block, writeOk: bool)
    requires Inv(s)
    ensures var (t, ret) := SetStep(s, k, v, junk, writeOk);
            && ret in {OK, EINVAL, ENOSPC, EIO}
            && (ret == EINVAL <==> |v| == 0 || |v| > 4096)
            && (ret == ENOSPC <==> 1 <= |v| <= 4096 && |s.dir| == s.n)
            && (ret == EIO <==> 1 <= |v| <= 4096 && |s.dir| < s.n && !writeOk)
            && Contents(t) == if ret == OK then Contents(s)[k := v] else Contents(s)
  {
    if 1 <= |v| <= 4096 {
      AppendCodes(s, k, v, junk, writeOk);
    }
  }

  lemma DelCodes(s: State, k: U64, junk: Block, writeOk: bool)
    requires Inv(s)
    ensures var (t, ret) := DelStep(s, k, junk, writeOk);
            && ret in {OK, ENOENT, ENOSPC, EIO}
            && (ret == ENOENT <==> k !in Contents(s))
            && (ret == ENOSPC <==> k in Contents(s) && |s.dir| == s.n)
            && (ret == EIO <==> k in Contents(s) && |s.dir| < s.n && !writeOk)
            && Contents(t) == if ret == OK then Contents(s) - {k} else Contents(s)
  {
    Visible(s, k);
    if k in Contents(s) {
      AppendCodes(s, k, [], junk, writeOk);
    }
  }

  // What a client can tell about a get: every return code, and that the value
  // is the first bytes of the value area of the key's block.
  lemma GetCodes(s: State, k: U64, size: nat)
    requires Inv(s)
    ensures var (ret, data) := GetStep(s, k, size);
            && ret in {OK, ENOENT, EINVAL}
            && (ret == ENOENT <==> k !in Contents(s))
            && (ret == EINVAL <==> k in Contents(s) && size < |Contents(s)[k]|)
            && (ret == OK ==> k in s.dir)
            && (ret == OK ==> data == Contents(s)[k] && 1 <= |data| <= 4096)
            && (ret == OK ==> s.dir[k].block < |s.disk| && data == s.disk[s.dir[k].block].data[..|data|])
  {
    GetReads(s, k, size);
    Visible(s, k);
    if k in s.dir {
      assert EntryOk(s.disk, k, s.dir[k]);
    }
  }

  // A store of the program's size holds 200001 distinct keys, deleted or not,
  // and refuses the next.
  lemma ProgramCapacity(ops: seq<Op>, op: Op)
    requires (op.Set? && 1 <= |op.value| <= 4096)
             || (op.Del? && op.key in Contents(Run(Fresh(200001, []), ops).0))
    ensures var (s, outs) := Run(Fresh(200001, []), ops);
            && |outs| == |ops|
            && (Step(s, op).1.reply.ret == ENOSPC <==> |KeysWritten(ops, outs)| == 200001)
  {
    ExactCapacity(200001, ops, op);
  }
}
