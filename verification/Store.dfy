/**
 The store as objects over the bytes of a file. Every operation keeps the store
 valid and computes the corresponding function of StoreModel as long as the
 64-bit counter is below its last value, so the results about whole runs apply.
 */
module Store {
  import opened Types
  import opened Placement
  import opened StoreModel
  import opened LogFacts
  import opened StoreInvariant
  import opened Replay
  import opened Runs
  import opened Crash
  import opened Codec
  import opened Wrap
  import opened Format
  import BlockArray
  import BlockAllocator
  import AppendPoint
  import Directory
  import KvBlock

  // The caller's buffer: how many bytes it has room for, or holds.
  class Value {
    var size: nat
    const data: array<Byte>

    constructor (data: array<Byte>)
      ensures this.data == data && size == data.Length
    {
      this.data := data;
      size := data.Length;
    }
  }

  class Store {
    const blockArray: BlockArray.BlockArray
    const directory: Directory.Directory
    const allocator: BlockAllocator.BlockAllocator
    const appendPoint: AppendPoint.AppendPoint
    var currentSequenceNumber: U64

    ghost function Repr(): set<object> {
      {this, blockArray, directory, allocator.bits, appendPoint}
    }

    // The parts belong together and have the sizes kv_store__init gives them.
    ghost predicate Assembled()
      reads Repr()
    {
      && blockArray.Valid() && blockArray.rawBlockBytes == BLOCK_BYTES
      && allocator.Valid() && 0 < allocator.numberOfBlocks && allocator.numberOfBlocks + 7 < UINT32_MODULUS
      && appendPoint.allocator == allocator
    }

    ghost function Model(): State
      requires Assembled()
      reads Repr()
    {
      State(allocator.numberOfBlocks, BlockArray.DiskOf(blockArray.file), directory.entries, allocator.Allocated(),
            appendPoint.currentAppendPoint, appendPoint.lastScannedSequenceNumber, currentSequenceNumber)
    }

    ghost predicate Valid()
      reads Repr()
    {
      Assembled() && Inv(Model())
    }

    // The bitmap of more blocks than that would not have room for them.
    constructor (numberOfBlocks: nat, contents: seq<Byte>)
      requires 0 < numberOfBlocks && numberOfBlocks + 7 < UINT32_MODULUS
      ensures Assembled() && fresh(Repr())
      ensures Model() == Fresh(numberOfBlocks, BlockArray.DiskOf(contents)) && blockArray.file == contents
    {
      currentSequenceNumber := 0;
      var bits := new BlockAllocator.BlockAllocator(numberOfBlocks);
      allocator := bits;
      blockArray := new BlockArray.BlockArray(BLOCK_BYTES, contents);
      directory := new Directory.Directory();
      appendPoint := new AppendPoint.AppendPoint(bits);
    }

    // The bytes of a new version, built in a stack variable that held `junk`.
    method VersionBytes(key: U64, dataBytes: nat, valueData: array?<Byte>, junk: Block, sequence: U64)
      returns (raw: seq<Byte>)
      requires dataBytes <= MAXBLOB && Fits(junk)
      requires if valueData == null then dataBytes == 0 else dataBytes <= valueData.Length
      ensures |raw| == BLOCK_BYTES == 4128
      ensures Decode(raw) == NewBlock(key, if valueData == null then [] else valueData[..dataBytes], sequence, junk)
      ensures raw[0..8] == [0x4A, 0xBC, 0xBC, 0xC5, 0xB4, 0x3C, 0x42, 0xB1]
      ensures Number(raw[8..16]) == key && Number(raw[16..24]) == sequence && Number(raw[24..26]) == dataBytes
      ensures valueData != null ==> raw[32..32 + dataBytes] == valueData[..dataBytes]
    {
      var block := new KvBlock.KvBlock(junk);
      block.Init(key, dataBytes, valueData, sequence);
      assert [] + junk.data[0..] == junk.data;
      raw := block.Raw();
      WrittenLayout(key, if valueData == null then [] else valueData[..dataBytes], sequence, junk);
      Reencoded(raw);
    }

    // Repoints the directory, frees the replaced block and marks the new one;
    // `c` is the call as module Crash sees it, its block just written.
    method IndexVersion(key: U64, destination: nat, dataBytes: nat, sequence: nat, ghost c: Config)
      requires Assembled() && c.s == Model() && c.call.pc == Written
      requires c.call.key == key && c.call.destination == destination && |c.call.value| == dataBytes
      requires c.call.sequence == sequence
      requires destination < allocator.numberOfBlocks
      requires key in directory.entries ==>
                 directory.entries[key].sequence < sequence
                 && directory.entries[key].block < allocator.numberOfBlocks
      modifies directory, allocator.bits
      ensures Assembled()
      ensures Model() == SmallStep(SmallStep(SmallStep(c))).s
    {
      var isLatest, replaced := directory.StoreKey(key, destination, dataBytes, sequence);
      assert Model() == SmallStep(c).s;
      if replaced != UINT32_MAX {
        allocator.FreeBlock(replaced);
      }
      assert Model() == SmallStep(SmallStep(c)).s;
      assert isLatest;
      allocator.MarkBlockAsAllocated(destination);
    }

    // Takes a sequence number, builds the block and finds a place for it.
    method PlaceVersion(key: U64, dataBytes: nat, valueData: array?<Byte>, junk: Block, ghost c: Config)
      returns (raw: seq<Byte>, destination: nat)
      requires Assembled() && CursorInRange(Model()) && Fits(junk)
      requires dataBytes <= MAXBLOB
      requires if valueData == null then dataBytes == 0 else dataBytes <= valueData.Length
      requires c.s == Model() && c.call.pc == Begun && c.call.sequence == NextSequence(currentSequenceNumber)
      modifies this, appendPoint
      ensures Assembled() && currentSequenceNumber == c.call.sequence
      ensures Model() == SmallStep(SmallStep(c)).s && destination == Dest(c.s)
      ensures |raw| == BLOCK_BYTES
      ensures Decode(raw) == NewBlock(key, if valueData == null then [] else old(valueData[..dataBytes]),
                                      currentSequenceNumber, junk)
    {
      currentSequenceNumber := (currentSequenceNumber + 1) % UINT64_MODULUS;
      assert Model() == SmallStep(c).s;
      raw := VersionBytes(key, dataBytes, valueData, junk, currentSequenceNumber);
      destination := appendPoint.GetAppendPoint();
    }

    // Writes the block in its place; `c` is the call as module Crash sees it.
    method WritePlaced(destination: nat, raw: seq<Byte>, writeOk: bool, ghost c: Config) returns (ret: Ret)
      requires Assembled() && |raw| == BLOCK_BYTES
      requires c.s == Model() && c.call.pc == Placed && c.call.ret == OK
      requires c.call.destination == destination <= |Model().disk| && c.call.writeOk == writeOk
      requires Decode(raw) == NewBlock(c.call.key, c.call.value, c.call.sequence, c.call.junk)
      modifies blockArray
      ensures Assembled()
      ensures Model() == SmallStep(c).s && ret == SmallStep(c).call.ret
      ensures ret == OK ==> blockArray.file == BlockArray.FileWrite(old(blockArray.file), destination * 4128, raw)
    {
      ret := blockArray.WriteBlock(destination, raw, writeOk);
      if ret == OK {
        BlockArray.DiskOfWrite(old(blockArray.file), destination, raw);
      }
    }

    // The common part of kv_set and kv_del. After every effect on memory or
    // disk the store is in the state that the small steps of module Crash say.
    method WriteVersion(key: U64, dataBytes: nat, valueData: array?<Byte>, junk: Block, writeOk: bool)
      returns (ret: Ret)
      requires Assembled() && Writable(Model(), key, writeOk) && Fits(junk)
      requires dataBytes <= MAXBLOB
      requires if valueData == null then dataBytes == 0 else dataBytes <= valueData.Length
      modifies Repr()
      ensures Assembled()
      ensures (Model(), ret) == AppendAs(old(Model()), NextSequence(old(currentSequenceNumber)), key,
                if valueData == null then [] else old(valueData[..dataBytes]), junk, writeOk)
    {
      ghost var value: Blob := if valueData == null then [] else valueData[..dataBytes];
      ghost var c := BeginAs(Model(), NextSequence(currentSequenceNumber), key, value, junk, writeOk);
      ghost var c2 := SmallStep(SmallStep(c));
      ghost var c3 := SmallStep(c2);
      UpToTheWrite(c);

      var raw, destination := PlaceVersion(key, dataBytes, valueData, junk, c);
      if destination == UINT32_MAX {
        return ENOSPC;
      }
      ret := WritePlaced(destination, raw, writeOk, c2);
      if ret != OK {
        return ret;
      }
      IndexVersion(key, destination, dataBytes, currentSequenceNumber, c3);
      AfterTheWrite(c3);
      BothHalves(c, c3, SmallStep(SmallStep(SmallStep(c3))));
      return OK;
    }

    // kv_set: `writeOk` is what the disk will answer, `junk` the former
    // contents of the stack variable for the block. The store is left valid
    // unless an accepted call meets the last value of the counter; then a
    // stored key must not get as far as the assertion on the new version.
    method Set(key: U64, v: Value, junk: Block, writeOk: bool) returns (ret: Ret)
      requires Valid() && v.size <= v.data.Length && Fits(junk) && {v, v.data} !! Repr()
      requires AcceptsSet(v.data[..v.size]) ==> AssertionHolds(Model(), key, writeOk)
      modifies Repr()
      ensures Assembled() && v.size == old(v.size) && v.data[..] == old(v.data[..])
      ensures old(currentSequenceNumber) < UINT64_MAX || !AcceptsSet(old(v.data[..v.size])) ==>
                Valid() && (Model(), ret) == SetStep(old(Model()), key, old(v.data[..v.size]), junk, writeOk)
      ensures (Model(), ret) == Set64(old(Model()), key, old(v.data[..v.size]), junk, writeOk)
      ensures ret in {OK, EINVAL, ENOSPC, EIO}
      ensures ret == EINVAL <==> old(v.size) == 0 || old(v.size) > 4096
      ensures ret == ENOSPC <==> 1 <= old(v.size) <= 4096 && |old(Model()).dir| == allocator.numberOfBlocks
      ensures ret == EIO ==> !writeOk
      ensures ret == OK ==> writeOk
      ensures ret == OK && old(currentSequenceNumber) < UINT64_MAX ==>
                Contents(Model()) == old(Contents(Model()))[key := old(v.data[..v.size])]
      ensures ret != OK ==> Contents(Model()) == old(Contents(Model()))
    {
      ghost var s, value := Model(), v.data[..v.size];
      if AcceptsSet(value) {
        InvWritable(s, key, writeOk);
      }
      ret := SetVersion(key, v, junk, writeOk);
      SetResult(s, key, value, junk, writeOk, Model(), ret);
    }

    method SetVersion(key: U64, v: Value, junk: Block, writeOk: bool) returns (ret: Ret)
      requires Assembled() && v.size <= v.data.Length && Fits(junk)
      requires AcceptsSet(v.data[..v.size]) ==> Writable(Model(), key, writeOk)
      modifies Repr()
      ensures Assembled()
      ensures (Model(), ret) == Set64(old(Model()), key, old(v.data[..v.size]), junk, writeOk)
    {
      if v.size == 0 || v.size > MAXBLOB {
        return EINVAL;
      }
      ret := WriteVersion(key, v.size, v.data, junk, writeOk);
    }

    // kv_del
    method Del(key: U64, junk: Block, writeOk: bool) returns (ret: Ret)
      requires Valid() && Fits(junk)
      requires AcceptsDel(Model(), key) ==> AssertionHolds(Model(), key, writeOk)
      modifies Repr()
      ensures Assembled()
      ensures old(currentSequenceNumber) < UINT64_MAX || !old(AcceptsDel(Model(), key)) ==>
                Valid() && (Model(), ret) == DelStep(old(Model()), key, junk, writeOk)
      ensures (Model(), ret) == Del64(old(Model()), key, junk, writeOk)
      ensures ret in {OK, ENOENT, ENOSPC, EIO}
      ensures ret == ENOENT <==> key !in old(Contents(Model()))
      ensures ret == ENOSPC <==>
                key in old(Contents(Model())) && |old(Model()).dir| == allocator.numberOfBlocks
      ensures ret == EIO ==> !writeOk
      ensures ret == OK ==> writeOk
      ensures ret == OK && old(currentSequenceNumber) < UINT64_MAX ==>
                Contents(Model()) == old(Contents(Model())) - {key}
      ensures ret != OK ==> Contents(Model()) == old(Contents(Model()))
    {
      ghost var s := Model();
      if AcceptsDel(s, key) {
        InvWritable(s, key, writeOk);
      }
      ret := DelVersion(key, junk, writeOk);
      DelResult(s, key, junk, writeOk, Model(), ret);
    }

    method DelVersion(key: U64, junk: Block, writeOk: bool) returns (ret: Ret)
      requires Assembled() && Fits(junk)
      requires AcceptsDel(Model(), key) ==> Writable(Model(), key, writeOk)
      modifies Repr()
      ensures Assembled()
      ensures (Model(), ret) == Del64(old(Model()), key, junk, writeOk)
    {
      var found, oldBlock, size := directory.LookupKey(key);
      if found != OK {
        return found;
      }
      if size == 0 {
        return ENOENT;
      }
      ret := WriteVersion(key, 0, null, junk, writeOk);
    }

    // kv_get: on success the value is in the buffer, whose bytes past it are
    // left alone; otherwise the buffer is untouched. The store does not change.
    method Get(key: U64, v: Value, junk: Block) returns (ret: Ret)
      requires Valid() && v.size <= v.data.Length && Fits(junk) && {v, v.data} !! Repr()
      modifies v`size, v.data
      ensures Valid() && Model() == old(Model())
      ensures ret == GetStep(Model(), key, old(v.size)).0
      ensures ret in {OK, ENOENT, EINVAL}
      ensures ret == ENOENT <==> key !in old(Contents(Model()))
      ensures ret == EINVAL <==> key in old(Contents(Model())) && old(v.size) < |old(Contents(Model()))[key]|
      ensures ret == OK ==> v.size <= v.data.Length
      ensures ret == OK ==> v.data[..v.size] == GetStep(Model(), key, old(v.size)).1 == old(Contents(Model()))[key]
      ensures ret == OK ==> key in Model().dir && Model().dir[key].block < |Model().disk| && 1 <= v.size <= 4096
      ensures ret == OK ==> v.data[..v.size] == Model().disk[Model().dir[key].block].data[..v.size]
      ensures ret == OK ==> v.data[v.size..] == old(v.data[..])[v.size..]
      ensures ret != OK ==> v.size == old(v.size) && v.data[..] == old(v.data[..])
    {
      InvReadable(Model(), key);
      GetCodes(Model(), key, v.size);
      ret := ReadValue(key, v, junk);
    }

    method ReadValue(key: U64, v: Value, junk: Block) returns (ret: Ret)
      requires Assembled() && Readable(Model(), key)
      requires v.size <= v.data.Length && Fits(junk)
      modifies v`size, v.data
      ensures ret == GetStep(old(Model()), key, old(v.size)).0
      ensures ret == OK ==> v.size <= v.data.Length
      ensures ret == OK ==> v.data[..v.size] == GetStep(old(Model()), key, old(v.size)).1
      ensures ret == OK ==> v.data[v.size..] == old(v.data[..])[v.size..]
      ensures ret != OK ==> v.size == old(v.size) && v.data[..] == old(v.data[..])
    {
      var found, block, storedSize := directory.LookupKey(key);
      if found != OK {
        return found;
      }
      if storedSize == 0 {
        return ENOENT;
      }
      if v.size < storedSize {
        return EINVAL;
      }
      var blockData := new KvBlock.KvBlock(junk);
      blockData.InitEmpty();
      ret := Load(block, blockData);
      if ret != OK {
        return;
      }
      if !blockData.Validate() {
        return EFAULT;
      }
      v.size := storedSize;
      MemCopy(v.data, blockData.data, storedSize);
      return OK;
    }

    // Reads a block of the file into a block variable.
    method Load(block: nat, into: KvBlock.KvBlock) returns (ret: Ret)
      requires Assembled() && into.Valid() && {into, into.data} !! Repr()
      modifies into, into.data
      ensures Model() == old(Model())
      ensures ret == if block < |Model().disk| then OK else EIO
      ensures ret == OK ==> into.Value() == Model().disk[block]
    {
      var raw;
      ret, raw := blockArray.ReadBlock(block);
      if ret == OK {
        into.Load(raw);
      }
    }

    // kv_store__replay_log, on a store fresh from kv_store__init.
    method ReplayLog(junk: Block) returns (ret: Ret)
      requires Assembled() && Fits(junk)
      requires Model() == Fresh(allocator.numberOfBlocks, Model().disk)
      requires Replayable(allocator.numberOfBlocks, Model().disk)
      modifies directory, allocator.bits, appendPoint, this
      ensures Assembled() && ret == OK
      ensures Model() == Reopen64(old(Model().n), old(Model().disk))
    {
      var totalBlocks := blockArray.GetFileBlockCount();
      assert totalBlocks == |Model().disk|;
      var block := new KvBlock.KvBlock(junk);
      block.InitEmpty();
      ret := ScanBlocks(totalBlocks, block, Model().disk);
    }

    // The scan loop.
    method ScanBlocks(totalBlocks: nat, block: KvBlock.KvBlock, ghost disk: seq<Block>) returns (ret: Ret)
      requires Assembled() && block.Valid() && {block, block.data} !! Repr()
      requires Model() == Fresh(allocator.numberOfBlocks, disk) && totalBlocks == |disk|
      requires Replayable(allocator.numberOfBlocks, disk)
      modifies directory, allocator.bits, appendPoint, this, block, block.data
      ensures Assembled() && ret == OK
      ensures Model() == Reopen64(allocator.numberOfBlocks, disk)
    {
      for b := 0 to totalBlocks
        invariant Assembled() && block.Valid()
        invariant Model() == Scan64(allocator.numberOfBlocks, disk, b)
      {
        ret := ScanNext(b, block, disk);
        if ret != OK {
          return;
        }
      }
      return OK;
    }

    // One iteration of the scan loop.
    method ScanNext(b: nat, block: KvBlock.KvBlock, ghost disk: seq<Block>) returns (ret: Ret)
      requires Assembled() && block.Valid() && {block, block.data} !! Repr()
      requires b < |disk| && Replayable(allocator.numberOfBlocks, disk)
      requires Model() == Scan64(allocator.numberOfBlocks, disk, b)
      modifies directory, allocator.bits, appendPoint, this, block, block.data
      ensures Assembled() && ret == OK
      ensures Model() == Scan64(allocator.numberOfBlocks, disk, b + 1)
    {
      NextIsNew(allocator.numberOfBlocks, disk, b);
      ret := Load(b, block);
      if ret != OK {
        return;
      }
      if block.Validate() {
        ReplayBlock(b, block.keyId, block.dataBytes, block.sequence);
      }
    }

    // The body of the scan loop for a signed block.
    method ReplayBlock(b: nat, key: U64, dataBytes: nat, sequence: U64)
      requires Assembled() && b < |Model().disk| && b < allocator.numberOfBlocks
      requires Signed(Model().disk[b]) && Model().disk[b].key == key
      requires Model().disk[b].dataBytes == dataBytes && Model().disk[b].sequence == sequence
      requires IsNew(Model(), b)
      modifies directory, allocator.bits, appendPoint, this
      ensures Assembled()
      ensures Model() == ScanBlock64(old(Model()), b)
    {
      IndexReplayed(b, key, dataBytes, sequence);
      appendPoint.UpdateAppendPoint(b, sequence);
      if sequence >= currentSequenceNumber {
        currentSequenceNumber := (sequence + 1) % UINT64_MODULUS;
      }
    }

    // As IndexVersion, but the block may turn out to be older than its key's entry.
    method IndexReplayed(b: nat, key: U64, dataBytes: nat, sequence: nat)
      requires Assembled() && b < allocator.numberOfBlocks
      requires key in directory.entries ==>
                 directory.entries[key].sequence != sequence
                 && directory.entries[key].block < allocator.numberOfBlocks
      modifies directory, allocator.bits
      ensures Assembled()
      ensures var stored := StoreKey(old(directory.entries), key, b, dataBytes, sequence);
              var released := Release(old(allocator.Allocated()), stored.replaced);
              && directory.entries == stored.dir
              && allocator.Allocated() == if stored.isLatest then released + {b} else released
    {
      var isLatest, replaced := directory.StoreKey(key, b, dataBytes, sequence);
      if replaced != UINT32_MAX {
        allocator.FreeBlock(replaced);
      }
      if isLatest {
        allocator.MarkBlockAsAllocated(b);
      }
    }
  }

  // kv_open: an empty file when creating, otherwise a replay of its contents.
  method Open(numberOfBlocks: nat, create: bool, contents: seq<Byte>, junk: Block)
    returns (store: Store, ret: Ret)
    requires 0 < numberOfBlocks && numberOfBlocks + 7 < UINT32_MODULUS && Fits(junk)
    requires !create ==> Replayable(numberOfBlocks, BlockArray.DiskOf(contents))
    ensures store.Assembled() && fresh(store.Repr()) && ret == OK
    ensures store.blockArray.file == if create then [] else contents
    ensures create ==> store.Valid() && store.Model() == Fresh(numberOfBlocks, [])
    ensures !create ==> store.Model() == Reopen64(numberOfBlocks, BlockArray.DiskOf(contents))
    ensures !create && Below(BlockArray.DiskOf(contents), UINT64_MAX) ==>
              store.Model() == Reopen(numberOfBlocks, BlockArray.DiskOf(contents))
    ensures !create && Below(BlockArray.DiskOf(contents), UINT64_MAX) ==>
              LogOk(numberOfBlocks, BlockArray.DiskOf(contents)) ==> store.Valid()
  {
    if create {
      store := new Store(numberOfBlocks, []);
      FreshInv(numberOfBlocks);
      ret := OK;
    } else {
      store := new Store(numberOfBlocks, contents);
      ret := store.ReplayLog(junk);
      Reopen64Exact(numberOfBlocks, BlockArray.DiskOf(contents));
      if LogOk(numberOfBlocks, BlockArray.DiskOf(contents)) {
        ReopenInv(numberOfBlocks, BlockArray.DiskOf(contents));
      }
    }
  }

  // What a file must satisfy for the assertions of the replay to hold: it fits
  // the bitmap, and no key has two blocks with one sequence number.
  ghost predicate Replayable(n: nat, disk: seq<Block>) {
    |disk| <= n && DistinctPerKey(disk)
  }

  // A signed block b differs in sequence number from its key's entry.
  ghost predicate IsNew(s: State, b: nat)
    requires b < |s.disk|
  {
    Signed(s.disk[b]) && s.disk[b].key in s.dir ==>
      s.dir[s.disk[b].key].sequence != s.disk[b].sequence && s.dir[s.disk[b].key].block < s.n
  }

  lemma NextIsNew(n: nat, disk: seq<Block>, b: nat)
    requires b < |disk| <= n < UINT32_MAX && DistinctPerKey(disk)
    ensures IsNew(Scan64(n, disk, b), b)
    ensures Scan64(n, disk, b + 1) == ScanBlock64(Scan64(n, disk, b), b)
    ensures !Signed(disk[b]) ==> Scan64(n, disk, b + 1) == Scan64(n, disk, b)
  {
    ScanRecovers(n, disk, b);
    Scan64Recovers(n, disk, b);
    var dir := Scan64(n, disk, b).dir;
    if Signed(disk[b]) && disk[b].key in dir {
      assert EntryOk(disk[..b], disk[b].key, dir[disk[b].key]);
    }
  }

  ghost predicate CursorInRange(s: State) {
    s.cursor == UINT32_MAX || s.cursor <= s.n
  }

  // What a write relies on.
  ghost predicate Writable(s: State, key: U64, writeOk: bool) {
    && CursorInRange(s)
    && (Dest(s) != UINT32_MAX ==> Dest(s) < s.n && Dest(s) <= |s.disk|)
    && (key in s.dir ==> s.dir[key].block < s.n)
    && (key in s.dir && Dest(s) != UINT32_MAX && writeOk ==> s.dir[key].sequence < NextSequence(s.counter))
  }

  // When the assertion on a new version is reached it holds: the counter is
  // below its last value, or the key is not stored yet.
  ghost predicate AssertionHolds(s: State, key: U64, writeOk: bool) {
    s.counter < UINT64_MAX || key !in s.dir || Dest(s) == UINT32_MAX || !writeOk
  }

  // That is, exactly when the directory accepts the new version, if it comes to that.
  lemma AssertionExact(s: State, key: U64, bytes: nat, writeOk: bool)
    requires Inv(s) && s.counter <= UINT64_MAX
    ensures AssertionHolds(s, key, writeOk) <==>
            (Dest(s) != UINT32_MAX && writeOk ==>
               StoreKey(s.dir, key, Dest(s), bytes, NextSequence(s.counter)).isLatest)
  {
    WrapBreaksNewVersions(s, key, Dest(s), bytes);
  }

  // What the object's calls come to, number by number; below the last number
  // they are the calls on the model.
  lemma SetResult(s: State, k: U64, v: seq<Byte>, junk: Block, writeOk: bool, t: State, ret: Ret)
    requires Inv(s) && s.counter <= UINT64_MAX && (t, ret) == Set64(s, k, v, junk, writeOk)
    ensures s.counter < UINT64_MAX || !AcceptsSet(v) ==> Inv(t) && (t, ret) == SetStep(s, k, v, junk, writeOk)
    ensures ret in {OK, EINVAL, ENOSPC, EIO}
    ensures ret == EINVAL <==> |v| == 0 || |v| > 4096
    ensures ret == ENOSPC <==> 1 <= |v| <= 4096 && |s.dir| == s.n
    ensures ret == EIO ==> !writeOk
    ensures ret == OK ==> writeOk
    ensures ret == OK && s.counter < UINT64_MAX ==> Contents(t) == Contents(s)[k := v]
    ensures ret != OK ==> Contents(t) == Contents(s)
  {
    if 1 <= |v| <= 4096 {
      OutcomeOf(s, NextSequence(s.counter), k, v, junk, writeOk);
      if s.counter < UINT64_MAX {
        BelowTheLast(s, k, v, junk, writeOk);
        SetCodes(s, k, v, junk, writeOk);
      }
    }
  }

  lemma DelResult(s: State, k: U64, junk: Block, writeOk: bool, t: State, ret: Ret)
    requires Inv(s) && s.counter <= UINT64_MAX && (t, ret) == Del64(s, k, junk, writeOk)
    ensures s.counter < UINT64_MAX || !AcceptsDel(s, k) ==> Inv(t) && (t, ret) == DelStep(s, k, junk, writeOk)
    ensures ret in {OK, ENOENT, ENOSPC, EIO}
    ensures ret == ENOENT <==> k !in Contents(s)
    ensures ret == ENOSPC <==> k in Contents(s) && |s.dir| == s.n
    ensures ret == EIO ==> !writeOk
    ensures ret == OK ==> writeOk
    ensures ret == OK && s.counter < UINT64_MAX ==> Contents(t) == Contents(s) - {k}
    ensures ret != OK ==> Contents(t) == Contents(s)
  {
    Visible(s, k);
    if AcceptsDel(s, k) {
      OutcomeOf(s, NextSequence(s.counter), k, [], junk, writeOk);
      if s.counter < UINT64_MAX {
        BelowTheLast(s, k, [], junk, writeOk);
        DelCodes(s, k, junk, writeOk);
      }
    }
  }

  // What a read relies on.
  ghost predicate Readable(s: State, key: U64) {
    key in s.dir ==> s.dir[key].bytes <= MAXBLOB
  }

  lemma InvReadable(s: State, key: U64)
    requires Inv(s)
    ensures Readable(s, key)
  {
  }

  lemma InvWritable(s: State, key: U64, writeOk: bool)
    requires Inv(s) && s.counter <= UINT64_MAX && AssertionHolds(s, key, writeOk)
    ensures Writable(s, key, writeOk)
  {
    DestOk(s);
    NextSequenceWraps(s.counter);
    assert key in s.dir ==> EntryOk(s.disk, key, s.dir[key]);
  }
}
