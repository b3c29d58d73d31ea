/**
 The store as a value: the log on disk and everything the store keeps in
 memory about it, the operations as functions on that value, and the coupled
 invariant that all of them keep.
 */
module StoreModel {
  import opened Types
  import opened Placement

  datatype State = State(
    n: nat,             // number of blocks the allocator tracks
    disk: seq<Block>,   // the file, block by block
    dir: Dir,           // newest block of every key, tombstones included
    bits: set<nat>,     // allocated blocks
    cursor: nat,        // last block handed out, or UINT32_MAX
    lastScanned: nat,   // highest sequence met by the replay
    counter: nat)       // current_sequence_number

  function Fresh(n: nat, disk: seq<Block>): State {
    State(n, disk, map[], {}, 0, 0, 0)
  }

  // ---------------------------------------------------------------- parts

  datatype StoreResult = StoreResult(dir: Dir, isLatest: bool, replaced: nat)

  // Newest sequence wins; reports whether this version became the current
  // one and which block it replaced.
  function StoreKey(dir: Dir, key: U64, block: nat, bytes: nat, sequence: nat): StoreResult {
    var entry := Entry(sequence, block, bytes % UINT16_MODULUS);
    if key !in dir then StoreResult(dir[key := entry], true, UINT32_MAX)
    else if sequence > dir[key].sequence then StoreResult(dir[key := entry], true, dir[key].block)
    else StoreResult(dir, false, UINT32_MAX)
  }

  function Release(bits: set<nat>, replaced: nat): set<nat> {
    if replaced != UINT32_MAX then bits - {replaced} else bits
  }

  // Where the next write goes.
  function Dest(s: State): nat {
    NextFree(s.n, s.bits, if s.cursor == UINT32_MAX then 0 else s.cursor)
  }

  // Writing past the end of the file leaves a hole that reads as zeros.
  function WriteAt(disk: seq<Block>, d: nat, b: Block): (r: seq<Block>)
    ensures |r| == if d < |disk| then |disk| else d + 1
    ensures r[d] == b
    ensures forall i :: 0 <= i < |disk| && i != d ==> r[i] == disk[i]
  {
    if d < |disk| then disk[d := b]
    else disk + seq(d - |disk|, _ => ZeroBlock()) + [b]
  }

  // ----------------------------------------------------------- operations

  // What kv_set and kv_del do once their arguments are accepted, with the
  // number the incremented counter gives; an empty value makes the block a
  // tombstone. `writeOk` is the outcome of the disk.
  function AppendAs(s: State, sequence: nat, k: U64, value: seq<Byte>, junk: Block, writeOk: bool): (State, Ret)
    requires |value| <= MAXBLOB
  {
    var dest := Dest(s);
    var s1 := s.(counter := sequence, cursor := dest);
    if dest == UINT32_MAX then (s1, ENOSPC)
    else if !writeOk then (s1, EIO)
    else
      var stored := StoreKey(s.dir, k, dest, |value|, sequence);
      (s1.(disk := WriteAt(s.disk, dest, NewBlock(k, value, sequence, junk)),
           dir := stored.dir,
           bits := Release(s.bits, stored.replaced) + {dest}),
       OK)
  }

  // The same with a counter that never runs out.
  function Append(s: State, k: U64, value: seq<Byte>, junk: Block, writeOk: bool): (State, Ret)
    requires |value| <= MAXBLOB
  {
    AppendAs(s, s.counter + 1, k, value, junk, writeOk)
  }

  predicate AcceptsSet(value: seq<Byte>) {
    0 < |value| <= MAXBLOB
  }

  function SetStep(s: State, k: U64, value: seq<Byte>, junk: Block, writeOk: bool): (State, Ret) {
    if !AcceptsSet(value) then (s, EINVAL) else Append(s, k, value, junk, writeOk)
  }

  predicate AcceptsDel(s: State, k: U64) {
    k in s.dir && s.dir[k].bytes != 0
  }

  function DelStep(s: State, k: U64, junk: Block, writeOk: bool): (State, Ret) {
    if !AcceptsDel(s, k) then (s, ENOENT) else Append(s, k, [], junk, writeOk)
  }

  function GetStep(s: State, k: U64, size: nat): (Ret, seq<Byte>) {
    if k !in s.dir || s.dir[k].bytes == 0 then (ENOENT, [])
    else if size < s.dir[k].bytes then (EINVAL, [])
    else if s.dir[k].block >= |s.disk| then (EIO, [])
    else if !Signed(s.disk[s.dir[k].block]) then (EFAULT, [])
    else (OK, Payload(s.disk[s.dir[k].block], s.dir[k].bytes))
  }

  // ------------------------------------------------------------ invariant

  // What a file must satisfy to be opened: it fits the bitmap, and signed
  // blocks respect the size limit and never share a sequence number.
  ghost predicate LogOk(n: nat, disk: seq<Block>) {
    && |disk| <= n
    && (forall i :: 0 <= i < |disk| && Signed(disk[i]) ==> disk[i].dataBytes <= MAXBLOB)
    && (forall i, j :: 0 <= i < j < |disk| && Signed(disk[i]) && Signed(disk[j])
          ==> disk[i].sequence != disk[j].sequence)
  }

  // The directory maps exactly the keys on disk, each to the block with the
  // greatest sequence number for that key.
  ghost predicate DirOk(disk: seq<Block>, dir: Dir) {
    && (forall k :: k in dir ==> EntryOk(disk, k, dir[k]))
    && (forall i :: 0 <= i < |disk| && Signed(disk[i])
          ==> disk[i].key in dir && disk[i].sequence <= dir[disk[i].key].sequence)
  }

  ghost predicate EntryOk(disk: seq<Block>, k: U64, e: Entry) {
    && e.block < |disk|
    && Signed(disk[e.block])
    && disk[e.block].key == k
    && disk[e.block].sequence == e.sequence
    && disk[e.block].dataBytes == e.bytes
  }

  ghost function DirBlocks(dir: Dir): set<nat> {
    set k | k in dir :: dir[k].block
  }

  // The signed block with the greatest sequence number, 0 if there is none.
  // `>=` makes the later block win, as in the replay.
  function Head(disk: seq<Block>): (h: nat)
    ensures disk == [] ==> h == 0
    ensures disk != [] ==> h < |disk|
    ensures forall i :: 0 <= i < |disk| && Signed(disk[i]) ==>
              Signed(disk[h]) && disk[i].sequence <= disk[h].sequence
              && (disk[i].sequence == disk[h].sequence ==> i <= h)
    ensures (forall i :: 0 <= i < |disk| ==> !Signed(disk[i])) ==> h == 0
  {
    if disk == [] then 0 else
    var last := |disk| - 1;
    var h := Head(disk[..last]);
    if Signed(disk[last]) && (!Signed(disk[h]) || disk[h].sequence <= disk[last].sequence) then last else h
  }

  ghost predicate Below(disk: seq<Block>, bound: nat) {
    forall i :: 0 <= i < |disk| && Signed(disk[i]) ==> disk[i].sequence < bound
  }

  ghost predicate CursorOk(s: State) {
    && (s.cursor == UINT32_MAX || s.cursor < s.n)
    && Dest(s) == NextFree(s.n, s.bits, Head(s.disk))
  }

  ghost predicate Inv(s: State) {
    && 0 < s.n < UINT32_MAX
    && LogOk(s.n, s.disk)
    && DirOk(s.disk, s.dir)
    && s.bits == DirBlocks(s.dir)
    && Below(s.disk, s.counter + 1)
    && CursorOk(s)
  }
}
