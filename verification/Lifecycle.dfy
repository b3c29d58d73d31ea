/** Closing a store and opening its file again. */
module Lifecycle {
  import opened Types
  import opened StoreModel
  import opened Replay
  import opened Bisimulation
  import opened Codec
  import opened Wrap
  import opened Format
  import opened BlockArray
  import opened Store

  // kv_open as the program calls it: the store always has 200001 blocks, and
  // answers a get from the bytes of the file.
  method KvOpen(create: bool, contents: seq<Byte>, junk: Block) returns (store: Store, ret: Ret)
    requires Fits(junk)
    requires !create ==> Replayable(200001, DiskOf(contents))
    ensures store.Assembled() && fresh(store.Repr()) && ret == OK
    ensures store.Model().n == 200001
    ensures store.blockArray.file == if create then [] else contents
    ensures create ==> store.Valid() && Contents(store.Model()) == map[]
    ensures !create ==> store.Model() == Reopen64(200001, DiskOf(contents))
    ensures !create ==> forall k: U64, i: nat, size: nat | NewestAt(contents, k, i) && SizeAt(contents, i) <= 4096 ::
              GetStep(store.Model(), k, size) ==
              if SizeAt(contents, i) == 0 then (ENOENT, [])
              else if size < SizeAt(contents, i) then (EINVAL, [])
              else (OK, ValueAt(contents, i, SizeAt(contents, i)))
  {
    store, ret := Open(NUMBER_OF_BLOCKS, create, contents, junk);
    if !create {
      forall k: U64, i: nat, size: nat | NewestAt(contents, k, i) && SizeAt(contents, i) <= 4096 {
        OpenedFileIsRead(200001, contents, k, i, size);
      }
    }
  }

  // kv_close followed by kv_open on the same file: the same directory, bitmap,
  // next block and contents come back. Unless the last 64-bit sequence number
  // is on disk, the store that comes back is valid and cannot be told from
  // the one that was closed.
  method CloseAndOpen(store: Store, junk: Block) returns (again: Store, ret: Ret)
    requires store.Valid() && Fits(junk)
    ensures again.Assembled() && fresh(again.Repr()) && ret == OK
    ensures again.blockArray.file == store.blockArray.file
    ensures Recalls(again.Model(), old(store.Model()))
    ensures Below(again.Model().disk, UINT64_MAX) ==>
              again.Valid() && Similar(old(store.Model()), again.Model())
  {
    ghost var s := store.Model();
    InvReplayable(s);
    ReopenRecalls(s);
    again, ret := Open(store.allocator.numberOfBlocks, false, store.blockArray.file, junk);
  }

  // All but the counters and the cursor itself is the same.
  ghost predicate Recalls(t: State, s: State) {
    && t.n == s.n && t.disk == s.disk && t.dir == s.dir && t.bits == s.bits
    && Dest(t) == Dest(s) && Contents(t) == Contents(s)
  }

  lemma ReopenRecalls(s: State)
    requires Inv(s)
    ensures Recalls(Reopen64(s.n, s.disk), s)
    ensures Below(s.disk, UINT64_MAX) ==> Similar(s, Reopen64(s.n, s.disk))
  {
    ReopenMatches(s);
    ReopenSimilar(s);
    Reopen64Exact(s.n, s.disk);
    ContentsOf(Reopen64(s.n, s.disk), s);
  }

  lemma InvReplayable(s: State)
    requires Inv(s)
    ensures LogOk(s.n, s.disk) && Replayable(s.n, s.disk)
  {
  }
}
