/** The scan that rebuilds the store from the file, and what it recovers. */
module Replay {
  import opened Types
  import opened Placement
  import opened StoreModel
  import opened LogFacts
  import opened StoreInvariant

  // One iteration of the scan loop, at block b.
  function ScanBlock(s: State, b: nat): State
    requires b < |s.disk|
  {
    var block := s.disk[b];
    if !Signed(block) then s else
    var stored := StoreKey(s.dir, block.key, b, block.dataBytes, block.sequence);
    var released := Release(s.bits, stored.replaced);
    var newest := block.sequence >= s.lastScanned;
    s.(dir := stored.dir,
       bits := if stored.isLatest then released + {b} else released,
       cursor := if newest then b else s.cursor,
       lastScanned := if newest then block.sequence else s.lastScanned,
       counter := if block.sequence >= s.counter then block.sequence + 1 else s.counter)
  }

  // The state after scanning the first `count` blocks in physical order.
  function Scan(n: nat, disk: seq<Block>, count: nat): (s: State)
    requires count <= |disk|
    ensures s.disk == disk && s.n == n
  {
    if count == 0 then Fresh(n, disk) else ScanBlock(Scan(n, disk, count - 1), count - 1)
  }

  function Reopen(n: nat, disk: seq<Block>): State {
    Scan(n, disk, |disk|)
  }

  // ------------------------------------------------------- replay = argmax

  // What the scan must have recovered from a disk, without saying how.
  ghost predicate Recovered(disk: seq<Block>, s: State) {
    && DirOk(disk, s.dir)
    && s.bits == DirBlocks(s.dir)
    && HeadRecovered(disk, s)
  }

  ghost predicate HeadRecovered(disk: seq<Block>, s: State) {
    && s.cursor == Head(disk)
    && if disk != [] && Signed(disk[Head(disk)])
       then s.lastScanned == disk[Head(disk)].sequence && s.counter == disk[Head(disk)].sequence + 1
       else s.lastScanned == 0 && s.counter == 0
  }

  // The scan is correct on every disk that fits the block numbers, at every
  // loop head: it depends on no assumption about sequence numbers.
  lemma {:induction false} ScanRecovers(n: nat, disk: seq<Block>, count: nat)
    requires count <= |disk| < UINT32_MAX
    ensures Recovered(disk[..count], Scan(n, disk, count))
  {
    if count == 0 {
      NothingScanned(n, disk);
    } else {
      ScanRecovers(n, disk, count - 1);
      PrefixGrows(disk, count);
      NextRecovered(disk[..count - 1], disk[..count], disk, Scan(n, disk, count - 1), Scan(n, disk, count));
    }
  }

  lemma NothingScanned(n: nat, disk: seq<Block>)
    ensures Recovered(disk[..0], Scan(n, disk, 0))
  {
  }

  lemma PrefixGrows(disk: seq<Block>, count: nat)
    requires 0 < count <= |disk|
    ensures disk[..count] == disk[..count - 1] + [disk[count - 1]]
  {
  }

  lemma NextRecovered(seen: seq<Block>, now: seq<Block>, disk: seq<Block>, s: State, t: State)
    requires |seen| < |disk| < UINT32_MAX && now == seen + [disk[|seen|]]
    requires s.disk == disk && t == ScanBlock(s, |seen|)
    requires Recovered(seen, s)
    ensures Recovered(now, t)
  {
    ScanBlockRecovers(seen, disk, s);
  }

  // At every loop head the bitmap has one bit for each entry of the directory.
  lemma ScanBitmap(n: nat, disk: seq<Block>, count: nat)
    requires count <= |disk| < UINT32_MAX
    ensures var s := Scan(n, disk, count);
            && (forall b :: b in s.bits <==> exists k :: k in s.dir && s.dir[k].block == b)
            && Separate(s.dir) && |s.bits| == |s.dir|
  {
    ScanRecovers(n, disk, count);
    NotShared(disk[..count], Scan(n, disk, count).dir);
    BlockCount(Scan(n, disk, count).dir);
  }

  lemma ReopenRecovers(n: nat, disk: seq<Block>)
    requires |disk| < UINT32_MAX
    ensures Recovered(disk, Reopen(n, disk))
  {
    ScanRecovers(n, disk, |disk|);
    assert disk[..|disk|] == disk;
  }

  lemma ScanBlockRecovers(seen: seq<Block>, disk: seq<Block>, s: State)
    requires Recovered(seen, s) && s.disk == disk
    requires |seen| < |disk| < UINT32_MAX
    ensures Recovered(seen + [disk[|seen|]], ScanBlock(s, |seen|))
  {
    ScanBlockHead(seen, s);
    if Signed(disk[|seen|]) {
      StoreRecovers(seen, s.dir, disk[|seen|]);
    } else {
      DirKeeps(seen, s.dir, disk[|seen|]);
    }
  }

  lemma ScanBlockHead(seen: seq<Block>, s: State)
    requires HeadRecovered(seen, s) && |seen| < |s.disk|
    ensures HeadRecovered(seen + [s.disk[|seen|]], ScanBlock(s, |seen|))
  {
  }

  // Storing the next signed block, and the bitmap updates that go with it.
  lemma StoreRecovers(seen: seq<Block>, dir: Dir, b: Block)
    requires DirOk(seen, dir) && Signed(b) && |seen| < UINT32_MAX
    ensures var stored := StoreKey(dir, b.key, |seen|, b.dataBytes, b.sequence);
            var released := Release(DirBlocks(dir), stored.replaced);
            && DirOk(seen + [b], stored.dir)
            && DirBlocks(stored.dir) == if stored.isLatest then released + {|seen|} else released
  {
    NotShared(seen, dir);
    assert b.key in dir ==> EntryOk(seen, b.key, dir[b.key]);
    BlocksWithin(seen, dir);
    if b.key in dir && b.sequence <= dir[b.key].sequence {
      DirKeeps(seen, dir, b);
    } else {
      StoreNewer(dir, b.key, |seen|, b.dataBytes, b.sequence);
      DirAfterWrite(seen, dir, |seen|, b);
      assert WriteAt(seen, |seen|, b) == seen + [b];
    }
  }

  lemma BlocksWithin(disk: seq<Block>, dir: Dir)
    requires DirOk(disk, dir)
    ensures forall b :: b in DirBlocks(dir) ==> b < |disk|
  {
  }

  // A block that is unsigned or older than its key's entry changes nothing.
  lemma DirKeeps(disk: seq<Block>, dir: Dir, b: Block)
    requires DirOk(disk, dir)
    requires Signed(b) ==> b.key in dir && b.sequence <= dir[b.key].sequence
    ensures DirOk(disk + [b], dir)
  {
  }

  // -------------------------------------------------- nothing else fits

  ghost predicate DistinctPerKey(disk: seq<Block>) {
    forall i, j :: 0 <= i < j < |disk| && Signed(disk[i]) && Signed(disk[j]) && disk[i].key == disk[j].key
      ==> disk[i].sequence != disk[j].sequence
  }

  // With distinct sequence numbers per key there is only one correct directory.
  lemma DirUnique(disk: seq<Block>, one: Dir, two: Dir)
    requires DistinctPerKey(disk) && DirOk(disk, one) && DirOk(disk, two)
    ensures one == two
  {
  }

  // ------------------------------------------------------ live = replayed

  // A file that may be opened yields a store that satisfies the invariant.
  lemma ReopenInv(n: nat, disk: seq<Block>)
    requires 0 < n < UINT32_MAX && LogOk(n, disk)
    ensures Inv(Reopen(n, disk))
    ensures Recovered(disk, Reopen(n, disk))
  {
    ReopenRecovers(n, disk);
  }

  // Replaying the file of a running store gives back its directory and its
  // bitmap, and a cursor that leads to the same next block.
  lemma ReopenMatches(s: State)
    requires Inv(s)
    ensures var t := Reopen(s.n, s.disk);
            && Inv(t) && t.n == s.n && t.disk == s.disk
            && t.dir == s.dir && t.bits == s.bits && Dest(t) == Dest(s)
  {
    ReopenInv(s.n, s.disk);
    DirUnique(s.disk, s.dir, Reopen(s.n, s.disk).dir);
  }

  // ------------------------------------------------ physical order is irrelevant

  // The block that the directory has for a key.
  function NewestOf(s: State, k: U64): Block
    requires k in s.dir
  {
    if s.dir[k].block < |s.disk| then s.disk[s.dir[k].block] else ZeroBlock()
  }

  // The readable contents: every key whose newest version is not a tombstone.
  function Contents(s: State): map<U64, seq<Byte>> {
    map k | k in s.dir && s.dir[k].bytes != 0 :: Payload(NewestOf(s, k), s.dir[k].bytes)
  }

  lemma ContentsOf(s: State, t: State)
    requires s.disk == t.disk && s.dir == t.dir
    ensures Contents(s) == Contents(t)
  {
  }

  // Closing and opening again loses nothing and invents nothing.
  lemma ReopenKeepsContents(s: State)
    requires Inv(s)
    ensures Inv(Reopen(s.n, s.disk)) && Contents(Reopen(s.n, s.disk)) == Contents(s)
  {
    var t := Reopen(s.n, s.disk);
    ReopenMatches(s);
    ContentsOf(s, t);
  }

  // Every block of one disk is somewhere on the other.
  ghost predicate Rearranged(a: seq<Block>, b: seq<Block>) {
    && (forall x :: x in a ==> x in b)
    && (forall x :: x in b ==> x in a)
  }

  lemma SameWinner(a: seq<Block>, b: seq<Block>, s: Dir, t: Dir, k: U64)
    requires Rearranged(a, b) && DistinctPerKey(a)
    requires DirOk(a, s) && DirOk(b, t)
    ensures k in s <==> k in t
    ensures k in s ==> s[k].block < |a| && t[k].block < |b| && a[s[k].block] == b[t[k].block]
  {
    if k in s {
      assert EntryOk(a, k, s[k]);
      assert a[s[k].block] in b;
      assert k in t;
    }
    if k in t {
      assert EntryOk(b, k, t[k]);
      assert b[t[k].block] in b;
      var i :| 0 <= i < |a| && a[i] == b[t[k].block];
      assert EntryOk(a, k, s[k]);
      assert a[s[k].block] in b;
    }
  }

  lemma PermutedBlocks(a: seq<Block>, b: seq<Block>)
    requires multiset(a) == multiset(b)
    ensures Rearranged(a, b) && |a| == |b|
  {
    assert |a| == |multiset(a)| == |multiset(b)| == |b|;
    forall x | x in a ensures x in b { assert x in multiset(a); }
    forall x | x in b ensures x in a { assert x in multiset(b); }
  }

  // Any rearrangement of the blocks in the file recovers the same keys, and
  // for each key the very same block.
  lemma ReplayIgnoresOrder(n: nat, a: seq<Block>, b: seq<Block>)
    requires multiset(a) == multiset(b) && |a| < UINT32_MAX
    requires DistinctPerKey(a)
    ensures var s, t := Reopen(n, a), Reopen(n, b);
            && s.dir.Keys == t.dir.Keys
            && (forall k :: k in s.dir ==> NewestOf(s, k) == NewestOf(t, k))
            && Contents(s) == Contents(t)
  {
    PermutedBlocks(a, b);
    ReopenRecovers(n, a);
    ReopenRecovers(n, b);
    SameContents(Reopen(n, a), Reopen(n, b));
  }

  lemma SameContents(s: State, t: State)
    requires Rearranged(s.disk, t.disk) && DistinctPerKey(s.disk)
    requires DirOk(s.disk, s.dir) && DirOk(t.disk, t.dir)
    ensures s.dir.Keys == t.dir.Keys
    ensures forall k :: k in s.dir ==> NewestOf(s, k) == NewestOf(t, k)
    ensures Contents(s) == Contents(t)
  {
    forall k: U64
      ensures k in s.dir <==> k in t.dir
      ensures k in s.dir ==> NewestOf(s, k) == NewestOf(t, k) && s.dir[k].bytes == t.dir[k].bytes
    {
      SameWinner(s.disk, t.disk, s.dir, t.dir, k);
      if k in s.dir {
        assert EntryOk(s.disk, k, s.dir[k]) && EntryOk(t.disk, k, t.dir[k]);
      }
    }
  }
}
