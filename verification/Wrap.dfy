/** The sequence counter has 64 bits: where that can be seen, and what it does. */
module Wrap {
  import opened Types
  import opened StoreModel
  import opened StoreInvariant
  import opened Replay
  import opened Crash
  import opened Runs
  import opened History

  // ---------------------------------------------------------------- the replay

  // One iteration of the scan loop with a 64-bit counter.
  function ScanBlock64(s: State, b: nat): State
    requires b < |s.disk|
  {
    var t := ScanBlock(s, b);
    if t.counter == s.counter then t else t.(counter := NextSequence(s.disk[b].sequence))
  }

  function Scan64(n: nat, disk: seq<Block>, count: nat): (s: State)
    requires count <= |disk|
    ensures s.disk == disk && s.n == n && s.counter <= UINT64_MAX
  {
    if count == 0 then Fresh(n, disk) else ScanBlock64(Scan64(n, disk, count - 1), count - 1)
  }

  function Reopen64(n: nat, disk: seq<Block>): State {
    Scan64(n, disk, |disk|)
  }

  // The counter is all that can differ from an unbounded one: directory,
  // bitmap and cursor are right whatever the sequence numbers on disk.
  lemma {:induction false} Scan64Recovers(n: nat, disk: seq<Block>, count: nat)
    requires count <= |disk|
    ensures Scan64(n, disk, count) == Scan(n, disk, count).(counter := Scan64(n, disk, count).counter)
  {
    if count > 0 {
      Scan64Recovers(n, disk, count - 1);
    }
  }

  lemma {:induction false} Scan64Bounded(n: nat, disk: seq<Block>, count: nat)
    requires count <= |disk|
    requires forall i :: 0 <= i < count && Signed(disk[i]) ==> disk[i].sequence < UINT64_MAX
    ensures Scan64(n, disk, count) == Scan(n, disk, count)
  {
    if count > 0 {
      Scan64Bounded(n, disk, count - 1);
      if Signed(disk[count - 1]) {
        NextSequenceWraps(disk[count - 1].sequence);
      }
    }
  }

  // The counter comes out right exactly for files without the last sequence number.
  lemma Reopen64Exact(n: nat, disk: seq<Block>)
    requires |disk| < UINT32_MAX
    ensures Reopen64(n, disk) == Reopen(n, disk) <==> Below(disk, UINT64_MAX)
    ensures Reopen64(n, disk) == Reopen(n, disk).(counter := Reopen64(n, disk).counter)
  {
    Scan64Recovers(n, disk, |disk|);
    if Below(disk, UINT64_MAX) {
      Scan64Bounded(n, disk, |disk|);
    } else {
      ReopenRecovers(n, disk);
    }
  }

  // ---------------------------------------------------------------- the writes

  // The calls with a 64-bit counter.
  function Set64(s: State, k: U64, value: seq<Byte>, junk: Block, writeOk: bool): (State, Ret) {
    if !AcceptsSet(value) then (s, EINVAL) else AppendAs(s, NextSequence(s.counter), k, value, junk, writeOk)
  }

  function Del64(s: State, k: U64, junk: Block, writeOk: bool): (State, Ret) {
    if !AcceptsDel(s, k) then (s, ENOENT) else AppendAs(s, NextSequence(s.counter), k, [], junk, writeOk)
  }

  // Once anything has been written with a number other than 0, a write keeps
  // the invariant exactly as long as the counter is below its last value.
  lemma WrapBreaksInvariant(s: State, k: U64, value: seq<Byte>, junk: Block, writeOk: bool)
    requires Inv(s) && s.counter <= UINT64_MAX && |value| <= MAXBLOB
    requires s.disk != [] && Signed(s.disk[Head(s.disk)]) && s.disk[Head(s.disk)].sequence > 0
    ensures Inv(AppendAs(s, NextSequence(s.counter), k, value, junk, writeOk).0) <==> s.counter < UINT64_MAX
  {
    NextSequenceWraps(s.counter);
    if s.counter < UINT64_MAX {
      NotWrapped(s, NextSequence(s.counter), k, value, junk, writeOk);
    } else {
      WrappedToZero(s, k, value, junk, writeOk);
    }
  }

  lemma NotWrapped(s: State, sequence: nat, k: U64, value: seq<Byte>, junk: Block, writeOk: bool)
    requires Inv(s) && |value| <= MAXBLOB && sequence == s.counter + 1
    ensures Inv(AppendAs(s, sequence, k, value, junk, writeOk).0)
  {
    AppendInv(s, k, value, junk, writeOk);
    SameInv(Append(s, k, value, junk, writeOk).0, AppendAs(s, sequence, k, value, junk, writeOk).0);
  }

  // Below its last value the counter is one that never runs out.
  lemma BelowTheLast(s: State, k: U64, value: seq<Byte>, junk: Block, writeOk: bool)
    requires Inv(s) && |value| <= MAXBLOB && s.counter < UINT64_MAX
    ensures AppendAs(s, NextSequence(s.counter), k, value, junk, writeOk) == Append(s, k, value, junk, writeOk)
    ensures Inv(Append(s, k, value, junk, writeOk).0)
  {
    NextSequenceWraps(s.counter);
    SameSequence(s, NextSequence(s.counter), k, value, junk, writeOk);
    AppendInv(s, k, value, junk, writeOk);
  }

  lemma SameSequence(s: State, sequence: nat, k: U64, value: seq<Byte>, junk: Block, writeOk: bool)
    requires |value| <= MAXBLOB && sequence == s.counter + 1
    ensures AppendAs(s, sequence, k, value, junk, writeOk) == Append(s, k, value, junk, writeOk)
  {
  }

  lemma SameInv(s: State, t: State)
    requires s == t && Inv(s)
    ensures Inv(t)
  {
  }

  lemma WrappedToZero(s: State, k: U64, value: seq<Byte>, junk: Block, writeOk: bool)
    requires Inv(s) && |value| <= MAXBLOB
    requires s.disk != [] && Signed(s.disk[Head(s.disk)]) && s.disk[Head(s.disk)].sequence > 0
    ensures !Inv(AppendAs(s, 0, k, value, junk, writeOk).0)
  {
    HeadSurvives(s, 0, k, value, junk, writeOk);
    CounterTooLow(AppendAs(s, 0, k, value, junk, writeOk).0, Head(s.disk));
  }

  lemma CounterTooLow(t: State, i: nat)
    requires i < |t.disk| && Signed(t.disk[i]) && t.counter < t.disk[i].sequence
    ensures !Inv(t)
  {
  }

  // No write of any outcome touches the block written last.
  lemma HeadSurvives(s: State, sequence: nat, k: U64, value: seq<Byte>, junk: Block, writeOk: bool)
    requires Inv(s) && |value| <= MAXBLOB
    requires s.disk != [] && Signed(s.disk[Head(s.disk)])
    ensures var t, h := AppendAs(s, sequence, k, value, junk, writeOk).0, Head(s.disk);
            t.counter == sequence && h < |t.disk| && t.disk[h] == s.disk[h]
  {
    HeadAllocated(s);
    DestOk(s);
  }

  // A file as the store writes it, one number short of the last.
  function LastButOne(): seq<Block> {
    [NewBlock(7, [1], UINT64_MAX - 1, ZeroBlock())]
  }

  // From that file the store is opened in good order with its counter at the
  // last value. The next set of the stored key makes the assertion fail; if
  // it is compiled out, the set reports success and the old value stays.
  lemma WrapIsReachable(junk: Block)
    ensures var s := Reopen64(3, LastButOne());
            && Inv(s) && s.counter == UINT64_MAX && Contents(s) == map[7 := [1]]
            && !StoreKey(s.dir, 7, Dest(s), 1, NextSequence(s.counter)).isLatest
            && AppendAs(s, NextSequence(s.counter), 7, [2], junk, true).1 == OK
            && Contents(AppendAs(s, NextSequence(s.counter), 7, [2], junk, true).0) == map[7 := [1]]
  {
    var s := Reopen64(3, LastButOne());
    LastButOneOpened();
    LastButOneDir(s);
    WrapBreaksNewVersions(s, 7, Dest(s), 1);
    NextSequenceWraps(s.counter);
    LostSet(s, 0, 7, [2], junk);
  }

  lemma LastButOneOpened()
    ensures var s := Reopen64(3, LastButOne());
            Inv(s) && s.n == 3 && s.disk == LastButOne() && s.counter == UINT64_MAX
  {
    assert Head(LastButOne()) == 0;
    ReopenInv(3, LastButOne());
    Reopen64Exact(3, LastButOne());
  }

  // A set that the directory does not accept: the disk is written, the old value stays.
  lemma LostSet(s: State, sequence: nat, k: U64, value: Blob, junk: Block)
    requires Inv(s) && k in s.dir && |s.dir| < s.n && sequence <= s.dir[k].sequence
    ensures var (t, ret) := AppendAs(s, sequence, k, value, junk, true);
            ret == OK && Contents(t) == Contents(s)
  {
    DestOk(s);
    var t := AppendAs(s, sequence, k, value, junk, true).0;
    forall k' | k' in s.dir ensures NewestOf(t, k') == NewestOf(s, k') {
      EntryAllocated(s, k');
    }
    SameContentsAt(s, t);
  }

  lemma LastButOneDir(s: State)
    requires s.disk == LastButOne() && DirOk(s.disk, s.dir)
    ensures s.dir == map[7 := Entry(UINT64_MAX - 1, 0, 1)]
    ensures Contents(s) == map[7 := [1]]
  {
    assert EntryOk(s.disk, 7, s.dir[7]) by {
      assert s.disk[0].key in s.dir;
    }
    forall k | k in s.dir ensures k == 7 {
      assert EntryOk(s.disk, k, s.dir[k]);
    }
  }

  lemma SameContentsAt(s: State, t: State)
    requires t.dir == s.dir
    requires forall k :: k in s.dir ==> NewestOf(t, k) == NewestOf(s, k)
    ensures Contents(t) == Contents(s)
  {
  }
}
