/** Properties of whole runs: what stays on disk, in which order blocks are used, and when space runs out. */
module History {
  import opened Types
  import opened Placement
  import opened StoreModel
  import opened LogFacts
  import opened StoreInvariant
  import opened Replay
  import opened Crash
  import opened Runs

  // ----------------------------------------------- what one step does to the disk

  ghost predicate Untouched(s: State, t: State) {
    t.disk == s.disk && t.dir == s.dir && t.bits == s.bits && Dest(t) == Dest(s)
  }

  // Block d was free, at most one past the end, and now holds the newest
  // version of key k, with a sequence number above all others.
  ghost predicate WroteTo(s: State, t: State, k: U64, d: nat) {
    && d == Dest(s) && d < s.n && d !in s.bits && d <= |s.disk|
    && d < |t.disk| && t.disk == WriteAt(s.disk, d, t.disk[d])
    && Signed(t.disk[d]) && t.disk[d].key == k && Below(s.disk, t.disk[d].sequence)
    && t.dir == s.dir[k := Entry(t.disk[d].sequence, d, t.disk[d].dataBytes)]
    && Head(t.disk) == d
  }

  lemma AppendShape(s: State, k: U64, value: Blob, junk: Block, writeOk: bool)
    requires Inv(s)
    ensures var (t, ret) := Append(s, k, value, junk, writeOk);
            && Inv(t) && t.n == s.n
            && (ret != OK ==> Untouched(s, t))
            && (ret == OK ==> Dest(s) != UINT32_MAX && WroteTo(s, t, k, Dest(s)))
  {
    AppendInv(s, k, value, junk, writeOk);
    if Append(s, k, value, junk, writeOk).1 == OK {
      AppendEffect(s, k, value, junk, writeOk);
      AppendIsHead(s, k, value, junk, writeOk);
    } else {
      AppendFailedInv(s, k, value, junk, writeOk);
    }
  }

  lemma CrashShape(s: State, k: U64, value: Blob, junk: Block, writeOk: bool, steps: nat)
    requires Inv(s)
    ensures var (t, out) := CrashIn(s, k, value, junk, writeOk, steps);
            && Inv(t) && t.n == s.n
            && if out.wrote == UINT32_MAX then Untouched(s, t) else WroteTo(s, t, k, out.wrote)
  {
    DiskAfterSteps(s, k, value, junk, writeOk, steps);
    AppendShape(s, k, value, junk, writeOk);
    ReopenMatches(s);
    ReopenMatches(Append(s, k, value, junk, writeOk).0);
  }

  // What any operation leaves of the disk.
  ghost predicate Shape(s: State, op: Op, t: State, wrote: nat) {
    && Inv(t) && t.n == s.n
    && if wrote == UINT32_MAX then Untouched(s, t)
       else !op.Restart? && !op.Get? && WroteTo(s, t, op.key, wrote)
  }

  lemma StepShape(s: State, op: Op)
    requires Inv(s)
    ensures Shape(s, op, Step(s, op).0, Step(s, op).1.wrote)
  {
    if op.Set? || op.Del? || op.Get? {
      CallShape(s, op);
    } else {
      LossShape(s, op);
    }
  }

  lemma CallShape(s: State, op: Op)
    requires Inv(s) && (op.Set? || op.Del? || op.Get?)
    ensures Shape(s, op, Step(s, op).0, Step(s, op).1.wrote)
  {
    if op.Set? && AcceptsSet(op.value) {
      AppendShape(s, op.key, op.value, op.junk, op.writeOk);
    } else if op.Del? && AcceptsDel(s, op.key) {
      AppendShape(s, op.key, [], op.junk, op.writeOk);
    }
  }

  lemma LossShape(s: State, op: Op)
    requires Inv(s) && !(op.Set? || op.Del? || op.Get?)
    ensures Shape(s, op, Step(s, op).0, Step(s, op).1.wrote)
  {
    if op.CrashInSet? && AcceptsSet(op.value) {
      CrashShape(s, op.key, op.value, op.junk, op.writeOk, op.steps);
    } else if op.CrashInDel? && AcceptsDel(s, op.key) {
      CrashShape(s, op.key, [], op.junk, op.writeOk, op.steps);
    } else {
      ReopenMatches(s);
    }
  }

  // -------------------------------------------------------------- dense file

  ghost predicate AllSigned(disk: seq<Block>) {
    forall i :: 0 <= i < |disk| ==> Signed(disk[i])
  }

  // From a created store on, the file has no holes and nothing but signed
  // blocks, and never outgrows the bitmap.
  lemma {:induction false} DenseFile(s: State, ops: seq<Op>)
    requires Inv(s) && AllSigned(s.disk)
    ensures var t := Run(s, ops).0; Inv(t) && AllSigned(t.disk) && |s.disk| <= |t.disk| <= s.n
    decreases |ops|
  {
    if ops != [] {
      StepKeepsSigned(s, ops[0]);
      DenseFile(Step(s, ops[0]).0, ops[1..]);
    }
  }

  lemma StepKeepsSigned(s: State, op: Op)
    requires Inv(s) && AllSigned(s.disk)
    ensures var t := Step(s, op).0; Inv(t) && t.n == s.n && AllSigned(t.disk) && |s.disk| <= |t.disk|
  {
    StepShape(s, op);
    ShapeSigned(s, op, Step(s, op).0, Step(s, op).1.wrote);
  }

  lemma ShapeSigned(s: State, op: Op, t: State, wrote: nat)
    requires Shape(s, op, t, wrote) && AllSigned(s.disk)
    ensures AllSigned(t.disk) && |s.disk| <= |t.disk|
  {
  }

  // ----------------------------------------------------- entries and tombstones

  predicate Names(op: Op, k: U64) {
    !op.Restart? && !op.Get? && op.key == k
  }

  lemma StepKeepsEntry(s: State, op: Op, k: U64)
    requires Inv(s) && k in s.dir && !Names(op, k)
    ensures Inv(Step(s, op).0) && KeepsEntry(s, Step(s, op).0, k)
  {
    StepShape(s, op);
    ShapeKeepsEntry(s, op, Step(s, op).0, Step(s, op).1.wrote, k);
  }

  ghost predicate KeepsEntry(s: State, t: State, k: U64)
    requires k in s.dir
  {
    k in t.dir && t.dir[k] == s.dir[k] && NewestOf(t, k) == NewestOf(s, k) && s.dir[k].block in t.bits
  }

  lemma EntryAllocated(s: State, k: U64)
    requires Inv(s) && k in s.dir
    ensures s.dir[k].block in s.bits && s.dir[k].block < |s.disk|
  {
    assert EntryOk(s.disk, k, s.dir[k]);
  }

  lemma WriteKeepsOther(s: State, t: State, named: U64, d: nat, k: U64)
    requires WroteTo(s, t, named, d) && k in s.dir && k != named
    requires s.dir[k].block in s.bits && s.dir[k].block < |s.disk|
    ensures k in t.dir && t.dir[k] == s.dir[k] && NewestOf(t, k) == NewestOf(s, k)
  {
  }

  lemma ShapeKeepsEntry(s: State, op: Op, t: State, wrote: nat, k: U64)
    requires Inv(s) && k in s.dir && !Names(op, k) && Shape(s, op, t, wrote)
    ensures KeepsEntry(s, t, k)
  {
    EntryAllocated(s, k);
    if wrote != UINT32_MAX {
      WriteKeepsOther(s, t, op.key, wrote, k);
      EntryAllocated(t, k);
    }
  }

  // No operation of the run writes a version of k: calls that name k may be
  // made, but are refused, fail, or crash before their block is on disk.
  ghost predicate NeverWritten(s: State, ops: seq<Op>, k: U64)
    decreases |ops|
  {
    ops == [] ||
    ((Names(ops[0], k) ==> Step(s, ops[0]).1.wrote == UINT32_MAX) && NeverWritten(Step(s, ops[0]).0, ops[1..], k))
  }

  lemma UnwrittenKeepsEntry(s: State, op: Op, k: U64)
    requires Inv(s) && k in s.dir && Step(s, op).1.wrote == UINT32_MAX
    ensures Inv(Step(s, op).0) && KeepsEntry(s, Step(s, op).0, k)
  {
    StepShape(s, op);
    EntryAllocated(s, k);
  }

  // The newest version of a key, tombstones included, stays allocated and
  // unchanged until a newer version of the same key replaces it: through any
  // run of other calls, failures, restarts and crashes.
  lemma {:induction false} NewestVersionStays(s: State, ops: seq<Op>, k: U64)
    requires Inv(s) && k in s.dir
    requires NeverWritten(s, ops, k)
    ensures Inv(Run(s, ops).0) && KeepsEntry(s, Run(s, ops).0, k)
    decreases |ops|
  {
    if ops == [] {
      EntryAllocated(s, k);
    } else {
      if Names(ops[0], k) {
        UnwrittenKeepsEntry(s, ops[0], k);
      } else {
        StepKeepsEntry(s, ops[0], k);
      }
      NewestVersionStays(Step(s, ops[0]).0, ops[1..], k);
    }
  }

  // ------------------------------------------------------------ no resurrection

  predicate Stores(op: Op, k: U64) {
    (op.Set? || op.CrashInSet?) && op.key == k
  }

  lemma StepStaysDeleted(s: State, op: Op, k: U64)
    requires Inv(s) && k !in Contents(s) && !Stores(op, k)
    ensures Inv(Step(s, op).0) && k !in Contents(Step(s, op).0)
  {
    StepRefines(s, op);
    RefStaysDeleted(s.n, View(s), op, k);
  }

  lemma RefStaysDeleted(n: nat, r: Reference, op: Op, k: U64)
    requires k !in r.contents && !Stores(op, k)
    ensures k !in RefStep(n, r, op).0.contents
  {
  }

  // An operation that writes nothing leaves the contents of every key alone.
  lemma UnwrittenKeepsContents(s: State, op: Op)
    requires Inv(s) && Step(s, op).1.wrote == UINT32_MAX
    ensures Inv(Step(s, op).0) && Contents(Step(s, op).0) == Contents(s)
  {
    StepShape(s, op);
    ContentsOf(s, Step(s, op).0);
  }

  // No set of k in the run reaches the disk.
  ghost predicate NeverStored(s: State, ops: seq<Op>, k: U64)
    decreases |ops|
  {
    ops == [] ||
    ((Stores(ops[0], k) ==> Step(s, ops[0]).1.wrote == UINT32_MAX) && NeverStored(Step(s, ops[0]).0, ops[1..], k))
  }

  lemma {:induction false} StaysDeleted(s: State, ops: seq<Op>, k: U64)
    requires Inv(s) && k !in Contents(s)
    requires NeverStored(s, ops, k)
    ensures Inv(Run(s, ops).0) && k !in Contents(Run(s, ops).0)
    decreases |ops|
  {
    if ops != [] {
      if Stores(ops[0], k) {
        UnwrittenKeepsContents(s, ops[0]);
      } else {
        StepStaysDeleted(s, ops[0], k);
      }
      StaysDeleted(Step(s, ops[0]).0, ops[1..], k);
    }
  }

  ghost predicate Holds(s: State, k: U64, value: seq<Byte>) {
    k in Contents(s) && Contents(s)[k] == value
  }

  lemma StepStaysStored(s: State, op: Op, k: U64, value: seq<Byte>)
    requires Inv(s) && Holds(s, k, value) && !Names(op, k)
    ensures Inv(Step(s, op).0) && Holds(Step(s, op).0, k, value)
  {
    StepRefines(s, op);
    RefStaysStored(s.n, View(s), op, k);
  }

  lemma RefStaysStored(n: nat, r: Reference, op: Op, k: U64)
    requires k in r.contents && !Names(op, k)
    ensures k in RefStep(n, r, op).0.contents && RefStep(n, r, op).0.contents[k] == r.contents[k]
  {
  }

  lemma {:induction false} StaysStored(s: State, ops: seq<Op>, k: U64, value: seq<Byte>)
    requires Inv(s) && Holds(s, k, value)
    requires NeverWritten(s, ops, k)
    ensures Inv(Run(s, ops).0) && Holds(Run(s, ops).0, k, value)
    decreases |ops|
  {
    if ops != [] {
      if Names(ops[0], k) {
        UnwrittenKeepsContents(s, ops[0]);
      } else {
        StepStaysStored(s, ops[0], k, value);
      }
      StaysStored(Step(s, ops[0]).0, ops[1..], k, value);
    }
  }

  lemma RefDeletes(n: nat, r: Reference, k: U64, junk: Block, writeOk: bool)
    requires RefStep(n, r, Del(k, junk, writeOk)).1.ret in {OK, ENOENT}
    ensures k !in RefStep(n, r, Del(k, junk, writeOk)).0.contents
  {
  }

  lemma DeleteDeletes(s: State, k: U64, junk: Block, writeOk: bool)
    requires Inv(s) && Step(s, Del(k, junk, writeOk)).1.reply.ret in {OK, ENOENT}
    ensures Inv(Step(s, Del(k, junk, writeOk)).0) && k !in Contents(Step(s, Del(k, junk, writeOk)).0)
  {
    StepRefines(s, Del(k, junk, writeOk));
    RefDeletes(s.n, View(s), k, junk, writeOk);
  }

  lemma SetStores(s: State, k: U64, value: seq<Byte>, junk: Block, writeOk: bool)
    requires Inv(s) && Step(s, Set(k, value, junk, writeOk)).1.reply.ret == OK
    ensures Inv(Step(s, Set(k, value, junk, writeOk)).0)
    ensures Holds(Step(s, Set(k, value, junk, writeOk)).0, k, value)
  {
    StepRefines(s, Set(k, value, junk, writeOk));
  }

  // After a delete that succeeds, or finds nothing to delete, the key stays
  // unreadable until a set of it reaches the disk.
  lemma NoResurrection(n: nat, before: seq<Op>, k: U64, junk: Block, writeOk: bool, later: seq<Op>, size: nat)
    requires 0 < n < UINT32_MAX
    requires Step(Run(Fresh(n, []), before).0, Del(k, junk, writeOk)).1.reply.ret in {OK, ENOENT}
    requires NeverStored(Step(Run(Fresh(n, []), before).0, Del(k, junk, writeOk)).0, later, k)
    ensures var deleted := Step(Run(Fresh(n, []), before).0, Del(k, junk, writeOk)).0;
            GetStep(Run(deleted, later).0, k, size) == (ENOENT, [])
  {
    StoreIsAMap(n, before);
    DeleteDeletes(Run(Fresh(n, []), before).0, k, junk, writeOk);
    var deleted := Step(Run(Fresh(n, []), before).0, Del(k, junk, writeOk)).0;
    StaysDeleted(deleted, later, k);
    GetReads(Run(deleted, later).0, k, size);
  }

  // The value of a successful set is what every get returns until a newer
  // version of the key reaches the disk.
  lemma LatestSetWins(n: nat, before: seq<Op>, k: U64, value: seq<Byte>, junk: Block, writeOk: bool,
                      later: seq<Op>, size: nat)
    requires 0 < n < UINT32_MAX && |value| <= size
    requires Step(Run(Fresh(n, []), before).0, Set(k, value, junk, writeOk)).1.reply.ret == OK
    requires NeverWritten(Step(Run(Fresh(n, []), before).0, Set(k, value, junk, writeOk)).0, later, k)
    ensures var stored := Step(Run(Fresh(n, []), before).0, Set(k, value, junk, writeOk)).0;
            GetStep(Run(stored, later).0, k, size) == (OK, value)
  {
    StoreIsAMap(n, before);
    SetStores(Run(Fresh(n, []), before).0, k, value, junk, writeOk);
    var stored := Step(Run(Fresh(n, []), before).0, Set(k, value, junk, writeOk)).0;
    StaysStored(stored, later, k, value);
    GetReads(Run(stored, later).0, k, size);
  }

  // ----------------------------------------------------------------- capacity

  // The keys of the calls that reached the disk.
  function KeysWritten(ops: seq<Op>, outs: seq<Out>): set<U64>
    requires |ops| == |outs|
    decreases |ops|
  {
    if ops == [] then {} else
    (if outs[0].wrote != UINT32_MAX && !ops[0].Restart? then {ops[0].key} else {})
    + KeysWritten(ops[1..], outs[1..])
  }

  // The directory never forgets a key: it holds exactly those ever written.
  lemma {:induction false} DirectoryIsEverWritten(s: State, ops: seq<Op>)
    requires Inv(s)
    ensures var (t, outs) := Run(s, ops);
            |outs| == |ops| && Inv(t) && t.n == s.n && t.dir.Keys == s.dir.Keys + KeysWritten(ops, outs)
    decreases |ops|
  {
    if ops != [] {
      StepShape(s, ops[0]);
      DirectoryIsEverWritten(Step(s, ops[0]).0, ops[1..]);
      var outs := Run(s, ops).1;
      assert outs[1..] == Run(Step(s, ops[0]).0, ops[1..]).1;
    }
  }

  lemma OutOfSpace(s: State, op: Op)
    requires Inv(s)
    requires (op.Set? && AcceptsSet(op.value)) || (op.Del? && AcceptsDel(s, op.key))
    ensures Step(s, op).1.reply.ret == ENOSPC <==> |s.dir.Keys| == s.n
  {
    DestOk(s);
    assert |s.dir| == |s.dir.Keys|;
  }

  lemma EverWritten(n: nat, ops: seq<Op>)
    requires 0 < n < UINT32_MAX
    ensures var (s, outs) := Run(Fresh(n, []), ops);
            |outs| == |ops| && Inv(s) && s.n == n && s.dir.Keys == KeysWritten(ops, outs)
  {
    FreshInv(n);
    DirectoryIsEverWritten(Fresh(n, []), ops);
    assert Fresh(n, []).dir.Keys == {};
  }

  // A call that has to write runs out of space exactly when n distinct keys
  // have been written in the whole life of the store.
  lemma ExactCapacity(n: nat, ops: seq<Op>, op: Op)
    requires 0 < n < UINT32_MAX
    requires (op.Set? && AcceptsSet(op.value)) || (op.Del? && AcceptsDel(Run(Fresh(n, []), ops).0, op.key))
    ensures var (s, outs) := Run(Fresh(n, []), ops);
            && |outs| == |ops|
            && (Step(s, op).1.reply.ret == ENOSPC <==> |KeysWritten(ops, outs)| == n)
  {
    EverWritten(n, ops);
    OutOfSpace(Run(Fresh(n, []), ops).0, op);
  }

  // Once full, always full: nothing is written any more and every key keeps its value.
  lemma {:induction false} FullIsAbsorbing(s: State, ops: seq<Op>)
    requires Inv(s) && |s.dir| == s.n
    ensures var t := Run(s, ops).0; Inv(t) && t.disk == s.disk && t.dir == s.dir && t.bits == s.bits
    ensures Contents(Run(s, ops).0) == Contents(s)
    decreases |ops|
  {
    if ops != [] {
      DestOk(s);
      StepShape(s, ops[0]);
      var t := Step(s, ops[0]).0;
      assert Step(s, ops[0]).1.wrote == UINT32_MAX;
      FullIsAbsorbing(t, ops[1..]);
      ContentsOf(s, t);
    }
  }

  lemma {:induction false} RefNeverFull(n: nat, r: Reference, ops: seq<Op>, keys: set<U64>)
    requires r.ever <= keys && |keys| < n && r.contents.Keys <= keys
    requires forall op :: op in ops && (op.Set? || op.CrashInSet?) ==> op.key in keys
    ensures forall reply :: reply in RefRun(n, r, ops).1 && reply.Reply? ==> reply.ret != ENOSPC
    decreases |ops|
  {
    if ops != [] {
      SubsetSize(r.ever, keys);
      assert ops[0] in ops;
      RefNeverFull(n, RefStep(n, r, ops[0]).0, ops[1..], keys);
    }
  }

  // With fewer distinct keys than blocks no call of any run runs out of space.
  lemma NeverFull(n: nat, ops: seq<Op>, keys: set<U64>)
    requires 0 < n < UINT32_MAX && |keys| < n
    requires forall op :: op in ops && (op.Set? || op.CrashInSet?) ==> op.key in keys
    ensures forall out :: out in Run(Fresh(n, []), ops).1 && out.reply.Reply? ==> out.reply.ret != ENOSPC
  {
    StoreIsAMap(n, ops);
    RefNeverFull(n, Reference(map[], {}), ops, keys);
    var outs := Run(Fresh(n, []), ops).1;
    forall out | out in outs && out.reply.Reply? ensures out.reply.ret != ENOSPC {
      var i :| 0 <= i < |outs| && outs[i] == out;
      assert Replies(outs)[i] == out.reply;
    }
  }

  // A store of the program's size: 200000 distinct keys always fit, deleted or not.
  lemma RoomForAllKeys(ops: seq<Op>, keys: set<U64>)
    requires |keys| <= 200000
    requires forall op :: op in ops && (op.Set? || op.CrashInSet?) ==> op.key in keys
    ensures forall out :: out in Run(Fresh(200001, []), ops).1 && out.reply.Reply? ==> out.reply.ret != ENOSPC
  {
    NeverFull(200001, ops, keys);
  }

  // ------------------------------------------------------- sequence discipline

  datatype Record = Record(block: nat, sequence: nat)

  // Every block written in a run, in order, with the sequence number it got.
  function WriteLog(s: State, ops: seq<Op>): seq<Record>
    decreases |ops|
  {
    if ops == [] then [] else
    var (t, out) := Step(s, ops[0]);
    Recorded(t, out.wrote) + WriteLog(t, ops[1..])
  }

  function Recorded(t: State, wrote: nat): seq<Record> {
    if wrote != UINT32_MAX && wrote < |t.disk| then [Record(wrote, t.disk[wrote].sequence)] else []
  }

  // Sequence numbers above everything on the disk the run began with, and growing.
  ghost predicate LogGrows(before: seq<Block>, log: seq<Record>) {
    && (forall i :: 0 <= i < |log| ==> Below(before, log[i].sequence))
    && (forall i, j :: 0 <= i < j < |log| ==> log[i].sequence < log[j].sequence)
  }

  // The last record is the head of the disk the run ended with.
  ghost predicate LogEnds(before: seq<Block>, log: seq<Record>, after: seq<Block>) {
    if log == [] then after == before else
    var last := log[|log| - 1];
    last.block < |after| && Head(after) == last.block && after[last.block].sequence == last.sequence
  }

  lemma BoundsGrow(before: seq<Block>, after: seq<Block>, d: nat, bound: nat)
    requires d <= |before| && d < |after| && after == WriteAt(before, d, after[d])
    requires Signed(after[d]) && Below(before, after[d].sequence) && Below(after, bound)
    ensures after[d].sequence < bound && Below(before, bound)
  {
  }

  lemma LogGrowsLonger(before: seq<Block>, mid: seq<Block>, d: nat, rest: seq<Record>)
    requires d <= |before| && d < |mid| && mid == WriteAt(before, d, mid[d])
    requires Signed(mid[d]) && Below(before, mid[d].sequence)
    requires LogGrows(mid, rest)
    ensures LogGrows(before, [Record(d, mid[d].sequence)] + rest)
  {
    var log := [Record(d, mid[d].sequence)] + rest;
    forall i | 0 < i < |log| ensures log[0].sequence < log[i].sequence && Below(before, log[i].sequence) {
      assert log[i] == rest[i - 1];
      BoundsGrow(before, mid, d, log[i].sequence);
    }
    forall i, j | 0 <= i < j < |log| ensures log[i].sequence < log[j].sequence {
      assert log[j] == rest[j - 1];
      assert i > 0 ==> log[i] == rest[i - 1];
    }
  }

  lemma LogEndsLonger(before: seq<Block>, mid: seq<Block>, d: nat, rest: seq<Record>, after: seq<Block>)
    requires d < |mid| && Head(mid) == d && LogEnds(mid, rest, after)
    ensures LogEnds(before, [Record(d, mid[d].sequence)] + rest, after)
  {
    if rest != [] {
      assert ([Record(d, mid[d].sequence)] + rest)[|rest|] == rest[|rest| - 1];
    }
  }

  lemma ShapeGrows(s: State, op: Op, t: State, d: nat, rest: seq<Record>, after: seq<Block>)
    requires Shape(s, op, t, d) && LogGrows(t.disk, rest) && LogEnds(t.disk, rest, after)
    ensures LogGrows(s.disk, Recorded(t, d) + rest) && LogEnds(s.disk, Recorded(t, d) + rest, after)
  {
    if d != UINT32_MAX {
      LogGrowsLonger(s.disk, t.disk, d, rest);
      LogEndsLonger(s.disk, t.disk, d, rest, after);
    } else {
      assert [] + rest == rest;
    }
  }

  // Sequence numbers are never used twice and only grow, across restarts and
  // crashes; and the greatest ever written is still on disk, in the block
  // written last.
  lemma {:induction false} SequencesOnlyGrow(s: State, ops: seq<Op>)
    requires Inv(s)
    ensures Inv(Run(s, ops).0) && LogGrows(s.disk, WriteLog(s, ops))
    ensures LogEnds(s.disk, WriteLog(s, ops), Run(s, ops).0.disk)
    decreases |ops|
  {
    if ops != [] {
      StepShape(s, ops[0]);
      var (t, out) := Step(s, ops[0]);
      SequencesOnlyGrow(t, ops[1..]);
      ShapeGrows(s, ops[0], t, out.wrote, WriteLog(t, ops[1..]), Run(s, ops).0.disk);
    }
  }

  lemma AppendCounter(s: State, k: U64, value: Blob, junk: Block, writeOk: bool)
    requires Inv(s)
    ensures var t := Append(s, k, value, junk, writeOk).0;
            && t.counter == s.counter + 1
            && Inv(t) && Reopen(t.n, t.disk).counter <= s.counter + 2
  {
    AppendInv(s, k, value, junk, writeOk);
    ReopenCounter(Append(s, k, value, junk, writeOk).0);
  }

  lemma ReopenCounter(s: State)
    requires Inv(s)
    ensures Reopen(s.n, s.disk).counter <= s.counter + 1
  {
    ReopenInv(s.n, s.disk);
  }

  lemma CrashCounter(s: State, k: U64, value: Blob, junk: Block, writeOk: bool, steps: nat)
    requires Inv(s)
    ensures CrashIn(s, k, value, junk, writeOk, steps).0.counter <= s.counter + 2
  {
    ReopenCounter(s);
    AppendCounter(s, k, value, junk, writeOk);
    CrashAtomicity(s, k, value, junk, writeOk, steps);
  }

  lemma StepCounter(s: State, op: Op)
    requires Inv(s)
    ensures Step(s, op).0.counter <= s.counter + 2
  {
    if op.CrashInSet? && AcceptsSet(op.value) {
      CrashCounter(s, op.key, op.value, op.junk, op.writeOk, op.steps);
    } else if op.CrashInDel? && AcceptsDel(s, op.key) {
      CrashCounter(s, op.key, [], op.junk, op.writeOk, op.steps);
    } else {
      ReopenCounter(s);
    }
  }

  // An operation, restart or crash moves the counter by at most two, so no
  // run of fewer than 2^63 operations reaches the last 64-bit value.
  lemma {:induction false} CounterBound(s: State, ops: seq<Op>)
    requires Inv(s)
    ensures Inv(Run(s, ops).0) && Run(s, ops).0.counter <= s.counter + 2 * |ops|
    decreases |ops|
  {
    if ops != [] {
      StepShape(s, ops[0]);
      StepCounter(s, ops[0]);
      CounterBound(Step(s, ops[0]).0, ops[1..]);
    }
  }

  // --------------------------------------------------------- round-robin reuse

  // The write made by `op` in state s either goes to block c, or its search,
  // starting at the block written last, passes c because c is allocated.
  ghost predicate Passes(s: State, op: Op, c: nat) {
    var d := Step(s, op).1.wrote;
    && d != UINT32_MAX
    && (d == c || (c in s.bits && Dist(s.n, Head(s.disk), c) < Dist(s.n, Head(s.disk), d)))
  }

  ghost predicate PassedDuring(s: State, ops: seq<Op>, c: nat)
    decreases |ops|
  {
    ops != [] && (Passes(s, ops[0], c) || PassedDuring(Step(s, ops[0]).0, ops[1..], c))
  }

  // A write that does not pass c ends strictly closer to c than it began.
  lemma NotPassingApproaches(n: nat, bits: set<nat>, h: nat, d: nat, c: nat)
    requires 0 < n < UINT32_MAX && h < n && h in bits && c < n && c != h
    requires d == NextFree(n, bits, h) && d < n && d != c
    requires c in bits ==> Dist(n, h, d) <= Dist(n, h, c)
    ensures 0 < Dist(n, d, c) < Dist(n, h, c)
    ensures forall b: nat :: b < n && Dist(n, b, h) < Dist(n, b, c) ==>
              Dist(n, b, h) < Dist(n, b, d) < Dist(n, b, c)
  {
  }

  // The block written last always belongs to its key.
  lemma HeadAllocated(s: State)
    requires Inv(s) && s.disk != [] && Signed(s.disk[Head(s.disk)])
    ensures Head(s.disk) in s.bits
  {
    EntryAllocated(s, s.disk[Head(s.disk)].key);
  }

  // The last operation of the run writes to block b.
  ghost predicate EndsAt(s: State, ops: seq<Op>, b: nat)
    decreases |ops|
  {
    ops != [] &&
    if |ops| == 1 then Step(s, ops[0]).1.wrote == b else EndsAt(Step(s, ops[0]).0, ops[1..], b)
  }

  // As long as c has not been passed, the head of the log stays on the way from b to c.
  ghost predicate Between(s: State, b: nat, c: nat) {
    && Inv(s) && s.disk != [] && Signed(s.disk[Head(s.disk)])
    && b < s.n && c < s.n && c != b && c != Head(s.disk)
    && Dist(s.n, b, Head(s.disk)) < Dist(s.n, b, c)
  }

  lemma {:induction false} OnTheWay(s: State, ops: seq<Op>, b: nat, c: nat)
    requires Between(s, b, c) && EndsAt(s, ops, b)
    ensures PassedDuring(s, ops, c)
    decreases |ops|
  {
    if !Passes(s, ops[0], c) {
      RoundRobinStep(s, ops[0], b, c);
      OnTheWay(Step(s, ops[0]).0, ops[1..], b, c);
    }
  }

  // Round-robin reuse: between two writes to the same block b, every other
  // block is either written, or allocated at a moment when the cursor goes
  // over it. `first` makes one write, the last of `ops` the other.
  lemma RoundRobin(s: State, first: Op, ops: seq<Op>, b: nat, c: nat)
    requires Inv(s) && c < s.n && c != b && b != UINT32_MAX
    requires Step(s, first).1.wrote == b
    requires EndsAt(Step(s, first).0, ops, b)
    ensures PassedDuring(Step(s, first).0, ops, c)
  {
    StepShape(s, first);
    OnTheWay(Step(s, first).0, ops, b, c);
  }

  lemma RoundRobinStep(s: State, op: Op, b: nat, c: nat)
    requires Between(s, b, c) && !Passes(s, op, c)
    ensures Between(Step(s, op).0, b, c) && Step(s, op).1.wrote != b
  {
    StepShape(s, op);
    HeadAllocated(s);
    ShapeApproaches(s, op, Step(s, op).0, Step(s, op).1.wrote, b, c);
  }

  lemma ShapeApproaches(s: State, op: Op, t: State, d: nat, b: nat, c: nat)
    requires Between(s, b, c) && Head(s.disk) in s.bits && Shape(s, op, t, d)
    requires d != UINT32_MAX ==>
               d != c && (c in s.bits ==> Dist(s.n, Head(s.disk), d) <= Dist(s.n, Head(s.disk), c))
    ensures Between(t, b, c) && d != b
  {
    if d != UINT32_MAX {
      NotPassingApproaches(s.n, s.bits, Head(s.disk), d, c);
    }
  }
}
