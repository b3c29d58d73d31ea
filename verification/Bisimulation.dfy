/**
 Stores that nobody can tell apart: the same blocks up to an order-preserving
 relabelling of sequence numbers, and the same place for the next write.
 Reopening, crashing before the write and failing all stay inside this relation.
 */
module Bisimulation {
  import opened Types
  import opened StoreModel
  import opened LogFacts
  import opened StoreInvariant
  import opened Replay
  import opened Crash
  import opened Runs

  ghost predicate Alike(b: Block, c: Block) {
    b.(sequence := 0) == c.(sequence := 0)
  }

  ghost predicate SameOrder(a: seq<Block>, b: seq<Block>, i: nat, j: nat)
    requires i < |a| == |b| && j < |a|
  {
    Signed(a[i]) && Signed(a[j]) ==> (a[i].sequence < a[j].sequence <==> b[i].sequence < b[j].sequence)
  }

  ghost predicate DiskAlike(a: seq<Block>, b: seq<Block>) {
    && |a| == |b|
    && (forall i {:trigger Alike(a[i], b[i])} :: 0 <= i < |a| ==> Alike(a[i], b[i]))
    && (forall i: nat, j: nat {:trigger SameOrder(a, b, i, j)} :: i < |a| && j < |a| ==> SameOrder(a, b, i, j))
  }

  ghost predicate EntryAlike(a: Dir, b: Dir, k: U64)
    requires k in a && k in b
  {
    a[k].block == b[k].block && a[k].bytes == b[k].bytes
  }

  ghost predicate DirAlike(a: Dir, b: Dir) {
    && a.Keys == b.Keys
    && forall k {:trigger EntryAlike(a, b, k)} :: k in a ==> EntryAlike(a, b, k)
  }

  ghost predicate Similar(s: State, t: State) {
    && Inv(s) && Inv(t)
    && s.n == t.n
    && DiskAlike(s.disk, t.disk)
    && DirAlike(s.dir, t.dir)
    && s.bits == t.bits
    && Dest(s) == Dest(t)
  }

  lemma SimilarReflexive(s: State)
    requires Inv(s)
    ensures Similar(s, s)
  {
  }

  lemma SimilarSymmetric(s: State, t: State)
    requires Similar(s, t)
    ensures Similar(t, s)
  {
    DiskAlikeSymmetric(s.disk, t.disk);
    forall k | k in t.dir ensures EntryAlike(t.dir, s.dir, k) {
      assert EntryAlike(s.dir, t.dir, k);
    }
  }

  lemma DiskAlikeSymmetric(a: seq<Block>, b: seq<Block>)
    requires DiskAlike(a, b)
    ensures DiskAlike(b, a)
  {
    forall i | 0 <= i < |b| ensures Alike(b[i], a[i]) {
      assert Alike(a[i], b[i]);
    }
    forall i: nat, j: nat | i < |b| && j < |b| ensures SameOrder(b, a, i, j) {
      assert SameOrder(a, b, i, j) && Alike(a[i], b[i]) && Alike(a[j], b[j]);
    }
  }

  lemma SimilarTransitive(s: State, t: State, u: State)
    requires Similar(s, t) && Similar(t, u)
    ensures Similar(s, u)
  {
    DiskAlikeTransitive(s.disk, t.disk, u.disk);
    forall k | k in s.dir ensures EntryAlike(s.dir, u.dir, k) {
      assert EntryAlike(s.dir, t.dir, k) && EntryAlike(t.dir, u.dir, k);
    }
  }

  lemma DiskAlikeTransitive(a: seq<Block>, b: seq<Block>, c: seq<Block>)
    requires DiskAlike(a, b) && DiskAlike(b, c)
    ensures DiskAlike(a, c)
  {
    forall i | 0 <= i < |a| ensures Alike(a[i], c[i]) {
      assert Alike(a[i], b[i]) && Alike(b[i], c[i]);
    }
    forall i: nat, j: nat | i < |a| && j < |a| ensures SameOrder(a, c, i, j) {
      assert SameOrder(a, b, i, j) && SameOrder(b, c, i, j) && Alike(a[i], b[i]) && Alike(a[j], b[j]);
    }
  }

  // ------------------------------------------------------ what stays inside

  // Losing the memory and replaying the file.
  lemma ReopenSimilar(s: State)
    requires Inv(s)
    ensures Similar(s, Reopen(s.n, s.disk))
  {
    ReopenMatches(s);
  }

  ghost predicate Unharmed(s: State, t: State) {
    Similar(s, t) && t.disk == s.disk && t.dir == s.dir && t.bits == s.bits
  }

  // A write that fails, for lack of space or because the disk refuses it.
  lemma FailureSimilar(s: State, k: U64, value: Blob, junk: Block, writeOk: bool)
    requires Inv(s) && Append(s, k, value, junk, writeOk).1 != OK
    ensures Unharmed(s, Append(s, k, value, junk, writeOk).0)
  {
    AppendFailedInv(s, k, value, junk, writeOk);
  }

  // ------------------------------------------------------------- one step

  lemma WriteAlike(a: seq<Block>, b: seq<Block>, d: nat, x: Block, y: Block)
    requires DiskAlike(a, b) && d <= |a| && Alike(x, y)
    requires Signed(x) && Signed(y) && Below(a, x.sequence) && Below(b, y.sequence)
    ensures DiskAlike(WriteAt(a, d, x), WriteAt(b, d, y))
  {
    var a', b' := WriteAt(a, d, x), WriteAt(b, d, y);
    forall i | 0 <= i < |a'| ensures Alike(a'[i], b'[i]) {
      assert i != d ==> Alike(a[i], b[i]);
    }
    forall i: nat, j: nat | i < |a'| && j < |a'| ensures SameOrder(a', b', i, j) {
      assert i != d ==> a'[i] == a[i] && b'[i] == b[i] && Alike(a[i], b[i]);
      assert j != d ==> a'[j] == a[j] && b'[j] == b[j] && Alike(a[j], b[j]);
      assert i != d && j != d ==> SameOrder(a, b, i, j);
    }
  }

  lemma AppendSimilar(s: State, t: State, k: U64, value: Blob, junk: Block, writeOk: bool)
    requires Similar(s, t)
    ensures var (s', one) := Append(s, k, value, junk, writeOk);
            var (t', two) := Append(t, k, value, junk, writeOk);
            one == two && Similar(s', t')
  {
    if Append(s, k, value, junk, writeOk).1 == OK {
      AppendOkSimilar(s, t, k, value, junk, writeOk);
    } else {
      var s', t' := Append(s, k, value, junk, writeOk).0, Append(t, k, value, junk, writeOk).0;
      FailureSimilar(s, k, value, junk, writeOk);
      FailureSimilar(t, k, value, junk, writeOk);
      SimilarSymmetric(s, s');
      SimilarTransitive(s', s, t);
      SimilarTransitive(s', t, t');
    }
  }

  lemma AppendOkSimilar(s: State, t: State, k: U64, value: Blob, junk: Block, writeOk: bool)
    requires Similar(s, t) && Append(s, k, value, junk, writeOk).1 == OK
    ensures Append(t, k, value, junk, writeOk).1 == OK
    ensures Similar(Append(s, k, value, junk, writeOk).0, Append(t, k, value, junk, writeOk).0)
  {
    var s', t' := Append(s, k, value, junk, writeOk).0, Append(t, k, value, junk, writeOk).0;
    AppendEffect(s, k, value, junk, writeOk);
    AppendEffect(t, k, value, junk, writeOk);
    AppendIsHead(s, k, value, junk, writeOk);
    AppendIsHead(t, k, value, junk, writeOk);
    WriteAlike(s.disk, t.disk, Dest(s), NewBlock(k, value, s'.counter, junk), NewBlock(k, value, t'.counter, junk));
    DirWriteAlike(s.dir, t.dir, k, s'.dir[k], t'.dir[k]);
    AppendInv(s, k, value, junk, writeOk);
    AppendInv(t, k, value, junk, writeOk);
  }

  lemma DirWriteAlike(a: Dir, b: Dir, k: U64, e: Entry, f: Entry)
    requires DirAlike(a, b) && e.block == f.block && e.bytes == f.bytes
    ensures DirAlike(a[k := e], b[k := f])
    ensures DirBlocks(a[k := e]) == DirBlocks(b[k := f])
  {
    var a', b' := a[k := e], b[k := f];
    forall k' | k' in a' ensures EntryAlike(a', b', k') {
      assert k' != k ==> EntryAlike(a, b, k');
    }
    forall x | x in DirBlocks(a') ensures x in DirBlocks(b') {
      var k' :| k' in a' && a'[k'].block == x;
      assert EntryAlike(a', b', k');
    }
    forall x | x in DirBlocks(b') ensures x in DirBlocks(a') {
      var k' :| k' in b' && b'[k'].block == x;
      assert EntryAlike(a', b', k');
    }
  }

  lemma GetSimilar(s: State, t: State, k: U64, size: nat)
    requires Similar(s, t)
    ensures GetStep(s, k, size) == GetStep(t, k, size)
    ensures AcceptsDel(s, k) == AcceptsDel(t, k)
  {
    if k in s.dir {
      assert EntryOk(s.disk, k, s.dir[k]) && EntryAlike(s.dir, t.dir, k);
      assert Alike(s.disk[s.dir[k].block], t.disk[s.dir[k].block]);
    }
  }

  lemma RestartSimilar(s: State, t: State)
    requires Similar(s, t)
    ensures Similar(Reopen(s.n, s.disk), Reopen(t.n, t.disk))
  {
    ReopenSimilar(s);
    ReopenSimilar(t);
    SimilarSymmetric(s, Reopen(s.n, s.disk));
    SimilarTransitive(Reopen(s.n, s.disk), s, t);
    SimilarTransitive(Reopen(s.n, s.disk), t, Reopen(t.n, t.disk));
  }

  lemma CrashSimilar(s: State, t: State, k: U64, value: Blob, junk: Block, writeOk: bool, steps: nat)
    requires Similar(s, t)
    ensures var (s', one) := CrashIn(s, k, value, junk, writeOk, steps);
            var (t', two) := CrashIn(t, k, value, junk, writeOk, steps);
            one == two && Similar(s', t')
  {
    DiskAfterSteps(s, k, value, junk, writeOk, steps);
    DiskAfterSteps(t, k, value, junk, writeOk, steps);
    AppendSimilar(s, t, k, value, junk, writeOk);
    if Append(s, k, value, junk, writeOk).1 == OK && steps >= 3 {
      RestartSimilar(Append(s, k, value, junk, writeOk).0, Append(t, k, value, junk, writeOk).0);
    } else {
      RestartSimilar(s, t);
    }
  }

  lemma StepSimilar(s: State, t: State, op: Op)
    requires Similar(s, t)
    ensures Step(s, op).1 == Step(t, op).1
    ensures Similar(Step(s, op).0, Step(t, op).0)
  {
    if op.Set? || op.Del? || op.Get? {
      CallSimilar(s, t, op);
    } else {
      LossSimilar(s, t, op);
    }
  }

  lemma CallSimilar(s: State, t: State, op: Op)
    requires Similar(s, t) && (op.Set? || op.Del? || op.Get?)
    ensures Step(s, op).1 == Step(t, op).1
    ensures Similar(Step(s, op).0, Step(t, op).0)
  {
    if op.Get? {
      GetSimilar(s, t, op.key, op.size);
    } else if op.Set? {
      SetSimilar(s, t, op.key, op.value, op.junk, op.writeOk);
    } else {
      DelSimilar(s, t, op.key, op.junk, op.writeOk);
    }
  }

  lemma SetSimilar(s: State, t: State, k: U64, value: seq<Byte>, junk: Block, writeOk: bool)
    requires Similar(s, t)
    ensures SetStep(s, k, value, junk, writeOk).1 == SetStep(t, k, value, junk, writeOk).1
    ensures Similar(SetStep(s, k, value, junk, writeOk).0, SetStep(t, k, value, junk, writeOk).0)
  {
    if AcceptsSet(value) {
      AppendSimilar(s, t, k, value, junk, writeOk);
    }
  }

  lemma DelSimilar(s: State, t: State, k: U64, junk: Block, writeOk: bool)
    requires Similar(s, t)
    ensures DelStep(s, k, junk, writeOk).1 == DelStep(t, k, junk, writeOk).1
    ensures Similar(DelStep(s, k, junk, writeOk).0, DelStep(t, k, junk, writeOk).0)
  {
    GetSimilar(s, t, k, 0);
    if AcceptsDel(s, k) {
      AppendSimilar(s, t, k, [], junk, writeOk);
    }
  }

  lemma LossSimilar(s: State, t: State, op: Op)
    requires Similar(s, t) && !(op.Set? || op.Del? || op.Get?)
    ensures Step(s, op).1 == Step(t, op).1
    ensures Similar(Step(s, op).0, Step(t, op).0)
  {
    if op.CrashInSet? && AcceptsSet(op.value) {
      CrashSimilar(s, t, op.key, op.value, op.junk, op.writeOk, op.steps);
    } else if op.CrashInDel? {
      GetSimilar(s, t, op.key, 0);
      if AcceptsDel(s, op.key) {
        CrashSimilar(s, t, op.key, [], op.junk, op.writeOk, op.steps);
      } else {
        RestartSimilar(s, t);
      }
    } else {
      RestartSimilar(s, t);
    }
  }

  // ------------------------------------------------------------ whole runs

  // Indistinguishable stores give the same replies and write the same blocks for ever.
  lemma {:induction false} RunSimilar(s: State, t: State, ops: seq<Op>)
    requires Similar(s, t)
    ensures Run(s, ops).1 == Run(t, ops).1
    ensures Similar(Run(s, ops).0, Run(t, ops).0)
    decreases |ops|
  {
    if ops != [] {
      StepSimilar(s, t, ops[0]);
      RunSimilar(Step(s, ops[0]).0, Step(t, ops[0]).0, ops[1..]);
    }
  }

  // The operations and the outputs of a run with every close/reopen taken out.
  function WithoutRestarts(ops: seq<Op>): seq<Op>
    decreases |ops|
  {
    if ops == [] then [] else
    (if ops[0].Restart? then [] else [ops[0]]) + WithoutRestarts(ops[1..])
  }

  function OutsWithoutRestarts(ops: seq<Op>, outs: seq<Out>): seq<Out>
    requires |ops| == |outs|
    decreases |ops|
  {
    if ops == [] then [] else
    (if ops[0].Restart? then [] else [outs[0]]) + OutsWithoutRestarts(ops[1..], outs[1..])
  }

  lemma RestartInvisible(s: State, t: State)
    requires Similar(s, t)
    ensures Similar(Reopen(s.n, s.disk), t)
  {
    ReopenSimilar(s);
    SimilarSymmetric(s, Reopen(s.n, s.disk));
    SimilarTransitive(Reopen(s.n, s.disk), s, t);
  }

  // Transparent reopen: a run with any number of restarts anywhere in it gives
  // the same replies and chooses the same blocks as the run without them.
  lemma {:induction false} TransparentReopen(s: State, t: State, ops: seq<Op>)
    requires Similar(s, t)
    ensures |Run(s, ops).1| == |ops|
    ensures OutsWithoutRestarts(ops, Run(s, ops).1) == Run(t, WithoutRestarts(ops)).1
    ensures Similar(Run(s, ops).0, Run(t, WithoutRestarts(ops)).0)
    decreases |ops|
  {
    if ops != [] {
      var op, rest := ops[0], ops[1..];
      var s' := Step(s, op).0;
      if op.Restart? {
        RestartInvisible(s, t);
        TransparentReopen(s', t, rest);
        SkippedRestart(s, ops, t);
      } else {
        StepSimilar(s, t, op);
        TransparentReopen(s', Step(t, op).0, rest);
        KeptCall(s, ops, t);
      }
    }
  }

  // ------------------------------------------------- crashes in whole runs

  // The call that a crash has interrupted, made without the crash.
  function Completed(op: Op): Op
    requires op.CrashInSet? || op.CrashInDel?
  {
    if op.CrashInSet? then Set(op.key, op.value, op.junk, op.writeOk) else Del(op.key, op.junk, op.writeOk)
  }

  predicate Loses(op: Op) {
    op.Restart? || op.CrashInSet? || op.CrashInDel?
  }

  // What is left of an operation when restarts are taken out, and of a crash
  // the whole call if it wrote its block and nothing if it did not.
  function Settled(op: Op, out: Out): seq<Op> {
    if !Loses(op) then [op]
    else if op.Restart? || out.wrote == UINT32_MAX then []
    else [Completed(op)]
  }

  function SettledOut(op: Op, out: Out): seq<Out> {
    if !Loses(op) then [out]
    else if op.Restart? || out.wrote == UINT32_MAX then []
    else [Out(Reply(OK, []), out.wrote)]
  }

  function WithoutLosses(ops: seq<Op>, outs: seq<Out>): seq<Op>
    requires |ops| == |outs|
    decreases |ops|
  {
    if ops == [] then [] else Settled(ops[0], outs[0]) + WithoutLosses(ops[1..], outs[1..])
  }

  function OutsWithoutLosses(ops: seq<Op>, outs: seq<Out>): seq<Out>
    requires |ops| == |outs|
    decreases |ops|
  {
    if ops == [] then [] else SettledOut(ops[0], outs[0]) + OutsWithoutLosses(ops[1..], outs[1..])
  }

  // A crash leaves a store like the one before the call, or after all of it.
  lemma CrashInSimilar(s: State, k: U64, value: Blob, junk: Block, writeOk: bool, steps: nat)
    requires Inv(s)
    ensures var (t, out) := CrashIn(s, k, value, junk, writeOk, steps);
            var (whole, ret) := Append(s, k, value, junk, writeOk);
            if out.wrote == UINT32_MAX then Similar(t, s)
            else ret == OK && out.wrote == Dest(s) && Similar(t, whole)
  {
    DiskAfterSteps(s, k, value, junk, writeOk, steps);
    DestOk(s);
    AppendInv(s, k, value, junk, writeOk);
    ReopenBack(s);
    ReopenBack(Append(s, k, value, junk, writeOk).0);
  }

  lemma ReopenBack(s: State)
    requires Inv(s)
    ensures Similar(Reopen(s.n, s.disk), s)
  {
    ReopenSimilar(s);
    SimilarSymmetric(s, Reopen(s.n, s.disk));
  }

  // The interrupted call, made instead of the crash, has the same effect.
  ghost predicate SettledAs(s: State, op: Op, t: State, out: Out)
    requires Loses(op)
  {
    if Settled(op, out) == [] then Similar(t, s)
    else Step(s, Completed(op)).1 == Out(Reply(OK, []), out.wrote) && Similar(t, Step(s, Completed(op)).0)
  }

  lemma LossSettled(s: State, op: Op)
    requires Inv(s) && Loses(op)
    ensures SettledAs(s, op, Step(s, op).0, Step(s, op).1)
  {
    if op.CrashInSet? {
      CrashInSetSettled(s, op);
    } else if op.CrashInDel? {
      CrashInDelSettled(s, op);
    } else {
      ReopenBack(s);
    }
  }

  lemma CrashInSetSettled(s: State, op: Op)
    requires Inv(s) && op.CrashInSet?
    ensures SettledAs(s, op, Step(s, op).0, Step(s, op).1)
  {
    if AcceptsSet(op.value) {
      CrashInSimilar(s, op.key, op.value, op.junk, op.writeOk, op.steps);
    } else {
      ReopenBack(s);
    }
  }

  lemma CrashInDelSettled(s: State, op: Op)
    requires Inv(s) && op.CrashInDel?
    ensures SettledAs(s, op, Step(s, op).0, Step(s, op).1)
  {
    if AcceptsDel(s, op.key) {
      CrashInSimilar(s, op.key, [], op.junk, op.writeOk, op.steps);
      AcceptedDel(s, op.key, op.junk, op.writeOk);
    } else {
      ReopenBack(s);
    }
  }

  lemma AcceptedDel(s: State, k: U64, junk: Block, writeOk: bool)
    requires AcceptsDel(s, k)
    ensures Step(s, Del(k, junk, writeOk)) == Finish(s, Append(s, k, [], junk, writeOk))
  {
  }

  lemma StepSettled(s: State, t: State, op: Op)
    requires Similar(s, t)
    ensures var (s', out) := Step(s, op);
            var (t', outs) := Run(t, Settled(op, out));
            outs == SettledOut(op, out) && Similar(s', t')
  {
    var (s', out) := Step(s, op);
    RunOfOne(t, op);
    if !Loses(op) {
      StepSimilar(s, t, op);
    } else {
      LossSettled(s, op);
      if Settled(op, out) == [] {
        SimilarTransitive(s', s, t);
      } else {
        StepSimilar(s, t, Completed(op));
        RunOfOne(t, Completed(op));
        SimilarTransitive(s', Step(s, Completed(op)).0, Step(t, Completed(op)).0);
      }
    }
  }

  lemma RunOfOne(s: State, op: Op)
    ensures Run(s, [op]) == (Step(s, op).0, [Step(s, op).1])
  {
    var t, out := Step(s, op).0, Step(s, op).1;
    assert [op][1..] == [];
    assert Run(t, [op][1..]) == (t, []);
    assert [out] + [] == [out];
  }

  lemma {:induction false} RunOfBoth(s: State, one: seq<Op>, two: seq<Op>)
    ensures var (t, outs) := Run(s, one);
            Run(s, one + two) == (Run(t, two).0, outs + Run(t, two).1)
    decreases |one|
  {
    if one == [] {
      assert one + two == two;
      assert [] + Run(s, two).1 == Run(s, two).1;
    } else {
      var (s1, out) := Step(s, one[0]);
      RunOfBoth(s1, one[1..], two);
      assert (one + two)[0] == one[0] && (one + two)[1..] == one[1..] + two;
      var (t, outs) := Run(s1, one[1..]);
      assert ([out] + outs) + Run(t, two).1 == [out] + (outs + Run(t, two).1);
    }
  }

  // Crashes are calls or nothing: a run with restarts and crashes anywhere
  // gives the same replies and chooses the same blocks as the run in which
  // every restart is left out, and every crashed call is either made in full
  // or left out.
  lemma {:induction false} TransparentCrashes(s: State, t: State, ops: seq<Op>)
    requires Similar(s, t)
    ensures var (s', outs) := Run(s, ops);
            && |outs| == |ops|
            && Run(t, WithoutLosses(ops, outs)).1 == OutsWithoutLosses(ops, outs)
            && Similar(s', Run(t, WithoutLosses(ops, outs)).0)
    decreases |ops|
  {
    if ops != [] {
      var (s1, out) := Step(s, ops[0]);
      StepSettled(s, t, ops[0]);
      var t1 := Run(t, Settled(ops[0], out)).0;
      TransparentCrashes(s1, t1, ops[1..]);
      var outs := Run(s1, ops[1..]).1;
      RunOfBoth(t, Settled(ops[0], out), WithoutLosses(ops[1..], outs));
      UnfoldLosses(ops, out, outs);
    }
  }

  // For a created store.
  lemma CrashesAreCallsOrNothing(n: nat, ops: seq<Op>)
    requires 0 < n < UINT32_MAX
    ensures var outs := Run(Fresh(n, []), ops).1;
            && |outs| == |ops|
            && Run(Fresh(n, []), WithoutLosses(ops, outs)).1 == OutsWithoutLosses(ops, outs)
  {
    FreshInv(n);
    SimilarReflexive(Fresh(n, []));
    TransparentCrashes(Fresh(n, []), Fresh(n, []), ops);
  }

  lemma UnfoldLosses(ops: seq<Op>, out: Out, outs: seq<Out>)
    requires |ops| == |outs| + 1
    ensures WithoutLosses(ops, [out] + outs) == Settled(ops[0], out) + WithoutLosses(ops[1..], outs)
    ensures OutsWithoutLosses(ops, [out] + outs) == SettledOut(ops[0], out) + OutsWithoutLosses(ops[1..], outs)
  {
    assert ([out] + outs)[1..] == outs;
  }

  // For a created store: closing and opening again is never noticed.
  lemma RestartsAreInvisible(n: nat, ops: seq<Op>)
    requires 0 < n < UINT32_MAX
    ensures |Run(Fresh(n, []), ops).1| == |ops|
    ensures OutsWithoutRestarts(ops, Run(Fresh(n, []), ops).1) == Run(Fresh(n, []), WithoutRestarts(ops)).1
  {
    FreshInv(n);
    SimilarReflexive(Fresh(n, []));
    TransparentReopen(Fresh(n, []), Fresh(n, []), ops);
  }

  lemma SkippedRestart(s: State, ops: seq<Op>, t: State)
    requires ops != [] && ops[0].Restart?
    requires |Run(Step(s, ops[0]).0, ops[1..]).1| == |ops[1..]|
    ensures |Run(s, ops).1| == |ops|
    ensures Run(s, ops).0 == Run(Step(s, ops[0]).0, ops[1..]).0
    ensures WithoutRestarts(ops) == WithoutRestarts(ops[1..])
    ensures OutsWithoutRestarts(ops, Run(s, ops).1) ==
            OutsWithoutRestarts(ops[1..], Run(Step(s, ops[0]).0, ops[1..]).1)
  {
  }

  lemma KeptCall(s: State, ops: seq<Op>, t: State)
    requires ops != [] && !ops[0].Restart?
    requires |Run(Step(s, ops[0]).0, ops[1..]).1| == |ops[1..]|
    ensures |Run(s, ops).1| == |ops|
    ensures Run(s, ops).0 == Run(Step(s, ops[0]).0, ops[1..]).0
    ensures Run(t, WithoutRestarts(ops)).0 == Run(Step(t, ops[0]).0, WithoutRestarts(ops[1..])).0
    ensures Run(t, WithoutRestarts(ops)).1 ==
            [Step(t, ops[0]).1] + Run(Step(t, ops[0]).0, WithoutRestarts(ops[1..])).1
    ensures OutsWithoutRestarts(ops, Run(s, ops).1) ==
            [Step(s, ops[0]).1] + OutsWithoutRestarts(ops[1..], Run(Step(s, ops[0]).0, ops[1..]).1)
  {
  }

  lemma FailedSet(s: State, k: U64, value: seq<Byte>, junk: Block, writeOk: bool)
    requires Inv(s) && SetStep(s, k, value, junk, writeOk).1 != OK
    ensures Unharmed(s, SetStep(s, k, value, junk, writeOk).0)
  {
    SimilarReflexive(s);
    if AcceptsSet(value) {
      FailureSimilar(s, k, value, junk, writeOk);
    }
  }

  lemma FailedDel(s: State, k: U64, junk: Block, writeOk: bool)
    requires Inv(s) && DelStep(s, k, junk, writeOk).1 != OK
    ensures Unharmed(s, DelStep(s, k, junk, writeOk).0)
  {
    SimilarReflexive(s);
    if AcceptsDel(s, k) {
      FailureSimilar(s, k, [], junk, writeOk);
    }
  }

  lemma FailedCall(s: State, op: Op)
    requires Inv(s) && (op.Set? || op.Del?)
    requires Step(s, op).1.reply.ret != OK
    ensures Unharmed(s, Step(s, op).0)
  {
    match op
    case Set(k, value, junk, writeOk) => FailedSet(s, k, value, junk, writeOk);
    case Del(k, junk, writeOk) => FailedDel(s, k, junk, writeOk);
  }

  // Clean failure: a call that reports an error leaves a store that behaves,
  // down to the block of every later write, as if the call had not been made.
  lemma CleanFailure(s: State, op: Op, later: seq<Op>)
    requires Inv(s) && (op.Set? || op.Del?)
    requires Step(s, op).1.reply.ret != OK
    ensures Run(Step(s, op).0, later).1 == Run(s, later).1
    ensures Contents(Step(s, op).0) == Contents(s) && Step(s, op).0.bits == s.bits
  {
    FailedCall(s, op);
    RunSimilar(s, Step(s, op).0, later);
    ContentsOf(s, Step(s, op).0);
  }
}
