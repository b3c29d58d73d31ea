/**
 Whole runs of the store: every interleaving of set, del, get, failed disk
 writes, close/reopen and crashes. A run behaves like a plain map that knows
 in addition which keys were ever stored.
 */
module Runs {
  import opened Types
  import opened StoreModel
  import opened LogFacts
  import opened StoreInvariant
  import opened Replay
  import opened Crash

  // `junk` is what the stack variable for the block held before; `writeOk` is
  // what the disk answers; `steps` is where in the call the crash comes.
  datatype Op =
    | Set(key: U64, value: seq<Byte>, junk: Block, writeOk: bool)
    | Del(key: U64, junk: Block, writeOk: bool)
    | Get(key: U64, size: nat)
    | Restart
    | CrashInSet(key: U64, value: seq<Byte>, junk: Block, writeOk: bool, steps: nat)
    | CrashInDel(key: U64, junk: Block, writeOk: bool, steps: nat)

  datatype Reply = Reply(ret: Ret, data: seq<Byte>) | NoReply

  // `wrote` is the block the operation wrote, UINT32_MAX if none.
  datatype Out = Out(reply: Reply, wrote: nat)

  function Finish(s: State, result: (State, Ret)): (State, Out) {
    (result.0, Out(Reply(result.1, []), if result.1 == OK then Dest(s) else UINT32_MAX))
  }

  function CrashIn(s: State, k: U64, value: Blob, junk: Block, writeOk: bool, steps: nat): (State, Out) {
    (CrashedAppend(s, k, value, junk, writeOk, steps),
     Out(NoReply, SmallSteps(Begin(s, k, value, junk, writeOk), steps).call.wrote))
  }

  function Step(s: State, op: Op): (State, Out) {
    match op
    case Set(k, value, junk, writeOk) => Finish(s, SetStep(s, k, value, junk, writeOk))
    case Del(k, junk, writeOk) => Finish(s, DelStep(s, k, junk, writeOk))
    case Get(k, size) => var (ret, data) := GetStep(s, k, size); (s, Out(Reply(ret, data), UINT32_MAX))
    case Restart => (Reopen(s.n, s.disk), Out(NoReply, UINT32_MAX))
    case CrashInSet(k, value, junk, writeOk, steps) =>
      if AcceptsSet(value) then CrashIn(s, k, value, junk, writeOk, steps)
      else (Reopen(s.n, s.disk), Out(NoReply, UINT32_MAX))
    case CrashInDel(k, junk, writeOk, steps) =>
      if AcceptsDel(s, k) then CrashIn(s, k, [], junk, writeOk, steps)
      else (Reopen(s.n, s.disk), Out(NoReply, UINT32_MAX))
  }

  function Run(s: State, ops: seq<Op>): (State, seq<Out>)
    decreases |ops|
  {
    if ops == [] then (s, []) else
    var (t, out) := Step(s, ops[0]);
    var (u, outs) := Run(t, ops[1..]);
    (u, [out] + outs)
  }

  // -------------------------------------------------- the reference machine

  datatype Reference = Reference(contents: map<U64, seq<Byte>>, ever: set<U64>)

  function RefWrite(n: nat, r: Reference, k: U64, value: seq<Byte>, writeOk: bool): (Reference, Ret) {
    if |r.ever| >= n then (r, ENOSPC)
    else if !writeOk then (r, EIO)
    else (Reference(if value == [] then r.contents - {k} else r.contents[k := value], r.ever + {k}), OK)
  }

  // A crashed call has happened if it got as far as the disk, otherwise it has not.
  function RefCrash(n: nat, r: Reference, k: U64, value: seq<Byte>, writeOk: bool, steps: nat): Reference {
    if steps >= 3 then RefWrite(n, r, k, value, writeOk).0 else r
  }

  function RefStep(n: nat, r: Reference, op: Op): (Reference, Reply) {
    match op
    case Set(k, value, _, writeOk) =>
      if !AcceptsSet(value) then (r, Reply(EINVAL, [])) else
      var (r', ret) := RefWrite(n, r, k, value, writeOk); (r', Reply(ret, []))
    case Del(k, _, writeOk) =>
      if k !in r.contents then (r, Reply(ENOENT, [])) else
      var (r', ret) := RefWrite(n, r, k, [], writeOk); (r', Reply(ret, []))
    case Get(k, size) =>
      (r, if k !in r.contents then Reply(ENOENT, [])
          else if size < |r.contents[k]| then Reply(EINVAL, [])
          else Reply(OK, r.contents[k]))
    case Restart => (r, NoReply)
    case CrashInSet(k, value, _, writeOk, steps) =>
      (if AcceptsSet(value) then RefCrash(n, r, k, value, writeOk, steps) else r, NoReply)
    case CrashInDel(k, _, writeOk, steps) =>
      (if k in r.contents then RefCrash(n, r, k, [], writeOk, steps) else r, NoReply)
  }

  function RefRun(n: nat, r: Reference, ops: seq<Op>): (Reference, seq<Reply>)
    decreases |ops|
  {
    if ops == [] then (r, []) else
    var (r', reply) := RefStep(n, r, ops[0]);
    var (r'', replies) := RefRun(n, r', ops[1..]);
    (r'', [reply] + replies)
  }

  // What a state of the store means to its clients.
  function View(s: State): Reference {
    Reference(Contents(s), s.dir.Keys)
  }

  function Replies(outs: seq<Out>): seq<Reply> {
    seq(|outs|, i requires 0 <= i < |outs| => outs[i].reply)
  }

  // ------------------------------------------------------- refinement, one step

  lemma AppendRefines(s: State, k: U64, value: Blob, junk: Block, writeOk: bool)
    requires Inv(s)
    ensures var (t, ret) := Append(s, k, value, junk, writeOk);
            Inv(t) && t.n == s.n && (View(t), ret) == RefWrite(s.n, View(s), k, value, writeOk)
  {
    var (t, ret) := Append(s, k, value, junk, writeOk);
    assert Inv(t) by {
      AppendInv(s, k, value, junk, writeOk);
    }
    assert Dest(s) == UINT32_MAX <==> |View(s).ever| >= s.n by {
      DestOk(s);
      assert |s.dir.Keys| == |s.dir|;
    }
    if ret == OK {
      AppendView(s, k, value, junk, writeOk);
    } else {
      ContentsOf(s, t);
    }
  }

  lemma AppendView(s: State, k: U64, value: Blob, junk: Block, writeOk: bool)
    requires Inv(s) && Append(s, k, value, junk, writeOk).1 == OK
    ensures var t := Append(s, k, value, junk, writeOk).0;
            && Contents(t) == (if value == [] then Contents(s) - {k} else Contents(s)[k := value])
            && t.dir.Keys == s.dir.Keys + {k}
  {
    AppendEffect(s, k, value, junk, writeOk);
    var t := Append(s, k, value, junk, writeOk).0;
    var b := NewBlock(k, value, t.counter, junk);
    OthersKeepBlocks(s, t, k, Dest(s), b);
    WriteContents(s, t, k, value, b);
  }

  lemma OthersKeepBlocks(s: State, t: State, k: U64, d: nat, b: Block)
    requires DirOk(s.disk, s.dir) && d !in DirBlocks(s.dir) && d <= |s.disk|
    requires t.disk == WriteAt(s.disk, d, b)
    requires t.dir == s.dir[k := Entry(b.sequence, d, b.dataBytes)]
    ensures NewestOf(t, k) == b
    ensures forall k' :: k' in s.dir && k' != k ==> NewestOf(t, k') == NewestOf(s, k')
  {
  }

  lemma WriteContents(s: State, t: State, k: U64, value: Blob, b: Block)
    requires k in t.dir && t.dir.Keys == s.dir.Keys + {k}
    requires t.dir[k].bytes == |value| && NewestOf(t, k) == b && Payload(b, |value|) == value
    requires forall k' :: k' in s.dir && k' != k ==> t.dir[k'] == s.dir[k'] && NewestOf(t, k') == NewestOf(s, k')
    ensures Contents(t) == if value == [] then Contents(s) - {k} else Contents(s)[k := value]
  {
    var c := Contents(t);
    if value == [] {
      SameMap(c, Contents(s) - {k});
    } else {
      SameMap(c, Contents(s)[k := value]);
    }
  }

  lemma SameMap(a: map<U64, seq<Byte>>, b: map<U64, seq<Byte>>)
    requires forall k :: k in a <==> k in b
    requires forall k :: k in a ==> a[k] == b[k]
    ensures a == b
  {
  }

  lemma RestartRefines(s: State)
    requires Inv(s)
    ensures var t := Reopen(s.n, s.disk); Inv(t) && t.n == s.n && View(t) == View(s)
  {
    ReopenMatches(s);
    ReopenKeepsContents(s);
  }

  lemma CrashRefines(s: State, k: U64, value: Blob, junk: Block, writeOk: bool, steps: nat)
    requires Inv(s)
    ensures var t := CrashIn(s, k, value, junk, writeOk, steps).0;
            Inv(t) && t.n == s.n && View(t) == RefCrash(s.n, View(s), k, value, writeOk, steps)
  {
    CrashAtomicity(s, k, value, junk, writeOk, steps);
    AppendRefines(s, k, value, junk, writeOk);
    RestartRefines(s);
    RestartRefines(Append(s, k, value, junk, writeOk).0);
  }

  // What a client sees of a key is what the directory says about it.
  lemma Visible(s: State, k: U64)
    requires Inv(s)
    ensures k in Contents(s) <==> AcceptsDel(s, k)
    ensures k in Contents(s) ==> |Contents(s)[k]| == s.dir[k].bytes
    ensures k in s.dir ==> s.dir[k].block < |s.disk| && Signed(NewestOf(s, k))
  {
  }

  // A get reads the map: the reply depends on nothing else in the state.
  lemma GetReads(s: State, k: U64, size: nat)
    requires Inv(s)
    ensures GetStep(s, k, size) ==
            if k !in Contents(s) then (ENOENT, [])
            else if size < |Contents(s)[k]| then (EINVAL, [])
            else (OK, Contents(s)[k])
  {
  }

  lemma StepRefines(s: State, op: Op)
    requires Inv(s)
    ensures var (t, out) := Step(s, op);
            Inv(t) && t.n == s.n && (View(t), out.reply) == RefStep(s.n, View(s), op)
  {
    if op.Set? || op.Del? || op.Get? {
      CallRefines(s, op);
    } else {
      LossRefines(s, op);
    }
  }

  lemma CallRefines(s: State, op: Op)
    requires Inv(s) && (op.Set? || op.Del? || op.Get?)
    ensures var (t, out) := Step(s, op);
            Inv(t) && t.n == s.n && (View(t), out.reply) == RefStep(s.n, View(s), op)
  {
    if op.Get? {
      GetReads(s, op.key, op.size);
    } else if op.Set? {
      SetRefines(s, op);
    } else {
      DelRefines(s, op);
    }
  }

  lemma SetRefines(s: State, op: Op)
    requires Inv(s) && op.Set?
    ensures var (t, out) := Step(s, op);
            Inv(t) && t.n == s.n && (View(t), out.reply) == RefStep(s.n, View(s), op)
  {
    if AcceptsSet(op.value) {
      AppendRefines(s, op.key, op.value, op.junk, op.writeOk);
    }
  }

  lemma DelRefines(s: State, op: Op)
    requires Inv(s) && op.Del?
    ensures var (t, out) := Step(s, op);
            Inv(t) && t.n == s.n && (View(t), out.reply) == RefStep(s.n, View(s), op)
  {
    Visible(s, op.key);
    if AcceptsDel(s, op.key) {
      AppendRefines(s, op.key, [], op.junk, op.writeOk);
    }
  }

  lemma LossRefines(s: State, op: Op)
    requires Inv(s) && !(op.Set? || op.Del? || op.Get?)
    ensures var (t, out) := Step(s, op);
            Inv(t) && t.n == s.n && (View(t), out.reply) == RefStep(s.n, View(s), op)
  {
    if op.Restart? {
      RestartRefines(s);
    } else if op.CrashInSet? {
      CrashInSetRefines(s, op);
    } else {
      CrashInDelRefines(s, op);
    }
  }

  lemma CrashInSetRefines(s: State, op: Op)
    requires Inv(s) && op.CrashInSet?
    ensures var t := Step(s, op).0;
            Inv(t) && t.n == s.n && View(t) == RefStep(s.n, View(s), op).0
  {
    if AcceptsSet(op.value) {
      CrashRefines(s, op.key, op.value, op.junk, op.writeOk, op.steps);
    } else {
      RestartRefines(s);
    }
  }

  lemma CrashInDelRefines(s: State, op: Op)
    requires Inv(s) && op.CrashInDel?
    ensures var t := Step(s, op).0;
            Inv(t) && t.n == s.n && View(t) == RefStep(s.n, View(s), op).0
  {
    Visible(s, op.key);
    if AcceptsDel(s, op.key) {
      CrashRefines(s, op.key, [], op.junk, op.writeOk, op.steps);
    } else {
      RestartRefines(s);
    }
  }

  // ------------------------------------------------------ refinement, whole runs

  // From any state satisfying the invariant, every run keeps it and gives
  // exactly the replies of the reference machine.
  lemma {:induction false} RunRefines(s: State, ops: seq<Op>)
    requires Inv(s)
    ensures var (t, outs) := Run(s, ops);
            Inv(t) && t.n == s.n && (View(t), Replies(outs)) == RefRun(s.n, View(s), ops)
    decreases |ops|
  {
    if ops == [] {
      assert Replies([]) == [];
    } else {
      var (t, out) := Step(s, ops[0]);
      StepRefines(s, ops[0]);
      RunRefines(t, ops[1..]);
      RepliesOfLonger(out, Run(t, ops[1..]).1);
    }
  }

  lemma RepliesOfLonger(out: Out, outs: seq<Out>)
    ensures Replies([out] + outs) == [out.reply] + Replies(outs)
  {
  }

  lemma FreshView(n: nat)
    ensures View(Fresh(n, [])) == Reference(map[], {})
  {
  }

  // A store created empty answers every run as an empty map does.
  lemma StoreIsAMap(n: nat, ops: seq<Op>)
    requires 0 < n < UINT32_MAX
    ensures Replies(Run(Fresh(n, []), ops).1) == RefRun(n, Reference(map[], {}), ops).1
    ensures Inv(Run(Fresh(n, []), ops).0)
  {
    FreshInv(n);
    FreshView(n);
    RunRefines(Fresh(n, []), ops);
  }
}
