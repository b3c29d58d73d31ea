/** A write as the sequence of small steps the code takes, and a crash after any of them. */
module Crash {
  import opened Types
  import opened StoreModel
  import opened StoreInvariant
  import opened Replay

  type Blob = v: seq<Byte> | |v| <= MAXBLOB

  // Where the call stands: the step it has just finished.
  datatype Pc = Begun | Numbered | Placed | Written | Indexed | Released | Finished

  // The local variables of a call in progress. `sequence` is the number the
  // incremented counter gives; `wrote` records the block whose write reached
  // the disk, UINT32_MAX before that.
  datatype Call = Call(
    pc: Pc, key: U64, value: Blob, junk: Block, writeOk: bool,
    sequence: nat, destination: nat, replaced: nat, wrote: nat, ret: Ret)

  datatype Config = Config(s: State, call: Call)

  function BeginAs(s: State, sequence: nat, k: U64, value: Blob, junk: Block, writeOk: bool): Config {
    Config(s, Call(Begun, k, value, junk, writeOk, sequence, UINT32_MAX, UINT32_MAX, UINT32_MAX, OK))
  }

  // The same with a counter that never runs out.
  function Begin(s: State, k: U64, value: Blob, junk: Block, writeOk: bool): Config {
    BeginAs(s, s.counter + 1, k, value, junk, writeOk)
  }

  function SmallStep(c: Config): Config {
    var s, call := c.s, c.call;
    match call.pc
    case Begun => Config(s.(counter := call.sequence), call.(pc := Numbered))
    case Numbered =>
      var d := Dest(s);
      Config(s.(cursor := d),
             if d == UINT32_MAX then call.(ret := ENOSPC, pc := Finished)
             else call.(destination := d, pc := Placed))
    case Placed =>
      if !call.writeOk then Config(s, call.(ret := EIO, pc := Finished)) else
      var block := NewBlock(call.key, call.value, call.sequence, call.junk);
      Config(s.(disk := WriteAt(s.disk, call.destination, block)),
             call.(wrote := call.destination, pc := Written))
    case Written =>
      var stored := StoreKey(s.dir, call.key, call.destination, |call.value|, call.sequence);
      Config(s.(dir := stored.dir), call.(replaced := stored.replaced, pc := Indexed))
    case Indexed =>
      Config(s.(bits := Release(s.bits, call.replaced)), call.(pc := Released))
    case Released =>
      Config(s.(bits := s.bits + {call.destination}), call.(pc := Finished))
    case Finished => c
  }

  function SmallSteps(c: Config, steps: nat): Config {
    if steps == 0 then c else SmallStep(SmallSteps(c, steps - 1))
  }

  // A crash throws the memory away after some steps; the file is then opened again.
  function CrashedAppend(s: State, k: U64, value: Blob, junk: Block, writeOk: bool, steps: nat): State {
    Reopen(s.n, SmallSteps(Begin(s, k, value, junk, writeOk), steps).s.disk)
  }

  // The whole operation that a call which has just begun stands for.
  function WholeCall(c: Config): (State, Ret) {
    AppendAs(c.s, c.call.sequence, c.call.key, c.call.value, c.call.junk, c.call.writeOk)
  }

  // What three steps do to a call that has just begun: the write, or giving up.
  ghost predicate WriteDone(c: Config, c3: Config) {
    var (t, ret) := WholeCall(c);
    if ret == OK
    then c3 == Config(c.s.(counter := t.counter, cursor := t.cursor, disk := t.disk),
                      c.call.(pc := Written, destination := t.cursor, wrote := t.cursor))
    else c3.s == t && c3.call.pc == Finished && c3.call.ret == ret && c3.call.wrote == c.call.wrote
  }

  // What three steps do to a call that has written its block, or given up.
  ghost predicate MemoryDone(c3: Config, c6: Config) {
    if c3.call.pc == Written then
      var stored := StoreKey(c3.s.dir, c3.call.key, c3.call.destination, |c3.call.value|, c3.call.sequence);
      c6 == Config(c3.s.(dir := stored.dir,
                         bits := Release(c3.s.bits, stored.replaced) + {c3.call.destination}),
                   c3.call.(replaced := stored.replaced, pc := Finished))
    else c6 == c3
  }

  lemma UpToTheWrite(c: Config)
    requires c.call.pc == Begun && c.call.ret == OK
    ensures WriteDone(c, SmallStep(SmallStep(SmallStep(c))))
  {
  }

  lemma AfterTheWrite(c: Config)
    requires c.call.pc in {Written, Finished}
    ensures MemoryDone(c, SmallStep(SmallStep(SmallStep(c))))
  {
  }

  lemma BothHalves(c: Config, c3: Config, c6: Config)
    requires c.call.ret == OK && WriteDone(c, c3) && MemoryDone(c3, c6)
    ensures c6.call.pc == Finished
    ensures (c6.s, c6.call.ret) == WholeCall(c)
  {
  }

  lemma ThreeSteps(c: Config, steps: nat)
    requires steps >= 3
    ensures SmallSteps(c, steps) == SmallStep(SmallStep(SmallStep(SmallSteps(c, steps - 3))))
  {
    assert SmallSteps(c, steps) == SmallStep(SmallSteps(c, steps - 1));
    assert SmallSteps(c, steps - 1) == SmallStep(SmallSteps(c, steps - 2));
  }

  lemma SixSteps(c: Config, half: nat, all: nat)
    requires c.call.pc == Begun && c.call.ret == OK
    requires half == 3 && all == half + 3
    ensures var c6 := SmallSteps(c, all);
            && c6.call.pc == Finished
            && (c6.s, c6.call.ret) == WholeCall(c)
  {
    ThreeSteps(c, half);
    ThreeSteps(c, all);
    UpToTheWrite(c);
    AfterTheWrite(SmallSteps(c, half));
    BothHalves(c, SmallSteps(c, half), SmallSteps(c, all));
  }

  // The steps in the order the code takes them add up to the whole operation.
  lemma {:induction false} StepsComplete(s: State, k: U64, value: Blob, junk: Block, writeOk: bool, steps: nat)
    requires 6 <= steps
    ensures var c := SmallSteps(Begin(s, k, value, junk, writeOk), steps);
            && c.call.pc == Finished
            && (c.s, c.call.ret) == Append(s, k, value, junk, writeOk)
  {
    if steps > 6 {
      StepsComplete(s, k, value, junk, writeOk, steps - 1);
    } else {
      SixSteps(Begin(s, k, value, junk, writeOk), 3, steps);
    }
  }

  // The disk changes once, at the third step, and only when the write succeeds.
  lemma {:induction false} DiskAfterSteps(s: State, k: U64, value: Blob, junk: Block, writeOk: bool, steps: nat)
    ensures var c := SmallSteps(Begin(s, k, value, junk, writeOk), steps);
            var (t, ret) := Append(s, k, value, junk, writeOk);
            if ret == OK && steps >= 3
            then c.s.disk == t.disk && c.call.wrote == Dest(s) && c.call.pc !in {Begun, Numbered, Placed}
            else c.s.disk == s.disk && c.call.wrote == UINT32_MAX
                 && (steps >= 3 ==> c.call.pc == Finished)
  {
    var c := Begin(s, k, value, junk, writeOk);
    if steps == 3 {
      ThreeSteps(c, 3);
      UpToTheWrite(c);
    } else if steps < 3 {
      assert SmallSteps(c, 1) == SmallStep(SmallSteps(c, 0));
      assert SmallSteps(c, 2) == SmallStep(SmallSteps(c, 1));
    } else {
      DiskAfterSteps(s, k, value, junk, writeOk, steps - 1);
    }
  }

  // Crash atomicity: whatever the step at which memory is lost, the recovered
  // store is the one recovered from before the call or from after it, and it
  // again satisfies the invariant, so it may be used and may crash again.
  lemma CrashAtomicity(s: State, k: U64, value: Blob, junk: Block, writeOk: bool, steps: nat)
    requires Inv(s)
    ensures var r := CrashedAppend(s, k, value, junk, writeOk, steps);
            var (t, ret) := Append(s, k, value, junk, writeOk);
            && Inv(r)
            && (if ret == OK && steps >= 3
                then r == Reopen(t.n, t.disk) && Contents(r) == Contents(t)
                else r == Reopen(s.n, s.disk) && Contents(r) == Contents(s))
  {
    DiskAfterSteps(s, k, value, junk, writeOk, steps);
    AppendInv(s, k, value, junk, writeOk);
    ReopenKeepsContents(s);
    ReopenKeepsContents(Append(s, k, value, junk, writeOk).0);
  }
}
