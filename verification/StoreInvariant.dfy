/** What every write keeps, and what the invariant says about where a write may go. */
module StoreInvariant {
  import opened Types
  import opened Placement
  import opened StoreModel
  import opened LogFacts

  // The set bits are exactly the blocks of the directory, one per key.
  lemma BitmapAgreement(s: State)
    requires Inv(s)
    ensures forall b :: b in s.bits <==> exists k :: k in s.dir && s.dir[k].block == b
    ensures Separate(s.dir)
    ensures |s.bits| == |s.dir|
    ensures s.bits <= Range(|s.disk|) <= Range(s.n)
  {
    NotShared(s.disk, s.dir);
    BlockCount(s.dir);
    forall b | b in s.bits ensures b < |s.disk| {
      var k :| k in s.dir && s.dir[k].block == b;
      assert EntryOk(s.disk, k, s.dir[k]);
    }
  }

  // A write goes to a free block at most one past the end of the file, and
  // fails for lack of space exactly when every block belongs to some key.
  lemma DestOk(s: State)
    requires Inv(s)
    ensures Dest(s) == UINT32_MAX <==> |s.dir| == s.n
    ensures |s.dir| <= s.n
    ensures Dest(s) != UINT32_MAX ==> Dest(s) < s.n && Dest(s) !in s.bits && Dest(s) <= |s.disk|
  {
    BitmapAgreement(s);
    DestWithin(s.n, s.bits, Head(s.disk), |s.disk|);
  }

  lemma DestWithin(n: nat, bits: set<nat>, head: nat, len: nat)
    requires 0 < n < UINT32_MAX && head <= len <= n && head < n
    requires bits <= Range(len) <= Range(n)
    ensures var d := NextFree(n, bits, head);
            && (d == UINT32_MAX <==> |bits| == n)
            && |bits| <= n
            && (d != UINT32_MAX ==> d < n && d !in bits && d <= len)
  {
    NextFreeFull(n, bits, head);
    NextFreeExact(n, bits, head, NextFree(n, bits, head));
    NextFreeDense(n, bits, head, len);
  }

  // ----------------------------------------------------- keeping it true

  lemma FreshInv(n: nat)
    requires 0 < n < UINT32_MAX
    ensures Inv(Fresh(n, []))
  {
  }

  // A new version always has a greater sequence number than the version it
  // replaces, so the assertion on the directory's answer holds.
  lemma NewVersionWins(s: State, k: U64, block: nat, bytes: nat)
    requires Inv(s)
    ensures StoreKey(s.dir, k, block, bytes, s.counter + 1).isLatest
  {
  }

  // The counter of the code has 64 bits.
  function NextSequence(counter: nat): nat {
    (counter + 1) % UINT64_MODULUS
  }

  lemma NextSequenceWraps(counter: nat)
    requires counter <= UINT64_MAX
    ensures NextSequence(counter) == if counter < UINT64_MAX then counter + 1 else 0
  {
  }

  // With that counter the assertion holds exactly for the keys that are not
  // yet in the directory, or as long as the counter is below its last value.
  lemma WrapBreaksNewVersions(s: State, k: U64, block: nat, bytes: nat)
    requires Inv(s) && s.counter <= UINT64_MAX
    ensures StoreKey(s.dir, k, block, bytes, NextSequence(s.counter)).isLatest <==>
            (k !in s.dir || s.counter < UINT64_MAX)
  {
    NextSequenceWraps(s.counter);
    if k in s.dir {
      NewVersionWins(s, k, block, bytes);
    }
  }

  // The state after the disk write and the three updates in memory.
  lemma AppendEffect(s: State, k: U64, value: seq<Byte>, junk: Block, writeOk: bool)
    requires Inv(s) && |value| <= MAXBLOB
    requires Append(s, k, value, junk, writeOk).1 == OK
    ensures var t := Append(s, k, value, junk, writeOk).0;
            var d := Dest(s);
            && d == t.cursor && d < s.n && d !in s.bits && d <= |s.disk|
            && t.n == s.n && t.counter == s.counter + 1
            && t.dir == s.dir[k := Entry(t.counter, d, |value|)]
            && t.bits == DirBlocks(t.dir)
            && t.disk == WriteAt(s.disk, d, NewBlock(k, value, t.counter, junk))
  {
    DestOk(s);
    NotShared(s.disk, s.dir);
    assert k in s.dir ==> EntryOk(s.disk, k, s.dir[k]);
    StoreNewer(s.dir, k, Dest(s), |value|, s.counter + 1);
  }

  // Every write keeps the invariant, whatever its outcome.
  lemma AppendInv(s: State, k: U64, value: seq<Byte>, junk: Block, writeOk: bool)
    requires Inv(s) && |value| <= MAXBLOB
    ensures Inv(Append(s, k, value, junk, writeOk).0)
  {
    if Append(s, k, value, junk, writeOk).1 == OK {
      AppendOkInv(s, k, value, junk, writeOk);
    } else {
      AppendFailedInv(s, k, value, junk, writeOk);
    }
  }

  // The written block is the head of the log, above everything written before.
  lemma AppendIsHead(s: State, k: U64, value: seq<Byte>, junk: Block, writeOk: bool)
    requires Inv(s) && |value| <= MAXBLOB
    requires Append(s, k, value, junk, writeOk).1 == OK
    ensures var t := Append(s, k, value, junk, writeOk).0;
            && Head(t.disk) == Dest(s) < |t.disk|
            && Signed(t.disk[Dest(s)]) && t.disk[Dest(s)].sequence == t.counter
            && Below(s.disk, t.counter) && Below(t.disk, t.counter + 1)
  {
  }

  lemma AppendOkInv(s: State, k: U64, value: seq<Byte>, junk: Block, writeOk: bool)
    requires Inv(s) && |value| <= MAXBLOB
    requires Append(s, k, value, junk, writeOk).1 == OK
    ensures Inv(Append(s, k, value, junk, writeOk).0)
  {
    AppendEffect(s, k, value, junk, writeOk);
    AppendIsHead(s, k, value, junk, writeOk);
    var b := NewBlock(k, value, s.counter + 1, junk);
    LogAfterWrite(s.n, s.disk, Dest(s), b);
    assert k in s.dir ==> EntryOk(s.disk, k, s.dir[k]);
    DirAfterWrite(s.disk, s.dir, Dest(s), b);
  }

  // A failed write leaves a cursor from which the search finds the same block.
  lemma AppendFailedInv(s: State, k: U64, value: seq<Byte>, junk: Block, writeOk: bool)
    requires Inv(s) && |value| <= MAXBLOB
    requires Append(s, k, value, junk, writeOk).1 != OK
    ensures var t := Append(s, k, value, junk, writeOk).0;
            && Inv(t) && Dest(t) == Dest(s)
            && t == s.(counter := t.counter, cursor := t.cursor)
  {
    DestOk(s);
    NextFreeIdempotent(s.n, s.bits, Head(s.disk), 0);
  }

  // Live data is never overwritten: the blocks of all current versions,
  // the replaced one included, keep their contents; and what is overwritten
  // is a block that its key has already superseded.
  lemma LiveDataSurvives(s: State, k: U64, value: seq<Byte>, junk: Block, writeOk: bool, live: U64)
    requires Inv(s) && |value| <= MAXBLOB && live in s.dir
    ensures var t := Append(s, k, value, junk, writeOk).0;
            && s.dir[live].block < |s.disk| <= |t.disk|
            && t.disk[s.dir[live].block] == s.disk[s.dir[live].block]
            && (live != k ==> live in t.dir && t.dir[live] == s.dir[live])
  {
    assert EntryOk(s.disk, live, s.dir[live]);
    if Append(s, k, value, junk, writeOk).1 == OK {
      AppendEffect(s, k, value, junk, writeOk);
      assert s.dir[live].block in s.bits;
    }
  }

  lemma OverwrittenIsStale(s: State)
    requires Inv(s) && Dest(s) < |s.disk| && Signed(s.disk[Dest(s)])
    ensures var gone := s.disk[Dest(s)];
            gone.key in s.dir && gone.sequence < s.dir[gone.key].sequence
  {
    DestOk(s);
    var owner := s.disk[Dest(s)].key;
    assert EntryOk(s.disk, owner, s.dir[owner]);
    assert s.dir[owner].block in s.bits;
  }
}
