/** Facts about one disk, one directory and one write, before they are put together. */
module LogFacts {
  import opened Types
  import opened StoreModel

  ghost predicate Separate(dir: Dir) {
    forall k, k' :: k in dir && k' in dir && dir[k].block == dir[k'].block ==> k == k'
  }

  lemma NotShared(disk: seq<Block>, dir: Dir)
    requires DirOk(disk, dir)
    ensures Separate(dir)
  {
  }

  lemma {:induction false} BlockCount(dir: Dir)
    requires Separate(dir)
    ensures |DirBlocks(dir)| == |dir|
    decreases |dir|
  {
    if |dir| == 0 {
      assert dir == map[];
    } else {
      var k :| k in dir;
      var rest := dir - {k};
      assert dir.Keys == rest.Keys + {k};
      BlockCount(rest);
      assert dir[k].block !in DirBlocks(rest);
      forall b | b in DirBlocks(dir) ensures b in DirBlocks(rest) + {dir[k].block} {
        var k' :| k' in dir && dir[k'].block == b;
        assert k' != k ==> k' in rest && rest[k'] == dir[k'];
      }
      assert DirBlocks(dir) == DirBlocks(rest) + {dir[k].block};
    }
  }

  // Freeing the replaced block and then marking the new one keeps the bitmap
  // equal to the blocks of the directory.
  lemma BlocksAfterUpdate(dir: Dir, k: U64, e: Entry)
    requires Separate(dir) && e.block !in DirBlocks(dir)
    ensures DirBlocks(dir[k := e]) ==
            (if k in dir then DirBlocks(dir) - {dir[k].block} else DirBlocks(dir)) + {e.block}
  {
    var dir' := dir[k := e];
    var want := (if k in dir then DirBlocks(dir) - {dir[k].block} else DirBlocks(dir)) + {e.block};
    forall b | b in want ensures b in DirBlocks(dir') {
      if b == e.block {
        assert dir'[k].block == b;
      } else {
        var k' :| k' in dir && dir[k'].block == b;
        assert dir'[k'].block == b;
      }
    }
    forall b | b in DirBlocks(dir') ensures b in want {
      var k' :| k' in dir' && dir'[k'].block == b;
      if k' != k {
        assert k' in dir && dir[k'].block == b;
      }
    }
  }

  // What storing a newer version does to the directory and, with the two
  // bitmap updates that follow it, to the allocated blocks.
  lemma StoreNewer(dir: Dir, k: U64, d: nat, bytes: nat, sequence: nat)
    requires Separate(dir) && d !in DirBlocks(dir) && bytes < UINT16_MODULUS
    requires k in dir ==> dir[k].sequence < sequence && dir[k].block != UINT32_MAX
    ensures var stored := StoreKey(dir, k, d, bytes, sequence);
            && stored.isLatest
            && stored.dir == dir[k := Entry(sequence, d, bytes)]
            && Release(DirBlocks(dir), stored.replaced) + {d} == DirBlocks(stored.dir)
  {
    BlocksAfterUpdate(dir, k, Entry(sequence, d, bytes));
  }

  // A block written to a free place, newer than everything else of its key.
  lemma DirAfterWrite(disk: seq<Block>, dir: Dir, d: nat, b: Block)
    requires DirOk(disk, dir) && Signed(b)
    requires d <= |disk| && d !in DirBlocks(dir)
    requires b.key in dir ==> dir[b.key].sequence < b.sequence
    ensures DirOk(WriteAt(disk, d, b), dir[b.key := Entry(b.sequence, d, b.dataBytes)])
  {
  }

  lemma LogAfterWrite(n: nat, disk: seq<Block>, d: nat, b: Block)
    requires LogOk(n, disk) && d <= |disk| && d < n
    requires b.dataBytes <= MAXBLOB && Below(disk, b.sequence)
    ensures LogOk(n, WriteAt(disk, d, b))
  {
  }
}
