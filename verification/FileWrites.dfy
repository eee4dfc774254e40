/** Writing to files leaves directories alone, with either fill. */
module FileWrites {
  import opened Machine
  import opened Volume
  import opened Ownership
  import opened FileIO
  import opened Directory
  import opened Namespace
  import opened TreeSteps
  import opened Operations

  /** Direct blocks of every other inode hold what they held. */
  ghost predicate OthersKept(v: Vol, w: Vol, i: nat) {
    forall j: nat, k: nat {:trigger Val(w, Direct(j, k))} {:trigger Val(v, Direct(j, k))} ::
      j != i && Live(v, Direct(j, k)) ==>
        Val(w, Direct(j, k)) == Val(v, Direct(j, k)) < TOTAL_BLOCKS && w.disk[Val(v, Direct(j, k))] == v.disk[Val(v, Direct(j, k))]
  }

  lemma OthersKeptTrans(v: Vol, w: Vol, x: Vol, i: nat)
    requires OthersKept(v, w, i) && OthersKept(w, x, i)
    ensures OthersKept(v, x, i)
  {
    forall j: nat, k: nat | j != i && Live(v, Direct(j, k))
      ensures Val(x, Direct(j, k)) == Val(v, Direct(j, k)) < TOTAL_BLOCKS && x.disk[Val(v, Direct(j, k))] == v.disk[Val(v, Direct(j, k))]
    {
      assert Live(w, Direct(j, k));
    }
  }

  lemma PatchOthers(v: Vol, i: nat, l: uint32, b: nat, off: nat, bytes: seq<byte>)
    requires Inv(v) && off + |bytes| <= BLOCK_SIZE && b < TOTAL_BLOCKS
    requires b < DATA_START || (Live(v, DataSlot(i, l)) && Val(v, DataSlot(i, l)) == b)
    ensures OthersKept(v, Patch(v, b, off, bytes), i)
  {
    PatchDataInv(v, DataSlot(i, l), b, off, bytes, i);
  }

  lemma MapOthers(v: Vol, w: Vol, i: nat)
    requires Inv(v) && Frame(v, w, i)
    ensures OthersKept(v, w, i)
  {
  }

  lemma MappedNow(v: Vol, w: Vol, i: nat, l: uint32, nb: nat)
    requires Inv(v) && Allocated(v, i) && GetBlock(v, i, l) == NULL_BLOCK && MapOutcome(v, i, l, w, nb)
    ensures var x := CountBlock(w, i);
            && Inv(x) && Live(x, DataSlot(i, l)) && Val(x, DataSlot(i, l)) == nb && OthersKept(w, x, i)
  {
    GetBlockCases(v, i, l);
    CountedInv(v, w, i, l, nb);
    hide Inv, Val;
    CountedOthers(w, i);
  }

  lemma CountedOthers(w: Vol, i: nat)
    requires i < MAX_INODES && Inv(CountBlock(w, i)) && SameVals(w, CountBlock(w, i))
    ensures OthersKept(w, CountBlock(w, i), i)
  {
    var x := CountBlock(w, i);
    hide Inv, Val;
    assert forall s :: Live(x, s) <==> Live(w, s);
    forall j: nat, k: nat | j != i && Live(w, Direct(j, k))
      ensures Val(w, Direct(j, k)) < TOTAL_BLOCKS
    {
      LiveInRange(x, Direct(j, k));
    }
  }

  lemma MapPatchOthers(v: Vol, w: Vol, i: nat, l: uint32, nb: int, off: nat, bytes: seq<byte>)
    requires Inv(v) && Allocated(v, i) && off + |bytes| <= BLOCK_SIZE && GetBlock(v, i, l) == NULL_BLOCK
    requires MapOutcome(v, i, l, w, nb)
    ensures OthersKept(v, if nb < 0 then w else Patch(CountBlock(w, i), nb, off, bytes), i)
  {
    hide Inv, Val, Live, Patch, OthersKept;
    MapOthers(v, w, i);
    if nb >= 0 {
      MappedNow(v, w, i, l, nb);
      var x := CountBlock(w, i);
      PatchOthers(x, i, l, nb, off, bytes);
      hide CountBlock;
      OthersKeptTrans(v, w, x, i);
      OthersKeptTrans(v, x, Patch(x, nb, off, bytes), i);
    }
  }

  lemma LiveInRange(v: Vol, s: Slot)
    requires Inv(v) && Live(v, s)
    ensures DATA_START <= Val(v, s) < TOTAL_BLOCKS
  {
  }

  lemma ChunkOthers(v: Vol, i: nat, l: uint32, off: nat, bytes: seq<byte>)
    requires Inv(v) && Allocated(v, i) && off + |bytes| <= BLOCK_SIZE
    ensures OthersKept(v, WriteChunk(v, i, l, off, bytes).0, i)
  {
    hide MapBlock, OthersKept;
    var db := GetBlock(v, i, l);
    GetBlockCases(v, i, l);
    if db == NULL_BLOCK {
      MapBlockSound(v, i, l);
      MapPatchOthers(v, MapBlock(v, i, l).0, i, l, MapBlock(v, i, l).1, off, bytes);
    } else {
      PatchOthers(v, i, l, db, off, bytes);
    }
  }

  lemma {:induction false} WriteLoopOthers(v: Vol, i: nat, offset: nat, data: seq<byte>, total: nat)
    requires Inv(v) && Allocated(v, i) && total <= |data|
    ensures OthersKept(v, WriteLoop(v, i, offset, data, total).0, i)
    decreases |data| - total
  {
    hide WriteChunk, Inv, Live, Val;
    if total < |data| {
      var pos := offset + total;
      var can := Can(pos, |data| - total);
      ChunkSound(v, i, Logical(pos), pos % BLOCK_SIZE, data[total..total + can]);
      ChunkOthers(v, i, Logical(pos), pos % BLOCK_SIZE, data[total..total + can]);
      var (w, ok) := WriteChunk(v, i, Logical(pos), pos % BLOCK_SIZE, data[total..total + can]);
      if ok {
        hide OthersKept, Logical;
        WriteLoopOthers(w, i, offset, data, total + can);
        OthersKeptTrans(v, w, WriteLoop(w, i, offset, data, total + can).0, i);
      }
    } else {
      OthersKeptRefl(v, i);
    }
  }

  lemma OthersKeptRefl(v: Vol, i: nat)
    requires Inv(v)
    ensures OthersKept(v, v, i)
  {
  }

  lemma OthersKeepDir(v: Vol, w: Vol, i: nat, d: nat)
    requires Inv(v) && Inv(w) && OthersKept(v, w, i) && d != i && DirReady(v, d) && w.inodes[d] == v.inodes[d]
    ensures DirReady(w, d) && LoadDir(w, d) == LoadDir(v, d)
  {
    hide LoadDir;
    forall l: uint32 | l < DIR_BLOCKS
      ensures GetBlock(w, d, l) == GetBlock(v, d, l)
      ensures forall o: nat {:trigger Cell(w, d, l, o)} :: o < BLOCK_SIZE ==> Cell(w, d, l, o) == Cell(v, d, l, o)
    {
      assert Val(v, Direct(d, l)) == GetBlock(v, d, l) && Live(v, Direct(d, l));
    }
    hide GetBlock, Cell;
    KeepDir(v, w, d);
  }

  /** A write to a file keeps the whole invariant, wherever it writes and however it ends. */
  lemma WriteKeeps(v: Vol, i: nat, data: seq<byte>, offset: nat)
    requires FsInv(v) && Allocated(v, i) && !IsDir(v, i) && offset + |data| < TWO_64
    ensures var (w, r) := WriteFile(v, i, data, offset);
            && FsInv(w) && Grows(v, w, i) && (r == |data| || r == -1) && (r >= 0 ==> Leaked(w) == Leaked(v))
  {
    WriteFileSound(v, i, data, offset);
    WriteLoopOthers(v, i, offset, data, 0);
    var (w, r) := WriteFile(v, i, data, offset);
    WriteFileOthers(v, i, data, offset);
    hide WriteFile, WriteLoop, LoadDir, Inv, Tree, Live, Val, DirReady, Leaked;
    forall d: nat | IsDir(v, d)
      ensures DirReady(w, d) && LoadDir(w, d) == LoadDir(v, d)
    {
      TreeDir(v, d);
      OthersKeepDir(v, w, i, d);
    }
    SameTree(v, w);
  }

  lemma WriteFileOthers(v: Vol, i: nat, data: seq<byte>, offset: nat)
    requires Inv(v) && Allocated(v, i) && offset + |data| < TWO_64
    ensures OthersKept(v, WriteFile(v, i, data, offset).0, i)
  {
    WriteLoopOthers(v, i, offset, data, 0);
    WriteLoopSound(v, i, offset, data, 0);
    var (w, ok) := WriteLoop(v, i, offset, data, 0);
    hide WriteLoop;
    if ok {
      var x := GrowSize(w, i, offset + |data|);
      forall j: nat, k: nat | j != i && Live(v, Direct(j, k))
        ensures Val(x, Direct(j, k)) == Val(v, Direct(j, k)) < TOTAL_BLOCKS && x.disk[Val(v, Direct(j, k))] == v.disk[Val(v, Direct(j, k))]
      {
        assert Val(w, Direct(j, k)) == Val(v, Direct(j, k));
      }
    }
  }
}
