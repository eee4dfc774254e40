/** What idkfs_core.c:213 costs. A fresh pointer block is filled with 0 while "unmapped" is
    compared with NULL_BLOCK, so every entry not yet used reads as "mapped to block 0". Here
    each property that fails is given with the exact condition under which it holds. */
module ZeroFill {
  import opened Machine
  import opened Bitmap
  import opened Volume
  import opened Ownership
  import opened FileIO
  import opened Release
  import opened Directory
  import opened Namespace
  import opened Operations

  /** No two logical blocks, of one file or of two, resolve to the same disk block. */
  ghost predicate NoSharing(v: Vol) {
    forall i: nat, j: nat, l: uint32, m: uint32 {:trigger GetBlock(v, i, l), GetBlock(v, j, m)} ::
      Allocated(v, i) && Allocated(v, j) && GetBlock(v, i, l) == GetBlock(v, j, m) != NULL_BLOCK ==> i == j && l == m
  }

  lemma NoSharingIff(v: Vol)
    requires Inv(v)
    ensures NoSharing(v) <==> v.fill != 0 || forall i: nat :: Allocated(v, i) ==> v.inodes[i].indirect1 == NULL_BLOCK
  {
    if v.fill != 0 || forall i: nat :: Allocated(v, i) ==> v.inodes[i].indirect1 == NULL_BLOCK {
      forall i: nat, j: nat, l: uint32, m: uint32
        | Allocated(v, i) && Allocated(v, j) && GetBlock(v, i, l) == GetBlock(v, j, m) != NULL_BLOCK
        ensures i == j && l == m
      {
        GetBlockCases(v, i, l);
        GetBlockCases(v, j, m);
        assert DataSlot(i, l) == DataSlot(j, m);
      }
    } else {
      var i: nat :| Allocated(v, i) && v.inodes[i].indirect1 != NULL_BLOCK;
      assert Val(v, Indirect(i)) != NULL_BLOCK && Live(v, Indirect(i));
      var q, r := TwoHoles(v, i);
      assert GetBlock(v, i, DIRECT_BLOCKS + q) == 0 == GetBlock(v, i, DIRECT_BLOCKS + r);
    }
  }

  /** A write of n bytes into one block, tried with every content. */
  ghost predicate AlwaysRefines(v: Vol, i: nat, l: uint32, off: nat, n: nat)
    requires i < MAX_INODES && off + n <= BLOCK_SIZE
  {
    forall bytes: seq<byte> {:trigger WriteChunk(v, i, l, off, bytes)} :: |bytes| == n && WriteChunk(v, i, l, off, bytes).1 ==>
      ChunkRefines(v, WriteChunk(v, i, l, off, bytes).0, i, l, off, bytes)
  }

  lemma HoleShared(v: Vol, i: nat, l: uint32, off: nat, n: nat)
    requires Inv(v) && Allocated(v, i) && 0 < n && off + n <= BLOCK_SIZE
    requires !Clean(v, i, l) && GetBlock(v, i, l) != NULL_BLOCK
    ensures !AlwaysRefines(v, i, l, off, n)
  {
    GetBlockCases(v, i, l);
    assert Live(v, Indirect(i)) by {
      assert Val(v, Indirect(i)) != NULL_BLOCK;
    }
    var q, r := TwoHoles(v, i);
    var m: uint32 := DIRECT_BLOCKS + if q == l - DIRECT_BLOCKS then r else q;
    assert GetBlock(v, i, m) == 0 == GetBlock(v, i, l);
    var x: byte := if v.disk[0][off] == 0 then 1 else 0;
    var bytes: seq<byte> := seq(n, _ => x);
    var (w, ok) := WriteChunk(v, i, l, off, bytes);
    assert w == Patch(v, 0, off, bytes) && ok;
    PatchDataInv(v, DataSlot(i, l), 0, off, bytes, i);
    SameGetBlock(v, w, i, m);
    hide GetBlock, Val, Live;
    assert Cell(w, i, m, off) == Some(x) && Cell(v, i, m, off) == Some(v.disk[0][off]);
    assert Cell(w, i, m, off) != CellAfter(v, i, l, off, bytes, i, m, off);
  }

  lemma HolesMapped(w: Vol, i: nat, m: uint32)
    requires Inv(w) && w.fill == 0 && Live(w, Indirect(i)) && DIRECT_BLOCKS <= m < MAX_LOGICAL && i < MAX_INODES
    ensures Cell(w, i, m, 0) != None
  {
    assert Val(w, Entry(i, m - DIRECT_BLOCKS)) != NULL_BLOCK;
    GetBlockCases(w, i, m);
  }

  lemma ExposedBy(v: Vol, w: Vol, i: nat, l: uint32, off: nat, bytes: seq<byte>)
    requires Inv(v) && Allocated(v, i) && !Clean(v, i, l) && GetBlock(v, i, l) == NULL_BLOCK
    requires l < MAX_LOGICAL && ChunkKeeps(v, i, l, w, true)
    ensures !ChunkRefines(v, w, i, l, off, bytes)
  {
    GetBlockCases(v, i, l);
    var m: uint32 := if l == DIRECT_BLOCKS then DIRECT_BLOCKS + 1 else DIRECT_BLOCKS;
    assert Val(v, Indirect(i)) == NULL_BLOCK;
    assert Cell(v, i, m, 0) == None;
    HolesMapped(w, i, m);
    assert Cell(w, i, m, 0) != CellAfter(v, i, l, off, bytes, i, m, 0);
  }

  lemma FirstIndirectExposes(v: Vol, i: nat, l: uint32, off: nat, n: nat)
    requires Inv(v) && Allocated(v, i) && off + n <= BLOCK_SIZE
    requires !Clean(v, i, l) && GetBlock(v, i, l) == NULL_BLOCK && MapRoom(v, i, l)
    ensures !AlwaysRefines(v, i, l, off, n)
  {
    hide WriteChunk;
    var bytes: seq<byte> := seq(n, _ => 0);
    ChunkSound(v, i, l, off, bytes);
    ExposedBy(v, WriteChunk(v, i, l, off, bytes).0, i, l, off, bytes);
  }

  /** One chunk that can be written at all refines the byte-map update, for every content,
      if and only if it stays off the unused entries of a zero-filled pointer block. */
  lemma ChunkRefinesIff(v: Vol, i: nat, l: uint32, off: nat, n: nat)
    requires Inv(v) && Allocated(v, i) && 0 < n && off + n <= BLOCK_SIZE
    requires GetBlock(v, i, l) != NULL_BLOCK || MapRoom(v, i, l)
    ensures AlwaysRefines(v, i, l, off, n) <==> Clean(v, i, l)
  {
    if Clean(v, i, l) {
      forall bytes: seq<byte> | |bytes| == n && WriteChunk(v, i, l, off, bytes).1
        ensures ChunkRefines(v, WriteChunk(v, i, l, off, bytes).0, i, l, off, bytes)
      {
        ChunkCells(v, i, l, off, bytes);
      }
    } else if GetBlock(v, i, l) != NULL_BLOCK {
      HoleShared(v, i, l, off, n);
    } else {
      FirstIndirectExposes(v, i, l, off, n);
    }
  }

  /** Block numbers are cut to 32 bits: the byte 2^44 further on is the same byte. */
  lemma OffsetsWrap(v: Vol, i: nat, pos: nat)
    requires i < MAX_INODES
    ensures FileByte(v, i, pos + ADDRESSABLE) == FileByte(v, i, pos)
  {
    assert (pos + ADDRESSABLE) / BLOCK_SIZE == pos / BLOCK_SIZE + TWO_32;
  }

  // ----- Unlink, end to end -----

  /** The counter has run ahead of the bitmap. */
  ghost predicate Overcounted(v: Vol) {
    v.freeBlocks > |FreeSet(v.bits)|
  }

  lemma TakeBlockOvercounted(v: Vol, f: byte)
    requires Overcounted(v)
    ensures Overcounted(TakeBlock(v, f).0)
  {
    hide FreeSet, SetBit, TestBit;
    var nb := Choose(v.bits, DATA_START);
    if nb >= 0 {
      FreeSetTests(v.bits);
      FreeSetOps(v.bits, nb);
      assert nb in FreeSet(v.bits);
      assert FreeSet(TakeBlock(v, f).0.bits) == FreeSet(v.bits) - {nb};
    }
  }

  lemma ChunkOvercounted(v: Vol, i: nat, l: uint32, off: nat, bytes: seq<byte>)
    requires Overcounted(v) && i < MAX_INODES && off + |bytes| <= BLOCK_SIZE
    ensures Overcounted(WriteChunk(v, i, l, off, bytes).0)
  {
    hide FreeSet, TakeBlock, GetBlock;
    TakeBlockOvercounted(v, 0);
    var t := TakeBlock(v, 0).0;
    TakeBlockOvercounted(t, t.fill);
  }

  /** No write ever brings the count back, whatever state the volume is in. */
  lemma {:induction false} WriteLoopOvercounted(v: Vol, i: nat, offset: nat, data: seq<byte>, total: nat)
    requires Overcounted(v) && i < MAX_INODES && total <= |data|
    ensures Overcounted(WriteLoop(v, i, offset, data, total).0)
    decreases |data| - total
  {
    hide WriteChunk, Overcounted;
    if total < |data| {
      var pos := offset + total;
      var can := Can(pos, |data| - total);
      ChunkOvercounted(v, i, Logical(pos), pos % BLOCK_SIZE, data[total..total + can]);
      var (w, ok) := WriteChunk(v, i, Logical(pos), pos % BLOCK_SIZE, data[total..total + can]);
      if ok {
        WriteLoopOvercounted(w, i, offset, data, total + can);
      }
    }
  }

  lemma DirRemoveOvercounted(v: Vol, d: nat, name: CString)
    requires Overcounted(v) && d < MAX_INODES
    ensures Overcounted(DirRemove(v, d, name).0)
  {
    hide LoadDir, FindEntry, WriteLoop, DirBytes, FreeSet;
    var dir := LoadDir(v, d);
    if dir.count <= MAX_DIRENTS && FindEntry(dir, name, 0) < dir.count {
      WriteLoopOvercounted(v, d, 0, DirBytes(RemoveAt(dir, FindEntry(dir, name, 0))), 0);
    }
  }

  lemma UnlinkOvercounts(v: Vol, p: nat, name: CString, i: nat)
    requires Inv(v) && Allocated(v, i) && v.fill == 0 && v.inodes[i].indirect1 != NULL_BLOCK
    requires v.inodes[i].ftype != FT_DIR && p < MAX_INODES
    ensures Overcounted(Unlink(v, p, name, i).0)
  {
    ReleaseOvercounts(v, i);
    hide ReleaseBlocks, DirRemove, FreeSet;
    DirRemoveOvercounted(ReleaseBlocks(v, i), p, name);
  }

  lemma ReleaseOvercounts(v: Vol, i: nat)
    requires Inv(v) && Allocated(v, i) && v.fill == 0 && v.inodes[i].indirect1 != NULL_BLOCK
    ensures Overcounted(ReleaseBlocks(v, i))
  {
    DropDirectShrinks(v, i, 0);
    var d := DropDirect(v, i, 0);
    assert Val(d, Indirect(i)) == v.inodes[i].indirect1;
    assert Live(d, Indirect(i));
    ZeroFillOvercounts(d, i);
  }

  /** Unlinking a file keeps free_blocks equal to the number of clear bits if and only if
      it has no zero-filled pointer block. */
  lemma UnlinkConservesIff(v: Vol, p: nat, name: CString, i: nat)
    requires FsInv(v) && IsDir(v, p) && DirLookup(v, p, name) == i && i < MAX_INODES && v.inodes[i].ftype != FT_DIR
    ensures Conserved(Unlink(v, p, name, i).0) <==> v.fill != 0 || v.inodes[i].indirect1 == NULL_BLOCK
  {
    hide LoadDir, Unlink, DirLookup, FindEntry, FreeSet;
    UnlinkKeeps(v, p, name, i);
    if v.fill == 0 && v.inodes[i].indirect1 != NULL_BLOCK {
      UnlinkOvercounts(v, p, name, i);
    }
  }
}
