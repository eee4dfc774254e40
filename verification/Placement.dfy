/** What a volume does whatever its bitmap says: reading, and writing blocks that are mapped
    already. After a release with the code's zero fill the bitmap and the count are wrong,
    and everything here still holds. */
module Placement {
  import opened Machine
  import opened Bitmap
  import opened Volume
  import opened FileIO
  import opened Release
  import opened Directory

  function Rebit(v: Vol, bits: seq<bv8>, n: uint32): Vol
    requires 8 * |bits| == TOTAL_BLOCKS
  {
    v.(bits := bits, freeBlocks := n)
  }

  /** Sound under some bitmap and count, if not under its own. */
  ghost predicate Placed(v: Vol) {
    exists bits: seq<bv8>, n: uint32 :: 8 * |bits| == TOTAL_BLOCKS && Inv(Rebit(v, bits, n))
  }

  lemma InvPlaced(v: Vol)
    requires Inv(v)
    ensures Placed(v)
  {
    hide Inv;
    assert Rebit(v, v.bits, v.freeBlocks) == v;
  }

  lemma RebitBlocks(v: Vol, bits: seq<bv8>, n: uint32, i: nat)
    requires 8 * |bits| == TOTAL_BLOCKS && i < MAX_INODES
    ensures forall l: uint32 :: GetBlock(Rebit(v, bits, n), i, l) == GetBlock(v, i, l)
    ensures forall pos: nat :: FileByte(Rebit(v, bits, n), i, pos) == FileByte(v, i, pos)
  {
  }

  lemma RebitDir(v: Vol, bits: seq<bv8>, n: uint32, d: nat)
    requires 8 * |bits| == TOTAL_BLOCKS && d < MAX_INODES
    ensures DirReady(Rebit(v, bits, n), d) <==> DirReady(v, d)
    ensures LoadDir(Rebit(v, bits, n), d) == LoadDir(v, d)
  {
    RebitBlocks(v, bits, n, d);
    hide FileByte, LoadDir, GetBlock;
    SameBytesSameDir(v, Rebit(v, bits, n), d);
  }

  // ----- Clearing an inode -----

  lemma ClearedVals(v: Vol, w: Vol, i: nat, s: Slot)
    requires i < MAX_INODES && Cleared(v, w, i)
    ensures Val(w, s) == if s.ino == i then NULL_BLOCK else Val(v, s)
  {
    match s case Direct(_, _) => case Indirect(_) => case Entry(_, _) =>
  }

  /** Once inode i has no pointers, the bitmap of before is still a sound one. */
  lemma ClearedPlaced(v: Vol, w: Vol, i: nat)
    requires Inv(v) && i < MAX_INODES && Cleared(v, w, i)
    ensures Inv(Rebit(w, v.bits, v.freeBlocks)) && Placed(w)
  {
    var u := Rebit(w, v.bits, v.freeBlocks);
    forall s
      ensures Val(u, s) == if s.ino == i then NULL_BLOCK else Val(v, s)
    {
      ClearedVals(v, u, i, s);
    }
    hide Val;
    ClearedSound(v, u, i);
    hide Sound;
    forall j: nat | Allocated(u, j)
      ensures u.inodes[j].blockCount == |Mapped(u, j)|
    {
      if j == i {
        assert Mapped(u, j) == {};
      } else {
        assert Mapped(u, j) == Mapped(v, j);
      }
    }
  }

  lemma ClearedSound(v: Vol, u: Vol, i: nat)
    requires Sound(v) && u.bits == v.bits && u.freeBlocks == v.freeBlocks && u.fill == v.fill
    requires forall s :: Val(u, s) == if s.ino == i then NULL_BLOCK else Val(v, s)
    ensures Sound(u)
  {
    hide Val, FreeSet, TestBit;
    assert forall s {:trigger Live(u, s)} {:trigger Live(v, s)} :: Live(u, s) <==> Live(v, s) && s.ino != i;
  }

  // ----- Overwriting mapped blocks -----

  ghost predicate MappedRange(v: Vol, i: nat, offset: nat, n: nat)
    requires i < MAX_INODES
  {
    && offset + n <= ADDRESSABLE
    && forall l: uint32 {:trigger GetBlock(v, i, l)} ::
         offset / BLOCK_SIZE <= l < EndBlock(offset, n) ==> GetBlock(v, i, l) != NULL_BLOCK
  }

  lemma ChunkRebit(v: Vol, bits: seq<bv8>, n: uint32, i: nat, l: uint32, off: nat, bytes: seq<byte>)
    requires 8 * |bits| == TOTAL_BLOCKS && i < MAX_INODES && off + |bytes| <= BLOCK_SIZE && GetBlock(v, i, l) != NULL_BLOCK
    ensures WriteChunk(Rebit(v, bits, n), i, l, off, bytes) == (Rebit(WriteChunk(v, i, l, off, bytes).0, bits, n), true)
    ensures WriteChunk(v, i, l, off, bytes).1
  {
    RebitBlocks(v, bits, n, i);
    hide GetBlock;
  }

  lemma {:induction false} WriteRebit(v: Vol, bits: seq<bv8>, n: uint32, i: nat, offset: nat, data: seq<byte>, total: nat)
    requires Inv(v) && Allocated(v, i) && total <= |data| && MappedRange(v, i, offset, |data|) && 8 * |bits| == TOTAL_BLOCKS
    ensures WriteLoop(v, i, offset, data, total).1
    ensures WriteLoop(Rebit(v, bits, n), i, offset, data, total) == (Rebit(WriteLoop(v, i, offset, data, total).0, bits, n), true)
    decreases |data| - total
  {
    hide WriteChunk, Inv, Val, GetBlock, Rebit;
    if total < |data| {
      var pos := offset + total;
      var can := Can(pos, |data| - total);
      var bytes := data[total..total + can];
      LogicalBelow(pos);
      assert GetBlock(v, i, Logical(pos)) != NULL_BLOCK;
      ChunkInPlace(v, i, Logical(pos), pos % BLOCK_SIZE, bytes);
      ChunkRebit(v, bits, n, i, Logical(pos), pos % BLOCK_SIZE, bytes);
      var (w, ok) := WriteChunk(v, i, Logical(pos), pos % BLOCK_SIZE, bytes);
      WriteRebit(w, bits, n, i, offset, data, total + can);
    }
  }

  /** Storing into a directory that holds entries leaves the bitmap out of it altogether. */
  lemma StoreRebit(v: Vol, bits: seq<bv8>, n: uint32, d: nat, dir: Directory)
    requires Inv(v) && DirReady(v, d) && 8 * |bits| == TOTAL_BLOCKS
    ensures StoreDir(Rebit(v, bits, n), d, dir) == (Rebit(StoreDir(v, d, dir).0, bits, n), DIR_SIZE)
  {
    var b := DirBytes(dir);
    assert EndBlock(0, DIR_SIZE) == DIR_BLOCKS;
    hide DirBytes;
    WriteRebit(v, bits, n, d, 0, b, 0);
    WriteLoopInPlace(v, d, 0, b, 0);
    hide WriteLoop, Inv, GetBlock;
  }
}
