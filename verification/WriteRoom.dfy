/** Exactly when idkfs_write succeeds, wherever it starts and with either fill. */
module WriteRoom {
  import opened Machine
  import opened Bitmap
  import opened Volume
  import opened FileIO

  // ----- Writes at and beyond 2^44 -----

  lemma ShiftedPos(pos: nat, q: nat)
    ensures Logical(pos + q * ADDRESSABLE) == Logical(pos) && (pos + q * ADDRESSABLE) % BLOCK_SIZE == pos % BLOCK_SIZE
  {
    assert (pos + q * ADDRESSABLE) / BLOCK_SIZE == pos / BLOCK_SIZE + q * TWO_32;
  }

  lemma {:induction false} WriteLoopShifts(v: Vol, i: nat, offset: nat, q: nat, data: seq<byte>, total: nat)
    requires i < MAX_INODES && total <= |data|
    ensures WriteLoop(v, i, offset + q * ADDRESSABLE, data, total) == WriteLoop(v, i, offset, data, total)
    decreases |data| - total
  {
    hide WriteChunk, Logical;
    if total < |data| {
      ShiftedPos(offset + total, q);
      var pos := offset + total;
      var can := Can(pos, |data| - total);
      assert Can(pos + q * ADDRESSABLE, |data| - total) == can;
      assert offset + q * ADDRESSABLE + total == pos + q * ADDRESSABLE;
      var (w, ok) := WriteChunk(v, i, Logical(pos), pos % BLOCK_SIZE, data[total..total + can]);
      if ok {
        WriteLoopShifts(w, i, offset, q, data, total + can);
      }
    }
  }

  /** A write 2^44 bytes further on succeeds in the same cases and leaves the same volume
      behind, but for the size it records. */
  lemma WriteWraps(v: Vol, i: nat, data: seq<byte>, offset: nat)
    requires i < MAX_INODES && offset + ADDRESSABLE + |data| < TWO_64
    ensures var (w, r) := WriteFile(v, i, data, offset);
            var (x, s) := WriteFile(v, i, data, offset + ADDRESSABLE);
            s == r && x == w.(inodes := w.inodes[i := w.inodes[i].(size := x.inodes[i].size)])
  {
    hide WriteLoop;
    WriteLoopShifts(v, i, offset, 1, data, 0);
  }

  lemma WriteLoopLow(v: Vol, i: nat, offset: nat, data: seq<byte>)
    requires i < MAX_INODES
    ensures WriteLoop(v, i, offset, data, 0) == WriteLoop(v, i, offset % ADDRESSABLE, data, 0)
  {
    hide WriteLoop;
    WriteLoopShifts(v, i, offset % ADDRESSABLE, offset / ADDRESSABLE, data, 0);
    assert offset % ADDRESSABLE + offset / ADDRESSABLE * ADDRESSABLE == offset;
  }

  lemma LowPos(offset: nat)
    ensures var pos := offset % ADDRESSABLE; Logical(pos) == Logical(offset) && pos % BLOCK_SIZE == offset % BLOCK_SIZE
  {
    var q := offset / ADDRESSABLE;
    assert offset == q * TWO_32 * BLOCK_SIZE + offset % ADDRESSABLE;
    assert offset / BLOCK_SIZE == q * TWO_32 + (offset % ADDRESSABLE) / BLOCK_SIZE;
  }

  /** The blocks of one write are numbered on from that of its first byte. */
  lemma LogicalIn(offset: nat, k: nat)
    requires offset % ADDRESSABLE + k < ADDRESSABLE
    ensures Logical(offset + k) == (offset % ADDRESSABLE + k) / BLOCK_SIZE
    ensures (offset + k) % BLOCK_SIZE == (offset % ADDRESSABLE + k) % BLOCK_SIZE
  {
    LowPos(offset + k);
    assert (offset + k) % ADDRESSABLE == offset % ADDRESSABLE + k by {
      assert offset + k == (offset / ADDRESSABLE) * ADDRESSABLE + (offset % ADDRESSABLE + k);
    }
    LogicalBelow(offset % ADDRESSABLE + k);
  }

  // ----- Out of reach -----

  /** A write that comes to a block past the reach of the pointer block fails there. */
  lemma {:induction false} LoopOutOfReach(v: Vol, i: nat, offset: nat, data: seq<byte>, total: nat, k: nat)
    requires Inv(v) && Allocated(v, i) && total <= k < |data| && Logical(offset + k) >= MAX_LOGICAL
    ensures !WriteLoop(v, i, offset, data, total).1
    decreases |data| - total
  {
    hide WriteChunk, Inv, Live, Val, Leaked, FreeSet, Logical;
    var at := offset + total;
    var can := Can(at, |data| - total);
    var bytes := data[total..total + can];
    ChunkSound(v, i, Logical(at), at % BLOCK_SIZE, bytes);
    if k < total + can {
      InOneBlock(at, can, k - total);
    } else {
      var (w, ok) := WriteChunk(v, i, Logical(at), at % BLOCK_SIZE, bytes);
      if ok {
        LoopOutOfReach(w, i, offset, data, total + can, k);
      }
    }
  }

  lemma InOneBlock(pos: nat, can: nat, k: nat)
    requires k < can && pos % BLOCK_SIZE + can <= BLOCK_SIZE
    ensures Logical(pos + k) == Logical(pos) && (pos + k) % BLOCK_SIZE == pos % BLOCK_SIZE + k
  {
    assert (pos + k) / BLOCK_SIZE == pos / BLOCK_SIZE && (pos + k) % BLOCK_SIZE == pos % BLOCK_SIZE + k;
  }

  /** A write that can succeed touches only blocks in reach of the pointer block. */
  lemma WriteReaches(v: Vol, i: nat, data: seq<byte>, offset: nat, k: nat)
    requires Inv(v) && Allocated(v, i) && k < |data| && WriteLoop(v, i, offset, data, 0).1
    ensures Logical(offset + k) < MAX_LOGICAL
  {
    hide WriteLoop, Inv, Logical;
    if Logical(offset + k) >= MAX_LOGICAL {
      LoopOutOfReach(v, i, offset, data, 0, k);
    }
  }

  /** So it starts and ends within the reach, counted modulo 2^44. */
  lemma ReachIn(v: Vol, i: nat, data: seq<byte>, offset: nat)
    requires Inv(v) && Allocated(v, i) && |data| > 0 && WriteLoop(v, i, offset, data, 0).1
    ensures offset % ADDRESSABLE + |data| <= MAX_LOGICAL * BLOCK_SIZE
  {
    hide WriteLoop, Inv, Logical;
    var low := offset % ADDRESSABLE;
    if low + |data| > ADDRESSABLE {
      LogicalIn(offset, ADDRESSABLE - 1 - low);
      WriteReaches(v, i, data, offset, ADDRESSABLE - 1 - low);
      assert false;
    }
    LogicalIn(offset, |data| - 1);
    WriteReaches(v, i, data, offset, |data| - 1);
  }

  // ----- Blocks taken -----

  /** Blocks a write of logical blocks lo..hi-1 takes. Every entry of a zero-filled pointer
      block reads as mapped, so past the direct blocks such a write takes either nothing or,
      the first time, the pointer block and one data block. */
  ghost function Wanted(v: Vol, i: nat, lo: nat, hi: nat): nat
    requires i < MAX_INODES
  {
    Missing(v, i, lo, Min(hi, if v.fill == 0 then DIRECT_BLOCKS else MAX_LOGICAL))
    + if lo < hi && hi > DIRECT_BLOCKS && !Live(v, Indirect(i)) then (if v.fill == 0 then 2 else 1) else 0
  }

  /** The range is within reach and the blocks are there. */
  ghost predicate RoomFor(v: Vol, i: nat, lo: nat, hi: nat)
    requires i < MAX_INODES
  {
    hi <= MAX_LOGICAL && Wanted(v, i, lo, hi) <= |FreeSet(v.bits)|
  }

  /** The range of a write, its start taken modulo 2^44, is within reach and the blocks are
      there. */
  ghost predicate Room(v: Vol, i: nat, offset: nat, n: nat)
    requires i < MAX_INODES
  {
    var low := offset % ADDRESSABLE;
    n == 0 || RoomFor(v, i, low / BLOCK_SIZE, EndBlock(low, n))
  }

  lemma DirectChunkFits(v: Vol, w: Vol, i: nat, l: uint32, off: nat, bytes: seq<byte>, hi: nat)
    requires Inv(v) && Allocated(v, i) && v.fill == 0 && l < hi && l < DIRECT_BLOCKS
    requires ChunkOutcome(v, i, l, off, bytes, w, true)
    ensures Wanted(v, i, l, hi) == Cost(v, i, l) + Wanted(w, i, l + 1, hi)
  {
    hide ChunkRefines, Val, GetBlock, Cell, FreeSet;
    CellMapped(v, i, l);
    RefinesMissing(v, w, i, l, off, bytes, Min(hi, DIRECT_BLOCKS));
  }

  lemma EntryCases(v: Vol, i: nat, l: uint32)
    requires Inv(v) && Allocated(v, i) && v.fill == 0 && DIRECT_BLOCKS <= l
    ensures GetBlock(v, i, l) != NULL_BLOCK <==> l < MAX_LOGICAL && Live(v, Indirect(i))
  {
    GetBlockCases(v, i, l);
    if l < MAX_LOGICAL && Live(v, Indirect(i)) {
      assert Val(v, Entry(i, l - DIRECT_BLOCKS)) != NULL_BLOCK;
    }
  }

  lemma ZeroFilledChunkFits(v: Vol, w: Vol, ok: bool, i: nat, l: uint32, off: nat, bytes: seq<byte>, hi: nat)
    requires Inv(v) && Allocated(v, i) && v.fill == 0 && l < hi && ChunkOutcome(v, i, l, off, bytes, w, ok)
    ensures Inv(w) && Grows(v, w, i)
    ensures RoomFor(v, i, l, hi) <==> ok && (l + 1 == hi || RoomFor(w, i, l + 1, hi))
    ensures ok ==> Wanted(v, i, l, hi) == Cost(v, i, l) + Wanted(w, i, l + 1, hi)
    ensures ok ==> |FreeSet(w.bits)| == |FreeSet(v.bits)| - Cost(v, i, l)
  {
    hide ChunkRefines, Val, GetBlock, Cell, FreeSet, Sound, BlocksCounted, Missing, Live;
    NothingWanted(w, i, hi);
    if l >= DIRECT_BLOCKS {
      EntryCases(v, i, l);
      NothingMissing(v, i, l, DIRECT_BLOCKS);
      NothingMissing(w, i, l + 1, DIRECT_BLOCKS);
    } else if ok {
      DirectChunkFits(v, w, i, l, off, bytes, hi);
    } else {
      CellMapped(v, i, l);
      MissingSome(v, i, l, l, Min(hi, DIRECT_BLOCKS));
    }
  }

  lemma NothingMissing(v: Vol, i: nat, lo: nat, hi: nat)
    requires i < MAX_INODES && hi <= lo && hi <= TWO_32
    ensures Missing(v, i, lo, hi) == 0
  {
  }

  lemma {:induction false} ZeroFilledLoopFits(v: Vol, i: nat, offset: nat, data: seq<byte>, total: nat)
    requires Inv(v) && Allocated(v, i) && v.fill == 0 && total < |data| && offset + |data| <= ADDRESSABLE
    requires total == 0 || (offset + total) % BLOCK_SIZE == 0
    ensures WriteLoop(v, i, offset, data, total).1
       <==> RoomFor(v, i, (offset + total) / BLOCK_SIZE, EndBlock(offset, |data|))
    ensures WriteLoop(v, i, offset, data, total).1 ==>
              |FreeSet(WriteLoop(v, i, offset, data, total).0.bits)|
              == |FreeSet(v.bits)| - Wanted(v, i, (offset + total) / BLOCK_SIZE, EndBlock(offset, |data|))
    decreases |data| - total
  {
    hide WriteChunk, Inv, RoomFor, ChunkOutcome, Live, Val, Logical, FreeSet, Wanted;
    var pos, hi := offset + total, EndBlock(offset, |data|);
    var l, can := pos / BLOCK_SIZE, Can(pos, |data| - total);
    LogicalBelow(pos);
    assert l < hi;
    assert total + can == |data| || (pos + can) % BLOCK_SIZE == 0;
    var (w, ok) := WriteChunk(v, i, l, pos % BLOCK_SIZE, data[total..total + can]);
    ChunkHasOutcome(v, i, l, pos % BLOCK_SIZE, data[total..total + can]);
    ZeroFilledChunkFits(v, w, ok, i, l, pos % BLOCK_SIZE, data[total..total + can], hi);
    if total + can < |data| {
      assert (pos + can) / BLOCK_SIZE == l + 1;
      if ok {
        ZeroFilledLoopFits(w, i, offset, data, total + can);
      }
    } else {
      assert hi == l + 1;
      NothingWanted(w, i, hi);
    }
  }

  lemma NothingWanted(v: Vol, i: nat, hi: nat)
    requires i < MAX_INODES
    ensures Wanted(v, i, hi, hi) == 0
  {
  }

  // ----- When a write succeeds -----

  lemma FilledFits(v: Vol, i: nat, lo: nat, hi: nat)
    requires i < MAX_INODES && v.fill != 0 && lo < hi <= TWO_32
    ensures RoomFor(v, i, lo, hi) <==> Fits(v, i, lo, hi)
    ensures RoomFor(v, i, lo, hi) ==> Wanted(v, i, lo, hi) == Needed(v, i, lo, hi)
  {
    hide Missing, FreeSet;
  }

  lemma LowLoopSucceedsIff(v: Vol, i: nat, data: seq<byte>, low: nat)
    requires Inv(v) && Allocated(v, i) && |data| > 0 && low < ADDRESSABLE
    ensures WriteLoop(v, i, low, data, 0).1 <==> Room(v, i, low, |data|)
    ensures WriteLoop(v, i, low, data, 0).1 ==>
              |FreeSet(WriteLoop(v, i, low, data, 0).0.bits)|
              == |FreeSet(v.bits)| - Wanted(v, i, low / BLOCK_SIZE, EndBlock(low, |data|))
  {
    hide WriteLoop, Inv, Needed, Wanted, Fits, FreeSet, Live, Val;
    assert low % ADDRESSABLE == low;
    if low + |data| > ADDRESSABLE {
      if WriteLoop(v, i, low, data, 0).1 {
        ReachIn(v, i, data, low);
      }
    } else if v.fill == 0 {
      ZeroFilledLoopFits(v, i, low, data, 0);
    } else {
      FilledFits(v, i, low / BLOCK_SIZE, EndBlock(low, |data|));
      WriteLoopFits(v, i, low, data, 0);
    }
  }

  /** A write succeeds if and only if its range is within reach of the pointer block and the
      blocks it lacks are there to be had, and takes exactly those: for every offset, content
      and fill. */
  lemma WriteSucceedsIff(v: Vol, i: nat, data: seq<byte>, offset: nat)
    requires Inv(v) && Allocated(v, i) && offset + |data| < TWO_64
    ensures WriteFile(v, i, data, offset).1 >= 0 <==> Room(v, i, offset, |data|)
    ensures WriteFile(v, i, data, offset).1 >= 0 && |data| > 0 ==>
              var low := offset % ADDRESSABLE;
              |FreeSet(WriteFile(v, i, data, offset).0.bits)|
              == |FreeSet(v.bits)| - Wanted(v, i, low / BLOCK_SIZE, EndBlock(low, |data|))
  {
    if |data| == 0 {
      EmptyWrite(v, i, offset, data);
    } else {
      hide WriteLoop, Inv, Wanted, RoomFor, FreeSet;
      var low := offset % ADDRESSABLE;
      assert low % ADDRESSABLE == low;
      WriteLoopLow(v, i, offset, data);
      LowLoopSucceedsIff(v, i, data, low);
    }
  }
}
