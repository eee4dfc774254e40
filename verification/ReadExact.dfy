/** Exactly when idkfs_read gives back what idkfs_write was given. */
module ReadExact {
  import opened Machine
  import opened Bitmap
  import opened Volume
  import opened Ownership
  import opened FileIO
  import opened WriteRoom
  import opened WriteExact

  /** Where on the disk byte pos of file i is. */
  function Place(v: Vol, i: nat, pos: nat): (uint32, nat)
    requires i < MAX_INODES
  {
    (GetBlock(v, i, Logical(pos)), pos % BLOCK_SIZE)
  }

  /** No byte of lo..hi-1 is in the place of byte pos. */
  ghost predicate Apart(v: Vol, i: nat, lo: nat, hi: nat, pos: nat)
    requires i < MAX_INODES
  {
    forall q: nat {:trigger Place(v, i, q)} :: lo <= q < hi ==> Place(v, i, q) != Place(v, i, pos)
  }

  ghost predicate InReach(lo: nat, hi: nat) {
    forall q: nat {:trigger Logical(q)} :: lo <= q < hi ==> Logical(q) < MAX_LOGICAL
  }

  lemma ChunkKeepsCell(v: Vol, i: nat, l: uint32, off: nat, bytes: seq<byte>, x: byte, m: uint32, o: nat)
    requires Inv(v) && Allocated(v, i) && off + |bytes| <= BLOCK_SIZE && o < BLOCK_SIZE
    requires WriteChunk(v, i, l, off, bytes).1 && Cell(v, i, m, o) == Some(x)
    requires var w := WriteChunk(v, i, l, off, bytes).0;
             GetBlock(w, i, l) != GetBlock(w, i, m) || o < off || off + |bytes| <= o
    ensures Cell(WriteChunk(v, i, l, off, bytes).0, i, m, o) == Some(x)
  {
    ChunkStays(v, i, l, off, bytes, m);
    if GetBlock(v, i, l) == NULL_BLOCK {
      MapBlockSound(v, i, l);
      var (w, nb) := MapBlock(v, i, l);
      MapDisk(v, w, i, m);
      MappedNow(v, i, l, off, bytes);
    } else {
      ChunkStays(v, i, l, off, bytes, l);
    }
  }

  /** A byte no later part of the write shares a place with is left alone. */
  lemma {:induction false} LoopKeepsAt(v: Vol, i: nat, offset: nat, data: seq<byte>, total: nat, x: byte, pos: nat)
    requires Inv(v) && Allocated(v, i) && total <= |data| && FileByte(v, i, pos) == Some(x)
    requires WriteLoop(v, i, offset, data, total).1
    requires Apart(WriteLoop(v, i, offset, data, total).0, i, offset + total, offset + |data|, pos)
    ensures FileByte(WriteLoop(v, i, offset, data, total).0, i, pos) == Some(x)
    decreases |data| - total
  {
    hide WriteChunk, Inv, Live, Val, Leaked, FreeSet, GetBlock, Logical, Cell, Apart;
    if total < |data| {
      var at := offset + total;
      var can := Can(at, |data| - total);
      var bytes := data[total..total + can];
      ChunkSound(v, i, Logical(at), at % BLOCK_SIZE, bytes);
      var w := WriteChunk(v, i, Logical(at), at % BLOCK_SIZE, bytes).0;
      FirstChunkMisses(v, i, offset, data, total, x, pos);
      ApartLater(WriteLoop(v, i, offset, data, total).0, i, at, at + can, offset + |data|, pos);
      LoopKeepsAt(w, i, offset, data, total + can, x, pos);
    }
  }

  lemma ApartLater(v: Vol, i: nat, lo: nat, mid: nat, hi: nat, pos: nat)
    requires i < MAX_INODES && lo <= mid && Apart(v, i, lo, hi, pos)
    ensures Apart(v, i, mid, hi, pos)
  {
  }

  lemma FirstChunkMisses(v: Vol, i: nat, offset: nat, data: seq<byte>, total: nat, x: byte, pos: nat)
    requires Inv(v) && Allocated(v, i) && total < |data| && FileByte(v, i, pos) == Some(x)
    requires WriteLoop(v, i, offset, data, total).1
    requires Apart(WriteLoop(v, i, offset, data, total).0, i, offset + total, offset + |data|, pos)
    ensures var at := offset + total;
            var bytes := data[total..total + Can(at, |data| - total)];
            FileByte(WriteChunk(v, i, Logical(at), at % BLOCK_SIZE, bytes).0, i, pos) == Some(x)
  {
    hide WriteChunk, Inv, Live, Val, Leaked, FreeSet, GetBlock, Logical;
    var at := offset + total;
    var can := Can(at, |data| - total);
    var bytes := data[total..total + can];
    var l, off, m, o := Logical(at), at % BLOCK_SIZE, Logical(pos), pos % BLOCK_SIZE;
    ChunkSound(v, i, l, off, bytes);
    var w := WriteChunk(v, i, l, off, bytes).0;
    var z := WriteLoop(v, i, offset, data, total).0;
    assert z == WriteLoop(w, i, offset, data, total + can).0;
    ChunkSets(v, i, l, off, bytes, off);
    ChunkStays(v, i, l, off, bytes, m);
    LoopStays(w, i, offset, data, total + can, l);
    LoopStays(w, i, offset, data, total + can, m);
    if off <= o < off + can {
      SameBlockPlace(z, i, at, can, o - off);
      assert Place(z, i, at + (o - off)) != Place(z, i, pos);
    }
    ChunkKeepsCell(v, i, l, off, bytes, x, m, o);
  }

  lemma SameBlockPlace(v: Vol, i: nat, pos: nat, can: nat, k: nat)
    requires i < MAX_INODES && k < can && pos % BLOCK_SIZE + can <= BLOCK_SIZE
    ensures Place(v, i, pos + k) == (GetBlock(v, i, Logical(pos)), pos % BLOCK_SIZE + k)
  {
    hide GetBlock;
    InOneBlock(pos, can, k);
  }

  /** Of the bytes that share a place the last one written is the one that is there. */
  lemma {:induction false} LoopSetsAt(v: Vol, i: nat, offset: nat, data: seq<byte>, total: nat, k: nat)
    requires Inv(v) && Allocated(v, i) && total <= k < |data|
    requires WriteLoop(v, i, offset, data, total).1
    requires Apart(WriteLoop(v, i, offset, data, total).0, i, offset + k + 1, offset + |data|, offset + k)
    ensures FileByte(WriteLoop(v, i, offset, data, total).0, i, offset + k) == Some(data[k])
    decreases |data| - total
  {
    hide WriteChunk, Inv, Live, Val, Leaked, FreeSet, GetBlock, Logical, Cell, Apart;
    var at := offset + total;
    var can := Can(at, |data| - total);
    var bytes := data[total..total + can];
    ChunkSound(v, i, Logical(at), at % BLOCK_SIZE, bytes);
    var w := WriteChunk(v, i, Logical(at), at % BLOCK_SIZE, bytes).0;
    if k < total + can {
      RunInBlock(w, i, at, can, k - total);
      ChunkSets(v, i, Logical(at), at % BLOCK_SIZE, bytes, at % BLOCK_SIZE + (k - total));
      ApartLater(WriteLoop(v, i, offset, data, total).0, i, offset + k + 1, at + can, offset + |data|, offset + k);
      LoopKeepsAt(w, i, offset, data, total + can, data[k], offset + k);
    } else {
      LoopSetsAt(w, i, offset, data, total + can, k);
    }
  }

  // ----- Which blocks of the range end up sharing block 0 -----

  lemma ChunkEntries(v: Vol, i: nat, l: uint32, off: nat, bytes: seq<byte>, m: uint32)
    requires Inv(v) && Allocated(v, i) && off + |bytes| <= BLOCK_SIZE && v.fill == 0
    requires WriteChunk(v, i, l, off, bytes).1 && l < MAX_LOGICAL && DIRECT_BLOCKS <= m < MAX_LOGICAL
    ensures var w := WriteChunk(v, i, l, off, bytes).0;
            && (Live(w, DataSlot(i, m)) <==> Live(v, DataSlot(i, m)) || (!Live(v, Indirect(i)) && l == m))
            && (Live(w, Indirect(i)) <==> Live(v, Indirect(i)) || l >= DIRECT_BLOCKS)
  {
    var w := WriteChunk(v, i, l, off, bytes).0;
    ChunkSound(v, i, l, off, bytes);
    GetBlockCases(v, i, l);
    if GetBlock(v, i, l) != NULL_BLOCK {
      PatchDataInv(v, DataSlot(i, l), GetBlock(v, i, l), off, bytes, i);
    } else {
      MapBlockSound(v, i, l);
      var (x, nb) := MapBlock(v, i, l);
      CountedInv(v, x, i, l, nb);
      var y := CountBlock(x, i);
      assert Live(y, DataSlot(i, l)) && Val(y, DataSlot(i, l)) == nb;
      PatchDataInv(y, DataSlot(i, l), nb, off, bytes, i);
    }
  }

  lemma {:induction false} EntriesStay(v: Vol, i: nat, offset: nat, data: seq<byte>, total: nat, m: uint32)
    requires Inv(v) && Allocated(v, i) && total <= |data| && v.fill == 0 && Live(v, Indirect(i))
    requires WriteLoop(v, i, offset, data, total).1 && DIRECT_BLOCKS <= m < MAX_LOGICAL
    requires InReach(offset + total, offset + |data|)
    ensures Live(WriteLoop(v, i, offset, data, total).0, DataSlot(i, m)) <==> Live(v, DataSlot(i, m))
    decreases |data| - total
  {
    hide WriteChunk, Inv, Live, Val, Leaked, FreeSet, GetBlock, Logical;
    if total < |data| {
      var at := offset + total;
      var can := Can(at, |data| - total);
      var bytes := data[total..total + can];
      ChunkSound(v, i, Logical(at), at % BLOCK_SIZE, bytes);
      assert Logical(at) < MAX_LOGICAL;
      ChunkEntries(v, i, Logical(at), at % BLOCK_SIZE, bytes, m);
      EntriesStay(WriteChunk(v, i, Logical(at), at % BLOCK_SIZE, bytes).0, i, offset, data, total + can, m);
    }
  }

  lemma ReachAll(v: Vol, i: nat, data: seq<byte>, offset: nat)
    requires Inv(v) && Allocated(v, i) && WriteLoop(v, i, offset, data, 0).1
    ensures InReach(offset, offset + |data|)
  {
    hide WriteLoop, Inv, Logical;
    forall q: nat | offset <= q < offset + |data|
      ensures Logical(q) < MAX_LOGICAL
    {
      WriteReaches(v, i, data, offset, q - offset);
    }
  }

  lemma LoopStep(v: Vol, i: nat, offset: nat, data: seq<byte>, total: nat)
    requires Inv(v) && Allocated(v, i) && total < |data| && WriteLoop(v, i, offset, data, total).1
    ensures var at := offset + total;
            var can := Can(at, |data| - total);
            var (w, ok) := WriteChunk(v, i, Logical(at), at % BLOCK_SIZE, data[total..total + can]);
            ok && Inv(w) && Allocated(w, i) && w.fill == v.fill && WriteLoop(v, i, offset, data, total) == WriteLoop(w, i, offset, data, total + can)
  {
    hide WriteChunk, Inv, Live, Val, Leaked, FreeSet, GetBlock, Logical;
    var at := offset + total;
    ChunkSound(v, i, Logical(at), at % BLOCK_SIZE, data[total..total + Can(at, |data| - total)]);
  }

  lemma ReachLater(lo: nat, mid: nat, hi: nat)
    requires lo <= mid && InReach(lo, hi)
    ensures InReach(mid, hi) && (lo < hi ==> Logical(lo) < MAX_LOGICAL)
  {
    hide Logical;
  }

  /** The first entry block a write reaches without a pointer block becomes the one real
      entry; every other entry stays what it was. */
  lemma {:induction false} EntryFate(v: Vol, i: nat, offset: nat, data: seq<byte>, total: nat, m: uint32)
    requires Inv(v) && Allocated(v, i) && total < |data| && v.fill == 0
    requires WriteLoop(v, i, offset, data, total).1 && InReach(offset + total, offset + |data|)
    requires offset % ADDRESSABLE + |data| <= ADDRESSABLE && (total == 0 || (offset + total) % BLOCK_SIZE == 0)
    requires DIRECT_BLOCKS <= m < MAX_LOGICAL && Logical(offset + total) <= m <= Logical(offset + (|data| - 1))
    ensures Live(WriteLoop(v, i, offset, data, total).0, DataSlot(i, m)) <==>
            Live(v, DataSlot(i, m)) || (!Live(v, Indirect(i)) && (m == Logical(offset + total) || m == DIRECT_BLOCKS))
    decreases |data| - total
  {
    hide WriteChunk, WriteLoop, Inv, Live, Logical, InReach;
    var at := offset + total;
    var can := Can(at, |data| - total);
    var bytes := data[total..total + can];
    var l := Logical(at);
    ReachLater(at, at + can, offset + |data|);
    LoopStep(v, i, offset, data, total);
    ChunkEntries(v, i, l, at % BLOCK_SIZE, bytes, m);
    var w := WriteChunk(v, i, l, at % BLOCK_SIZE, bytes).0;
    NoEntryAlone(v, i, m);
    if Live(v, Indirect(i)) || l >= DIRECT_BLOCKS {
      EntriesStay(w, i, offset, data, total + can, m);
    } else {
      NextBlock(offset, |data|, total);
      EntryFate(w, i, offset, data, total + can, m);
    }
  }

  lemma NoEntryAlone(v: Vol, i: nat, m: uint32)
    requires DIRECT_BLOCKS <= m && Inv(v)
    ensures Live(v, DataSlot(i, m)) ==> Live(v, Indirect(i))
  {
  }

  lemma NextBlock(offset: nat, n: nat, total: nat)
    requires total < n && offset % ADDRESSABLE + n <= ADDRESSABLE && (total == 0 || (offset + total) % BLOCK_SIZE == 0)
    requires Logical(offset + total) < Logical(offset + (n - 1))
    ensures var can := Can(offset + total, n - total);
            total + can < n && (offset + total + can) % BLOCK_SIZE == 0 && Logical(offset + (total + can)) == Logical(offset + total) + 1
  {
    hide Logical;
    var can := Can(offset + total, n - total);
    LogicalIn(offset, total);
    LogicalIn(offset, n - 1);
    var pos := offset % ADDRESSABLE + total;
    assert pos / BLOCK_SIZE < (pos + (n - 1 - total)) / BLOCK_SIZE;
    assert can == BLOCK_SIZE - pos % BLOCK_SIZE && total + can < n;
    LogicalIn(offset, total + can);
    assert (pos + can) / BLOCK_SIZE == pos / BLOCK_SIZE + 1;
  }

  lemma {:induction false} LoopMaps(v: Vol, i: nat, offset: nat, data: seq<byte>, total: nat, k: nat)
    requires Inv(v) && Allocated(v, i) && total <= k < |data| && WriteLoop(v, i, offset, data, total).1
    ensures GetBlock(WriteLoop(v, i, offset, data, total).0, i, Logical(offset + k)) != NULL_BLOCK
    decreases |data| - total
  {
    hide WriteChunk, Inv, Live, Val, Leaked, FreeSet, GetBlock, Logical;
    var at := offset + total;
    var can := Can(at, |data| - total);
    var bytes := data[total..total + can];
    ChunkSound(v, i, Logical(at), at % BLOCK_SIZE, bytes);
    var w := WriteChunk(v, i, Logical(at), at % BLOCK_SIZE, bytes).0;
    if k < total + can {
      ChunkSets(v, i, Logical(at), at % BLOCK_SIZE, bytes, at % BLOCK_SIZE);
      SameBlockPlace(w, i, at, can, k - total);
      LoopStays(w, i, offset, data, total + can, Logical(at));
      SameBlockPlace(WriteLoop(w, i, offset, data, total + can).0, i, at, can, k - total);
    } else {
      LoopMaps(w, i, offset, data, total + can, k);
    }
  }

  /** Logical block l of a range that starts at `offset` gets no entry of its own. */
  ghost predicate Loose(v: Vol, i: nat, offset: nat, l: nat) {
    && v.fill == 0 && l >= DIRECT_BLOCKS && !Live(v, DataSlot(i, l))
    && (Live(v, Indirect(i)) || (l > Logical(offset) && l > DIRECT_BLOCKS))
  }

  /** Two bytes of the range at the same offset of two such blocks. */
  ghost predicate Folded(v: Vol, i: nat, offset: nat, n: nat) {
    exists p: nat, q: nat {:trigger Logical(p), Logical(q)} ::
      offset <= p < q < offset + n && p % BLOCK_SIZE == q % BLOCK_SIZE
      && Loose(v, i, offset, Logical(p)) && Loose(v, i, offset, Logical(q))
  }

  lemma LooseAfter(v: Vol, i: nat, offset: nat, data: seq<byte>, k: nat)
    requires Inv(v) && Allocated(v, i) && k < |data| && WriteLoop(v, i, offset, data, 0).1
    requires offset % ADDRESSABLE + |data| <= ADDRESSABLE && InReach(offset, offset + |data|)
    ensures var w := WriteLoop(v, i, offset, data, 0).0;
            var l := Logical(offset + k);
            && Inv(w) && Allocated(w, i) && w.fill == v.fill && l < MAX_LOGICAL && GetBlock(w, i, l) != NULL_BLOCK
            && (Live(w, DataSlot(i, l)) <==> !Loose(v, i, offset, l))
  {
    hide WriteLoop, Inv, GetBlock, Logical, Live, Val, Leaked, FreeSet;
    var w := WriteLoop(v, i, offset, data, 0).0;
    var l := Logical(offset + k);
    WriteLoopSound(v, i, offset, data, 0);
    LoopMaps(v, i, offset, data, 0, k);
    assert l < MAX_LOGICAL;
    if v.fill == 0 && l >= DIRECT_BLOCKS {
      LogicalIn(offset, 0);
      LogicalIn(offset, k);
      LogicalIn(offset, |data| - 1);
      EntryFate(v, i, offset, data, 0, l);
    } else {
      MappedLive(w, i, l);
    }
  }

  lemma MappedLive(v: Vol, i: nat, l: uint32)
    requires Inv(v) && Allocated(v, i) && l < MAX_LOGICAL && GetBlock(v, i, l) != NULL_BLOCK
    requires v.fill != 0 || l < DIRECT_BLOCKS
    ensures Live(v, DataSlot(i, l))
  {
    GetBlockCases(v, i, l);
  }

  lemma ShareIff(v: Vol, i: nat, l: uint32, m: uint32)
    requires Inv(v) && Allocated(v, i) && l < MAX_LOGICAL && m < MAX_LOGICAL && l != m
    requires GetBlock(v, i, l) != NULL_BLOCK && GetBlock(v, i, m) != NULL_BLOCK
    ensures GetBlock(v, i, l) == GetBlock(v, i, m) <==> !Live(v, DataSlot(i, l)) && !Live(v, DataSlot(i, m))
  {
    if GetBlock(v, i, l) == GetBlock(v, i, m) {
      if Live(v, DataSlot(i, l)) {
        OneHolder(v, i, l, i, m);
      } else if Live(v, DataSlot(i, m)) {
        OneHolder(v, i, m, i, l);
      }
    } else {
      GetBlockCases(v, i, l);
      GetBlockCases(v, i, m);
    }
  }

  /** Two bytes of a write end up in one place exactly when both are in blocks without an
      entry of their own, at the same offset. */
  lemma PlaceIff(v: Vol, i: nat, offset: nat, data: seq<byte>, j: nat, k: nat)
    requires Inv(v) && Allocated(v, i) && j < k < |data| && WriteLoop(v, i, offset, data, 0).1
    ensures var w := WriteLoop(v, i, offset, data, 0).0;
            Place(w, i, offset + j) == Place(w, i, offset + k) <==>
            && (offset + j) % BLOCK_SIZE == (offset + k) % BLOCK_SIZE
            && Loose(v, i, offset, Logical(offset + j)) && Loose(v, i, offset, Logical(offset + k))
  {
    hide WriteLoop, Inv, GetBlock, Logical, Live, Val, Loose, InReach;
    ReachIn(v, i, data, offset);
    ReachAll(v, i, data, offset);
    var w := WriteLoop(v, i, offset, data, 0).0;
    LooseAfter(v, i, offset, data, j);
    LooseAfter(v, i, offset, data, k);
    if (offset + j) % BLOCK_SIZE == (offset + k) % BLOCK_SIZE {
      LogicalIn(offset, j);
      LogicalIn(offset, k);
      ShareIff(w, i, Logical(offset + j), Logical(offset + k));
    }
  }

  // ----- Reading back -----

  /** Reading gives back what was written, whatever that was. */
  ghost predicate ReadsBack(v: Vol, i: nat, offset: nat, n: nat)
    requires i < MAX_INODES && offset + n < TWO_64
  {
    forall data: seq<byte> {:trigger WriteFile(v, i, data, offset)} ::
      |data| == n && WriteFile(v, i, data, offset).1 >= 0 ==> ReadFile(WriteFile(v, i, data, offset).0, i, n, offset) == data
  }

  lemma ReadIsBytes(v: Vol, i: nat, data: seq<byte>, offset: nat)
    requires i < MAX_INODES && offset + |data| <= v.inodes[i].size
    ensures ReadFile(v, i, |data|, offset) == data <==> forall k :: 0 <= k < |data| ==> FileByte(v, i, offset + k) == Some(data[k])
  {
    hide ReadFile, FileByte;
    var out := ReadFile(v, i, |data|, offset);
    ReadFilePrefix(v, i, |data|, offset);
    if |data| > 0 {
      assert LongestPrefix(v, i, offset, |data|, out);
      if forall k :: 0 <= k < |data| ==> FileByte(v, i, offset + k) == Some(data[k]) {
        var end := if |out| < |data| then |out| else 0;
        assert FileByte(v, i, offset + end) == Some(data[end]);
        forall k | 0 <= k < |data|
          ensures out[k] == data[k]
        {
          assert FileByte(v, i, offset + k) == Some(out[k]);
        }
      }
    }
  }

  lemma WrittenBytes(v: Vol, i: nat, data: seq<byte>, offset: nat)
    requires Inv(v) && Allocated(v, i) && offset + |data| < TWO_64 && WriteFile(v, i, data, offset).1 >= 0
    ensures var w := WriteFile(v, i, data, offset).0;
            && offset + |data| <= w.inodes[i].size && WriteLoop(v, i, offset, data, 0).1
            && forall pos: nat {:trigger FileByte(w, i, pos)} :: FileByte(w, i, pos) == FileByte(WriteLoop(v, i, offset, data, 0).0, i, pos)
  {
    hide WriteLoop, Inv, FileByte;
    WriteFileSound(v, i, data, offset);
    WriteLoopSound(v, i, offset, data, 0);
    GrowSizeKeeps(v, WriteLoop(v, i, offset, data, 0).0, i, offset + |data|);
  }

  lemma UnfoldedReads(v: Vol, i: nat, data: seq<byte>, offset: nat)
    requires Inv(v) && Allocated(v, i) && |data| > 0 && offset + |data| < TWO_64
    requires WriteFile(v, i, data, offset).1 >= 0 && !Folded(v, i, offset, |data|)
    ensures ReadFile(WriteFile(v, i, data, offset).0, i, |data|, offset) == data
  {
    hide WriteLoop, WriteFile, ReadFile, Inv, FileByte, Loose, Place, Logical;
    WrittenBytes(v, i, data, offset);
    var w := WriteLoop(v, i, offset, data, 0).0;
    forall k | 0 <= k < |data|
      ensures FileByte(WriteFile(v, i, data, offset).0, i, offset + k) == Some(data[k])
    {
      forall q: nat | offset + k + 1 <= q < offset + |data|
        ensures Place(w, i, q) != Place(w, i, offset + k)
      {
        PlaceIff(v, i, offset, data, k, q - offset);
      }
      LoopSetsAt(v, i, offset, data, 0, k);
    }
    ReadIsBytes(WriteFile(v, i, data, offset).0, i, data, offset);
  }

  lemma SamePlace(v: Vol, i: nat, p: nat, q: nat)
    requires i < MAX_INODES && Place(v, i, p) == Place(v, i, q)
    ensures FileByte(v, i, p) == FileByte(v, i, q)
  {
  }

  lemma FoldedLoses(v: Vol, i: nat, offset: nat, n: nat)
    requires Inv(v) && Allocated(v, i) && offset + n < TWO_64 && Room(v, i, offset, n) && Folded(v, i, offset, n)
    ensures !ReadsBack(v, i, offset, n)
  {
    hide WriteLoop, WriteFile, ReadFile, Inv, FileByte, Loose, Place, Logical, Room;
    var p: nat, q: nat :| offset <= p < q < offset + n && p % BLOCK_SIZE == q % BLOCK_SIZE
      && Loose(v, i, offset, Logical(p)) && Loose(v, i, offset, Logical(q));
    var j, k := p - offset, q - offset;
    var x: seq<byte> := Repeat(n, 0)[k := 1];
    WriteSucceedsIff(v, i, x, offset);
    WrittenBytes(v, i, x, offset);
    PlaceIff(v, i, offset, x, j, k);
    SamePlace(WriteLoop(v, i, offset, x, 0).0, i, p, q);
    var w := WriteFile(v, i, x, offset).0;
    ReadIsBytes(w, i, x, offset);
    assert FileByte(w, i, offset + j) == FileByte(w, i, offset + k) && x[j] != x[k];
  }

  /** Whatever a successful write of n bytes put down, a read gives it back, wherever it
      starts, if and only if there is no room for the write or no two of its bytes are at the
      same offset of two blocks of a zero-filled pointer block that get no entry of their
      own. */
  lemma ReadBackIff(v: Vol, i: nat, offset: nat, n: nat)
    requires Inv(v) && Allocated(v, i) && offset + n < TWO_64
    ensures ReadsBack(v, i, offset, n) <==> !Room(v, i, offset, n) || !Folded(v, i, offset, n)
  {
    hide WriteFile, ReadFile, Inv, Folded, Room;
    if Room(v, i, offset, n) && Folded(v, i, offset, n) {
      FoldedLoses(v, i, offset, n);
    } else {
      forall x: seq<byte> | |x| == n && WriteFile(v, i, x, offset).1 >= 0
        ensures ReadFile(WriteFile(v, i, x, offset).0, i, n, offset) == x
      {
        WriteSucceedsIff(v, i, x, offset);
        if n > 0 {
          UnfoldedReads(v, i, x, offset);
        } else {
          NothingRead(WriteFile(v, i, x, offset).0, i, x, offset);
        }
      }
    }
  }

  lemma NothingRead(v: Vol, i: nat, x: seq<byte>, offset: nat)
    requires i < MAX_INODES && x == []
    ensures ReadFile(v, i, 0, offset) == x
  {
    hide ReadLoop;
  }
}
