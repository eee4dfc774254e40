/** idkfs_read and idkfs_write against the bytes of a file. */
module FileIO {
  import opened Machine
  import opened Bitmap
  import opened Volume
  import opened Ownership

  /** A write of inode i moves only i's pointers, block count and size; pointers are only added. */
  ghost predicate Grows(v: Vol, w: Vol, i: nat) {
    && w.fill == v.fill && w.freeInodes == v.freeInodes
    && FreeSet(w.bits) <= FreeSet(v.bits)
    && (forall j {:trigger w.inodes[j]} {:trigger v.inodes[j]} :: 0 <= j < MAX_INODES && j != i ==> w.inodes[j] == v.inodes[j])
    && (i < MAX_INODES ==>
          w.inodes[i] == v.inodes[i].(direct := w.inodes[i].direct, indirect1 := w.inodes[i].indirect1,
                                      blockCount := w.inodes[i].blockCount, size := w.inodes[i].size))
    && (forall s {:trigger Live(v, s)} :: Live(v, s) ==> Live(w, s) && Val(w, s) == Val(v, s))
    && (forall s {:trigger Live(w, s)} :: Live(w, s) && s.ino != i ==> Live(v, s))
  }

  lemma GrowsTrans(v: Vol, w: Vol, x: Vol, i: nat)
    requires Grows(v, w, i) && Grows(w, x, i)
    ensures Grows(v, x, i)
  {
  }

  lemma CardBelow(s: set<nat>, n: nat)
    requires forall x :: x in s ==> x < n
    ensures |s| <= n
  {
    if n == 0 {
      assert s == {};
    } else {
      var t := s - {n - 1};
      CardBelow(t, n - 1);
      assert n - 1 in s ==> s == t + {n - 1};
      assert n - 1 !in s ==> s == t;
    }
  }

  lemma SameValsMapped(v: Vol, w: Vol, i: nat)
    requires SameVals(v, w) && v.fill == w.fill
    ensures Mapped(w, i) == Mapped(v, i)
    ensures forall s :: Live(w, s) <==> Live(v, s)
    ensures forall b: nat :: Owned(w, b) <==> Owned(v, b)
  {
    assert forall s :: Live(w, s) <==> Live(v, s);
  }

  lemma MapsToMapped(v: Vol, w: Vol, i: nat, l: nat, nb: nat, j: nat)
    requires Frame(v, w, i) && MapsTo(v, w, i, l, nb) && !Live(v, DataSlot(i, l))
    ensures Mapped(w, j) == Mapped(v, j) + (if j == i then {l} else {})
  {
    forall m: nat
      ensures m in Mapped(w, j) <==> m in Mapped(v, j) || (j == i && m == l)
    {
      if m in Mapped(w, j) {
        assert Live(v, DataSlot(j, m)) || DataSlot(j, m) == DataSlot(i, l);
      }
      if m in Mapped(v, j) {
        assert Live(w, DataSlot(j, m));
      }
    }
  }

  lemma CountBlockSameVals(w: Vol, i: nat)
    requires i < MAX_INODES
    ensures SameVals(w, CountBlock(w, i))
  {
    var x := CountBlock(w, i);
    forall s
      ensures Val(x, s) == Val(w, s)
    {
      match s case Direct(_, _) => case Indirect(_) => case Entry(_, _) =>
    }
  }

  lemma MappedBelow(v: Vol, j: nat)
    ensures |Mapped(v, j)| <= MAX_LOGICAL
  {
    CardBelow(Mapped(v, j), MAX_LOGICAL);
  }

  lemma CountedOne(v: Vol, w: Vol, i: nat, l: nat, nb: nat, j: nat)
    requires BlocksCounted(v) && Allocated(v, i) && Allocated(v, j)
    requires Frame(v, w, i) && MapsTo(v, w, i, l, nb) && !Live(v, DataSlot(i, l))
    ensures CountBlock(w, i).inodes[j].blockCount == |Mapped(w, j)|
  {
    hide MapsTo, Live;
    MapsToMapped(v, w, i, l, nb, j);
    assert l !in Mapped(v, i);
    hide Mapped;
    MappedBelow(v, j);
    assert w.inodes[j].blockCount == v.inodes[j].blockCount == |Mapped(v, j)|;
  }

  lemma CountedInv(v: Vol, w: Vol, i: nat, l: nat, nb: nat)
    requires Inv(v) && Allocated(v, i) && Sound(w) && Frame(v, w, i) && MapsTo(v, w, i, l, nb)
    requires !Live(v, DataSlot(i, l))
    ensures Inv(CountBlock(w, i)) && SameVals(w, CountBlock(w, i))
  {
    var x := CountBlock(w, i);
    CountBlockSameVals(w, i);
    SameValsSound(w, x);
    forall j: nat | Allocated(x, j)
      ensures x.inodes[j].blockCount == |Mapped(x, j)|
    {
      SameValsMapped(w, x, j);
      CountedOne(v, w, i, l, nb, j);
    }
  }

  lemma GetBlockCases(v: Vol, i: nat, l: uint32)
    requires Sound(v) && Allocated(v, i)
    ensures var b := GetBlock(v, i, l);
            || b == NULL_BLOCK
            || (l < MAX_LOGICAL && Live(v, DataSlot(i, l)) && Val(v, DataSlot(i, l)) == b && DATA_START <= b < TOTAL_BLOCKS)
            || (b == 0 && v.fill == 0 && DIRECT_BLOCKS <= l < MAX_LOGICAL)
    ensures l < MAX_LOGICAL ==> GetBlock(v, i, l) == Val(v, DataSlot(i, l))
  {
    assert Live(v, DataSlot(i, l)) ==> DATA_START <= Val(v, DataSlot(i, l)) < TOTAL_BLOCKS;
  }

  /** A block that is not a pointer block can be overwritten without moving any pointer. */
  lemma PatchInv(v: Vol, b: nat, off: nat, bytes: seq<byte>, i: nat)
    requires Inv(v) && b < TOTAL_BLOCKS && off + |bytes| <= BLOCK_SIZE
    requires forall j: nat :: Val(v, Indirect(j)) != b
    ensures var w := Patch(v, b, off, bytes);
            Inv(w) && SameVals(v, w) && Grows(v, w, i) && Leaked(w) == Leaked(v)
  {
    var w := Patch(v, b, off, bytes);
    DataBlockSameVals(v, w, b);
    SameValsSound(v, w);
    forall j: nat
      ensures Mapped(w, j) == Mapped(v, j)
    {
      SameValsMapped(v, w, j);
    }
    SameValsMapped(v, w, i);
  }

  lemma NotPointerBlock(v: Vol, s: Slot, b: nat, j: nat)
    requires Sound(v) && b < TOTAL_BLOCKS
    requires b < DATA_START || (Live(v, s) && Val(v, s) == b && !s.Indirect?)
    ensures Val(v, Indirect(j)) != b
  {
    assert Live(v, Indirect(j)) || Val(v, Indirect(j)) == NULL_BLOCK;
  }

  lemma PatchDataInv(v: Vol, s: Slot, b: nat, off: nat, bytes: seq<byte>, i: nat)
    requires Inv(v) && b < TOTAL_BLOCKS && off + |bytes| <= BLOCK_SIZE
    requires b < DATA_START || (Live(v, s) && Val(v, s) == b && !s.Indirect?)
    ensures var w := Patch(v, b, off, bytes);
            Inv(w) && SameVals(v, w) && Grows(v, w, i) && Leaked(w) == Leaked(v)
  {
    forall j: nat
      ensures Val(v, Indirect(j)) != b
    {
      NotPointerBlock(v, s, b, j);
    }
    PatchInv(v, b, off, bytes, i);
  }

  lemma FrameGrows(v: Vol, w: Vol, i: nat, l: nat, nb: nat)
    requires Frame(v, w, i) && MapsTo(v, w, i, l, nb) && i < MAX_INODES
    ensures Grows(v, CountBlock(w, i), i) && Leaked(CountBlock(w, i)) == Leaked(v)
  {
    var x := CountBlock(w, i);
    CountBlockSameVals(w, i);
    SameValsMapped(w, x, i);
    assert Grows(v, w, i);
  }

  /** Blocks one chunk takes: the data block, and the pointer block if there is none yet. */
  ghost function Cost(v: Vol, i: nat, l: uint32): nat
    requires i < MAX_INODES
  {
    if GetBlock(v, i, l) != NULL_BLOCK then 0
    else if l < DIRECT_BLOCKS || Live(v, Indirect(i)) then 1
    else 2
  }

  ghost predicate ChunkKeeps(v: Vol, i: nat, l: uint32, w: Vol, ok: bool)
    requires i < MAX_INODES
  {
    && Inv(w) && Grows(v, w, i) && w.inodes[i].size == v.inodes[i].size
    && (ok <==> GetBlock(v, i, l) != NULL_BLOCK || MapRoom(v, i, l))
    && (ok ==> Leaked(w) == Leaked(v) && |FreeSet(w.bits)| == |FreeSet(v.bits)| - Cost(v, i, l))
    && (ok ==> (Live(w, Indirect(i)) <==> Live(v, Indirect(i)) || (Cost(v, i, l) > 0 && l >= DIRECT_BLOCKS)))
  }

  lemma MappedKeeps(v: Vol, w: Vol, i: nat, l: uint32, nb: nat, off: nat, bytes: seq<byte>)
    requires Inv(v) && Allocated(v, i) && off + |bytes| <= BLOCK_SIZE && !Live(v, DataSlot(i, l))
    requires Sound(w) && Frame(v, w, i) && MapsTo(v, w, i, l, nb)
    ensures var y := Patch(CountBlock(w, i), nb, off, bytes);
            && Inv(y) && Grows(v, y, i) && Leaked(y) == Leaked(v) && y.bits == w.bits
            && y.inodes[i].size == w.inodes[i].size && (Live(y, Indirect(i)) <==> Live(w, Indirect(i)))
  {
    CountedInv(v, w, i, l, nb);
    FrameGrows(v, w, i, l, nb);
    var x := CountBlock(w, i);
    assert Live(x, DataSlot(i, l)) && Val(x, DataSlot(i, l)) == nb;
    PatchDataInv(x, DataSlot(i, l), nb, off, bytes, i);
    hide Sound, Frame, MapsTo, Val;
    GrowsTrans(v, x, Patch(x, nb, off, bytes), i);
  }

  lemma MapKeeps(v: Vol, w: Vol, i: nat, l: uint32, nb: int, off: nat, bytes: seq<byte>)
    requires Inv(v) && Allocated(v, i) && off + |bytes| <= BLOCK_SIZE && GetBlock(v, i, l) == NULL_BLOCK
    requires MapOutcome(v, i, l, w, nb)
    ensures ChunkKeeps(v, i, l, if nb < 0 then w else Patch(CountBlock(w, i), nb, off, bytes), nb >= 0)
  {
    GetBlockCases(v, i, l);
    if nb < 0 {
      forall j: nat
        ensures Mapped(w, j) == Mapped(v, j)
      {
        SameValsMapped(v, w, j);
      }
      SameValsMapped(v, w, i);
    } else {
      MappedKeeps(v, w, i, l, nb, off, bytes);
      IndirectAfterMap(v, w, i, l, nb);
    }
  }

  lemma IndirectAfterMap(v: Vol, w: Vol, i: nat, l: nat, nb: nat)
    requires Sound(w) && Frame(v, w, i) && MapsTo(v, w, i, l, nb)
    ensures Live(w, Indirect(i)) <==> Live(v, Indirect(i)) || l >= DIRECT_BLOCKS
  {
    assert Live(w, DataSlot(i, l));
    assert Live(v, Indirect(i)) ==> Live(w, Indirect(i));
  }

  /** Every turn of the write loop keeps the invariant, aliased blocks and full disks
      included, and fails exactly when a needed block cannot be had. */
  lemma ChunkSound(v: Vol, i: nat, l: uint32, off: nat, bytes: seq<byte>)
    requires Inv(v) && Allocated(v, i) && off + |bytes| <= BLOCK_SIZE
    ensures ChunkKeeps(v, i, l, WriteChunk(v, i, l, off, bytes).0, WriteChunk(v, i, l, off, bytes).1)
  {
    hide MapBlock;
    var db := GetBlock(v, i, l);
    GetBlockCases(v, i, l);
    if db == NULL_BLOCK {
      MapBlockSound(v, i, l);
      MapKeeps(v, MapBlock(v, i, l).0, i, l, MapBlock(v, i, l).1, off, bytes);
    } else {
      PatchDataInv(v, DataSlot(i, l), db, off, bytes, i);
      assert Live(Patch(v, db, off, bytes), Indirect(i)) <==> Live(v, Indirect(i));
    }
  }

  // ----- Refinement of one chunk -----

  /** The guard: with zero fill, only direct blocks and the one real entry are safe. */
  ghost predicate Clean(v: Vol, i: nat, l: nat) {
    v.fill != 0 || l < DIRECT_BLOCKS || Live(v, DataSlot(i, l))
  }

  function CellAfter(v: Vol, i: nat, l: uint32, off: nat, bytes: seq<byte>, j: nat, m: uint32, o: nat): Option<byte>
    requires i < MAX_INODES && j < MAX_INODES && o < BLOCK_SIZE
  {
    if (j, m) != (i, l) then Cell(v, j, m, o)
    else if off <= o < off + |bytes| then Some(bytes[o - off])
    else if Cell(v, i, l, o).None? then Some(0)
    else Cell(v, i, l, o)
  }

  /** Of all cells of all files, exactly the chunk's are overwritten; the rest of a block
      that was unmapped reads as zero. */
  ghost predicate ChunkRefines(v: Vol, w: Vol, i: nat, l: uint32, off: nat, bytes: seq<byte>)
    requires i < MAX_INODES
  {
    forall j: nat, m: uint32, o: nat {:trigger Cell(w, j, m, o)} :: Allocated(v, j) && o < BLOCK_SIZE ==>
      Cell(w, j, m, o) == CellAfter(v, i, l, off, bytes, j, m, o)
  }

  lemma SameGetBlock(v: Vol, w: Vol, j: nat, m: uint32)
    requires Sound(v) && Sound(w) && SameVals(v, w) && Allocated(v, j) && Allocated(w, j)
    ensures GetBlock(w, j, m) == GetBlock(v, j, m)
  {
    GetBlockCases(v, j, m);
    GetBlockCases(w, j, m);
    hide Sound, Val;
  }

  /** A mapped block is one logical block's of one file. */
  lemma OneHolder(v: Vol, i: nat, l: uint32, j: nat, m: uint32)
    requires Sound(v) && Allocated(v, i) && Allocated(v, j) && Clean(v, i, l)
    requires GetBlock(v, i, l) == GetBlock(v, j, m) != NULL_BLOCK
    ensures Live(v, DataSlot(i, l)) && Val(v, DataSlot(i, l)) == GetBlock(v, i, l)
    ensures DATA_START <= GetBlock(v, i, l) < TOTAL_BLOCKS && (i, l) == (j, m)
  {
    GetBlockCases(v, i, l);
    GetBlockCases(v, j, m);
    hide Val, GetBlock;
    assert DataSlot(i, l) == DataSlot(j, m);
  }

  lemma PatchRefines(v: Vol, i: nat, l: uint32, off: nat, bytes: seq<byte>)
    requires Inv(v) && Allocated(v, i) && off + |bytes| <= BLOCK_SIZE
    requires Clean(v, i, l) && GetBlock(v, i, l) != NULL_BLOCK
    ensures ChunkRefines(v, Patch(v, GetBlock(v, i, l), off, bytes), i, l, off, bytes)
  {
    hide Live, Val, GetBlock, Clean, Sound;
    var db := GetBlock(v, i, l);
    OneHolder(v, i, l, i, l);
    var w := Patch(v, db, off, bytes);
    PatchDataInv(v, DataSlot(i, l), db, off, bytes, i);
    forall j: nat, m: uint32, o: nat | Allocated(v, j) && o < BLOCK_SIZE
      ensures Cell(w, j, m, o) == CellAfter(v, i, l, off, bytes, j, m, o)
    {
      SameGetBlock(v, w, j, m);
      if GetBlock(v, j, m) == db {
        OneHolder(v, i, l, j, m);
      }
    }
  }

  lemma MapGetBlock(v: Vol, w: Vol, i: nat, l: uint32, nb: nat, j: nat, m: uint32)
    requires Sound(v) && Sound(w) && Allocated(v, i) && Allocated(v, j) && GetBlock(v, i, l) == NULL_BLOCK
    requires Frame(v, w, i) && MapsTo(v, w, i, l, nb) && Clean(v, i, l)
    ensures GetBlock(w, j, m) == if (j, m) == (i, l) then nb else GetBlock(v, j, m)
  {
    GetBlockCases(v, j, m);
    GetBlockCases(w, j, m);
    if (j, m) != (i, l) && m < MAX_LOGICAL {
      var s := DataSlot(j, m);
      assert s != DataSlot(i, l);
      assert Live(w, s) ==> Live(v, s);
      assert Live(v, s) ==> Live(w, s) && Val(w, s) == Val(v, s);
    }
  }

  lemma MapCell(v: Vol, w: Vol, i: nat, l: uint32, nb: nat, j: nat, m: uint32, o: nat)
    requires Sound(v) && Sound(w) && Allocated(v, i) && Allocated(v, j) && GetBlock(v, i, l) == NULL_BLOCK
    requires Frame(v, w, i) && MapsTo(v, w, i, l, nb) && Clean(v, i, l) && o < BLOCK_SIZE
    ensures Cell(w, j, m, o) == if (j, m) == (i, l) then Some(0) else Cell(v, j, m, o)
  {
    MapGetBlock(v, w, i, l, nb, j, m);
    GetBlockCases(v, j, m);
    if (j, m) == (i, l) {
      assert w.disk[nb][o] == 0;
    }
  }

  lemma MapRefines(v: Vol, w: Vol, i: nat, l: uint32, nb: nat, off: nat, bytes: seq<byte>)
    requires Inv(v) && Allocated(v, i) && off + |bytes| <= BLOCK_SIZE && GetBlock(v, i, l) == NULL_BLOCK
    requires Sound(w) && Frame(v, w, i) && MapsTo(v, w, i, l, nb) && Clean(v, i, l)
    ensures ChunkRefines(v, Patch(CountBlock(w, i), nb, off, bytes), i, l, off, bytes)
  {
    var x := CountBlock(w, i);
    var y := Patch(x, nb, off, bytes);
    CountedInv(v, w, i, l, nb);
    MapGetBlock(v, w, i, l, nb, i, l);
    hide Sound, Frame, MapsTo, Val;
    assert GetBlock(x, i, l) == nb && Live(x, DataSlot(i, l));
    PatchRefines(x, i, l, off, bytes);
    forall j: nat, m: uint32, o: nat | Allocated(v, j) && o < BLOCK_SIZE
      ensures Cell(y, j, m, o) == CellAfter(v, i, l, off, bytes, j, m, o)
    {
      assert Cell(y, j, m, o) == CellAfter(x, i, l, off, bytes, j, m, o);
      assert GetBlock(x, j, m) == GetBlock(w, j, m);
      MapCell(v, w, i, l, nb, j, m, o);
      MapCell(v, w, i, l, nb, i, l, o);
    }
  }

  lemma ChunkCells(v: Vol, i: nat, l: uint32, off: nat, bytes: seq<byte>)
    requires Inv(v) && Allocated(v, i) && off + |bytes| <= BLOCK_SIZE
    requires Clean(v, i, l) && WriteChunk(v, i, l, off, bytes).1
    ensures ChunkRefines(v, WriteChunk(v, i, l, off, bytes).0, i, l, off, bytes)
  {
    if GetBlock(v, i, l) == NULL_BLOCK {
      MapBlockSound(v, i, l);
      MapRefines(v, MapBlock(v, i, l).0, i, l, MapBlock(v, i, l).1, off, bytes);
    } else {
      PatchRefines(v, i, l, off, bytes);
    }
  }

  // ----- Refinement of a whole write -----

  /** Block numbers are cut to 32 bits, so a file is addressed below 2^44. */
  const ADDRESSABLE: int := BLOCK_SIZE * TWO_32

  predicate Touched(offset: nat, n: nat, pos: nat) {
    n > 0 && offset / BLOCK_SIZE <= pos / BLOCK_SIZE <= (offset + n - 1) / BLOCK_SIZE
  }

  /** Byte pos of file j after `data` is written at `offset` of file i. */
  function ByteAfter(v: Vol, i: nat, offset: nat, data: seq<byte>, j: nat, pos: nat): Option<byte>
    requires i < MAX_INODES && j < MAX_INODES
  {
    if j != i then FileByte(v, j, pos)
    else if offset <= pos < offset + |data| then Some(data[pos - offset])
    else if FileByte(v, i, pos).None? && Touched(offset, |data|, pos) then Some(0)
    else FileByte(v, j, pos)
  }

  ghost predicate Refines(v: Vol, w: Vol, i: nat, offset: nat, data: seq<byte>)
    requires i < MAX_INODES
  {
    forall j: nat, pos: nat {:trigger FileByte(w, j, pos)} :: Allocated(v, j) && pos < ADDRESSABLE ==>
      FileByte(w, j, pos) == ByteAfter(v, i, offset, data, j, pos)
  }

  ghost predicate CleanRange(v: Vol, i: nat, offset: nat, n: nat) {
    forall l: nat {:trigger Clean(v, i, l)} ::
      n > 0 && offset / BLOCK_SIZE <= l <= (offset + n - 1) / BLOCK_SIZE ==> Clean(v, i, l)
  }

  lemma ChunkExtends(u: Vol, v: Vol, w: Vol, i: nat, offset: nat, data: seq<byte>, total: nat, can: nat)
    requires i < MAX_INODES && Allocated(u, i) && Grows(u, v, i)
    requires 0 < can && total + can <= |data| && offset + |data| <= ADDRESSABLE
    requires total == 0 || (offset + total) % BLOCK_SIZE == 0
    requires (offset + total) % BLOCK_SIZE + can <= BLOCK_SIZE
    requires Refines(u, v, i, offset, data[..total])
    requires ChunkRefines(v, w, i, Logical(offset + total), (offset + total) % BLOCK_SIZE, data[total..total + can])
    ensures Refines(u, w, i, offset, data[..total + can])
  {
    hide GetBlock, Live, Val, FreeSet;
    var at, off := offset + total, (offset + total) % BLOCK_SIZE;
    var bytes := data[total..total + can];
    forall j: nat, pos: nat | Allocated(u, j) && pos < ADDRESSABLE
      ensures FileByte(w, j, pos) == ByteAfter(u, i, offset, data[..total + can], j, pos)
    {
      assert Allocated(v, j);
      assert FileByte(v, j, pos) == ByteAfter(u, i, offset, data[..total], j, pos);
      assert Cell(w, j, Logical(pos), pos % BLOCK_SIZE)
        == CellAfter(v, i, Logical(at), off, bytes, j, Logical(pos), pos % BLOCK_SIZE);
      assert Logical(pos) == pos / BLOCK_SIZE && Logical(at) == at / BLOCK_SIZE;
      if j == i && pos / BLOCK_SIZE == at / BLOCK_SIZE {
        assert FileByte(v, j, pos) == Cell(v, i, Logical(at), pos % BLOCK_SIZE);
        assert off <= pos % BLOCK_SIZE < off + |bytes| <==> at <= pos < at + can;
      }
    }
  }

  lemma GrowsClean(v: Vol, w: Vol, i: nat, offset: nat, n: nat)
    requires Grows(v, w, i) && CleanRange(v, i, offset, n)
    ensures CleanRange(w, i, offset, n)
  {
    forall l: nat | n > 0 && offset / BLOCK_SIZE <= l <= (offset + n - 1) / BLOCK_SIZE
      ensures Clean(w, i, l)
    {
      assert Clean(v, i, l);
    }
  }

  /** The loop keeps the invariant for every input, whatever its guard says. */
  lemma {:induction false} WriteLoopSound(v: Vol, i: nat, offset: nat, data: seq<byte>, total: nat)
    requires Inv(v) && Allocated(v, i) && total <= |data|
    ensures var (w, ok) := WriteLoop(v, i, offset, data, total);
            Inv(w) && Grows(v, w, i) && w.inodes[i].size == v.inodes[i].size && (ok ==> Leaked(w) == Leaked(v))
    decreases |data| - total
  {
    hide WriteChunk, Inv;
    if total < |data| {
      var pos := offset + total;
      var can := Can(pos, |data| - total);
      ChunkSound(v, i, Logical(pos), pos % BLOCK_SIZE, data[total..total + can]);
      var (w, ok) := WriteChunk(v, i, Logical(pos), pos % BLOCK_SIZE, data[total..total + can]);
      if ok {
        WriteLoopSound(w, i, offset, data, total + can);
        GrowsTrans(v, w, WriteLoop(w, i, offset, data, total + can).0, i);
      }
    }
  }

  lemma FailedChunkCells(v: Vol, i: nat, l: uint32, off: nat, bytes: seq<byte>)
    requires Inv(v) && Allocated(v, i) && off + |bytes| <= BLOCK_SIZE
    requires !WriteChunk(v, i, l, off, bytes).1
    ensures forall j: nat, pos: nat :: Allocated(v, j) ==>
              FileByte(WriteChunk(v, i, l, off, bytes).0, j, pos) == FileByte(v, j, pos)
  {
    MapBlockSound(v, i, l);
    var w := WriteChunk(v, i, l, off, bytes).0;
    forall j: nat, pos: nat | Allocated(v, j)
      ensures FileByte(w, j, pos) == FileByte(v, j, pos)
    {
      GetBlockCases(v, j, Logical(pos));
      GetBlockCases(w, j, Logical(pos));
      assert Logical(pos) < MAX_LOGICAL ==> Val(w, DataSlot(j, Logical(pos))) == Val(v, DataSlot(j, Logical(pos)));
    }
  }

  /** All there is to know of one turn of the loop. */
  ghost predicate ChunkOutcome(v: Vol, i: nat, l: uint32, off: nat, bytes: seq<byte>, w: Vol, ok: bool)
    requires i < MAX_INODES
  {
    && ChunkKeeps(v, i, l, w, ok)
    && (ok && Clean(v, i, l) ==> ChunkRefines(v, w, i, l, off, bytes))
    && (!ok ==> forall j: nat, pos: nat {:trigger FileByte(w, j, pos)} ::
                  Allocated(v, j) ==> FileByte(w, j, pos) == FileByte(v, j, pos))
  }

  lemma ChunkHasOutcome(v: Vol, i: nat, l: uint32, off: nat, bytes: seq<byte>)
    requires Inv(v) && Allocated(v, i) && off + |bytes| <= BLOCK_SIZE
    ensures ChunkOutcome(v, i, l, off, bytes, WriteChunk(v, i, l, off, bytes).0, WriteChunk(v, i, l, off, bytes).1)
  {
    ChunkSound(v, i, l, off, bytes);
    if WriteChunk(v, i, l, off, bytes).1 {
      if Clean(v, i, l) {
        ChunkCells(v, i, l, off, bytes);
      }
    } else {
      FailedChunkCells(v, i, l, off, bytes);
    }
  }

  lemma OutcomeExtends(u: Vol, v: Vol, w: Vol, ok: bool, i: nat, offset: nat, data: seq<byte>, total: nat, can: nat)
    requires 0 < can && total + can <= |data| && offset + |data| <= ADDRESSABLE
    requires Allocated(u, i) && Grows(u, v, i) && Refines(u, v, i, offset, data[..total])
    requires CleanRange(u, i, offset, |data|)
    requires total == 0 || (offset + total) % BLOCK_SIZE == 0
    requires (offset + total) % BLOCK_SIZE + can <= BLOCK_SIZE
    requires ChunkOutcome(v, i, Logical(offset + total), (offset + total) % BLOCK_SIZE, data[total..total + can], w, ok)
    ensures Grows(u, w, i) && Inv(w)
    ensures Refines(u, w, i, offset, if ok then data[..total + can] else data[..total])
  {
    hide Inv, Leaked, FreeSet, FileByte, Val, Live;
    GrowsTrans(u, v, w, i);
    if ok {
      GrowsClean(u, v, i, offset, |data|);
      assert Logical(offset + total) == (offset + total) / BLOCK_SIZE;
      assert Clean(v, i, Logical(offset + total));
      hide Grows, Refines, Clean;
      ChunkExtends(u, v, w, i, offset, data, total, can);
    } else {
      forall j: nat, p: nat | Allocated(u, j) && p < ADDRESSABLE
        ensures FileByte(w, j, p) == ByteAfter(u, i, offset, data[..total], j, p)
      {
        assert Allocated(v, j);
        assert FileByte(w, j, p) == FileByte(v, j, p);
      }
    }
  }

  /** A write of data[total..] continues to refine: some prefix of the data, all of it on
      success, is what the file now holds. */
  lemma {:induction false} WriteLoopRefines(u: Vol, v: Vol, i: nat, offset: nat, data: seq<byte>, total: nat)
    requires Allocated(u, i) && Inv(v) && Grows(u, v, i) && total <= |data|
    requires offset + |data| <= ADDRESSABLE && CleanRange(u, i, offset, |data|)
    requires total == 0 || total == |data| || (offset + total) % BLOCK_SIZE == 0
    requires Refines(u, v, i, offset, data[..total])
    ensures var (w, ok) := WriteLoop(v, i, offset, data, total);
            exists k {:trigger data[..k]} :: total <= k <= |data| && (ok <==> k == |data|) && Refines(u, w, i, offset, data[..k])
    decreases |data| - total
  {
    hide WriteChunk, ChunkOutcome, Refines, Logical, CleanRange, Clean, Inv;
    if total == |data| {
      assert data[..total] == data;
    } else {
      assert Allocated(v, i);
      hide Grows;
      var pos := offset + total;
      var can := Can(pos, |data| - total);
      assert total + can == |data| || (pos + can) % BLOCK_SIZE == 0;
      var (w, ok) := WriteChunk(v, i, Logical(pos), pos % BLOCK_SIZE, data[total..total + can]);
      ChunkHasOutcome(v, i, Logical(pos), pos % BLOCK_SIZE, data[total..total + can]);
      OutcomeExtends(u, v, w, ok, i, offset, data, total, can);
      if ok {
        WriteLoopRefines(u, w, i, offset, data, total + can);
      }
    }
  }

  // ----- When a write fits -----

  ghost function Missing(v: Vol, i: nat, lo: nat, hi: nat): nat
    requires i < MAX_INODES && hi <= TWO_32
    decreases hi - lo
  {
    if lo >= hi then 0
    else (if Cell(v, i, lo, 0).None? then 1 else 0) + Missing(v, i, lo + 1, hi)
  }

  /** Blocks still to be taken for logical blocks lo..hi-1, the pointer block included. */
  ghost function Needed(v: Vol, i: nat, lo: nat, hi: nat): nat
    requires i < MAX_INODES && hi <= TWO_32
  {
    Missing(v, i, lo, hi) + if lo < hi && hi > DIRECT_BLOCKS && !Live(v, Indirect(i)) then 1 else 0
  }

  function EndBlock(offset: nat, n: nat): nat {
    if n == 0 then offset / BLOCK_SIZE else (offset + n - 1) / BLOCK_SIZE + 1
  }

  ghost predicate Fits(v: Vol, i: nat, lo: nat, hi: nat)
    requires i < MAX_INODES && hi <= TWO_32
  {
    lo >= hi || (hi <= MAX_LOGICAL && Needed(v, i, lo, hi) <= |FreeSet(v.bits)|)
  }

  lemma {:induction false} MissingSame(v: Vol, w: Vol, i: nat, lo: nat, hi: nat)
    requires i < MAX_INODES && hi <= TWO_32
    requires forall l: uint32 {:trigger Cell(w, i, l, 0)} :: lo <= l < hi ==> (Cell(w, i, l, 0).None? <==> Cell(v, i, l, 0).None?)
    ensures Missing(w, i, lo, hi) == Missing(v, i, lo, hi)
    decreases hi - lo
  {
    if lo < hi {
      assert Cell(w, i, lo, 0).None? <==> Cell(v, i, lo, 0).None?;
      MissingSame(v, w, i, lo + 1, hi);
    }
  }

  lemma ChunkFits(v: Vol, w: Vol, ok: bool, i: nat, l: uint32, off: nat, bytes: seq<byte>, hi: nat)
    requires Inv(v) && Allocated(v, i) && l < hi <= TWO_32
    requires Clean(v, i, l) && ChunkOutcome(v, i, l, off, bytes, w, ok)
    requires v.fill == 0 && hi > DIRECT_BLOCKS ==> Live(v, Indirect(i))
    ensures Inv(w) && Grows(v, w, i)
    ensures Fits(v, i, l, hi) <==> ok && (l + 1 == hi || Fits(w, i, l + 1, hi))
    ensures ok ==> Needed(v, i, l, hi) == Cost(v, i, l) + Needed(w, i, l + 1, hi)
    ensures ok ==> |FreeSet(w.bits)| == |FreeSet(v.bits)| - Cost(v, i, l)
  {
    hide ChunkRefines, Val, GetBlock, Cell;
    GetBlockCases(v, i, l);
    CellMapped(v, i, l);
    if ok {
      RefinesMissing(v, w, i, l, off, bytes, hi);
    }
  }

  lemma CellMapped(v: Vol, i: nat, l: uint32)
    requires Sound(v) && Allocated(v, i)
    ensures Cell(v, i, l, 0).None? <==> GetBlock(v, i, l) == NULL_BLOCK
    ensures GetBlock(v, i, l) != NULL_BLOCK && l >= DIRECT_BLOCKS ==> Live(v, Indirect(i))
  {
    GetBlockCases(v, i, l);
  }

  lemma RefinesMissing(v: Vol, w: Vol, i: nat, l: uint32, off: nat, bytes: seq<byte>, hi: nat)
    requires Allocated(v, i) && hi <= TWO_32 && ChunkRefines(v, w, i, l, off, bytes)
    ensures Missing(w, i, l + 1, hi) == Missing(v, i, l + 1, hi)
  {
    hide Cell;
    MissingSame(v, w, i, l + 1, hi);
  }

  lemma CleanHigh(v: Vol, i: nat, l: nat)
    requires Inv(v) && Allocated(v, i) && Clean(v, i, l)
    ensures v.fill == 0 && l >= DIRECT_BLOCKS ==> Live(v, Indirect(i))
  {
  }

  lemma LogicalBelow(pos: nat)
    requires pos < ADDRESSABLE
    ensures Logical(pos) == pos / BLOCK_SIZE
  {
  }

  lemma {:induction false} WriteLoopFits(v: Vol, i: nat, offset: nat, data: seq<byte>, total: nat)
    requires Inv(v) && Allocated(v, i) && total < |data|
    requires offset + |data| <= ADDRESSABLE && CleanRange(v, i, offset + total, |data| - total)
    requires total == 0 || (offset + total) % BLOCK_SIZE == 0
    ensures WriteLoop(v, i, offset, data, total).1
       <==> Fits(v, i, (offset + total) / BLOCK_SIZE, EndBlock(offset, |data|))
    ensures WriteLoop(v, i, offset, data, total).1 ==>
              |FreeSet(WriteLoop(v, i, offset, data, total).0.bits)|
              == |FreeSet(v.bits)| - Needed(v, i, (offset + total) / BLOCK_SIZE, EndBlock(offset, |data|))
    decreases |data| - total
  {
    hide WriteChunk, Inv, Fits, ChunkOutcome, Live, Val, Logical, FreeSet, Needed;
    var pos, hi := offset + total, EndBlock(offset, |data|);
    var l, can := pos / BLOCK_SIZE, Can(pos, |data| - total);
    LogicalBelow(pos);
    assert l < hi;
    assert total + can == |data| || (pos + can) % BLOCK_SIZE == 0;
    assert Clean(v, i, l) && Clean(v, i, hi - 1);
    CleanHigh(v, i, hi - 1);
    var (w, ok) := WriteChunk(v, i, l, pos % BLOCK_SIZE, data[total..total + can]);
    ChunkHasOutcome(v, i, l, pos % BLOCK_SIZE, data[total..total + can]);
    ChunkFits(v, w, ok, i, l, pos % BLOCK_SIZE, data[total..total + can], hi);
    if total + can < |data| {
      assert (pos + can) / BLOCK_SIZE == l + 1;
      if ok {
        GrowsClean(v, w, i, pos, |data| - total);
        assert CleanRange(w, i, pos + can, |data| - total - can) by {
          forall m: nat | (pos + can) / BLOCK_SIZE <= m <= (offset + |data| - 1) / BLOCK_SIZE
            ensures Clean(w, i, m)
          {
          }
        }
        WriteLoopFits(w, i, offset, data, total + can);
      }
    } else {
      NothingNeeded(w, i, hi);
    }
  }

  lemma NothingNeeded(v: Vol, i: nat, hi: nat)
    requires i < MAX_INODES && hi <= TWO_32
    ensures Needed(v, i, hi, hi) == 0
  {
  }

  // ----- idkfs_write and idkfs_read as a whole -----

  lemma GrowSizeVals(w: Vol, i: nat, end: uint64)
    requires i < MAX_INODES
    ensures SameVals(w, GrowSize(w, i, end))
  {
    var x := GrowSize(w, i, end);
    forall s
      ensures Val(x, s) == Val(w, s)
    {
      match s case Direct(_, _) => case Indirect(_) => case Entry(_, _) =>
    }
  }

  lemma GrowSizeKeeps(v: Vol, w: Vol, i: nat, end: uint64)
    requires Inv(w) && Allocated(w, i) && Grows(v, w, i)
    ensures var x := GrowSize(w, i, end);
            && Inv(x) && Grows(v, x, i) && Leaked(x) == Leaked(w) && x.bits == w.bits
            && forall j: nat, pos: nat {:trigger FileByte(x, j, pos)} :: j < MAX_INODES ==> FileByte(x, j, pos) == FileByte(w, j, pos)
  {
    var x := GrowSize(w, i, end);
    GrowSizeVals(w, i, end);
    hide Val, Sound, Live, Mapped;
    SameValsSound(w, x);
    SameValsMapped(w, x, i);
    forall j: nat
      ensures Mapped(x, j) == Mapped(w, j)
    {
      SameValsMapped(w, x, j);
    }
  }

  /** Whatever is written where, the volume stays sound, no other inode's record moves, and
      a successful write drops no block. */
  lemma WriteFileSound(v: Vol, i: nat, data: seq<byte>, offset: nat)
    requires Inv(v) && Allocated(v, i) && offset + |data| < TWO_64
    ensures var (w, r) := WriteFile(v, i, data, offset);
            && Inv(w) && Grows(v, w, i) && (r == |data| || r == -1)
            && w.inodes[i].size == (if r >= 0 && offset + |data| > v.inodes[i].size then offset + |data| else v.inodes[i].size)
            && (r >= 0 ==> Leaked(w) == Leaked(v))
  {
    hide WriteLoop, Inv;
    WriteLoopSound(v, i, offset, data, 0);
    var (w, ok) := WriteLoop(v, i, offset, data, 0);
    GrowSizeKeeps(v, w, i, offset + |data|);
  }

  /** idkfs_write succeeds exactly when the missing blocks are there to be had; it then
      changes exactly the bytes it was given, in exactly that file. When it fails, some
      proper prefix has been written. */
  lemma WriteFileRefines(v: Vol, i: nat, data: seq<byte>, offset: nat)
    requires Inv(v) && Allocated(v, i) && offset + |data| <= ADDRESSABLE && CleanRange(v, i, offset, |data|)
    ensures var (w, r) := WriteFile(v, i, data, offset);
            && (r >= 0 <==> Fits(v, i, offset / BLOCK_SIZE, EndBlock(offset, |data|)))
            && (r >= 0 ==> |FreeSet(w.bits)| == |FreeSet(v.bits)| - Needed(v, i, offset / BLOCK_SIZE, EndBlock(offset, |data|)))
            && (r >= 0 ==> Refines(v, w, i, offset, data))
            && (r < 0 ==> exists k {:trigger data[..k]} :: 0 <= k < |data| && Refines(v, w, i, offset, data[..k]))
  {
    hide WriteLoop, Inv;
    WriteLoopSound(v, i, offset, data, 0);
    WriteLoopRefines(v, v, i, offset, data, 0);
    if |data| > 0 {
      WriteLoopFits(v, i, offset, data, 0);
    } else {
      assert WriteLoop(v, i, offset, data, 0) == (v, true) by { EmptyWrite(v, i, offset, data); }
    }
    var (w, ok) := WriteLoop(v, i, offset, data, 0);
    GrowSizeKeeps(v, w, i, offset + |data|);
    var x := if ok then GrowSize(w, i, offset + |data|) else w;
    var k :| 0 <= k <= |data| && (ok <==> k == |data|) && Refines(v, w, i, offset, data[..k]);
    assert data[..|data|] == data;
    forall j: nat, pos: nat | Allocated(v, j) && pos < ADDRESSABLE
      ensures FileByte(x, j, pos) == ByteAfter(v, i, offset, data[..k], j, pos)
    {
      assert FileByte(w, j, pos) == ByteAfter(v, i, offset, data[..k], j, pos);
    }
    assert Refines(v, x, i, offset, data[..k]);
  }

  lemma EmptyWrite(v: Vol, i: nat, offset: nat, data: seq<byte>)
    requires i < MAX_INODES && |data| == 0
    ensures WriteLoop(v, i, offset, data, 0) == (v, true)
  {
  }

  /** `out` is the longest mapped prefix of bytes offset..offset+n-1. */
  ghost predicate LongestPrefix(v: Vol, i: nat, offset: nat, n: nat, out: seq<byte>)
    requires i < MAX_INODES
  {
    && |out| <= n
    && (forall k :: 0 <= k < |out| ==> FileByte(v, i, offset + k) == Some(out[k]))
    && (|out| < n ==> FileByte(v, i, offset + |out|) == None)
  }

  lemma RunInBlock(v: Vol, i: nat, pos: nat, can: nat, k: nat)
    requires i < MAX_INODES && k < can && pos % BLOCK_SIZE + can <= BLOCK_SIZE
    ensures FileByte(v, i, pos + k) == Cell(v, i, Logical(pos), pos % BLOCK_SIZE + k)
  {
    hide Cell;
    assert (pos + k) / BLOCK_SIZE == pos / BLOCK_SIZE && (pos + k) % BLOCK_SIZE == pos % BLOCK_SIZE + k;
  }

  lemma PrefixJoin(v: Vol, i: nat, pos: nat, n: nat, chunk: seq<byte>, rest: seq<byte>)
    requires i < MAX_INODES && |chunk| <= n
    requires forall k :: 0 <= k < |chunk| ==> FileByte(v, i, pos + k) == Some(chunk[k])
    requires LongestPrefix(v, i, pos + |chunk|, n - |chunk|, rest)
    ensures LongestPrefix(v, i, pos, n, chunk + rest)
  {
    hide FileByte;
    forall k | 0 <= k < |chunk + rest|
      ensures FileByte(v, i, pos + k) == Some((chunk + rest)[k])
    {
      if k >= |chunk| {
        assert FileByte(v, i, pos + |chunk| + (k - |chunk|)) == Some(rest[k - |chunk|]);
      }
    }
  }

  lemma {:induction false} ReadLoopPrefix(v: Vol, i: nat, offset: nat, count: nat, total: nat)
    requires i < MAX_INODES && total <= count
    ensures LongestPrefix(v, i, offset + total, count - total, ReadLoop(v, i, offset, count, total))
    decreases count - total
  {
    hide GetBlock, Logical, FileByte, LongestPrefix;
    if total < count {
      var pos := offset + total;
      var can := Can(pos, count - total);
      var db := GetBlock(v, i, Logical(pos));
      RunInBlock(v, i, pos, can, 0);
      if db == NULL_BLOCK || db >= TOTAL_BLOCKS {
        EmptyPrefix(v, i, pos, count - total);
      } else {
        var chunk := v.disk[db][pos % BLOCK_SIZE..pos % BLOCK_SIZE + can];
        forall k | 0 <= k < can
          ensures FileByte(v, i, pos + k) == Some(chunk[k])
        {
          RunInBlock(v, i, pos, can, k);
        }
        ReadLoopPrefix(v, i, offset, count, total + can);
        PrefixJoin(v, i, pos, count - total, chunk, ReadLoop(v, i, offset, count, total + can));
      }
    } else {
      EmptyPrefix(v, i, offset + total, 0);
    }
  }

  lemma EmptyPrefix(v: Vol, i: nat, pos: nat, n: nat)
    requires i < MAX_INODES && (n == 0 || FileByte(v, i, pos) == None)
    ensures LongestPrefix(v, i, pos, n, [])
  {
  }

  /** idkfs_read returns exactly the longest mapped prefix of what was asked for within
      the file's size, byte for byte. */
  lemma ReadFilePrefix(v: Vol, i: nat, count: nat, offset: nat)
    requires i < MAX_INODES
    ensures var size := v.inodes[i].size;
            LongestPrefix(v, i, offset, if offset < size then Min(count, size - offset) else 0, ReadFile(v, i, count, offset))
  {
    if offset < v.inodes[i].size {
      ReadLoopPrefix(v, i, offset, Min(count, v.inodes[i].size - offset), 0);
    }
  }

  /** Reading one byte at a time until the first unmapped one. */
  function MappedPrefix(v: Vol, i: nat, offset: nat, n: nat): seq<byte>
    requires i < MAX_INODES
    decreases n
  {
    if n == 0 || FileByte(v, i, offset).None? then []
    else [FileByte(v, i, offset).value] + MappedPrefix(v, i, offset + 1, n - 1)
  }

  lemma {:induction false} PrefixIsMapped(v: Vol, i: nat, offset: nat, n: nat, out: seq<byte>)
    requires i < MAX_INODES && LongestPrefix(v, i, offset, n, out)
    ensures out == MappedPrefix(v, i, offset, n)
    decreases n
  {
    hide FileByte;
    if out != [] {
      var rest := out[1..];
      assert FileByte(v, i, offset + 0) == Some(out[0]);
      forall k | 0 <= k < |rest|
        ensures FileByte(v, i, offset + 1 + k) == Some(rest[k])
      {
        assert FileByte(v, i, offset + (k + 1)) == Some(out[k + 1]);
      }
      PrefixIsMapped(v, i, offset + 1, n - 1, rest);
    }
  }

  lemma {:induction false} MappedPrefixSame(v: Vol, w: Vol, i: nat, offset: nat, n: nat)
    requires i < MAX_INODES && forall pos :: offset <= pos < offset + n ==> FileByte(w, i, pos) == FileByte(v, i, pos)
    ensures MappedPrefix(w, i, offset, n) == MappedPrefix(v, i, offset, n)
    decreases n
  {
    hide FileByte;
    if n > 0 {
      MappedPrefixSame(v, w, i, offset + 1, n - 1);
    }
  }

  /** The chunked loop reads what the byte-at-a-time definition reads. */
  lemma ReadFileMapped(v: Vol, i: nat, count: nat, offset: nat)
    requires i < MAX_INODES
    ensures ReadFile(v, i, count, offset)
         == MappedPrefix(v, i, offset, if offset < v.inodes[i].size then Min(count, v.inodes[i].size - offset) else 0)
  {
    hide ReadFile;
    ReadFilePrefix(v, i, count, offset);
    PrefixIsMapped(v, i, offset, if offset < v.inodes[i].size then Min(count, v.inodes[i].size - offset) else 0,
                   ReadFile(v, i, count, offset));
  }

  /** A write within the direct blocks fails only when no block is left, with a block of
      its range still unmapped. */
  lemma {:induction false} WriteLoopFull(v: Vol, i: nat, offset: nat, data: seq<byte>, total: nat)
    requires Inv(v) && Allocated(v, i) && total <= |data| && offset + |data| <= DIRECT_BLOCKS * BLOCK_SIZE
    ensures !WriteLoop(v, i, offset, data, total).1 ==>
              FreeSet(WriteLoop(v, i, offset, data, total).0.bits) == {} && UnmappedBelow(WriteLoop(v, i, offset, data, total).0, i, EndBlock(offset, |data|))
    ensures Leaked(WriteLoop(v, i, offset, data, total).0) == Leaked(v)
    decreases |data| - total
  {
    hide Inv, Live, Val, FreeSet, GetBlock, WriteChunk, MapRoom, Leaked;
    if total < |data| {
      var pos := offset + total;
      var can := Can(pos, |data| - total);
      LogicalBelow(pos);
      var l := pos / BLOCK_SIZE;
      assert l < EndBlock(offset, |data|) && l < DIRECT_BLOCKS;
      ChunkFull(v, i, l, pos % BLOCK_SIZE, data[total..total + can]);
      var (w, ok) := WriteChunk(v, i, l, pos % BLOCK_SIZE, data[total..total + can]);
      if ok {
        WriteLoopFull(w, i, offset, data, total + can);
      }
    }
  }

  ghost predicate UnmappedBelow(v: Vol, i: nat, hi: nat)
    requires i < MAX_INODES
  {
    exists l: uint32 :: l < hi && GetBlock(v, i, l) == NULL_BLOCK
  }

  lemma ChunkFull(v: Vol, i: nat, l: uint32, off: nat, bytes: seq<byte>)
    requires Inv(v) && Allocated(v, i) && l < DIRECT_BLOCKS && off + |bytes| <= BLOCK_SIZE
    ensures var (w, ok) := WriteChunk(v, i, l, off, bytes);
            && Inv(w) && Allocated(w, i) && Leaked(w) == Leaked(v)
            && (!ok ==> FreeSet(w.bits) == {} && GetBlock(w, i, l) == NULL_BLOCK)
  {
    ChunkSound(v, i, l, off, bytes);
    if !WriteChunk(v, i, l, off, bytes).1 {
      TakeBlockSound(v, 0);
      assert WriteChunk(v, i, l, off, bytes) == (v, false);
    }
  }

  lemma {:induction false} MissingSome(v: Vol, i: nat, lo: nat, l: uint32, hi: nat)
    requires i < MAX_INODES && lo <= l < hi <= TWO_32 && GetBlock(v, i, l) == NULL_BLOCK
    ensures Missing(v, i, lo, hi) > 0
    decreases l - lo
  {
    if lo < l {
      MissingSome(v, i, lo + 1, l, hi);
    }
  }

  lemma {:induction false} MissingAll(v: Vol, i: nat, lo: nat, hi: nat)
    requires i < MAX_INODES && lo <= hi <= TWO_32
    requires forall l: uint32 :: lo <= l < hi ==> GetBlock(v, i, l) == NULL_BLOCK
    ensures Missing(v, i, lo, hi) == hi - lo
    decreases hi - lo
  {
    if lo < hi {
      MissingAll(v, i, lo + 1, hi);
    }
  }

  // ----- What a write can lose -----

  lemma ChunkLeaks(v: Vol, i: nat, l: uint32, off: nat, bytes: seq<byte>)
    requires Inv(v) && Allocated(v, i) && off + |bytes| <= BLOCK_SIZE
    ensures var (w, ok) := WriteChunk(v, i, l, off, bytes);
            Leaked(v) <= Leaked(w) && |Leaked(w)| <= |Leaked(v)| + (if ok then 0 else 1)
  {
    ChunkSound(v, i, l, off, bytes);
    var (w, ok) := WriteChunk(v, i, l, off, bytes);
    if !ok {
      MapBlockSound(v, i, l);
      assert w == MapBlock(v, i, l).0;
      hide WriteChunk, Inv, Val, Live, FreeSet, Leaked, SameVals;
      var lost := FreeSet(v.bits) - FreeSet(w.bits);
      assert FreeSet(v.bits) == FreeSet(w.bits) + lost;
    }
  }

  /** A write loses a block only when it fails, and then at most one; no write gives a lost
      one back. */
  lemma {:induction false} WriteLoopLeaks(v: Vol, i: nat, offset: nat, data: seq<byte>, total: nat)
    requires Inv(v) && Allocated(v, i) && total <= |data|
    ensures var (w, ok) := WriteLoop(v, i, offset, data, total);
            Leaked(v) <= Leaked(w) && |Leaked(w)| <= |Leaked(v)| + (if ok then 0 else 1)
    decreases |data| - total
  {
    hide WriteChunk, Inv, Live, Val, Leaked, FreeSet;
    if total < |data| {
      var pos := offset + total;
      var can := Can(pos, |data| - total);
      var bytes := data[total..total + can];
      ChunkLeaks(v, i, Logical(pos), pos % BLOCK_SIZE, bytes);
      ChunkSound(v, i, Logical(pos), pos % BLOCK_SIZE, bytes);
      var (w, ok) := WriteChunk(v, i, Logical(pos), pos % BLOCK_SIZE, bytes);
      if ok {
        WriteLoopLeaks(w, i, offset, data, total + can);
      }
    }
  }

  lemma WriteFileLeaks(v: Vol, i: nat, data: seq<byte>, offset: nat)
    requires Inv(v) && Allocated(v, i) && offset + |data| < TWO_64
    ensures var (w, r) := WriteFile(v, i, data, offset);
            Leaked(v) <= Leaked(w) && |Leaked(w)| <= |Leaked(v)| + (if r >= 0 then 0 else 1)
  {
    hide WriteLoop, Inv, Leaked, FreeSet, Live;
    WriteLoopLeaks(v, i, offset, data, 0);
    WriteLoopSound(v, i, offset, data, 0);
    GrowSizeKeeps(v, WriteLoop(v, i, offset, data, 0).0, i, offset + |data|);
  }

  /** Every write that starts past the reach of the pointer block fails, and while any block
      is free loses one for good. */
  lemma HighWriteLeaks(v: Vol, i: nat, data: seq<byte>, offset: nat)
    requires Inv(v) && Allocated(v, i) && |data| > 0 && offset + |data| < TWO_64
    requires Logical(offset) >= MAX_LOGICAL && v.freeBlocks > 0
    ensures var (w, r) := WriteFile(v, i, data, offset);
            r == -1 && |Leaked(w)| == |Leaked(v)| + 1 && w.freeBlocks == v.freeBlocks - 1
  {
    var l := Logical(offset);
    var can := Can(offset, |data|);
    GetBlockCases(v, i, l);
    MapLeaksIff(v, i, l);
    MapBlockSound(v, i, l);
    var w := MapBlock(v, i, l).0;
    assert WriteChunk(v, i, l, offset % BLOCK_SIZE, data[0..0 + can]) == (w, false);
    assert WriteLoop(v, i, offset, data, 0) == (w, false);
    WriteFileLeaks(v, i, data, offset);
    hide WriteFile, WriteLoop, WriteChunk, MapBlock, Val, Live, Leaked, GetBlock, SameVals;
    HighMapCounts(v, i, w);
  }

  lemma HighMapCounts(v: Vol, i: nat, w: Vol)
    requires Sound(v) && Sound(w) && Frame(v, w, i) && MapFails(v, w)
    requires Leaked(v) < Leaked(w) && |Leaked(w)| <= |Leaked(v)| + 1
    ensures |Leaked(w)| == |Leaked(v)| + 1 && w.freeBlocks == v.freeBlocks - 1
  {
    hide Val, Live, Leaked, FreeSet, SameVals, NoAlias, InData, ZeroFillShape;
    var lost := FreeSet(v.bits) - FreeSet(w.bits);
    assert FreeSet(v.bits) == FreeSet(w.bits) + lost;
    assert Leaked(w) == Leaked(v) + (Leaked(w) - Leaked(v));
    assert lost != {};
  }
}
