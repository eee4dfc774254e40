/** Exactly when idkfs_write is the byte-map update it is meant to be. */
module WriteExact {
  import opened Machine
  import opened Bitmap
  import opened Volume
  import opened Ownership
  import opened FileIO
  import opened WriteRoom

  // ----- Where the bytes of a write come to be -----

  lemma MappedNowNotPointer(v: Vol, w: Vol, i: nat, l: uint32, nb: nat)
    requires Inv(v) && Allocated(v, i) && GetBlock(v, i, l) == NULL_BLOCK && MapOutcome(v, i, l, w, nb)
    ensures forall j: nat :: Val(CountBlock(w, i), Indirect(j)) != nb
  {
    GetBlockCases(v, i, l);
    CountedInv(v, w, i, l, nb);
    var x := CountBlock(w, i);
    assert Live(x, DataSlot(i, l)) && Val(x, DataSlot(i, l)) == nb;
    hide Val, Frame, MapsTo;
    forall j: nat
      ensures Val(x, Indirect(j)) != nb
    {
      NotPointerBlock(x, DataSlot(i, l), nb, j);
    }
  }

  lemma MapStays(v: Vol, w: Vol, i: nat, l: uint32, nb: nat, m: uint32)
    requires Sound(v) && Sound(w) && Allocated(v, i) && Allocated(w, i)
    requires GetBlock(v, i, l) == NULL_BLOCK && Frame(v, w, i) && MapsTo(v, w, i, l, nb)
    requires GetBlock(v, i, m) != NULL_BLOCK
    ensures GetBlock(w, i, m) == GetBlock(v, i, m)
  {
    GetBlockCases(v, i, m);
    GetBlockCases(w, i, m);
    GetBlockCases(v, i, l);
    if !Live(v, DataSlot(i, m)) {
      assert Val(v, Indirect(i)) != NULL_BLOCK;
      assert l < DIRECT_BLOCKS;
      assert Val(w, Entry(i, m - DIRECT_BLOCKS)) == Val(v, Entry(i, m - DIRECT_BLOCKS));
    }
  }

  /** A block that is mapped stays mapped to the same disk block. */
  lemma ChunkStays(v: Vol, i: nat, l: uint32, off: nat, bytes: seq<byte>, m: uint32)
    requires Inv(v) && Allocated(v, i) && off + |bytes| <= BLOCK_SIZE
    requires GetBlock(v, i, m) != NULL_BLOCK
    ensures GetBlock(WriteChunk(v, i, l, off, bytes).0, i, m) == GetBlock(v, i, m)
  {
    ChunkSound(v, i, l, off, bytes);
    var w := WriteChunk(v, i, l, off, bytes).0;
    var db := GetBlock(v, i, l);
    if db != NULL_BLOCK {
      GetBlockCases(v, i, l);
      PatchDataInv(v, DataSlot(i, l), db, off, bytes, i);
      SameGetBlock(v, w, i, m);
    } else {
      MapBlockSound(v, i, l);
      var (x, nb) := MapBlock(v, i, l);
      if nb < 0 {
        SameGetBlock(v, x, i, m);
      } else {
        MapStays(v, x, i, l, nb, m);
        MappedNowNotPointer(v, x, i, l, nb);
        PatchedGetBlock(CountBlock(x, i), nb, off, bytes, i, m);
      }
    }
  }

  lemma PatchedGetBlock(v: Vol, b: nat, off: nat, bytes: seq<byte>, i: nat, m: uint32)
    requires Allocated(v, i) && off + |bytes| <= BLOCK_SIZE && forall j: nat :: Val(v, Indirect(j)) != b
    ensures GetBlock(Patch(v, b, off, bytes), i, m) == GetBlock(v, i, m)
  {
    assert Val(v, Indirect(i)) == v.inodes[i].indirect1;
  }

  ghost predicate Constant(data: seq<byte>, x: byte) {
    forall k :: 0 <= k < |data| ==> data[k] == x
  }

  lemma MapDisk(v: Vol, w: Vol, i: nat, m: uint32)
    requires Sound(v) && Allocated(v, i) && Frame(v, w, i)
    requires GetBlock(v, i, m) < TOTAL_BLOCKS
    ensures w.disk[GetBlock(v, i, m)] == v.disk[GetBlock(v, i, m)]
  {
    GetBlockCases(v, i, m);
  }

  lemma ConstChunkKeeps(v: Vol, i: nat, l: uint32, off: nat, bytes: seq<byte>, x: byte, m: uint32, o: nat)
    requires Inv(v) && Allocated(v, i) && off + |bytes| <= BLOCK_SIZE && o < BLOCK_SIZE
    requires Constant(bytes, x) && Cell(v, i, m, o) == Some(x)
    ensures Cell(WriteChunk(v, i, l, off, bytes).0, i, m, o) == Some(x)
  {
    ChunkStays(v, i, l, off, bytes, m);
    if GetBlock(v, i, l) == NULL_BLOCK {
      MapBlockSound(v, i, l);
      var (w, nb) := MapBlock(v, i, l);
      if nb >= 0 {
        MapDisk(v, w, i, m);
      } else {
        FailedCell(v, i, l, off, bytes, m, o);
      }
    }
  }

  lemma FailedCell(v: Vol, i: nat, l: uint32, off: nat, bytes: seq<byte>, m: uint32, o: nat)
    requires Inv(v) && Allocated(v, i) && off + |bytes| <= BLOCK_SIZE && o < BLOCK_SIZE
    requires !WriteChunk(v, i, l, off, bytes).1
    ensures Cell(WriteChunk(v, i, l, off, bytes).0, i, m, o) == Cell(v, i, m, o)
  {
    FailedChunkCells(v, i, l, off, bytes);
    var pos := BLOCK_SIZE * m + o;
    assert Logical(pos) == m && pos % BLOCK_SIZE == o;
    assert FileByte(v, i, pos) == Cell(v, i, m, o);
  }

  lemma MappedNow(v: Vol, i: nat, l: uint32, off: nat, bytes: seq<byte>)
    requires Inv(v) && Allocated(v, i) && off + |bytes| <= BLOCK_SIZE
    requires GetBlock(v, i, l) == NULL_BLOCK && MapBlock(v, i, l).1 >= 0
    ensures GetBlock(WriteChunk(v, i, l, off, bytes).0, i, l) == MapBlock(v, i, l).1
  {
    MapBlockSound(v, i, l);
    var (w, nb) := MapBlock(v, i, l);
    GetBlockCases(w, i, l);
    MappedNowNotPointer(v, w, i, l, nb);
    PatchedGetBlock(CountBlock(w, i), nb, off, bytes, i, l);
  }

  lemma ChunkSets(v: Vol, i: nat, l: uint32, off: nat, bytes: seq<byte>, o: nat)
    requires Inv(v) && Allocated(v, i) && off + |bytes| <= BLOCK_SIZE && off <= o < off + |bytes|
    requires WriteChunk(v, i, l, off, bytes).1
    ensures Cell(WriteChunk(v, i, l, off, bytes).0, i, l, o) == Some(bytes[o - off])
  {
    if GetBlock(v, i, l) != NULL_BLOCK {
      GetBlockCases(v, i, l);
      ChunkStays(v, i, l, off, bytes, l);
    } else {
      MappedNow(v, i, l, off, bytes);
    }
  }

  lemma {:induction false} ConstLoopKeeps(v: Vol, i: nat, offset: nat, data: seq<byte>, total: nat, x: byte, pos: nat)
    requires Inv(v) && Allocated(v, i) && total <= |data| && Constant(data, x) && FileByte(v, i, pos) == Some(x)
    ensures FileByte(WriteLoop(v, i, offset, data, total).0, i, pos) == Some(x)
    decreases |data| - total
  {
    hide WriteChunk, Inv, Cell, Live, Val, Leaked, FreeSet;
    if total < |data| {
      var at := offset + total;
      var can := Can(at, |data| - total);
      var bytes := data[total..total + can];
      ChunkSound(v, i, Logical(at), at % BLOCK_SIZE, bytes);
      ConstChunkKeeps(v, i, Logical(at), at % BLOCK_SIZE, bytes, x, Logical(pos), pos % BLOCK_SIZE);
      var (w, ok) := WriteChunk(v, i, Logical(at), at % BLOCK_SIZE, bytes);
      if ok {
        ConstLoopKeeps(w, i, offset, data, total + can, x, pos);
      }
    }
  }

  /** After a successful write of one repeated byte every byte of its range reads as that
      byte, shared blocks and wrapped offsets included. */
  lemma {:induction false} ConstLoopSets(v: Vol, i: nat, offset: nat, data: seq<byte>, total: nat, x: byte, k: nat)
    requires Inv(v) && Allocated(v, i) && total <= k < |data| && Constant(data, x)
    requires WriteLoop(v, i, offset, data, total).1
    ensures FileByte(WriteLoop(v, i, offset, data, total).0, i, offset + k) == Some(x)
    decreases |data| - total
  {
    hide WriteChunk, Inv, Cell, Live, Val, Leaked, FreeSet;
    var at := offset + total;
    var can := Can(at, |data| - total);
    var bytes := data[total..total + can];
    ChunkSound(v, i, Logical(at), at % BLOCK_SIZE, bytes);
    var w := WriteChunk(v, i, Logical(at), at % BLOCK_SIZE, bytes).0;
    if k < total + can {
      RunInBlock(w, i, at, can, k - total);
      ChunkSets(v, i, Logical(at), at % BLOCK_SIZE, bytes, at % BLOCK_SIZE + (k - total));
      ConstLoopKeeps(w, i, offset, data, total + can, x, offset + k);
    } else {
      ConstLoopSets(w, i, offset, data, total + can, x, k);
    }
  }

  lemma {:induction false} LoopStays(v: Vol, i: nat, offset: nat, data: seq<byte>, total: nat, m: uint32)
    requires Inv(v) && Allocated(v, i) && total <= |data| && GetBlock(v, i, m) != NULL_BLOCK
    ensures GetBlock(WriteLoop(v, i, offset, data, total).0, i, m) == GetBlock(v, i, m)
    decreases |data| - total
  {
    hide WriteChunk, Inv, Live, Val, Leaked, FreeSet, GetBlock;
    if total < |data| {
      var at := offset + total;
      var can := Can(at, |data| - total);
      var bytes := data[total..total + can];
      ChunkSound(v, i, Logical(at), at % BLOCK_SIZE, bytes);
      ChunkStays(v, i, Logical(at), at % BLOCK_SIZE, bytes, m);
      var (w, ok) := WriteChunk(v, i, Logical(at), at % BLOCK_SIZE, bytes);
      if ok {
        LoopStays(w, i, offset, data, total + can, m);
      }
    }
  }

  // ----- When a write is the byte-map update -----

  /** A write of n bytes, tried with every content. */
  ghost predicate WritesRefine(v: Vol, i: nat, offset: nat, n: nat)
    requires i < MAX_INODES && offset + n < TWO_64
  {
    forall data: seq<byte> {:trigger WriteFile(v, i, data, offset)} ::
      |data| == n && WriteFile(v, i, data, offset).1 >= 0 ==> Refines(v, WriteFile(v, i, data, offset).0, i, offset, data)
  }

  lemma ConstWriteSets(v: Vol, i: nat, data: seq<byte>, offset: nat, x: byte, k: nat)
    requires Inv(v) && Allocated(v, i) && offset + |data| < TWO_64 && Constant(data, x)
    requires WriteFile(v, i, data, offset).1 >= 0 && k < |data|
    ensures FileByte(WriteFile(v, i, data, offset).0, i, offset + k) == Some(x)
  {
    hide WriteLoop, Inv, Cell, Live, Val, Leaked, FreeSet, FileByte, Constant;
    WriteLoopSound(v, i, offset, data, 0);
    GrowSizeKeeps(v, WriteLoop(v, i, offset, data, 0).0, i, offset + |data|);
    ConstLoopSets(v, i, offset, data, 0, x, k);
  }

  lemma WriteStays(v: Vol, i: nat, data: seq<byte>, offset: nat, m: uint32)
    requires Inv(v) && Allocated(v, i) && offset + |data| < TWO_64 && GetBlock(v, i, m) != NULL_BLOCK
    ensures GetBlock(WriteFile(v, i, data, offset).0, i, m) == GetBlock(v, i, m)
  {
    hide WriteLoop, Inv;
    LoopStays(v, i, offset, data, 0, m);
  }

  ghost predicate Stays(v: Vol, w: Vol, i: nat)
    requires i < MAX_INODES
  {
    forall m: uint32 {:trigger GetBlock(w, i, m)} :: GetBlock(v, i, m) != NULL_BLOCK ==> GetBlock(w, i, m) == GetBlock(v, i, m)
  }

  lemma AllStay(v: Vol, i: nat, data: seq<byte>, offset: nat)
    requires Inv(v) && Allocated(v, i) && offset + |data| < TWO_64
    ensures Stays(v, WriteFile(v, i, data, offset).0, i)
  {
    hide WriteFile, Inv, GetBlock;
    var w := WriteFile(v, i, data, offset).0;
    forall m: uint32 | GetBlock(v, i, m) != NULL_BLOCK
      ensures GetBlock(w, i, m) == GetBlock(v, i, m)
    {
      WriteStays(v, i, data, offset, m);
    }
  }

  function Repeat(n: nat, x: byte): (r: seq<byte>)
    ensures |r| == n && Constant(r, x)
  {
    seq(n, _ => x)
  }

  /** A write at or beyond 2^44 lands on a byte below. */
  lemma HighWriteSeen(v: Vol, i: nat, offset: nat, n: nat)
    requires Inv(v) && Allocated(v, i) && offset + n < TWO_64 && n > 0
    requires Room(v, i, offset, n) && offset >= ADDRESSABLE
    ensures !WritesRefine(v, i, offset, n)
  {
    hide WriteFile, Inv, Cell, Room;
    var pos := offset % ADDRESSABLE;
    LowPos(offset);
    hide Logical;
    var x: byte := if FileByte(v, i, pos) == Some(0) then 1 else 0;
    var bytes := Repeat(n, x);
    WriteSucceedsIff(v, i, bytes, offset);
    ConstWriteSets(v, i, bytes, offset, x, 0);
    var w := WriteFile(v, i, bytes, offset).0;
    assert FileByte(w, i, pos) == Some(x);
    Untouched(offset, n, pos);
    assert FileByte(w, i, pos) != ByteAfter(v, i, offset, bytes, i, pos);
  }

  lemma Untouched(offset: nat, n: nat, pos: nat)
    requires pos < ADDRESSABLE <= offset
    ensures !Touched(offset, n, pos)
  {
    assert pos / BLOCK_SIZE < TWO_32 <= offset / BLOCK_SIZE;
  }

  /** Byte o of logical block m, as a position in the file. */
  function At(m: uint32, o: nat): (pos: nat)
    requires o < BLOCK_SIZE
    ensures pos < ADDRESSABLE && pos / BLOCK_SIZE == m && pos % BLOCK_SIZE == o && Logical(pos) == m
  {
    BLOCK_SIZE * m + o
  }

  /** Two blocks without an entry of their own: what is written through one shows in the other. */
  lemma HoleSeen(v: Vol, w: Vol, i: nat, l: uint32, m: uint32, o: nat, x: byte)
    requires Inv(v) && Inv(w) && Allocated(v, i) && Allocated(w, i) && v.fill == 0 == w.fill && o < BLOCK_SIZE
    requires DIRECT_BLOCKS <= l < MAX_LOGICAL && !Live(v, DataSlot(i, l))
    requires DIRECT_BLOCKS <= m < MAX_LOGICAL && !Live(v, DataSlot(i, m))
    requires Stays(v, w, i)
    requires Cell(w, i, l, o) == Some(x) && Cell(v, i, m, o) != Some(x)
    ensures Cell(w, i, m, o) != Cell(v, i, m, o)
  {
    GetBlockCases(v, i, l);
    GetBlockCases(v, i, m);
    GetBlockCases(w, i, l);
    GetBlockCases(w, i, m);
    if GetBlock(v, i, m) == NULL_BLOCK {
      assert Val(w, Indirect(i)) != NULL_BLOCK;
      assert Val(w, Entry(i, m - DIRECT_BLOCKS)) != NULL_BLOCK;
    } else {
      assert Val(v, Indirect(i)) != NULL_BLOCK;
      assert Val(v, Entry(i, l - DIRECT_BLOCKS)) != NULL_BLOCK;
      assert GetBlock(v, i, l) == 0 == GetBlock(v, i, m);
    }
  }

  /** A hole outside the range of the write whose content the write changes. */
  lemma OutsideSeen(v: Vol, i: nat, offset: nat, n: nat, l: uint32, m: uint32)
    requires Inv(v) && Allocated(v, i) && n > 0 && offset + n <= MAX_LOGICAL * BLOCK_SIZE && Room(v, i, offset, n)
    requires offset / BLOCK_SIZE <= l <= (offset + n - 1) / BLOCK_SIZE && !Clean(v, i, l)
    requires DIRECT_BLOCKS <= m < MAX_LOGICAL && !Live(v, DataSlot(i, m))
    requires m < offset / BLOCK_SIZE || (offset + n - 1) / BLOCK_SIZE < m
    ensures !WritesRefine(v, i, offset, n)
  {
    hide WriteFile, Inv, Logical, Val, Live, Cell, Room;
    var k := if l == offset / BLOCK_SIZE then 0 else BLOCK_SIZE * l - offset;
    var o := (offset + k) % BLOCK_SIZE;
    assert 0 <= k < n && (offset + k) / BLOCK_SIZE == l;
    LogicalBelow(offset + k);
    var pos := At(m, o);
    var x: byte := if FileByte(v, i, pos) == Some(0) then 1 else 0;
    var bytes := Repeat(n, x);
    WriteSucceedsIff(v, i, bytes, offset);
    ConstWriteSets(v, i, bytes, offset, x, k);
    WriteFileSound(v, i, bytes, offset);
    var w := WriteFile(v, i, bytes, offset).0;
    assert FileByte(w, i, offset + k) == Some(x);
    assert Cell(w, i, l, o) == Some(x);
    AllStay(v, i, bytes, offset);
    HoleSeen(v, w, i, l, m, o, x);
    assert FileByte(w, i, pos) != FileByte(v, i, pos);
    assert FileByte(v, i, pos) == ByteAfter(v, i, offset, bytes, i, pos);
  }

  /** Byte k of the content is the parity of the logical block it falls in. */
  function Stripes(offset: nat, n: nat): (r: seq<byte>)
    ensures |r| == n && forall k :: 0 <= k < n ==> r[k] == (offset + k) / BLOCK_SIZE % 2
  {
    seq(n, k requires 0 <= k => (offset + k) / BLOCK_SIZE % 2)
  }

  /** Of two neighbouring entries at least one pair in four has no block of its own. */
  lemma HolePair(w: Vol, i: nat) returns (m: uint32)
    requires Inv(w) && w.fill == 0 && Live(w, Indirect(i)) && Allocated(w, i)
    ensures (m == 100 || m == 102) && GetBlock(w, i, m) == 0 == GetBlock(w, i, m + 1)
  {
    m := if Live(w, Entry(i, 100 - DIRECT_BLOCKS)) || Live(w, Entry(i, 101 - DIRECT_BLOCKS)) then 102 else 100;
    GetBlockCases(w, i, m);
    GetBlockCases(w, i, m + 1);
    assert Val(w, Indirect(i)) != NULL_BLOCK;
    assert Val(w, Entry(i, m - DIRECT_BLOCKS)) != NULL_BLOCK && Val(w, Entry(i, m + 1 - DIRECT_BLOCKS)) != NULL_BLOCK;
  }

  /** A write over nearly every entry: two whole blocks of it land in block 0. */
  lemma WideSeen(v: Vol, i: nat, offset: nat, n: nat)
    requires Inv(v) && Allocated(v, i) && offset + n <= ADDRESSABLE && v.fill == 0 && n > 0 && Room(v, i, offset, n)
    requires offset / BLOCK_SIZE < 100 && 103 < (offset + n - 1) / BLOCK_SIZE
    ensures !WritesRefine(v, i, offset, n)
  {
    hide WriteFile, Inv, Live, Val, Logical, Cell, Room;
    var stripes := Stripes(offset, n);
    WriteSucceedsIff(v, i, stripes, offset);
    WriteFileSound(v, i, stripes, offset);
    var w := WriteFile(v, i, stripes, offset).0;
    StripesClash(w, i);
    var b: uint32 :| 100 <= b <= 103 && Cell(w, i, b, 0) != Some(b % 2);
    var pos := At(b, 0);
    assert ByteAfter(v, i, offset, stripes, i, pos) == Some(stripes[pos - offset]) == Some(b % 2);
    assert FileByte(w, i, pos) != ByteAfter(v, i, offset, stripes, i, pos);
  }

  lemma StripesClash(w: Vol, i: nat)
    requires Inv(w) && Allocated(w, i) && w.fill == 0
    ensures exists b: uint32 {:trigger Cell(w, i, b, 0)} :: 100 <= b <= 103 && Cell(w, i, b, 0) != Some(b % 2)
  {
    hide Sound, BlocksCounted, Live, Val;
    if Cell(w, i, 100, 0) == Some(0) {
      CellMapped(w, i, 100);
      var m := HolePair(w, i);
      assert Cell(w, i, m, 0) == Cell(w, i, m + 1, 0);
      assert Cell(w, i, m, 0) != Some(m % 2) || Cell(w, i, m + 1, 0) != Some((m + 1) % 2);
    }
  }

  /** Some entry outside a range that leaves two of them out has no block of its own. */
  lemma HoleOutside(v: Vol, i: nat, m: uint32) returns (h: uint32)
    requires Inv(v) && v.fill == 0 && DIRECT_BLOCKS <= m < MAX_LOGICAL - 1
    ensures m <= h <= m + 1 && !Live(v, DataSlot(i, h))
  {
    h := if Live(v, Entry(i, m - DIRECT_BLOCKS)) then m + 1 else m;
  }

  lemma UncleanSeen(v: Vol, i: nat, offset: nat, n: nat)
    requires Inv(v) && Allocated(v, i) && n > 0 && offset + n <= MAX_LOGICAL * BLOCK_SIZE
    requires Room(v, i, offset, n) && !CleanRange(v, i, offset, n)
    ensures !WritesRefine(v, i, offset, n)
  {
    hide Inv, Logical, Live, WritesRefine, Room;
    var first, last := offset / BLOCK_SIZE, (offset + n - 1) / BLOCK_SIZE;
    var l: nat :| first <= l <= last && !Clean(v, i, l);
    if first >= DIRECT_BLOCKS + 2 {
      var m := HoleOutside(v, i, DIRECT_BLOCKS);
      OutsideSeen(v, i, offset, n, l, m);
    } else if last < MAX_LOGICAL - 2 {
      var m := HoleOutside(v, i, MAX_LOGICAL - 2);
      OutsideSeen(v, i, offset, n, l, m);
    } else {
      WideSeen(v, i, offset, n);
    }
  }

  lemma RoomBelow(v: Vol, i: nat, offset: nat, n: nat)
    requires i < MAX_INODES && n > 0 && Room(v, i, offset, n) && offset < ADDRESSABLE
    ensures offset + n <= MAX_LOGICAL * BLOCK_SIZE < ADDRESSABLE
  {
    hide Wanted, FreeSet;
    assert offset % ADDRESSABLE == offset;
  }

  lemma EmptyRefines(v: Vol, i: nat, offset: nat)
    requires Inv(v) && Allocated(v, i) && offset < TWO_64
    ensures Refines(v, WriteFile(v, i, [], offset).0, i, offset, [])
  {
    hide Inv, FileByte;
    EmptyWrite(v, i, offset, []);
    assert Grows(v, v, i);
    GrowSizeKeeps(v, v, i, offset);
  }

  lemma RoomRefinesIff(v: Vol, i: nat, offset: nat, n: nat)
    requires Inv(v) && Allocated(v, i) && n > 0 && offset + n < TWO_64 && Room(v, i, offset, n)
    ensures WritesRefine(v, i, offset, n) <==> offset < ADDRESSABLE && CleanRange(v, i, offset, n)
  {
    hide WriteFile, Inv, Clean, Refines, Room;
    if offset >= ADDRESSABLE {
      HighWriteSeen(v, i, offset, n);
    } else {
      RoomBelow(v, i, offset, n);
      if CleanRange(v, i, offset, n) {
        forall x: seq<byte> | |x| == n && WriteFile(v, i, x, offset).1 >= 0
          ensures Refines(v, WriteFile(v, i, x, offset).0, i, offset, x)
        {
          WriteFileRefines(v, i, x, offset);
        }
      } else {
        UncleanSeen(v, i, offset, n);
      }
    }
  }

  /** Every successful write of n bytes is the byte-map update, whatever its content, if and
      only if there are none (it is empty, or there is no room), or it starts below 2^44 and
      stays off the unused entries of a zero-filled pointer block. */
  lemma WriteRefinesIff(v: Vol, i: nat, offset: nat, n: nat)
    requires Inv(v) && Allocated(v, i) && offset + n < TWO_64
    ensures WritesRefine(v, i, offset, n) <==>
            n == 0 || !Room(v, i, offset, n) || (offset < ADDRESSABLE && CleanRange(v, i, offset, n))
  {
    hide WriteFile, Inv, CleanRange, Refines, Room;
    if n == 0 {
      EmptyRefines(v, i, offset);
      assert forall x: seq<byte> :: |x| == 0 ==> x == [];
    } else if Room(v, i, offset, n) {
      RoomRefinesIff(v, i, offset, n);
    } else {
      forall x: seq<byte> | |x| == n
        ensures WriteFile(v, i, x, offset).1 < 0
      {
        WriteSucceedsIff(v, i, x, offset);
      }
    }
  }
}
