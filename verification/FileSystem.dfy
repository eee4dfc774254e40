/** The mounted file system, updated in place the way idkfs_core.c and idkfs_fuse.c do it.
    Every method is proved to leave exactly the volume that the function of the same code
    over values gives; what those functions keep is proved in the other modules. */
module FileSystem {
  import opened Machine
  import opened Bitmap
  import opened Volume
  import opened Ownership
  import opened FileIO
  import opened Release
  import opened Directory
  import opened Placement
  import opened Namespace
  import opened Operations
  import opened FileWrites
  import opened Paths
  import opened PathFrames
  import opened Mkfs
  import opened Runs

  /** A volume that is sound but for its bitmap keeps every block number the code follows
      inside the image. */
  lemma PointersInImage(v: Vol, i: nat, l: uint32)
    requires Placed(v) && Allocated(v, i)
    ensures i < MAX_INODES && (v.inodes[i].indirect1 == NULL_BLOCK || v.inodes[i].indirect1 < TOTAL_BLOCKS)
    ensures Volume.GetBlock(v, i, l) == NULL_BLOCK || Volume.GetBlock(v, i, l) < TOTAL_BLOCKS
  {
    var bits: seq<bv8>, n: uint32 :| 8 * |bits| == TOTAL_BLOCKS && Inv(Rebit(v, bits, n));
    var u := Rebit(v, bits, n);
    GetBlockCases(u, i, l);
    assert Live(u, Indirect(i)) || Val(u, Indirect(i)) == NULL_BLOCK;
  }

  /** What a write may rely on: the invariant, or that it only overwrites. */
  ghost predicate Writable(v: Vol, i: nat, offset: nat, n: nat)
    requires i < MAX_INODES
  {
    Placed(v) && (Inv(v) || MappedRange(v, i, offset, n))
  }

  /** Every block of the range that the loop comes to is mapped, if the range is. */
  lemma RangeMapped(v: Vol, i: nat, offset: nat, n: nat, total: nat)
    requires i < MAX_INODES && total < n
    ensures MappedRange(v, i, offset, n) ==> Volume.GetBlock(v, i, Logical(offset + total)) != NULL_BLOCK
  {
    hide Volume.GetBlock;
    if MappedRange(v, i, offset, n) {
      LogicalBelow(offset + total);
    }
  }

  /** One turn of the write loop keeps that for the rest. */
  lemma WritableStep(v: Vol, i: nat, offset: nat, n: nat, l: uint32, off: nat, bytes: seq<byte>)
    requires i < MAX_INODES && Writable(v, i, offset, n) && Allocated(v, i) && off + |bytes| <= BLOCK_SIZE
    requires Inv(v) || Volume.GetBlock(v, i, l) != NULL_BLOCK
    ensures var w := WriteChunk(v, i, l, off, bytes).0;
            && Placed(w) && Allocated(w, i) && (Inv(v) ==> Inv(w)) && (!Inv(v) ==> WriteChunk(v, i, l, off, bytes).1)
            && Writable(w, i, offset, n)
  {
    var w := WriteChunk(v, i, l, off, bytes).0;
    if Inv(v) {
      ChunkSound(v, i, l, off, bytes);
      InvPlaced(w);
    } else {
      var bits: seq<bv8>, m: uint32 :| 8 * |bits| == TOTAL_BLOCKS && Inv(Rebit(v, bits, m));
      hide Inv, Volume.GetBlock, WriteChunk;
      ChunkPlaced(v, bits, m, i, l, off, bytes);
      hide Rebit;
    }
  }

  lemma ChunkPlaced(v: Vol, bits: seq<bv8>, m: uint32, i: nat, l: uint32, off: nat, bytes: seq<byte>)
    requires 8 * |bits| == TOTAL_BLOCKS && Inv(Rebit(v, bits, m)) && Allocated(v, i) && off + |bytes| <= BLOCK_SIZE
    requires Volume.GetBlock(v, i, l) != NULL_BLOCK
    ensures var w := WriteChunk(v, i, l, off, bytes).0;
            && WriteChunk(v, i, l, off, bytes).1 && w == v.(disk := w.disk) && Inv(Rebit(w, bits, m)) && Placed(w)
            && forall k: uint32 {:trigger Volume.GetBlock(w, i, k)} :: Volume.GetBlock(w, i, k) == Volume.GetBlock(v, i, k)
  {
    var u := Rebit(v, bits, m);
    var w := WriteChunk(v, i, l, off, bytes).0;
    RebitBlocks(v, bits, m, i);
    hide Inv, WriteChunk, Volume.GetBlock;
    ChunkRebit(v, bits, m, i, l, off, bytes);
    ChunkInPlace(u, i, l, off, bytes);
    RebitBlocks(w, bits, m, i);
    assert WriteChunk(u, i, l, off, bytes).0 == Rebit(w, bits, m);
  }

  lemma Joined(a: seq<byte>, b: seq<byte>, c: seq<byte>)
    ensures a + (b + c) == a + b + c
  {
  }

  /** The bytes one turn of the read loop copies out. */
  function Chunk(v: Vol, i: nat, pos: nat, can: nat): Option<seq<byte>>
    requires i < MAX_INODES && pos % BLOCK_SIZE + can <= BLOCK_SIZE
  {
    var db := Volume.GetBlock(v, i, Logical(pos));
    if db == NULL_BLOCK || db >= TOTAL_BLOCKS then None
    else Some(v.disk[db][pos % BLOCK_SIZE..pos % BLOCK_SIZE + can])
  }

  lemma ReadLoopStep(v: Vol, i: nat, offset: nat, n: nat, total: nat)
    requires i < MAX_INODES && total <= n
    ensures total == n ==> ReadLoop(v, i, offset, n, total) == []
    ensures total < n ==>
              var can := Can(offset + total, n - total);
              ReadLoop(v, i, offset, n, total) ==
                match Chunk(v, i, offset + total, can)
                case None => []
                case Some(got) => got + ReadLoop(v, i, offset, n, total + can)
  {
  }

  lemma WriteLoopStep(v: Vol, i: nat, offset: nat, data: seq<byte>, total: nat)
    requires i < MAX_INODES && total <= |data|
    ensures total == |data| ==> WriteLoop(v, i, offset, data, total) == (v, true)
    ensures total < |data| ==>
              var pos := offset + total;
              var can := Can(pos, |data| - total);
              var (w, ok) := WriteChunk(v, i, Logical(pos), pos % BLOCK_SIZE, data[total..total + can]);
              WriteLoop(v, i, offset, data, total) == if ok then WriteLoop(w, i, offset, data, total + can) else (w, false)
  {
    hide WriteChunk;
  }

  lemma GrowsAllocated(v: Vol, w: Vol, i: nat)
    requires Grows(v, w, i)
    ensures forall j: nat :: Allocated(v, j) ==> Allocated(w, j)
  {
    hide Live;
  }

  lemma ShrinksSound(v: Vol, w: Vol, i: nat)
    requires Shrinks(v, w, i) && Allocated(v, i) && i < MAX_INODES
    ensures Sound(w) && Allocated(w, i)
  {
    hide Live, FreeSet, Sound;
  }

  lemma DirectInImage(v: Vol, i: nat, k: nat)
    requires Sound(v) && Allocated(v, i) && k < DIRECT_BLOCKS
    ensures v.inodes[i].direct[k] == NULL_BLOCK || v.inodes[i].direct[k] < TOTAL_BLOCKS
  {
    assert Val(v, Direct(i, k)) == v.inodes[i].direct[k];
  }

  lemma IndirectInImage(v: Vol, i: nat)
    requires Sound(v) && Allocated(v, i) && v.inodes[i].indirect1 != NULL_BLOCK
    ensures v.inodes[i].indirect1 < TOTAL_BLOCKS && EntriesInRange(v.disk[v.inodes[i].indirect1])
  {
    assert Val(v, Indirect(i)) == v.inodes[i].indirect1;
    assert Live(v, Indirect(i));
    EntriesInImage(v, i);
  }

  /** Releasing a file leaves every directory readable and writable as before. */
  lemma ReleasedReady(v: Vol, w: Vol, p: nat, i: nat)
    requires FsInv(v) && i < MAX_INODES && Allocated(v, p) && Cleared(v, w, i) && v.inodes[i].ftype != FT_DIR
    ensures Placed(w) && Allocated(w, p) && w.inodes[p].ftype == v.inodes[p].ftype
    ensures w.inodes[p].ftype == FT_DIR ==> DirReady(w, p) && LoadDir(w, p) == LoadDir(v, p)
  {
    assert w.inodes[p].linkCount == v.inodes[p].linkCount && w.inodes[p].ftype == v.inodes[p].ftype;
    hide Inv, Tree, LoadDir, Cleared;
    ClearedPlaced(v, w, i);
    ClearedKeepsDirs(v, w, i);
    hide DirReady;
    assert v.inodes[p].ftype == FT_DIR ==> IsDir(v, p);
  }

  lemma ReadyMapped(v: Vol, d: nat)
    requires DirReady(v, d)
    ensures d < MAX_INODES && MappedRange(v, d, 0, DIR_SIZE)
  {
    assert EndBlock(0, DIR_SIZE) == DIR_BLOCKS;
  }

  /** The parent of a file's path is the file itself (a trailing slash) or a directory. */
  lemma ParentReadable(v: Vol, path: CString)
    requires FsInv(v) && ResolveParent(v, path).Parent? && ResolvePath(v, path) >= 0
    requires v.inodes[ResolvePath(v, path)].ftype != FT_DIR
    ensures var p := ResolveParent(v, path).ino;
            Allocated(v, p) && (v.inodes[p].ftype == FT_DIR ==> LoadDir(v, p).count <= MAX_DIRENTS)
  {
    hide Inv, Tree, LoadDir, ResolveParent, DirLookup;
    RootPath(v, path);
    ParentThenLookup(v, path);
    ResolvedAllocated(v, path);
    var p := ResolveParent(v, path);
    if p.name != [] {
      UnallocatedType(v, p.ino);
      DirOfTree(v, p.ino);
    }
  }

  class Idkfs {
    const bits: array<bv8>
    const disk: array<Block>
    const inodes: array<Inode>
    var freeBlocks: uint32
    var freeInodes: uint32
    const fill: byte

    ghost predicate Shape() {
      && 8 * bits.Length == TOTAL_BLOCKS == disk.Length && inodes.Length == MAX_INODES
      && (fill == 0x00 || fill == 0xFF)
    }

    ghost function View(): Vol
      reads this, bits, disk, inodes
      requires Shape()
    {
      Vol(bits[..], disk[..], inodes[..], freeBlocks, freeInodes, fill)
    }

    ghost predicate Valid()
      reads this, bits, disk, inodes
    {
      Shape() && FsInv(View())
    }

    // ----- Blocks -----

    /** `bitmap_alloc` from the first data block, `memset`, `free_blocks--`. */
    method TakeBlock(f: byte) returns (nb: int)
      requires Shape()
      modifies this`freeBlocks, bits, disk
      ensures (View(), nb) == Volume.TakeBlock(old(View()), f)
    {
      nb := BitmapAlloc(bits, DATA_START);
      if nb >= 0 {
        disk[nb] := FillBlock(f);
        freeBlocks := Dec32(freeBlocks);
      }
    }

    method GetBlock(i: nat, logical: uint32) returns (b: uint32)
      requires Shape() && i < MAX_INODES
      requires inodes[i].indirect1 == NULL_BLOCK || inodes[i].indirect1 < TOTAL_BLOCKS
      ensures b == Volume.GetBlock(View(), i, logical)
    {
      if logical < DIRECT_BLOCKS {
        return inodes[i].direct[logical];
      }
      var idx := logical - DIRECT_BLOCKS;
      if idx < PTRS_PER_BLOCK {
        if inodes[i].indirect1 == NULL_BLOCK {
          return NULL_BLOCK;
        }
        var ptrs := disk[inodes[i].indirect1];
        return PtrAt(ptrs, idx);
      }
      return NULL_BLOCK;
    }

    method MapBlock(i: nat, logical: uint32) returns (r: int)
      requires Shape() && i < MAX_INODES
      requires inodes[i].indirect1 == NULL_BLOCK || inodes[i].indirect1 < TOTAL_BLOCKS
      modifies this`freeBlocks, bits, disk, inodes
      ensures (View(), r) == Volume.MapBlock(old(View()), i, logical)
    {
      hide Volume.TakeBlock, PutPtr;
      TakeBlockFails(View(), 0);
      var nb := TakeBlock(0);
      if nb < 0 {
        return -1;
      }
      if logical < DIRECT_BLOCKS {
        inodes[i] := inodes[i].(direct := inodes[i].direct[logical := nb]);
        return nb;
      }
      var idx := logical - DIRECT_BLOCKS;
      if idx < PTRS_PER_BLOCK {
        if inodes[i].indirect1 == NULL_BLOCK {
          TakeBlockFails(View(), fill);
          var ib := TakeBlock(fill);
          if ib < 0 {
            return -1;
          }
          inodes[i] := inodes[i].(indirect1 := ib);
        }
        var ib := inodes[i].indirect1;
        var ptrs := disk[ib];
        ptrs := PutPtr(ptrs, idx, nb);
        disk[ib] := ptrs;
        return nb;
      }
      return -1;
    }

    // ----- Files -----

    method Read(i: nat, count: nat, offset: nat) returns (out: seq<byte>)
      requires Shape() && i < MAX_INODES && Placed(View()) && Allocated(View(), i)
      ensures out == ReadFile(View(), i, count, offset)
    {
      out := [];
      if offset < inodes[i].size {
        out := ReadBlocks(i, Min(count, inodes[i].size - offset), offset);
      }
    }

    /** One turn of the read loop: nothing is the unmapped block that ends it. */
    method ReadChunk(i: nat, pos: nat, can: nat) returns (got: Option<seq<byte>>)
      requires Shape() && i < MAX_INODES && Placed(View()) && Allocated(View(), i) && pos % BLOCK_SIZE + can <= BLOCK_SIZE
      ensures got == Chunk(View(), i, pos, can)
    {
      hide Placed, Volume.GetBlock;
      PointersInImage(View(), i, Logical(pos));
      var db := GetBlock(i, Logical(pos));
      if db == NULL_BLOCK {
        return None;
      }
      var tmp := disk[db];
      return Some(tmp[pos % BLOCK_SIZE..pos % BLOCK_SIZE + can]);
    }

    /** The read loop proper. */
    method ReadBlocks(i: nat, n: nat, offset: nat) returns (out: seq<byte>)
      requires Shape() && i < MAX_INODES && Placed(View()) && Allocated(View(), i)
      ensures out == ReadLoop(View(), i, offset, n, 0)
    {
      hide Volume.GetBlock, Placed, ReadLoop, Logical, Allocated, Chunk;
      ghost var v := View();
      ghost var all := ReadLoop(v, i, offset, n, 0);
      out := [];
      var total := 0;
      while total < n
        invariant total <= n && out + ReadLoop(v, i, offset, n, total) == all
      {
        var can := Can(offset + total, n - total);
        ReadLoopStep(v, i, offset, n, total);
        var got := ReadChunk(i, offset + total, can);
        if got.None? {
          return;
        }
        Joined(out, got.value, ReadLoop(v, i, offset, n, total + can));
        out := out + got.value;
        total := total + can;
      }
      ReadLoopStep(v, i, offset, n, total);
    }

    method Write(i: nat, data: seq<byte>, offset: nat) returns (r: int)
      requires Shape() && i < MAX_INODES && Writable(View(), i, offset, |data|) && Allocated(View(), i) && offset + |data| < TWO_64
      modifies this`freeBlocks, bits, disk, inodes
      ensures (View(), r) == WriteFile(old(View()), i, data, offset)
      ensures old(Inv(View())) ==> Inv(View()) && Grows(old(View()), View(), i)
    {
      hide Volume.GetBlock, Inv, WriteLoop, Logical, WriteChunk, Grows, Volume.MapBlock, Placed, MappedRange;
      if Inv(View()) {
        WriteFileSound(View(), i, data, offset);
      }
      PointersInImage(View(), i, 0);
      var total := 0;
      while total < |data|
        invariant total <= |data| && Writable(View(), i, offset, |data|) && Allocated(View(), i)
        invariant old(Inv(View())) ==> Inv(View())
        invariant WriteLoop(View(), i, offset, data, total) == WriteLoop(old(View()), i, offset, data, 0)
      {
        var pos := offset + total;
        var can := Can(pos, |data| - total);
        RangeMapped(View(), i, offset, |data|, total);
        WriteLoopStep(View(), i, offset, data, total);
        WritableStep(View(), i, offset, |data|, Logical(pos), pos % BLOCK_SIZE, data[total..total + can]);
        var ok := WriteBlock(i, Logical(pos), pos % BLOCK_SIZE, data[total..total + can]);
        if !ok {
          return -1;
        }
        total := total + can;
      }
      WriteLoopStep(View(), i, offset, data, total);
      if offset + |data| > inodes[i].size {
        inodes[i] := inodes[i].(size := offset + |data|);
      }
      r := |data|;
    }

    /** The body of the write loop. */
    method WriteBlock(i: nat, logical: uint32, blkOff: nat, bytes: seq<byte>) returns (ok: bool)
      requires Shape() && Placed(View()) && Allocated(View(), i) && blkOff + |bytes| <= BLOCK_SIZE
      modifies this`freeBlocks, bits, disk, inodes
      ensures (View(), ok) == WriteChunk(old(View()), i, logical, blkOff, bytes)
    {
      hide Volume.GetBlock, Placed, Volume.MapBlock;
      PointersInImage(View(), i, logical);
      var db := GetBlock(i, logical);
      if db == NULL_BLOCK {
        var nb := MapBlock(i, logical);
        if nb < 0 {
          return false;
        }
        db := nb;
        inodes[i] := inodes[i].(blockCount := Inc32(inodes[i].blockCount));
      }
      var tmp := disk[db];
      tmp := Splice(tmp, blkOff, bytes);
      disk[db] := tmp;
      ok := true;
    }

    // ----- Directories -----

    method Load(d: nat) returns (dir: Directory)
      requires Shape() && d < MAX_INODES && Placed(View()) && Allocated(View(), d)
      ensures dir == LoadDir(View(), d)
    {
      hide ReadFile;
      var b := Read(d, DIR_SIZE, 0);
      dir := DirFrom(b + Zeros(DIR_SIZE - |b|));
    }

    method AddEntry(d: nat, name: CString, ino: uint32, ftype: byte) returns (r: int)
      requires Shape() && d < MAX_INODES && Inv(View()) && Allocated(View(), d)
      modifies this`freeBlocks, bits, disk, inodes
      ensures (View(), r) == DirAdd(old(View()), d, name, ino, ftype)
      ensures Inv(View()) && forall j: nat :: Allocated(old(View()), j) ==> Allocated(View(), j)
    {
      hide Inv, LoadDir, Grows, WriteFile, DirBytes;
      InvPlaced(View());
      var dir := EmptyDir();
      if inodes[d].size != 0 {
        dir := Load(d);
      }
      if dir.count >= MAX_DIRENTS {
        return -1;
      }
      dir := Append(dir, NewEntry(name, ino, ftype));
      ghost var v := View();
      var ignored := Write(d, DirBytes(dir), 0);
      GrowsAllocated(v, View(), d);
      r := 0;
    }

    method Lookup(d: nat, name: CString) returns (r: int)
      requires Shape() && d < MAX_INODES && Placed(View()) && Allocated(View(), d)
      requires LoadDir(View(), d).count <= MAX_DIRENTS
      ensures r == DirLookup(View(), d, name)
    {
      hide Inv, LoadDir, SameName;
      if inodes[d].size == 0 {
        return -1;
      }
      var dir := Load(d);
      var k := Find(dir, name);
      r := if k < dir.count then dir.entries[k].inode else -1;
    }

    /** The scan shared by lookup and remove. */
    static method Find(dir: Directory, name: CString) returns (k: nat)
      requires dir.count <= MAX_DIRENTS
      ensures k == FindEntry(dir, name, 0)
    {
      hide SameName;
      k := 0;
      while k < dir.count
        invariant k <= dir.count
        invariant FindEntry(dir, name, 0) == FindEntry(dir, name, k)
      {
        if SameName(dir.entries[k].name, name, 0) {
          return;
        }
        k := k + 1;
      }
    }

    /** Entries after idx are moved down one by one, then the last is zeroed. */
    static method CloseGap(dir: Directory, idx: nat) returns (r: Directory)
      requires idx < dir.count <= MAX_DIRENTS
      ensures r == RemoveAt(dir, idx)
    {
      var es := dir.entries;
      var i := idx;
      while i + 1 < dir.count
        invariant idx <= i < dir.count && |es| == MAX_DIRENTS
        invariant forall k :: 0 <= k < idx || i <= k < MAX_DIRENTS ==> es[k] == dir.entries[k]
        invariant forall k :: idx <= k < i ==> es[k] == dir.entries[k + 1]
      {
        es := es[i := es[i + 1]];
        i := i + 1;
      }
      es := es[dir.count - 1 := ZeroEntry()];
      assert es == RemoveAt(dir, idx).entries;
      r := Dir(dir.count - 1, es);
    }

    method RemoveEntry(d: nat, name: CString) returns (r: int)
      requires Shape() && d < MAX_INODES && Placed(View()) && Allocated(View(), d)
      requires inodes[d].ftype == FT_DIR ==> DirReady(View(), d) && LoadDir(View(), d).count <= MAX_DIRENTS
      modifies this`freeBlocks, bits, disk, inodes
      ensures (View(), r) == DirRemove(old(View()), d, name)
    {
      hide Placed, LoadDir, FindEntry, WriteFile, DirBytes, RemoveAt, MappedRange, Inv;
      if inodes[d].ftype != FT_DIR {
        return ENOTDIR;
      }
      if inodes[d].size == 0 {
        return ENOENT;
      }
      var dir := Load(d);
      var idx := Find(dir, name);
      if idx == dir.count {
        return ENOENT;
      }
      dir := CloseGap(dir, idx);
      ReadyMapped(View(), d);
      var ignored := Write(d, DirBytes(dir), 0);
      r := 0;
    }

    // ----- Inodes, create, mkdir -----

    method AllocInode(ftype: byte, links: uint32) returns (r: int)
      requires Shape()
      modifies this`freeInodes, inodes
      ensures (View(), r) == NewInode(old(View()), ftype, links)
    {
      var i := 1;
      while i < MAX_INODES
        invariant 1 <= i <= MAX_INODES && View() == old(View())
        invariant FindFreeInode(View(), 1) == FindFreeInode(View(), i)
      {
        if inodes[i].linkCount == 0 {
          inodes[i] := FreshInode(i).(ftype := ftype, linkCount := links);
          freeInodes := Dec32(freeInodes);
          return i;
        }
        i := i + 1;
      }
      r := -1;
    }

    method FreeInode(i: nat)
      requires Shape() && i < MAX_INODES
      modifies this`freeInodes, inodes
      ensures View() == InodeFree(old(View()), i)
    {
      inodes[i] := ZeroInode();
      freeInodes := Inc32(freeInodes);
    }

    method CreateFile(parent: nat, name: CString) returns (r: int)
      requires Valid() && parent < MAX_INODES && Allocated(View(), parent)
      modifies this`freeBlocks, this`freeInodes, bits, disk, inodes
      ensures Shape() && (View(), r) == Create(old(View()), parent, name)
    {
      hide Inv, Tree, DirAdd, NewInode, InodeFree, DirsKept, SameVals;
      NewInodeSound(View(), FT_FILE, 1);
      var ino := AllocInode(FT_FILE, 1);
      if ino < 0 {
        return -1;
      }
      r := AddEntry(parent, name, ino, FT_FILE);
      if r < 0 {
        FreeInode(ino);
        return -1;
      }
      r := ino;
    }

    method MakeDir(parent: nat, name: CString) returns (r: int)
      requires Valid() && parent < MAX_INODES && Allocated(View(), parent)
      modifies this`freeBlocks, this`freeInodes, bits, disk, inodes
      ensures Shape() && (View(), r) == Mkdir(old(View()), parent, name)
    {
      hide Inv, Tree, DirAdd, NewInode, DirsKept, SameVals;
      NewInodeSound(View(), FT_DIR, 2);
      r := AllocInode(FT_DIR, 2);
      if r < 0 {
        return -1;
      }
      var ignored := AddEntry(r, DOT, r, FT_DIR);
      ignored := AddEntry(r, DOTDOT, parent, FT_DIR);
      ignored := AddEntry(parent, name, r, FT_DIR);
      inodes[parent] := inodes[parent].(linkCount := Inc32(inodes[parent].linkCount));
    }

    // ----- unlink -----

    method FreeBlock(b: uint32)
      requires Shape() && b < TOTAL_BLOCKS
      modifies this`freeBlocks, bits
      ensures View() == DropBlock(old(View()), b)
    {
      BitmapClear(bits, b);
      freeBlocks := Inc32(freeBlocks);
    }

    method FreeDirect(i: nat)
      requires Shape() && i < MAX_INODES && Sound(View()) && Allocated(View(), i)
      modifies this`freeBlocks, bits, inodes
      ensures View() == DropDirect(old(View()), i, 0)
    {
      hide DropBlock, Sound, Shrinks, AllPointers, DropDirect;
      for b := 0 to DIRECT_BLOCKS
        invariant Sound(View()) && Allocated(View(), i)
        invariant DropDirect(View(), i, b) == DropDirect(old(View()), i, 0)
      {
        ghost var v := View();
        DropDirectStep(v, i, b);
        DropDirectAtShrinks(v, i, b);
        ShrinksSound(v, DropDirectAt(v, i, b), i);
        var p := inodes[i].direct[b];
        if p != NULL_BLOCK {
          DirectInImage(v, i, b);
          FreeBlock(p);
          inodes[i] := inodes[i].(direct := inodes[i].direct[b := NULL_BLOCK]);
        }
        assert View() == DropDirectAt(v, i, b);
      }
      DropDirectStep(View(), i, DIRECT_BLOCKS);
    }

    method FreeEntries(ptrs: Block)
      requires Shape() && EntriesInRange(ptrs)
      modifies this`freeBlocks, bits
      ensures View() == DropEntries(old(View()), ptrs, 0)
    {
      hide DropBlock, PtrAt;
      for p := 0 to PTRS_PER_BLOCK
        invariant DropEntries(View(), ptrs, p) == DropEntries(old(View()), ptrs, 0)
      {
        var b := PtrAt(ptrs, p);
        if b != NULL_BLOCK {
          FreeBlock(b);
        }
      }
    }

    method FreeBlocks(i: nat)
      requires Shape() && i < MAX_INODES && Inv(View()) && Allocated(View(), i)
      modifies this`freeBlocks, bits, inodes
      ensures View() == ReleaseBlocks(old(View()), i)
    {
      hide DropDirect, DropEntries, DropBlock, Sound, EntriesInRange, PtrAt;
      ghost var v := View();
      DropDirectShrinks(v, i, 0);
      FreeDirect(i);
      ghost var d := View();
      ShrinksSound(v, d, i);
      if inodes[i].indirect1 != NULL_BLOCK {
        IndirectInImage(d, i);
        FreeEntries(disk[inodes[i].indirect1]);
        FreeBlock(inodes[i].indirect1);
        inodes[i] := inodes[i].(indirect1 := NULL_BLOCK);
      }
      assert View() == DropIndirect(d, i);
      inodes[i] := inodes[i].(size := 0, blockCount := 0);
    }

    /** The rest of fuse_unlink after both resolutions. */
    method Remove(parent: nat, name: CString, ino: nat) returns (r: int)
      requires Valid() && parent < MAX_INODES && ino < MAX_INODES
      requires Allocated(View(), parent) && Allocated(View(), ino)
      requires inodes[parent].ftype == FT_DIR ==> LoadDir(View(), parent).count <= MAX_DIRENTS
      modifies this`freeBlocks, this`freeInodes, bits, disk, inodes
      ensures Shape() && (View(), r) == Unlink(old(View()), parent, name, ino)
    {
      hide Inv, Tree, LoadDir, ReleaseBlocks, DirRemove, InodeFree, Placed, DirReady, Cleared;
      if inodes[ino].ftype == FT_DIR {
        return EISDIR;
      }
      ghost var v := View();
      ReleaseCleared(v, ino);
      FreeBlocks(ino);
      ReleasedReady(v, View(), parent, ino);
      r := RemoveEntry(parent, name);
      if r < 0 {
        return;
      }
      FreeInode(ino);
      r := 0;
    }

    // ----- Paths and the FUSE calls -----

    /** resolve_path: one lookup a token. */
    method Resolve(path: CString) returns (r: int)
      requires Valid()
      ensures r == ResolvePath(View(), path)
    {
      hide Inv, Tree, Tokens, DirLookup, LoadDir, Placed;
      InvPlaced(View());
      TreeRoot(View());
      if path == [SLASH] {
        return ROOT_INODE;
      }
      var toks := Tokens(Copied(path));
      var cur: nat := ROOT_INODE;
      while toks != []
        invariant cur < MAX_INODES && Allocated(View(), cur)
        invariant Walk(View(), cur, toks) == Walk(View(), ROOT_INODE, Tokens(Copied(path)))
        decreases |toks|
      {
        if inodes[cur].ftype != FT_DIR {
          return ENOTDIR;
        }
        DirOfTree(View(), cur);
        LookupAllocated(View(), cur, toks[0]);
        var next := Lookup(cur, toks[0]);
        if next < 0 {
          return ENOENT;
        }
        cur := next;
        toks := toks[1..];
      }
      r := cur;
    }

    method ResolveUp(path: CString) returns (r: Parent)
      requires Valid()
      ensures r == ResolveParent(View(), path)
    {
      hide Inv, Tree, Walk;
      var tmp := Copied(path);
      var slash := LastSlash(tmp);
      if slash < 0 {
        return NoParent(ENOENT);
      }
      var name := Cut(tmp[slash + 1..]);
      if slash == 0 {
        return Parent(ROOT_INODE, name);
      }
      var p := Resolve(tmp[..slash]);
      r := if p < 0 then NoParent(p) else Parent(p, name);
    }

    method CreateCall(path: CString) returns (r: int)
      requires Valid() && Guard(View(), Call.CreateCall(path))
      modifies this`freeBlocks, this`freeInodes, bits, disk, inodes
      ensures Valid() && (View(), r) == FuseCreate(old(View()), path)
    {
      hide Inv, Tree, Create, ResolveParent;
      CreateStep(View(), path);
      var p := ResolveUp(path);
      if p.NoParent? {
        return p.error;
      }
      r := CreateFile(p.ino, p.name);
      if r < 0 {
        return ENOSPC;
      }
    }

    method MkdirCall(path: CString) returns (r: int)
      requires Valid() && KernelChecks(View(), Call.MkdirCall(path))
      modifies this`freeBlocks, this`freeInodes, bits, disk, inodes
      ensures Shape() && (View(), r) == FuseMkdir(old(View()), path)
      ensures Valid() <==> old(Sustains(View(), Call.MkdirCall(path)))
    {
      hide Inv, Tree, Mkdir, ResolveParent, Sustains;
      StepKeepsIff(View(), Call.MkdirCall(path));
      var p := ResolveUp(path);
      if p.NoParent? {
        return p.error;
      }
      r := MakeDir(p.ino, p.name);
      if r < 0 {
        return ENOSPC;
      }
      r := 0;
    }

    method UnlinkCall(path: CString) returns (r: int)
      requires Valid()
      modifies this`freeBlocks, this`freeInodes, bits, disk, inodes
      ensures Shape() && (View(), r) == FuseUnlink(old(View()), path)
      ensures Valid() <==> old(Sustains(View(), Call.UnlinkCall(path)))
    {
      hide Inv, Tree, Unlink, ResolveParent, ResolvePath, LoadDir, Sustains;
      StepKeepsIff(View(), Call.UnlinkCall(path));
      var p := ResolveUp(path);
      if p.NoParent? {
        return p.error;
      }
      var ino := Resolve(path);
      if ino < 0 {
        return ino;
      }
      ResolvedAllocated(View(), path);
      if inodes[ino].ftype == FT_DIR {
        UnlinkDir(View(), p.ino, p.name, ino);
        return EISDIR;
      }
      ParentReadable(View(), path);
      r := Remove(p.ino, p.name, ino);
    }

    method TruncateCall(path: CString, size: uint64) returns (r: int)
      requires Valid()
      modifies inodes
      ensures Shape() && (View(), r) == FuseTruncate(old(View()), path, size)
      ensures Valid() <==> old(Sustains(View(), Call.TruncateCall(path, size)))
    {
      hide Inv, Tree, ResolvePath, Sustains;
      StepKeepsIff(View(), Call.TruncateCall(path, size));
      var ino := Resolve(path);
      if ino < 0 {
        return ino;
      }
      inodes[ino] := inodes[ino].(size := size);
      r := 0;
    }

    method WriteCall(fh: nat, data: seq<byte>, offset: uint64) returns (r: int)
      requires Valid() && offset + |data| < TWO_64 && Guard(View(), Call.WriteCall(fh, data, offset))
      modifies this`freeBlocks, bits, disk, inodes
      ensures Valid() && (View(), r) == FuseWrite(old(View()), fh, data, offset)
    {
      hide Inv, Tree, WriteFile, Grows, Placed, MappedRange;
      InvPlaced(View());
      if fh >= MAX_INODES {
        return EBADF;
      }
      WriteKeeps(View(), fh, data, offset);
      r := Write(fh, data, offset);
    }

    // ----- mkfs -----

    constructor (fill: byte)
      requires fill == 0x00 || fill == 0xFF
      ensures Valid() && View() == Formatted(fill) && this.fill == fill
      ensures fresh(bits) && fresh(disk) && fresh(inodes)
    {
      this.fill := fill;
      bits := new bv8[TOTAL_BLOCKS / 8](_ => 0);
      disk := new Block[TOTAL_BLOCKS](_ => FillBlock(0));
      inodes := new Inode[MAX_INODES](_ => ZeroInode());
      freeBlocks := TOTAL_BLOCKS - DATA_START;
      freeInodes := MAX_INODES - 1;
      new;
      hide ZeroInode, FillBlock, FsInv, AllPointers, SetUpTo, RootInode;
      assert bits[..] == EmptyBits() && disk[..] == EmptyDisk() && inodes[..] == EmptyInodes();
      hide EmptyBits, EmptyDisk, EmptyInodes;
      MarkMetadata();
      inodes[ROOT_INODE] := RootInode();
      AddRootEntries();
    }

    method MarkMetadata()
      requires Shape()
      modifies bits
      ensures bits[..] == SetUpTo(old(bits[..]), 0, DATA_START)
    {
      hide SetBit;
      for i := 0 to DATA_START
        invariant SetUpTo(bits[..], i, DATA_START) == SetUpTo(old(bits[..]), 0, DATA_START)
      {
        BitmapSet(bits, i);
      }
    }

    /** The root's two entries, once the bitmap and the tables are set up. */
    method AddRootEntries()
      requires Shape() && View() == Blank(fill)
      modifies this`freeBlocks, bits, disk, inodes
      ensures Valid() && View() == Formatted(fill)
    {
      hide Inv, Tree, DirAdd, Live, Blank, Volume.GetBlock, FreshDir, Leaked;
      BlankInv(fill);
      FormattedInv(fill);
      var ignored := AddEntry(ROOT_INODE, DOT, ROOT_INODE, FT_DIR);
      ignored := AddEntry(ROOT_INODE, DOTDOT, ROOT_INODE, FT_DIR);
    }
  }
}
