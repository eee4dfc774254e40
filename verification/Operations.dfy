/** Each file-system call, from a state that satisfies the whole invariant. */
module Operations {
  import opened Machine
  import opened Bitmap
  import opened Volume
  import opened Ownership
  import opened FileIO
  import opened Release
  import opened Directory
  import opened Placement
  import opened Namespace
  import opened TreeSteps

  lemma KeepDir(v: Vol, w: Vol, d: nat)
    requires DirReady(v, d) && d < MAX_INODES
    requires w.inodes[d].size == v.inodes[d].size && w.inodes[d].ftype == v.inodes[d].ftype && w.inodes[d].linkCount != 0
    requires forall l: uint32 {:trigger GetBlock(w, d, l)} :: l < DIR_BLOCKS ==> GetBlock(w, d, l) == GetBlock(v, d, l)
    requires forall l: uint32, o: nat {:trigger Cell(w, d, l, o)} :: l < DIR_BLOCKS && o < BLOCK_SIZE ==> Cell(w, d, l, o) == Cell(v, d, l, o)
    ensures DirReady(w, d) && LoadDir(w, d) == LoadDir(v, d)
  {
    hide LoadDir, Cell;
    forall pos: nat | pos < DIR_SIZE
      ensures FileByte(w, d, pos) == FileByte(v, d, pos)
    {
      LogicalBelow(pos);
      assert pos / BLOCK_SIZE < DIR_BLOCKS;
    }
    SameBytesSameDir(v, w, d);
    hide GetBlock;
  }

  /** Directories stay readable and read the same. */
  ghost predicate DirsKept(v: Vol, w: Vol) {
    forall d: nat {:trigger IsDir(v, d)} :: IsDir(v, d) ==> DirReady(w, d) && LoadDir(w, d) == LoadDir(v, d)
  }

  ghost predicate DirsKeptBut(v: Vol, w: Vol, i: nat) {
    forall d: nat {:trigger DirReady(v, d)} {:trigger DirReady(w, d)} {:trigger LoadDir(w, d)} ::
      DirReady(v, d) && d != i ==> DirReady(w, d) && LoadDir(w, d) == LoadDir(v, d)
  }

  ghost predicate NewInodeMade(v: Vol, w: Vol, i: nat, t: byte, links: uint32) {
    && Inv(w) && SameVals(v, w) && DirsKept(v, w)
    && 1 <= i < MAX_INODES && !Allocated(v, i)
    && w == v.(inodes := v.inodes[i := FreshInode(i).(ftype := t, linkCount := links)], freeInodes := Dec32(v.freeInodes))
  }

  lemma NewInodeVals(v: Vol, w: Vol, i: nat, t: byte, links: uint32)
    requires i < MAX_INODES && !Allocated(v, i)
    requires w == v.(inodes := v.inodes[i := FreshInode(i).(ftype := t, linkCount := links)], freeInodes := Dec32(v.freeInodes))
    ensures SameVals(v, w)
  {
    forall s
      ensures Val(w, s) == Val(v, s)
    {
      match s case Direct(_, _) => case Indirect(_) => case Entry(_, _) =>
    }
  }

  lemma NewInodeInv(v: Vol, w: Vol, i: nat)
    requires Inv(v) && SameVals(v, w) && i < MAX_INODES && !Allocated(v, i)
    requires w == v.(inodes := w.inodes, freeInodes := w.freeInodes)
    requires forall j :: 0 <= j < MAX_INODES && j != i ==> w.inodes[j] == v.inodes[j]
    requires w.inodes[i].blockCount == 0
    ensures Inv(w)
  {
    SameValsSound(v, w);
    hide Sound;
    forall j: nat | Allocated(w, j)
      ensures w.inodes[j].blockCount == |Mapped(w, j)|
    {
      SameValsMapped(v, w, j);
      if j == i {
        assert Mapped(v, i) == {};
      }
    }
  }

  lemma NewInodeSound(v: Vol, t: byte, links: uint32)
    requires FsInv(v)
    ensures var (w, i) := NewInode(v, t, links);
            if i < 0 then w == v && FreeInodeSet(v) == {} else NewInodeMade(v, w, i, t, links)
  {
    hide LoadDir, DirReady, EntriesValid, NamedOnce, LinksCounted, InodesCounted, DotEntries;
    var (w, i) := NewInode(v, t, links);
    if i >= 0 {
      NewInodeVals(v, w, i, t, links);
      NewInodeInv(v, w, i);
      forall d: nat | IsDir(v, d)
        ensures DirReady(w, d) && LoadDir(w, d) == LoadDir(v, d)
      {
        assert w.inodes[d] == v.inodes[d];
        KeepDir(v, w, d);
      }
    }
  }

  // ----- Adding to a directory that is ready -----

  lemma DirAddReady(v: Vol, p: nat, name: CString, ino: uint32, t: byte)
    requires Inv(v) && DirReady(v, p)
    ensures var dir, w := LoadDir(v, p), DirAdd(v, p, name, ino, t).0;
            if dir.count >= MAX_DIRENTS then DirAdd(v, p, name, ino, t) == (v, -1)
            else
              && DirAdd(v, p, name, ino, t).1 == 0 && w == v.(disk := w.disk) && Inv(w) && SameVals(v, w)
              && DirReady(w, p) && LoadDir(w, p) == Append(dir, NewEntry(name, ino, t))
              && DirsKeptBut(v, w, p)
  {
    var dir := LoadDir(v, p);
    if dir.count < MAX_DIRENTS {
      var e := NewEntry(name, ino, t);
      StoreDirReady(v, p, Append(dir, e));
      var w := StoreDir(v, p, Append(dir, e)).0;
      assert DirAdd(v, p, name, ino, t) == (w, 0);
      hide StoreDir, LoadDir, DirAdd, Append, NewEntry;
      forall d: nat | DirReady(v, d) && d != p
        ensures DirReady(w, d) && LoadDir(w, d) == LoadDir(v, d)
      {
        OtherDirKept(v, w, p, d);
      }
    }
  }

  lemma OtherDirKept(v: Vol, w: Vol, p: nat, d: nat)
    requires DirReady(v, d) && d != p && d < MAX_INODES && w == v.(disk := w.disk)
    requires forall j: nat, pos: nat {:trigger FileByte(w, j, pos)} ::
               Allocated(v, j) && pos < ADDRESSABLE && j != p ==> FileByte(w, j, pos) == FileByte(v, j, pos)
    requires forall j: nat, l: uint32 {:trigger GetBlock(w, j, l)} :: Allocated(v, j) ==> GetBlock(w, j, l) == GetBlock(v, j, l)
    ensures DirReady(w, d) && LoadDir(w, d) == LoadDir(v, d)
  {
    hide LoadDir, FileByte;
    SameBytesSameDir(v, w, d);
    hide GetBlock;
  }

  // ----- Adding to a directory that has never been written -----

  /** A directory's write stays within its direct blocks, so it is never aliased. */
  lemma DirRangeClean(v: Vol, d: nat)
    ensures CleanRange(v, d, 0, DIR_SIZE) && EndBlock(0, DIR_SIZE) == DIR_BLOCKS
  {
    forall l: nat | 0 / BLOCK_SIZE <= l <= (0 + DIR_SIZE - 1) / BLOCK_SIZE
      ensures Clean(v, d, l)
    {
    }
  }

  lemma GrowsKeepsDir(v: Vol, w: Vol, i: nat, d: nat)
    requires Inv(v) && Grows(v, w, i) && d != i && DirReady(v, d)
    requires forall pos: nat :: pos < DIR_SIZE ==> FileByte(w, d, pos) == FileByte(v, d, pos)
    ensures DirReady(w, d) && LoadDir(w, d) == LoadDir(v, d)
  {
    forall l: uint32 | l < DIR_BLOCKS
      ensures GetBlock(w, d, l) == GetBlock(v, d, l)
    {
      assert w.inodes[d] == v.inodes[d];
    }
    hide LoadDir, FileByte;
    SameBytesSameDir(v, w, d);
  }

  ghost predicate FreshDir(v: Vol, i: nat) {
    Allocated(v, i) && v.inodes[i].ftype == FT_DIR && v.inodes[i].size == 0
  }

  lemma StoreNewDir(v: Vol, i: nat, dir: Directory)
    requires Inv(v) && FreshDir(v, i)
    ensures var w := StoreDir(v, i, dir).0;
            && Inv(w) && Grows(v, w, i) && DirsKeptBut(v, w, i) && Leaked(w) == Leaked(v)
            && if Missing(v, i, 0, DIR_BLOCKS) <= |FreeSet(v.bits)|
               then DirReady(w, i) && LoadDir(w, i) == dir
                    && |FreeSet(w.bits)| == |FreeSet(v.bits)| - Missing(v, i, 0, DIR_BLOCKS)
               else FreshDir(w, i) && FreeSet(w.bits) == {} && UnmappedBelow(w, i, DIR_BLOCKS)
  {
    var b := DirBytes(dir);
    var (w, r) := StoreDir(v, i, dir);
    hide DirBytes;
    DirRangeClean(v, i);
    WriteFileSound(v, i, b, 0);
    WriteFileRefines(v, i, b, 0);
    WriteLoopFull(v, i, 0, b, 0);
    hide WriteFile, StoreDir, WriteLoop, LoadDir, FileByte, Inv;
    var k :| 0 <= k <= |b| && Refines(v, w, i, 0, b[..k]) && (r >= 0 ==> k == |b|);
    assert b[..|b|] == b;
    forall d: nat | DirReady(v, d) && d != i
      ensures DirReady(w, d) && LoadDir(w, d) == LoadDir(v, d)
    {
      forall pos: nat | pos < DIR_SIZE
        ensures FileByte(w, d, pos) == FileByte(v, d, pos)
      {
        assert FileByte(w, d, pos) == ByteAfter(v, i, 0, b[..k], d, pos);
      }
      GrowsKeepsDir(v, w, i, d);
    }
    if r >= 0 {
      WrittenDirReady(v, w, i, dir);
    }
  }

  lemma WrittenDirReady(v: Vol, w: Vol, i: nat, dir: Directory)
    requires FreshDir(v, i) && Grows(v, w, i) && w.inodes[i].size == DIR_SIZE
    requires Refines(v, w, i, 0, DirBytes(dir))
    ensures DirReady(w, i) && LoadDir(w, i) == dir
  {
    hide LoadDir, DirBytes, Cell, Live;
    forall pos: nat | pos < DIR_SIZE
      ensures FileByte(w, i, pos) == Some(DirBytes(dir)[pos])
    {
      hide FileByte;
      assert FileByte(w, i, pos) == ByteAfter(v, i, 0, DirBytes(dir), i, pos);
    }
    forall l: uint32 | l < DIR_BLOCKS
      ensures GetBlock(w, i, l) != NULL_BLOCK
    {
      assert FileByte(w, i, l * BLOCK_SIZE) != None;
      ByteMapped(w, i, l);
    }
    DirBytesRead(w, i, dir);
  }

  lemma ByteMapped(w: Vol, i: nat, l: uint32)
    requires i < MAX_INODES && l < DIR_BLOCKS && FileByte(w, i, l * BLOCK_SIZE) != None
    ensures GetBlock(w, i, l) != NULL_BLOCK
  {
    assert Logical(l * BLOCK_SIZE) == l;
  }

  // ----- create -----

  lemma CreateFull(v: Vol, w: Vol, i: nat)
    requires FsInv(v) && NewInodeMade(v, w, i, FT_FILE, 1)
    ensures InodeFree(w, i) == v
  {
    hide Inv, DirsReady, EntriesValid, NamedOnce, LinksCounted, DirsKept, SameVals;
    assert v.inodes[i] == ZeroInode();
    hide ZeroInode, FreshInode;
    assert InodeFree(w, i).inodes == v.inodes;
  }

  /** idkfs_create keeps the whole invariant. It fails exactly when there is no free inode or
      the directory is full, and then changes nothing; else it takes no block and adds
      exactly the one entry. */
  lemma CreateKeeps(v: Vol, p: nat, name: CString)
    requires FsInv(v) && IsDir(v, p)
    ensures var (x, r) := Create(v, p, name);
            && FsInv(x)
            && (r < 0 <==> FreeInodeSet(v) == {} || LoadDir(v, p).count >= MAX_DIRENTS)
            && (r < 0 ==> x == v)
            && (r >= 0 ==> Added(v, x, p, r, FT_FILE, name) && SameVals(v, x)
                           && x == v.(disk := x.disk, inodes := v.inodes[r := x.inodes[r]], freeInodes := x.freeInodes))
  {
    hide NewInode, LoadDir, Inv, DirReady, DirAdd, Tree, Added, DotEntries, NewInodeMade, InodeFree;
    NewInodeSound(v, FT_FILE, 1);
    TreeDir(v, p);
    var (w, i) := NewInode(v, FT_FILE, 1);
    if i >= 0 {
      NewInodeFacts(v, w, i, FT_FILE, 1, p);
      DirAddReady(w, p, name, i, FT_FILE);
      if LoadDir(v, p).count >= MAX_DIRENTS {
        CreateFull(v, w, i);
      } else {
        var x := DirAdd(w, p, name, i, FT_FILE).0;
        CreateAdded(v, w, x, p, i, name);
        AddedTree(v, x, p, i, FT_FILE, name);
      }
    }
  }

  lemma NewInodeFacts(v: Vol, w: Vol, i: nat, t: byte, links: uint32, p: nat)
    requires NewInodeMade(v, w, i, t, links) && IsDir(v, p)
    ensures Inv(w) && SameVals(v, w) && i in FreeInodeSet(v)
    ensures w == v.(inodes := v.inodes[i := w.inodes[i]], freeInodes := w.freeInodes)
    ensures DirReady(w, p) && LoadDir(w, p) == LoadDir(v, p)
  {
    hide LoadDir, Inv, DirReady, SameVals;
  }

  lemma CreateAdded(v: Vol, w: Vol, x: Vol, p: nat, i: nat, name: CString)
    requires FsInv(v) && IsDir(v, p) && NewInodeMade(v, w, i, FT_FILE, 1) && LoadDir(v, p).count < MAX_DIRENTS
    requires x == w.(disk := x.disk) && DirReady(x, p) && LoadDir(x, p) == Append(LoadDir(w, p), NewEntry(name, i, FT_FILE))
    requires DirsKeptBut(w, x, p)
    ensures Added(v, x, p, i, FT_FILE, name)
  {
    hide LoadDir, Inv, DirReady, EntriesValid, NamedOnce, LinksCounted, DotEntries, DirsReady, InodesCounted, Append, NewEntry;
    forall d: nat | IsDir(v, d)
      ensures DirReady(x, d) && LoadDir(x, d) == AddedDir(v, p, i, FT_FILE, name, d)
    {
      assert DirReady(w, d) && LoadDir(w, d) == LoadDir(v, d);
      assert d != p ==> LoadDir(x, d) == LoadDir(w, d);
    }
  }

  // ----- mkdir -----

  lemma AddLinkKeeps(v: Vol, p: nat)
    requires Inv(v) && Allocated(v, p) && Inc32(v.inodes[p].linkCount) != 0
    ensures var x := AddLink(v, p);
            && Inv(x) && SameVals(v, x)
            && forall d: nat {:trigger DirReady(v, d)} {:trigger LoadDir(x, d)} :: DirReady(v, d) ==> DirReady(x, d) && LoadDir(x, d) == LoadDir(v, d)
  {
    var x := AddLink(v, p);
    forall s
      ensures Val(x, s) == Val(v, s)
    {
      match s case Direct(_, _) => case Indirect(_) => case Entry(_, _) =>
    }
    SameValsSound(v, x);
    forall j: nat
      ensures Mapped(x, j) == Mapped(v, j)
    {
      SameValsMapped(v, x, j);
    }
    hide LoadDir, Sound, Val;
    forall d: nat | DirReady(v, d)
      ensures DirReady(x, d) && LoadDir(x, d) == LoadDir(v, d)
    {
      KeepDir(v, x, d);
    }
  }

  lemma DirAddNew(v: Vol, i: nat, name: CString, ino: uint32, t: byte)
    requires Inv(v) && FreshDir(v, i)
    ensures DirAdd(v, i, name, ino, t) == (StoreDir(v, i, Append(EmptyDir(), NewEntry(name, ino, t))).0, 0)
  {
    hide StoreDir, LoadDir;
  }

  ghost predicate MkdirRoom(v: Vol, p: nat)
    requires p < MAX_INODES
  {
    LoadDir(v, p).count < MAX_DIRENTS && |FreeSet(v.bits)| >= DIR_BLOCKS
  }

  /** The new directory's own two entries. */
  lemma MkdirDots(v: Vol, w: Vol, p: nat, i: nat)
    requires FsInv(v) && IsDir(v, p) && NewInodeMade(v, w, i, FT_DIR, 2)
    ensures var a := DirAdd(w, i, DOT, i, FT_DIR).0;
            var b := DirAdd(a, i, DOTDOT, p, FT_DIR).0;
            && Inv(b) && Grows(w, b, i) && DirsKeptBut(w, b, i) && Leaked(b) == Leaked(w)
            && if |FreeSet(v.bits)| >= DIR_BLOCKS
               then DirReady(b, i) && LoadDir(b, i) == DotDir(i, p) && |FreeSet(b.bits)| == |FreeSet(v.bits)| - DIR_BLOCKS
               else FreshDir(b, i)
  {
    hide LoadDir, Inv, DirReady, DirAdd, Tree, DirsKept, Leaked, Live, DotDir;
    var e := NewEntry(DOT, i, FT_DIR);
    var a := DirAdd(w, i, DOT, i, FT_DIR).0;
    NewDirUnmapped(v, w, i);
    hide NewInodeMade, Missing;
    DirAddNew(w, i, DOT, i, FT_DIR);
    StoreNewDir(w, i, Append(EmptyDir(), e));
    hide StoreDir, NewEntry, Missing, EmptyDir, FreeSet, Leaked, Grows, DirsKeptBut, SameVals;
    if |FreeSet(v.bits)| >= DIR_BLOCKS {
      DotDotAdded(w, a, i, p);
    } else {
      MkdirDotDotFull(a, i, p);
      GrowsTrans(w, a, DirAdd(a, i, DOTDOT, p, FT_DIR).0, i);
    }
  }

  lemma NewDirUnmapped(v: Vol, w: Vol, i: nat)
    requires NewInodeMade(v, w, i, FT_DIR, 2)
    ensures Inv(w) && FreshDir(w, i) && w.bits == v.bits && Missing(w, i, 0, DIR_BLOCKS) == DIR_BLOCKS
  {
    MissingAll(w, i, 0, DIR_BLOCKS);
  }

  lemma DotDotAdded(w: Vol, a: Vol, i: nat, p: nat)
    requires Inv(a) && DirReady(a, i) && LoadDir(a, i) == Append(EmptyDir(), NewEntry(DOT, i, FT_DIR)) && p < MAX_INODES
    requires Grows(w, a, i) && DirsKeptBut(w, a, i)
    ensures var b := DirAdd(a, i, DOTDOT, p, FT_DIR).0;
            && Inv(b) && Grows(w, b, i) && DirsKeptBut(w, b, i) && Leaked(b) == Leaked(a) && b.bits == a.bits
            && DirReady(b, i) && LoadDir(b, i) == DotDir(i, p)
  {
    assert i < MAX_INODES;
    hide LoadDir, Inv, DirReady, DirAdd, NewEntry, EmptyDir, Leaked, FreeSet, Live, SameVals;
    var b := DirAdd(a, i, DOTDOT, p, FT_DIR).0;
    AppendToEmpty(NewEntry(DOT, i, FT_DIR));
    DirAddReady(a, i, DOTDOT, p, FT_DIR);
    SameValsGrows(w, a, b, i);
    LeakedSame(a, b);
  }

  lemma AppendToEmpty(e: DirEntry)
    ensures Append(EmptyDir(), e).count == 1
  {
  }

  lemma SameValsGrows(w: Vol, a: Vol, b: Vol, i: nat)
    requires Grows(w, a, i) && b == a.(disk := b.disk) && SameVals(a, b)
    ensures Grows(w, b, i)
  {
    hide Val;
    assert forall s :: Live(b, s) <==> Live(a, s);
  }

  lemma MkdirDotDotFull(a: Vol, i: nat, p: nat)
    requires Inv(a) && FreshDir(a, i) && FreeSet(a.bits) == {} && UnmappedBelow(a, i, DIR_BLOCKS) && p < MAX_INODES
    ensures var b := DirAdd(a, i, DOTDOT, p, FT_DIR).0;
            Inv(b) && Grows(a, b, i) && DirsKeptBut(a, b, i) && FreshDir(b, i) && Leaked(b) == Leaked(a)
  {
    hide LoadDir, Inv, DirReady, DirAdd, StoreDir, NewEntry, EmptyDir, Append;
    DirAddNew(a, i, DOTDOT, p, FT_DIR);
    StoreNewDir(a, i, Append(EmptyDir(), NewEntry(DOTDOT, p, FT_DIR)));
    var l: uint32 :| l < DIR_BLOCKS && GetBlock(a, i, l) == NULL_BLOCK;
    MissingSome(a, i, 0, l, DIR_BLOCKS);
  }

  /** The volume with the new directory written but not yet named. */
  ghost predicate Unnamed(v: Vol, b: Vol, i: nat) {
    && Inv(b) && 1 <= i < MAX_INODES && !Allocated(v, i)
    && b.freeInodes == Dec32(v.freeInodes)
    && (forall j: nat {:trigger b.inodes[j]} {:trigger v.inodes[j]} :: j < MAX_INODES && j != i ==> b.inodes[j] == v.inodes[j])
    && b.inodes[i].ftype == FT_DIR && b.inodes[i].linkCount == 2
    && DirsKept(v, b)
  }

  lemma MkdirUnnamed(v: Vol, w: Vol, b: Vol, i: nat)
    requires NewInodeMade(v, w, i, FT_DIR, 2) && Inv(b) && Grows(w, b, i) && DirsKeptBut(w, b, i)
    ensures Unnamed(v, b, i)
  {
    hide LoadDir, Inv, DirReady, Live, SameVals;
    forall d: nat | IsDir(v, d)
      ensures DirReady(b, d) && LoadDir(b, d) == LoadDir(v, d)
    {
      assert DirReady(w, d);
    }
  }

  lemma NamedAdded(v: Vol, b: Vol, x: Vol, p: nat, i: nat, name: CString)
    requires Unnamed(v, b, i) && IsDir(v, p) && LoadDir(v, p).count < MAX_DIRENTS
    requires DirReady(b, i) && LoadDir(b, i) == DotDir(i, p)
    requires x.freeInodes == b.freeInodes
    requires x.inodes == b.inodes[p := b.inodes[p].(linkCount := Inc32(b.inodes[p].linkCount))]
    requires DirReady(x, p) && LoadDir(x, p) == Append(LoadDir(b, p), NewEntry(name, i, FT_DIR)) && DirsKeptBut(b, x, p)
    ensures Added(v, x, p, i, FT_DIR, name)
  {
    hide LoadDir, Inv, DirReady, Append, NewEntry, DotDir;
    forall d: nat | IsDir(v, d)
      ensures DirReady(x, d) && LoadDir(x, d) == AddedDir(v, p, i, FT_DIR, name, d)
    {
      assert DirReady(b, d) && LoadDir(b, d) == LoadDir(v, d);
    }
    assert DirReady(b, p) && i != p;
  }

  /** Naming the new directory and counting the link. */
  ghost predicate NamedIn(b: Vol, x: Vol, p: nat, i: nat, name: CString)
    requires p < MAX_INODES && i < MAX_INODES
  {
    && Inv(x) && x.bits == b.bits && x.fill == b.fill && SameVals(b, x) && x.freeInodes == b.freeInodes
    && x.inodes == b.inodes[p := b.inodes[p].(linkCount := Inc32(b.inodes[p].linkCount))]
    && if LoadDir(b, p).count < MAX_DIRENTS
       then DirReady(x, p) && LoadDir(x, p) == Append(LoadDir(b, p), NewEntry(name, i, FT_DIR)) && DirsKeptBut(b, x, p)
       else forall d: nat :: DirReady(b, d) ==> LoadDir(x, d) == LoadDir(b, d)
  }

  lemma UnnamedParent(v: Vol, b: Vol, p: nat, i: nat)
    requires Tree(v) && IsDir(v, p) && Unnamed(v, b, i)
    ensures Inv(b) && p < MAX_INODES && DirReady(b, p) && LoadDir(b, p) == LoadDir(v, p)
    ensures Allocated(b, p) && Inc32(b.inodes[p].linkCount) != 0
  {
    hide LoadDir, Inv, DirReady, Tree, Named;
    LinkNotWrapped(v, p);
  }

  lemma MkdirName(v: Vol, b: Vol, p: nat, i: nat, name: CString)
    requires Tree(v) && IsDir(v, p) && Unnamed(v, b, i) && i < MAX_INODES
    ensures NamedIn(b, AddLink(DirAdd(b, p, name, i, FT_DIR).0, p), p, i, name)
  {
    hide LoadDir, Inv, DirReady, DirAdd, NewEntry, Append, Val, Tree, IsDir, Unnamed;
    UnnamedParent(v, b, p, i);
    DirAddReady(b, p, name, i, FT_DIR);
    AddLinkKeeps(DirAdd(b, p, name, i, FT_DIR).0, p);
  }

  lemma NothingLost(v: Vol, w: Vol, b: Vol, x: Vol, p: nat, i: nat, name: CString)
    requires SameVals(v, w) && w.bits == v.bits && w.fill == v.fill
    requires Leaked(b) == Leaked(w) && p < MAX_INODES && i < MAX_INODES && NamedIn(b, x, p, i, name)
    ensures Leaked(x) == Leaked(v)
  {
    hide LoadDir, Inv, DirReady, Leaked;
    LeakedSame(v, w);
    LeakedSame(b, x);
  }

  lemma MkdirOk(v: Vol, w: Vol, p: nat, i: nat, name: CString)
    requires FsInv(v) && IsDir(v, p) && MkdirRoom(v, p) && NewInodeMade(v, w, i, FT_DIR, 2)
    ensures var a := DirAdd(w, i, DOT, i, FT_DIR).0;
            var b := DirAdd(a, i, DOTDOT, p, FT_DIR).0;
            var x := AddLink(DirAdd(b, p, name, i, FT_DIR).0, p);
            && FsInv(x) && Added(v, x, p, i, FT_DIR, name) && Leaked(x) == Leaked(v)
            && |FreeSet(x.bits)| == |FreeSet(v.bits)| - DIR_BLOCKS
  {
    MkdirDots(v, w, p, i);
    hide LoadDir, Inv, DirReady, DirAdd, Tree, Added, Append, NewEntry, DotDir, FreeSet, SameVals, Grows, AddLink;
    var a := DirAdd(w, i, DOT, i, FT_DIR).0;
    var b := DirAdd(a, i, DOTDOT, p, FT_DIR).0;
    MkdirUnnamed(v, w, b, i);
    UnnamedParent(v, b, p, i);
    MkdirName(v, b, p, i, name);
    var x := AddLink(DirAdd(b, p, name, i, FT_DIR).0, p);
    NothingLost(v, w, b, x, p, i, name);
    NamedAdded(v, b, x, p, i, name);
    AddedTree(v, x, p, i, FT_DIR, name);
  }

  lemma NotReady(x: Vol, i: nat)
    requires IsDir(x, i) && x.inodes[i].size != DIR_SIZE
    ensures !Tree(x)
  {
    if Tree(x) {
      TreeDir(x, i);
    }
  }

  lemma MkdirNoSpace(v: Vol, w: Vol, p: nat, i: nat, name: CString)
    requires FsInv(v) && IsDir(v, p) && |FreeSet(v.bits)| < DIR_BLOCKS && NewInodeMade(v, w, i, FT_DIR, 2)
    ensures var a := DirAdd(w, i, DOT, i, FT_DIR).0;
            var b := DirAdd(a, i, DOTDOT, p, FT_DIR).0;
            var x := AddLink(DirAdd(b, p, name, i, FT_DIR).0, p);
            Inv(x) && !Tree(x) && Leaked(x) == Leaked(v)
  {
    MkdirDots(v, w, p, i);
    hide LoadDir, Inv, DirAdd, Append, NewEntry, DotDir, FreeSet, SameVals, Grows, DirReady, Tree, AddLink;
    var a := DirAdd(w, i, DOT, i, FT_DIR).0;
    var b := DirAdd(a, i, DOTDOT, p, FT_DIR).0;
    MkdirUnnamed(v, w, b, i);
    UnnamedParent(v, b, p, i);
    MkdirName(v, b, p, i, name);
    NothingLost(v, w, b, AddLink(DirAdd(b, p, name, i, FT_DIR).0, p), p, i, name);
    NotReady(AddLink(DirAdd(b, p, name, i, FT_DIR).0, p), i);
  }

  lemma MkdirFullParent(v: Vol, w: Vol, p: nat, i: nat, name: CString)
    requires FsInv(v) && IsDir(v, p) && NewInodeMade(v, w, i, FT_DIR, 2)
    requires |FreeSet(v.bits)| >= DIR_BLOCKS && LoadDir(v, p).count >= MAX_DIRENTS
    ensures var a := DirAdd(w, i, DOT, i, FT_DIR).0;
            var b := DirAdd(a, i, DOTDOT, p, FT_DIR).0;
            var x := AddLink(DirAdd(b, p, name, i, FT_DIR).0, p);
            Inv(x) && !Tree(x) && Leaked(x) == Leaked(v)
  {
    MkdirDots(v, w, p, i);
    hide LoadDir, Inv, DirAdd, DirReady, Append, NewEntry, FreeSet, SameVals, Grows, AddLink;
    var a := DirAdd(w, i, DOT, i, FT_DIR).0;
    var b := DirAdd(a, i, DOTDOT, p, FT_DIR).0;
    MkdirUnnamed(v, w, b, i);
    UnnamedParent(v, b, p, i);
    MkdirName(v, b, p, i, name);
    var x := AddLink(DirAdd(b, p, name, i, FT_DIR).0, p);
    NothingLost(v, w, b, x, p, i, name);
    DotDirNamed(i, p);
    hide DotDir, Named, Tree;
    forall d: nat, k: nat
      ensures !Names(x, d, k, i)
    {
      OrphanUnnamed(v, b, x, p, i, d, k);
    }
    if Tree(x) {
      TreeNamed(x, i);
    }
  }

  lemma TreeNamed(x: Vol, i: nat)
    requires Tree(x) && Allocated(x, i) && i != ROOT_INODE
    ensures exists d: nat, k: nat :: Names(x, d, k, i)
  {
  }

  lemma OrphanUnnamed(v: Vol, b: Vol, x: Vol, p: nat, i: nat, d: nat, k: nat)
    requires Tree(v) && IsDir(v, p) && Unnamed(v, b, i)
    requires x.inodes == b.inodes[p := b.inodes[p].(linkCount := Inc32(b.inodes[p].linkCount))]
    requires DirReady(b, i) && Named(LoadDir(b, i)) == []
    requires forall e: nat :: DirReady(b, e) ==> LoadDir(x, e) == LoadDir(b, e)
    ensures !Names(x, d, k, i)
  {
    hide LoadDir, DirReady, Named, Inv, DotEntries, NamedOnce, LinksCounted, InodesCounted;
    if d != i && IsDir(x, d) {
      assert IsDir(v, d);
      assert DirReady(b, d);
      assert Names(x, d, k, i) ==> Names(v, d, k, i);
    }
  }

  /** idkfs_mkdir never returns an error once it has an inode; it keeps the invariant if and
      only if there was a free entry in the parent and nine free blocks, which it then uses
      up exactly. */
  lemma MkdirKeepsIff(v: Vol, p: nat, name: CString)
    requires FsInv(v) && IsDir(v, p)
    ensures var (x, r) := Mkdir(v, p, name);
            && Inv(x) && Leaked(x) == Leaked(v) && (r < 0 <==> FreeInodeSet(v) == {}) && (r < 0 ==> x == v)
            && (r >= 0 ==> (FsInv(x) <==> MkdirRoom(v, p)))
            && (r >= 0 && MkdirRoom(v, p) ==>
                  Added(v, x, p, r, FT_DIR, name) && |FreeSet(x.bits)| == |FreeSet(v.bits)| - DIR_BLOCKS)
  {
    NewInodeSound(v, FT_DIR, 2);
    var (w, i) := NewInode(v, FT_DIR, 2);
    hide NewInode, LoadDir, Inv, DirReady, DirAdd, Tree, Added, NewInodeMade, FreeSet;
    if i >= 0 {
      NewInodeFacts(v, w, i, FT_DIR, 2, p);
      if MkdirRoom(v, p) {
        MkdirOk(v, w, p, i, name);
      } else if |FreeSet(v.bits)| < DIR_BLOCKS {
        MkdirNoSpace(v, w, p, i, name);
      } else {
        MkdirFullParent(v, w, p, i, name);
      }
    }
  }

  // ----- unlink -----

  lemma ClearedKeepsDirs(v: Vol, w: Vol, i: nat)
    requires Tree(v) && i < MAX_INODES && v.inodes[i].ftype != FT_DIR && Cleared(v, w, i)
    ensures DirsKept(v, w)
  {
    hide LoadDir, DirReady, EntriesValid, NamedOnce, LinksCounted, InodesCounted, DotEntries, Rooted;
    forall d: nat | IsDir(v, d)
      ensures DirReady(w, d) && LoadDir(w, d) == LoadDir(v, d)
    {
      KeepDir(v, w, d);
    }
  }

  /** The same directories, types and links. */
  ghost predicate SameNamespace(v: Vol, w: Vol) {
    && DirsKept(v, w) && w.freeInodes == v.freeInodes
    && (forall j: nat {:trigger w.inodes[j]} :: j < MAX_INODES ==>
          && w.inodes[j].linkCount == v.inodes[j].linkCount && w.inodes[j].ftype == v.inodes[j].ftype
          && (!Allocated(v, j) ==> w.inodes[j] == v.inodes[j]))
  }

  lemma SameNames(v: Vol, w: Vol, d: nat, k: nat, j: nat)
    requires SameNamespace(v, w)
    ensures Allocated(w, d) <==> Allocated(v, d)
    ensures IsDir(w, d) <==> IsDir(v, d)
    ensures IsDir(v, d) ==> DirReady(w, d) && LoadDir(w, d) == LoadDir(v, d)
    ensures Names(w, d, k, j) <==> Names(v, d, k, j)
    ensures Allocated(v, d) ==> w.inodes[d].ftype == v.inodes[d].ftype && w.inodes[d].linkCount == v.inodes[d].linkCount
  {
    hide LoadDir, DirReady, Named;
  }

  lemma SameTreeDirs(v: Vol, w: Vol)
    requires Tree(v) && SameNamespace(v, w)
    ensures DirsReady(w)
  {
    hide LoadDir, DirReady, Named, Tree, SameNamespace, Names;
    forall d: nat | IsDir(w, d)
      ensures DirReady(w, d) && DotEntries(w, d)
    {
      SameNames(v, w, d, 0, 0);
      TreeDir(v, d);
      SameNames(v, w, LoadDir(v, d).entries[1].inode, 0, 0);
      DotsSame(v, w, d);
    }
    SameNames(v, w, ROOT_INODE, 0, 0);
    TreeRoot(v);
    hide DotEntries;
  }

  lemma TreeRoot(v: Vol)
    requires Tree(v)
    ensures IsDir(v, ROOT_INODE) && LoadDir(v, ROOT_INODE).entries[1].inode == ROOT_INODE
  {
  }

  lemma SameTreeNames(v: Vol, w: Vol)
    requires Tree(v) && SameNamespace(v, w)
    ensures EntriesValid(w) && NamedOnce(w)
  {
    hide LoadDir, DirReady, Named, Names, DotEntries, SameNamespace, DirsReady, LinksCounted, InodesCounted;
    forall d: nat, k: nat, i: nat | Names(w, d, k, i)
      ensures i != ROOT_INODE && Allocated(w, i) && IsDir(w, d) && k < |Named(LoadDir(w, d))|
      ensures Named(LoadDir(w, d))[k].ftype == w.inodes[i].ftype
      ensures w.inodes[i].ftype == FT_DIR ==> LoadDir(w, i).entries[1].inode == d
    {
      NamesDir(w, d, k, i);
      SameNames(v, w, d, k, i);
      SameNames(v, w, i, k, i);
    }
    forall i: nat | Allocated(w, i) && i != ROOT_INODE
      ensures exists d: nat, k: nat :: Names(w, d, k, i)
    {
      SameNames(v, w, i, 0, 0);
      var d: nat, k: nat :| Names(v, d, k, i);
      SameNames(v, w, d, k, i);
      assert Names(w, d, k, i);
    }
    forall d: nat, k: nat, e: nat, m: nat, i: nat | Names(w, d, k, i) && Names(w, e, m, i)
      ensures d == e && k == m
    {
      SameNames(v, w, d, k, i);
      SameNames(v, w, e, m, i);
    }
  }

  lemma SameTreeInodes(v: Vol, w: Vol)
    requires Tree(v) && SameNamespace(v, w)
    ensures LinksCounted(w) && InodesCounted(w)
  {
    hide LoadDir, DirReady, Named, Names, SubdirCount, DirsReady, EntriesValid, NamedOnce;
    forall i: nat
      ensures Allocated(w, i) <==> Allocated(v, i)
      ensures Allocated(w, i) && IsDir(v, i) ==> LoadDir(w, i) == LoadDir(v, i)
    {
      SameNames(v, w, i, 0, 0);
    }
    assert FreeInodeSet(w) == FreeInodeSet(v);
  }

  lemma SameTreeRooted(v: Vol, w: Vol)
    requires Tree(v) && SameNamespace(v, w)
    ensures Rooted(w)
  {
    hide LoadDir, DirReady, Tree, Names, SameNamespace, Climb;
    forall e: nat | IsDir(v, e)
      ensures LoadDir(w, e).entries[1] == LoadDir(v, e).entries[1]
    {
      SameNames(v, w, e, 0, 0);
    }
    forall d: nat | IsDir(w, d)
      ensures exists k: nat :: Climb(w, d, k) == ROOT_INODE
    {
      SameNames(v, w, d, 0, 0);
      RootedSame(v, w, d);
    }
  }

  lemma SameTree(v: Vol, w: Vol)
    requires Tree(v) && SameNamespace(v, w)
    ensures Tree(w)
  {
    SameTreeDirs(v, w);
    SameTreeNames(v, w);
    SameTreeInodes(v, w);
    SameTreeRooted(v, w);
  }

  lemma InodeFreeKeeps(v: Vol, i: nat)
    requires Inv(v) && i < MAX_INODES
    requires v.inodes[i].direct == AllPointers(NULL_BLOCK) && v.inodes[i].indirect1 == NULL_BLOCK
    ensures var w := InodeFree(v, i);
            && Inv(w) && SameVals(v, w)
            && forall d: nat {:trigger DirReady(v, d)} {:trigger LoadDir(w, d)} :: DirReady(v, d) && d != i ==> DirReady(w, d) && LoadDir(w, d) == LoadDir(v, d)
  {
    var w := InodeFree(v, i);
    forall s
      ensures Val(w, s) == Val(v, s)
    {
      match s case Direct(_, _) => case Indirect(_) => case Entry(_, _) =>
    }
    SameValsSound(v, w);
    forall j: nat
      ensures Mapped(w, j) == Mapped(v, j)
    {
      SameValsMapped(v, w, j);
    }
    hide LoadDir, Sound, Val;
    forall d: nat | DirReady(v, d) && d != i
      ensures DirReady(w, d) && LoadDir(w, d) == LoadDir(v, d)
    {
      KeepDir(v, w, d);
    }
  }

  lemma FoundIsNamed(v: Vol, p: nat, name: CString)
    requires Tree(v) && IsDir(v, p) && DirLookup(v, p, name) >= 0
    ensures LoadDir(v, p).count <= MAX_DIRENTS
    ensures var dir, k := LoadDir(v, p), FindEntry(LoadDir(v, p), name, 0);
            && k < dir.count && dir.entries[k].inode == DirLookup(v, p, name)
            && Allocated(v, dir.entries[k].inode)
            && (v.inodes[dir.entries[k].inode].ftype != FT_DIR ==> k >= 2)
  {
    TreeDir(v, p);
    hide LoadDir, Tree, FindEntry;
    var k := FindEntry(LoadDir(v, p), name, 0);
    if k >= 2 {
      EntryAllocated(v, p, k);
    } else {
      NewEntryInode(DOT, p, FT_DIR);
      hide NewEntry;
    }
  }

  lemma EntryAllocated(v: Vol, p: nat, k: nat)
    requires Tree(v) && IsDir(v, p) && 2 <= k < LoadDir(v, p).count <= MAX_DIRENTS
    ensures Allocated(v, LoadDir(v, p).entries[k].inode)
  {
    hide LoadDir, DirReady, DirsReady, NamedOnce, LinksCounted, InodesCounted;
    assert Named(LoadDir(v, p))[k - 2] == LoadDir(v, p).entries[k];
    assert Names(v, p, k - 2, LoadDir(v, p).entries[k].inode);
  }

  /** Storing into a ready directory of a volume that is sound but for its bitmap. */
  lemma StorePlaced(u: Vol, bits: seq<bv8>, n: uint32, p: nat, dir: Directory)
    requires 8 * |bits| == TOTAL_BLOCKS && Inv(Rebit(u, bits, n)) && DirReady(u, p)
    ensures var y := StoreDir(u, p, dir).0;
            && StoreDir(u, p, dir).1 >= 0 && y == u.(disk := y.disk) && DirsKeptBut(u, y, p)
            && DirReady(y, p) && LoadDir(y, p) == dir
  {
    hide LoadDir, GetBlock, Inv, StoreDir;
    var u0 := Rebit(u, bits, n);
    RebitDir(u, bits, n, p);
    StoreDirReady(u0, p, dir);
    StoreRebit(u0, u.bits, u.freeBlocks, p, dir);
    var y0, y := StoreDir(u0, p, dir).0, StoreDir(u, p, dir).0;
    assert Rebit(u0, u.bits, u.freeBlocks) == u && y == Rebit(y0, u.bits, u.freeBlocks);
    RebitDir(y0, u.bits, u.freeBlocks, p);
    forall d: nat | DirReady(u, d) && d != p
      ensures DirReady(y, d) && LoadDir(y, d) == LoadDir(u, d)
    {
      RebitDir(u, bits, n, d);
      OtherDirKept(u0, y0, p, d);
      RebitDir(y0, u.bits, u.freeBlocks, d);
    }
  }

  /** The two halves of unlink, with either fill. */
  lemma UnlinkSteps(v: Vol, p: nat, name: CString, i: nat)
    requires FsInv(v) && IsDir(v, p) && DirLookup(v, p, name) == i && i < MAX_INODES && v.inodes[i].ftype != FT_DIR
    requires Allocated(v, i) && LoadDir(v, p).count <= MAX_DIRENTS && FindEntry(LoadDir(v, p), name, 0) < LoadDir(v, p).count
    ensures var w := ReleaseBlocks(v, i);
            var y := StoreDir(w, p, RemoveAt(LoadDir(v, p), FindEntry(LoadDir(v, p), name, 0))).0;
            && Unlink(v, p, name, i) == (InodeFree(y, i), 0)
            && Cleared(v, w, i) && DirsKept(v, w) && y == w.(disk := y.disk) && DirsKeptBut(w, y, p)
            && DirReady(y, p) && LoadDir(y, p) == RemoveAt(LoadDir(v, p), FindEntry(LoadDir(v, p), name, 0))
  {
    hide LoadDir, Tree, FindEntry, ReleaseBlocks, Inv, RemoveAt, StoreDir, Cleared;
    ReleaseCleared(v, i);
    var w := ReleaseBlocks(v, i);
    ClearedKeepsDirs(v, w, i);
    assert DirReady(w, p) && LoadDir(w, p) == LoadDir(v, p);
    ClearedPlaced(v, w, i);
    StorePlaced(w, v.bits, v.freeBlocks, p, RemoveAt(LoadDir(v, p), FindEntry(LoadDir(v, p), name, 0)));
  }

  lemma UnlinkRemoved(v: Vol, w: Vol, y: Vol, z: Vol, p: nat, idx: nat, i: nat)
    requires Tree(v) && IsDir(v, p) && 2 <= idx < LoadDir(v, p).count <= MAX_DIRENTS
    requires LoadDir(v, p).entries[idx].inode == i && Allocated(v, i) && v.inodes[i].ftype != FT_DIR
    requires Cleared(v, w, i) && DirsKept(v, w) && y == w.(disk := y.disk) && DirsKeptBut(w, y, p)
    requires DirReady(y, p) && LoadDir(y, p) == RemoveAt(LoadDir(v, p), idx)
    requires z == InodeFree(y, i)
    ensures Removed(v, z, p, idx, i)
  {
    hide LoadDir, Tree, RemoveAt, DirReady, ZeroInode, AllPointers, InodeFree;
    FreedKeepsDirs(y, i);
    assert z.inodes == y.inodes[i := ZeroInode()] && z.freeInodes == Inc32(y.freeInodes) by {
      FreedRecord(y, i);
    }
    forall d: nat | IsDir(v, d)
      ensures DirReady(z, d) && LoadDir(z, d) == if d == p then RemoveAt(LoadDir(v, p), idx) else LoadDir(v, d)
    {
      assert DirReady(w, d) && LoadDir(w, d) == LoadDir(v, d);
      assert d != p ==> DirReady(y, d) && LoadDir(y, d) == LoadDir(w, d);
      assert d != i;
    }
  }

  lemma FreedRecord(y: Vol, i: nat)
    requires i < MAX_INODES
    ensures InodeFree(y, i).inodes == y.inodes[i := ZeroInode()] && InodeFree(y, i).freeInodes == Inc32(y.freeInodes)
    ensures InodeFree(y, i).bits == y.bits && InodeFree(y, i).fill == y.fill
  {
  }

  lemma FreedKeepsDirs(y: Vol, i: nat)
    requires i < MAX_INODES
    ensures DirsKeptBut(y, InodeFree(y, i), i)
  {
    hide LoadDir;
    var z := InodeFree(y, i);
    forall d: nat | DirReady(y, d) && d != i
      ensures DirReady(z, d) && LoadDir(z, d) == LoadDir(y, d)
    {
      KeepDir(y, z, d);
    }
  }

  /** What unlink leaves: the entry gone, and exactly the file's blocks free. */
  ghost predicate Unlinked(v: Vol, z: Vol, p: nat, idx: nat, i: nat)
    requires i < MAX_INODES
  {
    && FsInv(z) && z.fill == v.fill && Removed(v, z, p, idx, i)
    && (forall s {:trigger Live(z, s)} {:trigger Live(v, s)} :: Live(z, s) <==> Live(v, s) && s.ino != i)
    && (forall s {:trigger Live(z, s)} :: Live(z, s) ==> Val(z, s) == Val(v, s))
    && (forall b: nat {:trigger b in FreeSet(z.bits)} :: b in FreeSet(z.bits) <==> b in FreeSet(v.bits) || OwnedBy(v, i, b))
    && Leaked(z) == Leaked(v)
  }

  lemma UnlinkedSlots(v: Vol, w: Vol, y: Vol, z: Vol, i: nat)
    requires i < MAX_INODES && Emptied(v, w, i) && SameVals(w, y) && SameVals(y, z)
    requires y.bits == w.bits && z.bits == y.bits && y.fill == w.fill && z.fill == y.fill
    ensures forall s {:trigger Live(z, s)} {:trigger Live(v, s)} :: Live(z, s) <==> Live(v, s) && s.ino != i
    ensures forall s {:trigger Live(z, s)} :: Live(z, s) ==> Val(z, s) == Val(v, s)
    ensures forall b: nat {:trigger b in FreeSet(z.bits)} :: b in FreeSet(z.bits) <==> b in FreeSet(v.bits) || OwnedBy(v, i, b)
    ensures Leaked(z) == Leaked(v)
  {
    SameValsMapped(w, y, 0);
    SameValsMapped(y, z, 0);
    hide Val, FreeSet, TestBit;
    assert Leaked(y) == Leaked(w);
    assert Leaked(z) == Leaked(y);
  }

  /** With either fill, unlink of a file returns 0 and takes exactly its entry and its inode
      out of a namespace that is a tree still. */
  lemma UnlinkNames(v: Vol, p: nat, name: CString, i: nat, idx: nat)
    requires FsInv(v) && IsDir(v, p) && DirLookup(v, p, name) == i && i < MAX_INODES && v.inodes[i].ftype != FT_DIR
    requires LoadDir(v, p).count <= MAX_DIRENTS && idx == FindEntry(LoadDir(v, p), name, 0)
    requires Allocated(v, i) && 2 <= idx < LoadDir(v, p).count && LoadDir(v, p).entries[idx].inode == i
    ensures var (z, r) := Unlink(v, p, name, i);
            r == 0 && z.fill == v.fill && Removed(v, z, p, idx, i) && Tree(z)
  {
    hide LoadDir, FindEntry, DirLookup, Inv, Tree, Unlink, ReleaseBlocks, StoreDir, RemoveAt, InodeFree, Removed;
    UnlinkSteps(v, p, name, i);
    var w := ReleaseBlocks(v, i);
    var y := StoreDir(w, p, RemoveAt(LoadDir(v, p), idx)).0;
    var z := InodeFree(y, i);
    FreedRecord(y, i);
    UnlinkRemoved(v, w, y, z, p, idx, i);
    RemovedTree(v, z, p, idx, i);
  }

  lemma UnlinkFile(v: Vol, p: nat, name: CString, i: nat, idx: nat)
    requires FsInv(v) && IsDir(v, p) && DirLookup(v, p, name) == i && i < MAX_INODES && v.inodes[i].ftype != FT_DIR
    requires v.fill != 0 || v.inodes[i].indirect1 == NULL_BLOCK
    requires LoadDir(v, p).count <= MAX_DIRENTS && idx == FindEntry(LoadDir(v, p), name, 0)
    requires Allocated(v, i) && 2 <= idx < LoadDir(v, p).count && LoadDir(v, p).entries[idx].inode == i
    ensures Unlink(v, p, name, i).1 == 0 && Unlinked(v, Unlink(v, p, name, i).0, p, idx, i)
  {
    hide LoadDir, FindEntry, DirLookup, Inv, Tree, Unlink, ReleaseBlocks, StoreDir, RemoveAt, InodeFree, Emptied, Removed, Val, FreeSet, Leaked, Owned, OwnedBy;
    UnlinkNames(v, p, name, i, idx);
    UnlinkSteps(v, p, name, i);
    ReleaseFrees(v, i);
    var w := ReleaseBlocks(v, i);
    var y := StoreDir(w, p, RemoveAt(LoadDir(v, p), idx)).0;
    assert DirReady(w, p);
    StoreDirReady(w, p, RemoveAt(LoadDir(v, p), idx));
    EmptiedPointers(v, w, i);
    InodeFreeKeeps(y, i);
    FreedRecord(y, i);
    UnlinkedSlots(v, w, y, InodeFree(y, i), i);
  }

  lemma EmptiedPointers(v: Vol, w: Vol, i: nat)
    requires i < MAX_INODES && Emptied(v, w, i)
    ensures w.inodes[i].direct == AllPointers(NULL_BLOCK) && w.inodes[i].indirect1 == NULL_BLOCK && w.fill == v.fill
  {
    hide Live, FreeSet, Leaked;
  }

  /** fuse_unlink of a file takes its entry and its inode out of the tree, with either fill;
      where no pointer block was filled with 0 it keeps the whole invariant and frees exactly
      the blocks the file owned. */
  lemma UnlinkKeeps(v: Vol, p: nat, name: CString, i: nat)
    requires FsInv(v) && IsDir(v, p) && DirLookup(v, p, name) == i && i < MAX_INODES
    ensures Allocated(v, i)
    ensures v.inodes[i].ftype == FT_DIR ==> Unlink(v, p, name, i) == (v, EISDIR)
    ensures v.inodes[i].ftype != FT_DIR ==>
              var (z, r) := Unlink(v, p, name, i);
              r == 0 && Removed(v, z, p, FindEntry(LoadDir(v, p), name, 0), i) && Tree(z)
    ensures v.inodes[i].ftype != FT_DIR && (v.fill != 0 || v.inodes[i].indirect1 == NULL_BLOCK) ==>
              Unlinked(v, Unlink(v, p, name, i).0, p, FindEntry(LoadDir(v, p), name, 0), i)
  {
    FoundIsNamed(v, p, name);
    hide LoadDir, FindEntry, DirLookup, Inv, Tree, Unlinked, ReleaseBlocks, DirRemove, Removed;
    if v.inodes[i].ftype != FT_DIR {
      UnlinkNames(v, p, name, i, FindEntry(LoadDir(v, p), name, 0));
      if v.fill != 0 || v.inodes[i].indirect1 == NULL_BLOCK {
        UnlinkFile(v, p, name, i, FindEntry(LoadDir(v, p), name, 0));
      }
    }
  }

  /** The same call when the entry is not there (a path with a trailing slash): an error
      is returned, the name stays, but the file has already lost its blocks. */
  lemma UnlinkMissing(v: Vol, p: nat, name: CString, i: nat)
    requires FsInv(v) && p < MAX_INODES && Allocated(v, i) && v.inodes[i].ftype != FT_DIR
    requires v.inodes[p].ftype != FT_DIR
    ensures Unlink(v, p, name, i) == (ReleaseBlocks(v, i), ENOTDIR)
    ensures Cleared(v, ReleaseBlocks(v, i), i) && Tree(ReleaseBlocks(v, i))
    ensures v.fill != 0 || v.inodes[i].indirect1 == NULL_BLOCK ==>
              FsInv(ReleaseBlocks(v, i)) && Emptied(v, ReleaseBlocks(v, i), i)
  {
    hide LoadDir, ReleaseBlocks, Inv, Tree, Emptied;
    ReleaseCleared(v, i);
    var w := ReleaseBlocks(v, i);
    assert w.inodes[p].ftype == v.inodes[p].ftype;
    ClearedKeepsDirs(v, w, i);
    SameTree(v, w);
    if v.fill != 0 || v.inodes[i].indirect1 == NULL_BLOCK {
      ReleaseFrees(v, i);
    }
  }

  // ----- truncate -----

  function Truncate(v: Vol, i: nat, size: uint64): Vol
    requires i < MAX_INODES
  {
    WithInode(v, i, v.inodes[i].(size := size))
  }

  lemma TruncateInv(v: Vol, i: nat, size: uint64)
    requires Inv(v) && Allocated(v, i)
    ensures Inv(Truncate(v, i, size)) && SameVals(v, Truncate(v, i, size))
  {
    var w := Truncate(v, i, size);
    forall s
      ensures Val(w, s) == Val(v, s)
    {
      match s case Direct(_, _) => case Indirect(_) => case Entry(_, _) =>
    }
    SameValsSound(v, w);
    forall j: nat
      ensures Mapped(w, j) == Mapped(v, j)
    {
      SameValsMapped(v, w, j);
    }
  }

  lemma TruncateDirs(v: Vol, i: nat, size: uint64)
    requires Tree(v) && i < MAX_INODES && !IsDir(v, i)
    ensures DirsKept(v, Truncate(v, i, size))
  {
    hide LoadDir, Tree;
    var w := Truncate(v, i, size);
    forall d: nat | IsDir(v, d)
      ensures DirReady(w, d) && LoadDir(w, d) == LoadDir(v, d)
    {
      TreeDir(v, d);
      KeepDir(v, w, d);
    }
  }

  /** fuse_truncate sets the size and frees nothing. It keeps the invariant if and only if
      it is not given a directory, or gives that the size it has. The kernel side of FUSE
      truncates no directory: only a direct caller can give it one. */
  lemma TruncateKeepsIff(v: Vol, i: nat, size: uint64)
    requires FsInv(v) && Allocated(v, i)
    ensures Inv(Truncate(v, i, size))
    ensures FsInv(Truncate(v, i, size)) <==> !IsDir(v, i) || size == DIR_SIZE
  {
    hide LoadDir, Inv, Tree, DotEntries;
    TruncateInv(v, i, size);
    var w := Truncate(v, i, size);
    if !IsDir(v, i) {
      TruncateDirs(v, i, size);
      hide DirReady;
      SameTree(v, w);
    } else {
      TreeDir(v, i);
      if size == DIR_SIZE {
        assert w.inodes == v.inodes;
      } else {
        NotReady(w, i);
      }
    }
  }
}
