/** What each call of idkfs_fuse.c answers and what it leaves, field by field. */
module Calls {
  import opened Machine
  import opened Bitmap
  import opened Volume
  import opened Ownership
  import opened FileIO
  import opened Release
  import opened Directory
  import opened Placement
  import opened Namespace
  import opened TreeSteps
  import opened Operations
  import opened Paths
  import opened PathFrames
  import opened Mkfs
  import opened Runs
  import opened WriteRoom
  import opened Layout

  /** Of the files other than a and b no byte has changed. */
  ghost predicate BytesKept(v: Vol, w: Vol, a: int, b: int) {
    forall j: nat, pos: nat {:trigger FileByte(w, j, pos)} ::
      Allocated(v, j) && j != a && j != b && pos < 0x1000_0000_0000 ==> FileByte(w, j, pos) == FileByte(v, j, pos)
  }

  /** Inode i is the first free one from 1 on. */
  ghost predicate FirstFree(v: Vol, i: int) {
    1 <= i < 4096 && !Allocated(v, i) && forall j: nat :: 1 <= j < i ==> Allocated(v, j)
  }

  function NoBlocks(): Pointers {
    seq(12, _ => 0xFFFF_FFFF)
  }

  lemma NewInodeMeans(v: Vol, t: byte, links: uint32)
    ensures var (w, i) := NewInode(v, t, links);
            && (i < 0 ==> (w, i) == (v, -1) && forall j: nat :: 1 <= j < 4096 ==> Allocated(v, j))
            && (i >= 0 ==> FirstFree(v, i)
                           && w == v.(inodes := v.inodes[i := Inode(i, t, 0, links, 0, NoBlocks(), 0xFFFF_FFFF)],
                                      freeInodes := (v.freeInodes + 0xFFFF_FFFF) % 0x1_0000_0000))
  {
  }

  // ----- create -----

  /** Directory p with one more entry, of inode i and type t. */
  ghost predicate EntryAdded(v: Vol, w: Vol, p: nat, name: CString, i: nat, t: byte)
    requires p < 4096 && i < 4096
  {
    var was, now := LoadDir(v, p), LoadDir(w, p);
    was.count < 128 && now == Dir(was.count + 1, was.entries[was.count := NewEntry(name, i, t)])
  }

  /** The file just made: the first free inode, empty, of type 1 and with one link, and its
      entry; no block and no other inode or byte is touched. */
  ghost predicate FileMade(v: Vol, w: Vol, p: nat, name: CString, i: nat)
    requires p < 4096
  {
    && FirstFree(v, i)
    && w == v.(disk := w.disk, inodes := v.inodes[i := Inode(i, 1, 0, 1, 0, NoBlocks(), 0xFFFF_FFFF)], freeInodes := w.freeInodes)
    && w.freeInodes == (v.freeInodes + 0xFFFF_FFFF) % 0x1_0000_0000
    && EntryAdded(v, w, p, name, i, 1) && BytesKept(v, w, p, i)
  }

  lemma SameRecordBytes(v: Vol, w: Vol, i: nat)
    requires i < MAX_INODES && w == v.(inodes := w.inodes, freeInodes := w.freeInodes)
    requires forall j :: 0 <= j < MAX_INODES && j != i ==> w.inodes[j] == v.inodes[j]
    ensures BytesKept(v, w, i, i)
  {
  }

  lemma KeptTrans(v: Vol, w: Vol, x: Vol, a: int, b: int)
    requires BytesKept(v, w, a, b) && BytesKept(w, x, a, b) && forall j: nat :: Allocated(v, j) ==> Allocated(w, j)
    ensures BytesKept(v, x, a, b)
  {
    hide FileByte;
  }

  /** Storing into any directory leaves the bytes of every other file, however it ends. */
  lemma AddElsewhere(v: Vol, d: nat, name: CString, ino: uint32, t: byte)
    requires Inv(v) && Allocated(v, d)
    ensures var w := DirAdd(v, d, name, ino, t).0;
            && Inv(w) && BytesKept(v, w, d, d) && (forall j: nat :: Allocated(v, j) ==> Allocated(w, j))
            && forall j :: 0 <= j < MAX_INODES && j != d ==> w.inodes[j] == v.inodes[j]
  {
    hide LoadDir, DirBytes, WriteFile, Inv, NewEntry, FileByte;
    var dir := if v.inodes[d].size == 0 then EmptyDir() else LoadDir(v, d);
    if dir.count < MAX_DIRENTS {
      var b := DirBytes(Append(dir, NewEntry(name, ino, t)));
      WriteElsewhere(v, d, b);
    }
  }

  lemma WriteElsewhere(v: Vol, d: nat, b: seq<byte>)
    requires Inv(v) && Allocated(v, d) && |b| == DIR_SIZE
    ensures var w := WriteFile(v, d, b, 0).0;
            && Inv(w) && BytesKept(v, w, d, d) && (forall j: nat :: Allocated(v, j) ==> Allocated(w, j))
            && forall j :: 0 <= j < MAX_INODES && j != d ==> w.inodes[j] == v.inodes[j]
  {
    DirRangeClean(v, d);
    WriteFileSound(v, d, b, 0);
    WriteFileRefines(v, d, b, 0);
    hide WriteFile, Inv, FileByte, Fits, FreeSet, Needed;
    var w := WriteFile(v, d, b, 0).0;
    var x := b;
    if WriteFile(v, d, b, 0).1 < 0 {
      var k :| 0 <= k < |b| && Refines(v, w, d, 0, b[..k]);
      x := b[..k];
    }
    forall j: nat, pos: nat | Allocated(v, j) && j != d && pos < ADDRESSABLE
      ensures FileByte(w, j, pos) == FileByte(v, j, pos)
    {
      assert FileByte(w, j, pos) == ByteAfter(v, d, 0, x, j, pos);
    }
  }

  lemma EntryStored(w: Vol, p: nat, name: CString, i: nat, t: byte)
    requires Inv(w) && DirReady(w, p) && p < 4096 && i < 4096 && LoadDir(w, p).count < 128
    ensures var x := DirAdd(w, p, name, i, t).0;
            && DirAdd(w, p, name, i, t).1 == 0 && x == w.(disk := x.disk)
            && EntryAdded(w, x, p, name, i, t) && BytesKept(w, x, p, p)
  {
    hide LoadDir, Inv, DirReady, DirAdd, NewEntry, SameVals, FileByte, BytesKept, DirsKeptBut;
    DirAddReady(w, p, name, i, t);
    DirReadyAllocated(w, p);
    AddElsewhere(w, p, name, i, t);
  }

  lemma DirReadyAllocated(w: Vol, p: nat)
    requires DirReady(w, p)
    ensures Allocated(w, p) && w.inodes[p].ftype == FT_DIR
  {
  }

  lemma FileIsMade(v: Vol, w: Vol, x: Vol, p: nat, name: CString, i: nat)
    requires p < 4096 && FirstFree(v, i) && LoadDir(w, p) == LoadDir(v, p)
    requires w == v.(inodes := v.inodes[i := Inode(i, 1, 0, 1, 0, NoBlocks(), 0xFFFF_FFFF)], freeInodes := (v.freeInodes + 0xFFFF_FFFF) % 0x1_0000_0000)
    requires x == w.(disk := x.disk) && EntryAdded(w, x, p, name, i, 1) && BytesKept(w, x, p, p)
    ensures FileMade(v, x, p, name, i)
  {
    hide LoadDir, NewEntry;
    SameRecordBytes(v, w, i);
    hide FileByte;
  }

  lemma CreateMakes(v: Vol, p: nat, name: CString)
    requires FsInv(v) && IsDir(v, p)
    ensures var (w, r) := Create(v, p, name);
            if (forall j: nat :: 1 <= j < 4096 ==> Allocated(v, j)) || LoadDir(v, p).count >= 128 then (w, r) == (v, -1)
            else 0 <= r < 4096 && FileMade(v, w, p, name, r)
  {
    hide NewInode, LoadDir, Inv, DirReady, Tree, Added, InodeFree, SameVals, DirAdd, EntryAdded, BytesKept, FileMade, NewInodeMade, FirstFree, NoBlocks;
    CreateKeeps(v, p, name);
    NewInodeMeans(v, FT_FILE, 1);
    NewInodeSound(v, FT_FILE, 1);
    var (w, i) := NewInode(v, FT_FILE, 1);
    NoneFree(v, i);
    if i >= 0 && LoadDir(v, p).count < MAX_DIRENTS {
      NewInodeFacts(v, w, i, FT_FILE, 1, p);
      EntryStored(w, p, name, i, FT_FILE);
      var x := DirAdd(w, p, name, i, FT_FILE).0;
      FileIsMade(v, w, x, p, name, i);
      assert Create(v, p, name) == (x, i);
    }
  }

  lemma NoneFree(v: Vol, i: int)
    ensures FirstFree(v, i) ==> !(forall j: nat :: 1 <= j < 4096 ==> Allocated(v, j))
    ensures FreeInodeSet(v) == {} <==> forall j: nat :: 1 <= j < 4096 ==> Allocated(v, j)
  {
    if FreeInodeSet(v) == {} {
      forall j: nat | 1 <= j < 4096
        ensures Allocated(v, j)
      {
        assert j !in FreeInodeSet(v);
      }
    }
  }

  /** create answers the error of its path; ENOSPC, changing nothing, when no inode is free or
      the directory has 128 entries; else the inode's number. */
  lemma CreateAnswers(v: Vol, path: CString)
    requires FsInv(v) && (ResolveParent(v, path).Parent? ==> IsDir(v, ResolveParent(v, path).ino))
    ensures var (w, r) := FuseCreate(v, path);
            match ResolveParent(v, path)
            case NoParent(e) => (w, r) == (v, e)
            case Parent(p, name) =>
              if (forall j: nat :: 1 <= j < 4096 ==> Allocated(v, j)) || LoadDir(v, p).count >= 128 then (w, r) == (v, -28)
              else 0 <= r < 4096 && FileMade(v, w, p, name, r)
  {
    hide ResolveParent, FsInv, Create, LoadDir;
    if ResolveParent(v, path).Parent? {
      CreateMakes(v, ResolveParent(v, path).ino, ResolveParent(v, path).name);
    }
  }

  // ----- mkdir -----

  /** The directory just made: the first free inode, of type 2 and with two links, holding "."
      and ".."; its entry in the parent, and one link more there. Nine blocks are taken, and no
      other inode or byte is touched. */
  ghost predicate DirMade(v: Vol, w: Vol, p: nat, name: CString, i: nat)
    requires p < 4096 && i < 4096
  {
    && w.inodes[i] == Inode(i, 2, 33412, 2, w.inodes[i].blockCount, w.inodes[i].direct, w.inodes[i].indirect1)
    && LoadDir(w, i).count == 2
    && LoadDir(w, i).entries[0] == NewEntry([46], i, 2) && LoadDir(w, i).entries[1] == NewEntry([46, 46], p, 2)
    && w.inodes[p] == v.inodes[p].(linkCount := (v.inodes[p].linkCount + 1) % 0x1_0000_0000)
    && EntryAdded(v, w, p, name, i, 2)
    && (forall j :: 0 <= j < 4096 && j != i && j != p ==> w.inodes[j] == v.inodes[j])
    && BytesKept(v, w, p, i)
    && w.freeInodes == (v.freeInodes + 0xFFFF_FFFF) % 0x1_0000_0000 && |FreeSet(w.bits)| == |FreeSet(v.bits)| - 9
  }

  function WithNewDir(v: Vol, i: nat): Vol
    requires i < 4096
  {
    v.(inodes := v.inodes[i := Inode(i, 2, 0, 2, 0, NoBlocks(), 0xFFFF_FFFF)], freeInodes := (v.freeInodes + 0xFFFF_FFFF) % 0x1_0000_0000)
  }

  function Dotted(w: Vol, i: nat, p: nat): Vol
    requires i < MAX_INODES && p < MAX_INODES
  {
    DirAdd(DirAdd(w, i, DOT, i, FT_DIR).0, i, DOTDOT, p, FT_DIR).0
  }

  /** What the two entries a new directory gets do to the rest. */
  lemma DotsElsewhere(w: Vol, p: nat, i: nat)
    requires Inv(w) && Allocated(w, i) && p < MAX_INODES
    ensures var b := Dotted(w, i, p);
            && BytesKept(w, b, i, i) && (forall j: nat :: Allocated(w, j) ==> Allocated(b, j))
            && forall j :: 0 <= j < MAX_INODES && j != i ==> b.inodes[j] == w.inodes[j]
  {
    hide DirAdd, Inv, BytesKept;
    var a := DirAdd(w, i, DOT, i, FT_DIR).0;
    AddElsewhere(w, i, DOT, i, FT_DIR);
    AddElsewhere(a, i, DOTDOT, p, FT_DIR);
    KeptTrans(w, a, DirAdd(a, i, DOTDOT, p, FT_DIR).0, i, i);
  }

  lemma LinkBytes(v: Vol, p: nat)
    requires p < MAX_INODES
    ensures BytesKept(v, AddLink(v, p), -1, -1) && LoadDir(AddLink(v, p), p) == LoadDir(v, p)
  {
    hide LoadDir;
    SameBytesSameDir(v, AddLink(v, p), p);
  }

  lemma MkdirSteps(v: Vol, p: nat, name: CString, i: nat)
    requires i < 4096 && p < 4096
    requires FsInv(v) && IsDir(v, p) && MkdirRoom(v, p) && FirstFree(v, i)
    ensures var w := WithNewDir(v, i);
            var b := Dotted(w, i, p);
            var c := DirAdd(b, p, name, i, FT_DIR).0;
            && Mkdir(v, p, name) == (AddLink(c, p), i)
            && Grows(w, b, i) && BytesKept(w, b, i, i) && (forall j: nat :: Allocated(w, j) ==> Allocated(b, j))
            && c == b.(disk := c.disk) && BytesKept(b, c, p, p) && LoadDir(b, p) == LoadDir(v, p) && EntryAdded(b, c, p, name, i, 2)
  {
    hide NewInode, LoadDir, Inv, DirReady, Tree, DirAdd, EntryAdded, BytesKept, NewEntry, FreeSet, SameVals, Grows, NoBlocks;
    NewInodeMeans(v, FT_DIR, 2);
    NewInodeSound(v, FT_DIR, 2);
    var (w, k) := NewInode(v, FT_DIR, 2);
    NoneFree(v, i);
    assert k == i;
    MkdirDots(v, w, p, i);
    hide FirstFree;
    NewInodeFacts(v, w, i, FT_DIR, 2, p);
    DotsElsewhere(w, p, i);
    var b := Dotted(w, i, p);
    MkdirUnnamed(v, w, b, i);
    hide NewInodeMade, DirsKept, DirsKeptBut;
    UnnamedParent(v, b, p, i);
    EntryStored(b, p, name, i, FT_DIR);
  }

  lemma DirIsMade(v: Vol, w: Vol, b: Vol, c: Vol, p: nat, name: CString, i: nat)
    requires p < 4096 && p != i && IsDir(v, p) && FirstFree(v, i)
    requires w == WithNewDir(v, i)
    requires Grows(w, b, i) && BytesKept(w, b, i, i) && forall j: nat :: Allocated(w, j) ==> Allocated(b, j)
    requires c == b.(disk := c.disk) && BytesKept(b, c, p, p) && LoadDir(b, p) == LoadDir(v, p) && EntryAdded(b, c, p, name, i, 2)
    requires var x := AddLink(c, p);
             x.inodes[i].size == 33412 && LoadDir(x, i) == DotDir(i, p) && |FreeSet(x.bits)| == |FreeSet(v.bits)| - 9
    ensures DirMade(v, AddLink(c, p), p, name, i)
  {
    hide LoadDir, FreeSet, Live, NewEntry, NoBlocks;
    var x := AddLink(c, p);
    SameRecordBytes(v, w, i);
    LinkBytes(c, p);
    hide FileByte;
    DotDirNamed(i, p);
    hide DotDir;
    assert BytesKept(v, x, p, i);
    assert forall j :: 0 <= j < 4096 && j != i && j != p ==> x.inodes[j] == b.inodes[j] == w.inodes[j] == v.inodes[j];
    assert b.inodes[p] == v.inodes[p];
  }

  lemma MkdirMakes(v: Vol, p: nat, name: CString, i: nat)
    requires i < 4096 && p < 4096
    requires FsInv(v) && IsDir(v, p) && MkdirRoom(v, p) && FirstFree(v, i)
    ensures Mkdir(v, p, name).1 == i && DirMade(v, Mkdir(v, p, name).0, p, name, i)
  {
    hide LoadDir, Inv, Tree, DirAdd, Mkdir, EntryAdded, BytesKept, NewEntry, FreeSet, Grows, NoBlocks, DirMade;
    MkdirSteps(v, p, name, i);
    MkdirKeepsIff(v, p, name);
    NoneFree(v, i);
    assert p != i;
    hide FirstFree;
    AddedSize(v, Mkdir(v, p, name).0, p, i, name);
    assert FirstFree(v, i);
    var w := WithNewDir(v, i);
    var b := Dotted(w, i, p);
    DirIsMade(v, w, b, DirAdd(b, p, name, i, FT_DIR).0, p, name, i);
  }

  lemma AddedSize(v: Vol, x: Vol, p: nat, i: nat, name: CString)
    requires i < MAX_INODES && Added(v, x, p, i, FT_DIR, name)
    ensures x.inodes[i].size == 33412 && LoadDir(x, i) == DotDir(i, p)
  {
    hide LoadDir, NewEntry;
  }

  /** mkdir answers the error of its path, ENOSPC, changing nothing, when no inode is free, and
      0 otherwise, whatever became of the entries; with an entry free in the parent and nine
      blocks free the directory is made. */
  lemma MkdirAnswers(v: Vol, path: CString)
    requires FsInv(v) && (ResolveParent(v, path).Parent? ==> IsDir(v, ResolveParent(v, path).ino))
    ensures var (w, r) := FuseMkdir(v, path);
            match ResolveParent(v, path)
            case NoParent(e) => (w, r) == (v, e)
            case Parent(p, name) =>
              && ((forall j: nat :: 1 <= j < 4096 ==> Allocated(v, j)) ==> (w, r) == (v, -28))
              && forall i: nat {:trigger FirstFree(v, i)} :: i < 4096 && FirstFree(v, i) ==>
                   r == 0 && (LoadDir(v, p).count < 128 && |FreeSet(v.bits)| >= 9 ==> DirMade(v, w, p, name, i))
  {
    hide ResolveParent, Inv, Tree, Mkdir, LoadDir, DirMade, FreeSet, FirstFree, Added;
    var p := ResolveParent(v, path);
    if p.Parent? {
      MkdirKeepsIff(v, p.ino, p.name);
      NoneFree(v, -1);
      forall i: nat | i < 4096 && FirstFree(v, i)
        ensures FuseMkdir(v, path).1 == 0
        ensures LoadDir(v, p.ino).count < 128 && |FreeSet(v.bits)| >= 9 ==> DirMade(v, FuseMkdir(v, path).0, p.ino, p.name, i)
      {
        NoneFree(v, i);
        if LoadDir(v, p.ino).count < 128 && |FreeSet(v.bits)| >= 9 {
          MkdirMakes(v, p.ino, p.name, i);
        }
      }
    }
  }

  // ----- unlink -----

  /** The file gone: its record all zero, its entry closed up, the inode and its blocks free;
      no other inode or byte is touched. */
  ghost predicate FileGone(v: Vol, w: Vol, p: nat, name: CString, i: nat)
    requires p < 4096 && i < 4096
  {
    var was := LoadDir(v, p);
    && w.inodes == v.inodes[i := Inode(0, 0, 0, 0, 0, seq(12, _ => 0), 0)]
    && w.freeInodes == (v.freeInodes + 1) % 0x1_0000_0000
    && (exists k :: 0 <= k < was.count <= 128 && FirstNamed(was, name, k) && was.entries[k].inode == i && LoadDir(w, p) == RemoveAt(was, k))
    && (forall b: nat {:trigger b in FreeSet(w.bits)} ::
          b in FreeSet(w.bits) <==> b in FreeSet(v.bits) || OwnedBy(v, i, b) || (ZeroFilled(v, i) && b == 0))
    && w.freeBlocks == |FreeSet(w.bits)| + (if ZeroFilled(v, i) then 1023 - |LiveEntries(v, i)| else 0)
    && BytesKept(v, w, p, i)
  }

  lemma StoreElsewhere(u: Vol, bits: seq<bv8>, n: uint32, p: nat, dir: Directory)
    requires 8 * |bits| == TOTAL_BLOCKS && Inv(Rebit(u, bits, n)) && DirReady(u, p)
    ensures BytesKept(u, StoreDir(u, p, dir).0, p, p)
  {
    hide LoadDir, GetBlock, Inv, StoreDir, FileByte;
    var u0 := Rebit(u, bits, n);
    RebitDir(u, bits, n, p);
    StoreDirReady(u0, p, dir);
    StoreRebit(u0, u.bits, u.freeBlocks, p, dir);
    var y0, y := StoreDir(u0, p, dir).0, StoreDir(u, p, dir).0;
    assert Rebit(u0, u.bits, u.freeBlocks) == u && y == Rebit(y0, u.bits, u.freeBlocks);
    forall j: nat, pos: nat | Allocated(u, j) && j != p && pos < ADDRESSABLE
      ensures FileByte(y, j, pos) == FileByte(u, j, pos)
    {
      RebitBlocks(u, bits, n, j);
      RebitBlocks(y0, u.bits, u.freeBlocks, j);
      assert FileByte(y0, j, pos) == FileByte(u0, j, pos);
    }
  }

  lemma ClearedBytes(v: Vol, w: Vol, i: nat)
    requires i < MAX_INODES && Cleared(v, w, i)
    ensures BytesKept(v, w, i, i) && forall j: nat :: Allocated(w, j) <==> Allocated(v, j)
  {
  }

  lemma GoneBytes(v: Vol, w: Vol, y: Vol, p: nat, i: nat)
    requires p < MAX_INODES && i < MAX_INODES && BytesKept(v, w, i, i) && BytesKept(w, y, p, p) && forall j: nat :: Allocated(w, j) <==> Allocated(v, j)
    ensures BytesKept(v, InodeFree(y, i), p, i)
  {
    var z := InodeFree(y, i);
    forall j: nat, pos: nat | Allocated(v, j) && j != p && j != i && pos < ADDRESSABLE
      ensures FileByte(z, j, pos) == FileByte(v, j, pos)
    {
      assert FileByte(z, j, pos) == FileByte(y, j, pos);
      hide FileByte;
      assert FileByte(y, j, pos) == FileByte(w, j, pos);
    }
  }

  lemma UnlinkBytes(v: Vol, p: nat, name: CString, i: nat)
    requires FsInv(v) && IsDir(v, p) && DirLookup(v, p, name) == i && i < MAX_INODES && v.inodes[i].ftype != FT_DIR
    requires Allocated(v, i) && LoadDir(v, p).count <= MAX_DIRENTS && FindEntry(LoadDir(v, p), name, 0) < LoadDir(v, p).count
    ensures var z := Unlink(v, p, name, i).0;
            BytesKept(v, z, p, i) && z.bits == ReleaseBlocks(v, i).bits && z.freeBlocks == ReleaseBlocks(v, i).freeBlocks
  {
    hide LoadDir, Inv, Tree, DirLookup, FindEntry, ReleaseBlocks, StoreDir, RemoveAt, Unlink, BytesKept, DirReady, Cleared;
    UnlinkSteps(v, p, name, i);
    var w := ReleaseBlocks(v, i);
    ClearedPlaced(v, w, i);
    assert IsDir(v, p) && DirReady(w, p) by { TreeDir(v, p); }
    ClearedBytes(v, w, i);
    var dir := RemoveAt(LoadDir(v, p), FindEntry(LoadDir(v, p), name, 0));
    StoreElsewhere(w, v.bits, v.freeBlocks, p, dir);
    GoneBytes(v, w, StoreDir(w, p, dir).0, p, i);
  }

  lemma UnlinkMakes(v: Vol, path: CString)
    requires FsInv(v) && FuseUnlink(v, path).1 == 0
    ensures ResolveParent(v, path).Parent? && ResolvePath(v, path) >= 0
    ensures FileGone(v, FuseUnlink(v, path).0, ResolveParent(v, path).ino, ResolveParent(v, path).name, ResolvePath(v, path))
  {
    hide LoadDir, Inv, Tree, DirLookup, ResolveParent, ResolvePath, FindEntry, ReleaseBlocks, RemoveAt, Unlink, BytesKept, DirReady, FreeSet, Live, OwnedBy, LiveEntries, NameOf;
    UnlinkResolution(v, path);
    var p, i := ResolveParent(v, path), ResolvePath(v, path);
    ResolvedAllocated(v, path);
    var was := LoadDir(v, p.ino);
    var k := FindEntry(was, p.name, 0);
    UnlinkBytes(v, p.ino, p.name, i);
    ReleaseExact(v, i);
    hide FsInv;
    forall j | 0 <= j < was.count
      ensures SameName(was.entries[j].name, p.name, 0) <==> NameOf(was.entries[j].name) == First255(p.name)
    {
      NameMeans(was.entries[j].name, p.name);
    }
    hide SameName, First255;
    assert FirstNamed(was, p.name, k);
  }

  /** unlink answers the error of its path, EISDIR for a directory, which it leaves alone, and
      0 for a file named by its last name; ENOTDIR for a file behind a trailing slash, which
      has then lost its blocks and its size. */
  lemma UnlinkAnswers(v: Vol, path: CString)
    requires FsInv(v)
    ensures var (w, r) := FuseUnlink(v, path);
            match ResolveParent(v, path)
            case NoParent(e) => (w, r) == (v, e)
            case Parent(p, name) =>
              var i := ResolvePath(v, path);
              if i < 0 then (w, r) == (v, i)
              else if v.inodes[i].ftype == 2 then (w, r) == (v, -21)
              else if name == [] then
                r == -20 && w.inodes == v.inodes[i := v.inodes[i].(size := 0, blockCount := 0, direct := NoBlocks(), indirect1 := 0xFFFF_FFFF)]
              else r == 0 && FileGone(v, w, p, name, i)
  {
    hide Inv, Tree, ResolveParent, ResolvePath, Unlink, ReleaseBlocks, FileGone, DirLookup, LoadDir, FindEntry, Removed;
    var p, i := ResolveParent(v, path), ResolvePath(v, path);
    if p.Parent? && i >= 0 {
      if v.inodes[i].ftype == FT_DIR {
        UnlinkDir(v, p.ino, p.name, i);
      } else {
        UnlinkForms(v, path);
        if p.name != [] {
          UnlinkMakes(v, path);
        }
      }
    }
  }

  // ----- truncate and write -----

  /** truncate answers the error of its path, or 0 with exactly the one size changed. */
  lemma TruncateAnswers(v: Vol, path: CString, size: uint64)
    ensures var (w, r) := FuseTruncate(v, path, size);
            var i := ResolvePath(v, path);
            if i < 0 then (w, r) == (v, i)
            else r == 0 && w.inodes[i].size == size && w == v.(inodes := v.inodes[i := v.inodes[i].(size := size)])
  {
    hide ResolvePath;
  }

  lemma {:induction false} PrefixCut(v: Vol, i: nat, offset: nat, n: nat, m: nat)
    requires i < MAX_INODES && m <= n
    ensures var long, short := MappedPrefix(v, i, offset, n), MappedPrefix(v, i, offset, m);
            short == if |long| <= m then long else long[..m]
    decreases m
  {
    hide FileByte;
    if m > 0 && FileByte(v, i, offset).Some? {
      PrefixCut(v, i, offset + 1, n - 1, m - 1);
    }
  }

  /** After a file is cut to n a read gives what it gave before, cut to what lies below n. */
  lemma ReadAfterTruncate(v: Vol, path: CString, n: uint64, count: nat, offset: nat)
    requires ResolvePath(v, path) >= 0 && n <= v.inodes[ResolvePath(v, path)].size
    ensures var i := ResolvePath(v, path);
            var was, now := ReadFile(v, i, count, offset), ReadFile(FuseTruncate(v, path, n).0, i, count, offset);
            now == if offset >= n then [] else if |was| <= n - offset then was else was[..n - offset]
  {
    hide ResolvePath, ReadFile, FileByte, MappedPrefix;
    var i := ResolvePath(v, path);
    var w := FuseTruncate(v, path, n).0;
    ReadFileMapped(v, i, count, offset);
    ReadFileMapped(w, i, count, offset);
    if offset < n {
      var long, short := Min(count, v.inodes[i].size - offset), Min(count, n - offset);
      TruncatedByte(v, i, n);
      MappedPrefixSame(v, w, i, offset, short);
      PrefixCut(v, i, offset, long, short);
      PrefixLength(v, i, offset, long);
    } else {
      NoPrefix(w, i, offset);
    }
  }

  lemma TruncatedByte(v: Vol, i: nat, n: uint64)
    requires i < MAX_INODES
    ensures forall pos: nat :: FileByte(Truncate(v, i, n), i, pos) == FileByte(v, i, pos)
  {
  }

  lemma {:induction false} PrefixLength(v: Vol, i: nat, offset: nat, n: nat)
    requires i < MAX_INODES
    ensures |MappedPrefix(v, i, offset, n)| <= n
    decreases n
  {
    hide FileByte;
    if n > 0 && FileByte(v, i, offset).Some? {
      PrefixLength(v, i, offset + 1, n - 1);
    }
  }

  lemma NoPrefix(v: Vol, i: nat, offset: nat)
    requires i < MAX_INODES
    ensures MappedPrefix(v, i, offset, 0) == []
  {
  }

  /** Cutting a file drops nothing: setting the old size again gives back every read. */
  lemma TruncateUndone(v: Vol, path: CString, n: uint64)
    requires FsInv(v) && ResolvePath(v, path) >= 0 && !IsDir(v, ResolvePath(v, path))
    ensures var i := ResolvePath(v, path);
            var w := FuseTruncate(v, path, n).0;
            ResolvePath(w, path) == i && FuseTruncate(w, path, v.inodes[i].size).0 == v
  {
    hide Inv, Tree, ResolvePath;
    var i := ResolvePath(v, path);
    ResolvedAllocated(v, path);
    var w := FuseTruncate(v, path, n).0;
    TruncatePaths(v, i, n, path);
    var x := Truncate(w, i, v.inodes[i].size);
    assert x.inodes == v.inodes;
  }

  lemma TruncatePaths(v: Vol, i: nat, n: uint64, path: CString)
    requires FsInv(v) && Allocated(v, i) && !IsDir(v, i)
    ensures ResolvePath(Truncate(v, i, n), path) == ResolvePath(v, path)
  {
    hide Inv, Tree, Walk;
    TreeRoot(v);
    TruncateDirs(v, i, n);
    TruncateWalk(v, i, n, ROOT_INODE, Tokens(Copied(path)));
  }

  lemma {:induction false} TruncateWalk(v: Vol, i: nat, n: uint64, cur: nat, toks: seq<CString>)
    requires Tree(v) && Allocated(v, i) && !IsDir(v, i) && DirsKept(v, Truncate(v, i, n)) && Allocated(v, cur)
    ensures Walk(Truncate(v, i, n), cur, toks) == Walk(v, cur, toks)
    decreases |toks|
  {
    hide DirLookup, Tree, DirsKept;
    if toks != [] && v.inodes[cur].ftype == FT_DIR {
      TruncateLookup(v, i, n, cur, toks[0]);
      var next := DirLookup(v, cur, toks[0]);
      if 0 <= next < MAX_INODES {
        LookupAllocated(v, cur, toks[0]);
        TruncateWalk(v, i, n, next, toks[1..]);
      }
    }
  }

  lemma TruncateLookup(v: Vol, i: nat, n: uint64, d: nat, name: CString)
    requires Allocated(v, i) && !IsDir(v, i) && DirsKept(v, Truncate(v, i, n)) && IsDir(v, d)
    ensures DirLookup(Truncate(v, i, n), d, name) == DirLookup(v, d, name)
  {
    hide LoadDir, DirReady, FindEntry;
  }

  /** write answers EBADF for a handle past the table, the number of bytes it was given when it
      succeeds and -1 when it fails. */
  lemma WriteAnswers(v: Vol, fh: nat, data: seq<byte>, offset: uint64)
    requires Inv(v) && offset + |data| < 0x1_0000_0000_0000_0000 && (fh < 4096 ==> Allocated(v, fh))
    ensures var (w, r) := FuseWrite(v, fh, data, offset);
            && (fh >= 4096 ==> (w, r) == (v, -9))
            && (fh < 4096 ==> r == if Room(v, fh, offset, |data|) then |data| else -1)
  {
    hide WriteFile, Inv, Room;
    if fh < MAX_INODES {
      WriteSucceedsIff(v, fh, data, offset);
      WriteFileSound(v, fh, data, offset);
    }
  }

  // ----- mkfs -----

  /** The fresh volume: blocks 0 to 137 taken for good and nine more for the root directory,
      which is inode 0, of type 2 and with two links, and holds "." and "..", both itself; no
      other inode is in use. */
  lemma FormattedMeans(fill: byte)
    requires fill == 0x00 || fill == 0xFF
    ensures var v := Formatted(fill);
            && v.freeBlocks == |FreeSet(v.bits)| == 65389 && v.freeInodes == 4095
            && (forall b: nat :: b < 138 ==> b !in FreeSet(v.bits))
            && v.inodes[0] == Inode(0, 2, 33412, 2, v.inodes[0].blockCount, v.inodes[0].direct, v.inodes[0].indirect1)
            && (forall i :: 1 <= i < 4096 ==> v.inodes[i] == Inode(0, 0, 0, 0, 0, seq(12, _ => 0), 0))
            && LoadDir(v, 0).count == 2
            && LoadDir(v, 0).entries[0] == NewEntry([46], 0, 2) && LoadDir(v, 0).entries[1] == NewEntry([46, 46], 0, 2)
  {
    hide Formatted, LoadDir, FreeSet, SetUpTo, NewEntry;
    FormattedRoot(fill);
    FormattedInv(fill);
    BlankInodes(fill);
    DotDirNamed(0, 0);
    FreeSetTests(Formatted(fill).bits);
    hide DotDir, Live, NamedOnce, EntriesValid, LinksCounted, Rooted;
  }
}
