/** Where every block is, and what a file's whole life does to the count. */
module Accounting {
  import opened Machine
  import opened Bitmap
  import opened Volume
  import opened Ownership
  import opened FileIO
  import opened Release
  import opened Directory
  import opened Namespace
  import opened TreeSteps
  import opened Operations
  import opened FileWrites
  import opened ZeroFill

  /** A data block is free exactly when no file owns it and no failed mapping dropped it. */
  lemma FreeExactly(v: Vol, b: nat)
    requires Sound(v)
    ensures b in FreeSet(v.bits) <==> DATA_START <= b < TOTAL_BLOCKS && !Owned(v, b) && b !in Leaked(v)
  {
    if Owned(v, b) {
      var s :| Live(v, s) && Val(v, s) == b;
      TakenNotFree(v, s);
    }
  }

  lemma ByteFromBits(x: bv8, y: bv8)
    requires forall k: nat :: k < 8 ==> (ByteBit(x, k) <==> ByteBit(y, k))
    ensures x == y
  {
    assert ByteBit(x, 0) <==> ByteBit(y, 0);
    assert ByteBit(x, 1) <==> ByteBit(y, 1);
    assert ByteBit(x, 2) <==> ByteBit(y, 2);
    assert ByteBit(x, 3) <==> ByteBit(y, 3);
    assert ByteBit(x, 4) <==> ByteBit(y, 4);
    assert ByteBit(x, 5) <==> ByteBit(y, 5);
    assert ByteBit(x, 6) <==> ByteBit(y, 6);
    assert ByteBit(x, 7) <==> ByteBit(y, 7);
  }

  /** The free set determines the bitmap byte for byte. */
  lemma BitsFromFreeSet(a: seq<bv8>, b: seq<bv8>)
    requires |a| == |b| && FreeSet(a) == FreeSet(b)
    ensures a == b
  {
    forall i | 0 <= i < |a|
      ensures a[i] == b[i]
    {
      forall k: nat | k < 8
        ensures ByteBit(a[i], k) <==> ByteBit(b[i], k)
      {
        var c := 8 * i + k;
        assert c / 8 == i && c % 8 == k;
        assert c in FreeSet(a) <==> c in FreeSet(b);
        assert TestBit(a, c) <==> TestBit(b, c);
      }
      ByteFromBits(a[i], b[i]);
    }
  }

  // ----- create, any successful writes, unlink -----

  datatype WriteOp = WriteOp(data: seq<byte>, offset: uint64)

  /** Successive writes to inode i; false once one fails. */
  function WriteAll(v: Vol, i: nat, ws: seq<WriteOp>): (Vol, bool)
    requires i < MAX_INODES
    decreases |ws|
  {
    if ws == [] then (v, true)
    else if ws[0].offset + |ws[0].data| >= TWO_64 then (v, false)
    else
      var (w, r) := WriteFile(v, i, ws[0].data, ws[0].offset);
      if r < 0 then (w, false) else WriteAll(w, i, ws[1..])
  }

  lemma {:induction false} WriteAllKeeps(v: Vol, i: nat, ws: seq<WriteOp>)
    requires FsInv(v) && Allocated(v, i) && !IsDir(v, i) && i < MAX_INODES && WriteAll(v, i, ws).1
    ensures var y := WriteAll(v, i, ws).0;
            && FsInv(y) && Grows(v, y, i) && Leaked(y) == Leaked(v)
            && forall d: nat {:trigger IsDir(v, d)} :: IsDir(v, d) ==> IsDir(y, d) && LoadDir(y, d) == LoadDir(v, d)
    decreases |ws|
  {
    hide WriteFile, Inv, Tree, LoadDir, Live, Val, Leaked;
    if ws != [] {
      WriteKeeps(v, i, ws[0].data, ws[0].offset);
      WriteDirsKept(v, i, ws[0].data, ws[0].offset);
      var w := WriteFile(v, i, ws[0].data, ws[0].offset).0;
      WriteAllKeeps(w, i, ws[1..]);
      GrowsTrans(v, w, WriteAll(w, i, ws[1..]).0, i);
    }
  }

  lemma WriteDirsKept(v: Vol, i: nat, data: seq<byte>, offset: nat)
    requires FsInv(v) && Allocated(v, i) && !IsDir(v, i) && offset + |data| < TWO_64
    ensures var w := WriteFile(v, i, data, offset).0;
            forall d: nat {:trigger IsDir(v, d)} :: IsDir(v, d) ==> IsDir(w, d) && LoadDir(w, d) == LoadDir(v, d)
  {
    WriteFileSound(v, i, data, offset);
    WriteFileOthers(v, i, data, offset);
    var w := WriteFile(v, i, data, offset).0;
    hide WriteFile, LoadDir, Inv, Tree, OthersKept, Live, Leaked;
    forall d: nat | IsDir(v, d)
      ensures IsDir(w, d) && LoadDir(w, d) == LoadDir(v, d)
    {
      TreeDir(v, d);
      OthersKeepDir(v, w, i, d);
    }
  }

  lemma OwnedThrough(v: Vol, x: Vol, y: Vol, z: Vol, i: nat, b: nat)
    requires !Allocated(v, i) && SameVals(v, x) && x.fill == v.fill && Grows(x, y, i)
    requires forall s {:trigger Live(z, s)} {:trigger Live(y, s)} :: Live(z, s) <==> Live(y, s) && s.ino != i
    requires forall s {:trigger Live(z, s)} :: Live(z, s) ==> Val(z, s) == Val(y, s)
    ensures Owned(z, b) <==> Owned(v, b)
  {
    assert forall s: Slot :: s.ino == i ==> !Live(v, s);
    assert forall s :: Live(x, s) <==> Live(v, s);
    hide Allocated;
    if Owned(z, b) {
      var s :| Live(z, s) && Val(z, s) == b;
      assert Live(y, s) && Live(x, s) && Val(v, s) == b;
    }
    if Owned(v, b) {
      var s :| Live(v, s) && Val(v, s) == b;
      assert Live(x, s) && Live(y, s) && Live(z, s) && Val(z, s) == b;
    }
  }

  lemma BitmapRestored(v: Vol, x: Vol, y: Vol, z: Vol, i: nat)
    requires Inv(v) && Inv(z) && !Allocated(v, i) && SameVals(v, x) && x.bits == v.bits && x.fill == v.fill
    requires Grows(x, y, i) && Leaked(y) == Leaked(x) && Leaked(z) == Leaked(y)
    requires forall s {:trigger Live(z, s)} {:trigger Live(y, s)} :: Live(z, s) <==> Live(y, s) && s.ino != i
    requires forall s {:trigger Live(z, s)} :: Live(z, s) ==> Val(z, s) == Val(y, s)
    ensures z.bits == v.bits && z.freeBlocks == v.freeBlocks
  {
    SameValsMapped(v, x, i);
    assert Leaked(x) == Leaked(v);
    forall b: nat
      ensures b in FreeSet(z.bits) <==> b in FreeSet(v.bits)
    {
      FreeExactly(v, b);
      FreeExactly(z, b);
      OwnedThrough(v, x, y, z, i, b);
    }
    assert FreeSet(z.bits) == FreeSet(v.bits);
    BitsFromFreeSet(z.bits, v.bits);
  }

  lemma StoredMatches(name: CString)
    ensures SameName(StoreName(name), name, 0)
  {
    SameNameMeans(StoreName(name), name, 0);
    StoredName(name, 0);
  }

  lemma {:induction false} FindAppended(d: Directory, e: DirEntry, name: CString, k: nat)
    requires d.count < MAX_DIRENTS && k <= d.count && FindEntry(d, name, k) == d.count && SameName(e.name, name, 0)
    ensures FindEntry(Append(d, e), name, k) == d.count
    decreases d.count - k
  {
    hide SameName;
    if k < d.count {
      assert FindEntry(d, name, k) == FindEntry(d, name, k + 1);
      FindAppended(d, e, name, k + 1);
    }
  }

  lemma AppendRemove(d: Directory, e: DirEntry)
    requires 2 <= d.count < MAX_DIRENTS
    ensures var r := RemoveAt(Append(d, e), d.count);
            r.count == d.count && Named(r) == Named(d) && r.entries[..d.count] == d.entries[..d.count]
  {
  }

  lemma NewEntryMatches(name: CString, i: uint32, t: byte)
    ensures NewEntry(name, i, t).inode == i && SameName(NewEntry(name, i, t).name, name, 0)
  {
    StoredMatches(name);
  }

  lemma LookupIs(v: Vol, p: nat, name: CString)
    requires p < MAX_INODES && v.inodes[p].size != 0 && LoadDir(v, p).count <= MAX_DIRENTS
    ensures var dir := LoadDir(v, p);
            var k := FindEntry(dir, name, 0);
            DirLookup(v, p, name) == if k < dir.count then dir.entries[k].inode else -1
  {
    hide LoadDir, FindEntry;
  }

  lemma AppendFound(d: Directory, name: CString, i: uint32, t: byte)
    requires d.count < MAX_DIRENTS && FindEntry(d, name, 0) == d.count
    ensures var a := Append(d, NewEntry(name, i, t));
            a.count == d.count + 1 && FindEntry(a, name, 0) == d.count && a.entries[d.count].inode == i
  {
    hide FindEntry, SameName;
    NewEntryMatches(name, i, t);
    FindAppended(d, NewEntry(name, i, t), name, 0);
  }

  /** The name just created is the one found. */
  lemma CreatedIsFound(v: Vol, y: Vol, p: nat, name: CString, i: nat)
    requires p < MAX_INODES && i < MAX_INODES && v.inodes[p].size != 0 && y.inodes[p].size != 0
    requires LoadDir(v, p).count < MAX_DIRENTS && LoadDir(y, p) == Append(LoadDir(v, p), NewEntry(name, i, FT_FILE))
    requires DirLookup(v, p, name) < 0
    ensures DirLookup(y, p, name) == i && FindEntry(LoadDir(y, p), name, 0) == LoadDir(v, p).count
  {
    hide LoadDir, Append, FindEntry, DirLookup, NewEntry;
    LookupIs(v, p, name);
    AppendFound(LoadDir(v, p), name, i, FT_FILE);
    LookupIs(y, p, name);
  }

  /** Everything but the contents of the disk is as it was, and so is every directory's
      list of names. */
  ghost predicate Restored(v: Vol, z: Vol) {
    && z == v.(disk := z.disk)
    && forall d: nat {:trigger IsDir(v, d)} :: IsDir(v, d) ==> Named(LoadDir(z, d)) == Named(LoadDir(v, d)) && LoadDir(z, d).count == LoadDir(v, d).count
  }

  /** A file created, written any number of times and unlinked leaves the volume as it was
      (bitmap, counters, inodes and names) if and only if it got no zero-filled pointer
      block. */
  lemma LifeOfAFile(v: Vol, p: nat, name: CString, ws: seq<WriteOp>)
    requires FsInv(v) && IsDir(v, p) && DirLookup(v, p, name) < 0
    requires Create(v, p, name).1 >= 0
    requires var (x, i) := Create(v, p, name); WriteAll(x, i, ws).1
    ensures var (x, i) := Create(v, p, name);
            var y := WriteAll(x, i, ws).0;
            && Unlink(y, p, name, i).1 == 0
            && (Restored(v, Unlink(y, p, name, i).0) <==> v.fill != 0 || y.inodes[i].indirect1 == NULL_BLOCK)
  {
    hide Create, WriteAll, Unlink, LoadDir, DirLookup, FindEntry, Inv, Live, Val, Tree, Leaked, FreeSet, Unlinked, Restored, Removed;
    CreateKeeps(v, p, name);
    var (x, i) := Create(v, p, name);
    AddedFile(v, x, p, i, name);
    WriteAllKeeps(x, i, ws);
    var y := WriteAll(x, i, ws).0;
    TreeDir(y, p);
    TreeDir(v, p);
    CreatedIsFound(v, y, p, name, i);
    UnlinkKeeps(y, p, name, i);
    if v.fill != 0 || y.inodes[i].indirect1 == NULL_BLOCK {
      LifeRestored(v, x, y, p, i, name);
    } else {
      UnlinkOvercounts(y, p, name, i);
      OvercountedNotRestored(v, Unlink(y, p, name, i).0);
    }
  }

  lemma OvercountedNotRestored(v: Vol, z: Vol)
    requires Inv(v) && Overcounted(z)
    ensures !Restored(v, z)
  {
    hide LoadDir;
  }

  lemma LifeRestored(v: Vol, x: Vol, y: Vol, p: nat, i: nat, name: CString)
    requires p < MAX_INODES && i < MAX_INODES
    requires FsInv(v) && Added(v, x, p, i, FT_FILE, name) && SameVals(v, x)
    requires x == v.(disk := x.disk, inodes := v.inodes[i := x.inodes[i]], freeInodes := x.freeInodes)
    requires Grows(x, y, i) && Leaked(y) == Leaked(x)
    requires forall d: nat {:trigger IsDir(x, d)} :: IsDir(x, d) ==> IsDir(y, d) && LoadDir(y, d) == LoadDir(x, d)
    requires IsDir(y, p) && LoadDir(v, p).count <= MAX_DIRENTS && LoadDir(y, p).count <= MAX_DIRENTS
    requires FindEntry(LoadDir(y, p), name, 0) == LoadDir(v, p).count
    requires Unlinked(y, Unlink(y, p, name, i).0, p, FindEntry(LoadDir(y, p), name, 0), i)
    ensures Restored(v, Unlink(y, p, name, i).0)
  {
    hide Unlink, LoadDir, FindEntry, Inv, Live, Val, Tree, Leaked, FreeSet, Restored, Removed, Added, SameVals, Grows;
    var z := Unlink(y, p, name, i).0;
    AddedFile(v, x, p, i, name);
    BitmapRestored(v, x, y, z, i);
    RestoredRest(v, x, y, z, p, i, name);
  }

  lemma AddedFile(v: Vol, x: Vol, p: nat, i: nat, name: CString)
    requires Tree(v) && Added(v, x, p, i, FT_FILE, name)
    ensures Allocated(x, i) && !IsDir(x, i) && i < MAX_INODES && !Allocated(v, i) && IsDir(x, p)
    ensures LoadDir(x, p) == Append(LoadDir(v, p), NewEntry(name, i, FT_FILE))
  {
    hide LoadDir, Tree, DirReady, Append, NewEntry;
    AddedIsDir(v, x, p, i, FT_FILE, name, p);
  }

  lemma InodesRestored(v: Vol, x: Vol, y: Vol, z: Vol, p: nat, idx: nat, i: nat, name: CString)
    requires FsInv(v) && Added(v, x, p, i, FT_FILE, name) && x.inodes == v.inodes[i := x.inodes[i]]
    requires Grows(x, y, i) && Removed(y, z, p, idx, i)
    ensures z.inodes == v.inodes && z.freeInodes == v.freeInodes
  {
    hide LoadDir, DirReady, Live, Inv, Tree, ZeroInode, Added, Removed;
    AddedRoom(v, x, p, i, name);
    FreeInodeZero(v, i);
    RemovedInode(y, z, p, idx, i);
  }

  lemma RestoredDir(v: Vol, x: Vol, y: Vol, z: Vol, p: nat, i: nat, name: CString, d: nat)
    requires FsInv(v) && Added(v, x, p, i, FT_FILE, name) && IsDir(v, d)
    requires IsDir(y, d) && LoadDir(y, d) == LoadDir(x, d)
    requires Removed(y, z, p, LoadDir(v, p).count, i)
    ensures Named(LoadDir(z, d)) == Named(LoadDir(v, d)) && LoadDir(z, d).count == LoadDir(v, d).count
  {
    hide LoadDir, DirReady, Append, NewEntry, RemoveAt, Inv, Tree, Named, Added, Removed;
    AddedRoom(v, x, p, i, name);
    AddedDirIs(v, x, p, i, FT_FILE, name, d);
    RemovedDirIs(y, z, p, LoadDir(v, p).count, i, d);
    if d == p {
      TreeDir(v, p);
      AppendRemove(LoadDir(v, p), NewEntry(name, i, FT_FILE));
    }
  }

  lemma AddedRoom(v: Vol, x: Vol, p: nat, i: nat, name: CString)
    requires Added(v, x, p, i, FT_FILE, name)
    ensures p < MAX_INODES && i < MAX_INODES && !Allocated(v, i) && LoadDir(v, p).count < MAX_DIRENTS
    ensures x.freeInodes == Dec32(v.freeInodes)
  {
    hide LoadDir, DirReady;
  }

  lemma RestoredRest(v: Vol, x: Vol, y: Vol, z: Vol, p: nat, i: nat, name: CString)
    requires FsInv(v) && Added(v, x, p, i, FT_FILE, name) && x.fill == v.fill
    requires x.inodes == v.inodes[i := x.inodes[i]]
    requires Grows(x, y, i)
    requires forall d: nat {:trigger IsDir(x, d)} :: IsDir(x, d) ==> IsDir(y, d) && LoadDir(y, d) == LoadDir(x, d)
    requires Removed(y, z, p, LoadDir(v, p).count, i) && z.fill == y.fill
    requires z.bits == v.bits && z.freeBlocks == v.freeBlocks
    ensures Restored(v, z)
  {
    hide LoadDir, DirReady, Append, NewEntry, RemoveAt, Live, Inv, Tree, Named, Added, Removed;
    AddedRoom(v, x, p, i, name);
    InodesRestored(v, x, y, z, p, LoadDir(v, p).count, i, name);
    forall d: nat | IsDir(v, d)
      ensures Named(LoadDir(z, d)) == Named(LoadDir(v, d)) && LoadDir(z, d).count == LoadDir(v, d).count
    {
      AddedIsDir(v, x, p, i, FT_FILE, name, d);
      RestoredDir(v, x, y, z, p, i, name, d);
    }
  }

  lemma FreeInodeZero(v: Vol, i: nat)
    requires Tree(v) && i < MAX_INODES && !Allocated(v, i)
    ensures v.inodes[i] == ZeroInode()
  {
    hide LoadDir, DirsReady, EntriesValid, NamedOnce, LinksCounted;
  }
}
