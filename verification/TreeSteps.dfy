/** create, mkdir and unlink keep the namespace tree. */
module TreeSteps {
  import opened Machine
  import opened Volume
  import opened FileIO
  import opened Directory
  import opened Namespace

  lemma NamedAppend(dir: Directory, e: DirEntry)
    requires 2 <= dir.count < MAX_DIRENTS
    ensures Named(Append(dir, e)) == Named(dir) + [e]
  {
  }

  lemma NamedRemove(dir: Directory, idx: nat)
    requires 2 <= idx < dir.count <= MAX_DIRENTS
    ensures Named(RemoveAt(dir, idx)) == Named(dir)[..idx - 2] + Named(dir)[idx - 1..]
  {
  }

  lemma {:induction false} SubdirCountConcat(a: seq<DirEntry>, b: seq<DirEntry>)
    ensures SubdirCount(a + b) == SubdirCount(a) + SubdirCount(b)
  {
    if b == [] {
      assert a + b == a;
    } else {
      SubdirCountConcat(a, b[..|b| - 1]);
      assert (a + b)[..|a + b| - 1] == a + b[..|b| - 1];
    }
  }

  lemma SubdirCountOne(e: DirEntry)
    ensures SubdirCount([e]) == if e.ftype == FT_DIR then 1 else 0
  {
    assert [e][..0] == [];
  }

  lemma {:induction false} SubdirCountBound(es: seq<DirEntry>)
    ensures SubdirCount(es) <= |es|
  {
    if es != [] {
      SubdirCountBound(es[..|es| - 1]);
    }
  }

  // ----- Adding an entry -----

  function DotDir(i: uint32, parent: uint32): Directory {
    Append(Append(EmptyDir(), NewEntry(DOT, i, FT_DIR)), NewEntry(DOTDOT, parent, FT_DIR))
  }

  /** The namespace after inode i of type t was made and named in directory p. */
  ghost predicate Added(v: Vol, w: Vol, p: nat, i: nat, t: byte, name: CString) {
    && IsDir(v, p) && 1 <= i < MAX_INODES && !Allocated(v, i) && (t == FT_FILE || t == FT_DIR)
    && LoadDir(v, p).count < MAX_DIRENTS
    && w.freeInodes == Dec32(v.freeInodes)
    && (forall j: nat {:trigger w.inodes[j]} {:trigger v.inodes[j]} {:trigger Allocated(w, j)} ::
          j < MAX_INODES && j != i && j != p ==> w.inodes[j] == v.inodes[j])
    && w.inodes[p].ftype == FT_DIR
    && w.inodes[p].linkCount == (if t == FT_DIR then Inc32(v.inodes[p].linkCount) else v.inodes[p].linkCount)
    && w.inodes[i].ftype == t && w.inodes[i].linkCount == (if t == FT_DIR then 2 else 1)
    && (forall d: nat {:trigger IsDir(v, d)} :: IsDir(v, d) ==> DirReady(w, d) && LoadDir(w, d) == AddedDir(v, p, i, t, name, d))
    && (t == FT_DIR ==> DirReady(w, i) && LoadDir(w, i) == DotDir(i, p))
  }

  function AddedDir(v: Vol, p: nat, i: nat, t: byte, name: CString, d: nat): Directory
    requires p < MAX_INODES && d < MAX_INODES && i < MAX_INODES && LoadDir(v, p).count < MAX_DIRENTS
  {
    if d == p then Append(LoadDir(v, p), NewEntry(name, i, t)) else LoadDir(v, d)
  }

  lemma AddedIsDir(v: Vol, w: Vol, p: nat, i: nat, t: byte, name: CString, d: nat)
    requires Tree(v) && Added(v, w, p, i, t, name)
    ensures IsDir(w, d) <==> IsDir(v, d) || (d == i && t == FT_DIR)
    ensures Allocated(w, d) <==> Allocated(v, d) || d == i
  {
    hide LoadDir, DirReady, EntriesValid, NamedOnce, DirsReady;
    LinkNotWrapped(v, p);
  }

  lemma NamedShort(dir: Directory)
    ensures |Named(dir)| <= MAX_DIRENTS - 2
  {
  }

  lemma LinkNotWrapped(v: Vol, p: nat)
    requires Tree(v) && IsDir(v, p)
    ensures 2 <= v.inodes[p].linkCount <= MAX_DIRENTS && v.inodes[p].linkCount == 2 + SubdirCount(Named(LoadDir(v, p)))
  {
    hide LoadDir, DirReady, EntriesValid, NamedOnce, DirsReady, Named;
    assert Allocated(v, p);
    NamedShort(LoadDir(v, p));
    SubdirCountBound(Named(LoadDir(v, p)));
  }

  lemma DotDirNamed(i: uint32, parent: uint32)
    ensures Named(DotDir(i, parent)) == [] && DotDir(i, parent).count == 2
    ensures DotDir(i, parent).entries[0] == NewEntry(DOT, i, FT_DIR)
    ensures DotDir(i, parent).entries[1] == NewEntry(DOTDOT, parent, FT_DIR)
  {
  }

  function AddedNamed(v: Vol, p: nat, i: nat, t: byte, name: CString, d: nat): seq<DirEntry>
    requires d < MAX_INODES && i < MAX_INODES
  {
    if d == i then [] else if d == p then Named(LoadDir(v, d)) + [NewEntry(name, i, t)] else Named(LoadDir(v, d))
  }

  lemma AddedNamedIs(v: Vol, w: Vol, p: nat, i: nat, t: byte, name: CString, d: nat)
    requires Tree(v) && Added(v, w, p, i, t, name) && IsDir(w, d)
    ensures Named(LoadDir(w, d)) == AddedNamed(v, p, i, t, name, d)
    ensures d != i ==> IsDir(v, d)
  {
    hide LoadDir, DirReady, EntriesValid, NamedOnce, LinksCounted, InodesCounted, NewEntry;
    AddedIsDir(v, w, p, i, t, name, d);
    assert IsDir(v, p) && DotEntries(v, p) && !IsDir(v, i);
    NamedAppend(LoadDir(v, p), NewEntry(name, i, t));
    DotDirNamed(i, p);
    hide DotDir, Append, Named;
  }

  lemma AddedNames(v: Vol, w: Vol, p: nat, i: nat, t: byte, name: CString, d: nat, k: nat, j: nat)
    requires Tree(v) && Added(v, w, p, i, t, name)
    ensures Names(w, d, k, j) <==> Names(v, d, k, j) || (d == p && k == |Named(LoadDir(v, p))| && j == i)
    ensures Names(v, d, k, j) ==> IsDir(w, d) && d != i && k < |Named(LoadDir(w, d))| && Named(LoadDir(w, d))[k] == Named(LoadDir(v, d))[k]
  {
    hide LoadDir, DirReady, EntriesValid, NamedOnce, LinksCounted, InodesCounted, Named, Append, DotDir, DirsReady;
    AddedIsDir(v, w, p, i, t, name, d);
    if IsDir(w, d) {
      AddedNamedIs(v, w, p, i, t, name, d);
    }
  }

  lemma AppendKeepsDots(dir: Directory, e: DirEntry)
    requires 2 <= dir.count < MAX_DIRENTS
    ensures var a := Append(dir, e);
            a.entries[0] == dir.entries[0] && a.entries[1] == dir.entries[1] && 2 <= a.count <= MAX_DIRENTS
  {
  }

  lemma DotsSame(v: Vol, w: Vol, d: nat)
    requires d < MAX_INODES && DotEntries(v, d) && 2 <= LoadDir(w, d).count <= MAX_DIRENTS
    requires LoadDir(w, d).entries[0] == LoadDir(v, d).entries[0] && LoadDir(w, d).entries[1] == LoadDir(v, d).entries[1]
    requires IsDir(w, LoadDir(v, d).entries[1].inode)
    ensures DotEntries(w, d)
  {
    hide LoadDir, IsDir, NewEntry;
  }

  lemma FreshDots(w: Vol, i: nat, p: nat)
    requires i < MAX_INODES && p < MAX_INODES && LoadDir(w, i) == DotDir(i, p) && IsDir(w, p)
    ensures DotEntries(w, i)
  {
    hide LoadDir;
    DotDirNamed(i, p);
    hide DotDir;
    NewEntryInode(DOTDOT, p, FT_DIR);
    hide NewEntry;
  }

  lemma TreeDir(v: Vol, d: nat)
    requires Tree(v) && IsDir(v, d)
    ensures DirReady(v, d) && DotEntries(v, d)
  {
    hide LoadDir, DirReady, EntriesValid, NamedOnce, LinksCounted, InodesCounted, DotEntries;
  }

  lemma AddedDirIs(v: Vol, w: Vol, p: nat, i: nat, t: byte, name: CString, d: nat)
    requires Added(v, w, p, i, t, name) && IsDir(v, d)
    ensures d != i && DirReady(w, d)
    ensures LoadDir(w, d) == if d == p then Append(LoadDir(v, d), NewEntry(name, i, t)) else LoadDir(v, d)
  {
    hide LoadDir, DirReady, NewEntry, Append, DotDir;
  }

  /** Old directories keep their "." and "..". */
  lemma AddedKeepsDots(v: Vol, w: Vol, p: nat, i: nat, t: byte, name: CString, d: nat)
    requires Tree(v) && Added(v, w, p, i, t, name) && IsDir(v, d)
    ensures d != i && IsDir(w, d) && DirReady(w, d) && DotEntries(w, d)
    ensures LoadDir(w, d).entries[1] == LoadDir(v, d).entries[1]
  {
    TreeDir(v, d);
    AddedIsDir(v, w, p, i, t, name, d);
    AddedIsDir(v, w, p, i, t, name, LoadDir(v, d).entries[1].inode);
    AddedDirIs(v, w, p, i, t, name, d);
    hide LoadDir, DirReady, Tree, Named, NewEntry, Append, IsDir;
    if d == p {
      AppendKeepsDots(LoadDir(v, d), NewEntry(name, i, t));
    }
    DotsSame(v, w, d);
  }

  lemma AddedDirsReady(v: Vol, w: Vol, p: nat, i: nat, t: byte, name: CString)
    requires Tree(v) && Added(v, w, p, i, t, name)
    ensures DirsReady(w)
  {
    hide LoadDir, DirReady, EntriesValid, NamedOnce, LinksCounted, InodesCounted, Named, NewEntry, Append, DotDir, DotEntries;
    forall d: nat | IsDir(w, d)
      ensures DirReady(w, d) && DotEntries(w, d)
    {
      AddedIsDir(v, w, p, i, t, name, d);
      if IsDir(v, d) {
        AddedKeepsDots(v, w, p, i, t, name, d);
      } else {
        AddedIsDir(v, w, p, i, t, name, p);
        FreshDots(w, i, p);
      }
    }
    AddedKeepsDots(v, w, p, i, t, name, ROOT_INODE);
  }

  lemma AddedParent(v: Vol, w: Vol, p: nat, i: nat, t: byte, name: CString, d: nat)
    requires Tree(v) && Added(v, w, p, i, t, name) && (IsDir(v, d) || (d == i && t == FT_DIR))
    ensures LoadDir(w, d).entries[1].inode == if d == i then p else LoadDir(v, d).entries[1].inode
  {
    hide LoadDir, DirReady, EntriesValid, NamedOnce, LinksCounted, InodesCounted, Named, NewEntry, Append, DotDir, DirsReady;
    if IsDir(v, d) {
      AddedKeepsDots(v, w, p, i, t, name, d);
    } else {
      DotDirNamed(i, p);
      NewEntryInode(DOTDOT, p, FT_DIR);
    }
  }

  lemma NewEntryInode(name: CString, i: uint32, t: byte)
    ensures NewEntry(name, i, t).inode == i && NewEntry(name, i, t).ftype == t
  {
  }

  lemma AddedEntriesValid(v: Vol, w: Vol, p: nat, i: nat, t: byte, name: CString)
    requires Tree(v) && Added(v, w, p, i, t, name)
    ensures EntriesValid(w)
  {
    hide LoadDir, DirReady, NamedOnce, LinksCounted, InodesCounted, Named, Append, DotDir, Names, DotEntries;
    forall d: nat, k: nat, j: nat | Names(w, d, k, j)
      ensures j != ROOT_INODE && Allocated(w, j) && IsDir(w, d) && k < |Named(LoadDir(w, d))|
      ensures Named(LoadDir(w, d))[k].ftype == w.inodes[j].ftype
      ensures w.inodes[j].ftype == FT_DIR ==> LoadDir(w, j).entries[1].inode == d
    {
      AddedNames(v, w, p, i, t, name, d, k, j);
      AddedIsDir(v, w, p, i, t, name, j);
      NamesDir(w, d, k, j);
      if Names(v, d, k, j) {
        NamesDir(v, d, k, j);
        if IsDir(v, j) {
          AddedParent(v, w, p, i, t, name, j);
        }
      } else {
        AddedNamedIs(v, w, p, i, t, name, d);
        if t == FT_DIR {
          AddedParent(v, w, p, i, t, name, i);
        }
      }
    }
  }

  lemma NamesDir(v: Vol, d: nat, k: nat, i: nat)
    requires Names(v, d, k, i)
    ensures IsDir(v, d) && k < |Named(LoadDir(v, d))| && Named(LoadDir(v, d))[k].inode == i
  {
  }

  lemma AddedNamedOnce(v: Vol, w: Vol, p: nat, i: nat, t: byte, name: CString)
    requires Tree(v) && Added(v, w, p, i, t, name)
    ensures NamedOnce(w)
  {
    hide LoadDir, DirReady, LinksCounted, InodesCounted, Named, Append, DotDir, Names, DotEntries;
    forall j: nat | Allocated(w, j) && j != ROOT_INODE
      ensures exists d: nat, k: nat :: Names(w, d, k, j)
    {
      AddedIsDir(v, w, p, i, t, name, j);
      if j == i {
        AddedNames(v, w, p, i, t, name, p, |Named(LoadDir(v, p))|, i);
        assert Names(w, p, |Named(LoadDir(v, p))|, i);
      } else {
        var d: nat, k: nat :| Names(v, d, k, j);
        AddedNames(v, w, p, i, t, name, d, k, j);
        assert Names(w, d, k, j);
      }
    }
    forall d: nat, k: nat, e: nat, m: nat, j: nat | Names(w, d, k, j) && Names(w, e, m, j)
      ensures d == e && k == m
    {
      AddedNames(v, w, p, i, t, name, d, k, j);
      AddedNames(v, w, p, i, t, name, e, m, j);
      assert Names(v, d, k, j) ==> j != i;
      assert Names(v, e, m, j) ==> j != i;
    }
  }

  lemma AddedLinks(v: Vol, w: Vol, p: nat, i: nat, t: byte, name: CString)
    requires Tree(v) && Added(v, w, p, i, t, name)
    ensures LinksCounted(w)
  {
    hide LoadDir, DirReady, EntriesValid, NamedOnce, InodesCounted, Named, Append, DotDir, DirsReady, SubdirCount;
    forall j: nat | Allocated(w, j)
      ensures if w.inodes[j].ftype == FT_DIR then w.inodes[j].linkCount == 2 + SubdirCount(Named(LoadDir(w, j)))
              else w.inodes[j].ftype == FT_FILE && w.inodes[j].linkCount == 1
    {
      AddedIsDir(v, w, p, i, t, name, j);
      if IsDir(w, j) {
        AddedNamedIs(v, w, p, i, t, name, j);
        LinkNotWrapped(v, p);
        SubdirCountConcat(Named(LoadDir(v, j)), [NewEntry(name, i, t)]);
        SubdirCountOne(NewEntry(name, i, t));
        EmptySubdirs();
      }
    }
  }

  lemma EmptySubdirs()
    ensures SubdirCount([]) == 0
  {
  }

  lemma AddedInodes(v: Vol, w: Vol, p: nat, i: nat, t: byte, name: CString)
    requires Tree(v) && Added(v, w, p, i, t, name)
    ensures InodesCounted(w)
  {
    hide LoadDir, DirReady, EntriesValid, NamedOnce, LinksCounted, DirsReady;
    forall j: nat
      ensures Allocated(w, j) <==> Allocated(v, j) || j == i
    {
      AddedIsDir(v, w, p, i, t, name, j);
    }
    assert FreeInodeSet(w) == FreeInodeSet(v) - {i};
    CardBelow(FreeInodeSet(v), MAX_INODES);
  }

  /** Directories whose ".." stays lead up as they did. */
  lemma {:induction false} ClimbSame(v: Vol, w: Vol, d: nat, k: nat)
    requires Tree(v) && IsDir(v, d)
    requires forall e: nat {:trigger IsDir(v, e)} :: IsDir(v, e) ==> LoadDir(w, e).entries[1] == LoadDir(v, e).entries[1]
    ensures Climb(w, d, k) == Climb(v, d, k)
    decreases k
  {
    hide LoadDir, Tree;
    if k > 0 {
      ParentIsDir(v, d);
      ClimbSame(v, w, LoadDir(v, d).entries[1].inode, k - 1);
    }
  }

  lemma ParentIsDir(v: Vol, d: nat)
    requires Tree(v) && IsDir(v, d)
    ensures IsDir(v, LoadDir(v, d).entries[1].inode)
  {
    hide LoadDir;
    TreeDir(v, d);
  }

  lemma RootedSame(v: Vol, w: Vol, d: nat)
    requires Tree(v) && IsDir(v, d)
    requires forall e: nat {:trigger IsDir(v, e)} :: IsDir(v, e) ==> LoadDir(w, e).entries[1] == LoadDir(v, e).entries[1]
    ensures exists k: nat :: Climb(w, d, k) == ROOT_INODE
  {
    var k: nat :| Climb(v, d, k) == ROOT_INODE;
    ClimbSame(v, w, d, k);
  }

  lemma AddedRooted(v: Vol, w: Vol, p: nat, i: nat, t: byte, name: CString)
    requires Tree(v) && Added(v, w, p, i, t, name)
    ensures Rooted(w)
  {
    hide LoadDir, DirReady, Tree, Added, Climb;
    forall e: nat | IsDir(v, e)
      ensures LoadDir(w, e).entries[1] == LoadDir(v, e).entries[1]
    {
      AddedKeepsDots(v, w, p, i, t, name, e);
    }
    forall d: nat | IsDir(w, d)
      ensures exists k: nat :: Climb(w, d, k) == ROOT_INODE
    {
      AddedIsDir(v, w, p, i, t, name, d);
      if IsDir(v, d) {
        RootedSame(v, w, d);
      } else {
        NewDirRooted(v, w, p, i, t, name);
      }
    }
  }

  lemma NewDirRooted(v: Vol, w: Vol, p: nat, i: nat, t: byte, name: CString)
    requires Tree(v) && Added(v, w, p, i, t, name) && t == FT_DIR
    requires forall e: nat {:trigger IsDir(v, e)} :: IsDir(v, e) ==> LoadDir(w, e).entries[1] == LoadDir(v, e).entries[1]
    ensures exists k: nat :: Climb(w, i, k) == ROOT_INODE
  {
    assert IsDir(v, p) && i < MAX_INODES;
    hide LoadDir, DirReady, Tree, Added;
    AddedParent(v, w, p, i, t, name, i);
    RootedSame(v, w, p);
    var k: nat :| Climb(w, p, k) == ROOT_INODE;
    assert Climb(w, i, k + 1) == Climb(w, p, k);
  }

  lemma AddedTree(v: Vol, w: Vol, p: nat, i: nat, t: byte, name: CString)
    requires Tree(v) && Added(v, w, p, i, t, name)
    ensures Tree(w)
  {
    AddedDirsReady(v, w, p, i, t, name);
    AddedEntriesValid(v, w, p, i, t, name);
    AddedNamedOnce(v, w, p, i, t, name);
    AddedLinks(v, w, p, i, t, name);
    AddedInodes(v, w, p, i, t, name);
    AddedRooted(v, w, p, i, t, name);
  }

  // ----- Removing an entry -----

  /** The namespace after file i, entry idx of directory p, was removed and freed. */
  ghost predicate Removed(v: Vol, w: Vol, p: nat, idx: nat, i: nat) {
    && IsDir(v, p) && 2 <= idx < LoadDir(v, p).count <= MAX_DIRENTS
    && LoadDir(v, p).entries[idx].inode == i && Allocated(v, i) && v.inodes[i].ftype != FT_DIR
    && w.inodes == v.inodes[i := ZeroInode()]
    && w.freeInodes == Inc32(v.freeInodes)
    && (forall d: nat {:trigger IsDir(v, d)} :: IsDir(v, d) ==>
          DirReady(w, d) && LoadDir(w, d) == if d == p then RemoveAt(LoadDir(v, p), idx) else LoadDir(v, d))
  }

  /** Where entry k of directory d was before the removal. */
  function Before(p: nat, idx: nat, d: nat, k: nat): nat {
    if d == p && k + 2 >= idx then k + 1 else k
  }

  lemma RemovedDirIs(v: Vol, w: Vol, p: nat, idx: nat, i: nat, d: nat)
    requires Removed(v, w, p, idx, i)
    ensures idx >= 2 && (IsDir(w, d) <==> IsDir(v, d))
    ensures Allocated(w, d) <==> Allocated(v, d) && d != i
    ensures IsDir(v, d) ==> DirReady(w, d) && d != i
    ensures IsDir(v, d) ==> LoadDir(w, d) == if d == p then RemoveAt(LoadDir(v, d), idx) else LoadDir(v, d)
  {
    hide LoadDir, DirReady, RemoveAt;
  }

  lemma RemovedNamedIs(v: Vol, w: Vol, p: nat, idx: nat, i: nat, d: nat)
    requires Removed(v, w, p, idx, i) && IsDir(v, d)
    ensures var n, m := Named(LoadDir(v, d)), Named(LoadDir(w, d));
            if d == p then idx - 2 < |n| && m == n[..idx - 2] + n[idx - 1..] else m == n
  {
    RemovedDirIs(v, w, p, idx, i, d);
    if d == p {
      NamedRemove(LoadDir(v, p), idx);
      NamedLength(LoadDir(v, p));
    }
    hide LoadDir, DirReady, RemoveAt, Named;
  }

  lemma NamedLength(dir: Directory)
    requires 2 <= dir.count <= MAX_DIRENTS
    ensures |Named(dir)| == dir.count - 2
  {
  }

  lemma RemovedNames(v: Vol, w: Vol, p: nat, idx: nat, i: nat, d: nat, k: nat, j: nat)
    requires Tree(v) && Removed(v, w, p, idx, i)
    ensures Names(w, d, k, j) <==> Names(v, d, Before(p, idx, d, k), j)
    ensures Names(w, d, k, j) ==> Named(LoadDir(w, d))[k] == Named(LoadDir(v, d))[Before(p, idx, d, k)]
  {
    hide LoadDir, DirReady, RemoveAt, Tree, Named, Removed, IsDir;
    RemovedDirIs(v, w, p, idx, i, d);
    if IsDir(v, d) {
      RemovedNamedIs(v, w, p, idx, i, d);
    }
  }

  lemma RemovedWasNamed(v: Vol, w: Vol, p: nat, idx: nat, i: nat)
    requires Tree(v) && Removed(v, w, p, idx, i)
    ensures Names(v, p, idx - 2, i) && i != ROOT_INODE
  {
    hide LoadDir, DirReady, RemoveAt, DirsReady, LinksCounted, InodesCounted, NamedOnce;
  }

  /** The inode removed is named no more, and every other name has one old place. */
  lemma RemovedNotNamed(v: Vol, w: Vol, p: nat, idx: nat, i: nat, d: nat, k: nat)
    requires Tree(v) && Removed(v, w, p, idx, i)
    ensures !Names(w, d, k, i)
  {
    RemovedNames(v, w, p, idx, i, d, k, i);
    RemovedWasNamed(v, w, p, idx, i);
    hide LoadDir, DirReady, RemoveAt, DirsReady, LinksCounted, InodesCounted, Named, EntriesValid, Names;
  }

  lemma RemoveKeepsDots(dir: Directory, idx: nat)
    requires 2 <= idx < dir.count <= MAX_DIRENTS
    ensures var a := RemoveAt(dir, idx);
            a.entries[0] == dir.entries[0] && a.entries[1] == dir.entries[1] && 2 <= a.count <= MAX_DIRENTS
  {
  }

  lemma RemovedKeepsDots(v: Vol, w: Vol, p: nat, idx: nat, i: nat, d: nat)
    requires Tree(v) && Removed(v, w, p, idx, i) && IsDir(v, d)
    ensures DirReady(w, d) && DotEntries(w, d) && LoadDir(w, d).entries[1] == LoadDir(v, d).entries[1]
  {
    RemovedDirIs(v, w, p, idx, i, d);
    TreeDir(v, d);
    RemovedDirIs(v, w, p, idx, i, LoadDir(v, d).entries[1].inode);
    RemoveKeepsDots(LoadDir(v, p), idx);
    hide LoadDir, DirReady, Tree, Named, IsDir, Removed, RemoveAt, NewEntry;
    DotsSame(v, w, d);
  }

  lemma RemovedDirsReady(v: Vol, w: Vol, p: nat, idx: nat, i: nat)
    requires Tree(v) && Removed(v, w, p, idx, i)
    ensures DirsReady(w)
    ensures forall d: nat {:trigger IsDir(w, d)} :: IsDir(w, d) ==> LoadDir(w, d).entries[1] == LoadDir(v, d).entries[1]
  {
    hide LoadDir, DirReady, EntriesValid, NamedOnce, LinksCounted, InodesCounted, Named, DotEntries, Removed;
    forall d: nat | IsDir(w, d)
      ensures DirReady(w, d) && DotEntries(w, d) && LoadDir(w, d).entries[1] == LoadDir(v, d).entries[1]
    {
      RemovedDirIs(v, w, p, idx, i, d);
      RemovedKeepsDots(v, w, p, idx, i, d);
    }
    RemovedDirIs(v, w, p, idx, i, ROOT_INODE);
  }

  lemma RemovedEntriesValid(v: Vol, w: Vol, p: nat, idx: nat, i: nat)
    requires Tree(v) && Removed(v, w, p, idx, i)
    ensures EntriesValid(w)
  {
    hide LoadDir, DirReady, Tree, Named, Removed;
    RemovedDirsReady(v, w, p, idx, i);
    forall d: nat, k: nat, j: nat | Names(w, d, k, j)
      ensures j != ROOT_INODE && Allocated(w, j) && Named(LoadDir(w, d))[k].ftype == w.inodes[j].ftype
      ensures w.inodes[j].ftype == FT_DIR ==> LoadDir(w, j).entries[1].inode == d
    {
      RemovedEntryValid(v, w, p, idx, i, d, k, j);
    }
  }

  lemma RemovedEntryValid(v: Vol, w: Vol, p: nat, idx: nat, i: nat, d: nat, k: nat, j: nat)
    requires Tree(v) && Removed(v, w, p, idx, i) && Names(w, d, k, j)
    ensures j != ROOT_INODE && Allocated(w, j) && Named(LoadDir(w, d))[k].ftype == w.inodes[j].ftype
    ensures w.inodes[j].ftype == FT_DIR ==> LoadDir(w, j).entries[1].inode == d
  {
    hide LoadDir, DirReady, DirsReady, NamedOnce, LinksCounted, InodesCounted, Named, RemoveAt, DotEntries;
    RemovedNames(v, w, p, idx, i, d, k, j);
    RemovedNotNamed(v, w, p, idx, i, d, k);
    RemovedDirIs(v, w, p, idx, i, j);
    assert Names(v, d, Before(p, idx, d, k), j);
    hide Names;
    assert w.inodes[j] == v.inodes[j];
    if v.inodes[j].ftype == FT_DIR {
      RemovedKeepsDots(v, w, p, idx, i, j);
    }
  }

  lemma RemovedNamedOnce(v: Vol, w: Vol, p: nat, idx: nat, i: nat)
    requires Tree(v) && Removed(v, w, p, idx, i)
    ensures NamedOnce(w)
  {
    hide LoadDir, DirReady, DirsReady, EntriesValid, LinksCounted, InodesCounted, Named, RemoveAt, DotEntries, Names, Removed;
    RemovedWasNamed(v, w, p, idx, i);
    forall j: nat | Allocated(w, j) && j != ROOT_INODE
      ensures exists d: nat, k: nat :: Names(w, d, k, j)
    {
      RemovedDirIs(v, w, p, idx, i, j);
      var d: nat, m: nat :| Names(v, d, m, j);
      NamesDir(v, d, m, j);
      NamesDir(v, p, idx - 2, i);
      assert d == p ==> m + 2 != idx;
      var k: nat := if d == p && m + 2 > idx then m - 1 else m;
      RemovedNames(v, w, p, idx, i, d, k, j);
      assert Names(w, d, k, j);
    }
    forall d: nat, k: nat, e: nat, m: nat, j: nat | Names(w, d, k, j) && Names(w, e, m, j)
      ensures d == e && k == m
    {
      RemovedNames(v, w, p, idx, i, d, k, j);
      RemovedNames(v, w, p, idx, i, e, m, j);
    }
  }

  lemma SubdirCountRemove(es: seq<DirEntry>, k: nat)
    requires k < |es| && es[k].ftype != FT_DIR
    ensures SubdirCount(es[..k] + es[k + 1..]) == SubdirCount(es)
  {
    assert es == es[..k] + ([es[k]] + es[k + 1..]);
    SubdirCountConcat(es[..k], [es[k]] + es[k + 1..]);
    SubdirCountConcat([es[k]], es[k + 1..]);
    SubdirCountOne(es[k]);
    SubdirCountConcat(es[..k], es[k + 1..]);
  }

  /** The entry removed is a file's, so no count of subdirectories changes. */
  lemma RemovedFile(v: Vol, w: Vol, p: nat, idx: nat, i: nat)
    requires Tree(v) && Removed(v, w, p, idx, i)
    ensures SubdirCount(Named(RemoveAt(LoadDir(v, p), idx))) == SubdirCount(Named(LoadDir(v, p)))
  {
    hide LoadDir, DirReady, DirsReady, NamedOnce, LinksCounted, InodesCounted, Named, RemoveAt, SubdirCount;
    RemovedWasNamed(v, w, p, idx, i);
    NamedRemove(LoadDir(v, p), idx);
    SubdirCountRemove(Named(LoadDir(v, p)), idx - 2);
  }

  lemma RemovedLinks(v: Vol, w: Vol, p: nat, idx: nat, i: nat)
    requires Tree(v) && Removed(v, w, p, idx, i)
    ensures LinksCounted(w)
  {
    hide LoadDir, DirReady, DirsReady, EntriesValid, NamedOnce, InodesCounted, Named, RemoveAt, SubdirCount;
    RemovedFile(v, w, p, idx, i);
    forall j: nat | Allocated(w, j)
      ensures if w.inodes[j].ftype == FT_DIR then w.inodes[j].linkCount == 2 + SubdirCount(Named(LoadDir(w, j)))
              else w.inodes[j].ftype == FT_FILE && w.inodes[j].linkCount == 1
    {
      RemovedDirIs(v, w, p, idx, i, j);
    }
  }

  lemma RemovedInodes(v: Vol, w: Vol, p: nat, idx: nat, i: nat)
    requires Tree(v) && Removed(v, w, p, idx, i)
    ensures InodesCounted(w)
  {
    hide LoadDir, DirReady, EntriesValid, NamedOnce, LinksCounted, DirsReady, RemoveAt, Removed, Allocated;
    RemovedWasNamed(v, w, p, idx, i);
    RemovedInode(v, w, p, idx, i);
    forall j: nat
      ensures Allocated(w, j) <==> Allocated(v, j) && j != i
    {
      RemovedDirIs(v, w, p, idx, i, j);
    }
    assert FreeInodeSet(w) == FreeInodeSet(v) + {i};
    CardBelow(FreeInodeSet(v), MAX_INODES);
  }

  lemma RemovedInode(v: Vol, w: Vol, p: nat, idx: nat, i: nat)
    requires Removed(v, w, p, idx, i)
    ensures i < MAX_INODES && Allocated(v, i)
    ensures w.inodes == v.inodes[i := ZeroInode()] && w.freeInodes == Inc32(v.freeInodes)
  {
    hide LoadDir, DirReady;
  }

  lemma RemovedRooted(v: Vol, w: Vol, p: nat, idx: nat, i: nat)
    requires Tree(v) && Removed(v, w, p, idx, i)
    ensures Rooted(w)
  {
    hide LoadDir, DirReady, Tree, Removed, Climb;
    forall e: nat | IsDir(v, e)
      ensures LoadDir(w, e).entries[1] == LoadDir(v, e).entries[1]
    {
      RemovedKeepsDots(v, w, p, idx, i, e);
    }
    forall d: nat | IsDir(w, d)
      ensures exists k: nat :: Climb(w, d, k) == ROOT_INODE
    {
      RemovedDirIs(v, w, p, idx, i, d);
      RootedSame(v, w, d);
    }
  }

  lemma RemovedTree(v: Vol, w: Vol, p: nat, idx: nat, i: nat)
    requires Tree(v) && Removed(v, w, p, idx, i)
    ensures Tree(w)
  {
    RemovedDirsReady(v, w, p, idx, i);
    RemovedEntriesValid(v, w, p, idx, i);
    RemovedNamedOnce(v, w, p, idx, i);
    RemovedLinks(v, w, p, idx, i);
    RemovedInodes(v, w, p, idx, i);
    RemovedRooted(v, w, p, idx, i);
  }
}
