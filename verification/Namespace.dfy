/** Inode allocation, create, mkdir and the removal half of unlink, and the tree invariant
    they keep. */
module Namespace {
  import opened Machine
  import opened Volume
  import opened Release
  import opened Directory

  const DOT: CString := [46]
  const DOTDOT: CString := [46, 46]
  const EISDIR: int := -21

  // ----- idkfs_core.c:148-169 -----

  function FindFreeInode(v: Vol, i: nat): (r: nat)
    requires i <= MAX_INODES
    ensures i <= r <= MAX_INODES
    ensures r < MAX_INODES ==> !Allocated(v, r)
    ensures forall j :: i <= j < r ==> Allocated(v, j)
    decreases MAX_INODES - i
  {
    if i == MAX_INODES || v.inodes[i].linkCount == 0 then i else FindFreeInode(v, i + 1)
  }

  function FreshInode(i: uint32): Inode {
    Inode(i, 0, 0, 0, 0, AllPointers(NULL_BLOCK), NULL_BLOCK)
  }

  /** `inode_alloc` and the assignments to the new inode that follow it. */
  function NewInode(v: Vol, ftype: byte, links: uint32): (r: (Vol, int))
    ensures -1 <= r.1 < MAX_INODES
  {
    var i := FindFreeInode(v, 1);
    if i == MAX_INODES then (v, -1)
    else (v.(inodes := v.inodes[i := FreshInode(i).(ftype := ftype, linkCount := links)],
             freeInodes := Dec32(v.freeInodes)), i)
  }

  function InodeFree(v: Vol, i: nat): Vol
    requires i < MAX_INODES
  {
    v.(inodes := v.inodes[i := ZeroInode()], freeInodes := Inc32(v.freeInodes))
  }

  // ----- idkfs_core.c:345-380 -----

  function Create(v: Vol, parent: nat, name: CString): (r: (Vol, int))
    requires parent < MAX_INODES
    ensures -1 <= r.1 < MAX_INODES
  {
    var (w, ino) := NewInode(v, FT_FILE, 1);
    if ino < 0 then (v, -1)
    else
      var (x, r) := DirAdd(w, parent, name, ino, FT_FILE);
      if r < 0 then (InodeFree(x, ino), -1) else (x, ino)
  }

  function AddLink(v: Vol, i: nat): Vol
    requires i < MAX_INODES
  {
    WithInode(v, i, v.inodes[i].(linkCount := Inc32(v.inodes[i].linkCount)))
  }

  /** None of the three results of `idkfs_dir_add` is looked at. */
  function Mkdir(v: Vol, parent: nat, name: CString): (r: (Vol, int))
    requires parent < MAX_INODES
    ensures -1 <= r.1 < MAX_INODES
  {
    var (w, ino) := NewInode(v, FT_DIR, 2);
    if ino < 0 then (v, -1)
    else
      var a := DirAdd(w, ino, DOT, ino, FT_DIR).0;
      var b := DirAdd(a, ino, DOTDOT, parent, FT_DIR).0;
      var c := DirAdd(b, parent, name, ino, FT_DIR).0;
      (AddLink(c, parent), ino)
  }

  /** fuse_unlink once the path has been resolved (idkfs_fuse.c:399-435). */
  function Unlink(v: Vol, parent: nat, name: CString, ino: nat): (Vol, int)
    requires parent < MAX_INODES && ino < MAX_INODES
  {
    if v.inodes[ino].ftype == FT_DIR then (v, EISDIR)
    else
      var (w, r) := DirRemove(ReleaseBlocks(v, ino), parent, name);
      if r < 0 then (w, r) else (InodeFree(w, ino), 0)
  }

  // ----- The tree invariant -----

  predicate IsDir(v: Vol, d: nat) {
    Allocated(v, d) && v.inodes[d].ftype == FT_DIR
  }

  /** The entries of a directory after "." and "..". */
  function Named(dir: Directory): seq<DirEntry> {
    if 2 <= dir.count <= MAX_DIRENTS then dir.entries[2..dir.count] else []
  }

  function SubdirCount(es: seq<DirEntry>): nat {
    if es == [] then 0
    else SubdirCount(es[..|es| - 1]) + if es[|es| - 1].ftype == FT_DIR then 1 else 0
  }

  ghost predicate DotEntries(v: Vol, d: nat)
    requires d < MAX_INODES
  {
    var dir := LoadDir(v, d);
    && 2 <= dir.count <= MAX_DIRENTS
    && dir.entries[0] == NewEntry(DOT, d, FT_DIR)
    && IsDir(v, dir.entries[1].inode)
    && dir.entries[1] == NewEntry(DOTDOT, dir.entries[1].inode, FT_DIR)
  }

  ghost predicate Names(v: Vol, d: nat, k: nat, i: nat) {
    IsDir(v, d) && k < |Named(LoadDir(v, d))| && Named(LoadDir(v, d))[k].inode == i
  }

  ghost predicate DirsReady(v: Vol) {
    && IsDir(v, ROOT_INODE) && LoadDir(v, ROOT_INODE).entries[1].inode == ROOT_INODE
    && forall d: nat {:trigger IsDir(v, d)} :: IsDir(v, d) ==> DirReady(v, d) && DotEntries(v, d)
  }

  /** Every entry names an allocated inode other than the root, of the recorded type, and
      the ".." of a directory so named is the directory that names it. */
  ghost predicate EntriesValid(v: Vol) {
    forall d: nat, k: nat, i: nat {:trigger Names(v, d, k, i)} :: Names(v, d, k, i) ==>
      && i != ROOT_INODE && Allocated(v, i) && Named(LoadDir(v, d))[k].ftype == v.inodes[i].ftype
      && (v.inodes[i].ftype == FT_DIR ==> LoadDir(v, i).entries[1].inode == d)
  }

  ghost predicate NamedOnce(v: Vol) {
    && (forall i: nat {:trigger Allocated(v, i)} :: Allocated(v, i) && i != ROOT_INODE ==> exists d: nat, k: nat :: Names(v, d, k, i))
    && (forall d: nat, k: nat, e: nat, m: nat, i: nat {:trigger Names(v, d, k, i), Names(v, e, m, i)} ::
          Names(v, d, k, i) && Names(v, e, m, i) ==> d == e && k == m)
  }

  ghost predicate LinksCounted(v: Vol) {
    forall i: nat {:trigger Allocated(v, i)} :: Allocated(v, i) ==>
      if v.inodes[i].ftype == FT_DIR then v.inodes[i].linkCount == 2 + SubdirCount(Named(LoadDir(v, i)))
      else v.inodes[i].ftype == FT_FILE && v.inodes[i].linkCount == 1
  }

  ghost function FreeInodeSet(v: Vol): set<nat> {
    set i: nat | 1 <= i < MAX_INODES && !Allocated(v, i)
  }

  ghost predicate InodesCounted(v: Vol) {
    && v.freeInodes == |FreeInodeSet(v)|
    && forall i: nat {:trigger v.inodes[i]} :: i < MAX_INODES && !Allocated(v, i) ==> v.inodes[i] == ZeroInode()
  }

  /** Following ".." k times from directory d. */
  function Climb(v: Vol, d: nat, k: nat): nat
    decreases k
  {
    if k == 0 || d >= MAX_INODES then d else Climb(v, LoadDir(v, d).entries[1].inode, k - 1)
  }

  /** Following ".." leads from every directory to the root. */
  ghost predicate Rooted(v: Vol) {
    forall d: nat {:trigger IsDir(v, d)} :: IsDir(v, d) ==> exists k: nat :: Climb(v, d, k) == ROOT_INODE
  }

  ghost predicate Tree(v: Vol) {
    DirsReady(v) && EntriesValid(v) && NamedOnce(v) && LinksCounted(v) && InodesCounted(v) && Rooted(v)
  }

  ghost predicate FsInv(v: Vol) {
    Inv(v) && Tree(v)
  }
}
