/** The state-changing FUSE calls by path, and what holds after any run of them. */
module Runs {
  import opened Machine
  import opened Bitmap
  import opened Volume
  import opened Ownership
  import opened FileIO
  import opened Release
  import opened Directory
  import opened Namespace
  import opened TreeSteps
  import opened Operations
  import opened FileWrites
  import opened ZeroFill
  import opened Paths
  import opened PathFrames
  import opened Mkfs

  const ENOSPC: int := -28
  const EBADF: int := -9

  function FuseCreate(v: Vol, path: CString): (Vol, int) {
    var p := ResolveParent(v, path);
    if p.NoParent? then (v, p.error)
    else
      var (w, i) := Create(v, p.ino, p.name);
      (w, if i < 0 then ENOSPC else i)
  }

  function FuseMkdir(v: Vol, path: CString): (Vol, int) {
    var p := ResolveParent(v, path);
    if p.NoParent? then (v, p.error)
    else
      var (w, i) := Mkdir(v, p.ino, p.name);
      (w, if i < 0 then ENOSPC else 0)
  }

  function FuseUnlink(v: Vol, path: CString): (Vol, int) {
    var p := ResolveParent(v, path);
    if p.NoParent? then (v, p.error)
    else
      var i := ResolvePath(v, path);
      if i < 0 then (v, i) else Unlink(v, p.ino, p.name, i)
  }

  function FuseTruncate(v: Vol, path: CString, size: uint64): (Vol, int) {
    var i := ResolvePath(v, path);
    if i < 0 then (v, i) else (Truncate(v, i, size), 0)
  }

  function FuseWrite(v: Vol, fh: nat, data: seq<byte>, offset: uint64): (Vol, int)
    requires offset + |data| < TWO_64
  {
    if fh >= MAX_INODES then (v, EBADF) else WriteFile(v, fh, data, offset)
  }

  datatype Call =
    | CreateCall(path: CString)
    | MkdirCall(path: CString)
    | UnlinkCall(path: CString)
    | TruncateCall(path: CString, size: uint64)
    | WriteCall(fh: nat, data: seq<byte>, offset: uint64)

  function Step(v: Vol, c: Call): Vol {
    match c
    case CreateCall(path) => FuseCreate(v, path).0
    case MkdirCall(path) => FuseMkdir(v, path).0
    case UnlinkCall(path) => FuseUnlink(v, path).0
    case TruncateCall(path, size) => FuseTruncate(v, path, size).0
    case WriteCall(fh, data, offset) => if offset + |data| < TWO_64 then FuseWrite(v, fh, data, offset).0 else v
  }

  /** Of what the kernel side of FUSE checks before it passes a call on, what the calls rely
      on: a parent is a directory, a handle is of a file still there. */
  ghost predicate KernelChecks(v: Vol, c: Call) {
    match c
    case CreateCall(path) => ResolveParent(v, path).Parent? ==> IsDir(v, ResolveParent(v, path).ino)
    case MkdirCall(path) => ResolveParent(v, path).Parent? ==> IsDir(v, ResolveParent(v, path).ino)
    case UnlinkCall(path) => true
    case TruncateCall(path, size) => true
    case WriteCall(fh, data, offset) => fh < MAX_INODES ==> Allocated(v, fh) && !IsDir(v, fh)
  }

  /** What these functions leave unchecked: the room for a directory, that an unlinked file has
      no zero-filled pointer block, that a directory keeps its size. The last the kernel
      checks instead, so only a direct caller can resize a directory. */
  ghost predicate Sustains(v: Vol, c: Call) {
    match c
    case CreateCall(path) => true
    case MkdirCall(path) => ResolveParent(v, path).Parent? ==>
      FreeInodeSet(v) == {} || MkdirRoom(v, ResolveParent(v, path).ino)
    case UnlinkCall(path) => ResolveParent(v, path).Parent? && ResolvePath(v, path) >= 0 ==>
      var i := ResolvePath(v, path);
      v.fill != 0 || v.inodes[i].ftype == FT_DIR || v.inodes[i].indirect1 == NULL_BLOCK
    case TruncateCall(path, size) => ResolvePath(v, path) >= 0 ==> !IsDir(v, ResolvePath(v, path)) || size == DIR_SIZE
    case WriteCall(fh, data, offset) => true
  }

  ghost predicate Guard(v: Vol, c: Call) {
    KernelChecks(v, c) && Sustains(v, c)
  }

  function Run(v: Vol, cs: seq<Call>): Vol
    decreases |cs|
  {
    if cs == [] then v else Run(Step(v, cs[0]), cs[1..])
  }

  ghost predicate Guarded(v: Vol, cs: seq<Call>)
    decreases |cs|
  {
    cs == [] || (Guard(v, cs[0]) && Guarded(Step(v, cs[0]), cs[1..]))
  }

  // ----- Each call -----

  lemma {:induction false} WalkAllocated(v: Vol, cur: nat, toks: seq<CString>)
    requires Tree(v) && Allocated(v, cur) && cur < MAX_INODES && Walk(v, cur, toks) >= 0
    ensures Allocated(v, Walk(v, cur, toks))
    decreases |toks|
  {
    hide DirLookup, Tree;
    if toks != [] {
      LookupAllocated(v, cur, toks[0]);
      WalkAllocated(v, DirLookup(v, cur, toks[0]), toks[1..]);
    }
  }

  lemma ResolvedAllocated(v: Vol, path: CString)
    requires Tree(v) && ResolvePath(v, path) >= 0
    ensures Allocated(v, ResolvePath(v, path))
  {
    TreeRoot(v);
    hide Tree, Walk;
    if path != [SLASH] {
      WalkAllocated(v, ROOT_INODE, Tokens(Copied(path)));
    }
  }

  lemma CreateStep(v: Vol, path: CString)
    requires FsInv(v) && Guard(v, CreateCall(path))
    ensures FsInv(FuseCreate(v, path).0)
  {
    hide Create, ResolveParent, Inv, Tree;
    var p := ResolveParent(v, path);
    if p.Parent? {
      CreateKeeps(v, p.ino, p.name);
    }
  }

  lemma MkdirStep(v: Vol, path: CString)
    requires FsInv(v) && Guard(v, MkdirCall(path))
    ensures FsInv(FuseMkdir(v, path).0)
  {
    hide Mkdir, ResolveParent, Inv, Tree, MkdirRoom;
    var p := ResolveParent(v, path);
    if p.Parent? {
      MkdirKeepsIff(v, p.ino, p.name);
    }
  }

  /** The three ways an unlink can go once both resolutions succeed. */
  lemma UnlinkStep(v: Vol, path: CString)
    requires FsInv(v) && Guard(v, UnlinkCall(path))
    ensures FsInv(FuseUnlink(v, path).0)
  {
    hide Unlink, ResolveParent, ResolvePath, Inv, Tree, DirLookup, Unlinked;
    var p := ResolveParent(v, path);
    var i := ResolvePath(v, path);
    if p.Parent? && i >= 0 {
      ResolvedAllocated(v, path);
      if v.inodes[i].ftype == FT_DIR {
        UnlinkDir(v, p.ino, p.name, i);
      } else {
        RootPath(v, path);
        ParentThenLookup(v, path);
        if p.name == [] {
          UnlinkMissing(v, p.ino, p.name, i);
        } else {
          LookupDir(v, p.ino, p.name, i);
          UnlinkKeeps(v, p.ino, p.name, i);
          UnlinkedInv(v, Unlink(v, p.ino, p.name, i).0, p.ino, p.name, i);
        }
      }
    }
  }

  lemma UnlinkedInv(v: Vol, z: Vol, p: nat, name: CString, i: nat)
    requires i < MAX_INODES && p < MAX_INODES && LoadDir(v, p).count <= MAX_DIRENTS
    requires Unlinked(v, z, p, FindEntry(LoadDir(v, p), name, 0), i)
    ensures FsInv(z)
  {
  }

  /** What unlink of a path to a file comes to: with a last name, entry and inode go; without
      one (a trailing slash) the file is its own parent, loses its blocks, and stays. */
  lemma UnlinkForms(v: Vol, path: CString)
    requires FsInv(v) && ResolveParent(v, path).Parent? && ResolvePath(v, path) >= 0
    requires v.inodes[ResolvePath(v, path)].ftype != FT_DIR
    ensures var p, i := ResolveParent(v, path), ResolvePath(v, path);
            && Allocated(v, i)
            && if p.name == [] then
                 p.ino == i && FuseUnlink(v, path) == (ReleaseBlocks(v, i), ENOTDIR) && Cleared(v, ReleaseBlocks(v, i), i)
               else
                 && IsDir(v, p.ino) && LoadDir(v, p.ino).count <= MAX_DIRENTS && DirLookup(v, p.ino, p.name) == i
                 && FuseUnlink(v, path).1 == 0 && Tree(FuseUnlink(v, path).0)
                 && Removed(v, FuseUnlink(v, path).0, p.ino, FindEntry(LoadDir(v, p.ino), p.name, 0), i)
  {
    hide Unlink, ResolveParent, ResolvePath, Inv, Tree, DirLookup, Unlinked, LoadDir, FindEntry, ReleaseBlocks, Cleared, Removed;
    var p, i := ResolveParent(v, path), ResolvePath(v, path);
    ResolvedAllocated(v, path);
    RootPath(v, path);
    ParentThenLookup(v, path);
    if p.name == [] {
      UnlinkMissing(v, p.ino, p.name, i);
    } else {
      LookupDir(v, p.ino, p.name, i);
      UnlinkKeeps(v, p.ino, p.name, i);
    }
  }

  lemma UnlinkDir(v: Vol, p: nat, name: CString, i: nat)
    requires p < MAX_INODES && i < MAX_INODES && v.inodes[i].ftype == FT_DIR
    ensures Unlink(v, p, name, i) == (v, EISDIR)
  {
  }

  lemma RootPath(v: Vol, path: CString)
    requires Tree(v) && ResolvePath(v, path) >= 0 && v.inodes[ResolvePath(v, path)].ftype != FT_DIR
    ensures path != [SLASH]
  {
    TreeRoot(v);
    hide Tree, Walk;
  }

  lemma LookupDir(v: Vol, p: nat, name: CString, i: nat)
    requires FsInv(v) && p < MAX_INODES && v.inodes[p].ftype == FT_DIR && DirLookup(v, p, name) == i && i < MAX_INODES
    ensures IsDir(v, p) && LoadDir(v, p).count <= MAX_DIRENTS
  {
    hide LoadDir, DirLookup, Inv;
    UnallocatedType(v, p);
    DirOfTree(v, p);
  }

  lemma UnallocatedType(v: Vol, p: nat)
    requires Tree(v) && p < MAX_INODES && v.inodes[p].ftype == FT_DIR
    ensures IsDir(v, p)
  {
    hide LoadDir, DirsReady, EntriesValid, NamedOnce, LinksCounted;
  }

  // ----- Unlink that fails -----

  /** The inode has a size, a block count or a pointer to lose. */
  predicate HoldsSomething(n: Inode) {
    n.size != 0 || n.blockCount != 0 || n.direct != AllPointers(NULL_BLOCK) || n.indirect1 != NULL_BLOCK
  }

  /** A path with a trailing slash, to a file that holds something. */
  predicate TrailingSlashToFile(v: Vol, path: CString) {
    && ResolveParent(v, path).Parent? && ResolveParent(v, path).name == []
    && ResolvePath(v, path) >= 0
    && v.inodes[ResolvePath(v, path)].ftype != FT_DIR && HoldsSomething(v.inodes[ResolvePath(v, path)])
  }

  lemma {:induction false} NothingToDrop(v: Vol, i: nat, k: nat)
    requires i < MAX_INODES && k <= DIRECT_BLOCKS && v.inodes[i].direct == AllPointers(NULL_BLOCK)
    ensures DropDirect(v, i, k) == v
    decreases DIRECT_BLOCKS - k
  {
    if k < DIRECT_BLOCKS {
      NothingToDrop(v, i, k + 1);
    }
  }

  lemma ReleasedSameIff(v: Vol, i: nat)
    requires i < MAX_INODES && Cleared(v, ReleaseBlocks(v, i), i)
    ensures ReleaseBlocks(v, i) == v <==> !HoldsSomething(v.inodes[i])
  {
    if !HoldsSomething(v.inodes[i]) {
      NothingToDrop(v, i, 0);
      assert DropIndirect(v, i) == v;
      assert v.inodes[i := v.inodes[i]] == v.inodes;
    } else {
      assert ReleaseBlocks(v, i).inodes[i] != v.inodes[i];
    }
  }

  /** An unlink that returns an error has changed nothing if and only if its path was not one
      with a trailing slash to a file that held something; that one it has emptied. The
      kernel side of FUSE splits off the last name itself, so such a path reaches the
      function only from a caller of its own. */
  lemma UnlinkErrorIff(v: Vol, path: CString)
    requires FsInv(v) && FuseUnlink(v, path).1 < 0
    ensures FuseUnlink(v, path).0 == v <==> !TrailingSlashToFile(v, path)
    ensures TrailingSlashToFile(v, path) ==>
              Cleared(v, FuseUnlink(v, path).0, ResolvePath(v, path)) && ResolvePath(FuseUnlink(v, path).0, path) == ResolvePath(v, path)
  {
    hide Unlink, ResolveParent, ResolvePath, Inv, Tree, ReleaseBlocks, Cleared, HoldsSomething;
    var p, i := ResolveParent(v, path), ResolvePath(v, path);
    if p.Parent? && i >= 0 {
      if v.inodes[i].ftype == FT_DIR {
        UnlinkDir(v, p.ino, p.name, i);
      } else {
        UnlinkForms(v, path);
        ReleasedSameIff(v, i);
        SamePaths(v, ReleaseBlocks(v, i), i, path);
      }
    }
  }

  /** Emptying a file leaves every path as it was. */
  lemma SamePaths(v: Vol, w: Vol, i: nat, path: CString)
    requires FsInv(v) && Allocated(v, i) && Cleared(v, w, i) && v.inodes[i].ftype != FT_DIR
    ensures ResolvePath(w, path) == ResolvePath(v, path)
  {
    hide Walk, Inv, Tree;
    TreeRoot(v);
    SameWalk(v, w, i, ROOT_INODE, Tokens(Copied(path)));
  }

  lemma {:induction false} SameWalk(v: Vol, w: Vol, i: nat, cur: nat, toks: seq<CString>)
    requires Tree(v) && Allocated(v, i) && Cleared(v, w, i) && v.inodes[i].ftype != FT_DIR && Allocated(v, cur)
    ensures Walk(w, cur, toks) == Walk(v, cur, toks)
    decreases |toks|
  {
    assert w.inodes[cur].ftype == v.inodes[cur].ftype && (cur != i ==> w.inodes[cur] == v.inodes[cur]);
    hide Tree, Cleared, DirLookup;
    if toks != [] && v.inodes[cur].ftype == FT_DIR {
      SameLookup(v, w, i, cur, toks[0]);
      LookupAllocated(v, cur, toks[0]);
      if DirLookup(v, cur, toks[0]) >= 0 {
        SameWalk(v, w, i, DirLookup(v, cur, toks[0]), toks[1..]);
      }
    }
  }

  lemma SameLookup(v: Vol, w: Vol, i: nat, d: nat, name: CString)
    requires Tree(v) && i < MAX_INODES && Cleared(v, w, i) && v.inodes[i].ftype != FT_DIR && IsDir(v, d)
    ensures DirLookup(w, d, name) == DirLookup(v, d, name)
  {
    hide LoadDir, Tree, Cleared, DirReady, FindEntry;
    ClearedOther(v, w, i, d);
    ClearedKeepsDirs(v, w, i);
    KeptSame(v, w, d);
    hide DirsKept;
  }

  lemma ClearedOther(v: Vol, w: Vol, i: nat, d: nat)
    requires i < MAX_INODES && Cleared(v, w, i) && d < MAX_INODES && d != i
    ensures w.inodes[d] == v.inodes[d]
  {
  }

  lemma KeptSame(v: Vol, w: Vol, d: nat)
    requires DirsKept(v, w) && IsDir(v, d)
    ensures LoadDir(w, d) == LoadDir(v, d)
  {
    hide LoadDir, DirReady;
  }

  lemma TruncateStep(v: Vol, path: CString, size: uint64)
    requires FsInv(v) && Guard(v, TruncateCall(path, size))
    ensures FsInv(FuseTruncate(v, path, size).0)
  {
    hide Truncate, ResolvePath, Inv, Tree;
    if ResolvePath(v, path) >= 0 {
      ResolvedAllocated(v, path);
      TruncateKeepsIff(v, ResolvePath(v, path), size);
    }
  }

  /** Every guarded call keeps the whole invariant, whatever it returns. */
  lemma StepKeeps(v: Vol, c: Call)
    requires FsInv(v) && Guard(v, c)
    ensures FsInv(Step(v, c))
  {
    hide FsInv, FuseCreate, FuseMkdir, FuseUnlink, FuseTruncate, WriteFile, ResolveParent, ResolvePath;
    match c
    case CreateCall(path) => CreateStep(v, path);
    case MkdirCall(path) => MkdirStep(v, path);
    case UnlinkCall(path) => UnlinkStep(v, path);
    case TruncateCall(path, size) => TruncateStep(v, path, size);
    case WriteCall(fh, data, offset) =>
      if fh < MAX_INODES && offset + |data| < TWO_64 {
        WriteKeeps(v, fh, data, offset);
      }
  }

  lemma {:induction false} RunKeeps(v: Vol, cs: seq<Call>)
    requires FsInv(v) && Guarded(v, cs)
    ensures FsInv(Run(v, cs))
    decreases |cs|
  {
    hide FsInv, Step, Guard;
    if cs != [] {
      StepKeeps(v, cs[0]);
      RunKeeps(Step(v, cs[0]), cs[1..]);
    }
  }

  /** Of the calls that pass those checks, exactly the sustained ones keep the invariant. */
  lemma StepKeepsIff(v: Vol, c: Call)
    requires FsInv(v) && KernelChecks(v, c)
    ensures FsInv(Step(v, c)) <==> Sustains(v, c)
  {
    hide FuseCreate, FuseMkdir, FuseUnlink, FuseTruncate, WriteFile, ResolveParent, ResolvePath, Inv, Tree, MkdirRoom;
    if Sustains(v, c) {
      StepKeeps(v, c);
    } else {
      match c
      case CreateCall(path) =>
      case MkdirCall(path) => MkdirBreaks(v, path);
      case UnlinkCall(path) => UnlinkBreaks(v, path);
      case TruncateCall(path, size) => TruncateBreaks(v, path, size);
      case WriteCall(fh, data, offset) =>
    }
  }

  lemma MkdirBreaks(v: Vol, path: CString)
    requires FsInv(v) && KernelChecks(v, MkdirCall(path)) && !Sustains(v, MkdirCall(path))
    ensures !FsInv(FuseMkdir(v, path).0)
  {
    hide Mkdir, ResolveParent, Inv, Tree, MkdirRoom;
    MkdirKeepsIff(v, ResolveParent(v, path).ino, ResolveParent(v, path).name);
  }

  lemma UnlinkBreaks(v: Vol, path: CString)
    requires FsInv(v) && !Sustains(v, UnlinkCall(path))
    ensures !FsInv(FuseUnlink(v, path).0)
  {
    hide Unlink, ResolveParent, ResolvePath, Inv, Tree, FreeSet;
    var p, i := ResolveParent(v, path), ResolvePath(v, path);
    ResolvedAllocated(v, path);
    UnlinkOvercounts(v, p.ino, p.name, i);
    OvercountedNotInv(Unlink(v, p.ino, p.name, i).0);
  }

  lemma OvercountedNotInv(v: Vol)
    requires Overcounted(v)
    ensures !FsInv(v)
  {
  }

  lemma TruncateBreaks(v: Vol, path: CString, size: uint64)
    requires FsInv(v) && !Sustains(v, TruncateCall(path, size))
    ensures !FsInv(FuseTruncate(v, path, size).0)
  {
    hide Truncate, ResolvePath, Inv, Tree;
    TruncateKeepsIff(v, ResolvePath(v, path), size);
  }

  /** A run of calls that each pass those checks. */
  ghost predicate Checked(v: Vol, cs: seq<Call>)
    decreases |cs|
  {
    cs == [] || (KernelChecks(v, cs[0]) && Checked(Step(v, cs[0]), cs[1..]))
  }

  ghost predicate SoundThroughout(v: Vol, cs: seq<Call>)
    decreases |cs|
  {
    FsInv(v) && (cs == [] || SoundThroughout(Step(v, cs[0]), cs[1..]))
  }

  /** From a sound volume every state along such a run is sound if and only if every call of
      it is sustained. */
  lemma {:induction false} RunKeepsIff(v: Vol, cs: seq<Call>)
    requires FsInv(v) && Checked(v, cs)
    ensures SoundThroughout(v, cs) <==> Guarded(v, cs)
    decreases |cs|
  {
    hide FsInv, Step, KernelChecks, Sustains;
    if cs != [] {
      StepKeepsIff(v, cs[0]);
      if FsInv(Step(v, cs[0])) {
        RunKeepsIff(Step(v, cs[0]), cs[1..]);
      }
    }
  }

  /** From mkfs on, after every run of guarded calls: no block is owned twice, every owned
      block is a data block marked taken, free_blocks is the number of clear bits, every
      block_count is the number of mapped blocks, and the namespace is a tree. */
  lemma ReachableInv(fill: byte, cs: seq<Call>)
    requires (fill == 0x00 || fill == 0xFF) && Guarded(Formatted(fill), cs)
    ensures FsInv(Run(Formatted(fill), cs))
  {
    FormattedInv(fill);
    hide FsInv, Formatted;
    RunKeeps(Formatted(fill), cs);
  }

  // ----- Blocks lost over a run -----

  /** The call is a write that fails. */
  predicate FailedWrite(v: Vol, c: Call) {
    c.WriteCall? && c.fh < MAX_INODES && c.offset + |c.data| < TWO_64 && FuseWrite(v, c.fh, c.data, c.offset).1 < 0
  }

  function FailedWrites(v: Vol, cs: seq<Call>): nat
    decreases |cs|
  {
    if cs == [] then 0 else (if FailedWrite(v, cs[0]) then 1 else 0) + FailedWrites(Step(v, cs[0]), cs[1..])
  }

  /** Only a write that fails loses a block, and at most one; no call gives a lost one back. */
  lemma StepLeaks(v: Vol, c: Call)
    requires FsInv(v) && Guard(v, c)
    ensures Leaked(v) <= Leaked(Step(v, c)) && |Leaked(Step(v, c))| <= |Leaked(v)| + (if FailedWrite(v, c) then 1 else 0)
  {
    hide Create, Mkdir, Unlink, Truncate, WriteFile, ResolveParent, ResolvePath, Inv, Tree, Leaked, MkdirRoom, SameVals, Added;
    match c
    case CreateCall(path) =>
      var p := ResolveParent(v, path);
      if p.Parent? {
        CreateKeeps(v, p.ino, p.name);
        if Create(v, p.ino, p.name).1 >= 0 {
          LeakedSame(v, Create(v, p.ino, p.name).0);
        }
      }
    case MkdirCall(path) =>
      var p := ResolveParent(v, path);
      if p.Parent? {
        MkdirKeepsIff(v, p.ino, p.name);
      }
    case UnlinkCall(path) => UnlinkLeaks(v, path);
    case TruncateCall(path, size) =>
      var i := ResolvePath(v, path);
      if i >= 0 {
        ResolvedAllocated(v, path);
        TruncateInv(v, i, size);
        TruncateRecord(v, i, size);
        LeakedSame(v, Truncate(v, i, size));
      }
    case WriteCall(fh, data, offset) =>
      if fh < MAX_INODES && offset + |data| < TWO_64 {
        WriteFileLeaks(v, fh, data, offset);
      }
  }

  lemma TruncateRecord(v: Vol, i: nat, size: uint64)
    requires i < MAX_INODES
    ensures Truncate(v, i, size).bits == v.bits && Truncate(v, i, size).fill == v.fill
  {
  }

  lemma UnlinkLeaks(v: Vol, path: CString)
    requires FsInv(v) && Guard(v, UnlinkCall(path))
    ensures Leaked(FuseUnlink(v, path).0) == Leaked(v)
  {
    hide Unlink, ResolveParent, ResolvePath, Inv, Tree, Leaked, ReleaseBlocks, LoadDir, FindEntry, DirLookup, Removed, Cleared;
    var p, i := ResolveParent(v, path), ResolvePath(v, path);
    if p.Parent? && i >= 0 {
      ResolvedAllocated(v, path);
      if v.inodes[i].ftype == FT_DIR {
        UnlinkDir(v, p.ino, p.name, i);
      } else {
        UnlinkForms(v, path);
        if p.name == [] {
          ReleaseFrees(v, i);
        } else {
          UnlinkKeeps(v, p.ino, p.name, i);
        }
      }
    }
  }

  /** Over any run the blocks lost are at most the writes that failed: while none fails, every
      taken data block has an owner. */
  lemma {:induction false} RunLeaks(v: Vol, cs: seq<Call>)
    requires FsInv(v) && Guarded(v, cs)
    ensures Leaked(v) <= Leaked(Run(v, cs)) && |Leaked(Run(v, cs))| <= |Leaked(v)| + FailedWrites(v, cs)
    decreases |cs|
  {
    hide FsInv, Step, Guard, Leaked, FailedWrite;
    if cs != [] {
      StepKeeps(v, cs[0]);
      StepLeaks(v, cs[0]);
      RunLeaks(Step(v, cs[0]), cs[1..]);
    }
  }

  lemma ReachableLeaks(fill: byte, cs: seq<Call>)
    requires (fill == 0x00 || fill == 0xFF) && Guarded(Formatted(fill), cs)
    ensures |Leaked(Run(Formatted(fill), cs))| <= FailedWrites(Formatted(fill), cs)
    ensures FailedWrites(Formatted(fill), cs) == 0 ==> Leaked(Run(Formatted(fill), cs)) == {}
  {
    FormattedInv(fill);
    hide FsInv, Formatted, Leaked;
    RunLeaks(Formatted(fill), cs);
  }

  // ----- What each call does to every path -----

  predicate PathUses(v: Vol, q: CString, p: nat, name: CString) {
    q != [SLASH] && Uses(v, ROOT_INODE, Tokens(Copied(q)), p, name)
  }

  lemma AddedPath(v: Vol, w: Vol, p: nat, i: nat, t: byte, name: CString, q: CString)
    requires Tree(v) && Tree(w) && Added(v, w, p, i, t, name)
    requires ResolvePath(v, q) >= 0 || !PathUses(v, q, p, name)
    ensures ResolvePath(w, q) == ResolvePath(v, q)
  {
    TreeRoot(v);
    hide Tree, Walk, Added, Uses;
    if q != [SLASH] {
      AddedWalk(v, w, p, i, t, name, ROOT_INODE, Tokens(Copied(q)));
    }
  }

  lemma AddedOwnPath(v: Vol, w: Vol, p: nat, i: nat, t: byte, path: CString)
    requires Tree(v) && Tree(w) && IsDir(v, p) && ResolveParent(v, path).Parent? && ResolveParent(v, path).ino == p
    requires Added(v, w, p, i, t, ResolveParent(v, path).name) && ResolvePath(v, path) < 0
    ensures ResolvePath(w, path) == i
  {
    hide Tree, Added, DirLookup, LoadDir;
    var name := ResolveParent(v, path).name;
    ParentThenLookup(v, path);
    DirOfTree(v, p);
    LookupAllocated(v, p, name);
    AddedRange(v, w, p, i, t, name);
    AddedLookup(v, w, p, i, t, name, p, name);
    ParentKept(v, w, p, i, t, path);
    ParentThenLookup(w, path);
  }

  lemma ParentKept(v: Vol, w: Vol, p: nat, i: nat, t: byte, path: CString)
    requires Tree(v) && Tree(w) && ResolveParent(v, path).Parent? && ResolveParent(v, path).ino == p
    requires Added(v, w, p, i, t, ResolveParent(v, path).name)
    ensures ResolveParent(w, path) == ResolveParent(v, path)
  {
    hide Tree, Added, Walk, ResolvePath, PathUses;
    var tmp := Copied(path);
    if LastSlash(tmp) > 0 {
      AddedPath(v, w, p, i, t, ResolveParent(v, path).name, tmp[..LastSlash(tmp)]);
    }
  }

  /** After a create, every path that resolved resolves to the same inode, every path that
      does not ask for the new name is unchanged, errors included, and the path itself, if
      it failed before, resolves to the new inode. */
  lemma CreatePaths(v: Vol, path: CString, q: CString)
    requires FsInv(v) && Guard(v, CreateCall(path)) && FuseCreate(v, path).1 >= 0
    ensures var (w, i) := FuseCreate(v, path);
            && (ResolvePath(v, q) >= 0 || !PathUses(v, q, ResolveParent(v, path).ino, ResolveParent(v, path).name) ==>
                  ResolvePath(w, q) == ResolvePath(v, q))
            && (ResolvePath(v, path) < 0 ==> ResolvePath(w, path) == i)
  {
    hide Create, ResolveParent, ResolvePath, PathUses, Inv, Tree, Added, SameVals;
    var p := ResolveParent(v, path);
    CreateKeeps(v, p.ino, p.name);
    var (w, i) := Create(v, p.ino, p.name);
    if ResolvePath(v, q) >= 0 || !PathUses(v, q, p.ino, p.name) {
      AddedPath(v, w, p.ino, i, FT_FILE, p.name, q);
    }
    if ResolvePath(v, path) < 0 {
      AddedOwnPath(v, w, p.ino, i, FT_FILE, path);
    }
  }

  lemma MkdirPaths(v: Vol, path: CString, q: CString)
    requires FsInv(v) && Guard(v, MkdirCall(path)) && FuseMkdir(v, path).1 >= 0
    ensures var w := FuseMkdir(v, path).0;
            && (ResolvePath(v, q) >= 0 || !PathUses(v, q, ResolveParent(v, path).ino, ResolveParent(v, path).name) ==>
                  ResolvePath(w, q) == ResolvePath(v, q))
            && (ResolvePath(v, path) < 0 ==>
                  ResolvePath(w, path) >= 0 && !Allocated(v, ResolvePath(w, path)) && IsDir(w, ResolvePath(w, path)))
  {
    hide Mkdir, ResolveParent, ResolvePath, PathUses, Inv, Tree, Added, MkdirRoom;
    var p := ResolveParent(v, path);
    MkdirKeepsIff(v, p.ino, p.name);
    var (w, i) := Mkdir(v, p.ino, p.name);
    if ResolvePath(v, q) >= 0 || !PathUses(v, q, p.ino, p.name) {
      AddedPath(v, w, p.ino, i, FT_DIR, p.name, q);
    }
    if ResolvePath(v, path) < 0 {
      AddedOwnPath(v, w, p.ino, i, FT_DIR, path);
      AddedRange(v, w, p.ino, i, FT_DIR, p.name);
      AddedIsDir(v, w, p.ino, i, FT_DIR, p.name, i);
    }
  }

  lemma UnlinkResolution(v: Vol, path: CString)
    requires FsInv(v) && FuseUnlink(v, path).1 == 0
    ensures ResolveParent(v, path).Parent? && ResolvePath(v, path) >= 0
    ensures var p, i := ResolveParent(v, path), ResolvePath(v, path);
            && IsDir(v, p.ino) && LoadDir(v, p.ino).count <= MAX_DIRENTS && DirLookup(v, p.ino, p.name) == i && p.name != []
            && v.inodes[i].ftype != FT_DIR && Tree(FuseUnlink(v, path).0)
            && Removed(v, FuseUnlink(v, path).0, p.ino, FindEntry(LoadDir(v, p.ino), p.name, 0), i)
  {
    hide Unlink, ResolveParent, ResolvePath, Inv, Tree, DirLookup, Removed, LoadDir, FindEntry;
    var p := ResolveParent(v, path);
    var i := ResolvePath(v, path);
    ResolvedAllocated(v, path);
    if v.inodes[i].ftype == FT_DIR {
      UnlinkDir(v, p.ino, p.name, i);
    } else {
      UnlinkForms(v, path);
    }
  }

  lemma RemovedParent(v: Vol, w: Vol, idx: nat, i: nat, path: CString)
    requires Tree(v) && Tree(w) && ResolveParent(v, path).Parent?
    requires var p := ResolveParent(v, path);
             && Removed(v, w, p.ino, idx, i) && 2 <= idx < LoadDir(v, p.ino).count <= MAX_DIRENTS
             && idx == FindEntry(LoadDir(v, p.ino), p.name, 0) && DirLookup(v, p.ino, p.name) == i
    ensures ResolveParent(w, path) == ResolveParent(v, path)
  {
    hide Tree, Removed, Walk, DirLookup, LoadDir, FindEntry, Uses;
    var p := ResolveParent(v, path);
    RemovedRange(v, w, p.ino, idx, i);
    TreeRoot(v);
    var tmp := Copied(path);
    if LastSlash(tmp) > 0 {
      var front := tmp[..LastSlash(tmp)];
      var toks := Tokens(Copied(front));
      if front != [SLASH] {
        if Uses(v, ROOT_INODE, toks, p.ino, p.name) {
          UsesEndsAtFile(v, ROOT_INODE, toks, p.ino, p.name);
        } else {
          RemovedWalk(v, w, p.ino, idx, i, p.name, ROOT_INODE, toks);
        }
      }
    }
  }

  /** After an unlink, every path that does not ask for the removed name is unchanged, errors
      included; the path itself gives ENOENT if and only if its directory held the name
      once. */
  lemma UnlinkPaths(v: Vol, path: CString, q: CString)
    requires FsInv(v) && FuseUnlink(v, path).1 == 0
    ensures var w, p := FuseUnlink(v, path).0, ResolveParent(v, path);
            && p.Parent?
            && (!PathUses(v, q, p.ino, p.name) ==> ResolvePath(w, q) == ResolvePath(v, q))
            && LoadDir(v, p.ino).count <= MAX_DIRENTS
            && var idx := FindEntry(LoadDir(v, p.ino), p.name, 0);
               && idx < LoadDir(v, p.ino).count
               && (ResolvePath(w, path) == ENOENT <==> FindEntry(LoadDir(v, p.ino), p.name, idx + 1) == LoadDir(v, p.ino).count)
  {
    hide FuseUnlink, ResolveParent, Inv, Tree, DirLookup, LoadDir, FindEntry, Removed, Walk, Uses, Live, FreeSet, Leaked;
    UnlinkResolution(v, path);
    var w, p, i := FuseUnlink(v, path).0, ResolveParent(v, path), ResolvePath(v, path);
    var idx := FindEntry(LoadDir(v, p.ino), p.name, 0);
    RemovedRange(v, w, p.ino, idx, i);
    RemovedNameIff(v, w, p.ino, idx, i, p.name);
    RemovedParent(v, w, idx, i, path);
    RootPath(v, path);
    ParentThenLookup(w, path);
    RemovedDirIs(v, w, p.ino, idx, i, p.ino);
    LookupAllocated(w, p.ino, p.name);
    TreeRoot(v);
    if !PathUses(v, q, p.ino, p.name) && q != [SLASH] {
      RemovedWalk(v, w, p.ino, idx, i, p.name, ROOT_INODE, Tokens(Copied(q)));
    }
  }
}
