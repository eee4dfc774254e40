/** idkfs_mkfs (idkfs_core.c:402-448): the volume every run starts from. */
module Mkfs {
  import opened Machine
  import opened Bitmap
  import opened Volume
  import opened FileIO
  import opened Directory
  import opened Namespace
  import opened TreeSteps
  import opened Operations

  /** `for (i = 0; i < data_start; i++) bitmap_set(...)` from bit i on. */
  function SetUpTo(bits: seq<bv8>, i: nat, n: nat): (r: seq<bv8>)
    requires i <= n <= 8 * |bits|
    ensures |r| == |bits|
    decreases n - i
  {
    if i == n then bits else SetUpTo(SetBit(bits, i), i + 1, n)
  }

  function EmptyBits(): (r: seq<bv8>)
    ensures 8 * |r| == TOTAL_BLOCKS
  {
    seq(TOTAL_BLOCKS / 8, _ => 0)
  }

  function RootInode(): Inode {
    Inode(ROOT_INODE, FT_DIR, 0, 2, 0, AllPointers(NULL_BLOCK), NULL_BLOCK)
  }

  function EmptyInodes(): (r: seq<Inode>)
    ensures |r| == MAX_INODES
  {
    seq(MAX_INODES, _ => ZeroInode())
  }

  function EmptyDisk(): (r: seq<Block>)
    ensures |r| == TOTAL_BLOCKS
  {
    seq(TOTAL_BLOCKS, _ => FillBlock(0))
  }

  function Blank(fill: byte): Vol
    requires fill == 0x00 || fill == 0xFF
  {
    Vol(SetUpTo(EmptyBits(), 0, DATA_START), EmptyDisk(), EmptyInodes()[ROOT_INODE := RootInode()],
        TOTAL_BLOCKS - DATA_START, MAX_INODES - 1, fill)
  }

  function Formatted(fill: byte): Vol
    requires fill == 0x00 || fill == 0xFF
  {
    DirAdd(DirAdd(Blank(fill), ROOT_INODE, DOT, ROOT_INODE, FT_DIR).0, ROOT_INODE, DOTDOT, ROOT_INODE, FT_DIR).0
  }

  lemma {:induction false} SetUpToBits(bits: seq<bv8>, i: nat, n: nat, b: nat)
    requires i <= n <= 8 * |bits| && b < 8 * |bits|
    ensures TestBit(SetUpTo(bits, i, n), b) <==> i <= b < n || TestBit(bits, b)
    decreases n - i
  {
    hide TestBit;
    if i < n {
      SetBitOnly(bits, i, b);
      SetUpToBits(SetBit(bits, i), i + 1, n, b);
    }
  }

  ghost function Range(lo: nat, hi: nat): (r: set<nat>)
    ensures forall b: nat :: b in r <==> lo <= b < hi
    ensures lo <= hi ==> |r| == hi - lo
    decreases hi - lo
  {
    if lo >= hi then {} else {lo} + Range(lo + 1, hi)
  }

  lemma BlankBits(fill: byte)
    requires fill == 0x00 || fill == 0xFF
    ensures forall b: nat :: b < TOTAL_BLOCKS ==> (TestBit(Blank(fill).bits, b) <==> b < DATA_START)
    ensures |FreeSet(Blank(fill).bits)| == TOTAL_BLOCKS - DATA_START
  {
    var bits := Blank(fill).bits;
    forall b: nat | b < TOTAL_BLOCKS
      ensures TestBit(bits, b) <==> b < DATA_START
    {
      SetUpToBits(EmptyBits(), 0, DATA_START, b);
    }
    hide TestBit;
    assert FreeSet(bits) == Range(DATA_START, TOTAL_BLOCKS);
  }

  lemma BlankInv(fill: byte)
    requires fill == 0x00 || fill == 0xFF
    ensures Inv(Blank(fill)) && FreshDir(Blank(fill), ROOT_INODE) && Leaked(Blank(fill)) == {}
    ensures forall l: uint32 :: l < DIR_BLOCKS ==> GetBlock(Blank(fill), ROOT_INODE, l) == NULL_BLOCK
    ensures forall i: nat :: Allocated(Blank(fill), i) <==> i == ROOT_INODE
  {
    var v := Blank(fill);
    BlankBits(fill);
    hide FreeSet, SetUpTo;
    assert forall i: nat :: Allocated(v, i) <==> i == ROOT_INODE;
    forall s
      ensures Val(v, s) == NULL_BLOCK
    {
      match s case Direct(_, _) => case Indirect(_) => case Entry(_, _) =>
    }
    assert forall s :: !Live(v, s);
    hide TestBit;
    assert NoAlias(v) && InData(v) && MetadataTaken(v) && Conserved(v) && ZeroFillShape(v);
    hide Sound, Val;
    forall i: nat | Allocated(v, i)
      ensures v.inodes[i].blockCount == |Mapped(v, i)|
    {
      assert Mapped(v, i) == {};
    }
    assert Leaked(v) == {};
  }

  lemma RootOnlyTree(v: Vol)
    requires forall i: nat :: Allocated(v, i) <==> i == ROOT_INODE
    requires forall i: nat :: 1 <= i < MAX_INODES ==> v.inodes[i] == ZeroInode()
    requires DirReady(v, ROOT_INODE) && LoadDir(v, ROOT_INODE) == DotDir(ROOT_INODE, ROOT_INODE)
    requires v.inodes[ROOT_INODE].linkCount == 2 && v.freeInodes == MAX_INODES - 1
    ensures Tree(v)
  {
    hide LoadDir, ZeroInode;
    DotDirNamed(ROOT_INODE, ROOT_INODE);
    FreshDots(v, ROOT_INODE, ROOT_INODE);
    NewEntryInode(DOTDOT, ROOT_INODE, FT_DIR);
    hide DotDir, NewEntry, DotEntries, DirReady;
    assert forall d: nat, k: nat, i: nat :: !Names(v, d, k, i) by {
      hide Named;
    }
    assert IsDir(v, ROOT_INODE);
    assert Climb(v, ROOT_INODE, 0) == ROOT_INODE;
    RootOnlyCounts(v);
    hide Names, Named, Allocated, SubdirCount, FreeInodeSet;
  }

  lemma RootOnlyCounts(v: Vol)
    requires forall i: nat :: Allocated(v, i) <==> i == ROOT_INODE
    requires forall i: nat :: 1 <= i < MAX_INODES ==> v.inodes[i] == ZeroInode()
    requires Named(LoadDir(v, ROOT_INODE)) == [] && v.inodes[ROOT_INODE].ftype == FT_DIR
    requires v.inodes[ROOT_INODE].linkCount == 2 && v.freeInodes == MAX_INODES - 1
    ensures LinksCounted(v) && InodesCounted(v)
  {
    hide LoadDir, Named, ZeroInode;
    assert FreeInodeSet(v) == Range(1, MAX_INODES);
    EmptySubdirs();
    hide Range, SubdirCount;
  }

  lemma FormattedRoot(fill: byte)
    requires fill == 0x00 || fill == 0xFF
    ensures var v := Formatted(fill);
            && Inv(v) && DirReady(v, ROOT_INODE) && LoadDir(v, ROOT_INODE) == DotDir(ROOT_INODE, ROOT_INODE)
            && Grows(Blank(fill), v, ROOT_INODE) && v.fill == fill && Leaked(v) == {}
            && |FreeSet(v.bits)| == TOTAL_BLOCKS - DATA_START - DIR_BLOCKS
  {
    var v := Blank(fill);
    BlankBits(fill);
    BlankInv(fill);
    assert v.fill == fill;
    hide LoadDir, Inv, DirReady, DirAdd, FreeSet, Blank;
    var e := NewEntry(DOT, ROOT_INODE, FT_DIR);
    var a := DirAdd(v, ROOT_INODE, DOT, ROOT_INODE, FT_DIR).0;
    MissingAll(v, ROOT_INODE, 0, DIR_BLOCKS);
    DirAddNew(v, ROOT_INODE, DOT, ROOT_INODE, FT_DIR);
    StoreNewDir(v, ROOT_INODE, Append(EmptyDir(), e));
    hide StoreDir, NewEntry, Missing, EmptyDir;
    AppendToEmpty(e);
    DirAddReady(a, ROOT_INODE, DOTDOT, ROOT_INODE, FT_DIR);
    SameValsMapped(a, DirAdd(a, ROOT_INODE, DOTDOT, ROOT_INODE, FT_DIR).0, ROOT_INODE);
    SameValsGrows(v, a, DirAdd(a, ROOT_INODE, DOTDOT, ROOT_INODE, FT_DIR).0, ROOT_INODE);
  }

  /** A fresh volume satisfies the whole invariant, with nine blocks used by the root. */
  lemma FormattedInv(fill: byte)
    requires fill == 0x00 || fill == 0xFF
    ensures FsInv(Formatted(fill)) && Formatted(fill).fill == fill && Leaked(Formatted(fill)) == {}
    ensures Formatted(fill).freeBlocks == TOTAL_BLOCKS - DATA_START - DIR_BLOCKS
  {
    hide Formatted, Blank, LoadDir, Inv, DirReady, Live, ZeroInode, FreeSet, Leaked;
    FormattedRoot(fill);
    BlankInv(fill);
    BlankInodes(fill);
    ConservedInv(Formatted(fill));
    forall i: nat
      ensures Allocated(Formatted(fill), i) <==> i == ROOT_INODE
    {
      assert Allocated(Blank(fill), i) <==> i == ROOT_INODE;
    }
    RootOnlyTree(Formatted(fill));
  }

  lemma BlankInodes(fill: byte)
    requires fill == 0x00 || fill == 0xFF
    ensures forall i: nat :: 1 <= i < MAX_INODES ==> Blank(fill).inodes[i] == ZeroInode()
    ensures Blank(fill).inodes[ROOT_INODE].linkCount == 2 && Blank(fill).freeInodes == MAX_INODES - 1
  {
    hide SetUpTo;
  }

  lemma ConservedInv(v: Vol)
    requires Inv(v)
    ensures v.freeBlocks == |FreeSet(v.bits)|
  {
  }
}
