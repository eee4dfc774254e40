/** Giving a file's blocks back: the block half of fuse_unlink (idkfs_fuse.c:404-429). */
module Release {
  import opened Machine
  import opened Bitmap
  import opened Volume
  import opened Ownership
  import opened FileIO

  /** `bitmap_clear`, `free_blocks++`. */
  function DropBlock(v: Vol, b: uint32): Vol {
    if b < TOTAL_BLOCKS then v.(bits := ClearBit(v.bits, b), freeBlocks := Inc32(v.freeBlocks)) else v
  }

  function DropDirectAt(v: Vol, i: nat, k: nat): Vol
    requires i < MAX_INODES && k < DIRECT_BLOCKS
  {
    var b := v.inodes[i].direct[k];
    if b == NULL_BLOCK then v else SetDirect(DropBlock(v, b), i, k, NULL_BLOCK)
  }

  function DropDirect(v: Vol, i: nat, k: nat): Vol
    requires i < MAX_INODES && k <= DIRECT_BLOCKS
    decreases DIRECT_BLOCKS - k
  {
    if k == DIRECT_BLOCKS then v else DropDirect(DropDirectAt(v, i, k), i, k + 1)
  }

  lemma DropDirectStep(v: Vol, i: nat, k: nat)
    requires i < MAX_INODES && k <= DIRECT_BLOCKS
    ensures DropDirect(v, i, k) == if k == DIRECT_BLOCKS then v else DropDirect(DropDirectAt(v, i, k), i, k + 1)
  {
  }

  /** Every entry that is not NULL_BLOCK is freed: with zero fill, block 0 among them. */
  function DropEntries(v: Vol, ptrs: Block, p: nat): Vol
    requires p <= PTRS_PER_BLOCK
    decreases PTRS_PER_BLOCK - p
  {
    if p == PTRS_PER_BLOCK then v
    else
      var b := PtrAt(ptrs, p);
      DropEntries(if b == NULL_BLOCK then v else DropBlock(v, b), ptrs, p + 1)
  }

  function DropIndirect(v: Vol, i: nat): Vol
    requires i < MAX_INODES
  {
    var ib := v.inodes[i].indirect1;
    if ib >= TOTAL_BLOCKS then v
    else SetIndirect(DropBlock(DropEntries(v, v.disk[ib], 0), ib), i, NULL_BLOCK)
  }

  function ReleaseBlocks(v: Vol, i: nat): Vol
    requires i < MAX_INODES
  {
    var w := DropIndirect(DropDirect(v, i, 0), i);
    WithInode(w, i, w.inodes[i].(size := 0, blockCount := 0))
  }

  // ----- What one freed block does to the count -----

  lemma DropBlockOnce(v: Vol, b: uint32)
    requires b < TOTAL_BLOCKS && v.freeBlocks < TWO_32 - 1
    ensures var w := DropBlock(v, b);
            && FreeSet(w.bits) == FreeSet(v.bits) + {b}
            && w == v.(bits := w.bits, freeBlocks := v.freeBlocks + 1)
            && |FreeSet(w.bits)| == |FreeSet(v.bits)| + if b in FreeSet(v.bits) then 0 else 1
  {
    hide FreeSet, ClearBit, SetBit, TestBit;
    FreeSetOps(v.bits, b);
    if b in FreeSet(v.bits) {
      assert FreeSet(v.bits) + {b} == FreeSet(v.bits);
    }
  }

  lemma FreeSetBound(v: Vol)
    ensures |FreeSet(v.bits)| <= TOTAL_BLOCKS
  {
    CardBelow(FreeSet(v.bits), TOTAL_BLOCKS);
  }

  ghost function NamedFrom(ptrs: Block, p: nat): set<nat>
    requires p <= PTRS_PER_BLOCK
  {
    set q: nat | p <= q < PTRS_PER_BLOCK && PtrAt(ptrs, q) != NULL_BLOCK :: PtrAt(ptrs, q) as nat
  }

  lemma NamedFromStep(ptrs: Block, p: nat)
    requires p < PTRS_PER_BLOCK
    ensures NamedFrom(ptrs, p) == NamedFrom(ptrs, p + 1) + (if PtrAt(ptrs, p) == NULL_BLOCK then {} else {PtrAt(ptrs, p) as nat})
    ensures NamedFrom(ptrs, PTRS_PER_BLOCK) == {}
  {
  }

  ghost predicate EntriesInRange(ptrs: Block) {
    forall q: nat :: q < PTRS_PER_BLOCK && PtrAt(ptrs, q) != NULL_BLOCK ==> PtrAt(ptrs, q) < TOTAL_BLOCKS
  }

  /** The entries loop frees exactly the blocks named, and counts each naming. */
  lemma {:induction false} DropEntriesFrees(v: Vol, ptrs: Block, p: nat)
    requires p <= PTRS_PER_BLOCK && EntriesInRange(ptrs) && v.freeBlocks + (PTRS_PER_BLOCK - p) < TWO_32
    ensures var w := DropEntries(v, ptrs, p);
            && w == v.(bits := w.bits, freeBlocks := w.freeBlocks)
            && FreeSet(w.bits) == FreeSet(v.bits) + NamedFrom(ptrs, p)
            && w.freeBlocks <= v.freeBlocks + (PTRS_PER_BLOCK - p)
            && w.freeBlocks - |FreeSet(w.bits)| >= v.freeBlocks - |FreeSet(v.bits)|
    decreases PTRS_PER_BLOCK - p
  {
    hide PtrAt, DropBlock, FreeSet, NamedFrom;
    NamedFromStep(ptrs, if p < PTRS_PER_BLOCK then p else 0);
    if p < PTRS_PER_BLOCK {
      var b := PtrAt(ptrs, p);
      var w := if b == NULL_BLOCK then v else DropBlock(v, b);
      if b != NULL_BLOCK {
        DropBlockOnce(v, b);
      }
      DropEntriesFrees(w, ptrs, p + 1);
    }
  }

  ghost predicate DistinctTaken(bits: seq<bv8>, ptrs: Block, p: nat)
    requires 8 * |bits| == TOTAL_BLOCKS
  {
    && (forall q: nat {:trigger PtrAt(ptrs, q)} :: p <= q < PTRS_PER_BLOCK && PtrAt(ptrs, q) != NULL_BLOCK ==>
          PtrAt(ptrs, q) < TOTAL_BLOCKS && PtrAt(ptrs, q) !in FreeSet(bits))
    && (forall q: nat, r: nat {:trigger PtrAt(ptrs, q), PtrAt(ptrs, r)} ::
          p <= q < r < PTRS_PER_BLOCK && PtrAt(ptrs, q) != NULL_BLOCK ==> PtrAt(ptrs, q) != PtrAt(ptrs, r))
  }

  /** When the entries are distinct and taken, the count stays exact. */
  lemma {:induction false} DropEntriesExact(v: Vol, ptrs: Block, p: nat)
    requires p <= PTRS_PER_BLOCK && DistinctTaken(v.bits, ptrs, p) && v.freeBlocks + (PTRS_PER_BLOCK - p) < TWO_32
    ensures var w := DropEntries(v, ptrs, p);
            w.freeBlocks - |FreeSet(w.bits)| == v.freeBlocks - |FreeSet(v.bits)|
    decreases PTRS_PER_BLOCK - p
  {
    hide PtrAt, DropBlock, FreeSet;
    if p < PTRS_PER_BLOCK {
      var b := PtrAt(ptrs, p);
      var w := if b == NULL_BLOCK then v else DropBlock(v, b);
      if b != NULL_BLOCK {
        DropBlockOnce(v, b);
      }
      DropEntriesExact(w, ptrs, p + 1);
    }
  }

  /** When an entry names a block already free, the count runs ahead for good. */
  lemma {:induction false} DropEntriesTwice(v: Vol, ptrs: Block, p: nat, q: nat)
    requires p <= q < PTRS_PER_BLOCK && EntriesInRange(ptrs) && v.freeBlocks + (PTRS_PER_BLOCK - p) < TWO_32
    requires PtrAt(ptrs, q) != NULL_BLOCK
    requires PtrAt(ptrs, q) in FreeSet(v.bits) || exists r: nat :: p <= r < q && PtrAt(ptrs, r) == PtrAt(ptrs, q)
    ensures var w := DropEntries(v, ptrs, p);
            w.freeBlocks - |FreeSet(w.bits)| > v.freeBlocks - |FreeSet(v.bits)|
    decreases PTRS_PER_BLOCK - p
  {
    hide PtrAt, DropBlock, FreeSet;
    var b := PtrAt(ptrs, p);
    var w := if b == NULL_BLOCK then v else DropBlock(v, b);
    if b != NULL_BLOCK {
      DropBlockOnce(v, b);
    }
    if p < q {
      DropEntriesTwice(w, ptrs, p + 1, q);
    } else {
      DropEntriesFrees(w, ptrs, p + 1);
    }
  }

  // ----- What a release leaves -----

  /** Slots of inode i died, their blocks and no others became free, nothing else moved. */
  ghost predicate Shrinks(v: Vol, w: Vol, i: nat) {
    && Sound(w) && w.disk == v.disk && w.fill == v.fill && w.freeInodes == v.freeInodes
    && (forall j {:trigger w.inodes[j]} {:trigger v.inodes[j]} :: 0 <= j < MAX_INODES && j != i ==> w.inodes[j] == v.inodes[j])
    && (i < MAX_INODES ==>
          w.inodes[i] == v.inodes[i].(direct := w.inodes[i].direct, indirect1 := w.inodes[i].indirect1))
    && (forall s {:trigger Live(w, s)} :: Live(w, s) ==> Live(v, s) && Val(w, s) == Val(v, s))
    && (forall s {:trigger Live(v, s)} :: Live(v, s) && s.ino != i ==> Live(w, s))
    && (forall b: nat {:trigger b in FreeSet(w.bits)} ::
          b in FreeSet(w.bits) <==> b in FreeSet(v.bits) || (Owned(v, b) && !Owned(w, b)))
  }

  lemma OwnedShrinks(v: Vol, w: Vol, i: nat, b: nat)
    requires Shrinks(v, w, i) && Owned(w, b)
    ensures Owned(v, b)
  {
    var s :| Live(w, s) && Val(w, s) == b;
    assert Live(v, s) && Val(v, s) == b;
  }

  lemma ShrinksTrans(v: Vol, w: Vol, x: Vol, i: nat)
    requires Shrinks(v, w, i) && Shrinks(w, x, i)
    ensures Shrinks(v, x, i)
  {
    forall b: nat
      ensures b in FreeSet(x.bits) <==> b in FreeSet(v.bits) || (Owned(v, b) && !Owned(x, b))
    {
      assert b in FreeSet(w.bits) <==> b in FreeSet(v.bits) || (Owned(v, b) && !Owned(w, b));
      if Owned(x, b) {
        OwnedShrinks(w, x, i, b);
      }
      if Owned(w, b) {
        OwnedShrinks(v, w, i, b);
      }
    }
  }

  lemma ShrinksLeaked(v: Vol, w: Vol, i: nat)
    requires Sound(v) && Shrinks(v, w, i)
    ensures Leaked(w) == Leaked(v)
  {
    forall b: nat | DATA_START <= b < TOTAL_BLOCKS
      ensures b in Leaked(w) <==> b in Leaked(v)
    {
      assert b in FreeSet(w.bits) <==> !TestBit(w.bits, b);
      assert b in FreeSet(v.bits) <==> !TestBit(v.bits, b);
      if Owned(w, b) {
        OwnedShrinks(v, w, i, b);
      }
      if Owned(v, b) {
        var s :| Live(v, s) && Val(v, s) == b;
      }
    }
  }

  /** Slots in `dead` go, and with them exactly their blocks' bits. */
  lemma DetachSound(v: Vol, w: Vol, i: nat, dead: set<nat>)
    requires Sound(v) && w.fill == v.fill && Conserved(w)
    requires forall s {:trigger Live(w, s)} :: Live(w, s) ==> Live(v, s) && Val(w, s) == Val(v, s)
    requires forall s {:trigger Live(v, s)} :: Live(v, s) ==> (Live(w, s) <==> Val(v, s) !in dead)
    requires forall s {:trigger Live(v, s)} :: Live(v, s) && !Live(w, s) ==> s.ino == i
    requires FreeSet(w.bits) == FreeSet(v.bits) + dead
    requires forall b: nat :: b in dead ==> Owned(v, b)
    requires ZeroFillShape(w)
    ensures Sound(w)
    ensures forall b: nat :: b in FreeSet(w.bits) <==> b in FreeSet(v.bits) || (Owned(v, b) && !Owned(w, b))
  {
    forall b: nat | b < TOTAL_BLOCKS
      ensures TestBit(w.bits, b) <==> TestBit(v.bits, b) && b !in dead
    {
      assert b in FreeSet(w.bits) <==> !TestBit(w.bits, b);
      assert b in FreeSet(v.bits) <==> !TestBit(v.bits, b);
    }
    forall b: nat
      ensures Owned(w, b) <==> Owned(v, b) && b !in dead
    {
      if Owned(v, b) {
        var s :| Live(v, s) && Val(v, s) == b;
        assert Live(w, s) <==> b !in dead;
      }
      if Owned(w, b) {
        var s :| Live(w, s) && Val(w, s) == b;
        assert Live(v, s);
      }
    }
    forall b: nat | b in dead
      ensures b >= DATA_START
    {
      assert Owned(v, b);
      var s :| Live(v, s) && Val(v, s) == b;
    }
  }

  lemma SetDirectVals(v: Vol, w: Vol, i: nat, k: nat)
    requires Allocated(v, i) && k < DIRECT_BLOCKS && w.disk == v.disk
    requires w.inodes == SetDirect(v, i, k, NULL_BLOCK).inodes
    ensures forall s :: Val(w, s) == if s == Direct(i, k) then NULL_BLOCK else Val(v, s)
  {
    forall s
      ensures Val(w, s) == if s == Direct(i, k) then NULL_BLOCK else Val(v, s)
    {
      match s case Direct(_, _) => case Indirect(_) => case Entry(_, _) =>
    }
  }

  lemma DetachOne(v: Vol, w: Vol, i: nat, k: nat, b: nat)
    requires Sound(v) && Live(v, Direct(i, k)) && Val(v, Direct(i, k)) == b
    requires forall s :: Val(w, s) == if s == Direct(i, k) then NULL_BLOCK else Val(v, s)
    requires w == v.(bits := w.bits, freeBlocks := w.freeBlocks, inodes := w.inodes) && i < MAX_INODES
    requires forall j :: 0 <= j < MAX_INODES && j != i ==> w.inodes[j] == v.inodes[j]
    requires w.inodes[i] == v.inodes[i].(direct := w.inodes[i].direct)
    requires FreeSet(w.bits) == FreeSet(v.bits) + {b} && Conserved(w)
    ensures Shrinks(v, w, i)
  {
    hide Val, FreeSet;
    forall s
      ensures Live(w, s) <==> Live(v, s) && s != Direct(i, k)
    {
    }
    assert Owned(v, b);
    DetachSound(v, w, i, {b});
  }

  lemma DropDirectAtShrinks(v: Vol, i: nat, k: nat)
    requires Sound(v) && Allocated(v, i) && k < DIRECT_BLOCKS
    ensures var w := DropDirectAt(v, i, k);
            && Shrinks(v, w, i) && w.inodes[i].direct == v.inodes[i].direct[k := NULL_BLOCK]
            && w.inodes[i].indirect1 == v.inodes[i].indirect1
  {
    var b, w := v.inodes[i].direct[k], DropDirectAt(v, i, k);
    assert Val(v, Direct(i, k)) == b;
    if b != NULL_BLOCK {
      assert Live(v, Direct(i, k));
      FreeSetBound(v);
      DropBlockOnce(v, b);
      TakenNotFree(v, Direct(i, k));
      SetDirectVals(v, w, i, k);
      DetachOne(v, w, i, k, b);
    } else {
      assert v.inodes[i].direct[k := NULL_BLOCK] == v.inodes[i].direct;
    }
  }

  lemma TakenNotFree(v: Vol, s: Slot)
    requires Sound(v) && Live(v, s)
    ensures Owned(v, Val(v, s)) && Val(v, s) as nat !in FreeSet(v.bits)
  {
  }

  lemma {:induction false} DropDirectShrinks(v: Vol, i: nat, k: nat)
    requires Sound(v) && Allocated(v, i) && k <= DIRECT_BLOCKS
    ensures var w := DropDirect(v, i, k);
            && Shrinks(v, w, i) && w.inodes[i].indirect1 == v.inodes[i].indirect1
            && (forall m :: 0 <= m < k ==> w.inodes[i].direct[m] == v.inodes[i].direct[m])
            && (forall m :: k <= m < DIRECT_BLOCKS ==> w.inodes[i].direct[m] == NULL_BLOCK)
    decreases DIRECT_BLOCKS - k
  {
    hide DropDirectAt;
    if k < DIRECT_BLOCKS {
      DropDirectAtShrinks(v, i, k);
      var w := DropDirectAt(v, i, k);
      DropDirectShrinks(w, i, k + 1);
      ShrinksTrans(v, w, DropDirect(w, i, k + 1), i);
    }
  }

  lemma SetIndirectNullVals(v: Vol, w: Vol, i: nat)
    requires Allocated(v, i) && w.disk == v.disk && w.inodes == SetIndirect(v, i, NULL_BLOCK).inodes
    ensures forall s :: Val(w, s) == if s.ino == i && !s.Direct? then NULL_BLOCK else Val(v, s)
  {
    forall s
      ensures Val(w, s) == if s.ino == i && !s.Direct? then NULL_BLOCK else Val(v, s)
    {
      match s case Direct(_, _) => case Indirect(_) => case Entry(_, _) =>
    }
  }

  /** With 0xFF fill the entries that are not NULL_BLOCK are exactly the live ones. */
  lemma EntriesLive(v: Vol, i: nat)
    requires Sound(v) && Live(v, Indirect(i)) && v.fill != 0
    ensures var ib := Val(v, Indirect(i));
            && ib < TOTAL_BLOCKS && EntriesInRange(v.disk[ib]) && DistinctTaken(v.bits, v.disk[ib], 0)
            && (forall q: nat :: q < PTRS_PER_BLOCK ==> Val(v, Entry(i, q)) == PtrAt(v.disk[ib], q))
            && ib as nat !in NamedFrom(v.disk[ib], 0)
  {
    var ib := Val(v, Indirect(i));
    var ptrs := v.disk[ib];
    forall q: nat | q < PTRS_PER_BLOCK
      ensures Val(v, Entry(i, q)) == PtrAt(ptrs, q)
      ensures PtrAt(ptrs, q) != NULL_BLOCK ==> Live(v, Entry(i, q)) && PtrAt(ptrs, q) != ib
      ensures PtrAt(ptrs, q) != NULL_BLOCK ==> PtrAt(ptrs, q) as nat !in FreeSet(v.bits)
    {
    }
    assert forall q: nat, r: nat {:trigger PtrAt(ptrs, q), PtrAt(ptrs, r)} ::
      q < r < PTRS_PER_BLOCK && PtrAt(ptrs, q) != NULL_BLOCK && PtrAt(ptrs, q) == PtrAt(ptrs, r) ==>
        Entry(i, q) == Entry(i, r);
  }

  /** The blocks that go with a pointer block: itself and everything it names. */
  ghost function IndirectSet(v: Vol, i: nat): set<nat>
    requires i < MAX_INODES && v.inodes[i].indirect1 < TOTAL_BLOCKS
  {
    NamedFrom(v.disk[v.inodes[i].indirect1], 0) + {v.inodes[i].indirect1 as nat}
  }

  lemma IndirectSetSlots(v: Vol, i: nat)
    requires Sound(v) && Live(v, Indirect(i)) && v.fill != 0 && v.inodes[i].indirect1 < TOTAL_BLOCKS
    ensures forall b: nat :: b in IndirectSet(v, i) ==> Owned(v, b)
    ensures forall s {:trigger Live(v, s)} :: Live(v, s) ==> (Val(v, s) as nat in IndirectSet(v, i) <==> s.ino == i && !s.Direct?)
  {
    EntriesLive(v, i);
    var ptrs := v.disk[v.inodes[i].indirect1];
    hide PtrAt, TestBit;
    forall b: nat | b in IndirectSet(v, i)
      ensures exists s :: Live(v, s) && Val(v, s) == b && s.ino == i && !s.Direct?
    {
      if b in NamedFrom(ptrs, 0) {
        var q: nat :| q < PTRS_PER_BLOCK && PtrAt(ptrs, q) != NULL_BLOCK && PtrAt(ptrs, q) == b;
        assert Val(v, Entry(i, q)) == b && Live(v, Entry(i, q));
      } else {
        assert Val(v, Indirect(i)) == b;
      }
    }
    forall s | Live(v, s)
      ensures Val(v, s) as nat in IndirectSet(v, i) <==> s.ino == i && !s.Direct?
    {
      match s
      case Direct(_, _) =>
      case Indirect(_) =>
      case Entry(_, q) =>
        if s.ino == i {
          assert q < PTRS_PER_BLOCK && Val(v, Entry(i, q)) == PtrAt(ptrs, q);
        }
    }
  }

  lemma DetachIndirect(v: Vol, w: Vol, i: nat, dead: set<nat>)
    requires Sound(v) && i < MAX_INODES
    requires forall s :: Val(w, s) == if s.ino == i && !s.Direct? then NULL_BLOCK else Val(v, s)
    requires w == v.(bits := w.bits, freeBlocks := w.freeBlocks, inodes := w.inodes)
    requires forall j :: 0 <= j < MAX_INODES && j != i ==> w.inodes[j] == v.inodes[j]
    requires w.inodes[i] == v.inodes[i].(indirect1 := w.inodes[i].indirect1)
    requires FreeSet(w.bits) == FreeSet(v.bits) + dead && Conserved(w)
    requires forall b: nat :: b in dead ==> Owned(v, b)
    requires forall s {:trigger Live(v, s)} :: Live(v, s) ==> (Val(v, s) as nat in dead <==> s.ino == i && !s.Direct?)
    ensures Shrinks(v, w, i)
  {
    hide Val, FreeSet;
    forall s
      ensures Live(w, s) <==> Live(v, s) && !(s.ino == i && !s.Direct?)
    {
    }
    DetachSound(v, w, i, dead);
  }

  lemma EntriesCounts(v: Vol, i: nat)
    requires Sound(v) && Live(v, Indirect(i)) && v.fill != 0 && v.inodes[i].indirect1 < TOTAL_BLOCKS
    ensures var ib := v.inodes[i].indirect1;
            var x := DropEntries(v, v.disk[ib], 0);
            && x == v.(bits := x.bits, freeBlocks := x.freeBlocks) && Conserved(x)
            && FreeSet(x.bits) == FreeSet(v.bits) + NamedFrom(v.disk[ib], 0) && ib as nat !in FreeSet(x.bits)
  {
    var ib := v.inodes[i].indirect1;
    FreeSetBound(v);
    EntriesLive(v, i);
    TakenNotFree(v, Indirect(i));
    assert Val(v, Indirect(i)) == ib;
    hide DropEntries, FreeSet, PtrAt, NamedFrom, DistinctTaken, EntriesInRange;
    DropEntriesFrees(v, v.disk[ib], 0);
    DropEntriesExact(v, v.disk[ib], 0);
  }

  lemma IndirectFreed(v: Vol, i: nat)
    requires Sound(v) && Live(v, Indirect(i)) && v.fill != 0 && v.inodes[i].indirect1 < TOTAL_BLOCKS
    ensures var ib := v.inodes[i].indirect1;
            var y := DropBlock(DropEntries(v, v.disk[ib], 0), ib);
            && y == v.(bits := y.bits, freeBlocks := y.freeBlocks) && Conserved(y)
            && FreeSet(y.bits) == FreeSet(v.bits) + IndirectSet(v, i)
  {
    assert Allocated(v, i);
    hide DropEntries, DropBlock, FreeSet, NamedFrom, Sound, Val, Live;
    var ib: nat := v.inodes[i].indirect1;
    var x := DropEntries(v, v.disk[ib], 0);
    EntriesCounts(v, i);
    FreeSetBound(x);
    DropBlockOnce(x, ib);
  }

  lemma DropIndirectCounts(v: Vol, i: nat)
    requires Sound(v) && Live(v, Indirect(i)) && v.fill != 0 && v.inodes[i].indirect1 < TOTAL_BLOCKS
    ensures var w := DropIndirect(v, i);
            && FreeSet(w.bits) == FreeSet(v.bits) + IndirectSet(v, i) && Conserved(w)
            && w == v.(bits := w.bits, freeBlocks := w.freeBlocks, inodes := SetIndirect(v, i, NULL_BLOCK).inodes)
  {
    assert Allocated(v, i);
    hide DropEntries, DropBlock, FreeSet, IndirectSet, Sound, Val, Live;
    IndirectFreed(v, i);
    var ib := v.inodes[i].indirect1;
    assert DropIndirect(v, i) == SetIndirect(DropBlock(DropEntries(v, v.disk[ib], 0), ib), i, NULL_BLOCK);
  }

  lemma DropIndirectShrinks(v: Vol, i: nat)
    requires Sound(v) && Allocated(v, i)
    requires v.fill != 0 || v.inodes[i].indirect1 == NULL_BLOCK
    ensures var w := DropIndirect(v, i);
            && Shrinks(v, w, i) && w.inodes[i] == v.inodes[i].(indirect1 := NULL_BLOCK)
  {
    var ib := v.inodes[i].indirect1;
    assert Val(v, Indirect(i)) == ib;
    if ib != NULL_BLOCK {
      assert Live(v, Indirect(i));
      var w := DropIndirect(v, i);
      DropIndirectCounts(v, i);
      hide DropIndirect;
      IndirectSetSlots(v, i);
      SetIndirectNullVals(v, w, i);
      hide IndirectSet, FreeSet;
      DetachIndirect(v, w, i, IndirectSet(v, i));
    }
  }

  // ----- The release as a whole -----

  /** Inode i has no pointer and no size any more; the bitmap aside, nothing else moved. */
  ghost predicate Cleared(v: Vol, w: Vol, i: nat)
    requires i < MAX_INODES
  {
    && w.disk == v.disk && w.fill == v.fill && w.freeInodes == v.freeInodes
    && w.inodes == v.inodes[i := v.inodes[i].(direct := AllPointers(NULL_BLOCK), indirect1 := NULL_BLOCK,
                                              size := 0, blockCount := 0)]
  }

  /** Inode i owns nothing any more, its blocks are free again, everyone else's are not. */
  ghost predicate Emptied(v: Vol, w: Vol, i: nat)
    requires i < MAX_INODES
  {
    && Cleared(v, w, i)
    && (forall s {:trigger Live(w, s)} {:trigger Live(v, s)} :: Live(w, s) <==> Live(v, s) && s.ino != i)
    && (forall s {:trigger Live(w, s)} :: Live(w, s) ==> Val(w, s) == Val(v, s))
    && (forall b: nat {:trigger b in FreeSet(w.bits)} :: b in FreeSet(w.bits) <==> b in FreeSet(v.bits) || OwnedBy(v, i, b))
    && Leaked(w) == Leaked(v)
  }

  lemma ShrunkToNothing(v: Vol, w: Vol, i: nat)
    requires Sound(v) && Shrinks(v, w, i) && i < MAX_INODES
    requires w.inodes[i].direct == AllPointers(NULL_BLOCK) && w.inodes[i].indirect1 == NULL_BLOCK
    ensures forall s {:trigger Live(w, s)} {:trigger Live(v, s)} :: Live(w, s) <==> Live(v, s) && s.ino != i
    ensures forall b: nat {:trigger b in FreeSet(w.bits)} :: b in FreeSet(w.bits) <==> b in FreeSet(v.bits) || OwnedBy(v, i, b)
  {
    forall s: Slot
      ensures s.ino == i ==> !Live(w, s)
    {
      match s case Direct(_, _) => case Indirect(_) => case Entry(_, _) =>
    }
    hide Val;
    forall b: nat
      ensures Owned(v, b) && !Owned(w, b) <==> OwnedBy(v, i, b)
    {
      if Owned(v, b) && !Owned(w, b) {
        var s :| Live(v, s) && Val(v, s) == b;
        assert !Live(w, s);
      }
      if OwnedBy(v, i, b) {
        var s: Slot :| s.ino == i && Live(v, s) && Val(v, s) == b;
      }
    }
  }

  lemma ResetCountsVals(w: Vol, i: nat)
    requires i < MAX_INODES
    ensures SameVals(w, WithInode(w, i, w.inodes[i].(size := 0, blockCount := 0)))
  {
    var x := WithInode(w, i, w.inodes[i].(size := 0, blockCount := 0));
    forall s
      ensures Val(x, s) == Val(w, s)
    {
      match s case Direct(_, _) => case Indirect(_) => case Entry(_, _) =>
    }
  }

  lemma ReleaseShrinks(v: Vol, i: nat)
    requires Sound(v) && Allocated(v, i) && (v.fill != 0 || v.inodes[i].indirect1 == NULL_BLOCK)
    ensures var w := DropIndirect(DropDirect(v, i, 0), i);
            && Shrinks(v, w, i)
            && w.inodes[i] == v.inodes[i].(direct := AllPointers(NULL_BLOCK), indirect1 := NULL_BLOCK)
  {
    hide DropDirect, DropIndirect;
    DropDirectShrinks(v, i, 0);
    var d := DropDirect(v, i, 0);
    DropIndirectShrinks(d, i);
    var w := DropIndirect(d, i);
    ShrinksTrans(v, d, w, i);
    assert w.inodes[i].direct == AllPointers(NULL_BLOCK);
  }

  lemma EmptiedCounts(v: Vol, w: Vol, i: nat)
    requires Inv(v) && i < MAX_INODES && Sound(w) && Emptied(v, w, i)
    ensures Inv(w)
  {
    hide Val, Sound;
    forall j: nat | Allocated(w, j)
      ensures w.inodes[j].blockCount == |Mapped(w, j)|
    {
      if j == i {
        assert Mapped(w, j) == {};
      } else {
        assert Mapped(w, j) == Mapped(v, j);
      }
    }
  }

  lemma ShrunkEmptied(v: Vol, w: Vol, i: nat)
    requires Sound(v) && Shrinks(v, w, i) && i < MAX_INODES
    requires w.inodes[i] == v.inodes[i].(direct := AllPointers(NULL_BLOCK), indirect1 := NULL_BLOCK)
    ensures var x := WithInode(w, i, w.inodes[i].(size := 0, blockCount := 0));
            Sound(x) && Emptied(v, x, i)
  {
    var x := WithInode(w, i, w.inodes[i].(size := 0, blockCount := 0));
    ShrunkToNothing(v, w, i);
    ShrinksLeaked(v, w, i);
    ResetCountsVals(w, i);
    SameValsSound(w, x);
    SameValsMapped(w, x, i);
    hide Val, Sound, Live;
    assert Leaked(x) == Leaked(w);
    assert x.inodes == v.inodes[i := x.inodes[i]];
  }

  /** Releasing a file frees exactly the blocks it owned, each once. */
  lemma ReleaseFrees(v: Vol, i: nat)
    requires Inv(v) && Allocated(v, i) && (v.fill != 0 || v.inodes[i].indirect1 == NULL_BLOCK)
    ensures Inv(ReleaseBlocks(v, i)) && Emptied(v, ReleaseBlocks(v, i), i)
  {
    ReleaseShrinks(v, i);
    hide DropDirect, DropIndirect, Sound, Shrinks;
    ShrunkEmptied(v, DropIndirect(DropDirect(v, i, 0), i), i);
    EmptiedCounts(v, ReleaseBlocks(v, i), i);
  }

  lemma TwoHoles(v: Vol, i: nat) returns (q: nat, r: nat)
    requires Sound(v) && v.fill == 0 && Live(v, Indirect(i)) && v.inodes[i].indirect1 < TOTAL_BLOCKS
    ensures q < r < PTRS_PER_BLOCK
    ensures PtrAt(v.disk[v.inodes[i].indirect1], q) == 0 == PtrAt(v.disk[v.inodes[i].indirect1], r)
    ensures EntriesInRange(v.disk[v.inodes[i].indirect1])
  {
    var ptrs := v.disk[v.inodes[i].indirect1];
    assert Val(v, Indirect(i)) != NULL_BLOCK;
    forall k: nat | k < PTRS_PER_BLOCK
      ensures Val(v, Entry(i, k)) == PtrAt(ptrs, k) != NULL_BLOCK
      ensures PtrAt(ptrs, k) != 0 ==> Live(v, Entry(i, k)) && PtrAt(ptrs, k) < TOTAL_BLOCKS
    {
    }
    assert forall j: nat, k: nat {:trigger PtrAt(ptrs, j), PtrAt(ptrs, k)} ::
      j < k < PTRS_PER_BLOCK && PtrAt(ptrs, j) != 0 && PtrAt(ptrs, k) != 0 ==> Live(v, Entry(i, j)) && Live(v, Entry(i, k));
    if PtrAt(ptrs, 0) != 0 {
      q, r := 1, 2;
    } else if PtrAt(ptrs, 1) != 0 {
      q, r := 0, 2;
    } else {
      q, r := 0, 1;
    }
  }

  lemma ZeroFillOvercounts(v: Vol, i: nat)
    requires Sound(v) && v.fill == 0 && Live(v, Indirect(i)) && v.inodes[i].indirect1 < TOTAL_BLOCKS
    ensures DropIndirect(v, i).freeBlocks > |FreeSet(DropIndirect(v, i).bits)|
  {
    var ib := v.inodes[i].indirect1;
    var ptrs := v.disk[ib];
    var q, r := TwoHoles(v, i);
    FreeSetBound(v);
    hide PtrAt, FreeSet, DropBlock, DropEntries;
    DropEntriesTwice(v, ptrs, 0, r);
    DropEntriesFrees(v, ptrs, 0);
    var x := DropEntries(v, ptrs, 0);
    DropBlockOnce(x, ib);
  }

  /** With the code's zero fill, releasing a file that has a pointer block frees block 0
      again and again: the count is exact if and only if there was no pointer block. */
  lemma ReleaseConservesIff(v: Vol, i: nat)
    requires Inv(v) && Allocated(v, i)
    ensures Conserved(ReleaseBlocks(v, i)) <==> v.fill != 0 || v.inodes[i].indirect1 == NULL_BLOCK
  {
    if v.fill != 0 || v.inodes[i].indirect1 == NULL_BLOCK {
      ReleaseFrees(v, i);
    } else {
      DropDirectShrinks(v, i, 0);
      var d := DropDirect(v, i, 0);
      assert Val(d, Indirect(i)) == v.inodes[i].indirect1;
      assert Live(d, Indirect(i));
      ZeroFillOvercounts(d, i);
    }
  }

  /** With either fill, whatever a pointer block names lies inside the image. */
  lemma EntriesInImage(v: Vol, i: nat)
    requires Sound(v) && Live(v, Indirect(i))
    ensures v.inodes[i].indirect1 < TOTAL_BLOCKS && EntriesInRange(v.disk[v.inodes[i].indirect1])
  {
    assert Val(v, Indirect(i)) == v.inodes[i].indirect1;
    if v.fill != 0 {
      EntriesLive(v, i);
    } else {
      var q, r := TwoHoles(v, i);
    }
  }

  // ----- The release with either fill -----

  lemma DropIndirectRecord(v: Vol, i: nat)
    requires Sound(v) && Allocated(v, i)
    ensures var w := DropIndirect(v, i);
            w == v.(bits := w.bits, freeBlocks := w.freeBlocks, inodes := SetIndirect(v, i, NULL_BLOCK).inodes)
  {
    var ib := v.inodes[i].indirect1;
    assert Val(v, Indirect(i)) == ib;
    if ib != NULL_BLOCK {
      assert Live(v, Indirect(i));
      EntriesInImage(v, i);
      FreeSetBound(v);
      hide Val, Live, PtrAt, FreeSet, DropEntries, EntriesInRange, Sound;
      DropEntriesFrees(v, v.disk[ib], 0);
    } else {
      assert SetIndirect(v, i, NULL_BLOCK).inodes == v.inodes;
    }
  }

  /** Whatever the fill, unlink leaves the inode without pointers and every other inode and
      the disk alone. */
  lemma ReleaseCleared(v: Vol, i: nat)
    requires Inv(v) && Allocated(v, i)
    ensures Cleared(v, ReleaseBlocks(v, i), i)
  {
    hide DropDirect, DropIndirect, FreeSet, Live;
    DropDirectShrinks(v, i, 0);
    var d := DropDirect(v, i, 0);
    DropIndirectRecord(d, i);
    hide Sound;
    assert d.inodes[i].direct == AllPointers(NULL_BLOCK);
    assert ReleaseBlocks(v, i).inodes == v.inodes[i := ReleaseBlocks(v, i).inodes[i]];
  }

  /** With no entry null, the loop over a pointer block counts up by all 1024. */
  lemma {:induction false} DropEntriesAll(v: Vol, ptrs: Block, p: nat)
    requires p <= PTRS_PER_BLOCK && v.freeBlocks + (PTRS_PER_BLOCK - p) < TWO_32
    requires forall q: nat :: p <= q < PTRS_PER_BLOCK ==> PtrAt(ptrs, q) < TOTAL_BLOCKS
    ensures DropEntries(v, ptrs, p).freeBlocks == v.freeBlocks + (PTRS_PER_BLOCK - p)
    decreases PTRS_PER_BLOCK - p
  {
    hide PtrAt, FreeSet;
    if p < PTRS_PER_BLOCK {
      DropBlockOnce(v, PtrAt(ptrs, p));
      hide DropBlock;
      DropEntriesAll(DropBlock(v, PtrAt(ptrs, p)), ptrs, p + 1);
    }
  }

  /** The entries of inode i's pointer block that hold a block. */
  ghost function LiveEntries(v: Vol, i: nat): set<nat> {
    set k: nat | k < PTRS_PER_BLOCK && Live(v, Entry(i, k))
  }

  lemma ZeroFilledEntry(v: Vol, i: nat, k: nat)
    requires Sound(v) && v.fill == 0 && Live(v, Indirect(i)) && v.inodes[i].indirect1 < TOTAL_BLOCKS && k < PTRS_PER_BLOCK
    ensures var b: nat := PtrAt(v.disk[v.inodes[i].indirect1], k);
            && Val(v, Entry(i, k)) == b < TOTAL_BLOCKS && b !in FreeSet(v.bits)
            && (k in LiveEntries(v, i) <==> b != 0)
  {
    assert Val(v, Indirect(i)) != NULL_BLOCK;
  }

  lemma OneLiveEntry(v: Vol, i: nat, j: nat, k: nat)
    requires Sound(v) && v.fill == 0 && j in LiveEntries(v, i) && k in LiveEntries(v, i)
    ensures j == k
  {
    hide Val;
  }

  /** A zero-filled pointer block names block 0 and the one block it may hold. */
  lemma ZeroFilledNames(v: Vol, i: nat)
    requires Sound(v) && v.fill == 0 && Live(v, Indirect(i)) && v.inodes[i].indirect1 < TOTAL_BLOCKS
    ensures var ptrs := v.disk[v.inodes[i].indirect1];
            && (forall q: nat :: q < PTRS_PER_BLOCK ==> PtrAt(ptrs, q) < TOTAL_BLOCKS)
            && |LiveEntries(v, i)| <= 1
            && NamedFrom(ptrs, 0) * FreeSet(v.bits) == {} && |NamedFrom(ptrs, 0)| == 1 + |LiveEntries(v, i)|
            && (forall b: nat :: b in NamedFrom(ptrs, 0) <==> b == 0 || exists k: nat :: k in LiveEntries(v, i) && Val(v, Entry(i, k)) == b)
  {
    var ptrs := v.disk[v.inodes[i].indirect1];
    var q, r := TwoHoles(v, i);
    hide Val, Live, FreeSet, Sound, PtrAt;
    forall k: nat | k < PTRS_PER_BLOCK
      ensures Val(v, Entry(i, k)) == PtrAt(ptrs, k) < TOTAL_BLOCKS && PtrAt(ptrs, k) as nat !in FreeSet(v.bits)
      ensures k in LiveEntries(v, i) <==> PtrAt(ptrs, k) != 0
    {
      ZeroFilledEntry(v, i, k);
    }
    forall j: nat, k: nat | j in LiveEntries(v, i) && k in LiveEntries(v, i)
      ensures j == k
    {
      OneLiveEntry(v, i, j, k);
    }
    assert forall k: nat :: k in LiveEntries(v, i) ==> k < PTRS_PER_BLOCK;
    NamesZeroAnd(ptrs, LiveEntries(v, i), q);
    hide LiveEntries, NamedFrom;
    assert forall b: nat :: b in NamedFrom(ptrs, 0) ==> b !in FreeSet(v.bits);
  }

  /** The names in a block whose entries are 0 except on a set of at most one. */
  lemma NamesZeroAnd(ptrs: Block, live: set<nat>, q: nat)
    requires q < PTRS_PER_BLOCK && PtrAt(ptrs, q) == 0
    requires forall k: nat :: k < PTRS_PER_BLOCK ==> PtrAt(ptrs, k) < TOTAL_BLOCKS && (k in live <==> PtrAt(ptrs, k) != 0)
    requires forall k: nat :: k in live ==> k < PTRS_PER_BLOCK
    requires forall j: nat, k: nat :: j in live && k in live ==> j == k
    ensures |live| <= 1 && |NamedFrom(ptrs, 0)| == 1 + |live|
    ensures forall b: nat :: b in NamedFrom(ptrs, 0) <==> b == 0 || exists k: nat :: k in live && PtrAt(ptrs, k) == b
    ensures forall b: nat :: b in NamedFrom(ptrs, 0) ==> exists k: nat :: k < PTRS_PER_BLOCK && PtrAt(ptrs, k) == b
  {
    hide PtrAt;
    if live == {} {
      assert NamedFrom(ptrs, 0) == {0};
    } else {
      var k :| k in live;
      assert live == {k};
      assert NamedFrom(ptrs, 0) == {0, PtrAt(ptrs, k) as nat};
    }
  }

  /** What the code's zero fill makes of a release: beside the file's own blocks block 0, the
      superblock's, is marked free, and free_blocks counts one for every one of the 1024
      entries. */
  lemma ReleaseZeroFilled(v: Vol, i: nat)
    requires Inv(v) && Allocated(v, i) && v.fill == 0 && v.inodes[i].indirect1 != NULL_BLOCK
    ensures var w := ReleaseBlocks(v, i);
            && Cleared(v, w, i)
            && (forall b: nat :: b in FreeSet(w.bits) <==> b in FreeSet(v.bits) || OwnedBy(v, i, b) || b == 0)
            && w.freeBlocks == |FreeSet(w.bits)| + PTRS_PER_BLOCK - 1 - |LiveEntries(v, i)|
            && |LiveEntries(v, i)| <= 1
  {
    ReleaseCleared(v, i);
    DropDirectShrinks(v, i, 0);
    var d := DropDirect(v, i, 0);
    DirectsDropped(v, d, i);
    ZeroFilledDropped(d, i);
    hide DropDirect, DropIndirect, Sound, Val, Live, FreeSet, LiveEntries, Owned, OwnedBy, Shrinks;
    assert ReleaseBlocks(v, i).bits == DropIndirect(d, i).bits;
  }

  /** Inode i has a pointer block whose unused entries are 0. */
  predicate ZeroFilled(v: Vol, i: nat)
    requires i < MAX_INODES
  {
    v.fill == 0 && v.inodes[i].indirect1 != NULL_BLOCK
  }

  /** What unlink frees, of any file: the blocks it owned, and block 0 if it has a zero-filled
      pointer block; free_blocks is then ahead of the bitmap by the entries that name block 0
      again. */
  lemma ReleaseExact(v: Vol, i: nat)
    requires Inv(v) && Allocated(v, i)
    ensures var w := ReleaseBlocks(v, i);
            && Cleared(v, w, i)
            && (forall b: nat :: b in FreeSet(w.bits) <==> b in FreeSet(v.bits) || OwnedBy(v, i, b) || (ZeroFilled(v, i) && b == 0))
            && w.freeBlocks == |FreeSet(w.bits)| + (if ZeroFilled(v, i) then PTRS_PER_BLOCK - 1 - |LiveEntries(v, i)| else 0)
            && (ZeroFilled(v, i) ==> |LiveEntries(v, i)| <= 1)
            && (!ZeroFilled(v, i) ==> Inv(w) && Emptied(v, w, i))
  {
    hide ReleaseBlocks, FreeSet, OwnedBy, Live, LiveEntries, Cleared;
    if ZeroFilled(v, i) {
      ReleaseZeroFilled(v, i);
    } else {
      ReleaseFrees(v, i);
    }
  }

  /** Dropping the direct blocks leaves the pointer block and its entries. */
  lemma DirectsDropped(v: Vol, d: Vol, i: nat)
    requires Sound(v) && Allocated(v, i) && Shrinks(v, d, i) && d.inodes[i].indirect1 == v.inodes[i].indirect1 != NULL_BLOCK
    requires forall m :: 0 <= m < DIRECT_BLOCKS ==> d.inodes[i].direct[m] == NULL_BLOCK
    ensures Sound(d) && Allocated(d, i) && d.fill == v.fill && Live(d, Indirect(i)) && LiveEntries(d, i) == LiveEntries(v, i)
    ensures forall b: nat :: b in FreeSet(d.bits) || OwnedBy(d, i, b) <==> b in FreeSet(v.bits) || OwnedBy(v, i, b)
  {
    forall s: Slot | s.ino == i
      ensures Val(d, s) == if s.Direct? then NULL_BLOCK else Val(v, s)
    {
    }
    assert Val(d, Indirect(i)) == v.inodes[i].indirect1;
    hide Val, FreeSet;
    forall b: nat
      ensures b in FreeSet(d.bits) || OwnedBy(d, i, b) <==> b in FreeSet(v.bits) || OwnedBy(v, i, b)
    {
      DirectsDroppedAt(v, d, i, b);
    }
  }

  lemma DirectsDroppedAt(v: Vol, d: Vol, i: nat, b: nat)
    requires Sound(v) && Shrinks(v, d, i)
    ensures b in FreeSet(d.bits) || OwnedBy(d, i, b) <==> b in FreeSet(v.bits) || OwnedBy(v, i, b)
  {
    hide Val, FreeSet;
    if OwnedBy(d, i, b) {
      var s: Slot :| s.ino == i && Live(d, s) && Val(d, s) == b;
      assert Live(v, s) && Val(v, s) == b;
    }
    if OwnedBy(v, i, b) {
      var s: Slot :| s.ino == i && Live(v, s) && Val(v, s) == b;
      if Owned(d, b) {
        var t :| Live(d, t) && Val(d, t) == b;
        assert Live(v, t) && Val(v, t) == b && t == s;
      }
    }
    if b in FreeSet(d.bits) && b !in FreeSet(v.bits) {
      var s: Slot :| Live(v, s) && Val(v, s) == b;
      assert !Live(d, s);
    }
  }

  lemma ZeroFilledLoop(d: Vol, i: nat)
    requires Sound(d) && Allocated(d, i) && d.fill == 0 && Live(d, Indirect(i)) && d.inodes[i].indirect1 < TOTAL_BLOCKS
    ensures var ib, ptrs := d.inodes[i].indirect1, d.disk[d.inodes[i].indirect1];
            var x := DropEntries(d, ptrs, 0);
            && FreeSet(x.bits) == FreeSet(d.bits) + NamedFrom(ptrs, 0) && ib as nat !in FreeSet(x.bits)
            && x.freeBlocks == d.freeBlocks + PTRS_PER_BLOCK < TOTAL_BLOCKS + PTRS_PER_BLOCK + 1
            && |FreeSet(x.bits)| == d.freeBlocks + 1 + |LiveEntries(d, i)|
  {
    NotNamedTwice(d, i);
    TakenNotFree(d, Indirect(i));
    assert Val(d, Indirect(i)) == d.inodes[i].indirect1;
    assert Conserved(d);
    hide PtrAt, Val, Live, FreeSet, DropEntries, NamedFrom, Sound, LiveEntries;
    EntriesInImage(d, i);
    ZeroFilledNames(d, i);
    FreeSetBound(d);
    var ptrs := d.disk[d.inodes[i].indirect1];
    DropEntriesFrees(d, ptrs, 0);
    DropEntriesAll(d, ptrs, 0);
    DisjointCount(FreeSet(d.bits), NamedFrom(ptrs, 0));
  }

  lemma DisjointCount(a: set<nat>, b: set<nat>)
    requires b * a == {}
    ensures |a + b| == |a| + |b|
  {
    assert a * b == {};
  }

  lemma ZeroFilledDropped(d: Vol, i: nat)
    requires Sound(d) && Allocated(d, i) && d.fill == 0 && Live(d, Indirect(i))
    requires forall m :: 0 <= m < DIRECT_BLOCKS ==> d.inodes[i].direct[m] == NULL_BLOCK
    ensures var w := DropIndirect(d, i);
            && (forall b: nat :: b in FreeSet(w.bits) <==> b in FreeSet(d.bits) || OwnedBy(d, i, b) || b == 0)
            && w.freeBlocks == |FreeSet(w.bits)| + PTRS_PER_BLOCK - 1 - |LiveEntries(d, i)|
            && |LiveEntries(d, i)| <= 1
  {
    hide PtrAt, Val, Live, FreeSet, DropEntries, DropBlock, NamedFrom, Sound, LiveEntries, OwnedBy, EntriesInRange;
    EntriesInImage(d, i);
    var ib: nat := d.inodes[i].indirect1;
    ZeroFilledLoop(d, i);
    ZeroFilledNames(d, i);
    OwnedByEntries(d, i);
    var x := DropEntries(d, d.disk[ib], 0);
    DropBlockOnce(x, ib);
    assert DropIndirect(d, i).bits == DropBlock(x, ib).bits && DropIndirect(d, i).freeBlocks == DropBlock(x, ib).freeBlocks;
    hide DropIndirect;
  }

  lemma OwnedByEntries(d: Vol, i: nat)
    requires Allocated(d, i) && Live(d, Indirect(i))
    requires forall m :: 0 <= m < DIRECT_BLOCKS ==> d.inodes[i].direct[m] == NULL_BLOCK
    ensures forall b: nat :: OwnedBy(d, i, b) <==> b == d.inodes[i].indirect1 || exists k: nat :: k in LiveEntries(d, i) && Val(d, Entry(i, k)) == b
  {
    forall b: nat
      ensures OwnedBy(d, i, b) <==> b == d.inodes[i].indirect1 || exists k: nat :: k in LiveEntries(d, i) && Val(d, Entry(i, k)) == b
    {
      if OwnedBy(d, i, b) {
        var s: Slot :| s.ino == i && Live(d, s) && Val(d, s) == b;
        if s.Entry? {
          assert s.k in LiveEntries(d, i) && Val(d, Entry(i, s.k)) == b;
        }
      }
      assert Val(d, Indirect(i)) == d.inodes[i].indirect1;
    }
  }

  lemma NotNamedTwice(d: Vol, i: nat)
    requires Sound(d) && d.fill == 0 && Live(d, Indirect(i)) && d.inodes[i].indirect1 < TOTAL_BLOCKS
    ensures d.inodes[i].indirect1 as nat !in NamedFrom(d.disk[d.inodes[i].indirect1], 0)
  {
    ZeroFilledNames(d, i);
    assert Val(d, Indirect(i)) == d.inodes[i].indirect1 >= DATA_START;
    hide PtrAt, FreeSet, NamedFrom;
  }
}
