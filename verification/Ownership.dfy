/** Allocation and mapping keep the ownership invariant of the volume. */
module Ownership {
  import opened Machine
  import opened Bitmap
  import opened Volume

  lemma PtrAtPutPtr(b: Block, j: nat, k: nat, x: uint32)
    requires j < PTRS_PER_BLOCK && k < PTRS_PER_BLOCK
    ensures PtrAt(PutPtr(b, j, x), k) == if j == k then x else PtrAt(b, k)
  {
    var r := PutPtr(b, j, x);
    if j == k {
      assert r[4 * k..4 * k + 4] == Bytes32(x);
      Le32OfBytes32(x);
    } else {
      assert r[4 * k..4 * k + 4] == b[4 * k..4 * k + 4];
    }
  }

  lemma PtrAtFillBlock(f: byte, k: nat)
    requires k < PTRS_PER_BLOCK && (f == 0x00 || f == 0xFF)
    ensures PtrAt(FillBlock(f), k) == if f == 0 then 0 else NULL_BLOCK
  {
    assert FillBlock(f)[4 * k..4 * k + 4] == [f, f, f, f];
  }

  ghost predicate SameVals(v: Vol, w: Vol) {
    forall s :: Val(w, s) == Val(v, s)
  }

  /** Changing a block that is no pointer block leaves every pointer as it was. */
  lemma DataBlockSameVals(v: Vol, w: Vol, b: nat)
    requires w.inodes == v.inodes && forall c :: 0 <= c < TOTAL_BLOCKS && c != b ==> w.disk[c] == v.disk[c]
    requires b >= TOTAL_BLOCKS || forall i: nat :: Val(v, Indirect(i)) != b
    ensures SameVals(v, w)
  {
    forall s
      ensures Val(w, s) == Val(v, s)
    {
      assert b >= TOTAL_BLOCKS || Val(v, Indirect(s.ino)) != b;
    }
  }

  lemma SameValsSound(v: Vol, w: Vol)
    requires Sound(v) && SameVals(v, w)
    requires w.bits == v.bits && w.freeBlocks == v.freeBlocks && w.fill == v.fill
    ensures Sound(w)
  {
    assert forall s :: Live(w, s) <==> Live(v, s);
  }

  lemma TakenSound(v: Vol, w: Vol, nb: nat)
    requires Sound(v) && SameVals(v, w) && w.fill == v.fill
    requires FreeSet(w.bits) == FreeSet(v.bits) - {nb} && nb in FreeSet(v.bits)
    requires w.freeBlocks == Dec32(v.freeBlocks)
    ensures Sound(w)
  {
    assert forall s :: Live(w, s) <==> Live(v, s);
    forall b: nat | b < TOTAL_BLOCKS && TestBit(v.bits, b)
      ensures TestBit(w.bits, b)
    {
      assert b !in FreeSet(v.bits) && b !in FreeSet(w.bits);
    }
  }

  /** Allocation hands out neither metadata nor a live block, and keeps the count. */
  lemma TakeBlockSound(v: Vol, f: byte)
    requires Sound(v)
    ensures TakeBlock(v, f).1 < 0 <==> FreeSet(v.bits) == {}
    ensures var (w, nb) := TakeBlock(v, f);
            nb >= 0 ==>
              && Sound(w) && SameVals(v, w)
              && nb >= DATA_START && !Owned(v, nb) && nb in FreeSet(v.bits)
              && FreeSet(w.bits) == FreeSet(v.bits) - {nb}
              && w.disk[nb] == FillBlock(f)
  {
    var (w, nb) := TakeBlock(v, f);
    if nb >= 0 {
      FreeSetOps(v.bits, nb);
      assert !TestBit(v.bits, nb);
      forall i: nat
        ensures Val(v, Indirect(i)) != nb
      {
        assert Live(v, Indirect(i)) || Val(v, Indirect(i)) == NULL_BLOCK;
      }
      DataBlockSameVals(v, w, nb);
      TakenSound(v, w, nb);
    }
  }

  /** Hanging a taken, unowned block on one dead slot. */
  ghost predicate Attached(v: Vol, w: Vol, s0: Slot, b: nat) {
    && w.bits == v.bits && w.freeBlocks == v.freeBlocks && w.fill == v.fill
    && !Live(v, s0) && Live(w, s0) && Val(w, s0) == b
    && forall s {:trigger Live(w, s)} {:trigger Live(v, s)} ::
         s != s0 ==> (Live(w, s) <==> Live(v, s)) && (Live(v, s) ==> Val(w, s) == Val(v, s))
  }

  lemma AttachedSound(v: Vol, w: Vol, s0: Slot, b: nat)
    requires Sound(v) && Attached(v, w, s0, b)
    requires !Owned(v, b) && DATA_START <= b < TOTAL_BLOCKS && TestBit(v.bits, b)
    requires ZeroFillShape(w)
    ensures Sound(w) && Leaked(w) == Leaked(v) - {b}
    ensures forall c: nat :: Owned(w, c) <==> Owned(v, c) || c == b
  {
    hide Val, TestBit, FreeSet;
    forall c: nat
      ensures Owned(w, c) <==> Owned(v, c) || c == b
    {
      if Owned(v, c) {
        var s :| Live(v, s) && Val(v, s) == c;
        assert Live(w, s) && Val(w, s) == c;
      }
      if Owned(w, c) {
        var s :| Live(w, s) && Val(w, s) == c;
        assert s != s0 ==> Live(v, s) && Val(v, s) == c;
      }
      assert Live(w, s0);
    }
    forall s, t | Live(w, s) && Live(w, t) && Val(w, s) == Val(w, t)
      ensures s == t
    {
      assert s != s0 ==> Live(v, s) && Val(v, s) == Val(w, s);
      assert t != s0 ==> Live(v, t) && Val(v, t) == Val(w, t);
    }
  }

  lemma SetDirectAttached(v: Vol, i: nat, k: nat, b: uint32)
    requires Allocated(v, i) && k < DIRECT_BLOCKS
    requires v.inodes[i].direct[k] == NULL_BLOCK != b
    ensures Attached(v, SetDirect(v, i, k, b), Direct(i, k), b)
  {
    var w := SetDirect(v, i, k, b);
    forall s | s != Direct(i, k)
      ensures Val(w, s) == Val(v, s)
    {
      match s case Direct(_, _) => case Indirect(_) => case Entry(_, _) =>
    }
  }

  lemma SetIndirectAttached(v: Vol, i: nat, b: uint32)
    requires Allocated(v, i) && b < TOTAL_BLOCKS
    requires v.inodes[i].indirect1 == NULL_BLOCK && v.disk[b] == FillBlock(v.fill)
    ensures var w := SetIndirect(v, i, b);
            Attached(v, w, Indirect(i), b) && forall k: nat :: k < PTRS_PER_BLOCK ==> Val(w, Entry(i, k)) == Hole(v)
  {
    forall k: nat | k < PTRS_PER_BLOCK
      ensures PtrAt(v.disk[b], k) == Hole(v)
    {
      PtrAtFillBlock(v.fill, k);
    }
    var w := SetIndirect(v, i, b);
    forall s | s != Indirect(i)
      ensures Val(w, s) == if s.Entry? && s.ino == i && s.k < PTRS_PER_BLOCK then Hole(v) else Val(v, s)
    {
      match s case Direct(_, _) => case Indirect(_) => case Entry(_, _) =>
    }
  }

  lemma SetEntryVals(v: Vol, i: nat, k: nat, b: uint32)
    requires NoAlias(v) && InData(v) && Allocated(v, i) && k < PTRS_PER_BLOCK && v.inodes[i].indirect1 < TOTAL_BLOCKS
    ensures forall s :: Val(SetEntry(v, i, k, b), s) == if s == Entry(i, k) then b else Val(v, s)
  {
    var ib, w := v.inodes[i].indirect1, SetEntry(v, i, k, b);
    forall s
      ensures Val(w, s) == if s == Entry(i, k) then b else Val(v, s)
    {
      assert Live(v, Indirect(i)) && Val(v, Indirect(i)) == ib;
      match s
      case Direct(_, _) =>
      case Indirect(_) =>
      case Entry(j, m) =>
        if Allocated(v, j) && m < PTRS_PER_BLOCK && v.inodes[j].indirect1 == ib {
          assert Live(v, Indirect(j)) && Val(v, Indirect(j)) == ib;
          PtrAtPutPtr(v.disk[ib], k, m, b);
        }
    }
  }

  /** What one mapping may touch: inode i's pointers, and no block a file's data is in. */
  ghost predicate Frame(v: Vol, w: Vol, i: nat) {
    && w.fill == v.fill && w.freeInodes == v.freeInodes
    && FreeSet(w.bits) <= FreeSet(v.bits)
    && (forall s {:trigger Live(v, s)} :: Live(v, s) ==> Live(w, s) && Val(w, s) == Val(v, s))
    && (forall j {:trigger w.inodes[j]} :: 0 <= j < MAX_INODES && j != i ==> w.inodes[j] == v.inodes[j])
    && (i < MAX_INODES ==>
          w.inodes[i] == v.inodes[i].(direct := w.inodes[i].direct, indirect1 := w.inodes[i].indirect1))
    && (forall b {:trigger w.disk[b]} :: 0 <= b < DATA_START ==> w.disk[b] == v.disk[b])
    && (forall s {:trigger Live(v, s)} ::
          Live(v, s) && !s.Indirect? && Val(v, s) < TOTAL_BLOCKS ==> w.disk[Val(v, s)] == v.disk[Val(v, s)])
  }

  /** A successful mapping of logical block l: one new data slot, a zeroed block of its
      own, at most a new pointer block besides, and nothing dropped. */
  ghost predicate MapsTo(v: Vol, w: Vol, i: nat, l: nat, nb: nat) {
    && l < MAX_LOGICAL
    && DATA_START <= nb < TOTAL_BLOCKS && !Owned(v, nb) && w.disk[nb] == FillBlock(0)
    && Live(w, DataSlot(i, l)) && Val(w, DataSlot(i, l)) == nb
    && (forall s {:trigger Live(w, s)} :: Live(w, s) ==> Live(v, s) || s == DataSlot(i, l) || s == Indirect(i))
    && (l < DIRECT_BLOCKS ==>
          && (Live(w, Indirect(i)) <==> Live(v, Indirect(i)))
          && forall j: nat, k: nat {:trigger Val(w, Entry(j, k))} :: Val(w, Entry(j, k)) == Val(v, Entry(j, k)))
    && Leaked(w) == Leaked(v)
    && |FreeSet(w.bits)| == |FreeSet(v.bits)| - 1 - (if l < DIRECT_BLOCKS || Live(v, Indirect(i)) then 0 else 1)
  }

  /** A failed one: no pointer changes, and a block already taken is lost. */
  ghost predicate MapFails(v: Vol, w: Vol) {
    && SameVals(v, w) && w.inodes == v.inodes
    && Leaked(w) == Leaked(v) + (FreeSet(v.bits) - FreeSet(w.bits))
    && |FreeSet(v.bits)| - 1 <= |FreeSet(w.bits)|
  }

  ghost predicate MapRoom(v: Vol, i: nat, l: nat) {
    && l < MAX_LOGICAL
    && |FreeSet(v.bits)| >= (if l < DIRECT_BLOCKS || Live(v, Indirect(i)) then 1 else 2)
  }

  lemma FreeSetTests(bits: seq<bv8>)
    ensures forall b: nat :: b < 8 * |bits| ==> (TestBit(bits, b) <==> b !in FreeSet(bits))
  {
  }

  lemma TakeBlockFrame(v: Vol, f: byte, i: nat)
    requires Sound(v) && TakeBlock(v, f).1 >= 0
    ensures Frame(v, TakeBlock(v, f).0, i) && MapFails(v, TakeBlock(v, f).0)
    ensures |FreeSet(TakeBlock(v, f).0.bits)| == |FreeSet(v.bits)| - 1
  {
    hide Val, PtrAt, FreeSet, TestBit;
    TakeBlockSound(v, f);
    var (w, nb) := TakeBlock(v, f);
    FreeSetTests(v.bits);
    FreeSetTests(w.bits);
    forall s {:trigger Live(v, s)}
      ensures Live(v, s) <==> Live(w, s)
      ensures Live(v, s) ==> Val(v, s) != nb
    {
    }
    assert forall b: nat :: Owned(w, b) <==> Owned(v, b);
    assert Leaked(w) == Leaked(v) + {nb};
    assert FreeSet(v.bits) - FreeSet(w.bits) == {nb};
  }

  lemma FrameTrans(v: Vol, w: Vol, x: Vol, i: nat)
    requires Frame(v, w, i) && Frame(w, x, i)
    ensures Frame(v, x, i)
  {
  }

  lemma DirectStep(v: Vol, i: nat, k: nat, b: nat)
    requires Sound(v) && Allocated(v, i) && k < DIRECT_BLOCKS && v.inodes[i].direct[k] == NULL_BLOCK
    requires !Owned(v, b) && DATA_START <= b < TOTAL_BLOCKS && TestBit(v.bits, b)
    ensures var w := SetDirect(v, i, k, b);
            && Sound(w) && Frame(v, w, i) && Attached(v, w, Direct(i, k), b) && Leaked(w) == Leaked(v) - {b}
            && forall j: nat, m: nat {:trigger Val(w, Entry(j, m))} :: Val(w, Entry(j, m)) == Val(v, Entry(j, m))
  {
    var w := SetDirect(v, i, k, b);
    SetDirectAttached(v, i, k, b);
    assert forall j: nat, m: nat {:trigger Val(w, Entry(j, m))} :: Val(w, Entry(j, m)) == Val(v, Entry(j, m));
    assert forall j: nat {:trigger Val(w, Indirect(j))} :: Val(w, Indirect(j)) == Val(v, Indirect(j));
    AttachedSound(v, w, Direct(i, k), b);
  }

  lemma IndirectStep(v: Vol, i: nat, b: nat)
    requires Sound(v) && Allocated(v, i) && v.inodes[i].indirect1 == NULL_BLOCK
    requires !Owned(v, b) && DATA_START <= b < TOTAL_BLOCKS && TestBit(v.bits, b) && v.disk[b] == FillBlock(v.fill)
    ensures var w := SetIndirect(v, i, b);
            && Sound(w) && Frame(v, w, i) && Attached(v, w, Indirect(i), b) && Leaked(w) == Leaked(v) - {b}
            && (forall k: nat :: k < PTRS_PER_BLOCK ==> Val(w, Entry(i, k)) == Hole(v))
            && (forall c: nat :: Owned(w, c) <==> Owned(v, c) || c == b)
  {
    var w := SetIndirect(v, i, b);
    SetIndirectAttached(v, i, b);
    assert forall j: nat, m: nat {:trigger Val(w, Entry(j, m))} :: j != i ==> Val(w, Entry(j, m)) == Val(v, Entry(j, m));
    assert forall j: nat {:trigger Val(w, Indirect(j))} :: j != i ==> Val(w, Indirect(j)) == Val(v, Indirect(j));
    AttachedSound(v, w, Indirect(i), b);
  }

  lemma EntryStep(v: Vol, i: nat, k: nat, b: nat)
    requires Sound(v) && Allocated(v, i) && k < PTRS_PER_BLOCK && v.inodes[i].indirect1 < TOTAL_BLOCKS
    requires !Live(v, Entry(i, k))
    requires v.fill == 0 ==> forall m: nat :: !Live(v, Entry(i, m))
    requires !Owned(v, b) && DATA_START <= b < TOTAL_BLOCKS && TestBit(v.bits, b)
    ensures var w := SetEntry(v, i, k, b);
            && Sound(w) && Frame(v, w, i) && Attached(v, w, Entry(i, k), b) && Leaked(w) == Leaked(v) - {b}
            && w.disk[b] == v.disk[b]
  {
    var ib, w := v.inodes[i].indirect1, SetEntry(v, i, k, b);
    SetEntryVals(v, i, k, b);
    assert Attached(v, w, Entry(i, k), b);
    assert Live(v, Indirect(i)) && Val(v, Indirect(i)) == ib;
    AttachedSound(v, w, Entry(i, k), b);
  }

  /** The volume just after block nb was taken: nobody owns it yet. */
  ghost predicate Taken(v: Vol, t: Vol, i: nat, nb: nat, f: byte) {
    && Sound(t) && Frame(v, t, i) && MapFails(v, t)
    && DATA_START <= nb < TOTAL_BLOCKS && !Owned(v, nb) && !Owned(t, nb) && TestBit(t.bits, nb)
    && nb in FreeSet(v.bits) && nb !in FreeSet(t.bits)
    && t.disk[nb] == FillBlock(f)
    && Leaked(t) == Leaked(v) + {nb} && nb !in Leaked(v)
    && |FreeSet(t.bits)| == |FreeSet(v.bits)| - 1
    && (forall s {:trigger Live(t, s)} {:trigger Live(v, s)} :: Live(t, s) <==> Live(v, s))
  }

  lemma TakeBlockTaken(v: Vol, f: byte, i: nat)
    requires Sound(v)
    ensures TakeBlock(v, f).1 < 0 <==> FreeSet(v.bits) == {}
    ensures TakeBlock(v, f).1 >= 0 ==> Taken(v, TakeBlock(v, f).0, i, TakeBlock(v, f).1, f)
  {
    TakeBlockSound(v, f);
    if TakeBlock(v, f).1 >= 0 {
      TakeBlockFrame(v, f, i);
    }
  }

  lemma MapDirect(v: Vol, t: Vol, i: nat, l: uint32, nb: nat)
    requires Sound(v) && Allocated(v, i) && l < DIRECT_BLOCKS && GetBlock(v, i, l) == NULL_BLOCK
    requires Taken(v, t, i, nb, 0)
    ensures var w := SetDirect(t, i, l, nb);
            Sound(w) && Frame(v, w, i) && MapsTo(v, w, i, l, nb)
  {
    DirectStep(t, i, l, nb);
    FrameTrans(v, t, SetDirect(t, i, l, nb), i);
  }

  lemma MapEntry(v: Vol, u: Vol, i: nat, l: uint32, nb: nat)
    requires Sound(v) && Allocated(v, i) && DIRECT_BLOCKS <= l < MAX_LOGICAL
    requires Sound(u) && Allocated(u, i) && u.inodes[i].indirect1 < TOTAL_BLOCKS
    requires Frame(v, u, i)
    requires forall s {:trigger Live(u, s)} :: Live(u, s) ==> Live(v, s) || s == Indirect(i)
    requires !Live(u, DataSlot(i, l)) && (v.fill == 0 ==> forall m: nat :: !Live(u, Entry(i, m)))
    requires !Owned(v, nb) && !Owned(u, nb) && DATA_START <= nb < TOTAL_BLOCKS && TestBit(u.bits, nb)
    requires u.disk[nb] == FillBlock(0) && Leaked(u) == Leaked(v) + {nb} && nb !in Leaked(v)
    requires |FreeSet(u.bits)| == |FreeSet(v.bits)| - 1 - (if Live(v, Indirect(i)) then 0 else 1)
    ensures var w := SetEntry(u, i, l - DIRECT_BLOCKS, nb);
            Sound(w) && Frame(v, w, i) && MapsTo(v, w, i, l, nb)
  {
    EntryStep(u, i, l - DIRECT_BLOCKS, nb);
    FrameTrans(v, u, SetEntry(u, i, l - DIRECT_BLOCKS, nb), i);
  }

  lemma MapOldIndirect(v: Vol, t: Vol, i: nat, l: uint32, nb: nat)
    requires Sound(v) && Allocated(v, i) && DIRECT_BLOCKS <= l < MAX_LOGICAL && GetBlock(v, i, l) == NULL_BLOCK
    requires Taken(v, t, i, nb, 0) && v.inodes[i].indirect1 != NULL_BLOCK
    ensures t.inodes[i].indirect1 < TOTAL_BLOCKS && Live(v, Indirect(i))
    ensures var w := SetEntry(t, i, l - DIRECT_BLOCKS, nb);
            Sound(w) && Frame(v, w, i) && MapsTo(v, w, i, l, nb)
  {
    assert Live(v, Indirect(i)) && Val(t, Indirect(i)) < TOTAL_BLOCKS;
    assert Val(v, Entry(i, l - DIRECT_BLOCKS)) == NULL_BLOCK;
    assert v.fill != 0;
    MapEntry(v, t, i, l, nb);
  }

  lemma MapNewIndirect(v: Vol, t: Vol, q: Vol, i: nat, l: uint32, nb: nat, ib: nat)
    requires Sound(v) && Allocated(v, i) && DIRECT_BLOCKS <= l < MAX_LOGICAL
    requires Taken(v, t, i, nb, 0) && v.inodes[i].indirect1 == NULL_BLOCK
    requires Taken(t, q, i, ib, v.fill) && q.disk[nb] == FillBlock(0)
    ensures var w := SetEntry(SetIndirect(q, i, ib), i, l - DIRECT_BLOCKS, nb);
            Sound(w) && Frame(v, w, i) && MapsTo(v, w, i, l, nb)
  {
    var u := SetIndirect(q, i, ib);
    IndirectStep(q, i, ib);
    FrameTrans(v, t, q, i);
    FrameTrans(v, q, u, i);
    assert nb !in FreeSet(u.bits);
    assert !Live(v, Indirect(i));
    assert forall s {:trigger Live(u, s)} :: Live(u, s) ==> Live(q, s) || s == Indirect(i);
    assert !Owned(q, nb);
    assert Leaked(u) == Leaked(v) + {nb};
    MapEntry(v, u, i, l, nb);
  }

  ghost predicate MapOutcome(v: Vol, i: nat, l: nat, w: Vol, nb: int) {
    && Sound(w) && Frame(v, w, i) && (nb >= 0 <==> MapRoom(v, i, l))
    && if nb >= 0 then MapsTo(v, w, i, l, nb) else MapFails(v, w)
  }

  lemma TakeBlockDisk(v: Vol, f: byte, b: nat)
    requires b < TOTAL_BLOCKS && b != TakeBlock(v, f).1
    ensures TakeBlock(v, f).0.disk[b] == v.disk[b]
  {
  }

  lemma NoIndirect(v: Vol, i: nat)
    requires i < MAX_INODES && v.inodes[i].indirect1 == NULL_BLOCK
    ensures !Live(v, Indirect(i))
  {
  }

  lemma MapBlockNew(v: Vol, t: Vol, i: nat, l: uint32, nb: nat)
    requires Sound(v) && Allocated(v, i) && DIRECT_BLOCKS <= l < MAX_LOGICAL
    requires v.inodes[i].indirect1 == NULL_BLOCK
    requires TakeBlock(v, 0) == (t, nb) && Taken(v, t, i, nb, 0)
    ensures MapOutcome(v, i, l, MapBlock(v, i, l).0, MapBlock(v, i, l).1)
  {
    hide Val, Live, Sound, Leaked, FreeSet, Owned, TakeBlock, FillBlock, SameVals;
    NoIndirect(v, i);
    TakeBlockTaken(t, v.fill, i);
    var (q, ib) := TakeBlock(t, v.fill);
    if ib < 0 {
      assert |FreeSet(t.bits)| == 0;
      assert MapBlock(v, i, l) == (t, -1);
    } else {
      assert ib != nb;
      TakeBlockDisk(t, v.fill, nb);
      MapNewIndirect(v, t, q, i, l, nb, ib);
      var w := SetEntry(SetIndirect(q, i, ib), i, l - DIRECT_BLOCKS, nb);
      assert MapBlock(v, i, l) == (w, nb);
      assert MapRoom(v, i, l) by {
        assert |FreeSet(q.bits)| == |FreeSet(v.bits)| - 2;
      }
    }
  }

  lemma MapBlockHigh(v: Vol, t: Vol, i: nat, l: uint32, nb: nat)
    requires Sound(v) && Allocated(v, i) && DIRECT_BLOCKS <= l && GetBlock(v, i, l) == NULL_BLOCK
    requires TakeBlock(v, 0) == (t, nb) && Taken(v, t, i, nb, 0)
    ensures MapOutcome(v, i, l, MapBlock(v, i, l).0, MapBlock(v, i, l).1)
  {
    if l >= MAX_LOGICAL {
      assert MapBlock(v, i, l) == (t, -1);
    } else if v.inodes[i].indirect1 != NULL_BLOCK {
      MapOldIndirect(v, t, i, l, nb);
      assert MapBlock(v, i, l) == (SetEntry(t, i, l - DIRECT_BLOCKS, nb), nb);
    } else {
      MapBlockNew(v, t, i, l, nb);
    }
  }

  /** One call of inode_map_block on an unmapped block: it succeeds exactly when there is
      room, owns exactly what it says, and is sound even when it fails. */
  lemma MapBlockSound(v: Vol, i: nat, l: uint32)
    requires Sound(v) && Allocated(v, i) && GetBlock(v, i, l) == NULL_BLOCK
    ensures MapOutcome(v, i, l, MapBlock(v, i, l).0, MapBlock(v, i, l).1)
  {
    TakeBlockTaken(v, 0, i);
    var (t, nb) := TakeBlock(v, 0);
    if nb < 0 {
      assert MapBlock(v, i, l) == (v, -1);
      assert |FreeSet(v.bits)| == 0;
    } else if l < DIRECT_BLOCKS {
      MapDirect(v, t, i, l, nb);
      assert MapBlock(v, i, l) == (SetDirect(t, i, l, nb), nb);
    } else {
      MapBlockHigh(v, t, i, l, nb);
    }
  }

  /** The block a mapping took is lost if and only if it was refused with a block to spare:
      out of range, or with one block left where two were needed. */
  lemma MapLeaksIff(v: Vol, i: nat, l: uint32)
    requires Sound(v) && Allocated(v, i) && GetBlock(v, i, l) == NULL_BLOCK
    ensures Leaked(MapBlock(v, i, l).0) == Leaked(v) <==> MapRoom(v, i, l) || FreeSet(v.bits) == {}
  {
    MapBlockSound(v, i, l);
    TakeBlockTaken(v, 0, i);
    var t := TakeBlock(v, 0).0;
    if !MapRoom(v, i, l) && FreeSet(v.bits) != {} {
      TakeBlockTaken(t, v.fill, i);
      SomeFree(v);
      hide Val, Live, Sound, FreeSet, Owned, TakeBlock, Leaked, SameVals, Frame;
      assert MapBlock(v, i, l) == (t, -1);
    }
  }

  lemma SomeFree(v: Vol)
    ensures FreeSet(v.bits) != {} ==> |FreeSet(v.bits)| > 0
  {
  }

  lemma LeakedSame(v: Vol, w: Vol)
    requires SameVals(v, w) && w.bits == v.bits && w.fill == v.fill
    ensures Leaked(w) == Leaked(v)
  {
    assert forall s :: Live(w, s) <==> Live(v, s);
    hide Val, TestBit;
    assert forall b: nat :: Owned(w, b) <==> Owned(v, b);
  }
}
