/** The tiered allocator and the extent map of idkfs_vfs.c, with the cursors mkfs_idkfs.c
    starts from and the check tools/idkfs_fsck.c makes. */
module Extents {
  import opened Machine

  const MAX_EXTENTS: nat := 15

  datatype Tier = Fast | Normal | Slow

  datatype Super = Super(free: uint64, fast: uint64, normal: uint64, slow: uint64, total: uint64) {
    function Cursor(t: Tier): uint64 {
      match t case Fast => fast case Normal => normal case Slow => slow
    }

    function Bump(t: Tier): Super {
      var next := (Cursor(t) + 1) % TWO_64;
      match t
      case Fast => this.(fast := next)
      case Normal => this.(normal := next)
      case Slow => this.(slow := next)
    }
  }

  /** idkfs_alloc_tiered: the block, or 0 when none is free. */
  function Alloc(sb: Super, t: Tier): (Super, uint64) {
    if sb.free == 0 then (sb, 0) else (sb.Bump(t).(free := sb.free - 1), sb.Cursor(t))
  }

  /** The counters as idkfs_fsck accepts them. */
  predicate Fsck(sb: Super) {
    sb.free <= sb.total && sb.fast <= sb.normal <= sb.slow <= sb.total
  }

  /** One allocation keeps what fsck checks if and only if its cursor has not caught up with
      the next one. */
  lemma AllocFsckIff(sb: Super, t: Tier)
    requires Fsck(sb) && sb.free > 0 && sb.total < LAST
    ensures Fsck(Alloc(sb, t).0) <==>
            match t case Fast => sb.fast < sb.normal case Normal => sb.normal < sb.slow case Slow => sb.slow < sb.total
  {
    assert Alloc(sb, t).0.Cursor(t) == sb.Cursor(t) + 1;
  }

  // ----- Runs of allocations -----

  /** The superblock after a run of requests, and the blocks handed out with their tiers. */
  function AllocAll(sb: Super, ts: seq<Tier>): (Super, seq<(Tier, uint64)>)
    decreases |ts|
  {
    if ts == [] then (sb, [])
    else
      var one := Alloc(sb, ts[0]);
      var rest := AllocAll(one.0, ts[1..]);
      (rest.0, (if sb.free == 0 then [] else [(ts[0], one.1)]) + rest.1)
  }

  /** No cursor can wrap before the free blocks run out. */
  predicate Bounded(sb: Super) {
    forall t: Tier :: sb.Cursor(t) + sb.free < TWO_64
  }

  lemma FsckBounded(sb: Super)
    requires Fsck(sb) && sb.total < 0x8000_0000_0000_0000
    ensures Bounded(sb)
  {
  }

  ghost predicate Distinct(got: seq<(Tier, uint64)>) {
    forall i, j :: 0 <= i < j < |got| ==> got[i].1 != got[j].1
  }

  /** The blocks a tier's cursor passed over between two superblocks. */
  ghost predicate Passed(was: Super, now: Super, t: Tier, b: int) {
    was.Cursor(t) <= b < now.Cursor(t)
  }

  /** Two tiers handed out a common block. */
  predicate Overlap(was: Super, now: Super, t: Tier, u: Tier) {
    && was.Cursor(t) < now.Cursor(u) && was.Cursor(u) < now.Cursor(t)
    && was.Cursor(t) < now.Cursor(t) && was.Cursor(u) < now.Cursor(u)
  }

  lemma AllocStep(sb: Super, t: Tier)
    requires Bounded(sb) && sb.free > 0
    ensures var one := Alloc(sb, t).0;
            && Bounded(one) && one.free == sb.free - 1 && one.total == sb.total
            && Alloc(sb, t).1 == sb.Cursor(t)
            && forall u: Tier :: one.Cursor(u) == sb.Cursor(u) + if u == t then 1 else 0
  {
    assert sb.Cursor(t) + sb.free < TWO_64;
    assert Alloc(sb, t).0 == sb.Bump(t).(free := sb.free - 1);
    forall u: Tier ensures Alloc(sb, t).0.Cursor(u) == sb.Cursor(u) + if u == t then 1 else 0 {
      assert sb.Cursor(u) + sb.free < TWO_64;
    }
  }

  lemma AllocAllStep(sb: Super, ts: seq<Tier>)
    requires ts != []
    ensures var one, rest := Alloc(sb, ts[0]), AllocAll(Alloc(sb, ts[0]).0, ts[1..]);
            AllocAll(sb, ts) == (rest.0, if sb.free == 0 then rest.1 else [(ts[0], one.1)] + rest.1)
  {
    var rest := AllocAll(Alloc(sb, ts[0]).0, ts[1..]);
    assert [] + rest.1 == rest.1;
  }

  /** A run hands out, for each tier, exactly the blocks its cursor passes, each once, and
      takes that many off the free count. */
  lemma {:induction false} AllocAllPasses(sb: Super, ts: seq<Tier>)
    requires Bounded(sb)
    ensures var (now, got) := AllocAll(sb, ts);
            && Bounded(now) && now.free + |got| == sb.free && now.total == sb.total
            && (forall t: Tier :: sb.Cursor(t) <= now.Cursor(t))
    ensures var (now, got) := AllocAll(sb, ts);
            forall i :: 0 <= i < |got| ==> Passed(sb, now, got[i].0, got[i].1)
    ensures var (now, got) := AllocAll(sb, ts);
            forall t: Tier, b: uint64 :: Passed(sb, now, t, b) ==> (t, b) in got
    ensures var (now, got) := AllocAll(sb, ts);
            forall i, j :: 0 <= i < j < |got| ==> got[i] != got[j]
    decreases |ts|
  {
    if ts != [] {
      AllocAllStep(sb, ts);
      if sb.free == 0 {
        AllocAllPasses(sb, ts[1..]);
      } else {
        var one := Alloc(sb, ts[0]).0;
        AllocStep(sb, ts[0]);
        AllocAllPasses(one, ts[1..]);
        var (now, rest) := AllocAll(one, ts[1..]);
        hide AllocAll, Alloc, Bounded;
        PassedOneMore(sb, one, now, ts[0], rest);
      }
    }
  }

  lemma PassedOneMore(sb: Super, one: Super, now: Super, t: Tier, rest: seq<(Tier, uint64)>)
    requires forall u: Tier :: one.Cursor(u) == sb.Cursor(u) + if u == t then 1 else 0
    requires forall u: Tier :: one.Cursor(u) <= now.Cursor(u)
    requires forall i :: 0 <= i < |rest| ==> Passed(one, now, rest[i].0, rest[i].1)
    requires forall u: Tier, b: uint64 :: Passed(one, now, u, b) ==> (u, b) in rest
    requires forall i, j :: 0 <= i < j < |rest| ==> rest[i] != rest[j]
    ensures forall u: Tier :: sb.Cursor(u) <= now.Cursor(u)
    ensures var got := [(t, sb.Cursor(t))] + rest;
            && (forall i :: 0 <= i < |got| ==> Passed(sb, now, got[i].0, got[i].1))
            && (forall u: Tier, b: uint64 :: Passed(sb, now, u, b) ==> (u, b) in got)
            && (forall i, j :: 0 <= i < j < |got| ==> got[i] != got[j])
  {
    var got := [(t, sb.Cursor(t))] + rest;
    forall u: Tier ensures sb.Cursor(u) <= now.Cursor(u) {
      assert one.Cursor(u) <= now.Cursor(u);
    }
    forall u: Tier, b: uint64 | Passed(sb, now, u, b) ensures (u, b) in got {
      if (u, b) != got[0] {
        assert Passed(one, now, u, b);
      }
    }
    forall i | 0 <= i < |got| ensures Passed(sb, now, got[i].0, got[i].1) {
      if i > 0 {
        assert got[i] == rest[i - 1];
        assert Passed(one, now, rest[i - 1].0, rest[i - 1].1);
      } else {
        assert one.Cursor(t) <= now.Cursor(t);
      }
    }
    forall i, j | 0 <= i < j < |got| ensures got[i] != got[j] {
      assert got[j] == rest[j - 1];
      if i == 0 {
        assert Passed(one, now, rest[j - 1].0, rest[j - 1].1);
      } else {
        assert got[i] == rest[i - 1];
      }
    }
  }

  /** Requests for one tier. */
  function Requests(ts: seq<Tier>, t: Tier): nat
    decreases |ts|
  {
    if ts == [] then 0 else (if ts[0] == t then 1 else 0) + Requests(ts[1..], t)
  }

  /** The requests that get a block: as many of the first as blocks are free. */
  function Granted(sb: Super, ts: seq<Tier>): seq<Tier> {
    ts[..Min(|ts|, sb.free)]
  }

  /** A run moves each cursor by the number of its tier's granted requests. */
  lemma {:induction false} CursorAdvances(sb: Super, ts: seq<Tier>, t: Tier)
    requires Bounded(sb)
    ensures AllocAll(sb, ts).0.Cursor(t) == sb.Cursor(t) + Requests(Granted(sb, ts), t)
    decreases |ts|
  {
    if ts != [] {
      AllocAllStep(sb, ts);
      if sb.free == 0 {
        CursorAdvances(sb, ts[1..], t);
      } else {
        var one := Alloc(sb, ts[0]).0;
        AllocStep(sb, ts[0]);
        CursorAdvances(one, ts[1..], t);
        assert Granted(sb, ts)[1..] == Granted(one, ts[1..]);
      }
    }
  }

  /** Where a tier's cursor will stand after a run's granted requests. */
  function Reach(sb: Super, ts: seq<Tier>, t: Tier): nat {
    sb.Cursor(t) + Requests(Granted(sb, ts), t)
  }

  /** Two tiers are asked for so many blocks that one runs into the other. */
  predicate Collide(sb: Super, ts: seq<Tier>, t: Tier, u: Tier) {
    && sb.Cursor(t) < Reach(sb, ts, t) && sb.Cursor(u) < Reach(sb, ts, u)
    && sb.Cursor(t) < Reach(sb, ts, u) && sb.Cursor(u) < Reach(sb, ts, t)
  }

  lemma CollideIsOverlap(sb: Super, ts: seq<Tier>)
    requires Bounded(sb)
    ensures forall t: Tier, u: Tier :: Collide(sb, ts, t, u) <==> Overlap(sb, AllocAll(sb, ts).0, t, u)
  {
    hide AllocAll, Bounded, Requests;
    forall t: Tier
      ensures AllocAll(sb, ts).0.Cursor(t) == Reach(sb, ts, t)
    {
      CursorAdvances(sb, ts, t);
    }
  }

  /** The blocks of a run are pairwise distinct if and only if the numbers of blocks asked of
      the tiers, as far as blocks are free, run no tier into another. */
  lemma DistinctIff(sb: Super, ts: seq<Tier>)
    requires Bounded(sb)
    ensures Distinct(AllocAll(sb, ts).1) <==>
            !Collide(sb, ts, Fast, Normal) && !Collide(sb, ts, Normal, Slow) && !Collide(sb, ts, Fast, Slow)
  {
    hide AllocAll, Bounded, Collide, Reach;
    var (now, got) := AllocAll(sb, ts);
    CollideIsOverlap(sb, ts);
    AllocAllPasses(sb, ts);
    if !Distinct(got) {
      var i, j :| 0 <= i < j < |got| && got[i].1 == got[j].1;
      assert Overlap(sb, now, got[i].0, got[j].0) && Overlap(sb, now, got[j].0, got[i].0);
      assert got[i].0 != got[j].0;
    }
    if t: Tier, u: Tier :| t != u && Overlap(sb, now, t, u) {
      SharedBlock(sb, ts, t, u);
    }
  }

  lemma SharedBlock(sb: Super, ts: seq<Tier>, t: Tier, u: Tier)
    requires Bounded(sb) && t != u && Overlap(sb, AllocAll(sb, ts).0, t, u)
    ensures !Distinct(AllocAll(sb, ts).1)
  {
    hide AllocAll, Bounded;
    var (now, got) := AllocAll(sb, ts);
    AllocAllPasses(sb, ts);
    var b := if sb.Cursor(t) < sb.Cursor(u) then sb.Cursor(u) else sb.Cursor(t);
    assert Passed(sb, now, t, b) && Passed(sb, now, u, b);
    var i :| 0 <= i < |got| && got[i] == (t, b);
    var j :| 0 <= j < |got| && got[j] == (u, b);
  }

  /** fsck cannot see a double allocation: after these three its check still holds. */
  lemma FsckMissesOverlap()
    ensures var sb := Super(10, 9, 10, 20, 30);
            var (now, got) := AllocAll(sb, [Normal, Fast, Fast]);
            Fsck(sb) && Fsck(now) && !Distinct(got) && got[0].1 == got[2].1
  {
    var sb := Super(10, 9, 10, 20, 30);
    var s1, s2, now := Super(9, 9, 11, 20, 30), Super(8, 10, 11, 20, 30), Super(7, 11, 11, 20, 30);
    assert Alloc(sb, Normal) == (s1, 10) && Alloc(s1, Fast) == (s2, 9) && Alloc(s2, Fast) == (now, 10);
    AllocAllStep(s2, [Fast]);
    AllocAllStep(s1, [Fast, Fast]);
    AllocAllStep(sb, [Normal, Fast, Fast]);
    assert [Normal, Fast, Fast][1..] == [Fast, Fast] && [Fast, Fast][1..] == [Fast] && [Fast][1..] == [];
  }

  /** While no tier is asked for more than lies before the next, fsck's order still holds. */
  lemma ZonesKeepFsck(sb: Super, ts: seq<Tier>)
    requires Fsck(sb) && Bounded(sb)
    requires Reach(sb, ts, Fast) <= sb.normal && Reach(sb, ts, Normal) <= sb.slow && Reach(sb, ts, Slow) <= sb.total
    ensures Fsck(AllocAll(sb, ts).0) && Distinct(AllocAll(sb, ts).1)
  {
    hide AllocAll, Bounded, Distinct, Passed, Requests, Granted;
    AllocAllPasses(sb, ts);
    DistinctIff(sb, ts);
    CursorAdvances(sb, ts, Fast);
    CursorAdvances(sb, ts, Normal);
    CursorAdvances(sb, ts, Slow);
    var now := AllocAll(sb, ts).0;
    assert now.Cursor(Fast) == now.fast && now.Cursor(Normal) == now.normal && now.Cursor(Slow) == now.slow;
    assert sb.Cursor(Fast) == sb.fast && sb.Cursor(Normal) == sb.normal && sb.Cursor(Slow) == sb.slow;
  }

  // ----- The extents of an inode -----

  datatype Extent = Extent(logical: uint64, physical: uint64, len: uint32)

  /** The test as written: the end of the range wraps. */
  predicate Covers(e: Extent, iblock: uint64) {
    e.logical <= iblock < (e.logical + e.len) % TWO_64
  }

  function Target(e: Extent, iblock: uint64): uint64
    requires Covers(e, iblock)
  {
    (e.physical + iblock - e.logical) % TWO_64
  }

  /** The scan from extent i on. */
  function Lookup(es: seq<Extent>, iblock: uint64): Option<uint64>
    decreases |es|
  {
    if es == [] then None
    else if Covers(es[0], iblock) then Some(Target(es[0], iblock))
    else Lookup(es[1..], iblock)
  }

  /** The first unused slot takes the new extent; with none left nothing is recorded. */
  function Record(es: seq<Extent>, e: Extent): (r: seq<Extent>)
    ensures |r| == |es|
    decreases |es|
  {
    if es == [] then []
    else if es[0].len == 0 then [e] + es[1..]
    else [es[0]] + Record(es[1..], e)
  }

  lemma {:induction false} RecordAtSlot(es: seq<Extent>, e: Extent, i: nat)
    requires i <= |es| && (i < |es| ==> es[i].len == 0) && forall j :: 0 <= j < i ==> es[j].len != 0
    ensures Record(es, e) == if i < |es| then es[i := e] else es
    decreases |es|
  {
    if i > 0 {
      RecordAtSlot(es[1..], e, i - 1);
      assert es == [es[0]] + es[1..];
    }
  }

  datatype Answer = Unmapped | NoSpace | Mapped(block: uint64, isNew: bool)

  /** idkfs_get_block. */
  function GetBlock(sb: Super, es: seq<Extent>, t: Tier, iblock: uint64, create: bool): (Super, seq<Extent>, Answer) {
    match Lookup(es, iblock)
    case Some(p) => (sb, es, Mapped(p, false))
    case None =>
      if !create then (sb, es, Unmapped)
      else
        var a := Alloc(sb, t);
        if a.1 == 0 then (a.0, es, NoSpace)
        else (a.0, Record(es, Extent(iblock, a.1, 1)), Mapped(a.1, true))
  }

  predicate HasSlot(es: seq<Extent>) {
    exists i :: 0 <= i < |es| && es[i].len == 0
  }

  const LAST: uint64 := 0xFFFF_FFFF_FFFF_FFFF

  /** A recorded extent is found for its own block and changes no other lookup. The very last
      block of the 64-bit range is never found: the end of its extent wraps to 0. */
  lemma {:induction false} RecordLookup(es: seq<Extent>, iblock: uint64, p: uint64, k: uint64)
    requires Lookup(es, iblock) == None
    ensures Lookup(Record(es, Extent(iblock, p, 1)), k)
         == if k == iblock && HasSlot(es) && iblock != LAST then Some(p) else Lookup(es, k)
    decreases |es|
  {
    if es != [] {
      var e := Extent(iblock, p, 1);
      var r := Record(es, e);
      if es[0].len == 0 {
        assert HasSlot(es);
        assert r[1..] == es[1..];
      } else {
        assert r[1..] == Record(es[1..], e);
        RecordLookup(es[1..], iblock, p, k);
        SlotTail(es);
      }
    }
  }

  lemma SlotTail(es: seq<Extent>)
    requires es != [] && es[0].len != 0
    ensures HasSlot(es) == HasSlot(es[1..])
  {
    if HasSlot(es) {
      var i :| 0 <= i < |es| && es[i].len == 0;
      assert es[1..][i - 1].len == 0;
    }
    if HasSlot(es[1..]) {
      var i :| 0 <= i < |es[1..]| && es[1..][i].len == 0;
      assert es[i + 1].len == 0;
    }
  }

  /** Every call answers later calls the same way: mappings that exist never change, and the
      one made now is found again if and only if a slot was free. */
  lemma GetBlockMaps(sb: Super, es: seq<Extent>, t: Tier, iblock: uint64, create: bool, k: uint64)
    ensures var (sb', es', a) := GetBlock(sb, es, t, iblock, create);
            && (Lookup(es, k).Some? ==> Lookup(es', k) == Lookup(es, k))
            && (k != iblock ==> Lookup(es', k) == Lookup(es, k))
            && (a.Mapped? && a.isNew ==>
                  (Lookup(es', iblock) == Some(a.block) <==> HasSlot(es) && iblock != LAST))
            && (a.Mapped? && !a.isNew ==> Lookup(es, iblock) == Some(a.block))
            && (a == NoSpace ==> es' == es)
  {
    if Lookup(es, iblock) == None && create {
      var p := Alloc(sb, t).1;
      RecordLookup(es, iblock, p, k);
      RecordLookup(es, iblock, p, iblock);
    }
  }

  // ----- What a call answers -----

  /** Extent e holds block k: the end of its range is cut to 64 bits. */
  predicate Holds(e: Extent, k: uint64) {
    e.logical <= k < (e.logical + e.len) % 0x1_0000_0000_0000_0000
  }

  lemma {:induction false} LookupFirst(es: seq<Extent>, k: uint64, i: nat)
    requires i < |es| && Holds(es[i], k) && forall j :: 0 <= j < i ==> !Holds(es[j], k)
    ensures Lookup(es, k) == Some((es[i].physical + k - es[i].logical) % 0x1_0000_0000_0000_0000)
    decreases |es|
  {
    if i > 0 {
      assert !Holds(es[0], k);
      assert forall j :: 0 <= j < i - 1 ==> es[1..][j] == es[j + 1];
      LookupFirst(es[1..], k, i - 1);
    }
  }

  /** A block some extent holds: as far into the first such extent's blocks as into its
      range, and nothing changes. */
  lemma HeldAnswer(sb: Super, es: seq<Extent>, t: Tier, iblock: uint64, create: bool, i: nat)
    requires i < |es| && Holds(es[i], iblock) && forall j :: 0 <= j < i ==> !Holds(es[j], iblock)
    ensures GetBlock(sb, es, t, iblock, create)
         == (sb, es, Mapped((es[i].physical + iblock - es[i].logical) % 0x1_0000_0000_0000_0000, false))
  {
    LookupFirst(es, iblock, i);
  }

  /** The superblock after one block of tier t is handed out. */
  function Advanced(sb: Super, t: Tier): Super
    requires sb.free > 0
  {
    match t
    case Fast => sb.(free := sb.free - 1, fast := (sb.fast + 1) % 0x1_0000_0000_0000_0000)
    case Normal => sb.(free := sb.free - 1, normal := (sb.normal + 1) % 0x1_0000_0000_0000_0000)
    case Slow => sb.(free := sb.free - 1, slow := (sb.slow + 1) % 0x1_0000_0000_0000_0000)
  }

  function CursorOf(sb: Super, t: Tier): uint64 {
    match t case Fast => sb.fast case Normal => sb.normal case Slow => sb.slow
  }

  /** A block no extent holds: unmapped unless one is to be made; no space if none is free;
      else the tier's cursor as it was before the call, whether an extent is left to record
      it in or not. The first unused extent records it. A cursor at 0 cannot be told from no
      space: the block is spent and ENOSPC answered. */
  lemma NewAnswer(sb: Super, es: seq<Extent>, t: Tier, iblock: uint64, create: bool)
    requires forall i :: 0 <= i < |es| ==> !Holds(es[i], iblock)
    ensures var (sb', es', a) := GetBlock(sb, es, t, iblock, create);
            && (!create ==> (sb', es', a) == (sb, es, Unmapped))
            && (create && sb.free == 0 ==> (sb', es', a) == (sb, es, NoSpace))
            && (create && sb.free > 0 ==> sb' == Advanced(sb, t))
            && (create && sb.free > 0 && CursorOf(sb, t) == 0 ==> es' == es && a == NoSpace)
            && (create && sb.free > 0 && CursorOf(sb, t) != 0 ==>
                  && a == Mapped(CursorOf(sb, t), true)
                  && (forall i :: 0 <= i < |es| && es[i].len == 0 && (forall j :: 0 <= j < i ==> es[j].len != 0) ==>
                        es' == es[i := Extent(iblock, CursorOf(sb, t), 1)])
                  && ((forall i :: 0 <= i < |es| ==> es[i].len != 0) ==> es' == es))
  {
    LookupNoneIff(es, iblock);
    var e := Extent(iblock, CursorOf(sb, t), 1);
    forall i | 0 <= i < |es| && es[i].len == 0 && (forall j :: 0 <= j < i ==> es[j].len != 0)
      ensures Record(es, e) == es[i := e]
    {
      RecordAtSlot(es, e, i);
    }
    if forall i :: 0 <= i < |es| ==> es[i].len != 0 {
      RecordAtSlot(es, e, |es|);
    }
  }

  /** No logical block is in two extents. */
  ghost predicate Disjoint(es: seq<Extent>) {
    forall i, j, k: uint64 {:trigger Covers(es[i], k), Covers(es[j], k)} ::
      0 <= i < j < |es| ==> !(Covers(es[i], k) && Covers(es[j], k))
  }

  lemma {:induction false} LookupNoneIff(es: seq<Extent>, k: uint64)
    ensures Lookup(es, k) == None <==> forall i :: 0 <= i < |es| ==> !Covers(es[i], k)
    decreases |es|
  {
    if es != [] {
      LookupNoneIff(es[1..], k);
      assert forall i :: 0 < i < |es| ==> es[i] == es[1..][i - 1];
    }
  }

  /** In disjoint extents the first match is the only one. */
  lemma {:induction false} OnlyMatch(es: seq<Extent>, i: nat, k: uint64)
    requires Disjoint(es) && i < |es| && Covers(es[i], k)
    ensures Lookup(es, k) == Some(Target(es[i], k))
    decreases |es|
  {
    if i > 0 {
      var rest := es[1..];
      assert rest[i - 1] == es[i];
      assert forall a, b :: 0 <= a < b < |rest| ==> rest[a] == es[a + 1] && rest[b] == es[b + 1];
      OnlyMatch(rest, i - 1, k);
      assert !Covers(es[0], k);
    }
  }

  lemma {:induction false} RecordAt(es: seq<Extent>, e: Extent, i: nat)
    requires i < |es|
    ensures Record(es, e)[i] == es[i] || (Record(es, e)[i] == e && es[i].len == 0)
    ensures forall j :: 0 <= j < i && Record(es, e)[i] != es[i] ==> Record(es, e)[j] == es[j]
    decreases |es|
  {
    if i > 0 && es[0].len != 0 {
      RecordAt(es[1..], e, i - 1);
      assert forall j :: 0 < j < |es| ==> es[j] == es[1..][j - 1] && Record(es, e)[j] == Record(es[1..], e)[j - 1];
    }
  }

  /** idkfs_get_block keeps the extents disjoint. */
  lemma GetBlockDisjoint(sb: Super, es: seq<Extent>, t: Tier, iblock: uint64, create: bool)
    requires Disjoint(es)
    ensures Disjoint(GetBlock(sb, es, t, iblock, create).1)
  {
    var e := Extent(iblock, Alloc(sb, t).1, 1);
    var r := Record(es, e);
    if Lookup(es, iblock) == None {
      LookupNoneIff(es, iblock);
      forall i, j, k: uint64 | 0 <= i < j < |r| ensures !(Covers(r[i], k) && Covers(r[j], k)) {
        RecordAt(es, e, i);
        RecordAt(es, e, j);
        assert Covers(e, k) ==> k == iblock;
        assert !(Covers(es[i], k) && Covers(es[j], k));
      }
    }
  }

  // ----- Runs over all inodes -----

  datatype Inode = Inode(tier: Tier, extents: seq<Extent>)
  datatype Volume = Volume(sb: Super, inodes: seq<Inode>)
  datatype Call = Call(ino: nat, iblock: uint64, create: bool)

  function Step(v: Volume, c: Call): Volume
    requires c.ino < |v.inodes|
  {
    var n := v.inodes[c.ino];
    var r := GetBlock(v.sb, n.extents, n.tier, c.iblock, c.create);
    Volume(r.0, v.inodes[c.ino := n.(extents := r.1)])
  }

  ghost predicate Calls(cs: seq<Call>, inodes: nat) {
    forall i :: 0 <= i < |cs| ==> cs[i].ino < inodes
  }

  function Run(v: Volume, cs: seq<Call>): (r: Volume)
    requires Calls(cs, |v.inodes|)
    ensures |r.inodes| == |v.inodes|
    decreases |cs|
  {
    if cs == [] then v else Run(Step(v, cs[0]), cs[1..])
  }

  function Where(v: Volume, i: nat, k: uint64): Option<uint64>
    requires i < |v.inodes|
  {
    Lookup(v.inodes[i].extents, k)
  }

  /** The call gets as far as asking for a block. */
  predicate Asks(v: Volume, c: Call)
    requires c.ino < |v.inodes|
  {
    Where(v, c.ino, c.iblock) == None && c.create
  }

  /** The tiers asked for in a run. */
  function Asked(v: Volume, cs: seq<Call>): seq<Tier>
    requires Calls(cs, |v.inodes|)
    decreases |cs|
  {
    if cs == [] then []
    else (if Asks(v, cs[0]) then [v.inodes[cs[0].ino].tier] else []) + Asked(Step(v, cs[0]), cs[1..])
  }

  /** The superblock moves as one run of allocations, whichever inodes asked. */
  lemma {:induction false} RunAllocates(v: Volume, cs: seq<Call>)
    requires Calls(cs, |v.inodes|)
    ensures Run(v, cs).sb == AllocAll(v.sb, Asked(v, cs)).0
    decreases |cs|
  {
    if cs != [] {
      RunAllocates(Step(v, cs[0]), cs[1..]);
      if Asks(v, cs[0]) {
        assert Asked(v, cs)[1..] == Asked(Step(v, cs[0]), cs[1..]);
        AllocAllStep(v.sb, Asked(v, cs));
      } else {
        assert Asked(v, cs) == Asked(Step(v, cs[0]), cs[1..]);
      }
    }
  }

  ghost predicate NoOverlap(was: Super, now: Super) {
    forall t: Tier, u: Tier :: t != u ==> !Overlap(was, now, t, u)
  }

  /** Every mapped block was handed out since `was`, and no two places map to one block. */
  ghost predicate Sound(was: Super, v: Volume) {
    && (forall t: Tier :: was.Cursor(t) <= v.sb.Cursor(t))
    && (forall i: nat, k: uint64 :: i < |v.inodes| && Where(v, i, k).Some? ==>
          exists t: Tier :: Passed(was, v.sb, t, Where(v, i, k).value))
    && (forall i: nat, k: uint64, j: nat, l: uint64 {:trigger Where(v, i, k), Where(v, j, l)} ::
          i < |v.inodes| && j < |v.inodes| && Where(v, i, k).Some? && Where(v, i, k) == Where(v, j, l) ==> i == j && k == l)
  }

  lemma StepWhere(v: Volume, c: Call, i: nat, k: uint64)
    requires c.ino < |v.inodes| && i < |v.inodes|
    ensures Where(Step(v, c), i, k) == Where(v, i, k)
         || (i == c.ino && k == c.iblock && Asks(v, c) && v.sb.free > 0 && Where(Step(v, c), i, k) == Some(v.sb.Cursor(v.inodes[i].tier)))
    ensures Where(v, i, k).Some? ==> Where(Step(v, c), i, k) == Where(v, i, k)
  {
    var n := v.inodes[c.ino];
    if Asks(v, c) && i == c.ino {
      RecordLookup(n.extents, c.iblock, Alloc(v.sb, n.tier).1, k);
    }
  }

  lemma StepSound(was: Super, v: Volume, c: Call)
    requires c.ino < |v.inodes| && Bounded(v.sb) && Sound(was, v) && NoOverlap(was, Step(v, c).sb)
    ensures Sound(was, Step(v, c)) && Bounded(Step(v, c).sb)
    ensures forall t: Tier :: v.sb.Cursor(t) <= Step(v, c).sb.Cursor(t)
  {
    var v' := Step(v, c);
    var t := v.inodes[c.ino].tier;
    if v.sb.free > 0 {
      AllocStep(v.sb, t);
    }
    assert v'.sb == if Asks(v, c) then Alloc(v.sb, t).0 else v.sb;
    hide Step, Where, Alloc, Bounded;
    forall i: nat, k: uint64 | i < |v'.inodes| && Where(v', i, k).Some?
      ensures exists u: Tier :: Passed(was, v'.sb, u, Where(v', i, k).value)
    {
      StepWhere(v, c, i, k);
      if Where(v', i, k) == Where(v, i, k) {
        var u: Tier :| Passed(was, v.sb, u, Where(v, i, k).value);
        assert Passed(was, v'.sb, u, Where(v', i, k).value);
      } else {
        assert Passed(was, v'.sb, t, Where(v', i, k).value);
      }
    }
    forall i: nat, k: uint64, j: nat, l: uint64
      | i < |v'.inodes| && j < |v'.inodes| && Where(v', i, k).Some? && Where(v', i, k) == Where(v', j, l)
      ensures i == j && k == l
    {
      StepWhere(v, c, i, k);
      StepWhere(v, c, j, l);
      if Where(v, i, k) != Where(v', i, k) && Where(v, j, l) == Where(v', j, l) {
        NotPassed(was, v.sb, v'.sb, t, Where(v, j, l).value);
      } else if Where(v, j, l) != Where(v', j, l) && Where(v, i, k) == Where(v', i, k) {
        NotPassed(was, v.sb, v'.sb, t, Where(v, i, k).value);
      }
    }
  }

  /** The block a cursor stands at is none that was handed out. */
  lemma NotPassed(was: Super, sb: Super, now: Super, t: Tier, b: uint64)
    requires NoOverlap(was, now)
    requires forall u: Tier :: was.Cursor(u) <= sb.Cursor(u) && now.Cursor(u) == sb.Cursor(u) + if u == t then 1 else 0
    requires exists u: Tier :: Passed(was, sb, u, b)
    ensures b != sb.Cursor(t)
  {
    var u: Tier :| Passed(was, sb, u, b);
    if b == sb.Cursor(t) {
      assert Overlap(was, now, t, u);
    }
  }

  lemma RunMonotone(v: Volume, cs: seq<Call>)
    requires Calls(cs, |v.inodes|) && Bounded(v.sb)
    ensures forall t: Tier :: v.sb.Cursor(t) <= Run(v, cs).sb.Cursor(t)
  {
    RunAllocates(v, cs);
    AllocAllPasses(v.sb, Asked(v, cs));
  }

  lemma OverlapGrows(was: Super, mid: Super, now: Super)
    requires NoOverlap(was, now) && forall t: Tier :: mid.Cursor(t) <= now.Cursor(t)
    ensures NoOverlap(was, mid)
  {
    forall t: Tier, u: Tier | t != u ensures !Overlap(was, mid, t, u) {
      assert !Overlap(was, now, t, u);
      assert mid.Cursor(t) <= now.Cursor(t) && mid.Cursor(u) <= now.Cursor(u);
    }
  }

  /** Over any run in which no two tiers' intervals overlap, no two places map to one block,
      and a mapping once made is never altered. */
  lemma {:induction false} RunSound(was: Super, v: Volume, cs: seq<Call>)
    requires Calls(cs, |v.inodes|) && Bounded(v.sb) && Sound(was, v) && NoOverlap(was, Run(v, cs).sb)
    ensures Sound(was, Run(v, cs))
    ensures forall i: nat, k: uint64 :: i < |v.inodes| && Where(v, i, k).Some? ==> Where(Run(v, cs), i, k) == Where(v, i, k)
    decreases |cs|
  {
    if cs != [] {
      var v' := Step(v, cs[0]);
      hide Step, Where, Sound, Bounded, NoOverlap;
      assert Calls(cs[1..], |v'.inodes|);
      StepBounded(v, cs[0]);
      RunMonotone(v', cs[1..]);
      OverlapGrows(was, v'.sb, Run(v, cs).sb);
      StepSound(was, v, cs[0]);
      RunSound(was, v', cs[1..]);
      forall i: nat, k: uint64 | i < |v.inodes| && Where(v, i, k).Some?
        ensures Where(Run(v, cs), i, k) == Where(v, i, k)
      {
        StepWhere(v, cs[0], i, k);
      }
    }
  }

  lemma StepBounded(v: Volume, c: Call)
    requires c.ino < |v.inodes| && Bounded(v.sb)
    ensures Bounded(Step(v, c).sb)
  {
    if v.sb.free > 0 {
      AllocStep(v.sb, v.inodes[c.ino].tier);
    }
  }

  /** No inode has an extent. */
  ghost predicate Fresh(v: Volume) {
    forall i :: 0 <= i < |v.inodes| ==> forall j :: 0 <= j < |v.inodes[i].extents| ==> v.inodes[i].extents[j].len == 0
  }

  lemma FreshSound(v: Volume)
    requires Fresh(v)
    ensures Sound(v.sb, v)
  {
    forall i: nat, k: uint64 | i < |v.inodes| ensures Where(v, i, k) == None {
      LookupNoneIff(v.inodes[i].extents, k);
    }
  }

  lemma NoOverlapInZones(was: Super, now: Super)
    requires Fsck(was) && now.fast <= was.normal && now.normal <= was.slow
    ensures NoOverlap(was, now)
  {
  }

  /** The allocations of a run that keeps every tier short of where the next began. */
  lemma AllocsWithinZones(sb: Super, ts: seq<Tier>)
    requires Fsck(sb) && 0 < sb.fast && Bounded(sb)
    requires var now := AllocAll(sb, ts).0; now.fast <= sb.normal && now.normal <= sb.slow && now.slow <= sb.total
    ensures var (now, got) := AllocAll(sb, ts);
            && Distinct(got) && (forall i :: 0 <= i < |got| ==> got[i].1 != 0)
            && now.free + |got| == sb.free && Fsck(now) && NoOverlap(sb, now)
  {
    hide AllocAll, Bounded, Requests, Granted, Distinct;
    AllocAllPasses(sb, ts);
    CursorAdvances(sb, ts, Fast);
    CursorAdvances(sb, ts, Normal);
    CursorAdvances(sb, ts, Slow);
    ZonesKeepFsck(sb, ts);
    var (now, got) := AllocAll(sb, ts);
    NoOverlapInZones(sb, now);
    hide Fsck, NoOverlap;
    forall i | 0 <= i < |got| ensures got[i].1 != 0 {
      assert Passed(sb, now, got[i].0, got[i].1);
    }
  }

  /** From inodes without extents and a superblock fsck accepts: while no tier passes where
      the next one started, distinct (inode, block) pairs map to distinct blocks, the blocks
      handed out are pairwise distinct, each is taken off the free count, and fsck still
      accepts the superblock. */
  lemma RunsWithinZones(v: Volume, cs: seq<Call>)
    requires Fresh(v) && Calls(cs, |v.inodes|)
    requires Fsck(v.sb) && 0 < v.sb.fast && v.sb.total < 0x8000_0000_0000_0000
    requires var now := Run(v, cs).sb; now.fast <= v.sb.normal && now.normal <= v.sb.slow && now.slow <= v.sb.total
    ensures var v', got := Run(v, cs), AllocAll(v.sb, Asked(v, cs)).1;
            && Distinct(got) && (forall i :: 0 <= i < |got| ==> got[i].1 != 0)
            && v'.sb.free + |got| == v.sb.free && Fsck(v'.sb)
    ensures forall i: nat, k: uint64, j: nat, l: uint64 {:trigger Where(Run(v, cs), i, k), Where(Run(v, cs), j, l)} ::
              i < |v.inodes| && j < |v.inodes| && (i, k) != (j, l) && Where(Run(v, cs), i, k).Some? ==>
                Where(Run(v, cs), i, k) != Where(Run(v, cs), j, l)
  {
    FsckBounded(v.sb);
    FreshSound(v);
    hide Run, AllocAll, Where, Bounded, Asked, Fresh, Distinct, NoOverlap;
    RunAllocates(v, cs);
    AllocsWithinZones(v.sb, Asked(v, cs));
    RunSound(v.sb, v, cs);
  }

  // ----- The answers of a run -----

  function AnswerOf(v: Volume, c: Call): Answer
    requires c.ino < |v.inodes|
  {
    GetBlock(v.sb, v.inodes[c.ino].extents, v.inodes[c.ino].tier, c.iblock, c.create).2
  }

  /** The blocks a run's calls answered as new, in order. */
  function NewBlocks(v: Volume, cs: seq<Call>): seq<uint64>
    requires Calls(cs, |v.inodes|)
    decreases |cs|
  {
    if cs == [] then []
    else
      var a := AnswerOf(v, cs[0]);
      (if a.Mapped? && a.isNew then [a.block] else []) + NewBlocks(Step(v, cs[0]), cs[1..])
  }

  function Blocks(got: seq<(Tier, uint64)>): (r: seq<uint64>)
    ensures |r| == |got| && forall i :: 0 <= i < |r| ==> r[i] == got[i].1
  {
    seq(|got|, i requires 0 <= i < |got| => got[i].1)
  }

  ghost predicate CursorsSet(sb: Super) {
    forall t: Tier :: sb.Cursor(t) > 0
  }

  /** The blocks answered as new, recorded in an extent or not, are in order exactly the
      blocks handed out. */
  lemma {:induction false} AnswersAreBlocks(v: Volume, cs: seq<Call>)
    requires Calls(cs, |v.inodes|) && Bounded(v.sb) && CursorsSet(v.sb)
    ensures NewBlocks(v, cs) == Blocks(AllocAll(v.sb, Asked(v, cs)).1)
    decreases |cs|
  {
    if cs != [] {
      var next := Step(v, cs[0]);
      StepBounded(v, cs[0]);
      StepCursors(v, cs[0]);
      AnswersAreBlocks(next, cs[1..]);
      var rest := Asked(next, cs[1..]);
      hide AllocAll, Bounded, CursorsSet;
      if Asks(v, cs[0]) {
        var t := v.inodes[cs[0].ino].tier;
        assert Asked(v, cs) == [t] + rest && ([t] + rest)[0] == t && ([t] + rest)[1..] == rest;
        AllocAllStep(v.sb, [t] + rest);
      } else {
        assert Asked(v, cs) == rest;
      }
    }
  }

  lemma StepCursors(v: Volume, c: Call)
    requires c.ino < |v.inodes| && Bounded(v.sb) && CursorsSet(v.sb)
    ensures CursorsSet(Step(v, c).sb) && v.sb.Cursor(v.inodes[c.ino].tier) > 0
  {
    if v.sb.free > 0 {
      AllocStep(v.sb, v.inodes[c.ino].tier);
    }
  }

  /** While no tier passes where the next one started, no block is answered as new twice, none
      is the superblock, and none is at or past the end, unrecorded ones included. */
  lemma AnswersWithinZones(v: Volume, cs: seq<Call>)
    requires Calls(cs, |v.inodes|) && Fsck(v.sb) && 0 < v.sb.fast && v.sb.total < 0x8000_0000_0000_0000
    requires var now := Run(v, cs).sb; now.fast <= v.sb.normal && now.normal <= v.sb.slow && now.slow <= v.sb.total
    ensures var bs := NewBlocks(v, cs);
            && (forall i, j :: 0 <= i < j < |bs| ==> bs[i] != bs[j])
            && (forall i :: 0 <= i < |bs| ==> 0 < bs[i] < v.sb.total)
            && Run(v, cs).sb.free + |bs| == v.sb.free
  {
    hide Run, AllocAll, Bounded, Asked, NewBlocks, Passed, Overlap, NoOverlap, CursorsSet;
    FsckBounded(v.sb);
    FsckCursors(v.sb);
    RunAllocates(v, cs);
    AnswersAreBlocks(v, cs);
    AllocsWithinZones(v.sb, Asked(v, cs));
    BlocksBelow(v.sb, Asked(v, cs));
    hide Fsck;
  }

  lemma FsckCursors(sb: Super)
    requires Fsck(sb) && 0 < sb.fast
    ensures CursorsSet(sb)
  {
  }

  lemma BlocksBelow(sb: Super, ts: seq<Tier>)
    requires Fsck(sb) && Bounded(sb)
    requires var now := AllocAll(sb, ts).0; now.fast <= sb.normal && now.normal <= sb.slow && now.slow <= sb.total
    ensures var got := AllocAll(sb, ts).1; forall i :: 0 <= i < |got| ==> got[i].1 < sb.total
  {
    hide AllocAll, Bounded;
    AllocAllPasses(sb, ts);
    var (now, got) := AllocAll(sb, ts);
    forall i | 0 <= i < |got|
      ensures got[i].1 < sb.total
    {
      assert Passed(sb, now, got[i].0, got[i].1);
    }
  }

  lemma {:induction false} RequestsBound(ts: seq<Tier>, t: Tier)
    ensures Requests(ts, t) <= |ts|
    decreases |ts|
  {
    if ts != [] {
      RequestsBound(ts[1..], t);
    }
  }

  lemma {:induction false} AskedBound(v: Volume, cs: seq<Call>)
    requires Calls(cs, |v.inodes|)
    ensures |Asked(v, cs)| <= |cs|
    decreases |cs|
  {
    if cs != [] {
      AskedBound(Step(v, cs[0]), cs[1..]);
    }
  }

  /** On the volume mkfs_idkfs makes all of that holds of any first 262134 calls, whichever
      inodes and tiers they are for: the smallest zone is that long. */
  lemma FirstCallsOfMkfs(v: Volume, cs: seq<Call>)
    requires Fresh(v) && Calls(cs, |v.inodes|) && v.sb == Super(0x10_0000 - 16, 10, 0x4_0000, 0x8_0000, 0x10_0000) && |cs| <= 262134
    ensures var v', got := Run(v, cs), AllocAll(v.sb, Asked(v, cs)).1;
            && Distinct(got) && (forall i :: 0 <= i < |got| ==> got[i].1 != 0)
            && v'.sb.free + |got| == v.sb.free && Fsck(v'.sb)
    ensures forall i: nat, k: uint64, j: nat, l: uint64 {:trigger Where(Run(v, cs), i, k), Where(Run(v, cs), j, l)} ::
              i < |v.inodes| && j < |v.inodes| && (i, k) != (j, l) && Where(Run(v, cs), i, k).Some? ==>
                Where(Run(v, cs), i, k) != Where(Run(v, cs), j, l)
  {
    hide Run, AllocAll, Where, Bounded, Asked, Fresh, Distinct, Requests, Granted;
    FsckBounded(v.sb);
    RunAllocates(v, cs);
    AskedBound(v, cs);
    var ts := Asked(v, cs);
    GrantedBound(v.sb, ts);
    forall t: Tier
      ensures Run(v, cs).sb.Cursor(t) <= v.sb.Cursor(t) + 262134
    {
      CursorAdvances(v.sb, ts, t);
      RequestsBound(Granted(v.sb, ts), t);
    }
    var now := Run(v, cs).sb;
    assert now.Cursor(Fast) == now.fast && now.Cursor(Normal) == now.normal && now.Cursor(Slow) == now.slow;
    RunsWithinZones(v, cs);
  }

  lemma GrantedBound(sb: Super, ts: seq<Tier>)
    ensures |Granted(sb, ts)| <= |ts|
  {
  }

  // ----- In place -----

  class SuperInfo {
    var free: uint64
    var nextFast: uint64
    var nextNormal: uint64
    var nextSlow: uint64
    const total: uint64

    ghost function View(): Super
      reads this
    {
      Super(free, nextFast, nextNormal, nextSlow, total)
    }

    constructor (sb: Super)
      ensures View() == sb
    {
      free, nextFast, nextNormal, nextSlow, total := sb.free, sb.fast, sb.normal, sb.slow, sb.total;
    }

    method AllocTiered(t: Tier) returns (phys: uint64)
      modifies this
      ensures (View(), phys) == Alloc(old(View()), t)
    {
      if free == 0 {
        return 0;
      }
      if t == Fast {
        phys := nextFast;
        nextFast := (phys + 1) % TWO_64;
      } else if t == Slow {
        phys := nextSlow;
        nextSlow := (phys + 1) % TWO_64;
      } else {
        phys := nextNormal;
        nextNormal := (phys + 1) % TWO_64;
      }
      free := free - 1;
    }
  }

  class InodeInfo {
    const extents: array<Extent>
    const tier: Tier

    constructor (t: Tier)
      ensures fresh(extents) && extents.Length == 15 && tier == t
      ensures forall i :: 0 <= i < 15 ==> extents[i] == Extent(0, 0, 0)
    {
      extents := new Extent[MAX_EXTENTS](_ => Extent(0, 0, 0));
      tier := t;
    }

    method MapBlock(sbi: SuperInfo, iblock: uint64, create: bool) returns (a: Answer)
      modifies sbi, extents
      ensures (sbi.View(), extents[..], a) == GetBlock(old(sbi.View()), old(extents[..]), tier, iblock, create)
    {
      var i := 0;
      while i < extents.Length
        invariant i <= extents.Length
        invariant Lookup(extents[..], iblock) == Lookup(extents[i..], iblock)
      {
        if Covers(extents[i], iblock) {
          return Mapped(Target(extents[i], iblock), false);
        }
        i := i + 1;
      }
      if !create {
        return Unmapped;
      }
      var phys := sbi.AllocTiered(tier);
      if phys == 0 {
        return NoSpace;
      }
      FillSlot(Extent(iblock, phys, 1));
      return Mapped(phys, true);
    }

    method FillSlot(e: Extent)
      modifies extents
      ensures extents[..] == Record(old(extents[..]), e)
    {
      hide Record;
      var i := 0;
      while i < extents.Length
        invariant i <= extents.Length && extents[..] == old(extents[..])
        invariant forall j :: 0 <= j < i ==> extents[j].len != 0
      {
        if extents[i].len == 0 {
          RecordAtSlot(extents[..], e, i);
          extents[i] := e;
          return;
        }
        i := i + 1;
      }
      RecordAtSlot(extents[..], e, i);
    }
  }
}
