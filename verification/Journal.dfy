/** The block driver of idkfs_blk.c: the image mapped in memory, the flush that journals a
    generation number, and the replay that runs when the image is mapped again. */
module Journal {
  import opened Machine

  const BLOCK: nat := 4096
  const SECTOR: nat := 512
  const TX_MAGIC: uint32 := 0x54584B46
  const MAX_SIZE: nat := 0x8000_0000_0000_0000

  // ----- The bookkeeping fields of an image -----

  const GEN: nat := 8
  const TX_REGION: nat := 64

  function TxAt(b: seq<byte>): nat
    requires |b| >= BLOCK
  {
    Le64(b[TX_REGION..TX_REGION + 8]) * BLOCK % TWO_64
  }

  /** The transaction record lies inside the image and not on the superblock. The driver
      follows the superblock's pointer without a check. */
  predicate Roomy(b: seq<byte>) {
    BLOCK <= |b| < MAX_SIZE && BLOCK <= TxAt(b) && TxAt(b) + BLOCK <= |b|
  }

  /** What the driver reads from an image: the superblock's generation and the transaction
      record, with the place the superblock gives for it. */
  datatype Head = Head(txAt: nat, magic: uint32, generation: uint64, state: uint32, pending: uint64, committed: uint64)

  function HeadOf(b: seq<byte>): Head
    requires Roomy(b)
  {
    var t := TxAt(b);
    Head(t, Le32(b[t..t + 4]), Le64(b[GEN..GEN + 8]), Le32(b[t + 4..t + 8]), Le64(b[t + 8..t + 16]), Le64(b[t + 16..t + 24]))
  }

  predicate Journaled(b: seq<byte>)
    requires Roomy(b)
  {
    HeadOf(b).magic == TX_MAGIC
  }

  function SetGeneration(b: seq<byte>, g: uint64): seq<byte>
    requires Roomy(b)
  {
    Splice(b, GEN, Bytes64(g))
  }

  function SetState(b: seq<byte>, x: uint32): seq<byte>
    requires Roomy(b)
  {
    Splice(b, TxAt(b) + 4, Bytes32(x))
  }

  function SetPending(b: seq<byte>, g: uint64): seq<byte>
    requires Roomy(b)
  {
    Splice(b, TxAt(b) + 8, Bytes64(g))
  }

  function SetCommitted(b: seq<byte>, g: uint64): seq<byte>
    requires Roomy(b)
  {
    Splice(b, TxAt(b) + 16, Bytes64(g))
  }

  /** The bytes commit and replay write. */
  predicate Bookkeeping(txAt: nat, i: nat) {
    GEN <= i < GEN + 8 || txAt + 4 <= i < txAt + 24
  }

  /** Two images with the same contents apart from generation and transaction record. */
  ghost predicate SameData(a: seq<byte>, b: seq<byte>) {
    && Roomy(a) && Roomy(b) && |a| == |b| && TxAt(a) == TxAt(b)
    && forall i :: 0 <= i < |a| && !Bookkeeping(TxAt(a), i) ==> a[i] == b[i]
  }

  lemma TxAligned(b: seq<byte>)
    requires |b| >= BLOCK
    ensures TxAt(b) % SECTOR == 0
  {
    var x: int := Le64(b[TX_REGION..TX_REGION + 8]);
    var q := x * BLOCK / TWO_64;
    assert TxAt(b) == x * BLOCK - q * TWO_64 == SECTOR * (x * 8 - q * (TWO_64 / SECTOR));
  }

  lemma KeepsTxAt(b: seq<byte>, off: nat, x: seq<byte>)
    requires Roomy(b) && off + |x| <= |b| && (off + |x| <= TX_REGION || TX_REGION + 8 <= off)
    ensures Roomy(Splice(b, off, x)) && TxAt(Splice(b, off, x)) == TxAt(b)
  {
    SliceKept(b, off, x, TX_REGION, TX_REGION + 8);
  }

  lemma GenerationSet(b: seq<byte>, x: uint64)
    requires Roomy(b)
    ensures Roomy(SetGeneration(b, x)) && HeadOf(SetGeneration(b, x)) == HeadOf(b).(generation := x)
    ensures SameData(SetGeneration(b, x), b)
  {
    hide Le32, Le64, Bytes32, Bytes64;
    var y, t := Bytes64(x), TxAt(b);
    KeepsTxAt(b, GEN, y);
    Le64OfBytes64(x);
    hide TxAt;
    SliceSet(b, GEN, y, GEN + 8);
    SliceKept(b, GEN, y, t, t + 4);
    SliceKept(b, GEN, y, t + 4, t + 8);
    SliceKept(b, GEN, y, t + 8, t + 16);
    SliceKept(b, GEN, y, t + 16, t + 24);
  }

  lemma StateSet(b: seq<byte>, x: uint32)
    requires Roomy(b)
    ensures Roomy(SetState(b, x)) && HeadOf(SetState(b, x)) == HeadOf(b).(state := x)
    ensures SameData(SetState(b, x), b)
  {
    hide Le32, Le64, Bytes32, Bytes64;
    var y, t := Bytes32(x), TxAt(b);
    KeepsTxAt(b, t + 4, y);
    Le32OfBytes32(x);
    hide TxAt;
    SliceKept(b, t + 4, y, GEN, GEN + 8);
    SliceKept(b, t + 4, y, t, t + 4);
    SliceSet(b, t + 4, y, t + 8);
    SliceKept(b, t + 4, y, t + 8, t + 16);
    SliceKept(b, t + 4, y, t + 16, t + 24);
  }

  lemma PendingSet(b: seq<byte>, x: uint64)
    requires Roomy(b)
    ensures Roomy(SetPending(b, x)) && HeadOf(SetPending(b, x)) == HeadOf(b).(pending := x)
    ensures SameData(SetPending(b, x), b)
  {
    hide Le32, Le64, Bytes32, Bytes64;
    var y, t := Bytes64(x), TxAt(b);
    KeepsTxAt(b, t + 8, y);
    Le64OfBytes64(x);
    hide TxAt;
    SliceKept(b, t + 8, y, GEN, GEN + 8);
    SliceKept(b, t + 8, y, t, t + 4);
    SliceKept(b, t + 8, y, t + 4, t + 8);
    SliceSet(b, t + 8, y, t + 16);
    SliceKept(b, t + 8, y, t + 16, t + 24);
  }

  lemma CommittedSet(b: seq<byte>, x: uint64)
    requires Roomy(b)
    ensures Roomy(SetCommitted(b, x)) && HeadOf(SetCommitted(b, x)) == HeadOf(b).(committed := x)
    ensures SameData(SetCommitted(b, x), b)
  {
    hide Le32, Le64, Bytes32, Bytes64;
    var y, t := Bytes64(x), TxAt(b);
    KeepsTxAt(b, t + 16, y);
    Le64OfBytes64(x);
    hide TxAt;
    SliceKept(b, t + 16, y, GEN, GEN + 8);
    SliceKept(b, t + 16, y, t, t + 4);
    SliceKept(b, t + 16, y, t + 4, t + 8);
    SliceKept(b, t + 16, y, t + 8, t + 16);
    SliceSet(b, t + 16, y, t + 24);
  }

  // ----- Replay and commit -----

  /** idkfs_replay_if_needed. */
  function Replay(b: seq<byte>): (r: seq<byte>)
    requires Roomy(b)
    ensures SameData(r, b)
  {
    if HeadOf(b).magic != TX_MAGIC || HeadOf(b).state != 1 then b
    else
      GenerationSet(b, HeadOf(b).committed);
      StateSet(SetGeneration(b, HeadOf(b).committed), 0);
      SetState(SetGeneration(b, HeadOf(b).committed), 0)
  }

  lemma ReplayHead(b: seq<byte>)
    requires Roomy(b)
    ensures HeadOf(Replay(b)) ==
            var h := HeadOf(b);
            if h.magic == TX_MAGIC && h.state == 1 then h.(generation := h.committed, state := 0) else h
  {
    hide HeadOf, SetGeneration, SetState, TxAt, Splice, Le32, Le64;
    var g := HeadOf(b).committed;
    GenerationSet(b, g);
    StateSet(SetGeneration(b, g), 0);
  }

  /** Replaying twice is replaying once. */
  lemma ReplayIdempotent(b: seq<byte>)
    requires Roomy(b)
    ensures Replay(Replay(b)) == Replay(b)
  {
    ReplayHead(b);
  }

  function Next(g: uint64): uint64 {
    (g + 1) % TWO_64
  }

  /** What the map holds while it is written out. */
  function Staged(b: seq<byte>): (r: seq<byte>)
    requires Roomy(b)
    ensures SameData(r, b)
  {
    if !Journaled(b) then b
    else
      PendingSet(b, Next(HeadOf(b).generation));
      StateSet(SetPending(b, Next(HeadOf(b).generation)), 1);
      SetState(SetPending(b, Next(HeadOf(b).generation)), 1)
  }

  lemma StagedHead(b: seq<byte>)
    requires Roomy(b)
    ensures HeadOf(Staged(b)) ==
            var h := HeadOf(b);
            if h.magic == TX_MAGIC then h.(pending := Next(h.generation), state := 1) else h
  {
    hide HeadOf, SetPending, SetState, TxAt, Splice, Le32, Le64;
    var g := Next(HeadOf(b).generation);
    PendingSet(b, g);
    StateSet(SetPending(b, g), 1);
  }

  /** What the map holds once all of it is on the file. */
  function Sealed(b: seq<byte>): (r: seq<byte>)
    requires Roomy(b)
    ensures SameData(r, b)
  {
    if !Journaled(b) then b
    else
      var g := HeadOf(b).pending;
      GenerationSet(b, g);
      CommittedSet(SetGeneration(b, g), g);
      StateSet(SetCommitted(SetGeneration(b, g), g), 0);
      SetState(SetCommitted(SetGeneration(b, g), g), 0)
  }

  lemma SealedHead(b: seq<byte>)
    requires Roomy(b)
    ensures HeadOf(Sealed(b)) ==
            var h := HeadOf(b);
            if h.magic == TX_MAGIC then h.(generation := h.pending, committed := h.pending, state := 0) else h
  {
    hide HeadOf, SetGeneration, SetCommitted, SetState, TxAt, Splice, Le32, Le64;
    var g := HeadOf(b).pending;
    GenerationSet(b, g);
    CommittedSet(SetGeneration(b, g), g);
    StateSet(SetCommitted(SetGeneration(b, g), g), 0);
  }

  /** The loaded driver: the map in memory, the backing file, and journal_dirty. */
  datatype Dev = Dev(map_: seq<byte>, file: seq<byte>, dirty: bool)

  /** Both images are usable and agree where the record is. */
  predicate Sized(d: Dev) {
    Roomy(d.map_) && Roomy(d.file) && |d.map_| == |d.file| && TxAt(d.map_) == TxAt(d.file)
  }

  /** A file after a write that put its first n bytes down. */
  function Torn(new_: seq<byte>, was: seq<byte>, n: nat): (r: seq<byte>)
    requires n <= |new_| == |was|
    ensures |r| == |was|
    ensures forall i :: 0 <= i < |was| ==> r[i] == if i < n then new_[i] else was[i]
  {
    new_[..n] + was[n..]
  }

  /** idkfs_commit, where kernel_write answers `written`; an error is negative. */
  function Commit(d: Dev, written: int): Dev
    requires Sized(d) && written <= |d.map_|
  {
    if !d.dirty then d
    else
      var m := Staged(d.map_);
      var f := Torn(m, d.file, if written < 0 then 0 else written);
      if written != |d.map_| then Dev(m, f, true)
      else Dev(Sealed(m), f, false)
  }

  /** idkfs_map_backing: the module is loaded again on the file as it stands. */
  function Load(d: Dev): (r: Dev)
    requires Sized(d)
    ensures Sized(r)
  {
    Dev(Replay(d.file), d.file, false)
  }

  // ----- Requests -----

  datatype Written = Written(bytes: seq<byte>, ok: bool, touched: bool)

  /** The copying loop of a write request: stops at the first segment that does not fit, and
      steps to the next sector, not the next byte. */
  function WriteSegments(b: seq<byte>, off: nat, segs: seq<seq<byte>>): Written
    decreases |segs|
  {
    if segs == [] then Written(b, true, false)
    else if off + |segs[0]| > |b| then Written(b, false, false)
    else WriteSegments(Splice(b, off, segs[0]), off + |segs[0]| / SECTOR * SECTOR, segs[1..]).(touched := true)
  }

  /** The write arm of idkfs_blk_dispatch. */
  function WriteRequest(d: Dev, sector: uint64, segs: seq<seq<byte>>): (Dev, bool) {
    var off := sector * SECTOR % TWO_64;
    if off >= |d.map_| then (d, false)
    else
      var w := WriteSegments(d.map_, off, segs);
      (Dev(w.bytes, d.file, d.dirty || w.touched), w.ok)
  }

  function Flat(segs: seq<seq<byte>>): seq<byte>
    decreases |segs|
  {
    if segs == [] then [] else segs[0] + Flat(segs[1..])
  }

  ghost predicate WholeSectors(segs: seq<seq<byte>>) {
    forall i :: 0 <= i < |segs| ==> |segs[i]| % SECTOR == 0
  }

  lemma {:induction false} FlatPrefix(segs: seq<seq<byte>>, k: nat)
    requires k <= |segs|
    ensures |Flat(segs[..k])| <= |Flat(segs)|
    decreases k
  {
    if k > 0 {
      assert segs[..k][1..] == segs[1..][..k - 1];
      FlatPrefix(segs[1..], k - 1);
    }
  }

  /** A request of whole sectors writes the longest run of its segments that fits, as one
      contiguous copy; it succeeds if and only if that is all of them. */
  lemma {:induction false} WriteSegmentsMeans(b: seq<byte>, off: nat, segs: seq<seq<byte>>) returns (k: nat)
    requires WholeSectors(segs) && off <= |b|
    ensures var w := WriteSegments(b, off, segs);
            && k <= |segs| && off + |Flat(segs[..k])| <= |b|
            && w.bytes == Splice(b, off, Flat(segs[..k]))
            && w.ok == (k == |segs|) == (off + |Flat(segs)| <= |b|)
            && w.touched == (k > 0)
    ensures k < |segs| ==> off + |Flat(segs[..k + 1])| > |b|
    decreases |segs|
  {
    hide Splice;
    if segs == [] || off + |segs[0]| > |b| {
      k := 0;
      assert segs[..0] == [];
      SpliceNothing(b, off);
      if segs != [] {
        FlatPrefix(segs, 1);
        FlatCons(segs, 1);
      }
    } else {
      assert |segs[0]| / SECTOR * SECTOR == |segs[0]|;
      var b' := Splice(b, off, segs[0]);
      var j := WriteSegmentsMeans(b', off + |segs[0]|, segs[1..]);
      k := j + 1;
      FlatCons(segs, k);
      SpliceTwice(b, off, segs[0], Flat(segs[1..][..j]));
      if k < |segs| {
        FlatCons(segs, k + 1);
      }
    }
  }

  lemma FlatCons(segs: seq<seq<byte>>, k: nat)
    requires 0 < k <= |segs|
    ensures Flat(segs[..k]) == segs[0] + Flat(segs[1..][..k - 1])
  {
    assert segs[..k][1..] == segs[1..][..k - 1];
  }

  lemma SpliceNothing(b: seq<byte>, off: nat)
    requires off <= |b|
    ensures Splice(b, off, []) == b
  {
  }

  /** The read arm: the bytes at the sector, one segment after another. */
  function ReadSegments(b: seq<byte>, off: nat, lens: seq<nat>): Option<seq<byte>>
    decreases |lens|
  {
    if lens == [] then Some([])
    else if off + lens[0] > |b| then None
    else match ReadSegments(b, off + lens[0] / SECTOR * SECTOR, lens[1..])
         case None => None
         case Some(rest) => Some(b[off..off + lens[0]] + rest)
  }

  function ReadRequest(d: Dev, sector: uint64, lens: seq<nat>): Option<seq<byte>> {
    var off := sector * SECTOR % TWO_64;
    if off >= |d.map_| then None else ReadSegments(d.map_, off, lens)
  }

  function Total(lens: seq<nat>): nat
    decreases |lens|
  {
    if lens == [] then 0 else lens[0] + Total(lens[1..])
  }

  lemma {:induction false} ReadSegmentsMean(b: seq<byte>, off: nat, lens: seq<nat>)
    requires off <= |b| && forall i :: 0 <= i < |lens| ==> lens[i] % SECTOR == 0
    ensures ReadSegments(b, off, lens) == if off + Total(lens) <= |b| then Some(b[off..off + Total(lens)]) else None
    decreases |lens|
  {
    if lens == [] {
      assert b[off..off] == [];
    } else if off + lens[0] <= |b| {
      ReadSegmentsMean(b, off + lens[0], lens[1..]);
      assert lens[0] / SECTOR * SECTOR == lens[0];
      if off + Total(lens) <= |b| {
        assert b[off..off + lens[0]] + b[off + lens[0]..off + Total(lens)] == b[off..off + Total(lens)];
      }
    }
  }

  /** A write request that reports success is read back whole, however either is split into
      segments. */
  lemma ReadBack(d: Dev, sector: uint64, segs: seq<seq<byte>>, lens: seq<nat>)
    requires WholeSectors(segs) && WriteRequest(d, sector, segs).1
    requires (forall i :: 0 <= i < |lens| ==> lens[i] % SECTOR == 0) && Total(lens) == |Flat(segs)|
    ensures ReadRequest(WriteRequest(d, sector, segs).0, sector, lens) == Some(Flat(segs))
  {
    hide WriteSegments, ReadSegments, Flat, Total, WholeSectors;
    var off := sector * SECTOR % TWO_64;
    assert off < |d.map_|;
    var k := WriteSegmentsMeans(d.map_, off, segs);
    assert segs[..k] == segs;
    var m := WriteRequest(d, sector, segs).0.map_;
    assert m == Splice(d.map_, off, Flat(segs));
    SliceSet(d.map_, off, Flat(segs), off + |Flat(segs)|);
    hide Splice;
    ReadSegmentsMean(m, off, lens);
  }

  // ----- Where a request goes -----

  /** Sector s is bytes 512 * s to 512 * s + 511. A write of whole sectors succeeds if and only
      if all of its range is in the image; byte j of the data is then byte 512 * s + j of the
      map, every other byte is as it was, and the file is untouched. */
  lemma WriteRequestMeans(d: Dev, sector: uint64, segs: seq<seq<byte>>)
    requires sector < 0x80_0000_0000_0000 && forall i :: 0 <= i < |segs| ==> |segs[i]| % 512 == 0
    ensures var (w, ok) := WriteRequest(d, sector, segs);
            && (ok <==> 512 * sector < |d.map_| && 512 * sector + |Flat(segs)| <= |d.map_|)
            && |w.map_| == |d.map_| && w.file == d.file
            && (ok ==> w.dirty == (d.dirty || segs != [])
                       && forall j :: 0 <= j < |d.map_| ==>
                            w.map_[j] == if 512 * sector <= j < 512 * sector + |Flat(segs)| then Flat(segs)[j - 512 * sector] else d.map_[j])
  {
    hide WriteSegments, Flat;
    if 512 * sector < |d.map_| {
      var k := WriteSegmentsMeans(d.map_, 512 * sector, segs);
      if k == |segs| {
        assert segs[..k] == segs;
      }
    }
  }

  /** One that fails has written the longest run of its segments that fits, if it starts in
      the image at all. */
  lemma FailedWriteMeans(d: Dev, sector: uint64, segs: seq<seq<byte>>) returns (k: nat)
    requires sector < 0x80_0000_0000_0000 && (forall i :: 0 <= i < |segs| ==> |segs[i]| % 512 == 0) && !WriteRequest(d, sector, segs).1
    ensures var w := WriteRequest(d, sector, segs).0;
            && (512 * sector >= |d.map_| ==> w == d)
            && (512 * sector < |d.map_| ==>
                  && k < |segs| && 512 * sector + |Flat(segs[..k])| <= |d.map_| < 512 * sector + |Flat(segs[..k + 1])|
                  && w.dirty == (d.dirty || k > 0) && |w.map_| == |d.map_|
                  && forall j :: 0 <= j < |d.map_| ==>
                       w.map_[j] == if 512 * sector <= j < 512 * sector + |Flat(segs[..k])| then Flat(segs[..k])[j - 512 * sector] else d.map_[j])
  {
    hide WriteSegments, Flat;
    k := 0;
    if 512 * sector < |d.map_| {
      k := WriteSegmentsMeans(d.map_, 512 * sector, segs);
    }
  }

  /** A read of whole sectors returns exactly the bytes from 512 * s on, or nothing if they
      are not all in the image. */
  lemma ReadRequestMeans(d: Dev, sector: uint64, lens: seq<nat>)
    requires sector < 0x80_0000_0000_0000 && forall i :: 0 <= i < |lens| ==> lens[i] % 512 == 0
    ensures ReadRequest(d, sector, lens) ==
              if 512 * sector < |d.map_| && 512 * sector + Total(lens) <= |d.map_|
              then Some(d.map_[512 * sector..512 * sector + Total(lens)]) else None
  {
    hide ReadSegments, Total;
    if 512 * sector < |d.map_| {
      ReadSegmentsMean(d.map_, 512 * sector, lens);
    }
  }

  // ----- What a flush and a replay write -----

  /** The generation is bytes 8 to 15; the record is in the block bytes 64 to 71 name. */
  lemma HeadMeans(b: seq<byte>)
    requires Roomy(b)
    ensures var t := Le64(b[64..72]) * 4096 % 0x1_0000_0000_0000_0000;
            && 4096 <= t && t + 4096 <= |b|
            && HeadOf(b) == Head(t, Le32(b[t..t + 4]), Le64(b[8..16]), Le32(b[t + 4..t + 8]), Le64(b[t + 8..t + 16]), Le64(b[t + 16..t + 24]))
    ensures Journaled(b) <==> HeadOf(b).magic == 0x5458_4B46
  {
    hide Le64, Le32;
  }

  /** No byte but the generation's eight and the record's twenty from its state on differs. */
  lemma SameDataMeans(a: seq<byte>, b: seq<byte>)
    requires SameData(a, b)
    ensures |a| == |b| && HeadOf(a).txAt == HeadOf(b).txAt
    ensures forall i :: 0 <= i < |a| && !(8 <= i < 16) && !(HeadOf(a).txAt + 4 <= i < HeadOf(a).txAt + 24) ==> a[i] == b[i]
  {
    hide Le64, Le32;
  }

  /** The file a complete flush of `was` leaves, and the map: on the file the old generation,
      state 1 and the next number pending; in the map the next number as generation, pending
      and committed, and state 0. */
  ghost predicate FlushedAs(was: seq<byte>, file: seq<byte>, map_: seq<byte>)
    requires Roomy(was)
  {
    var h := HeadOf(was);
    var n := (h.generation + 1) % 0x1_0000_0000_0000_0000;
    && SameData(file, was) && HeadOf(file) == h.(state := 1, pending := n)
    && SameData(map_, was) && HeadOf(map_) == h.(generation := n, state := 0, pending := n, committed := n)
  }

  lemma FlushWrites(d: Dev)
    requires Sized(d)
    requires d.dirty && HeadOf(d.map_).magic == 0x5458_4B46
    ensures !Commit(d, |d.map_|).dirty && FlushedAs(d.map_, Commit(d, |d.map_|).file, Commit(d, |d.map_|).map_)
  {
    hide Staged, Sealed, Torn, Le32, Le64, HeadOf, TxAt;
    var m := Staged(d.map_);
    TornWhole(m, d.file);
    StagedHead(d.map_);
    SealedHead(m);
  }

  /** Without a record the file gets the map as it is. */
  lemma PlainFlushWrites(d: Dev)
    requires Sized(d) && d.dirty && HeadOf(d.map_).magic != 0x5458_4B46
    ensures Commit(d, |d.map_|) == Dev(d.map_, d.map_, false)
  {
    hide Torn, Le32, Le64, HeadOf, TxAt;
    TornWhole(d.map_, d.file);
  }

  /** Mapping an image whose record is in state 1 takes its committed number for the
      generation and sets the state to 0; any other image is taken as it is. */
  lemma LoadReads(d: Dev)
    requires Sized(d)
    ensures var m, h := Load(d).map_, HeadOf(d.file);
            && Load(d).file == d.file && !Load(d).dirty && SameData(m, d.file)
            && if h.magic == 0x5458_4B46 && h.state == 1 then HeadOf(m) == h.(generation := h.committed, state := 0)
               else m == d.file
  {
    ReplayHead(d.file);
    hide Le32, Le64, SetGeneration, SetState, HeadOf, TxAt;
  }

  // ----- Runs -----

  datatype Event = Write(sector: uint64, segs: seq<seq<byte>>) | Flush(written: int) | Reload

  /** A write may cover the bookkeeping bytes only to rewrite what they hold, and a flush
      that stops short stops at a sector. */
  ghost predicate Allowed(d: Dev, e: Event)
    requires Sized(d)
  {
    match e
    case Write(sector, segs) =>
      var m := WriteRequest(d, sector, segs).0.map_;
      |m| == |d.map_| && Roomy(m) && HeadOf(m) == HeadOf(d.map_)
    case Flush(written) => written <= |d.map_| && (written == |d.map_| || written < 0 || written % SECTOR == 0)
    case Reload => true
  }

  function Step(d: Dev, e: Event): Dev
    requires Sized(d) && (e.Flush? ==> e.written <= |d.map_|)
  {
    match e
    case Write(sector, segs) => WriteRequest(d, sector, segs).0
    case Flush(written) => Commit(d, written)
    case Reload => Load(d)
  }

  /** What holds between calls: the live generation is the committed one, the file's record
      is at most one generation behind, and a clean map is on the file. */
  ghost predicate Settled(d: Dev) {
    && Sized(d) && Journaled(d.map_) && Journaled(d.file)
    && HeadOf(d.map_).generation == HeadOf(d.map_).committed
    && (if HeadOf(d.file).state == 1
        then HeadOf(d.file).committed == HeadOf(d.map_).generation || Next(HeadOf(d.file).committed) == HeadOf(d.map_).generation
        else HeadOf(d.file).generation == HeadOf(d.map_).generation == HeadOf(d.file).committed)
    && (!d.dirty ==> SameData(d.map_, d.file))
  }

  /** The file holds the record of the last complete flush: its own generation is not in it. */
  predicate Behind(d: Dev)
    requires Sized(d)
  {
    HeadOf(d.file).state == 1 && HeadOf(d.file).committed != HeadOf(d.map_).generation
  }

  /** The record a torn flush leaves on the file. */
  lemma TornHead(m: seq<byte>, f: seq<byte>, n: nat)
    requires Roomy(m) && Roomy(f) && |m| == |f| && TxAt(m) == TxAt(f)
    requires n <= |m| && (n == |m| || n % SECTOR == 0)
    ensures var r := Torn(m, f, n);
            && Roomy(r) && TxAt(r) == TxAt(f)
            && HeadOf(r) == if n == 0 then HeadOf(f) else if n <= TxAt(f) then HeadOf(f).(generation := HeadOf(m).generation) else HeadOf(m)
  {
    hide Le32, Le64, Torn, HeadOf;
    var r, t := Torn(m, f, n), TxAt(m);
    TxAligned(m);
    TornSlice(m, f, n, TX_REGION, TX_REGION + 8);
    TornSlice(m, f, n, GEN, GEN + 8);
    assert TxAt(r) == t;
    hide TxAt;
    assert n > t ==> n >= t + SECTOR;
    TornSlice(m, f, n, t, t + 24);
    RecordSame(r, if n <= t then f else m);
    GenerationAt(r, if n == 0 then f else m);
  }

  /** The record's fields are those of an image with the same bytes there. */
  lemma RecordSame(r: seq<byte>, b: seq<byte>)
    requires Roomy(r) && Roomy(b) && TxAt(r) == TxAt(b) && r[TxAt(b)..TxAt(b) + 24] == b[TxAt(b)..TxAt(b) + 24]
    ensures HeadOf(r) == HeadOf(b).(generation := HeadOf(r).generation)
  {
    hide Le32, Le64;
    var t := TxAt(b);
    hide TxAt;
    SliceInSlice(r, b, t, t + 24, t, t + 4);
    SliceInSlice(r, b, t, t + 24, t + 4, t + 8);
    SliceInSlice(r, b, t, t + 24, t + 8, t + 16);
    SliceInSlice(r, b, t, t + 24, t + 16, t + 24);
  }

  lemma SliceInSlice(r: seq<byte>, b: seq<byte>, lo: nat, hi: nat, from: nat, to: nat)
    requires lo <= from <= to <= hi <= |r| && hi <= |b| && r[lo..hi] == b[lo..hi]
    ensures r[from..to] == b[from..to]
  {
    forall k | lo <= k < hi ensures r[k] == b[k] {
      assert r[k] == r[lo..hi][k - lo] && b[k] == b[lo..hi][k - lo];
    }
  }

  lemma GenerationAt(r: seq<byte>, b: seq<byte>)
    requires Roomy(r) && Roomy(b) && r[GEN..GEN + 8] == b[GEN..GEN + 8]
    ensures HeadOf(r).generation == HeadOf(b).generation
  {
  }

  lemma TornSlice(m: seq<byte>, f: seq<byte>, n: nat, lo: nat, hi: nat)
    requires n <= |m| == |f| && lo <= hi <= |m|
    ensures hi <= n ==> Torn(m, f, n)[lo..hi] == m[lo..hi]
    ensures n <= lo ==> Torn(m, f, n)[lo..hi] == f[lo..hi]
  {
  }

  lemma CommitSettled(d: Dev, written: int)
    requires Settled(d) && Allowed(d, Flush(written)) && d.dirty
    ensures var d', g := Commit(d, written), HeadOf(d.map_).generation;
            && Settled(d')
            && (written == |d.map_| ==> !d'.dirty && HeadOf(d'.map_).generation == Next(g) && Behind(d'))
            && (written != |d.map_| ==>
                  (d'.dirty && HeadOf(d'.map_).generation == g && Behind(d') == (written <= TxAt(d.map_) && Behind(d))))
  {
    hide Staged, Sealed, Replay, TxAt, HeadOf, Torn, Next, Le32, Le64;
    StagedHead(d.map_);
    var m := Staged(d.map_);
    NextDiffers(HeadOf(d.map_).generation);
    if written == |d.map_| {
      TornWhole(m, d.file);
      SealedHead(m);
    } else {
      TornHead(m, d.file, if written < 0 then 0 else written);
    }
  }

  lemma TornWhole(m: seq<byte>, f: seq<byte>)
    requires |m| == |f|
    ensures Torn(m, f, |m|) == m
  {
  }

  lemma NextDiffers(g: uint64)
    ensures Next(g) != g
  {
  }

  lemma LoadSettled(d: Dev)
    requires Settled(d)
    ensures var d', g := Load(d), HeadOf(d.map_).generation;
            && Settled(d') && !d'.dirty && !Behind(d')
            && SameData(d'.map_, d.file)
            && (if Behind(d) then Next(HeadOf(d'.map_).generation) == g else HeadOf(d'.map_).generation == g)
  {
    ReplayHead(d.file);
    hide Replay, TxAt, HeadOf;
  }

  lemma WriteSettled(d: Dev, sector: uint64, segs: seq<seq<byte>>)
    requires Settled(d) && Allowed(d, Write(sector, segs))
    ensures var d' := Step(d, Write(sector, segs));
            Settled(d') && HeadOf(d'.map_) == HeadOf(d.map_) && Behind(d') == Behind(d)
  {
    var off := sector * SECTOR % TWO_64;
    Untouched(d.map_, off, segs);
    hide HeadOf, TxAt;
  }

  /** A request that copies nothing changes nothing. */
  lemma Untouched(b: seq<byte>, off: nat, segs: seq<seq<byte>>)
    ensures !WriteSegments(b, off, segs).touched ==> WriteSegments(b, off, segs).bytes == b
  {
  }

  /** Both images stay usable from call to call, and no flush puts down more than there is. */
  predicate SizedRun(d: Dev, es: seq<Event>)
    decreases |es|
  {
    Sized(d) && (es != [] ==> (es[0].Flush? ==> es[0].written <= |d.map_|) && SizedRun(Step(d, es[0]), es[1..]))
  }

  ghost predicate AllowedRun(d: Dev, es: seq<Event>)
    decreases |es|
  {
    SizedRun(d, es) && (es != [] ==> Allowed(d, es[0]) && AllowedRun(Step(d, es[0]), es[1..]))
  }

  function Run(d: Dev, es: seq<Event>): Dev
    requires SizedRun(d, es)
    decreases |es|
  {
    if es == [] then d else Run(Step(d, es[0]), es[1..])
  }

  /** What a clean mark promises: the file has every byte of the map but the flush's own, and
      those too where there is no record to keep. */
  ghost predicate CleanAgrees(d: Dev) {
    !d.dirty ==> SameData(d.map_, d.file) && (!Journaled(d.map_) ==> d.map_ == d.file)
  }

  lemma CommitAgrees(d: Dev, written: int)
    requires Sized(d) && CleanAgrees(d) && written <= |d.map_|
    ensures CleanAgrees(Commit(d, written))
  {
    hide Staged, Sealed, TxAt, HeadOf, Torn, Next, Le32, Le64;
    if d.dirty && written == |d.map_| {
      var m := Staged(d.map_);
      TornWhole(m, d.file);
      SealedHead(m);
      if !Journaled(m) {
        SealedSame(m);
      }
    }
  }

  lemma SealedSame(b: seq<byte>)
    requires Roomy(b) && !Journaled(b)
    ensures Sealed(b) == b
  {
  }

  lemma LoadAgrees(d: Dev)
    requires Sized(d)
    ensures CleanAgrees(Load(d))
  {
    ReplayHead(d.file);
    hide TxAt, HeadOf, Le32, Le64, SetState, SetGeneration;
  }

  /** A write that copies nothing leaves the map; any other sets the mark. */
  lemma WriteAgrees(d: Dev, sector: uint64, segs: seq<seq<byte>>)
    requires CleanAgrees(d)
    ensures CleanAgrees(WriteRequest(d, sector, segs).0)
  {
    hide TxAt, HeadOf, WriteSegments, SameData;
    var off := sector * SECTOR % TWO_64;
    Untouched(d.map_, off, segs);
  }

  /** Over every run, whatever is written, torn and reloaded, journaled or not: while the mark
      is clear the file agrees with the map. */
  lemma {:induction false} RunAgrees(d: Dev, es: seq<Event>)
    requires SizedRun(d, es) && CleanAgrees(d)
    ensures CleanAgrees(Run(d, es))
    decreases |es|
  {
    hide Sized, CleanAgrees, WriteRequest, Commit, Load;
    if es != [] {
      match es[0] {
        case Write(sector, segs) => WriteAgrees(d, sector, segs);
        case Flush(written) => CommitAgrees(d, written);
        case Reload => LoadAgrees(d);
      }
      RunAgrees(Step(d, es[0]), es[1..]);
    }
  }

  /** So it is from the moment any image is mapped, the one mkfs_idkfs writes included. */
  lemma LoadedRunAgrees(image: seq<byte>, es: seq<Event>)
    requires Roomy(image) && SizedRun(Load(Dev(image, image, false)), es)
    ensures CleanAgrees(Run(Load(Dev(image, image, false)), es))
  {
    hide Load, CleanAgrees;
    LoadAgrees(Dev(image, image, false));
    RunAgrees(Load(Dev(image, image, false)), es);
  }

  /** Complete flushes in a run, and reloads. */
  function Commits(d: Dev, es: seq<Event>): nat
    requires AllowedRun(d, es)
    decreases |es|
  {
    if es == [] then 0
    else (if Completes(d, es[0]) then 1 else 0) + Commits(Step(d, es[0]), es[1..])
  }

  function Reloads(es: seq<Event>): nat
    decreases |es|
  {
    if es == [] then 0 else (if es[0].Reload? then 1 else 0) + Reloads(es[1..])
  }

  /** Reloads of a file whose last record was put there by a complete flush. */
  function Losses(d: Dev, es: seq<Event>): nat
    requires AllowedRun(d, es)
    decreases |es|
  {
    if es == [] then 0
    else (if Loses(d, es[0]) then 1 else 0) + Losses(Step(d, es[0]), es[1..])
  }

  lemma StepSettled(d: Dev, e: Event)
    requires Settled(d) && Allowed(d, e)
    ensures var d', g := Step(d, e), HeadOf(d.map_).generation;
            && Settled(d')
            && (Completes(d, e) ==> HeadOf(d'.map_).generation == Next(g) && Behind(d'))
            && (Loses(d, e) ==> Next(HeadOf(d'.map_).generation) == g)
            && (!Completes(d, e) && !Loses(d, e) ==> HeadOf(d'.map_).generation == g)
            && (e.Reload? ==> !Behind(d'))
            && (Behind(d') ==> Behind(d) || Completes(d, e))
  {
    hide TxAt, HeadOf, Commit, Load, WriteRequest, Next;
    match e
    case Write(sector, segs) => WriteSettled(d, sector, segs);
    case Flush(written) =>
      if d.dirty {
        CommitSettled(d, written);
      } else {
        CleanCommit(d, written);
      }
    case Reload =>
      LoadSettled(d);
  }

  lemma CleanCommit(d: Dev, written: int)
    requires Sized(d) && !d.dirty && written <= |d.map_|
    ensures Commit(d, written) == d
  {
  }

  predicate Completes(d: Dev, e: Event) {
    e.Flush? && d.dirty && e.written == |d.map_|
  }

  predicate Loses(d: Dev, e: Event)
    requires Sized(d)
  {
    e.Reload? && Behind(d)
  }

  predicate Counted(d: Dev)
    requires Sized(d)
  {
    1 <= HeadOf(d.map_).generation && (Behind(d) ==> 2 <= HeadOf(d.map_).generation)
  }

  lemma StepCounted(d: Dev, e: Event)
    requires Settled(d) && Allowed(d, e) && Counted(d)
    requires HeadOf(d.map_).generation + 1 < TWO_64 || !Completes(d, e)
    ensures var d', g := Step(d, e), HeadOf(d.map_).generation;
            && Settled(d') && Counted(d')
            && HeadOf(d'.map_).generation == g + (if Completes(d, e) then 1 else 0) - (if Loses(d, e) then 1 else 0)
  {
    hide TxAt, HeadOf, Step, Allowed, SameData, Behind;
    StepSettled(d, e);
  }

  /** In every run from a settled device the live generation is the committed one, and it is
      the starting one plus the complete flushes less the reloads that lose one. */
  lemma {:induction false} RunSettled(d: Dev, es: seq<Event>)
    requires Settled(d) && AllowedRun(d, es) && Counted(d)
    requires HeadOf(d.map_).generation + Commits(d, es) < TWO_64
    ensures var d', g := Run(d, es), HeadOf(d.map_).generation;
            && Settled(d')
            && HeadOf(d'.map_).generation == g + Commits(d, es) - Losses(d, es)
            && Counted(d')
            && Losses(d, es) <= Reloads(es)
    decreases |es|
  {
    if es != [] {
      hide TxAt, HeadOf, Step, Allowed, Settled, Counted, Loses, Completes;
      StepCounted(d, es[0]);
      RunSettled(Step(d, es[0]), es[1..]);
      LosesReload(d, es[0]);
    }
  }

  lemma LosesReload(d: Dev, e: Event)
    requires Sized(d)
    ensures Loses(d, e) ==> e.Reload?
  {
  }

  /** The driver just loaded on an image that no flush has reached since it was made. */
  ghost predicate Fresh(d: Dev) {
    && Sized(d) && d.map_ == d.file && !d.dirty && Journaled(d.map_)
    && HeadOf(d.map_).state != 1 && HeadOf(d.map_).generation == HeadOf(d.map_).committed == 1
  }

  /** From a fresh image, after c complete flushes and r reloads in any order among writes and
      torn flushes, the generation is between 1 + c - r and 1 + c and never below 1; what a
      reload would find is that generation or the one before it, never below 1 either. */
  lemma GenerationBounds(d: Dev, es: seq<Event>)
    requires Fresh(d) && AllowedRun(d, es) && Commits(d, es) < TWO_64 - 1
    ensures var d' := Run(d, es);
            && Sized(d') && HeadOf(d'.map_).generation == HeadOf(d'.map_).committed
            && 1 + Commits(d, es) - Reloads(es) <= HeadOf(d'.map_).generation <= 1 + Commits(d, es)
            && 1 <= HeadOf(d'.map_).generation
            && HeadOf(Load(d').map_).generation == HeadOf(d'.map_).generation - (if Behind(d') then 1 else 0)
            && 1 <= HeadOf(Load(d').map_).generation
            && (!d'.dirty ==> SameData(d'.map_, d'.file))
  {
    hide TxAt, Le32, Le64, Next;
    assert Settled(d) && Counted(d);
    hide HeadOf, Step, Allowed, SameData, Behind;
    RunSettled(d, es);
    StepCounted(Run(d, es), Reload);
  }

  /** A flush that stops short leaves a cut: the file is current below it and as it was above,
      the mark stays set, and the map's contents do not change. */
  lemma TornFlush(d: Dev, written: int)
    requires Sized(d) && d.dirty && written < |d.map_|
    ensures var d', cut := Commit(d, written), if written < 0 then 0 else written;
            && d'.dirty && SameData(d'.map_, d.map_)
            && d'.file[..cut] == d'.map_[..cut] && d'.file[cut..] == d.file[cut..]
  {
    StagedHead(d.map_);
  }

  /** A complete flush, and the module loaded again. */
  function Remount(d: Dev): (r: Dev)
    requires Sized(d) && d.dirty
    ensures Sized(r)
  {
    TornWhole(Staged(d.map_), d.file);
    Load(Commit(d, |d.map_|))
  }

  /** A reload after a complete flush keeps everything written and takes back the generation:
      what is rolled back is the number, never data. */
  lemma ReloadTakesBackOnlyTheNumber(d: Dev)
    requires Settled(d) && d.dirty && HeadOf(d.map_).generation + 1 < TWO_64
    ensures HeadOf(Remount(d).map_).generation == HeadOf(d.map_).generation
    ensures SameData(Remount(d).map_, d.map_)
  {
    hide TxAt, HeadOf, Replay, Staged, Sealed, Torn, Le32, Le64;
    StagedHead(d.map_);
    CommitSettled(d, |d.map_|);
    LoadSettled(Commit(d, |d.map_|));
    TornWhole(Staged(d.map_), d.file);
    SealedHead(Staged(d.map_));
  }

  /** Without a transaction record where the superblock points, the generation never moves. */
  lemma {:induction false} UnjournaledRun(d: Dev, es: seq<Event>)
    requires AllowedRun(d, es) && !Journaled(d.map_) && !Journaled(d.file)
    requires HeadOf(d.map_).generation == HeadOf(d.file).generation
    ensures var d' := Run(d, es);
            && Sized(d') && !Journaled(d'.map_) && HeadOf(d'.map_).generation == HeadOf(d.map_).generation
    decreases |es|
  {
    if es != [] {
      UnjournaledStep(d, es[0]);
      hide TxAt, HeadOf, Step, Allowed;
      UnjournaledRun(Step(d, es[0]), es[1..]);
    }
  }

  lemma UnjournaledStep(d: Dev, e: Event)
    requires Sized(d) && Allowed(d, e) && !Journaled(d.map_) && !Journaled(d.file)
    requires HeadOf(d.map_).generation == HeadOf(d.file).generation
    ensures var d' := Step(d, e);
            && Sized(d') && !Journaled(d'.map_) && !Journaled(d'.file)
            && HeadOf(d'.map_).generation == HeadOf(d'.file).generation == HeadOf(d.map_).generation
  {
    hide Le32, Le64;
    if e.Flush? && d.dirty {
      TornHead(d.map_, d.file, if e.written < 0 then 0 else e.written);
    }
    hide TxAt, Torn;
  }

  // ----- The image mkfs_idkfs writes -----

  const SUPER_SIZE: nat := 4088
  const SNAPS_SIZE: nat := 5648
  const TOTAL: uint64 := 0x10_0000

  /** The superblock structure in n bytes: magic and version; generation; root and the three
      cursors, total and free blocks; the record's block; the snapshot table's block. */
  function SuperBytes(n: nat): (r: seq<byte>)
    requires n >= 80
    ensures |r| == n
  {
    Bytes32(0x49444B46) + Bytes32(2) + Bytes64(1) + SuperCounts() + Bytes64(1) + Bytes64(2) + Zeros(n - 80)
  }

  function SuperCounts(): (r: seq<byte>)
    ensures |r| == 48
  {
    Bytes64(0) + Bytes64(10) + Bytes64(TOTAL / 4) + Bytes64(TOTAL / 2) + Bytes64(TOTAL) + Bytes64(TOTAL - 16)
  }

  function TxBytes(): (r: seq<byte>)
    ensures |r| == BLOCK
  {
    Bytes32(TX_MAGIC) + Bytes32(0) + Bytes64(1) + Bytes64(1) + Zeros(BLOCK - 24)
  }

  function SnapBytes(): (r: seq<byte>)
    ensures |r| == SNAPS_SIZE
  {
    Bytes32(0x534E4B46) + Bytes32(0) + Bytes32(1) + Zeros(SNAPS_SIZE - 12)
  }

  lemma SuperBytesRead(n: nat)
    requires n >= 80
    ensures SuperBytes(n)[GEN..GEN + 8] == SuperBytes(n)[TX_REGION..TX_REGION + 8] == Bytes64(1)
  {
    hide Bytes32, Bytes64, SuperCounts;
    var head, rest := Bytes32(0x49444B46) + Bytes32(2), Bytes64(2) + Zeros(n - 80);
    assert SuperBytes(n) == head + Bytes64(1) + SuperCounts() + Bytes64(1) + rest;
  }

  lemma TxBytesRead()
    ensures var b := TxBytes();
            b[0..4] == Bytes32(TX_MAGIC) && b[4..8] == Bytes32(0) && b[8..16] == Bytes64(1) && b[16..24] == Bytes64(1)
  {
    hide Bytes32, Bytes64;
  }

  /** The three structures one after another, the first in n bytes. */
  function ImageWith(n: nat): seq<byte>
    requires n >= 80
  {
    SuperBytes(n) + TxBytes() + SnapBytes()
  }

  /** The superblock structure is 4088 bytes long. */
  function MkfsImage(): seq<byte> {
    ImageWith(SUPER_SIZE)
  }

  lemma ImagePlaced(n: nat)
    requires SUPER_SIZE <= n <= BLOCK
    ensures var b := ImageWith(n);
            && Roomy(b) && TxAt(b) == BLOCK && HeadOf(b).generation == 1
            && b[BLOCK..BLOCK + 24] == (TxBytes() + SnapBytes())[BLOCK - n..BLOCK - n + 24]
  {
    hide SuperBytes, TxBytes, SnapBytes, Le32, Bytes64;
    var b := ImageWith(n);
    SuperBytesRead(n);
    assert b[TX_REGION..TX_REGION + 8] == SuperBytes(n)[TX_REGION..TX_REGION + 8];
    assert b[GEN..GEN + 8] == SuperBytes(n)[GEN..GEN + 8];
    Le64OfBytes64(1);
  }

  lemma MkfsWord()
    ensures ImageWith(SUPER_SIZE)[BLOCK..BLOCK + 4] == TxBytes()[8..16][0..4]
  {
    hide TxBytes, SuperBytes, SnapBytes;
  }

  lemma OneLow()
    ensures Le32(Bytes64(1)[0..4]) == 1
  {
  }

  lemma MkfsHead()
    ensures Roomy(MkfsImage()) && !Journaled(MkfsImage()) && HeadOf(MkfsImage()).generation == 1
  {
    MkfsWord();
    TxBytesRead();
    OneLow();
    hide TxBytes, Bytes64, Le32, ImageWith;
    ImagePlaced(SUPER_SIZE);
    hide TxAt;
  }

  lemma Within(a: seq<byte>, x: seq<byte>, c: seq<byte>, lo: nat)
    requires lo == |a|
    ensures (a + x + c)[lo..lo + |x|] == x
  {
  }

  lemma SuperWords()
    ensures var b := SuperBytes(SUPER_SIZE);
            && b[0..4] == Bytes32(0x4944_4B46) && b[4..8] == Bytes32(2) && b[8..16] == Bytes64(1) && b[16..64] == SuperCounts()
            && b[64..72] == Bytes64(1) && b[72..80] == Bytes64(2) && b[80..] == Zeros(4008)
  {
    hide Bytes32, Bytes64, SuperCounts;
    var b := SuperBytes(SUPER_SIZE);
    var front := Bytes32(0x4944_4B46) + Bytes32(2) + Bytes64(1);
    assert b == front + SuperCounts() + (Bytes64(1) + Bytes64(2) + Zeros(4008));
    assert b[64..] == Bytes64(1) + Bytes64(2) + Zeros(4008);
  }

  lemma CountWords()
    ensures var b := SuperCounts();
            && b[0..8] == Bytes64(0) && b[8..16] == Bytes64(10) && b[16..24] == Bytes64(0x4_0000) && b[24..32] == Bytes64(0x8_0000)
            && b[32..40] == Bytes64(0x10_0000) && b[40..48] == Bytes64(0xF_FFF0)
  {
    hide Bytes64;
  }

  lemma SnapWords()
    ensures var b := SnapBytes();
            b[0..4] == Bytes32(0x534E_4B46) && b[4..8] == Bytes32(0) && b[8..12] == Bytes32(1) && b[12..] == Zeros(5636)
  {
    hide Bytes32;
  }

  /** Word k of the image, of `len` bytes. */
  function Field(b: seq<byte>, k: nat, len: nat): seq<byte>
    requires k + len <= |b|
  {
    b[k..k + len]
  }

  lemma FieldOf(b: seq<byte>, lo: nat, hi: nat, k: nat, len: nat)
    requires lo <= hi <= |b| && k + len <= hi - lo
    ensures Field(b, lo + k, len) == b[lo..hi][k..k + len]
  {
    var x, y := Field(b, lo + k, len), b[lo..hi][k..k + len];
    forall j | 0 <= j < len
      ensures x[j] == y[j]
    {
      assert y[j] == b[lo..hi][k + j];
    }
    assert x == y;
  }

  /** The superblock mkfs_idkfs writes: version 2, generation 1, cursors at 10 and at a quarter
      and half of 2^20 blocks, all but 16 of them free, the record's block 1 and the table's 2. */
  lemma MkfsSuperMeans()
    ensures var b := MkfsImage();
            && |b| == 13832
            && Field(b, 0, 4) == Bytes32(0x4944_4B46) && Field(b, 4, 4) == Bytes32(2) && Field(b, 8, 8) == Bytes64(1)
            && Field(b, 16, 8) == Bytes64(0) && Field(b, 24, 8) == Bytes64(10) && Field(b, 32, 8) == Bytes64(0x4_0000)
            && Field(b, 40, 8) == Bytes64(0x8_0000) && Field(b, 48, 8) == Bytes64(0x10_0000) && Field(b, 56, 8) == Bytes64(0xF_FFF0)
            && Field(b, 64, 8) == Bytes64(1) && Field(b, 72, 8) == Bytes64(2)
            && b[80..4088] == Zeros(4008)
  {
    SuperWords();
    CountWords();
    hide Bytes32, Bytes64, SuperBytes, SuperCounts, TxBytes, SnapBytes, Zeros;
    var b, s := MkfsImage(), SuperBytes(SUPER_SIZE);
    assert b[..4088] == s;
    assert b[0..4088] == s;
    FieldOf(b, 0, 4088, 0, 4);
    FieldOf(b, 0, 4088, 4, 4);
    FieldOf(b, 0, 4088, 8, 8);
    FieldOf(b, 0, 4088, 64, 8);
    FieldOf(b, 0, 4088, 72, 8);
    FieldOf(b, 0, 4088, 16, 48);
    FieldOf(b, 16, 64, 0, 8);
    FieldOf(b, 16, 64, 8, 8);
    FieldOf(b, 16, 64, 16, 8);
    FieldOf(b, 16, 64, 24, 8);
    FieldOf(b, 16, 64, 32, 8);
    FieldOf(b, 16, 64, 40, 8);
    assert b[80..4088] == s[80..];
  }

  /** Behind it, at byte 4088 and not 4096, the record with both numbers 1 and state 0, and at
      byte 8184 the empty snapshot table with 1 for the next identifier. */
  lemma MkfsRestMeans()
    ensures var b := MkfsImage();
            && |b| == 13832
            && Field(b, 4088, 4) == Bytes32(0x5458_4B46) && Field(b, 4092, 4) == Bytes32(0)
            && Field(b, 4096, 8) == Bytes64(1) && Field(b, 4104, 8) == Bytes64(1) && b[4112..8184] == Zeros(4072)
            && Field(b, 8184, 4) == Bytes32(0x534E_4B46) && Field(b, 8188, 4) == Bytes32(0) && Field(b, 8192, 4) == Bytes32(1)
            && b[8196..] == Zeros(5636)
  {
    TxBytesRead();
    TxRest();
    SnapWords();
    hide Bytes32, Bytes64, SuperBytes, TxBytes, SnapBytes, Zeros;
    var b := MkfsImage();
    Within(SuperBytes(SUPER_SIZE), TxBytes(), SnapBytes(), 4088);
    assert b[8184..13832] == SnapBytes();
    FieldOf(b, 4088, 8184, 0, 4);
    FieldOf(b, 4088, 8184, 4, 4);
    FieldOf(b, 4088, 8184, 8, 8);
    FieldOf(b, 4088, 8184, 16, 8);
    FieldOf(b, 8184, 13832, 0, 4);
    FieldOf(b, 8184, 13832, 4, 4);
    FieldOf(b, 8184, 13832, 8, 4);
    assert b[4112..8184] == TxBytes()[24..];
    assert b[8196..] == SnapBytes()[12..];
  }

  lemma TxRest()
    ensures TxBytes()[24..] == Zeros(4072)
  {
    hide Bytes32, Bytes64;
  }

  /** The record is eight bytes before the block the superblock names, so the driver does not
      find it and never journals on such an image. */
  lemma MkfsRecordNotFound(es: seq<Event>)
    requires AllowedRun(Dev(MkfsImage(), MkfsImage(), false), es)
    ensures var d := Run(Dev(MkfsImage(), MkfsImage(), false), es);
            Roomy(d.map_) && !Journaled(d.map_) && HeadOf(d.map_).generation == 1
  {
    hide MkfsImage, HeadOf, TxAt;
    MkfsHead();
    UnjournaledRun(Dev(MkfsImage(), MkfsImage(), false), es);
  }

  /** With the superblock padded to a block the same image is a fresh journaled one. */
  lemma PaddedImageFresh()
    ensures Fresh(Dev(ImageWith(BLOCK), ImageWith(BLOCK), false))
  {
    hide TxBytes, SuperBytes, SnapBytes, Le32, Le64, Bytes32, Bytes64;
    var b := ImageWith(BLOCK);
    ImagePlaced(BLOCK);
    TxBytesRead();
    var x := TxBytes();
    assert b[BLOCK..BLOCK + 4] == x[0..4] && b[BLOCK + 4..BLOCK + 8] == x[4..8];
    assert b[BLOCK + 16..BLOCK + 24] == x[16..24];
    Le32OfBytes32(TX_MAGIC);
    Le32OfBytes32(0);
    Le64OfBytes64(1);
    hide ImageWith, TxAt;
  }

  // ----- The driver in memory -----

  class Driver {
    var map_: array<byte>
    var file: seq<byte>
    var dirty: bool

    ghost function View(): Dev
      reads this, map_
    {
      Dev(map_[..], file, dirty)
    }

    constructor (image: seq<byte>)
      requires Roomy(image)
      ensures View() == Load(Dev(image, image, false)) && fresh(map_)
    {
      map_ := new byte[|image|](i requires 0 <= i < |image| => image[i]);
      file := image;
      dirty := false;
      new;
      assert map_[..] == image;
      ReplayIfNeeded();
    }

    method Store(off: nat, x: seq<byte>)
      requires off + |x| <= map_.Length
      modifies map_
      ensures map_[..] == Splice(old(map_[..]), off, x)
    {
      forall i | 0 <= i < |x| {
        map_[off + i] := x[i];
      }
    }

    method ReplayIfNeeded()
      requires Roomy(map_[..])
      modifies map_
      ensures map_[..] == Replay(old(map_[..]))
    {
      hide Splice, Le32, Le64, Bytes64, Bytes32, TxAt;
      var b := map_[..];
      var h := HeadOf(b);
      if h.magic != TX_MAGIC {
        return;
      }
      if h.state == 1 {
        GenerationSet(b, h.committed);
        hide HeadOf;
        Store(GEN, Bytes64(h.committed));
        Store(h.txAt + 4, Bytes32(0));
      }
    }

    method Flush(written: int)
      requires Sized(View()) && written <= map_.Length
      modifies this`file, this`dirty, map_
      ensures View() == Commit(old(View()), written)
    {
      hide Staged, Sealed, TxAt, HeadOf;
      if !dirty {
        return;
      }
      var h := HeadOf(map_[..]);
      StagedHead(map_[..]);
      StageStore(h);
      file := map_[..if written < 0 then 0 else written] + file[if written < 0 then 0 else written..];
      if written == map_.Length {
        SealStore(h);
        dirty := false;
      }
    }

    method StageStore(h: Head)
      requires Roomy(map_[..]) && h == HeadOf(map_[..])
      modifies map_
      ensures map_[..] == Staged(old(map_[..]))
    {
      hide Splice, Le32, Le64, Bytes64, Bytes32, TxAt;
      if h.magic == TX_MAGIC {
        var next := Next(h.generation);
        PendingSet(map_[..], next);
        hide HeadOf;
        Store(h.txAt + 8, Bytes64(next));
        Store(h.txAt + 4, Bytes32(1));
      }
    }

    method SealStore(h: Head)
      requires Roomy(map_[..]) && h.txAt == HeadOf(map_[..]).txAt && h.magic == HeadOf(map_[..]).magic
      requires h.magic == TX_MAGIC ==> HeadOf(map_[..]).pending == Next(h.generation)
      modifies map_
      ensures map_[..] == Sealed(old(map_[..]))
    {
      hide Splice, Le32, Le64, Bytes64, Bytes32, TxAt;
      // The test for next_gen == 0 in the source recomputes the same wrapped number.
      var next := Next(h.generation);
      assert h.txAt == TxAt(map_[..]);
      hide HeadOf;
      if h.magic == TX_MAGIC {
        GenerationSet(map_[..], next);
        CommittedSet(SetGeneration(map_[..], next), next);
        Store(GEN, Bytes64(next));
        Store(h.txAt + 16, Bytes64(next));
        Store(h.txAt + 4, Bytes32(0));
      }
    }

    method HandleWrite(sector0: uint64, segs: seq<seq<byte>>) returns (ok: bool)
      requires map_.Length < MAX_SIZE
      modifies this`dirty, map_
      ensures (View(), ok) == WriteRequest(old(View()), sector0, segs)
    {
      hide Splice;
      var offset: nat := sector0 * SECTOR % TWO_64;
      if offset >= map_.Length {
        return false;
      }
      var i := 0;
      ghost var all := WriteSegments(map_[..], offset, segs);
      while i < |segs|
        invariant i <= |segs| && offset <= map_.Length
        invariant WriteSegments(map_[..], offset, segs[i..]).bytes == all.bytes
        invariant WriteSegments(map_[..], offset, segs[i..]).ok == all.ok
        invariant dirty == (old(dirty) || i > 0)
        invariant all.touched == (i > 0 || WriteSegments(map_[..], offset, segs[i..]).touched)
      {
        if offset + |segs[i]| > map_.Length {
          return false;
        }
        assert segs[i..][0] == segs[i] && segs[i..][1..] == segs[i + 1..];
        Store(offset, segs[i]);
        dirty := true;
        offset := offset + |segs[i]| / SECTOR * SECTOR;
        i := i + 1;
      }
      return true;
    }
  }
}
