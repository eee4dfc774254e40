/** The native snapshot table of daemon/src/main.rs: reading, adding to it and rolling the
    superblock back to one of its entries, byte by byte. */
module Snapshots {
  import opened Machine

  const BLOCK: nat := 4096
  const MAGIC: uint32 := 0x49444B46
  const SNAP_MAGIC: uint32 := 0x534E4B46
  const MAX_SNAPSHOTS: nat := 64
  const GEN_OFF: nat := 8
  const ROOT_OFF: nat := 16
  const REGION_OFF: nat := 64
  const BASE: nat := 16
  const ENTRY: nat := 88

  /** Entries that fit the 4096-byte buffer. */
  const ROOM: nat := 46

  datatype Error = ShortRead | BadSuper | BadTable | Full | NotFound | OutOfBounds
  datatype Result<+T> = Ok(value: T) | Err(error: Error)

  /** A snapshot as listed; the name is the stored bytes up to the first zero. */
  datatype Snapshot = Snapshot(id: uint32, generation: uint64, root: uint64, name: seq<byte>)

  datatype Fields = Fields(generation: uint64, root: uint64, region: uint64)

  /** read_super_fields. */
  function ReadSuper(img: seq<byte>): Result<Fields> {
    if |img| < BLOCK then Err(ShortRead)
    else if Le32(img[0..4]) != MAGIC then Err(BadSuper)
    else Ok(Fields(Le64(img[GEN_OFF..GEN_OFF + 8]), Le64(img[ROOT_OFF..ROOT_OFF + 8]), Le64(img[REGION_OFF..REGION_OFF + 8])))
  }

  datatype Table = Table(at: nat, bytes: seq<byte>)

  /** read_native_table; the product that locates it wraps. */
  function ReadTable(img: seq<byte>): Result<Table> {
    match ReadSuper(img)
    case Err(e) => Err(e)
    case Ok(f) =>
      var at := f.region * BLOCK % TWO_64;
      if at + BLOCK > |img| then Err(ShortRead)
      else if Le32(img[at..at + 4]) != SNAP_MAGIC then Err(BadTable)
      else Ok(Table(at, img[at..at + BLOCK]))
  }

  function Count(t: seq<byte>): uint32
    requires |t| == BLOCK
  {
    Le32(t[4..8])
  }

  function NextId(t: seq<byte>): uint32
    requires |t| == BLOCK
  {
    Le32(t[8..12])
  }

  function CutName(raw: seq<byte>): (r: seq<byte>)
    ensures 0 !in r && r <= raw
    ensures r == raw || (|r| < |raw| && raw[|r|] == 0)
    decreases |raw|
  {
    if raw == [] || raw[0] == 0 then [] else [raw[0]] + CutName(raw[1..])
  }

  function Decode(e: seq<byte>): Snapshot
    requires |e| == ENTRY
  {
    Snapshot(Le32(e[0..4]), Le64(e[8..16]), Le64(e[16..24]), CutName(e[24..88]))
  }

  function EntryAt(t: seq<byte>, i: nat): Snapshot
    requires |t| == BLOCK && i < ROOM
  {
    Decode(t[BASE + i * ENTRY..BASE + i * ENTRY + ENTRY])
  }

  function Entries(t: seq<byte>, n: nat): (r: seq<Snapshot>)
    requires |t| == BLOCK && n <= ROOM
  {
    seq(n, i requires 0 <= i < n => EntryAt(t, i))
  }

  /** native_list. Slicing past the buffer stops the program, as any count over 46 does. */
  function List(img: seq<byte>): Result<seq<Snapshot>> {
    match ReadTable(img)
    case Err(e) => Err(e)
    case Ok(t) =>
      var n := Min(Count(t.bytes), MAX_SNAPSHOTS);
      if n > ROOM then Err(OutOfBounds) else Ok(Entries(t.bytes, n))
  }

  /** The 64 bytes a name is stored as: at most 63 of its own, the rest zero. */
  function Padded(name: seq<byte>): (r: seq<byte>)
    ensures |r| == 64
  {
    var n := Min(|name|, 63);
    name[..n] + seq(64 - n, _ => 0)
  }

  function EntryBytes(s: Snapshot): (r: seq<byte>)
    ensures |r| == ENTRY
  {
    Bytes32(s.id) + Bytes32(1) + Bytes64(s.generation) + Bytes64(s.root) + Padded(s.name)
  }

  function NewTable(t: seq<byte>, s: Snapshot): (r: seq<byte>)
    requires |t| == BLOCK && Count(t) < ROOM
    ensures |r| == BLOCK
  {
    Splice(Splice(t, BASE + Count(t) * ENTRY, EntryBytes(s)), 4, Bytes32(Count(t) + 1) + Bytes32(Inc32(s.id)))
  }

  /** native_create: `name` is the trimmed description, or the clock's text when that is
      empty. Between 46 entries and the limit of 64 the buffer is overrun. */
  function Create(img: seq<byte>, name: seq<byte>): Result<(seq<byte>, Snapshot)> {
    match ReadTable(img)
    case Err(e) => Err(e)
    case Ok(t) =>
      if Count(t.bytes) >= MAX_SNAPSHOTS then Err(Full)
      else if Count(t.bytes) >= ROOM then Err(OutOfBounds)
      else
        var f := ReadSuper(img).value;
        var s := Snapshot(NextId(t.bytes), f.generation, f.root, name);
        Ok((Splice(img, t.at, NewTable(t.bytes, s)), s))
  }

  function Find(l: seq<Snapshot>, id: uint32): Option<Snapshot>
    decreases |l|
  {
    if l == [] then None else if l[0].id == id then Some(l[0]) else Find(l[1..], id)
  }

  function SetSuper(img: seq<byte>, generation: uint64, root: uint64): (r: seq<byte>)
    requires |img| >= BLOCK
    ensures |r| == |img|
  {
    Splice(img, GEN_OFF, Bytes64(generation) + Bytes64(root))
  }

  /** native_rollback. */
  function Rollback(img: seq<byte>, id: uint32): Result<seq<byte>> {
    match List(img)
    case Err(e) => Err(e)
    case Ok(l) =>
      match Find(l, id)
      case None => Err(NotFound)
      case Some(s) => Ok(SetSuper(img, s.generation, s.root))
  }

  // ----- What reading gives back -----

  lemma BlockWraps(region: uint64)
    ensures var at := region * BLOCK % TWO_64; at == 0 || at >= BLOCK
  {
    var q := region * BLOCK / TWO_64;
    assert region * BLOCK % TWO_64 == BLOCK * (region - q * (TWO_64 / BLOCK));
  }

  /** A found table starts at a later block than the superblock: its magic differs. */
  lemma TableApart(img: seq<byte>)
    requires ReadTable(img).Ok?
    ensures BLOCK <= ReadTable(img).value.at && ReadTable(img).value.at + BLOCK <= |img|
  {
    hide Le32, Le64;
    BlockWraps(ReadSuper(img).value.region);
  }

  lemma DecodeEntry(s: Snapshot)
    ensures Decode(EntryBytes(s)) == s.(name := CutName(s.name[..Min(|s.name|, 63)]))
  {
    var e := EntryBytes(s);
    assert e[0..4] == Bytes32(s.id) && e[8..16] == Bytes64(s.generation) && e[16..24] == Bytes64(s.root);
    assert e[24..88] == Padded(s.name);
    Le32OfBytes32(s.id);
    Le64OfBytes64(s.generation);
    Le64OfBytes64(s.root);
    CutPadded(s.name[..Min(|s.name|, 63)], 64 - Min(|s.name|, 63));
  }

  lemma {:induction false} CutPadded(raw: seq<byte>, n: nat)
    requires n > 0
    ensures CutName(raw + seq(n, _ => 0)) == CutName(raw)
    decreases |raw|
  {
    var z: seq<byte> := seq(n, _ => 0);
    if raw != [] {
      assert (raw + z)[1..] == raw[1..] + z;
      CutPadded(raw[1..], n);
    } else {
      assert (raw + z)[0] == 0;
    }
  }

  lemma NewTableReads(t: seq<byte>, s: Snapshot)
    requires |t| == BLOCK && Count(t) < ROOM
    ensures var r, n := NewTable(t, s), Count(t);
            && r[0..4] == t[0..4] && Count(r) == n + 1 && NextId(r) == Inc32(s.id)
            && Entries(r, n + 1) == Entries(t, n) + [Decode(EntryBytes(s))]
  {
    hide Splice, Le32, Le64, Bytes32, Decode, EntryBytes;
    var n := Count(t);
    var off, head := BASE + n * ENTRY, Bytes32(n + 1) + Bytes32(Inc32(s.id));
    var mid := Splice(t, off, EntryBytes(s));
    var r := Splice(mid, 4, head);
    SliceKept(t, off, EntryBytes(s), 0, 4);
    SliceKept(mid, 4, head, 0, 4);
    SliceOf(mid, 4, head, 4, 8);
    SliceOf(mid, 4, head, 8, 12);
    assert head[0..4] == Bytes32(n + 1) && head[4..8] == Bytes32(Inc32(s.id));
    Le32OfBytes32(n + 1);
    Le32OfBytes32(Inc32(s.id));
    forall i | 0 <= i < n ensures EntryAt(r, i) == EntryAt(t, i) {
      SliceKept(t, off, EntryBytes(s), BASE + i * ENTRY, BASE + i * ENTRY + ENTRY);
      SliceKept(mid, 4, head, BASE + i * ENTRY, BASE + i * ENTRY + ENTRY);
    }
    SliceOf(t, off, EntryBytes(s), off, off + ENTRY);
    SliceKept(mid, 4, head, off, off + ENTRY);
    assert EntryBytes(s)[0..ENTRY] == EntryBytes(s);
    assert EntryAt(r, n) == Decode(EntryBytes(s));
  }

  /** What a table put back in its place reads as. */
  lemma TableWritten(img: seq<byte>, r: seq<byte>)
    requires ReadTable(img).Ok? && |r| == BLOCK && r[0..4] == ReadTable(img).value.bytes[0..4]
    ensures var t := ReadTable(img).value;
            && t.at + BLOCK <= |img|
            && ReadSuper(Splice(img, t.at, r)) == ReadSuper(img)
            && ReadTable(Splice(img, t.at, r)) == Ok(Table(t.at, r))
  {
    hide Le32, Le64;
    TableApart(img);
    var t := ReadTable(img).value;
    var w := Splice(img, t.at, r);
    SliceKept(img, t.at, r, 0, 4);
    SliceKept(img, t.at, r, GEN_OFF, GEN_OFF + 8);
    SliceKept(img, t.at, r, ROOT_OFF, ROOT_OFF + 8);
    SliceKept(img, t.at, r, REGION_OFF, REGION_OFF + 8);
    SliceOf(img, t.at, r, t.at, t.at + 4);
    SliceOf(img, t.at, r, t.at, t.at + BLOCK);
    assert r[0..BLOCK] == r && t.bytes[0..4] == img[t.at..t.at + 4];
    hide Splice;
    assert ReadSuper(w) == ReadSuper(img);
  }

  // ----- The table as a list -----

  /** The superblock's generation and root, when the superblock can be read. */
  function Live(img: seq<byte>): Option<(uint64, uint64)> {
    match ReadSuper(img) case Err(_) => None case Ok(f) => Some((f.generation, f.root))
  }

  /** The identifier the next snapshot gets. */
  function NextOf(img: seq<byte>): uint32 {
    match ReadTable(img) case Err(_) => 0 case Ok(t) => NextId(t.bytes)
  }

  lemma ListOk(img: seq<byte>)
    ensures List(img).Ok? <==> ReadTable(img).Ok? && Count(ReadTable(img).value.bytes) <= ROOM
    ensures List(img).Ok? ==> ReadSuper(img).Ok? && |List(img).value| == Count(ReadTable(img).value.bytes)
  {
  }

  /** A successful creation, as what it makes of the table. */
  lemma CreateWrites(img: seq<byte>, name: seq<byte>)
    ensures Create(img, name).Ok? <==> ReadTable(img).Ok? && Count(ReadTable(img).value.bytes) < ROOM
    ensures Create(img, name).Ok? ==>
              var s, t := Create(img, name).value.1, ReadTable(img).value;
              && t.at + BLOCK <= |img| && |t.bytes| == BLOCK
              && Create(img, name).value.0 == Splice(img, t.at, NewTable(t.bytes, s))
              && Live(img) == Some((s.generation, s.root)) && s.id == NextId(t.bytes) && s.name == name
  {
    hide Splice, Le32, Le64, NewTable;
  }

  lemma ListIs(img: seq<byte>, t: Table)
    requires ReadTable(img) == Ok(t) && Count(t.bytes) <= ROOM
    ensures List(img) == Ok(Entries(t.bytes, Count(t.bytes))) && NextOf(img) == NextId(t.bytes)
  {
    hide ReadTable, Entries;
  }

  /** A snapshot is added if and only if the table lists fewer than 46 (not the 64 the guard
      allows); it then lists last, with the live generation and root and its name cut to 63
      bytes and at the first zero, and no byte outside the table changes. */
  lemma CreateLists(img: seq<byte>, name: seq<byte>)
    ensures Create(img, name).Ok? <==> List(img).Ok? && |List(img).value| < ROOM
    ensures Create(img, name).Ok? ==>
              var (w, s) := Create(img, name).value;
              var t := ReadTable(img).value;
              && Live(img) == Some((s.generation, s.root)) && s.id == NextOf(img) && s.name == name
              && List(w) == Ok(List(img).value + [s.(name := CutName(name[..Min(|name|, 63)]))])
              && Live(w) == Live(img) && NextOf(w) == Inc32(s.id)
              && |w| == |img| >= t.at + BLOCK && w[..t.at] == img[..t.at] && w[t.at + BLOCK..] == img[t.at + BLOCK..]
  {
    ListOk(img);
    CreateWrites(img, name);
    hide Create, ReadTable, ReadSuper, List, Splice, NewTable, NextOf, Entries, EntryBytes, Decode, Count, NextId;
    if Create(img, name).Ok? {
      var (w, s) := Create(img, name).value;
      var t := ReadTable(img).value;
      var r := NewTable(t.bytes, s);
      ListIs(img, t);
      NewTableReads(t.bytes, s);
      TableWritten(img, r);
      ListIs(w, Table(t.at, r));
      DecodeEntry(s);
      SliceKept(img, t.at, r, 0, t.at);
      SliceKept(img, t.at, r, t.at + BLOCK, |img|);
    }
  }

  // ----- Rolling back -----

  lemma SetSuperReads(img: seq<byte>, generation: uint64, root: uint64)
    requires ReadTable(img).Ok?
    ensures var w := SetSuper(img, generation, root);
            && ReadTable(w) == ReadTable(img) && List(w) == List(img)
            && NextOf(w) == NextOf(img) && Live(w) == Some((generation, root))
            && forall i :: 0 <= i < |img| && !(GEN_OFF <= i < GEN_OFF + 16) ==> w[i] == img[i]
  {
    hide Le32, Le64, Bytes64;
    TableApart(img);
    var t := ReadTable(img).value;
    var x := Bytes64(generation) + Bytes64(root);
    var w := Splice(img, GEN_OFF, x);
    SliceKept(img, GEN_OFF, x, 0, 4);
    SliceKept(img, GEN_OFF, x, REGION_OFF, REGION_OFF + 8);
    SliceKept(img, GEN_OFF, x, t.at, t.at + 4);
    SliceKept(img, GEN_OFF, x, t.at, t.at + BLOCK);
    SliceOf(img, GEN_OFF, x, GEN_OFF, GEN_OFF + 8);
    SliceOf(img, GEN_OFF, x, ROOT_OFF, ROOT_OFF + 8);
    Le64OfBytes64(generation);
    Le64OfBytes64(root);
    assert x[0..8] == Bytes64(generation) && x[8..16] == Bytes64(root);
    assert forall i :: 0 <= i < |img| && !(GEN_OFF <= i < GEN_OFF + 16) ==> w[i] == img[i];
    hide Splice;
  }

  /** Identifiers in use: increasing along the list and below the next one. */
  ghost predicate Ordered(img: seq<byte>) {
    List(img).Ok? && OrderedList(List(img).value, NextOf(img))
  }

  ghost predicate OrderedList(l: seq<Snapshot>, next: int) {
    && (forall i, j :: 0 <= i < j < |l| ==> l[i].id < l[j].id)
    && (forall i :: 0 <= i < |l| ==> l[i].id < next)
  }

  /** Adding keeps the identifiers ordered if and only if the next one was not the last of
      32 bits. */
  lemma CreateOrderedIff(img: seq<byte>, name: seq<byte>)
    requires Ordered(img) && Create(img, name).Ok?
    ensures Ordered(Create(img, name).value.0) <==> NextOf(img) != TWO_32 - 1
  {
    hide ReadTable, Create, List, NextOf, Live, Decode;
    CreateLists(img, name);
    var w := Create(img, name).value.0;
    var l, m := List(img).value, List(w).value;
    assert m[|l|].id == NextOf(img);
    assert forall i :: 0 <= i < |l| ==> m[i] == l[i];
  }

  /** What happens to an image: a snapshot is asked for, a rollback is, or the file system
      moves the generation and the root on. Requests that fail leave the image as it is. */
  datatype Event = Add(name: seq<byte>) | Back(id: uint32) | Change(generation: uint64, root: uint64)

  function Step(img: seq<byte>, e: Event): seq<byte>
    requires |img| >= BLOCK
  {
    match e
    case Add(name) => if Create(img, name).Ok? then Create(img, name).value.0 else img
    case Back(id) => if Rollback(img, id).Ok? then Rollback(img, id).value else img
    case Change(generation, root) => SetSuper(img, generation, root)
  }

  lemma RollbackReads(img: seq<byte>, id: uint32)
    requires List(img).Ok? && Find(List(img).value, id).Some?
    ensures Rollback(img, id).Ok?
    ensures var s, w := Find(List(img).value, id).value, Rollback(img, id).value;
            && |w| == |img| >= BLOCK && List(w) == List(img) && NextOf(w) == NextOf(img)
            && Live(w) == Some((s.generation, s.root))
            && forall i :: 0 <= i < |img| && !(GEN_OFF <= i < GEN_OFF + 16) ==> w[i] == img[i]
  {
    hide Le32, Le64, SetSuper, NextOf, Live, ReadTable, Entries;
    ListOk(img);
    LongEnough(img);
    var s := Find(List(img).value, id).value;
    SetSuperReads(img, s.generation, s.root);
  }

  lemma LongEnough(img: seq<byte>)
    ensures ReadTable(img).Ok? ==> |img| >= BLOCK
  {
  }

  lemma RollbackFails(img: seq<byte>, id: uint32)
    ensures Rollback(img, id).Ok? <==> List(img).Ok? && Find(List(img).value, id).Some?
  {
  }

  /** What every step does to the listing: it only grows at its end, by at most one. */
  lemma StepLists(img: seq<byte>, e: Event)
    requires List(img).Ok?
    ensures |img| >= BLOCK && List(Step(img, e)).Ok? && List(img).value <= List(Step(img, e)).value
    ensures (List(Step(img, e)) == List(img) && NextOf(Step(img, e)) == NextOf(img))
         || (e.Add? && Create(img, e.name).Ok? && |List(img).value| < ROOM && |List(Step(img, e)).value| == |List(img).value| + 1
             && NextOf(Step(img, e)) == Inc32(NextOf(img)))
  {
    hide List, NextOf, ReadTable, Create, Rollback, Live, SetSuper;
    ListOk(img);
    LongEnough(img);
    match e
    case Add(name) => CreateLists(img, name);
    case Back(id) =>
      RollbackFails(img, id);
      if Rollback(img, id).Ok? {
        RollbackReads(img, id);
      }
    case Change(generation, root) =>
      SetSuperReads(img, generation, root);
  }

  /** There are identifiers left for every snapshot that still fits. */
  ghost predicate Spare(img: seq<byte>) {
    List(img).Ok? && NextOf(img) + (ROOM - |List(img).value|) < TWO_32
  }

  lemma StepOrdered(img: seq<byte>, e: Event)
    requires Ordered(img) && Spare(img)
    ensures |img| >= BLOCK && Ordered(Step(img, e)) && Spare(Step(img, e))
  {
    hide List, NextOf, ReadTable, Create, Rollback, Live, SetSuper;
    StepLists(img, e);
    if e.Add? && Create(img, e.name).Ok? {
      CreateOrderedIff(img, e.name);
    }
  }

  function Run(img: seq<byte>, es: seq<Event>): seq<byte>
    decreases |es|
  {
    if es == [] || |img| < BLOCK then img else Run(Step(img, es[0]), es[1..])
  }

  lemma {:induction false} RunOrdered(img: seq<byte>, es: seq<Event>)
    requires Ordered(img) && Spare(img)
    ensures Ordered(Run(img, es))
    decreases |es|
  {
    if es != [] {
      hide List, Step, Ordered, Spare;
      StepOrdered(img, es[0]);
      RunOrdered(Step(img, es[0]), es[1..]);
    }
  }

  /** n snapshots asked for, one after another. */
  function Adds(n: nat): (r: seq<Event>)
    ensures |r| == n
  {
    if n == 0 then [] else [Add([])] + Adds(n - 1)
  }

  lemma {:induction false} AddsWrap(img: seq<byte>, n: nat)
    requires Ordered(img) && n > 0 && NextOf(img) + n == TWO_32 && |List(img).value| + n <= ROOM
    ensures !Ordered(Run(img, Adds(n)))
    decreases n
  {
    hide List, NextOf, ReadTable, Create, Rollback, Live, SetSuper, Ordered;
    OrderedListed(img);
    CreateLists(img, []);
    CreateOrderedIff(img, []);
    StepLists(img, Add([]));
    var w := Step(img, Add([]));
    assert Adds(n)[1..] == Adds(n - 1) && Adds(n)[0] == Add([]);
    assert Run(img, Adds(n)) == Run(w, Adds(n - 1));
    if n == 1 {
      assert Run(w, Adds(0)) == w;
    } else {
      AddsWrap(w, n - 1);
    }
  }

  lemma OrderedListed(img: seq<byte>)
    ensures Ordered(img) ==> List(img).Ok?
  {
  }

  lemma ListedBound(img: seq<byte>)
    ensures List(img).Ok? ==> |List(img).value| <= ROOM
  {
  }

  /** Identifiers stay increasing and below the next one over every run of requests if and
      only if there are enough left below 2^32 for the entries still free. */
  lemma OrderedForeverIff(img: seq<byte>)
    requires Ordered(img)
    ensures (forall es: seq<Event> {:trigger Run(img, es)} :: Ordered(Run(img, es))) <==> Spare(img)
  {
    hide List, NextOf, ReadTable, Ordered, Run;
    OrderedListed(img);
    ListedBound(img);
    if Spare(img) {
      forall es: seq<Event>
        ensures Ordered(Run(img, es))
      {
        RunOrdered(img, es);
      }
    } else {
      AddsWrap(img, TWO_32 - NextOf(img));
    }
  }

  /** In every table reached from an empty one the identifiers are increasing and below the
      next one. */
  lemma ReachableOrdered(es: seq<Event>)
    ensures Ordered(Run(SuperBlock() + EmptyTable(), es))
  {
    EmptyImageOrdered([]);
    hide List, ReadTable, Run;
    RunOrdered(SuperBlock() + EmptyTable(), es);
  }

  lemma {:induction false} RunLists(img: seq<byte>, es: seq<Event>)
    requires List(img).Ok?
    ensures List(Run(img, es)).Ok? && List(img).value <= List(Run(img, es)).value
    decreases |es|
  {
    if es != [] {
      hide ReadTable, List, Step, NextOf, Create;
      StepLists(img, es[0]);
      RunLists(Step(img, es[0]), es[1..]);
    }
  }

  lemma {:induction false} FindAppended(l: seq<Snapshot>, s: Snapshot, rest: seq<Snapshot>)
    ensures Find(l + [s] + rest, s.id) == if Find(l, s.id).Some? then Find(l, s.id) else Some(s)
    decreases |l|
  {
    if l != [] {
      FindAppended(l[1..], s, rest);
      assert (l + [s] + rest)[1..] == l[1..] + [s] + rest;
    } else {
      assert (l + [s] + rest)[0] == s;
    }
  }

  /** No snapshot listed has the next identifier, or the one a search finds captured the
      superblock as it is now. */
  predicate Retrievable(img: seq<byte>) {
    List(img).Ok? ==>
      match Find(List(img).value, NextOf(img))
      case None => true
      case Some(s) => Live(img) == Some((s.generation, s.root))
  }

  lemma OrderedRetrievable(img: seq<byte>)
    requires Ordered(img)
    ensures Retrievable(img)
  {
    hide List, NextOf, Live;
    NotListed(List(img).value, NextOf(img));
  }

  lemma {:induction false} NotListed(l: seq<Snapshot>, next: uint32)
    requires OrderedList(l, next)
    ensures Find(l, next) == None
    decreases |l|
  {
    if l != [] {
      assert l[0].id < next;
      assert forall i :: 0 <= i < |l[1..]| ==> l[1..][i] == l[i + 1];
      NotListed(l[1..], next);
    }
  }

  /** A rollback to a snapshot, after any further snapshots, rollbacks and changes, succeeds
      and touches nothing but generation and root; it puts back those captured when the
      snapshot was made if and only if its identifier found no other snapshot then, or one
      that captured the same. */
  lemma RollbackRestores(img: seq<byte>, name: seq<byte>, es: seq<Event>)
    requires Create(img, name).Ok?
    ensures var (made, s) := Create(img, name).value;
            var late := Run(made, es);
            && Rollback(late, s.id).Ok?
            && var back := Rollback(late, s.id).value;
               && (Live(back) == Live(img) <==> Retrievable(img)) && List(back) == List(late)
               && |back| == |late| && forall i :: 0 <= i < |late| && !(GEN_OFF <= i < GEN_OFF + 16) ==> back[i] == late[i]
  {
    hide ReadTable, Create, Run, Live, List, NextOf, Rollback, CutName;
    var (made, s) := Create(img, name).value;
    CreateLists(img, name);
    RunLists(made, es);
    var late := Run(made, es);
    var l, m := List(img).value, List(made).value;
    var rest := List(late).value[|m|..];
    assert List(late).value == l + [m[|l|]] + rest;
    FindAppended(l, m[|l|], rest);
    RollbackReads(late, s.id);
  }

  /** From an empty table, after any requests, every snapshot made can be gone back to after
      any further ones. */
  lemma ReachableRollback(before: seq<Event>, name: seq<byte>, es: seq<Event>)
    requires Create(Run(SuperBlock() + EmptyTable(), before), name).Ok?
    ensures var img := Run(SuperBlock() + EmptyTable(), before);
            var (made, s) := Create(img, name).value;
            Rollback(Run(made, es), s.id).Ok? && Live(Rollback(Run(made, es), s.id).value) == Live(img)
  {
    hide Run, Create, Rollback, Live, List, NextOf;
    ReachableOrdered(before);
    OrderedRetrievable(Run(SuperBlock() + EmptyTable(), before));
    RollbackRestores(Run(SuperBlock() + EmptyTable(), before), name, es);
  }

  function SuperBlock(): (r: seq<byte>)
    ensures |r| == BLOCK
  {
    Splice(Splice(Zeros(BLOCK), 0, Bytes32(MAGIC)), REGION_OFF, Bytes64(1))
  }

  function EmptyTable(): (r: seq<byte>)
    ensures |r| == BLOCK
  {
    Splice(Splice(Zeros(BLOCK), 0, Bytes32(SNAP_MAGIC)), 8, Bytes32(1))
  }

  lemma SuperBlockReads()
    ensures Le32(SuperBlock()[0..4]) == MAGIC && Le64(SuperBlock()[REGION_OFF..REGION_OFF + 8]) == 1
  {
    hide Le32, Le64, Bytes32, Bytes64, Splice, Zeros;
    var a := Splice(Zeros(BLOCK), 0, Bytes32(MAGIC));
    SliceSet(Zeros(BLOCK), 0, Bytes32(MAGIC), 4);
    SliceKept(a, REGION_OFF, Bytes64(1), 0, 4);
    SliceSet(a, REGION_OFF, Bytes64(1), REGION_OFF + 8);
    Le32OfBytes32(MAGIC);
    Le64OfBytes64(1);
  }

  lemma EmptyTableReads()
    ensures Le32(EmptyTable()[0..4]) == SNAP_MAGIC && Count(EmptyTable()) == 0 && NextId(EmptyTable()) == 1
  {
    hide Splice, Zeros;
    var a := Splice(Zeros(BLOCK), 0, Bytes32(SNAP_MAGIC));
    SliceKept(Zeros(BLOCK), 0, Bytes32(SNAP_MAGIC), 4, 8);
    assert Zeros(BLOCK)[4..8] == Bytes32(0);
    Le32OfBytes32(0);
    hide Bytes32, Le32;
    SliceSet(Zeros(BLOCK), 0, Bytes32(SNAP_MAGIC), 4);
    SliceKept(a, 8, Bytes32(1), 0, 4);
    SliceKept(a, 8, Bytes32(1), 4, 8);
    SliceSet(a, 8, Bytes32(1), 12);
    Le32OfBytes32(SNAP_MAGIC);
    Le32OfBytes32(1);
  }

  /** A superblock and an empty table in the block after it are ordered and take a first
      snapshot with identifier 1. */
  lemma EmptyImageOrdered(name: seq<byte>)
    ensures Ordered(SuperBlock() + EmptyTable()) && List(SuperBlock() + EmptyTable()) == Ok([])
    ensures Spare(SuperBlock() + EmptyTable())
    ensures Create(SuperBlock() + EmptyTable(), name).Ok? && Create(SuperBlock() + EmptyTable(), name).value.1.id == 1
  {
    hide Le32, Le64, SuperBlock, EmptyTable, Count, NextId, Create, EntryAt;
    var b := SuperBlock() + EmptyTable();
    SuperBlockReads();
    EmptyTableReads();
    assert b[0..4] == SuperBlock()[0..4] && b[REGION_OFF..REGION_OFF + 8] == SuperBlock()[REGION_OFF..REGION_OFF + 8];
    assert b[BLOCK..BLOCK + 4] == EmptyTable()[0..4] && b[BLOCK..BLOCK + BLOCK] == EmptyTable();
    assert ReadTable(b) == Ok(Table(BLOCK, EmptyTable()));
    hide ReadTable;
    ListIs(b, Table(BLOCK, EmptyTable()));
    CreateLists(b, name);
  }

  // ----- The bytes behind the names -----

  /** Where the table is: the block bytes 64 to 71 of the superblock name. */
  function TableAt(img: seq<byte>): nat
    requires |img| >= 4096
  {
    Le64(img[64..72]) * 4096 % 0x1_0000_0000_0000_0000
  }

  /** A superblock is readable by its magic; generation and root are at bytes 8 and 16. */
  lemma ReadSuperMeans(img: seq<byte>)
    ensures ReadSuper(img).Ok? <==> |img| >= 4096 && Le32(img[0..4]) == 0x4944_4B46
    ensures ReadSuper(img).Ok? ==>
              ReadSuper(img).value == Fields(Le64(img[8..16]), Le64(img[16..24]), Le64(img[64..72]))
  {
  }

  /** So is a table, of one block inside the image. */
  lemma ReadTableMeans(img: seq<byte>)
    ensures ReadTable(img).Ok? <==>
            ReadSuper(img).Ok? && TableAt(img) + 4096 <= |img| && Le32(img[TableAt(img)..TableAt(img) + 4]) == 0x534E_4B46
    ensures ReadTable(img).Ok? ==> ReadTable(img).value == Table(TableAt(img), img[TableAt(img)..TableAt(img) + 4096])
  {
    hide Le32, Le64;
  }

  lemma SliceTwice(b: seq<byte>, lo: nat, hi: nat, from: nat, to: nat)
    requires lo <= hi <= |b| && from <= to <= hi - lo
    ensures b[lo..hi][from..to] == b[lo + from..lo + to]
  {
    var x, y := b[lo..hi][from..to], b[lo + from..lo + to];
    assert |x| == |y|;
    forall k | 0 <= k < |x|
      ensures x[k] == y[k]
    {
      assert x[k] == b[lo..hi][from + k] == b[lo + from + k];
    }
    assert x == y;
  }

  lemma CutWithin(b: seq<byte>, lo: nat, hi: nat)
    requires lo <= hi <= |b|
    ensures var n := CutName(b[lo..hi]);
            && |n| <= hi - lo && n == b[lo..lo + |n|] && 0 !in n && (|n| < hi - lo ==> b[lo + |n|] == 0)
  {
    var raw := b[lo..hi];
    var n := CutName(raw);
    hide CutName;
    assert n == raw[..|n|];
    SliceTwice(b, lo, hi, 0, |n|);
    assert |n| < hi - lo ==> raw[|n|] == b[lo + |n|];
  }

  /** Entry i of a table: 88 bytes from byte 16 + 88 * i on, the identifier first, generation
      and root from bytes 8 and 16, and from byte 24 the 64 bytes of the name up to a zero. */
  lemma EntryMeans(t: seq<byte>, i: nat)
    requires |t| == 4096 && i < 46
    ensures var at, s := 16 + 88 * i, EntryAt(t, i);
            && s.id == Le32(t[at..at + 4]) && s.generation == Le64(t[at + 8..at + 16]) && s.root == Le64(t[at + 16..at + 24])
            && |s.name| <= 64 && s.name == t[at + 24..at + 24 + |s.name|] && 0 !in s.name
            && (|s.name| < 64 ==> t[at + 24 + |s.name|] == 0)
  {
    hide Le32, Le64, CutName;
    var at := 16 + 88 * i;
    var e := t[at..at + 88];
    assert EntryAt(t, i) == Decode(e);
    SliceTwice(t, at, at + 88, 0, 4);
    SliceTwice(t, at, at + 88, 8, 16);
    SliceTwice(t, at, at + 88, 16, 24);
    SliceTwice(t, at, at + 88, 24, 88);
    CutWithin(t, at + 24, at + 88);
  }

  /** What creating writes into the table: an entry behind those listed, one more in the count
      at byte 4, the identifier after the new one at byte 8, and no other byte. */
  lemma NewTableMeans(t: seq<byte>, s: Snapshot, k: nat)
    requires |t| == 4096 && k < 4096 && Le32(t[4..8]) < 46
    ensures var n := Le32(t[4..8]);
            var r, at := NewTable(t, s), 16 + 88 * n;
            && |r| == 4096 && at + 88 <= 4096
            && Le32(r[4..8]) == n + 1 && Le32(r[8..12]) == (s.id + 1) % 0x1_0000_0000
            && (!(4 <= k < 12) && !(at <= k < at + 88) ==> r[k] == t[k])
  {
    hide Le32, Bytes32, EntryBytes;
    var n := Count(t);
    var mid := Splice(t, 16 + 88 * n, EntryBytes(s));
    var head := Bytes32(n + 1) + Bytes32(Inc32(s.id));
    assert head[0..4] == Bytes32(n + 1) && head[4..8] == Bytes32(Inc32(s.id));
    SliceOf(mid, 4, head, 4, 8);
    SliceOf(mid, 4, head, 8, 12);
    Le32OfBytes32(n + 1);
    Le32OfBytes32(Inc32(s.id));
  }

  lemma EntryFields(s: Snapshot)
    ensures var e := EntryBytes(s);
            && e[0..4] == Bytes32(s.id) && e[4..8] == Bytes32(1) && e[8..16] == Bytes64(s.generation) && e[16..24] == Bytes64(s.root)
            && e[24..88] == Padded(s.name)
  {
    var e := EntryBytes(s);
    assert e[24..88] == Padded(s.name);
  }

  lemma NewEntryBytes(t: seq<byte>, s: Snapshot, k: nat)
    requires |t| == 4096 && Le32(t[4..8]) < 46 && k < 64
    ensures var at := 16 + 88 * Le32(t[4..8]);
            var r := NewTable(t, s);
            && at + 88 <= |r| == 4096
            && Le32(r[at..at + 4]) == s.id && Le32(r[at + 4..at + 8]) == 1
            && Le64(r[at + 8..at + 16]) == s.generation && Le64(r[at + 16..at + 24]) == s.root
            && r[at + 24 + k] == if k < 63 && k < |s.name| then s.name[k] else 0
  {
    hide Le32, Le64, Bytes32, Bytes64;
    var n := Count(t);
    var at, e := 16 + 88 * n, EntryBytes(s);
    var mid := Splice(t, at, e);
    var head := Bytes32(n + 1) + Bytes32(Inc32(s.id));
    var r := Splice(mid, 4, head);
    EntryFields(s);
    assert e[24 + k] == e[24..88][k] == Padded(s.name)[k];
    hide EntryBytes;
    SliceOf(t, at, e, at, at + 4);
    SliceOf(t, at, e, at + 4, at + 8);
    SliceOf(t, at, e, at + 8, at + 16);
    SliceOf(t, at, e, at + 16, at + 24);
    SliceKept(mid, 4, head, at, at + 4);
    SliceKept(mid, 4, head, at + 4, at + 8);
    SliceKept(mid, 4, head, at + 8, at + 16);
    SliceKept(mid, 4, head, at + 16, at + 24);
    Le32OfBytes32(s.id);
    Le32OfBytes32(1);
    Le64OfBytes64(s.generation);
    Le64OfBytes64(s.root);
  }

  /** An error is told apart: a short image, a superblock or a table without its magic, a table
      of 64 entries or more, and one of 46 to 63, which would be read or written past its
      block. */
  lemma Errors(img: seq<byte>, name: seq<byte>)
    ensures List(img).Err? ==> Create(img, name).Err?
    ensures ReadTable(img).Err? ==> List(img) == Err(ReadTable(img).error) && Create(img, name) == Err(ReadTable(img).error)
    ensures ReadTable(img).Ok? ==>
              var n := Le32(ReadTable(img).value.bytes[4..8]);
              && (List(img).Ok? <==> n <= 46) && (n > 46 ==> List(img) == Err(OutOfBounds))
              && (Create(img, name) == Err(Full) <==> n >= 64) && (Create(img, name) == Err(OutOfBounds) <==> 46 <= n < 64)
              && (Create(img, name).Ok? <==> n < 46)
    ensures |img| < 4096 ==> ReadTable(img) == Err(ShortRead)
  {
    hide Le64, Splice, NewTable, Entries;
  }

  // ----- The daemon's calls -----

  class SnapshotStore {
    var image: seq<byte>

    constructor (img: seq<byte>)
      ensures image == img
    {
      image := img;
    }

    method NativeList() returns (r: Result<seq<Snapshot>>)
      ensures r == List(image)
    {
      var read := ReadTable(image);
      if read.Err? {
        return Err(read.error);
      }
      var t := read.value.bytes;
      var n := Min(Count(t), MAX_SNAPSHOTS);
      var out := [];
      var i := 0;
      while i < n
        invariant i <= n && i <= ROOM && out == Entries(t, i)
      {
        if BASE + i * ENTRY + ENTRY > BLOCK {
          return Err(OutOfBounds);
        }
        out := out + [EntryAt(t, i)];
        i := i + 1;
      }
      return Ok(out);
    }

    method NativeCreate(name: seq<byte>) returns (r: Result<Snapshot>)
      modifies this
      ensures match Create(old(image), name)
              case Ok(done) => r == Ok(done.1) && image == done.0
              case Err(e) => r == Err(e) && image == old(image)
    {
      var read := ReadTable(image);
      if read.Err? {
        return Err(read.error);
      }
      var f := ReadSuper(image).value;
      var t := read.value.bytes;
      var count, next := Count(t), NextId(t);
      if count >= MAX_SNAPSHOTS {
        return Err(Full);
      }
      var off := BASE + count * ENTRY;
      if off + ENTRY > BLOCK {
        return Err(OutOfBounds);
      }
      var s := Snapshot(next, f.generation, f.root, name);
      var table := new byte[BLOCK](i requires 0 <= i < BLOCK => t[i]);
      assert table[..] == t;
      FillTable(table, s);
      image := Splice(image, read.value.at, table[..]);
      return Ok(s);
    }

    static method Put(buf: array<byte>, off: nat, x: seq<byte>)
      requires off + |x| <= buf.Length
      modifies buf
      ensures buf[..] == Splice(old(buf[..]), off, x)
    {
      forall i | 0 <= i < |x| {
        buf[off + i] := x[i];
      }
    }

    /** The writes of native_create, field by field. */
    static method FillTable(table: array<byte>, s: Snapshot)
      requires table.Length == BLOCK && Count(table[..]) < ROOM && s.id == NextId(table[..])
      modifies table
      ensures table[..] == NewTable(old(table[..]), s)
    {
      hide Le32, Bytes32, Bytes64, Splice;
      ghost var t := table[..];
      var count := Count(table[..]);
      var off := BASE + count * ENTRY;
      Put(table, off, Bytes32(s.id));
      Put(table, off + 4, Bytes32(1));
      Put(table, off + 8, Bytes64(s.generation));
      Put(table, off + 16, Bytes64(s.root));
      Put(table, off + 24, Padded(s.name));
      SpliceTwice(t, off, Bytes32(s.id), Bytes32(1));
      SpliceTwice(t, off, Bytes32(s.id) + Bytes32(1), Bytes64(s.generation));
      SpliceTwice(t, off, Bytes32(s.id) + Bytes32(1) + Bytes64(s.generation), Bytes64(s.root));
      SpliceTwice(t, off, Bytes32(s.id) + Bytes32(1) + Bytes64(s.generation) + Bytes64(s.root), Padded(s.name));
      assert table[..] == Splice(t, off, EntryBytes(s));
      Put(table, 4, Bytes32(count + 1));
      Put(table, 8, Bytes32(Inc32(s.id)));
      SpliceTwice(Splice(t, off, EntryBytes(s)), 4, Bytes32(count + 1), Bytes32(Inc32(s.id)));
    }

    method NativeRollback(id: uint32) returns (r: Result<()>)
      modifies this
      ensures match Rollback(old(image), id)
              case Ok(w) => r == Ok(()) && image == w
              case Err(e) => r == Err(e) && image == old(image)
    {
      hide List, Find, SetSuper, ReadTable;
      var snaps := NativeList();
      if snaps.Err? {
        return Err(snaps.error);
      }
      var target := Find(snaps.value, id);
      if target.None? {
        return Err(NotFound);
      }
      ListOk(image);
      LongEnough(image);
      RestoreSuper(target.value);
      return Ok(());
    }

    method RestoreSuper(s: Snapshot)
      requires |image| >= BLOCK
      modifies this
      ensures image == SetSuper(old(image), s.generation, s.root)
    {
      hide Bytes64, Splice;
      var was := image;
      var sb := new byte[BLOCK](i requires 0 <= i < BLOCK => was[i]);
      assert sb[..] == image[..BLOCK];
      Put(sb, GEN_OFF, Bytes64(s.generation));
      Put(sb, ROOT_OFF, Bytes64(s.root));
      SpliceTwice(image[..BLOCK], GEN_OFF, Bytes64(s.generation), Bytes64(s.root));
      SpliceFront(image, GEN_OFF, Bytes64(s.generation) + Bytes64(s.root));
      image := sb[..] + image[BLOCK..];
    }

    static lemma SpliceFront(b: seq<byte>, off: nat, x: seq<byte>)
      requires off + |x| <= BLOCK <= |b|
      ensures Splice(b, off, x) == Splice(b[..BLOCK], off, x) + b[BLOCK..]
    {
    }
  }
}
