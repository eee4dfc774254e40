/** The mounted volume as a value, and what the block-mapping and file I/O code of
    idkfs_core.c does to it. The class in FileSystem.dfy runs the same code in place
    and is proved to move between exactly these values. */
module Volume {
  import opened Machine
  import opened Bitmap

  const BLOCK_SIZE: int := 4096
  const TOTAL_BLOCKS: int := 65536
  const MAX_INODES: int := 4096
  const DIRECT_BLOCKS: int := 12
  const PTRS_PER_BLOCK: int := 1024
  const MAX_LOGICAL: int := DIRECT_BLOCKS + PTRS_PER_BLOCK
  const NULL_BLOCK: uint32 := 0xFFFF_FFFF
  const FT_FILE: byte := 1
  const FT_DIR: byte := 2
  const ROOT_INODE: nat := 0

  /** Superblock, first bitmap block and 4096 packed inodes of 136 bytes come first. */
  const DATA_START: int := 2 + (MAX_INODES * 136 + BLOCK_SIZE - 1) / BLOCK_SIZE

  type Block = b: seq<byte> | |b| == BLOCK_SIZE witness seq(BLOCK_SIZE, _ => 0)
  type Pointers = p: seq<uint32> | |p| == DIRECT_BLOCKS witness seq(DIRECT_BLOCKS, _ => 0)

  datatype Inode = Inode(ino: uint32, ftype: byte, size: uint64, linkCount: uint32,
                         blockCount: uint32, direct: Pointers, indirect1: uint32)

  function AllPointers(b: uint32): Pointers {
    seq(DIRECT_BLOCKS, _ => b)
  }

  /** `memset(&inode, 0, sizeof(Inode))`: note that its pointers are 0, not NULL_BLOCK. */
  function ZeroInode(): Inode {
    Inode(0, 0, 0, 0, 0, AllPointers(0), 0)
  }

  /** `fill` is the byte a fresh pointer block is filled with. The code uses 0x00
      (idkfs_core.c:213) although it tests for unmapped entries with NULL_BLOCK; 0xFF is
      the value for which the two agree. Every operation is modelled for both. */
  datatype RawVol = Vol(bits: seq<bv8>, disk: seq<Block>, inodes: seq<Inode>,
                        freeBlocks: uint32, freeInodes: uint32, fill: byte)
  type Vol = v: RawVol
    | && 8 * |v.bits| == TOTAL_BLOCKS == |v.disk|
      && |v.inodes| == MAX_INODES
      && (v.fill == 0x00 || v.fill == 0xFF)
    witness Vol(seq(TOTAL_BLOCKS / 8, _ => 0), seq(TOTAL_BLOCKS, _ => FillBlock(0)),
                seq(MAX_INODES, _ => ZeroInode()), 0, 0, 0)

  function FillBlock(f: byte): Block {
    seq(BLOCK_SIZE, _ => f)
  }

  /** Entry k of a block read as `uint32_t ptrs[1024]`. */
  function PtrAt(b: Block, k: nat): uint32
    requires k < PTRS_PER_BLOCK
  {
    Le32(b[4 * k..4 * k + 4])
  }

  function PutPtr(b: Block, k: nat, x: uint32): Block
    requires k < PTRS_PER_BLOCK
  {
    Splice(b, 4 * k, Bytes32(x))
  }

  predicate Allocated(v: Vol, i: nat) {
    i < MAX_INODES && v.inodes[i].linkCount != 0
  }

  // ----- idkfs_core.c:181-224 -----

  function GetBlock(v: Vol, i: nat, logical: uint32): uint32
    requires i < MAX_INODES
  {
    var n := v.inodes[i];
    if logical < DIRECT_BLOCKS then n.direct[logical]
    else if logical < MAX_LOGICAL && n.indirect1 < TOTAL_BLOCKS then
      PtrAt(v.disk[n.indirect1], logical - DIRECT_BLOCKS)
    else NULL_BLOCK
  }

  /** `bitmap_alloc`, `memset` of the block, `free_blocks--`. */
  function TakeBlock(v: Vol, f: byte): (r: (Vol, int))
    ensures -1 <= r.1 < TOTAL_BLOCKS
  {
    var nb := Choose(v.bits, DATA_START);
    if nb < 0 then (v, -1)
    else (v.(bits := SetBit(v.bits, nb), disk := v.disk[nb := FillBlock(f)],
             freeBlocks := Dec32(v.freeBlocks)), nb)
  }

  lemma TakeBlockFails(v: Vol, f: byte)
    ensures TakeBlock(v, f).1 < 0 ==> TakeBlock(v, f) == (v, -1)
  {
  }

  function WithInode(v: Vol, i: nat, n: Inode): Vol
    requires i < MAX_INODES
  {
    v.(inodes := v.inodes[i := n])
  }

  function SetDirect(v: Vol, i: nat, k: nat, b: uint32): Vol
    requires i < MAX_INODES && k < DIRECT_BLOCKS
  {
    WithInode(v, i, v.inodes[i].(direct := v.inodes[i].direct[k := b]))
  }

  function SetIndirect(v: Vol, i: nat, b: uint32): Vol
    requires i < MAX_INODES
  {
    WithInode(v, i, v.inodes[i].(indirect1 := b))
  }

  function SetEntry(v: Vol, i: nat, k: nat, b: uint32): Vol
    requires i < MAX_INODES && k < PTRS_PER_BLOCK && v.inodes[i].indirect1 < TOTAL_BLOCKS
  {
    var ib := v.inodes[i].indirect1;
    v.(disk := v.disk[ib := PutPtr(v.disk[ib], k, b)])
  }

  /** The second allocation: the pointer block itself, unless the inode has one. */
  function EnsureIndirect(v: Vol, i: nat): (r: (Vol, bool))
    requires i < MAX_INODES
    ensures |r.0.inodes| == MAX_INODES
  {
    if v.inodes[i].indirect1 != NULL_BLOCK then (v, true)
    else
      var (w, ib) := TakeBlock(v, v.fill);
      if ib < 0 then (v, false) else (SetIndirect(w, i, ib), true)
  }

  /** The data block is taken before the range is checked and before the pointer block
      is found, and is not given back when either fails. */
  function MapBlock(v: Vol, i: nat, logical: uint32): (r: (Vol, int))
    requires i < MAX_INODES
    ensures -1 <= r.1 < TOTAL_BLOCKS
  {
    var (w, nb) := TakeBlock(v, 0);
    if nb < 0 then (v, -1)
    else if logical < DIRECT_BLOCKS then (SetDirect(w, i, logical, nb), nb)
    else if logical < MAX_LOGICAL then
      var (u, ok) := EnsureIndirect(w, i);
      if !ok then (w, -1)
      else if u.inodes[i].indirect1 < TOTAL_BLOCKS then
        (SetEntry(u, i, logical - DIRECT_BLOCKS, nb), nb)
      else (u, -1)
    else (w, -1)
  }

  // ----- idkfs_core.c:226-287 -----

  function Patch(v: Vol, b: nat, off: nat, bytes: seq<byte>): Vol
    requires off + |bytes| <= BLOCK_SIZE
  {
    if b < TOTAL_BLOCKS then v.(disk := v.disk[b := Splice(v.disk[b], off, bytes)]) else v
  }

  function CountBlock(v: Vol, i: nat): Vol
    requires i < MAX_INODES
  {
    WithInode(v, i, v.inodes[i].(blockCount := Inc32(v.inodes[i].blockCount)))
  }

  /** One turn of the write loop. */
  function WriteChunk(v: Vol, i: nat, logical: uint32, off: nat, bytes: seq<byte>): (Vol, bool)
    requires i < MAX_INODES && off + |bytes| <= BLOCK_SIZE
  {
    var db := GetBlock(v, i, logical);
    if db == NULL_BLOCK then
      var (w, nb) := MapBlock(v, i, logical);
      if nb < 0 then (w, false) else (Patch(CountBlock(w, i), nb, off, bytes), true)
    else (Patch(v, db, off, bytes), true)
  }

  /** `(uint32_t)(pos / IDKFS_BLOCK_SIZE)`. */
  function Logical(pos: nat): uint32 {
    pos / BLOCK_SIZE % TWO_32
  }

  /** The `can` of both loops: to the end of the block or of the request. */
  function Can(pos: nat, left: nat): (r: nat)
    requires left > 0
    ensures 0 < r <= left && pos % BLOCK_SIZE + r <= BLOCK_SIZE
  {
    Min(BLOCK_SIZE - pos % BLOCK_SIZE, left)
  }

  function WriteLoop(v: Vol, i: nat, offset: nat, data: seq<byte>, total: nat): (Vol, bool)
    requires i < MAX_INODES && total <= |data|
    decreases |data| - total
  {
    if total == |data| then (v, true)
    else
      var pos := offset + total;
      var can := Can(pos, |data| - total);
      var (w, ok) := WriteChunk(v, i, Logical(pos), pos % BLOCK_SIZE, data[total..total + can]);
      if ok then WriteLoop(w, i, offset, data, total + can) else (w, false)
  }

  function GrowSize(v: Vol, i: nat, end: uint64): Vol
    requires i < MAX_INODES
  {
    if end > v.inodes[i].size then WithInode(v, i, v.inodes[i].(size := end)) else v
  }

  function WriteFile(v: Vol, i: nat, data: seq<byte>, offset: nat): (Vol, int)
    requires i < MAX_INODES && offset + |data| < TWO_64
  {
    var (w, ok) := WriteLoop(v, i, offset, data, 0);
    if ok then (GrowSize(w, i, offset + |data|), |data|) else (w, -1)
  }

  function ReadLoop(v: Vol, i: nat, offset: nat, count: nat, total: nat): (r: seq<byte>)
    requires i < MAX_INODES && total <= count
    ensures |r| <= count - total
    decreases count - total
  {
    if total == count then []
    else
      var pos := offset + total;
      var can := Can(pos, count - total);
      var db := GetBlock(v, i, Logical(pos));
      if db == NULL_BLOCK || db >= TOTAL_BLOCKS then []
      else v.disk[db][pos % BLOCK_SIZE..pos % BLOCK_SIZE + can] + ReadLoop(v, i, offset, count, total + can)
  }

  function ReadFile(v: Vol, i: nat, count: nat, offset: nat): (r: seq<byte>)
    requires i < MAX_INODES
    ensures |r| <= count
  {
    var size := v.inodes[i].size;
    if offset >= size then [] else ReadLoop(v, i, offset, Min(count, size - offset), 0)
  }

  // ----- What a file holds -----

  /** Byte o of logical block l of file i, if that block is mapped. */
  function Cell(v: Vol, i: nat, l: uint32, o: nat): Option<byte>
    requires i < MAX_INODES && o < BLOCK_SIZE
  {
    var b := GetBlock(v, i, l);
    if b == NULL_BLOCK || b >= TOTAL_BLOCKS then None else Some(v.disk[b][o])
  }

  function FileByte(v: Vol, i: nat, pos: nat): Option<byte>
    requires i < MAX_INODES
  {
    Cell(v, i, Logical(pos), pos % BLOCK_SIZE)
  }

  // ----- Who owns a block -----

  /** Every place a block number can be held. */
  datatype Slot =
    | Direct(ino: nat, k: nat)
    | Indirect(ino: nat)
    | Entry(ino: nat, k: nat)

  ghost function Val(v: Vol, s: Slot): uint32 {
    if !Allocated(v, s.ino) then NULL_BLOCK
    else
      var n := v.inodes[s.ino];
      match s
      case Direct(_, k) => if k < DIRECT_BLOCKS then n.direct[k] else NULL_BLOCK
      case Indirect(_) => n.indirect1
      case Entry(_, k) =>
        if k < PTRS_PER_BLOCK && n.indirect1 < TOTAL_BLOCKS then PtrAt(v.disk[n.indirect1], k)
        else NULL_BLOCK
  }

  /** What an entry of a fresh pointer block reads as. */
  function Hole(v: Vol): uint32 {
    if v.fill == 0 then 0 else NULL_BLOCK
  }

  ghost predicate Live(v: Vol, s: Slot) {
    Val(v, s) != NULL_BLOCK && (s.Entry? ==> Val(v, s) != Hole(v))
  }

  function DataSlot(i: nat, l: nat): Slot {
    if l < DIRECT_BLOCKS then Direct(i, l) else Entry(i, l - DIRECT_BLOCKS)
  }

  ghost predicate Owned(v: Vol, b: nat) {
    exists s :: Live(v, s) && Val(v, s) == b
  }

  ghost predicate OwnedBy(v: Vol, i: nat, b: nat) {
    exists s: Slot :: s.ino == i && Live(v, s) && Val(v, s) == b
  }

  /** Data blocks marked taken that no file holds: the ones failed mappings dropped. */
  ghost function Leaked(v: Vol): set<nat> {
    set b: nat | DATA_START <= b < TOTAL_BLOCKS && TestBit(v.bits, b) && !Owned(v, b)
  }

  ghost function Mapped(v: Vol, i: nat): set<nat> {
    set l: nat | l < MAX_LOGICAL && Live(v, DataSlot(i, l))
  }

  // ----- The invariant -----

  ghost predicate NoAlias(v: Vol) {
    forall s, t {:trigger Val(v, s), Val(v, t)} ::
      Live(v, s) && Live(v, t) && Val(v, s) == Val(v, t) ==> s == t
  }

  ghost predicate InData(v: Vol) {
    forall s {:trigger Val(v, s)} ::
      Live(v, s) ==> DATA_START <= Val(v, s) < TOTAL_BLOCKS && TestBit(v.bits, Val(v, s))
  }

  ghost predicate MetadataTaken(v: Vol) {
    forall b: nat :: b < DATA_START ==> TestBit(v.bits, b)
  }

  ghost predicate Conserved(v: Vol) {
    v.freeBlocks == |FreeSet(v.bits)|
  }

  /** With zero fill a pointer block never holds NULL_BLOCK and only ever gets one block. */
  ghost predicate ZeroFillShape(v: Vol) {
    v.fill == 0 ==>
      && (forall i: nat, k: nat {:trigger Val(v, Entry(i, k))} ::
            Val(v, Indirect(i)) != NULL_BLOCK && k < PTRS_PER_BLOCK ==>
              Val(v, Entry(i, k)) != NULL_BLOCK)
      && (forall i: nat, j: nat, k: nat {:trigger Val(v, Entry(i, j)), Val(v, Entry(i, k))} ::
            Live(v, Entry(i, j)) && Live(v, Entry(i, k)) ==> j == k)
  }

  ghost predicate Sound(v: Vol) {
    NoAlias(v) && InData(v) && MetadataTaken(v) && Conserved(v) && ZeroFillShape(v)
  }

  ghost predicate BlocksCounted(v: Vol) {
    forall i: nat :: Allocated(v, i) ==> v.inodes[i].blockCount == |Mapped(v, i)|
  }

  ghost predicate Inv(v: Vol) {
    Sound(v) && BlocksCounted(v)
  }
}
