/** The directory struct of idkfs_core.c, its bytes, and the operations that read it from
    and write it back to a file. */
module Directory {
  import opened Machine
  import opened Volume
  import opened Ownership
  import opened FileIO

  const MAX_FILENAME: int := 255
  const MAX_DIRENTS: int := 128
  const ENTRY_SIZE: int := 6 + MAX_FILENAME
  const DIR_SIZE: int := 4 + MAX_DIRENTS * ENTRY_SIZE
  const DIR_BLOCKS: int := 9

  const ENOENT: int := -2
  const ENOTDIR: int := -20

  type NameField = s: seq<byte> | |s| == MAX_FILENAME witness seq(MAX_FILENAME, _ => 0)

  /** A C string without its terminator. */
  type CString = s: seq<byte> | 0 !in s

  datatype DirEntry = DirEntry(inode: uint32, ftype: byte, nameLen: byte, name: NameField)
  datatype Dir = Dir(count: uint32, entries: seq<DirEntry>)
  type Directory = d: Dir | |d.entries| == MAX_DIRENTS witness Dir(0, seq(MAX_DIRENTS, _ => ZeroEntry()))

  function ZeroEntry(): DirEntry {
    DirEntry(0, 0, 0, seq(MAX_FILENAME, _ => 0))
  }

  function EmptyDir(): (d: Directory)
    ensures d.count == 0
  {
    Dir(0, seq(MAX_DIRENTS, _ => ZeroEntry()))
  }

  // ----- The struct in memory -----

  function EntryBytes(e: DirEntry): (b: seq<byte>)
    ensures |b| == ENTRY_SIZE
  {
    Bytes32(e.inode) + [e.ftype, e.nameLen] + e.name
  }

  function EntryOf(b: seq<byte>): DirEntry
    requires |b| == ENTRY_SIZE
  {
    DirEntry(Le32(b[..4]), b[4], b[5], b[6..])
  }

  function EntriesBytes(es: seq<DirEntry>): (b: seq<byte>)
    ensures |b| == |es| * ENTRY_SIZE
  {
    if es == [] then [] else EntriesBytes(es[..|es| - 1]) + EntryBytes(es[|es| - 1])
  }

  function DirBytes(d: Directory): (b: seq<byte>)
    ensures |b| == DIR_SIZE
  {
    Bytes32(d.count) + EntriesBytes(d.entries)
  }

  function DirFrom(b: seq<byte>): Directory
    requires |b| == DIR_SIZE
  {
    Dir(Le32(b[..4]), seq(MAX_DIRENTS, k requires 0 <= k < MAX_DIRENTS =>
      EntryOf(b[4 + k * ENTRY_SIZE..4 + k * ENTRY_SIZE + ENTRY_SIZE])))
  }

  lemma EntryRoundTrip(e: DirEntry)
    ensures EntryOf(EntryBytes(e)) == e
  {
    var b := EntryBytes(e);
    assert b[..4] == Bytes32(e.inode) && b[6..] == e.name;
    Le32OfBytes32(e.inode);
  }

  lemma {:induction false} EntriesBytesAt(es: seq<DirEntry>, k: nat)
    requires k < |es|
    ensures EntriesBytes(es)[k * ENTRY_SIZE..k * ENTRY_SIZE + ENTRY_SIZE] == EntryBytes(es[k])
  {
    var front := es[..|es| - 1];
    if k < |es| - 1 {
      EntriesBytesAt(front, k);
      assert EntriesBytes(es)[k * ENTRY_SIZE..k * ENTRY_SIZE + ENTRY_SIZE]
        == EntriesBytes(front)[k * ENTRY_SIZE..k * ENTRY_SIZE + ENTRY_SIZE];
    }
  }

  /** Writing the struct out and reading it back gives the same directory. */
  lemma DirRoundTrip(d: Directory)
    ensures DirFrom(DirBytes(d)) == d
  {
    var b := DirBytes(d);
    assert b[..4] == Bytes32(d.count);
    Le32OfBytes32(d.count);
    forall k | 0 <= k < MAX_DIRENTS
      ensures DirFrom(b).entries[k] == d.entries[k]
    {
      EntriesBytesAt(d.entries, k);
      assert b[4 + k * ENTRY_SIZE..4 + k * ENTRY_SIZE + ENTRY_SIZE]
        == EntriesBytes(d.entries)[k * ENTRY_SIZE..k * ENTRY_SIZE + ENTRY_SIZE];
      EntryRoundTrip(d.entries[k]);
    }
  }

  // ----- Names -----

  /** `strncpy(field, name, 255)`. */
  function StoreName(name: CString): NameField {
    seq(MAX_FILENAME, k requires 0 <= k => if k < |name| then name[k] else 0)
  }

  /** `strncmp(field, name, 255) == 0`, from character k on. */
  predicate SameName(field: NameField, name: CString, k: nat)
    requires k <= MAX_FILENAME && k <= |name|
    decreases MAX_FILENAME - k
  {
    if k == MAX_FILENAME then true
    else
      var c := if k < |name| then name[k] else 0;
      field[k] == c && (c == 0 || SameName(field, name, k + 1))
  }

  /** The name a field holds: up to its first NUL, if any. */
  function NameOf(field: seq<byte>): CString {
    if field == [] || field[0] == 0 then [] else [field[0]] + NameOf(field[1..])
  }

  function Cut(name: CString): CString {
    if |name| <= MAX_FILENAME then name else name[..MAX_FILENAME]
  }

  lemma {:induction false} SameNameMeans(field: NameField, name: CString, k: nat)
    requires k <= MAX_FILENAME && k <= |name|
    ensures SameName(field, name, k) <==> NameOf(field[k..]) == Cut(name)[k..]
    decreases MAX_FILENAME - k
  {
    if k < MAX_FILENAME {
      assert field[k..][1..] == field[k + 1..];
      if k < |name| {
        SameNameMeans(field, name, k + 1);
        assert Cut(name)[k..] == [name[k]] + Cut(name)[k + 1..];
        assert field[k] == name[k] ==> NameOf(field[k..]) == [field[k]] + NameOf(field[k + 1..]);
        assert NameOf(field[k..]) == Cut(name)[k..] ==>
          NameOf(field[k..])[0] == name[k] && NameOf(field[k..])[1..] == Cut(name)[k + 1..];
      }
    }
  }

  lemma {:induction false} StoredName(name: CString, k: nat)
    requires k <= MAX_FILENAME && k <= |name|
    ensures NameOf(StoreName(name)[k..]) == Cut(name)[k..]
    decreases MAX_FILENAME - k
  {
    var field := StoreName(name);
    if k < MAX_FILENAME {
      assert field[k..][1..] == field[k + 1..];
      if k < |name| {
        assert name[k] in name;
        StoredName(name, k + 1);
        assert Cut(name)[k..] == [name[k]] + Cut(name)[k + 1..];
      }
    }
  }

  // ----- Operations on the struct -----

  function NewEntry(name: CString, ino: uint32, ftype: byte): DirEntry {
    DirEntry(ino, ftype, |name| % 0x100, StoreName(name))
  }

  function Append(d: Directory, e: DirEntry): Directory
    requires d.count < MAX_DIRENTS
  {
    Dir(d.count + 1, d.entries[d.count := e])
  }

  /** Index of the first entry with this name from k on, or the count. */
  function FindEntry(d: Directory, name: CString, k: nat): (r: nat)
    requires k <= d.count <= MAX_DIRENTS
    ensures k <= r <= d.count
    ensures r < d.count ==> SameName(d.entries[r].name, name, 0)
    ensures forall m :: k <= m < r ==> !SameName(d.entries[m].name, name, 0)
    decreases d.count - k
  {
    if k == d.count || SameName(d.entries[k].name, name, 0) then k else FindEntry(d, name, k + 1)
  }

  /** Entries after idx move down one place and the last is zeroed. */
  function RemoveAt(d: Directory, idx: nat): Directory
    requires idx < d.count <= MAX_DIRENTS
  {
    Dir(d.count - 1, d.entries[..idx] + d.entries[idx + 1..d.count] + [ZeroEntry()] + d.entries[d.count..])
  }

  // ----- Directories as files (idkfs_core.c:289-343) -----

  /** `idkfs_read(fs, dir_ino, &dir, sizeof(dir), 0)`: what a short read leaves unset is
      taken as zero. */
  function LoadDir(v: Vol, d: nat): Directory
    requires d < MAX_INODES
  {
    var b := ReadFile(v, d, DIR_SIZE, 0);
    DirFrom(b + Zeros(DIR_SIZE - |b|))
  }

  function StoreDir(v: Vol, d: nat, dir: Directory): (Vol, int)
    requires d < MAX_INODES
  {
    WriteFile(v, d, DirBytes(dir), 0)
  }

  /** The result of the write is not looked at. */
  function DirAdd(v: Vol, d: nat, name: CString, ino: uint32, ftype: byte): (Vol, int)
    requires d < MAX_INODES
  {
    var dir := if v.inodes[d].size == 0 then EmptyDir() else LoadDir(v, d);
    if dir.count >= MAX_DIRENTS then (v, -1)
    else (StoreDir(v, d, Append(dir, NewEntry(name, ino, ftype))).0, 0)
  }

  function DirLookup(v: Vol, d: nat, name: CString): int
    requires d < MAX_INODES
  {
    if v.inodes[d].size == 0 then -1
    else
      var dir := LoadDir(v, d);
      if dir.count > MAX_DIRENTS then -1
      else
        var k := FindEntry(dir, name, 0);
        if k < dir.count then dir.entries[k].inode else -1
  }

  function DirRemove(v: Vol, d: nat, name: CString): (Vol, int)
    requires d < MAX_INODES
  {
    if v.inodes[d].ftype != FT_DIR then (v, ENOTDIR)
    else if v.inodes[d].size == 0 then (v, ENOENT)
    else
      var dir := LoadDir(v, d);
      if dir.count > MAX_DIRENTS then (v, ENOENT)
      else
        var k := FindEntry(dir, name, 0);
        if k == dir.count then (v, ENOENT)
        else (StoreDir(v, d, RemoveAt(dir, k)).0, 0)
  }

  // ----- A directory that has been written once is fully mapped -----

  ghost predicate DirReady(v: Vol, d: nat) {
    && Allocated(v, d) && v.inodes[d].ftype == FT_DIR && v.inodes[d].size == DIR_SIZE
    && forall l: uint32 {:trigger GetBlock(v, d, l)} :: l < DIR_BLOCKS ==> GetBlock(v, d, l) != NULL_BLOCK
  }

  /** Overwriting mapped blocks changes the disk and nothing else. */
  lemma {:induction false} WriteLoopInPlace(v: Vol, i: nat, offset: nat, data: seq<byte>, total: nat)
    requires Inv(v) && Allocated(v, i) && total <= |data| && offset + |data| <= ADDRESSABLE
    requires forall l: uint32 {:trigger GetBlock(v, i, l)} ::
               offset / BLOCK_SIZE <= l < EndBlock(offset, |data|) ==> GetBlock(v, i, l) != NULL_BLOCK
    ensures var (w, ok) := WriteLoop(v, i, offset, data, total);
            ok && w == v.(disk := w.disk) && Inv(w) && SameVals(v, w)
    decreases |data| - total
  {
    hide WriteChunk, Inv, Val, GetBlock;
    if total < |data| {
      var pos := offset + total;
      var can := Can(pos, |data| - total);
      var bytes := data[total..total + can];
      LogicalBelow(pos);
      assert GetBlock(v, i, Logical(pos)) != NULL_BLOCK;
      ChunkInPlace(v, i, Logical(pos), pos % BLOCK_SIZE, bytes);
      var (w, ok) := WriteChunk(v, i, Logical(pos), pos % BLOCK_SIZE, bytes);
      WriteLoopInPlace(w, i, offset, data, total + can);
    }
  }

  lemma ChunkInPlace(v: Vol, i: nat, l: uint32, off: nat, bytes: seq<byte>)
    requires Inv(v) && Allocated(v, i) && off + |bytes| <= BLOCK_SIZE && GetBlock(v, i, l) != NULL_BLOCK
    ensures var w := WriteChunk(v, i, l, off, bytes).0;
            && WriteChunk(v, i, l, off, bytes).1 && w == v.(disk := w.disk) && Inv(w) && SameVals(v, w)
            && forall m: uint32 {:trigger GetBlock(w, i, m)} :: GetBlock(w, i, m) == GetBlock(v, i, m)
  {
    GetBlockCases(v, i, l);
    PatchDataInv(v, DataSlot(i, l), GetBlock(v, i, l), off, bytes, i);
    var w := Patch(v, GetBlock(v, i, l), off, bytes);
    forall m: uint32
      ensures GetBlock(w, i, m) == GetBlock(v, i, m)
    {
      GetBlockCases(v, i, m);
      GetBlockCases(w, i, m);
      assert Val(w, DataSlot(i, m)) == Val(v, DataSlot(i, m));
    }
  }

  lemma SameBytesSameDir(v: Vol, w: Vol, d: nat)
    requires d < MAX_INODES && w.inodes[d].size == v.inodes[d].size
    requires forall pos: nat :: pos < DIR_SIZE ==> FileByte(w, d, pos) == FileByte(v, d, pos)
    ensures LoadDir(w, d) == LoadDir(v, d)
  {
    hide ReadFile, FileByte;
    ReadFileMapped(v, d, DIR_SIZE, 0);
    ReadFileMapped(w, d, DIR_SIZE, 0);
    MappedPrefixSame(v, w, d, 0, Min(DIR_SIZE, v.inodes[d].size));
  }

  lemma DirBytesRead(w: Vol, d: nat, dir: Directory)
    requires d < MAX_INODES && w.inodes[d].size == DIR_SIZE
    requires forall pos: nat :: pos < DIR_SIZE ==> FileByte(w, d, pos) == Some(DirBytes(dir)[pos])
    ensures LoadDir(w, d) == dir
  {
    hide ReadFile, FileByte, DirBytes;
    ReadFileMapped(w, d, DIR_SIZE, 0);
    PrefixIsMapped(w, d, 0, DIR_SIZE, DirBytes(dir));
    assert DirBytes(dir) + Zeros(0) == DirBytes(dir);
    DirRoundTrip(dir);
  }

  /** Storing into a directory that already holds entries never allocates and never fails;
      the struct read back is the struct stored, and no other file notices. */
  lemma StoreDirReady(v: Vol, d: nat, dir: Directory)
    requires Inv(v) && DirReady(v, d)
    ensures var w := StoreDir(v, d, dir).0;
            && StoreDir(v, d, dir).1 >= 0 && w == v.(disk := w.disk) && Inv(w) && SameVals(v, w)
            && DirReady(w, d) && LoadDir(w, d) == dir
            && (forall j: nat, pos: nat {:trigger FileByte(w, j, pos)} ::
                  Allocated(v, j) && pos < ADDRESSABLE && j != d ==> FileByte(w, j, pos) == FileByte(v, j, pos))
            && (forall j: nat, l: uint32 {:trigger GetBlock(w, j, l)} :: Allocated(v, j) ==> GetBlock(w, j, l) == GetBlock(v, j, l))
  {
    var b := DirBytes(dir);
    assert EndBlock(0, DIR_SIZE) == DIR_BLOCKS;
    hide DirBytes;
    WriteLoopInPlace(v, d, 0, b, 0);
    var (w, ok) := WriteLoop(v, d, 0, b, 0);
    assert StoreDir(v, d, dir) == (w, DIR_SIZE);
    WriteFileRefines(v, d, b, 0);
    hide WriteLoop;
    forall j: nat, l: uint32 | Allocated(v, j)
      ensures GetBlock(w, j, l) == GetBlock(v, j, l)
    {
      GetBlockCases(v, j, l);
      GetBlockCases(w, j, l);
      assert Val(w, DataSlot(j, l)) == Val(v, DataSlot(j, l));
    }
    forall pos: nat | pos < DIR_SIZE
      ensures FileByte(w, d, pos) == Some(b[pos])
    {
      assert FileByte(w, d, pos) == ByteAfter(v, d, 0, b, d, pos);
    }
    DirBytesRead(w, d, dir);
  }
}
