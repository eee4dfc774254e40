/** What the in-memory and on-disk forms of the userspace file system stand for, in plain
    numbers: which bit, which byte, which block. */
module Layout {
  import opened Machine
  import opened Bitmap
  import opened Volume
  import opened Ownership
  import opened FileIO
  import opened Directory

  // ----- The bitmap and the allocator -----

  /** Block b is taken when bit b mod 8 of byte b / 8 is set, least significant bit first. */
  lemma BitOfBlock(bits: seq<bv8>, b: nat)
    requires b < 8 * |bits|
    ensures TestBit(bits, b) <==> bits[b / 8] & [1, 2, 4, 8, 16, 32, 64, 128][b % 8] != 0
  {
  }

  ghost predicate Lowest(s: set<nat>, b: int) {
    b in s && forall c: nat :: c in s ==> b <= c
  }

  /** A block is taken from 138 up, the lowest clear one, and only if there is none there from
      below; with it goes one bit, one block's old content and one of free_blocks. */
  lemma TakesLowest(v: Vol, f: byte)
    ensures var (w, b) := TakeBlock(v, f);
            var high := set c: nat | c in FreeSet(v.bits) && 138 <= c;
            && (FreeSet(v.bits) == {} ==> (w, b) == (v, -1))
            && (FreeSet(v.bits) != {} ==>
                  && Lowest(if high != {} then high else FreeSet(v.bits), b) && b < 65536
                  && FreeSet(w.bits) == FreeSet(v.bits) - {b}
                  && w == v.(bits := w.bits, disk := v.disk[b := seq(4096, _ => f)], freeBlocks := w.freeBlocks)
                  && w.freeBlocks == (v.freeBlocks + 0xFFFF_FFFF) % 0x1_0000_0000)
  {
    var (w, b) := TakeBlock(v, f);
    var high := set c: nat | c in FreeSet(v.bits) && 138 <= c;
    assert forall c: nat :: c in FreeSet(v.bits) <==> c < 65536 && !TestBit(v.bits, c);
    if FreeSet(v.bits) != {} {
      FreeSetOps(v.bits, b);
      hide FreeSet, TestBit, SetBit, FillBlock;
      if high != {} {
        var h :| h in high;
        assert b >= 138;
      } else {
        assert b !in high;
      }
    }
  }

  /** Of a mapping that needs two blocks the data block is the lower one. */
  lemma MapsLowest(v: Vol, i: nat, l: uint32)
    requires Sound(v) && Allocated(v, i) && GetBlock(v, i, l) == NULL_BLOCK && MapBlock(v, i, l).1 >= 0
    ensures var (w, b) := MapBlock(v, i, l);
            && Lowest(FreeSet(v.bits), b)
            && (l >= 12 && v.inodes[i].indirect1 == 0xFFFF_FFFF ==> Lowest(FreeSet(v.bits) - {b}, w.inodes[i].indirect1))
  {
    TakeBlockSound(v, 0);
    LowestSound(v, 0);
    var t := TakeBlock(v, 0).0;
    if l >= DIRECT_BLOCKS && v.inodes[i].indirect1 == NULL_BLOCK {
      TakeBlockSound(t, v.fill);
      LowestSound(t, v.fill);
      assert t.inodes == v.inodes;
    }
    hide TakeBlock, FreeSet, Sound;
  }

  lemma LowestSound(v: Vol, f: byte)
    requires Sound(v) && TakeBlock(v, f).1 >= 0
    ensures Lowest(FreeSet(v.bits), TakeBlock(v, f).1)
  {
    TakesLowest(v, f);
    assert forall c: nat :: c in FreeSet(v.bits) ==> 138 <= c;
  }

  // ----- The bytes of a file -----

  function DiskByte(v: Vol, b: int, o: nat): Option<byte>
    requires o < 4096
  {
    if 0 <= b < 65536 then Some(v.disk[b][o]) else None
  }

  /** Byte pos of a file: the first 49152 through the inode's twelve pointers, the next 4 MiB
      through the little-endian words of its one pointer block, none past that or behind a
      pointer that is no block of the disk. */
  lemma ByteOfFile(v: Vol, i: nat, pos: nat)
    requires i < 4096 && pos < 0x1000_0000_0000
    ensures FileByte(v, i, pos) ==
              var l, o, n := pos / 4096, pos % 4096, v.inodes[i];
              if l < 12 then DiskByte(v, n.direct[l], o)
              else if l < 1036 && n.indirect1 < 65536 then
                var p, k := v.disk[n.indirect1], 4 * (l - 12);
                DiskByte(v, (p[k] as int) + 0x100 * (p[k + 1] as int) + 0x1_0000 * (p[k + 2] as int) + 0x100_0000 * (p[k + 3] as int), o)
              else None
  {
    LogicalBelow(pos);
  }

  // ----- A directory's bytes -----

  /** A count, then 128 entries of 261 bytes: inode, type, length of the name, and the name in
      255 bytes; numbers are little-endian. */
  lemma DirLayout(b: seq<byte>, k: nat)
    requires |b| == 33412 && k < 128
    ensures var d, at := DirFrom(b), 4 + 261 * k;
            && d.count == (b[0] as int) + 0x100 * (b[1] as int) + 0x1_0000 * (b[2] as int) + 0x100_0000 * (b[3] as int)
            && d.entries[k].inode
               == (b[at] as int) + 0x100 * (b[at + 1] as int) + 0x1_0000 * (b[at + 2] as int) + 0x100_0000 * (b[at + 3] as int)
            && d.entries[k].ftype == b[at + 4] && d.entries[k].nameLen == b[at + 5]
            && |d.entries[k].name| == 255 && forall j :: 0 <= j < 255 ==> d.entries[k].name[j] == b[at + 6 + j]
  {
  }

  /** The first 255 characters of a name. */
  function First255(name: CString): CString {
    if |name| <= 255 then name else name[..255]
  }

  /** An entry made for a name: the name cut to 255 characters and filled up with zeros, and
      its length in one byte, which for names of up to 255 is what there is to copy out. */
  lemma EntryMeans(name: CString, ino: uint32, ftype: byte)
    ensures var e := NewEntry(name, ino, ftype);
            && e.inode == ino && e.ftype == ftype && e.nameLen == |name| % 256
            && NameOf(e.name) == First255(name)
            && (forall k :: |name| <= k < 255 ==> e.name[k] == 0)
            && (|name| <= 255 ==> e.name[..e.nameLen] == name)
  {
    StoredName(name, 0);
  }

  /** Entry k is the first to hold the name's first 255 characters. */
  ghost predicate FirstNamed(dir: Directory, name: CString, k: nat)
    requires k < 128
  {
    && NameOf(dir.entries[k].name) == First255(name)
    && forall j :: 0 <= j < k ==> NameOf(dir.entries[j].name) != First255(name)
  }

  /** A lookup gives the inode of the first entry that holds the name's first 255 characters,
      or -1: when there is none, and in a directory that was never written. */
  lemma LookupMeans(v: Vol, d: nat, name: CString)
    requires d < 4096 && LoadDir(v, d).count <= 128
    ensures var dir, r := LoadDir(v, d), DirLookup(v, d, name);
            && (v.inodes[d].size == 0 ==> r == -1)
            && ((forall k :: 0 <= k < dir.count ==> NameOf(dir.entries[k].name) != First255(name)) ==> r == -1)
            && (v.inodes[d].size != 0 ==> forall k :: 0 <= k < dir.count && FirstNamed(dir, name, k) ==> r == dir.entries[k].inode)
  {
    hide LoadDir, SameName, NameOf;
    var dir := LoadDir(v, d);
    forall k | 0 <= k < dir.count
      ensures SameName(dir.entries[k].name, name, 0) <==> NameOf(dir.entries[k].name) == First255(name)
    {
      NameMeans(dir.entries[k].name, name);
    }
    var f := FindEntry(dir, name, 0);
    hide FindEntry;
    assert f < dir.count ==> NameOf(dir.entries[f].name) == First255(name);
  }

  lemma NameMeans(field: NameField, name: CString)
    ensures SameName(field, name, 0) <==> NameOf(field) == First255(name)
  {
    hide NameOf;
    SameNameMeans(field, name, 0);
    assert field[0..] == field && Cut(name)[0..] == Cut(name);
  }

  /** Removing entry idx: those after it move down one place, in order, and the last place is
      zeroed. */
  lemma RemoveMeans(d: Directory, idx: nat, k: nat)
    requires idx < d.count <= 128 && k < 128
    ensures var r := RemoveAt(d, idx);
            && r.count == d.count - 1
            && r.entries[k] == if k < idx || d.count <= k then d.entries[k]
                               else if k < d.count - 1 then d.entries[k + 1]
                               else DirEntry(0, 0, 0, seq(255, _ => 0))
  {
  }

  /** Removing from anything but a directory is ENOTDIR, and of a name not held ENOENT; either
      leaves the volume as it was. */
  lemma RemoveAnswers(v: Vol, d: nat, name: CString)
    requires d < 4096 && LoadDir(v, d).count <= 128
    ensures var dir, (w, r) := LoadDir(v, d), DirRemove(v, d, name);
            if v.inodes[d].ftype != 2 then (w, r) == (v, -20)
            else if v.inodes[d].size == 0 || (forall k :: 0 <= k < dir.count ==> NameOf(dir.entries[k].name) != First255(name)) then
              (w, r) == (v, -2)
            else r == 0
  {
    hide LoadDir, SameName, NameOf, StoreDir, RemoveAt;
    var dir := LoadDir(v, d);
    forall k | 0 <= k < dir.count
      ensures SameName(dir.entries[k].name, name, 0) <==> NameOf(dir.entries[k].name) == First255(name)
    {
      NameMeans(dir.entries[k].name, name);
    }
    var f := FindEntry(dir, name, 0);
    hide FindEntry;
    assert f < dir.count ==> NameOf(dir.entries[f].name) == First255(name);
  }
}
