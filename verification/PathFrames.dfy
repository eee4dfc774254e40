/** After a name is added or removed, which paths resolve differently: only those that look
    that name up in that directory. */
module PathFrames {
  import opened Machine
  import opened Volume
  import opened Directory
  import opened Namespace
  import opened TreeSteps
  import opened Operations
  import opened Accounting
  import opened Paths

  /** Walking `toks` from `cur` looks `name` up in directory p at some step. */
  predicate Uses(v: Vol, cur: nat, toks: seq<CString>, p: nat, name: CString)
    requires cur < MAX_INODES
    decreases |toks|
  {
    && toks != [] && v.inodes[cur].ftype == FT_DIR
    && (|| (cur == p && Cut(toks[0]) == Cut(name))
        || (0 <= DirLookup(v, cur, toks[0]) < MAX_INODES && Uses(v, DirLookup(v, cur, toks[0]), toks[1..], p, name)))
  }

  lemma SameNameStored(a: CString, b: CString)
    ensures SameName(StoreName(a), b, 0) <==> Cut(a) == Cut(b)
  {
    SameNameMeans(StoreName(a), b, 0);
    StoredName(a, 0);
  }

  /** Two names that match the same entry are the same name. */
  lemma SameEntryName(field: NameField, a: CString, b: CString)
    requires SameName(field, a, 0)
    ensures SameName(field, b, 0) <==> Cut(a) == Cut(b)
  {
    SameNameMeans(field, a, 0);
    SameNameMeans(field, b, 0);
  }

  lemma DirOfTree(v: Vol, d: nat)
    requires Tree(v) && IsDir(v, d)
    ensures d < MAX_INODES && v.inodes[d].size != 0 && v.inodes[d].ftype == FT_DIR && 2 <= LoadDir(v, d).count <= MAX_DIRENTS
  {
    TreeDir(v, d);
    hide LoadDir, Tree;
  }

  lemma LookupAllocated(v: Vol, d: nat, name: CString)
    requires Tree(v) && IsDir(v, d)
    ensures DirLookup(v, d, name) >= 0 ==> DirLookup(v, d, name) < MAX_INODES && Allocated(v, DirLookup(v, d, name))
  {
    hide DirLookup, Tree, LoadDir, FindEntry;
    if DirLookup(v, d, name) >= 0 {
      FoundIsNamed(v, d, name);
    }
  }

  // ----- Adding -----

  lemma {:induction false} FindAppend(d: Directory, e: DirEntry, name: CString, k: nat)
    requires k <= d.count < MAX_DIRENTS
    ensures FindEntry(Append(d, e), name, k) ==
              if FindEntry(d, name, k) < d.count then FindEntry(d, name, k)
              else if SameName(e.name, name, 0) then d.count else d.count + 1
    decreases d.count - k
  {
    hide SameName;
    if k < d.count {
      FindAppend(d, e, name, k + 1);
    }
  }

  lemma AppendLookup(d: Directory, name: CString, i: uint32, t: byte, n: CString)
    requires d.count < MAX_DIRENTS
    ensures var a := Append(d, NewEntry(name, i, t));
            var k := FindEntry(a, n, 0);
            && a.count == d.count + 1
            && if FindEntry(d, n, 0) < d.count then k == FindEntry(d, n, 0) && a.entries[k] == d.entries[k]
               else if Cut(n) == Cut(name) then k == d.count && a.entries[k].inode == i
               else k == a.count
  {
    hide FindEntry, SameName, StoreName;
    FindAppend(d, NewEntry(name, i, t), n, 0);
    SameNameStored(name, n);
  }

  lemma AddedLookup(v: Vol, w: Vol, p: nat, i: nat, t: byte, name: CString, d: nat, n: CString)
    requires Tree(v) && Tree(w) && Added(v, w, p, i, t, name) && IsDir(v, d) && i < MAX_INODES
    ensures DirLookup(w, d, n) ==
              if DirLookup(v, d, n) >= 0 || d != p || Cut(n) != Cut(name) then DirLookup(v, d, n) else i
  {
    hide LoadDir, FindEntry, DirLookup, Tree, Added, Append, NewEntry, Cut, IsDir;
    AddedRange(v, w, p, i, t, name);
    AddedDirIs(v, w, p, i, t, name, d);
    AddedIsDir(v, w, p, i, t, name, d);
    DirOfTree(v, d);
    DirOfTree(w, d);
    LookupIs(v, d, n);
    LookupIs(w, d, n);
    if d == p {
      AppendLookup(LoadDir(v, p), name, i, t, n);
    }
  }

  lemma AddedRange(v: Vol, w: Vol, p: nat, i: nat, t: byte, name: CString)
    requires Added(v, w, p, i, t, name)
    ensures p < MAX_INODES && 1 <= i < MAX_INODES && !Allocated(v, i) && LoadDir(v, p).count < MAX_DIRENTS && IsDir(v, p)
    ensures forall j: nat :: j < MAX_INODES && j != i ==> w.inodes[j].ftype == v.inodes[j].ftype
  {
    hide LoadDir, DirReady;
  }

  /** After create or mkdir, every path that resolved resolves to the same inode, and every
      path that does not ask for the new name resolves or fails as before. */
  lemma {:induction false} AddedWalk(v: Vol, w: Vol, p: nat, i: nat, t: byte, name: CString, cur: nat, toks: seq<CString>)
    requires Tree(v) && Tree(w) && Added(v, w, p, i, t, name) && Allocated(v, cur) && cur < MAX_INODES
    requires Walk(v, cur, toks) >= 0 || !Uses(v, cur, toks, p, name)
    ensures Walk(w, cur, toks) == Walk(v, cur, toks)
    decreases |toks|
  {
    hide LoadDir, DirLookup, Tree, Added, Cut;
    AddedRange(v, w, p, i, t, name);
    if toks != [] && v.inodes[cur].ftype == FT_DIR {
      AddedLookup(v, w, p, i, t, name, cur, toks[0]);
      LookupAllocated(v, cur, toks[0]);
      var next := DirLookup(v, cur, toks[0]);
      if next >= 0 {
        AddedWalk(v, w, p, i, t, name, next, toks[1..]);
      }
    }
  }

  // ----- Removing -----

  lemma {:induction false} FindAfterGap(d: Directory, idx: nat, name: CString, k: nat)
    requires idx <= k < d.count <= MAX_DIRENTS
    ensures FindEntry(RemoveAt(d, idx), name, k) == FindEntry(d, name, k + 1) - 1
    decreases d.count - k
  {
    hide SameName;
    if k < d.count - 1 {
      FindAfterGap(d, idx, name, k + 1);
    }
  }

  lemma {:induction false} FindBeforeGap(d: Directory, idx: nat, name: CString, k: nat)
    requires k <= idx < d.count <= MAX_DIRENTS
    ensures FindEntry(RemoveAt(d, idx), name, k) ==
              if FindEntry(d, name, k) < idx then FindEntry(d, name, k) else FindEntry(d, name, idx + 1) - 1
    decreases idx - k
  {
    hide SameName;
    if k < idx {
      FindBeforeGap(d, idx, name, k + 1);
    } else {
      FindAfterGap(d, idx, name, idx);
    }
  }

  lemma {:induction false} FindSkips(d: Directory, name: CString, k: nat, idx: nat)
    requires k <= idx <= d.count <= MAX_DIRENTS && FindEntry(d, name, k) >= idx
    ensures FindEntry(d, name, k) == FindEntry(d, name, idx)
    decreases idx - k
  {
    hide SameName;
    if k < idx {
      FindSkips(d, name, k + 1, idx);
    }
  }

  lemma RemoveLookup(d: Directory, idx: nat, n: CString)
    requires 2 <= idx < d.count <= MAX_DIRENTS && FindEntry(d, n, 0) != idx
    ensures var r, k := RemoveAt(d, idx), FindEntry(d, n, 0);
            var m := FindEntry(r, n, 0);
            if k == d.count then m == r.count else m < r.count && r.entries[m] == d.entries[k]
  {
    hide SameName;
    FindBeforeGap(d, idx, n, 0);
    var k := FindEntry(d, n, 0);
    if k >= idx {
      FindSkips(d, n, 0, idx);
    }
    hide FindEntry;
  }

  lemma RemovedRange(v: Vol, w: Vol, p: nat, idx: nat, i: nat)
    requires Removed(v, w, p, idx, i)
    ensures p < MAX_INODES && i < MAX_INODES && 2 <= idx < LoadDir(v, p).count <= MAX_DIRENTS
    ensures LoadDir(v, p).entries[idx].inode == i && IsDir(v, p) && Allocated(v, i) && v.inodes[i].ftype != FT_DIR
    ensures forall j: nat :: j < MAX_INODES ==> (w.inodes[j].ftype == FT_DIR <==> v.inodes[j].ftype == FT_DIR)
  {
    hide LoadDir, DirReady;
  }

  lemma RemovedLookup(v: Vol, w: Vol, p: nat, idx: nat, i: nat, d: nat, n: CString)
    requires Tree(v) && Tree(w) && Removed(v, w, p, idx, i) && IsDir(v, d) && d < MAX_INODES
    requires d != p || FindEntry(LoadDir(v, d), n, 0) != idx || LoadDir(v, d).count > MAX_DIRENTS
    ensures DirLookup(w, d, n) == DirLookup(v, d, n)
  {
    hide LoadDir, FindEntry, DirLookup, Tree, Removed, RemoveAt, IsDir;
    RemovedRange(v, w, p, idx, i);
    RemovedDirIs(v, w, p, idx, i, d);
    DirOfTree(v, d);
    DirOfTree(w, d);
    LookupIs(v, d, n);
    LookupIs(w, d, n);
    if d == p {
      RemoveLookup(LoadDir(v, p), idx, n);
    }
  }

  /** The removed name is gone if and only if the directory held it once. */
  lemma RemovedNameIff(v: Vol, w: Vol, p: nat, idx: nat, i: nat, name: CString)
    requires Tree(v) && Tree(w) && Removed(v, w, p, idx, i) && p < MAX_INODES
    requires 2 <= idx < LoadDir(v, p).count <= MAX_DIRENTS && idx == FindEntry(LoadDir(v, p), name, 0)
    ensures DirLookup(w, p, name) < 0 <==> FindEntry(LoadDir(v, p), name, idx + 1) == LoadDir(v, p).count
  {
    hide LoadDir, FindEntry, DirLookup, Tree, Removed, RemoveAt;
    RemovedRange(v, w, p, idx, i);
    RemovedDirIs(v, w, p, idx, i, p);
    DirOfTree(w, p);
    LookupIs(w, p, name);
    FindBeforeGap(LoadDir(v, p), idx, name, 0);
    RemoveCount(LoadDir(v, p), idx);
  }

  lemma RemoveCount(d: Directory, idx: nat)
    requires idx < d.count <= MAX_DIRENTS
    ensures RemoveAt(d, idx).count == d.count - 1
  {
  }

  lemma FoundOther(d: Directory, name: CString, n: CString, idx: nat)
    requires idx < d.count <= MAX_DIRENTS && idx == FindEntry(d, name, 0) && Cut(n) != Cut(name)
    ensures FindEntry(d, n, 0) != idx
  {
    SameEntryName(d.entries[idx].name, name, n);
    hide SameName, Cut;
  }

  /** After unlink, every path that does not ask for the removed name resolves or fails
      exactly as before. */
  lemma {:induction false} RemovedWalk(v: Vol, w: Vol, p: nat, idx: nat, i: nat, name: CString, cur: nat, toks: seq<CString>)
    requires Tree(v) && Tree(w) && Removed(v, w, p, idx, i) && Allocated(v, cur) && cur < MAX_INODES && p < MAX_INODES
    requires 2 <= idx < LoadDir(v, p).count <= MAX_DIRENTS && idx == FindEntry(LoadDir(v, p), name, 0)
    requires !Uses(v, cur, toks, p, name)
    ensures Walk(w, cur, toks) == Walk(v, cur, toks)
    decreases |toks|
  {
    hide LoadDir, DirLookup, FindEntry, Tree, Removed, Cut;
    RemovedRange(v, w, p, idx, i);
    if toks != [] && v.inodes[cur].ftype == FT_DIR {
      if cur == p {
        FoundOther(LoadDir(v, p), name, toks[0], idx);
      }
      RemovedLookup(v, w, p, idx, i, cur, toks[0]);
      LookupAllocated(v, cur, toks[0]);
      var next := DirLookup(v, cur, toks[0]);
      if next >= 0 {
        RemovedWalk(v, w, p, idx, i, name, next, toks[1..]);
      }
    }
  }

  /** A walk through a file's entry ends there. */
  lemma {:induction false} UsesEndsAtFile(v: Vol, cur: nat, toks: seq<CString>, p: nat, name: CString)
    requires Tree(v) && cur < MAX_INODES && Allocated(v, cur) && p < MAX_INODES
    requires Uses(v, cur, toks, p, name) && Walk(v, cur, toks) >= 0
    requires DirLookup(v, p, name) >= 0 && DirLookup(v, p, name) < MAX_INODES && v.inodes[DirLookup(v, p, name)].ftype != FT_DIR
    ensures Walk(v, cur, toks) == DirLookup(v, p, name)
    decreases |toks|
  {
    hide LoadDir, DirLookup, Tree;
    LookupAllocated(v, cur, toks[0]);
    var next := DirLookup(v, cur, toks[0]);
    if cur == p && Cut(toks[0]) == Cut(name) {
      LookupCut(v, p, toks[0]);
      LookupCut(v, p, name);
      assert next == DirLookup(v, p, name);
      assert toks[1..] == [];
    } else {
      UsesEndsAtFile(v, next, toks[1..], p, name);
    }
  }
}
