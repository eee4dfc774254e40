/** Path resolution (idkfs_fuse.c:150-201) and what each namespace change does to it. */
module Paths {
  import opened Machine
  import opened Volume
  import opened Directory

  const SLASH: byte := 47
  const PATH_MAX: int := 4096

  // ----- Splitting a path -----

  function TokenLength(s: CString): (n: nat)
    ensures n <= |s| && (s != [] && s[0] != SLASH ==> n > 0)
  {
    if s == [] || s[0] == SLASH then 0 else 1 + TokenLength(s[1..])
  }

  /** What `strtok_r(path, "/")` yields, call after call. */
  function Tokens(s: CString): seq<CString>
    decreases |s|
  {
    if s == [] then []
    else if s[0] == SLASH then Tokens(s[1..])
    else [s[..TokenLength(s)]] + Tokens(s[TokenLength(s)..])
  }

  /** `strrchr(path, '/')` as an index, or -1. */
  function LastSlash(s: CString): (k: int)
    ensures -1 <= k < |s|
    ensures k >= 0 ==> s[k] == SLASH
    ensures forall j :: k < j < |s| ==> s[j] != SLASH
  {
    if s == [] then -1
    else if s[|s| - 1] == SLASH then |s| - 1
    else LastSlash(s[..|s| - 1])
  }

  /** `strncpy(tmp, path, 4095)` into a terminated buffer. */
  function Copied(path: CString): CString {
    if |path| < PATH_MAX then path else path[..PATH_MAX - 1]
  }

  // ----- Walking -----

  function Walk(v: Vol, cur: nat, toks: seq<CString>): (r: int)
    requires cur < MAX_INODES
    ensures r < MAX_INODES
    decreases |toks|
  {
    if toks == [] then cur
    else if v.inodes[cur].ftype != FT_DIR then ENOTDIR
    else
      var next := DirLookup(v, cur, toks[0]);
      if next < 0 || next >= MAX_INODES then ENOENT else Walk(v, next, toks[1..])
  }

  function ResolvePath(v: Vol, path: CString): (r: int)
    ensures r < MAX_INODES
  {
    if path == [SLASH] then ROOT_INODE else Walk(v, ROOT_INODE, Tokens(Copied(path)))
  }

  datatype Parent = NoParent(error: int) | Parent(ino: nat, name: CString)

  function ResolveParent(v: Vol, path: CString): (r: Parent)
    ensures r.Parent? ==> r.ino < MAX_INODES
    ensures r.NoParent? ==> r.error < 0
  {
    var tmp := Copied(path);
    var slash := LastSlash(tmp);
    if slash < 0 then NoParent(ENOENT)
    else
      var name := Cut(tmp[slash + 1..]);
      if slash == 0 then Parent(ROOT_INODE, name)
      else
        var p := ResolvePath(v, tmp[..slash]);
        if p < 0 then NoParent(p) else Parent(p, name)
  }

  lemma {:induction false} TokensSlash(a: CString, b: CString)
    ensures Tokens(a + [SLASH] + b) == Tokens(a) + Tokens(b)
    decreases |a|
  {
    var s := a + [SLASH] + b;
    if a == [] {
      assert s[1..] == b;
    } else if a[0] == SLASH {
      assert s[1..] == a[1..] + [SLASH] + b;
      TokensSlash(a[1..], b);
    } else {
      TokenLengthSlash(a, b);
      var n := TokenLength(a);
      assert s[..n] == a[..n] && s[n..] == a[n..] + [SLASH] + b;
      TokensSlash(a[n..], b);
    }
  }

  lemma {:induction false} TokenLengthSlash(a: CString, b: CString)
    ensures TokenLength(a + [SLASH] + b) == TokenLength(a)
  {
    var s := a + [SLASH] + b;
    if a != [] && a[0] != SLASH {
      assert s[1..] == a[1..] + [SLASH] + b;
      TokenLengthSlash(a[1..], b);
    }
  }

  lemma {:induction false} TokensOfName(s: CString)
    requires forall j :: 0 <= j < |s| ==> s[j] != SLASH
    ensures Tokens(s) == if s == [] then [] else [s]
    ensures TokenLength(s) == |s|
  {
    if s != [] {
      TokensOfName(s[1..]);
      assert s[..|s|] == s && s[|s|..] == [];
    }
  }

  /** A path is its parent's path, one more token, whatever slashes separate them. */
  lemma TokensSplit(s: CString)
    requires LastSlash(s) >= 0
    ensures var k := LastSlash(s);
            Tokens(s) == Tokens(s[..k]) + if s[k + 1..] == [] then [] else [s[k + 1..]]
  {
    var k := LastSlash(s);
    assert s == s[..k] + [SLASH] + s[k + 1..];
    TokensSlash(s[..k], s[k + 1..]);
    TokensOfName(s[k + 1..]);
  }

  lemma {:induction false} WalkConcat(v: Vol, cur: nat, a: seq<CString>, b: seq<CString>)
    requires cur < MAX_INODES
    ensures Walk(v, cur, a + b) == if Walk(v, cur, a) < 0 then Walk(v, cur, a) else Walk(v, Walk(v, cur, a), b)
    decreases |a|
  {
    hide DirLookup;
    if a == [] {
      assert a + b == b;
    } else {
      assert (a + b)[1..] == a[1..] + b;
      if v.inodes[cur].ftype == FT_DIR {
        var next := DirLookup(v, cur, a[0]);
        if 0 <= next < MAX_INODES {
          WalkConcat(v, next, a[1..], b);
        }
      }
    }
  }

  /** Only the first 255 characters of a name count, in a lookup as in a stored entry. */
  lemma LookupCut(v: Vol, d: nat, name: CString)
    requires d < MAX_INODES
    ensures DirLookup(v, d, Cut(name)) == DirLookup(v, d, name)
  {
    hide LoadDir;
    if v.inodes[d].size != 0 && LoadDir(v, d).count <= MAX_DIRENTS {
      FindCut(LoadDir(v, d), name, 0);
    }
  }

  lemma SameNameCut(field: NameField, name: CString)
    ensures SameName(field, Cut(name), 0) <==> SameName(field, name, 0)
  {
    SameNameMeans(field, name, 0);
    SameNameMeans(field, Cut(name), 0);
  }

  lemma {:induction false} FindCut(d: Directory, name: CString, k: nat)
    requires k <= d.count <= MAX_DIRENTS
    ensures FindEntry(d, Cut(name), k) == FindEntry(d, name, k)
    decreases d.count - k
  {
    hide SameName;
    if k < d.count {
      SameNameCut(d.entries[k].name, name);
      FindCut(d, name, k + 1);
    }
  }

  /** Resolving a path is looking its last name up in its resolved parent. */
  lemma ParentThenLookup(v: Vol, path: CString)
    requires ResolveParent(v, path).Parent? && path != [SLASH]
    ensures var p := ResolveParent(v, path);
            ResolvePath(v, path) ==
              if p.name == [] then p.ino
              else if v.inodes[p.ino].ftype != FT_DIR then ENOTDIR
              else if 0 <= DirLookup(v, p.ino, p.name) < MAX_INODES then DirLookup(v, p.ino, p.name)
              else ENOENT
  {
    hide DirLookup, LastSlash;
    var tmp := Copied(path);
    var k := LastSlash(tmp);
    TokensSplit(tmp);
    var rest := tmp[k + 1..];
    WalkConcat(v, ROOT_INODE, Tokens(tmp[..k]), if rest == [] then [] else [rest]);
    LookupCut(v, ResolveParent(v, path).ino, rest);
    SlashTokens();
  }

  lemma SlashTokens()
    ensures Tokens([]) == [] && Tokens([SLASH]) == []
  {
  }

  // ----- Paths as lists of names -----

  /** A name as it can stand between slashes. */
  predicate Plain(name: CString) {
    name != [] && forall j :: 0 <= j < |name| ==> name[j] != '/' as int
  }

  /** "/n1/n2/.../nk". */
  function PathOf(names: seq<CString>): CString {
    if names == [] then [] else PathOf(names[..|names| - 1]) + ['/' as int] + names[|names| - 1]
  }

  /** From directory `cur` down through the names, one lookup each: ENOTDIR at an inode that
      is no directory, ENOENT where a name is not found. */
  function Descend(v: Vol, cur: nat, names: seq<CString>): int
    requires cur < 4096
    decreases |names|
  {
    if names == [] then cur
    else if v.inodes[cur].ftype != 2 then -20
    else if 0 <= DirLookup(v, cur, names[0]) < 4096 then Descend(v, DirLookup(v, cur, names[0]), names[1..])
    else -2
  }

  lemma {:induction false} DescendIsWalk(v: Vol, cur: nat, names: seq<CString>)
    requires cur < MAX_INODES
    ensures Descend(v, cur, names) == Walk(v, cur, names)
    decreases |names|
  {
    hide DirLookup;
    if names != [] && 0 <= DirLookup(v, cur, names[0]) < MAX_INODES {
      DescendIsWalk(v, DirLookup(v, cur, names[0]), names[1..]);
    }
  }

  lemma {:induction false} TokensJoined(names: seq<CString>)
    requires forall k :: 0 <= k < |names| ==> Plain(names[k])
    ensures Tokens(PathOf(names)) == names
    ensures names != [] ==> LastSlash(PathOf(names)) == |PathOf(names[..|names| - 1])|
    decreases |names|
  {
    if names != [] {
      var front, n := names[..|names| - 1], names[|names| - 1];
      assert PathOf(names) == PathOf(front) + [SLASH] + n;
      assert Plain(n);
      hide PathOf, Tokens, LastSlash, TokenLength;
      TokensJoined(front);
      TokensSlash(PathOf(front), n);
      TokensOfName(n);
      LastSlashAt(PathOf(front), n);
      assert names == front + [n];
    }
  }

  lemma {:induction false} LastSlashAt(a: CString, n: CString)
    requires forall j :: 0 <= j < |n| ==> n[j] != SLASH
    ensures LastSlash(a + [SLASH] + n) == |a|
    decreases |n|
  {
    var s := a + [SLASH] + n;
    if n == [] {
      assert s[|s| - 1] == SLASH;
    } else {
      assert s[|s| - 1] == n[|n| - 1];
      assert s[..|s| - 1] == a + [SLASH] + n[..|n| - 1];
      LastSlashAt(a, n[..|n| - 1]);
    }
  }

  /** A path of at most 4095 characters, however deep, resolves by looking its names up one
      after another from inode 0. */
  lemma ResolveNames(v: Vol, names: seq<CString>)
    requires (forall k :: 0 <= k < |names| ==> Plain(names[k])) && |PathOf(names)| <= 4095
    ensures ResolvePath(v, PathOf(names)) == Descend(v, 0, names)
    ensures ResolvePath(v, ['/' as int]) == 0
  {
    hide Walk, Descend;
    TokensJoined(names);
    DescendIsWalk(v, 0, names);
    if names != [] {
      assert Plain(names[|names| - 1]);
      assert PathOf(names) != [SLASH];
    }
  }

  /** Its parent is what the names before the last resolve to, and the name to look up or
      make there is the last one cut to 255 characters. */
  lemma ParentOfNames(v: Vol, names: seq<CString>)
    requires names != [] && (forall k :: 0 <= k < |names| ==> Plain(names[k])) && |PathOf(names)| <= 4095
    ensures var p, n := Descend(v, 0, names[..|names| - 1]), names[|names| - 1];
            ResolveParent(v, PathOf(names)) == if p < 0 then NoParent(p) else Parent(p, if |n| <= 255 then n else n[..255])
  {
    hide Walk, Descend, LastSlash, Tokens;
    var front, n, path := names[..|names| - 1], names[|names| - 1], PathOf(names);
    TokensJoined(names);
    assert path == PathOf(front) + [SLASH] + n;
    assert path[..|PathOf(front)|] == PathOf(front) && path[|PathOf(front)| + 1..] == n;
    NotEmpty(front);
    hide PathOf;
    if front == [] {
      DescendIsWalk(v, 0, front);
      WalkNothing(v);
    } else {
      ResolveNames(v, front);
    }
  }

  lemma WalkNothing(v: Vol)
    ensures Walk(v, 0, []) == 0
  {
  }

  lemma NotEmpty(names: seq<CString>)
    ensures |PathOf(names)| == 0 <==> names == []
  {
  }

  /** Of a longer path only the first 4095 characters count. */
  lemma LongPath(v: Vol, path: CString)
    requires |path| > 4095
    ensures ResolvePath(v, path) == ResolvePath(v, path[..4095]) && ResolveParent(v, path) == ResolveParent(v, path[..4095])
  {
    hide Walk, LastSlash, Tokens;
  }

  lemma ShortPath(v: Vol, path: CString)
    requires |path| <= 4095
    ensures ResolvePath(v, path) == Walk(v, 0, Tokens(path))
  {
    SlashTokens();
    WalkNothing(v);
    hide Tokens, Walk;
  }

  /** A second slash changes nothing, nor does one at the end; the last name is then empty. */
  lemma ExtraSlashes(v: Vol, a: CString, b: CString)
    requires |a| + |b| + 2 <= 4095
    ensures ResolvePath(v, a + ['/' as int] + (['/' as int] + b)) == ResolvePath(v, a + ['/' as int] + b)
    ensures ResolvePath(v, a + ['/' as int]) == ResolvePath(v, a)
    ensures ResolveParent(v, a + ['/' as int]).Parent? ==> ResolveParent(v, a + ['/' as int]).name == []
  {
    SlashTokens();
    hide Walk, LastSlash, Tokens;
    ShortPath(v, a + [SLASH] + ([SLASH] + b));
    ShortPath(v, a + [SLASH] + b);
    ShortPath(v, a + [SLASH]);
    ShortPath(v, a);
    TokensSlash(a, [SLASH] + b);
    TokensSlash([], b);
    assert [] + [SLASH] + b == [SLASH] + b;
    TokensSlash(a, b);
    TokensSlash(a, []);
    assert a + [SLASH] + [] == a + [SLASH];
    assert [] + Tokens(b) == Tokens(b) && Tokens(a) + [] == Tokens(a);
    hide ResolvePath;
    LastSlashAt(a, []);
    assert (a + [SLASH])[|a| + 1..] == [];
  }

  /** A path without a slash has no parent. */
  lemma NoSlash(v: Vol, path: CString)
    requires forall j :: 0 <= j < |path| ==> path[j] != '/' as int
    ensures ResolveParent(v, path) == NoParent(-2)
  {
    hide LastSlash;
    var tmp := Copied(path);
    assert forall j :: 0 <= j < |tmp| ==> tmp[j] == path[j];
  }
}
