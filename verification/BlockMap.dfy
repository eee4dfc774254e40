/** The six-level block map of idkfs_blk.c: splitting a logical block into a level and a
    chain of indices, and following the chain through the image. */
module BlockMap {
  import opened Machine

  const DIRECT: nat := 12
  const LEVELS: nat := 6
  const PTRS: nat := 512
  const BLOCK: nat := 4096
  const NULL64: uint64 := 0xFFFF_FFFF_FFFF_FFFF

  /** Blocks reached through one pointer at a level: 512 to the level. */
  function Span(level: nat): (r: nat)
    ensures r > 0
  {
    if level == 0 then 1 else PTRS * Span(level - 1)
  }

  function Div(a: nat, s: nat): nat
    requires s > 0
  {
    a / s
  }

  function Mod(a: nat, s: nat): nat
    requires s > 0
  {
    a % s
  }

  function Digits(rem: nat, level: nat): (r: seq<nat>)
    ensures |r| == level
    decreases level
  {
    if level == 0 then []
    else
      var s := Span(level - 1);
      [Div(rem, s)] + Digits(Mod(rem, s), level - 1)
  }

  datatype Chain = Chain(level: nat, digits: seq<nat>)

  function FindLevel(rem: nat, level: nat): Option<Chain>
    requires 1 <= level
    decreases LEVELS + 1 - level
  {
    if level > LEVELS then None
    else if rem < Span(level) then Some(Chain(level, Digits(rem, level)))
    else FindLevel(rem - Span(level), level + 1)
  }

  /** idkfs_fill_chain. */
  function FillChain(logical: nat): Option<Chain> {
    if logical < DIRECT then Some(Chain(0, [logical])) else FindLevel(logical - DIRECT, 1)
  }

  // ----- What a chain means -----

  function Value(digits: seq<nat>): nat
    decreases |digits|
  {
    if digits == [] then 0 else digits[0] * Span(|digits| - 1) + Value(digits[1..])
  }

  /** First logical block of a level. */
  function Base(level: nat): nat {
    if level == 0 then 0 else if level == 1 then DIRECT else Base(level - 1) + Span(level - 1)
  }

  function Recover(c: Chain): nat {
    Base(c.level) + Value(c.digits)
  }

  predicate WellFormed(c: Chain) {
    && c.level <= LEVELS
    && if c.level == 0 then |c.digits| == 1 && c.digits[0] < DIRECT
       else |c.digits| == c.level && forall k :: 0 <= k < |c.digits| ==> c.digits[k] < PTRS
  }

  /** 12 + 512 + 512^2 + ... + 512^6. */
  const LIMIT: nat := Base(LEVELS + 1)

  lemma LimitIs()
    ensures LIMIT == 12 + 0x200 + 0x4_0000 + 0x800_0000 + 0x10_0000_0000 + 0x2000_0000_0000 + 0x40_0000_0000_0000
    ensures LIMIT < 0x80_0000_0000_0000
    ensures Span(6) == 0x40_0000_0000_0000
  {
    assert Span(1) == 0x200 && Span(2) == 0x4_0000 && Span(3) == 0x800_0000;
    assert Span(4) == 0x10_0000_0000 && Span(5) == 0x2000_0000_0000;
    assert Base(2) == 12 + 0x200 && Base(3) == Base(2) + 0x4_0000 && Base(4) == Base(3) + 0x800_0000;
    assert Base(5) == Base(4) + 0x10_0000_0000 && Base(6) == Base(5) + 0x2000_0000_0000;
  }

  lemma MulLe(a: nat, b: nat, s: nat)
    requires a <= b
    ensures a * s <= b * s
  {
    assert b * s == a * s + (b - a) * s;
  }

  lemma MulNext(a: nat, s: nat)
    ensures (a + 1) * s == a * s + s
  {
  }

  lemma Quotient(rem: nat, s: nat)
    requires s > 0
    ensures rem == rem / s * s + rem % s && 0 <= rem % s < s
    ensures rem < PTRS * s ==> rem / s < PTRS
  {
    if rem / s >= PTRS {
      MulLe(PTRS, rem / s, s);
    }
  }

  lemma {:induction false} DigitsMean(rem: nat, level: nat)
    requires rem < Span(level)
    ensures Value(Digits(rem, level)) == rem
    ensures forall k :: 0 <= k < level ==> Digits(rem, level)[k] < PTRS
    decreases level
  {
    if level > 0 {
      var s := Span(level - 1);
      Quotient(rem, s);
      DigitsMean(rem % s, level - 1);
      var d := Digits(rem, level);
      assert d[1..] == Digits(rem % s, level - 1);
      assert forall k :: 1 <= k < level ==> d[k] == Digits(rem % s, level - 1)[k - 1];
    }
  }

  lemma {:induction false} ValueBound(d: seq<nat>)
    requires forall k :: 0 <= k < |d| ==> d[k] < PTRS
    ensures Value(d) < Span(|d|)
    decreases |d|
  {
    if d != [] {
      ValueBound(d[1..]);
      MulBound(d[0], Span(|d| - 1));
    }
  }

  lemma MulBound(a: nat, s: nat)
    requires a < PTRS
    ensures a * s + s <= PTRS * s
  {
    MulNext(a, s);
    MulLe(a + 1, PTRS, s);
  }

  lemma {:induction false} DigitsOfValue(d: seq<nat>)
    requires forall k :: 0 <= k < |d| ==> d[k] < PTRS
    ensures Digits(Value(d), |d|) == d
    decreases |d|
  {
    if d != [] {
      var s := Span(|d| - 1);
      ValueBound(d[1..]);
      QuotientIs(d[0], Value(d[1..]), s);
      DigitsOfValue(d[1..]);
    }
  }

  lemma QuotientIs(q: nat, r: nat, s: nat)
    requires r < s
    ensures (q * s + r) / s == q && (q * s + r) % s == r
  {
    Quotient(q * s + r, s);
    var p := (q * s + r) / s;
    if p < q {
      MulNext(p, s);
      MulLe(p + 1, q, s);
    } else if p > q {
      MulNext(q, s);
      MulLe(q + 1, p, s);
    }
  }

  lemma BaseNext(level: nat)
    requires level >= 1
    ensures Base(level + 1) == Base(level) + Span(level)
  {
  }

  lemma {:induction false} FindLevelMeans(rem: nat, level: nat)
    requires 1 <= level <= LEVELS + 1
    ensures FindLevel(rem, level).Some? <==> Base(level) + rem < LIMIT
    ensures FindLevel(rem, level).Some? ==>
              var c := FindLevel(rem, level).value;
              WellFormed(c) && c.level >= level && Recover(c) == Base(level) + rem
    decreases LEVELS + 1 - level
  {
    hide Span, Base, Value, Digits;
    if level <= LEVELS {
      BaseNext(level);
      if rem < Span(level) {
        DigitsMean(rem, level);
        BaseMonotone(level + 1, LEVELS + 1);
      } else {
        FindLevelMeans(rem - Span(level), level + 1);
      }
    }
  }

  lemma {:induction false} BaseMonotone(a: nat, b: nat)
    requires a <= b
    ensures Base(a) <= Base(b)
    decreases b
  {
    if a < b {
      BaseMonotone(a, b - 1);
    }
  }

  /** fill_chain succeeds exactly below 12 + 512 + ... + 512^6, with digits in range from
      which the logical block is recovered. */
  lemma FillChainMeans(logical: nat)
    ensures FillChain(logical).Some? <==> logical < LIMIT
    ensures FillChain(logical).Some? ==> WellFormed(FillChain(logical).value) && Recover(FillChain(logical).value) == logical
  {
    if logical < DIRECT {
      LimitIs();
      assert Value([logical]) == logical * Span(0) + Value([]);
    } else {
      FindLevelMeans(logical - DIRECT, 1);
    }
  }

  lemma {:induction false} FindLevelFinds(c: Chain, level: nat)
    requires WellFormed(c) && 1 <= level <= c.level
    ensures Recover(c) >= Base(level) && FindLevel(Recover(c) - Base(level), level) == Some(c)
    decreases c.level - level
  {
    hide Span, Base, Value, Digits, FindLevel;
    ValueBound(c.digits);
    BaseMonotone(level, c.level);
    BaseNext(level);
    FindLevelStep(Recover(c) - Base(level), level);
    if level < c.level {
      BaseMonotone(level + 1, c.level);
      FindLevelFinds(c, level + 1);
    } else {
      DigitsOfValue(c.digits);
    }
  }

  lemma FindLevelStep(rem: nat, level: nat)
    requires 1 <= level <= LEVELS
    ensures FindLevel(rem, level) ==
            if rem < Span(level) then Some(Chain(level, Digits(rem, level))) else FindLevel(rem - Span(level), level + 1)
  {
  }

  /** ... and every well-formed chain is the chain of the block it recovers: with the lemma
      above, a bijection. */
  lemma FillChainOnto(c: Chain)
    requires WellFormed(c)
    ensures FillChain(Recover(c)) == Some(c)
  {
    if c.level == 0 {
      assert Value(c.digits) == c.digits[0] * Span(0) + Value(c.digits[1..]);
      assert c.digits == [c.digits[0]];
    } else {
      FindLevelFinds(c, 1);
    }
  }

  // ----- Order -----

  predicate LexLess(a: seq<nat>, b: seq<nat>)
    requires |a| == |b|
    decreases |a|
  {
    a != [] && (a[0] < b[0] || (a[0] == b[0] && LexLess(a[1..], b[1..])))
  }

  predicate ChainLess(a: Chain, b: Chain) {
    a.level < b.level || (a.level == b.level && |a.digits| == |b.digits| && LexLess(a.digits, b.digits))
  }

  lemma {:induction false} LexIsValue(a: seq<nat>, b: seq<nat>)
    requires |a| == |b| && forall k :: 0 <= k < |a| ==> a[k] < PTRS && b[k] < PTRS
    ensures LexLess(a, b) <==> Value(a) < Value(b)
    decreases |a|
  {
    if a != [] {
      LexIsValue(a[1..], b[1..]);
      ValueBound(a[1..]);
      ValueBound(b[1..]);
      var s := Span(|a| - 1);
      hide Span;
      if a[0] < b[0] {
        MulNext(a[0], s);
        MulLe(a[0] + 1, b[0], s);
      } else if b[0] < a[0] {
        MulNext(b[0], s);
        MulLe(b[0] + 1, a[0], s);
      }
    }
  }

  lemma ChainRange(c: Chain)
    requires WellFormed(c)
    ensures Base(c.level) <= Recover(c) < Base(c.level + 1)
  {
    if c.level == 0 {
      assert Value(c.digits) == c.digits[0] * Span(0) + Value(c.digits[1..]);
    } else {
      ValueBound(c.digits);
      BaseNext(c.level);
    }
  }

  /** Comparing level and digits is comparing logical blocks. */
  lemma OrderPreserved(a: Chain, b: Chain)
    requires WellFormed(a) && WellFormed(b)
    ensures ChainLess(a, b) <==> Recover(a) < Recover(b)
  {
    ChainRange(a);
    ChainRange(b);
    if a.level < b.level {
      BaseMonotone(a.level + 1, b.level);
    } else if b.level < a.level {
      BaseMonotone(b.level + 1, a.level);
    } else {
      LexIsValue(a.digits, b.digits);
    }
  }

  // ----- The code, in 64-bit arithmetic -----

  function Power(base: nat, exp: nat): nat {
    if exp == 0 then 1 else base * Power(base, exp - 1)
  }

  lemma WrapTimes(a: nat, b: nat)
    ensures a % TWO_64 * b % TWO_64 == a * b % TWO_64
  {
    var q, r := a / TWO_64, a % TWO_64;
    assert a * b == r * b + q * b * TWO_64 by {
      assert a == r + q * TWO_64;
      assert a * b == r * b + q * TWO_64 * b;
      assert q * TWO_64 * b == q * b * TWO_64;
    }
    WrapAdd(r * b, q * b);
  }

  lemma WrapAdd(x: nat, k: nat)
    ensures (x + k * TWO_64) % TWO_64 == x % TWO_64
  {
  }

  /** `v *= base` on 64 bits. */
  function Times(v: uint64, base: uint64): uint64 {
    v * base % TWO_64
  }

  lemma TimesPower(base: uint64, exp: nat)
    ensures Times(Power(base, exp) % TWO_64, base) == Power(base, exp + 1) % TWO_64
  {
    WrapTimes(Power(base, exp), base);
  }

  /** `while (exp--) v *= base`, which wraps. */
  method Pow(base: uint64, exp: nat) returns (v: uint64)
    ensures v == Power(base, exp) % TWO_64
  {
    v := 1;
    var e: nat := exp;
    assert Power(base, 0) == 1;
    hide Times, Power;
    while e > 0
      invariant e <= exp && v == Power(base, exp - e) % TWO_64
    {
      TimesPower(base, exp - e);
      v := Times(v, base);
      e := e - 1;
    }
  }

  lemma {:induction false} PowerIsSpan(level: nat)
    ensures Power(PTRS, level) == Span(level)
  {
    if level > 0 {
      PowerIsSpan(level - 1);
    }
  }

  lemma {:induction false} SpanMonotone(a: nat, b: nat)
    requires a <= b
    ensures Span(a) <= Span(b)
    decreases b
  {
    if a < b {
      SpanMonotone(a, b - 1);
    }
  }

  method IndirectSpan(level: nat) returns (r: uint64)
    requires level <= LEVELS
    ensures r == Span(level)
  {
    r := Pow(PTRS, level);
    PowerIsSpan(level);
    SpanMonotone(level, LEVELS);
    LimitIs();
  }

  /** idkfs_fill_chain on its output array: no step of it overflows 64 bits. */
  method FillChainInto(logical: uint64, chain: array<uint64>) returns (ok: bool, level: nat)
    requires chain.Length == LEVELS
    modifies chain
    ensures ok <==> FillChain(logical).Some?
    ensures ok ==> var c := FillChain(logical).value;
                   level == c.level && |c.digits| <= LEVELS && forall k :: 0 <= k < |c.digits| ==> chain[k] == c.digits[k]
  {
    level := 0;
    if logical < DIRECT {
      chain[0] := logical;
      return true, 0;
    }
    var rem: uint64 := logical - DIRECT;
    var lvl := 1;
    while lvl <= LEVELS
      invariant 1 <= lvl <= LEVELS + 1
      invariant FindLevel(logical - DIRECT, 1) == FindLevel(rem, lvl)
    {
      var span := IndirectSpan(lvl);
      if rem < span {
        FillDigits(rem, lvl, chain);
        return true, lvl;
      }
      rem := rem - span;
      lvl := lvl + 1;
    }
    return false, 0;
  }

  /** The inner loop: one division a level. */
  method FillDigits(rem0: uint64, lvl: nat, chain: array<uint64>)
    requires lvl <= LEVELS == chain.Length
    modifies chain
    ensures forall k :: 0 <= k < lvl ==> chain[k] == Digits(rem0, lvl)[k]
  {
    var rem := rem0;
    for i := 0 to lvl
      invariant forall k :: 0 <= k < i ==> chain[k] == Digits(rem0, lvl)[k]
      invariant Digits(rem0, lvl)[i..] == Digits(rem, lvl - i)
    {
      var stride := IndirectSpan(lvl - i - 1);
      Quotient(rem, stride);
      QuotientShrinks(rem, stride);
      chain[i] := rem / stride;
      assert Digits(rem0, lvl)[i] == Digits(rem0, lvl)[i..][0];
      assert Digits(rem0, lvl)[i + 1..] == Digits(rem0, lvl)[i..][1..];
      rem := rem % stride;
    }
  }

  lemma QuotientShrinks(rem: nat, s: nat)
    requires s > 0
    ensures 0 <= rem / s <= rem && 0 <= rem % s <= rem
  {
    Quotient(rem, s);
    MulLe(1, s, rem / s);
  }

  // ----- Reading pointers -----

  /** The mapped image: its size in bytes and its 64-bit words. */
  datatype Image = Image(size: uint64, words: seq<uint64>)

  predicate Whole(img: Image) {
    8 * |img.words| <= img.size < 8 * |img.words| + 8
  }

  /** The byte address of a block, which wraps: blocks 2^52 apart share it. */
  function Address(block: uint64): uint64 {
    block * BLOCK % TWO_64
  }

  const ALIAS: nat := 0x10_0000_0000_0000

  lemma AddressWraps(block: uint64)
    ensures Address(block) == block % ALIAS * BLOCK
    ensures Address(block) <= TWO_64 - BLOCK
  {
    var q, r := block / ALIAS, block % ALIAS;
    assert block * BLOCK == r * BLOCK + q * TWO_64;
    WrapAdd(r * BLOCK, q);
  }

  /** The size test as written, in 64 bits. */
  predicate InSize(img: Image, byte: uint64, len: nat) {
    (byte + len) % TWO_64 <= img.size
  }

  /** The test keeps reads of a pointer block inside every image if and only if the block is
      not the very last of the 64-bit address space, where byte + 4096 wraps to 0; for that
      one it passes on every image, and the read leaves each of them. */
  lemma GuardSoundIff(block: uint64, img: Image)
    requires Whole(img) && img.size > 0
    ensures (InSize(img, Address(block), BLOCK) ==> Address(block) + BLOCK <= img.size) <==> block % ALIAS != ALIAS - 1
    ensures block % ALIAS == ALIAS - 1 ==> InSize(img, Address(block), BLOCK) && img.size < Address(block) + BLOCK
  {
    AddressWraps(block);
    if block % ALIAS != ALIAS - 1 {
      assert block % ALIAS * BLOCK + BLOCK < TWO_64;
    }
  }

  function SafeInodeRead(img: Image, inodeBlock: uint64, offset: nat): uint64
    requires Whole(img) && offset < DIRECT + LEVELS
  {
    var byte := Address(inodeBlock);
    AddressWraps(inodeBlock);
    if !InSize(img, byte, 8 * (DIRECT + LEVELS)) then NULL64
    else img.words[byte / 8 + offset]
  }

  function SafePointerRead(img: Image, block: uint64, index: nat): uint64
    requires Whole(img) && block % ALIAS != ALIAS - 1
  {
    var byte := Address(block);
    AddressWraps(block);
    if !InSize(img, byte, BLOCK) then NULL64
    else if index >= PTRS then NULL64
    else img.words[byte / 8 + index]
  }

  // ----- Following a chain -----

  /** Where a pointer is held: in the inode, or at an index of the block at an address. */
  datatype Place = InInode(slot: nat) | InBlock(block: nat, index: nat)

  function Read(img: Image, inodeBlock: uint64, p: Place): uint64
    requires Whole(img)
  {
    match p
    case InInode(slot) => if slot < DIRECT + LEVELS then SafeInodeRead(img, inodeBlock, slot) else NULL64
    case InBlock(block, index) => if block < ALIAS - 1 then SafePointerRead(img, block, index) else NULL64
  }

  /** None of the pointers read on the way from `current` through `digits` names the last
      block of the address space, the only one whose reads the size test does not keep
      inside the image. The pointer reached in the end may name any block. */
  ghost predicate Safe(img: Image, current: uint64, digits: seq<nat>)
    requires Whole(img)
    decreases |digits|
  {
    digits == [] || current == NULL64
    || (current % ALIAS != ALIAS - 1 && Safe(img, SafePointerRead(img, current, digits[0]), digits[1..]))
  }

  ghost predicate Resolvable(img: Image, inodeBlock: uint64, logical: nat)
    requires Whole(img)
  {
    match FillChain(logical)
    case None => true
    case Some(c) =>
      FillChainMeans(logical);
      c.level == 0 || Safe(img, SafeInodeRead(img, inodeBlock, DIRECT + c.level - 1), c.digits)
  }

  /** The pointer reached from `current` through the indices `digits`. */
  function Follow(img: Image, current: uint64, digits: seq<nat>): uint64
    requires Whole(img) && Safe(img, current, digits)
    decreases |digits|
  {
    if digits == [] || current == NULL64 then current
    else Follow(img, SafePointerRead(img, current, digits[0]), digits[1..])
  }

  /** Two block numbers 2^52 apart are the same pointer block. */
  lemma SameAddress(img: Image, block: uint64, index: nat)
    requires Whole(img) && block % ALIAS != ALIAS - 1
    ensures SafePointerRead(img, block % ALIAS, index) == SafePointerRead(img, block, index)
  {
    AddressWraps(block);
    AddressWraps(block % ALIAS);
  }

  /** idkfs_resolve_logical_block. */
  function Resolve(img: Image, inodeBlock: uint64, logical: nat): uint64
    requires Whole(img) && Resolvable(img, inodeBlock, logical)
  {
    match FillChain(logical)
    case None => NULL64
    case Some(c) =>
      FillChainMeans(logical);
      if c.level == 0 then SafeInodeRead(img, inodeBlock, c.digits[0])
      else Follow(img, SafeInodeRead(img, inodeBlock, DIRECT + c.level - 1), c.digits)
  }

  lemma FollowStep(img: Image, current: uint64, digits: seq<nat>)
    requires Whole(img) && Safe(img, current, digits) && current != NULL64 && digits != []
    ensures current % ALIAS != ALIAS - 1
    ensures var next := SafePointerRead(img, current, digits[0]);
            Safe(img, next, digits[1..]) && Follow(img, current, digits) == Follow(img, next, digits[1..])
  {
  }

  lemma FollowEnd(img: Image, current: uint64, digits: seq<nat>)
    requires Whole(img) && Safe(img, current, digits)
    ensures current == NULL64 || digits == [] ==> Follow(img, current, digits) == current
  {
  }

  method ResolveLogical(img: Image, inodeBlock: uint64, logical: uint64) returns (r: uint64)
    requires Whole(img) && Resolvable(img, inodeBlock, logical)
    ensures r == Resolve(img, inodeBlock, logical)
  {
    hide SafeInodeRead, SafePointerRead, Safe, Follow, FillChain, Recover;
    var chain := new uint64[LEVELS](_ => 0);
    var ok, level := FillChainInto(logical, chain);
    if !ok {
      return NULL64;
    }
    FillChainMeans(logical);
    ghost var digits := FillChain(logical).value.digits;
    if level == 0 {
      return SafeInodeRead(img, inodeBlock, chain[0]);
    }
    r := SafeInodeRead(img, inodeBlock, DIRECT + level - 1);
    FollowEnd(img, r, digits);
    if r == NULL64 {
      return;
    }
    assert digits[0..] == digits && |digits| == level;
    for depth := 0 to level
      invariant r != NULL64 && Safe(img, r, digits[depth..])
      invariant forall k :: 0 <= k < level ==> chain[k] == digits[k]
      invariant Follow(img, r, digits[depth..]) == Resolve(img, inodeBlock, logical)
    {
      assert digits[depth..][0] == digits[depth] && digits[depth..][1..] == digits[depth + 1..];
      FollowStep(img, r, digits[depth..]);
      r := SafePointerRead(img, r, chain[depth]);
      FollowEnd(img, r, digits[depth + 1..]);
      if r == NULL64 {
        return;
      }
    }
    FollowEnd(img, r, digits[level..]);
  }

  // ----- Injectivity -----

  /** A pointer on the way to a block: a level, and the indices taken from its slot. */
  datatype Spot = Spot(level: nat, path: seq<nat>)

  function PlaceOf(img: Image, inodeBlock: uint64, s: Spot): Place
    requires Whole(img)
    decreases |s.path|, 0
  {
    if s.path == [] then InInode(DIRECT + s.level - 1)
    else if s.level == 0 then InInode(s.path[0])
    else InBlock(Held(img, inodeBlock, Parent(s)) % ALIAS, s.path[|s.path| - 1])
  }

  function Parent(s: Spot): Spot
    requires s.path != []
  {
    Spot(s.level, s.path[..|s.path| - 1])
  }

  function Held(img: Image, inodeBlock: uint64, s: Spot): uint64
    requires Whole(img)
    decreases |s.path|, 1
  {
    Read(img, inodeBlock, PlaceOf(img, inodeBlock, s))
  }

  /** A spot some resolution gets to with no null pointer on the way, itself included. */
  ghost predicate Reached(img: Image, inodeBlock: uint64, s: Spot)
    requires Whole(img)
    decreases |s.path|
  {
    && Held(img, inodeBlock, s) != NULL64
    && if s.level == 0 then |s.path| == 1 && s.path[0] < DIRECT
       else s.level <= LEVELS && |s.path| <= s.level && (s.path != [] ==> s.path[|s.path| - 1] < PTRS && Reached(img, inodeBlock, Parent(s)))
  }

  /** Of all places the map reads pointers from, no two hold pointers to the same address. */
  ghost predicate HeldOnce(img: Image, inodeBlock: uint64)
    requires Whole(img)
  {
    forall s: Spot, t: Spot {:trigger Held(img, inodeBlock, s), Held(img, inodeBlock, t)} ::
      Reached(img, inodeBlock, s) && Reached(img, inodeBlock, t)
      && Held(img, inodeBlock, s) % ALIAS == Held(img, inodeBlock, t) % ALIAS ==>
        PlaceOf(img, inodeBlock, s) == PlaceOf(img, inodeBlock, t)
  }

  lemma {:induction false} SpotsDistinct(img: Image, inodeBlock: uint64, s: Spot, t: Spot)
    requires Whole(img) && HeldOnce(img, inodeBlock)
    requires Reached(img, inodeBlock, s) && Reached(img, inodeBlock, t)
    requires Held(img, inodeBlock, s) % ALIAS == Held(img, inodeBlock, t) % ALIAS
    ensures s == t
    decreases |s.path|
  {
    hide Read;
    assert PlaceOf(img, inodeBlock, s) == PlaceOf(img, inodeBlock, t);
    hide HeldOnce;
    if s.level != 0 && s.path != [] {
      assert PlaceOf(img, inodeBlock, s).InBlock?;
      assert t.level != 0 && t.path != [];
      SpotsDistinct(img, inodeBlock, Parent(s), Parent(t));
      assert s.path == Parent(s).path + [s.path[|s.path| - 1]] && t.path == Parent(t).path + [t.path[|t.path| - 1]];
    } else {
      assert PlaceOf(img, inodeBlock, s).InInode?;
      assert t.level == 0 || t.path == [];
      if s.level == 0 {
        assert t.level == 0 && s.path == [s.path[0]] && t.path == [t.path[0]];
      }
    }
  }

  /** No two pointers met on the way to any block, or found there, name one address. */
  ghost predicate SpotsApart(img: Image, inodeBlock: uint64)
    requires Whole(img)
  {
    forall s: Spot, t: Spot {:trigger Held(img, inodeBlock, s), Held(img, inodeBlock, t)} ::
      Reached(img, inodeBlock, s) && Reached(img, inodeBlock, t)
      && Held(img, inodeBlock, s) % ALIAS == Held(img, inodeBlock, t) % ALIAS ==>
        s == t
  }

  /** Comparing the places pointers are held in, which one scan of the image can do, is
      enough: it holds if and only if no two resolutions ever meet at one address. */
  lemma HeldOnceIff(img: Image, inodeBlock: uint64)
    requires Whole(img)
    ensures HeldOnce(img, inodeBlock) <==> SpotsApart(img, inodeBlock)
  {
    hide Reached, Held, PlaceOf;
    if HeldOnce(img, inodeBlock) {
      forall s: Spot, t: Spot | Reached(img, inodeBlock, s) && Reached(img, inodeBlock, t)
          && Held(img, inodeBlock, s) % ALIAS == Held(img, inodeBlock, t) % ALIAS
        ensures s == t
      {
        SpotsDistinct(img, inodeBlock, s, t);
      }
    }
  }

  lemma {:induction false} FollowReaches(img: Image, inodeBlock: uint64, s: Spot, digits: seq<nat>)
    requires Whole(img) && Reached(img, inodeBlock, s)
    requires 1 <= s.level <= LEVELS && |s.path| + |digits| <= s.level && forall k :: 0 <= k < |digits| ==> digits[k] < PTRS
    requires Safe(img, Held(img, inodeBlock, s), digits)
    requires Follow(img, Held(img, inodeBlock, s), digits) != NULL64
    ensures var t := Spot(s.level, s.path + digits);
            Reached(img, inodeBlock, t) && Held(img, inodeBlock, t) == Follow(img, Held(img, inodeBlock, s), digits)
    decreases |digits|
  {
    hide SafePointerRead, SafeInodeRead, Held, Safe, Follow, Reached;
    FollowEnd(img, Held(img, inodeBlock, s), digits);
    if digits == [] {
      assert s.path + digits == s.path;
    } else {
      var t := Spot(s.level, s.path + [digits[0]]);
      ReachedHeld(img, inodeBlock, s);
      FollowStep(img, Held(img, inodeBlock, s), digits);
      HeldBelow(img, inodeBlock, s, digits[0]);
      FollowEnd(img, Held(img, inodeBlock, t), digits[1..]);
      ReachedBelow(img, inodeBlock, s, digits[0]);
      FollowReaches(img, inodeBlock, t, digits[1..]);
      assert t.path + digits[1..] == s.path + digits;
    }
  }

  lemma ReachedHeld(img: Image, inodeBlock: uint64, s: Spot)
    requires Whole(img) && Reached(img, inodeBlock, s)
    ensures Held(img, inodeBlock, s) != NULL64
  {
    hide Held;
  }

  lemma ReachedBelow(img: Image, inodeBlock: uint64, s: Spot, k: nat)
    requires Whole(img) && Reached(img, inodeBlock, s) && 1 <= s.level <= LEVELS && |s.path| < s.level && k < PTRS
    requires Held(img, inodeBlock, Spot(s.level, s.path + [k])) != NULL64
    ensures Reached(img, inodeBlock, Spot(s.level, s.path + [k]))
  {
    hide Held;
    assert Parent(Spot(s.level, s.path + [k])) == s;
  }

  /** The pointer one index further on is read from the block the spot's pointer names. */
  lemma HeldBelow(img: Image, inodeBlock: uint64, s: Spot, k: nat)
    requires Whole(img) && s.level > 0 && Held(img, inodeBlock, s) % ALIAS != ALIAS - 1
    ensures Held(img, inodeBlock, Spot(s.level, s.path + [k])) == SafePointerRead(img, Held(img, inodeBlock, s), k)
  {
    hide SafePointerRead, SafeInodeRead;
    var t := Spot(s.level, s.path + [k]);
    assert Parent(t) == s;
    SameAddress(img, Held(img, inodeBlock, s), k);
  }

  lemma ResolveReaches(img: Image, inodeBlock: uint64, logical: nat)
    requires Whole(img) && Resolvable(img, inodeBlock, logical) && Resolve(img, inodeBlock, logical) != NULL64
    ensures FillChain(logical).Some?
    ensures var c := FillChain(logical).value;
            var s := Spot(c.level, c.digits);
            Reached(img, inodeBlock, s) && Held(img, inodeBlock, s) == Resolve(img, inodeBlock, logical)
  {
    FillChainMeans(logical);
    hide FillChain, SafeInodeRead, SafePointerRead, Recover, Safe, Follow;
    var c := FillChain(logical).value;
    if c.level == 0 {
      assert PlaceOf(img, inodeBlock, Spot(0, c.digits)) == InInode(c.digits[0]);
      assert Held(img, inodeBlock, Spot(0, c.digits)) == SafeInodeRead(img, inodeBlock, c.digits[0]);
    } else {
      var s := Spot(c.level, []);
      assert PlaceOf(img, inodeBlock, s) == InInode(DIRECT + c.level - 1);
      assert Held(img, inodeBlock, s) == SafeInodeRead(img, inodeBlock, DIRECT + c.level - 1);
      FollowEnd(img, Held(img, inodeBlock, s), c.digits);
      assert Reached(img, inodeBlock, s);
      FollowReaches(img, inodeBlock, s, c.digits);
      assert s.path + c.digits == c.digits;
    }
  }

  /** Two different logical blocks never resolve to one address, whatever levels they are
      reached through. */
  lemma ResolveInjective(img: Image, inodeBlock: uint64, a: nat, b: nat)
    requires Whole(img) && HeldOnce(img, inodeBlock)
    requires Resolvable(img, inodeBlock, a) && Resolvable(img, inodeBlock, b)
    requires Resolve(img, inodeBlock, a) != NULL64 && Resolve(img, inodeBlock, b) != NULL64
    requires Resolve(img, inodeBlock, a) % ALIAS == Resolve(img, inodeBlock, b) % ALIAS
    ensures a == b
  {
    ResolveReaches(img, inodeBlock, a);
    ResolveReaches(img, inodeBlock, b);
    hide Resolve, Resolvable, FillChain, Reached, HeldOnce;
    var c, d := FillChain(a).value, FillChain(b).value;
    SpotsDistinct(img, inodeBlock, Spot(c.level, c.digits), Spot(d.level, d.digits));
    FillChainMeans(a);
    FillChainMeans(b);
  }

  /** An inode at block 0 whose level-1 pointer is block 1 and whose level-2 tree names
      block 1 + 2^52, which is the same address. */
  function AliasWord(i: nat): uint64 {
    if i == DIRECT then 1 else if i == DIRECT + 1 then 2 else if i == PTRS then 7
    else if i == 2 * PTRS then ALIAS + 1 else NULL64
  }

  function AliasImage(): Image {
    Image(3 * BLOCK, seq(3 * PTRS, i requires 0 <= i < 3 * PTRS => AliasWord(i)))
  }

  lemma AliasChains()
    ensures FillChain(DIRECT) == Some(Chain(1, [0]))
    ensures FillChain(DIRECT + PTRS) == Some(Chain(2, [0, 0]))
  {
    assert Span(0) == 1 && Span(1) == PTRS && Span(2) == PTRS * PTRS;
    assert Digits(0, 0) == [] && Digits(0, 1) == [0] && Digits(0, 2) == [0, 0];
    assert FindLevel(PTRS, 1) == FindLevel(0, 2);
  }

  lemma AliasPointers()
    ensures var img := AliasImage();
            && SafeInodeRead(img, 0, DIRECT) == 1 && SafeInodeRead(img, 0, DIRECT + 1) == 2
            && SafePointerRead(img, 1, 0) == 7 && SafePointerRead(img, 2, 0) == ALIAS + 1
            && SafePointerRead(img, ALIAS + 1, 0) == 7
  {
    AddressWraps(1);
    AddressWraps(2);
    AddressWraps(ALIAS + 1);
    assert Address(0) == 0 && Address(1) == BLOCK && Address(2) == 2 * BLOCK && Address(ALIAS + 1) == BLOCK;
  }

  /** The condition of ResolveInjective is on addresses, not on pointer values: all words of
      this image differ, and two logical blocks resolve to one physical block. */
  lemma DistinctPointersNotEnough()
    ensures var img := AliasImage();
            && Whole(img) && Resolvable(img, 0, DIRECT) && Resolvable(img, 0, DIRECT + PTRS)
            && (forall i, j :: 0 <= i < |img.words| && 0 <= j < |img.words| && img.words[i] == img.words[j] != NULL64 ==> i == j)
            && Resolve(img, 0, DIRECT) == Resolve(img, 0, DIRECT + PTRS) != NULL64
  {
    AliasChains();
    AliasPointers();
    hide SafeInodeRead, SafePointerRead, FillChain;
    var img := AliasImage();
    assert [0][1..] == [] && [0, 0][1..] == [0];
    assert Safe(img, 7, []) && Safe(img, 1, [0]) && Safe(img, ALIAS + 1, [0]) && Safe(img, 2, [0, 0]);
    FollowStep(img, 1, [0]);
    FollowStep(img, 2, [0, 0]);
    FollowStep(img, ALIAS + 1, [0]);
    FollowEnd(img, 7, []);
  }

  // ----- Resolution as words of the image -----

  /** Word k of the block at 4096 * b, counted modulo 2^64, if `len` bytes of it lie in the
      image; else all ones. */
  function WordOf(img: Image, b: uint64, k: nat, len: nat): uint64
    requires Whole(img) && 8 * k + 8 <= len
  {
    var at := b % 0x10_0000_0000_0000 * 512;
    if 8 * at + len <= img.size then img.words[at + k] else 0xFFFF_FFFF_FFFF_FFFF
  }

  /** From pointer `current`, each index in turn picks the word to go on with. */
  function Trace(img: Image, current: uint64, indices: seq<nat>): uint64
    requires Whole(img) && forall k :: 0 <= k < |indices| ==> indices[k] < 512
    decreases |indices|
  {
    if indices == [] || current == 0xFFFF_FFFF_FFFF_FFFF then current
    else Trace(img, WordOf(img, current, indices[0], 4096), indices[1..])
  }

  /** Indices as digits to the base 512, most significant first. */
  function Number(indices: seq<nat>): nat {
    if indices == [] then 0 else 512 * Number(indices[..|indices| - 1]) + indices[|indices| - 1]
  }

  /** 12 + 512 + ... up to the level below. */
  function FirstOf(level: nat): nat
    requires 1 <= level <= 6
  {
    [12, 0x20C, 0x4_020C, 0x804_020C, 0x10_0804_020C, 0x2010_0804_020C][level - 1]
  }

  lemma InodeWord(img: Image, inodeBlock: uint64, slot: nat)
    requires Whole(img) && slot < 18
    ensures SafeInodeRead(img, inodeBlock, slot) == WordOf(img, inodeBlock, slot, 144)
  {
    AddressWraps(inodeBlock);
  }

  lemma PointerWord(img: Image, block: uint64, index: nat)
    requires Whole(img) && block % ALIAS != ALIAS - 1 && index < 512
    ensures SafePointerRead(img, block, index) == WordOf(img, block, index, 4096)
  {
    AddressWraps(block);
    assert block % ALIAS * BLOCK + BLOCK < TWO_64;
  }

  lemma {:induction false} FollowIsTrace(img: Image, current: uint64, digits: seq<nat>)
    requires Whole(img) && Safe(img, current, digits) && forall k :: 0 <= k < |digits| ==> digits[k] < 512
    ensures Follow(img, current, digits) == Trace(img, current, digits)
    decreases |digits|
  {
    hide SafePointerRead, WordOf;
    if digits != [] && current != NULL64 {
      PointerWord(img, current, digits[0]);
      FollowIsTrace(img, SafePointerRead(img, current, digits[0]), digits[1..]);
    }
  }

  lemma {:induction false} ValueSnoc(front: seq<nat>, d: nat)
    ensures Value(front + [d]) == 512 * Value(front) + d
    decreases |front|
  {
    if front == [] {
      assert Value([d]) == d * Span(0) + Value([]);
    } else {
      var all, n := front + [d], |front|;
      assert all[1..] == front[1..] + [d];
      ValueSnoc(front[1..], d);
      SpanNext(n - 1);
      MulOut(front[0], Span(n - 1));
      assert Value(all) == all[0] * Span(n) + Value(all[1..]);
    }
  }

  lemma SpanNext(n: nat)
    ensures Span(n + 1) == 512 * Span(n)
  {
  }

  lemma MulOut(a: nat, s: nat)
    ensures a * (512 * s) == 512 * (a * s)
  {
  }

  lemma {:induction false} NumberIsValue(digits: seq<nat>)
    ensures Number(digits) == Value(digits)
    decreases |digits|
  {
    if digits != [] {
      var front := digits[..|digits| - 1];
      NumberIsValue(front);
      ValueSnoc(front, digits[|digits| - 1]);
      assert front + [digits[|digits| - 1]] == digits;
    }
  }

  lemma BaseIs(level: nat)
    requires 1 <= level <= 6
    ensures Base(level) == FirstOf(level)
  {
    assert Span(1) == 0x200 && Span(2) == 0x4_0000 && Span(3) == 0x800_0000;
    assert Span(4) == 0x10_0000_0000 && Span(5) == 0x2000_0000_0000;
    assert Base(2) == 12 + 0x200 && Base(3) == Base(2) + 0x4_0000 && Base(4) == Base(3) + 0x800_0000;
    assert Base(5) == Base(4) + 0x10_0000_0000 && Base(6) == Base(5) + 0x2000_0000_0000;
  }

  /** Blocks 0 to 11 are the first words of the inode. */
  lemma ResolveDirect(img: Image, inodeBlock: uint64, logical: nat)
    requires Whole(img) && logical < 12
    ensures Resolvable(img, inodeBlock, logical) && Resolve(img, inodeBlock, logical) == WordOf(img, inodeBlock, logical, 144)
  {
    InodeWord(img, inodeBlock, logical);
  }

  /** At each of the six levels the block is found from word 11 + level of the inode through
      one word of one block a level, picked by the digits of the number to the base 512. */
  lemma ResolveTraces(img: Image, inodeBlock: uint64, level: nat, indices: seq<nat>)
    requires Whole(img) && 1 <= level <= 6 && |indices| == level && forall k :: 0 <= k < level ==> indices[k] < 512
    requires Resolvable(img, inodeBlock, FirstOf(level) + Number(indices))
    ensures Resolve(img, inodeBlock, FirstOf(level) + Number(indices))
         == Trace(img, WordOf(img, inodeBlock, 11 + level, 144), indices)
  {
    hide Resolve, Resolvable, FillChain, SafeInodeRead, SafePointerRead, Follow, Safe, Trace, WordOf, Value, Base, Number, FirstOf, Span;
    TracedChain(level, indices);
    ChainResolves(img, inodeBlock, FirstOf(level) + Number(indices), Chain(level, indices));
    InodeWord(img, inodeBlock, 11 + level);
    FollowIsTrace(img, SafeInodeRead(img, inodeBlock, 11 + level), indices);
  }

  lemma TracedChain(level: nat, indices: seq<nat>)
    requires 1 <= level <= 6 && |indices| == level && forall k :: 0 <= k < level ==> indices[k] < 512
    ensures FillChain(FirstOf(level) + Number(indices)) == Some(Chain(level, indices))
  {
    hide FillChain, Value, Base, Number, FirstOf, Span;
    BaseIs(level);
    NumberIsValue(indices);
    FillChainOnto(Chain(level, indices));
  }

  lemma ChainResolves(img: Image, inodeBlock: uint64, logical: nat, c: Chain)
    requires Whole(img) && Resolvable(img, inodeBlock, logical) && FillChain(logical) == Some(c) && 1 <= c.level <= 6
    ensures Safe(img, SafeInodeRead(img, inodeBlock, 11 + c.level), c.digits)
    ensures Resolve(img, inodeBlock, logical) == Follow(img, SafeInodeRead(img, inodeBlock, 11 + c.level), c.digits)
  {
    hide FillChain, SafeInodeRead, Follow, Safe;
  }

  /** Every number in range is one of those, and beyond them there is no block. */
  lemma ResolveCovers(img: Image, inodeBlock: uint64, logical: nat) returns (level: nat, indices: seq<nat>)
    requires Whole(img) && 12 <= logical
    ensures logical < 0x40_2010_0804_020C ==>
              && 1 <= level <= 6 && |indices| == level && (forall k :: 0 <= k < level ==> indices[k] < 512)
              && logical == FirstOf(level) + Number(indices)
    ensures logical >= 0x40_2010_0804_020C ==>
              Resolvable(img, inodeBlock, logical) && Resolve(img, inodeBlock, logical) == 0xFFFF_FFFF_FFFF_FFFF
  {
    LimitIs();
    FillChainMeans(logical);
    hide FillChain, Span, Base, Value, Number, FirstOf;
    level, indices := 1, [];
    if logical < LIMIT {
      var c := FillChain(logical).value;
      level, indices := c.level, c.digits;
      if level == 0 {
        DirectChain(logical, c);
      }
      BaseIs(level);
      NumberIsValue(indices);
    }
  }

  lemma DirectChain(logical: nat, c: Chain)
    requires WellFormed(c) && c.level == 0 && Recover(c) == logical
    ensures logical < 12
  {
    assert Value(c.digits) == c.digits[0] * Span(0) + Value(c.digits[1..]);
  }
}
