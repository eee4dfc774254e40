/** crc32 of idkfs_core.c:102-123 against the bit-at-a-time reflected CRC of section 8 of
    RFC 1952, and the bursts it detects. */
module Crc {

  const POLY: bv32 := 0xEDB88320

  // ----- The definition, one message bit at a time -----

  function Bit(b: bool): bv32 {
    if b then 1 else 0
  }

  /** One turn of the register with nothing fed in. */
  function Shift(c: bv32): bv32 {
    if c & 1 == 1 then POLY ^ (c >> 1) else c >> 1
  }

  /** Feed one message bit. */
  function Feed(c: bv32, b: bool): bv32 {
    Shift(c ^ Bit(b))
  }

  function FeedAll(c: bv32, bits: seq<bool>): bv32
    decreases |bits|
  {
    if bits == [] then c else FeedAll(Feed(c, bits[0]), bits[1..])
  }

  /** The bits of a byte, least significant first. */
  function ByteBits(b: bv8): (r: seq<bool>)
    ensures |r| == 8
  {
    [b & 1 != 0] + ([b & 2 != 0] + ([b & 4 != 0] + ([b & 8 != 0]
      + ([b & 16 != 0] + ([b & 32 != 0] + ([b & 64 != 0] + ([b & 128 != 0] + [])))))))
  }

  function Bits(data: seq<bv8>): (r: seq<bool>)
    ensures |r| == 8 * |data|
  {
    if data == [] then [] else ByteBits(data[0]) + Bits(data[1..])
  }

  function Crc32(data: seq<bv8>): bv32 {
    FeedAll(0xFFFFFFFF, Bits(data)) ^ 0xFFFFFFFF
  }

  // ----- The register is XOR-linear -----

  lemma XorHalves(a: bv32, b: bv32)
    ensures (a ^ b) >> 1 == (a >> 1) ^ (b >> 1)
    ensures (a ^ b) & 1 == (a & 1) ^ (b & 1)
  {
  }

  lemma LowBit(a: bv32)
    ensures a & 1 == 0 || a & 1 == 1
  {
  }

  lemma XorRegroup(p: bv32, a: bv32, b: bv32)
    ensures p ^ (a ^ b) == (p ^ a) ^ b == a ^ (p ^ b)
    ensures (p ^ a) ^ (p ^ b) == a ^ b
  {
  }

  lemma ShiftLinear(a: bv32, b: bv32)
    ensures Shift(a ^ b) == Shift(a) ^ Shift(b)
  {
    XorHalves(a, b);
    LowBit(a);
    LowBit(b);
    XorRegroup(POLY, a >> 1, b >> 1);
    if a & 1 == 1 {
      if b & 1 == 1 {
      } else {
      }
    } else if b & 1 == 1 {
    }
  }

  /** The operators under names, so that a proof can leave their bits alone. */
  function Xor(a: bv32, b: bv32): bv32 {
    a ^ b
  }

  function Half(c: bv32): bv32 {
    c >> 1
  }

  predicate Even(c: bv32) {
    c & 1 == 0
  }

  function Shift8(c: bv32): bv32 {
    Shift(Shift(Shift(Shift(Shift(Shift(Shift(Shift(c))))))))
  }

  function Half8(c: bv32): bv32 {
    Half(Half(Half(Half(Half(Half(Half(Half(c))))))))
  }

  lemma ShiftXor(a: bv32, b: bv32)
    ensures Shift(Xor(a, b)) == Xor(Shift(a), Shift(b))
  {
    ShiftLinear(a, b);
  }

  lemma Shift8Linear(a: bv32, b: bv32)
    ensures Shift8(Xor(a, b)) == Xor(Shift8(a), Shift8(b))
  {
    hide Shift, Xor;
    var a1, b1 := Shift(a), Shift(b);
    var a2, b2 := Shift(a1), Shift(b1);
    var a3, b3 := Shift(a2), Shift(b2);
    var a4, b4 := Shift(a3), Shift(b3);
    var a5, b5 := Shift(a4), Shift(b4);
    var a6, b6 := Shift(a5), Shift(b5);
    var a7, b7 := Shift(a6), Shift(b6);
    ShiftXor(a, b);
    ShiftXor(a1, b1);
    ShiftXor(a2, b2);
    ShiftXor(a3, b3);
    ShiftXor(a4, b4);
    ShiftXor(a5, b5);
    ShiftXor(a6, b6);
    ShiftXor(a7, b7);
  }

  lemma ShiftEven(c: bv32)
    requires Even(c)
    ensures Shift(c) == Half(c)
  {
  }

  lemma ClearByte(c: bv32)
    requires c & 0xFF == 0
    ensures Even(c) && Even(Half(c)) && Even(Half(Half(c))) && Even(Half(Half(Half(c))))
    ensures var d := Half(Half(Half(Half(c)))); Even(d) && Even(Half(d)) && Even(Half(Half(d))) && Even(Half(Half(Half(d))))
  {
  }

  lemma Half8Down(c: bv32)
    ensures Half8(c) == c >> 8
  {
  }

  /** Eight turns on a word whose low byte is clear only move it down a byte. */
  lemma Shift8Clear(c: bv32)
    requires c & 0xFF == 0
    ensures Shift8(c) == Half8(c)
  {
    ClearByte(c);
    hide Shift, Half, Even;
    ShiftEven(c);
    ShiftEven(Half(c));
    ShiftEven(Half(Half(c)));
    ShiftEven(Half(Half(Half(c))));
    ShiftEven(Half(Half(Half(Half(c)))));
    ShiftEven(Half(Half(Half(Half(Half(c))))));
    ShiftEven(Half(Half(Half(Half(Half(Half(c)))))));
    ShiftEven(Half(Half(Half(Half(Half(Half(Half(c))))))));
  }

  function Low(c: bv32): bv32 {
    c & 0xFF
  }

  function High(c: bv32): bv32 {
    c & 0xFFFFFF00
  }

  lemma SplitWord(c: bv32)
    ensures Xor(Low(c), High(c)) == c
    ensures High(c) & 0xFF == 0 && High(c) >> 8 == c >> 8
  {
  }

  lemma HighDown(c: bv32)
    ensures Shift8(High(c)) == c >> 8
  {
    SplitWord(c);
    hide Shift8, Half8, High;
    Shift8Clear(High(c));
    Half8Down(High(c));
  }

  /** The table step: the low byte is looked up, the rest moves down. */
  lemma TableStep(c: bv32)
    ensures Shift8(c) == Xor(Shift8(Low(c)), c >> 8)
  {
    hide Shift8, Xor, Low, High;
    SplitWord(c);
    Shift8Linear(Low(c), High(c));
    HighDown(c);
  }

  // ----- Feeding a word at once -----

  function Double(c: bv32): bv32 {
    c << 1
  }

  /** The message bits as the word that, XORed in at once, does what feeding them does. */
  function Word(bits: seq<bool>): bv32 {
    if bits == [] then 0 else Xor(Bit(bits[0]), Double(Word(bits[1..])))
  }

  function ShiftN(c: bv32, n: nat): bv32
    decreases n
  {
    if n == 0 then c else ShiftN(Shift(c), n - 1)
  }

  function DoubleOne(c: bv32): bv32 {
    (c << 1) | 1
  }

  /** n ones. */
  function Ones(n: nat): bv32 {
    if n == 0 then 0 else DoubleOne(Ones(n - 1))
  }

  predicate Within(c: bv32, mask: bv32) {
    c & !mask == 0
  }

  lemma WithinDouble(b: bool, c: bv32, mask: bv32)
    requires Within(c, mask)
    ensures Within(Xor(Bit(b), Double(c)), DoubleOne(mask))
  {
    DoubleWithin(c, mask);
    BitWithin(b, mask);
    hide Bit, Double, DoubleOne;
    XorWithin(Bit(b), Double(c), DoubleOne(mask));
  }

  lemma DoubleWithin(c: bv32, mask: bv32)
    requires Within(c, mask)
    ensures Within(Double(c), DoubleOne(mask))
  {
  }

  lemma BitWithin(b: bool, mask: bv32)
    ensures Within(Bit(b), DoubleOne(mask))
  {
  }

  lemma XorWithin(a: bv32, b: bv32, mask: bv32)
    requires Within(a, mask) && Within(b, mask)
    ensures Within(Xor(a, b), mask)
  {
  }

  lemma {:induction false} WordWithin(bits: seq<bool>)
    ensures Within(Word(bits), Ones(|bits|))
  {
    hide Within, Xor, Double, Bit, DoubleOne;
    if bits != [] {
      WordWithin(bits[1..]);
      WithinDouble(bits[0], Word(bits[1..]), Ones(|bits[1..]|));
    } else {
      WithinZero();
    }
  }

  lemma WithinZero()
    ensures Within(0, 0)
  {
  }

  lemma OnesMore(m: bv32, n: bv32)
    requires Within(m, n)
    ensures Within(DoubleOne(m), DoubleOne(n))
  {
  }

  lemma {:induction false} OnesMonotone(n: nat, m: nat)
    requires n <= m
    ensures Within(Ones(n), Ones(m))
    decreases m
  {
    hide Within, DoubleOne;
    if n == 0 {
      ZeroWithin(Ones(m));
    } else {
      OnesMonotone(n - 1, m - 1);
      OnesMore(Ones(n - 1), Ones(m - 1));
    }
  }

  lemma ZeroWithin(m: bv32)
    ensures Within(0, m)
  {
  }

  lemma WithinTrans(a: bv32, b: bv32, c: bv32)
    requires Within(a, b) && Within(b, c)
    ensures Within(a, c)
  {
  }

  lemma Ones31()
    ensures Ones(31) == 0x7FFFFFFF
  {
    assert Ones(8) == 0xFF;
    assert Ones(16) == 0xFFFF;
    assert Ones(24) == 0xFFFFFF;
  }

  lemma WordTopClear(bits: seq<bool>)
    requires |bits| <= 31
    ensures Within(Word(bits), 0x7FFFFFFF)
  {
    hide Within, Ones, Word;
    WordWithin(bits);
    OnesMonotone(|bits|, 31);
    Ones31();
    WithinTrans(Word(bits), Ones(|bits|), Ones(31));
  }

  lemma ShiftDouble(c: bv32)
    requires Within(c, 0x7FFFFFFF)
    ensures Shift(Double(c)) == c
  {
  }

  lemma XorAssoc(a: bv32, b: bv32, c: bv32)
    ensures Xor(Xor(a, b), c) == Xor(a, Xor(b, c))
  {
  }

  lemma FeedIs(c: bv32, b: bool)
    ensures Feed(c, b) == Shift(Xor(c, Bit(b)))
  {
  }

  /** Up to 32 bits fed one by one are one XOR and as many turns. */
  lemma {:induction false} FeedWord(c: bv32, bits: seq<bool>)
    requires |bits| <= 32
    ensures FeedAll(c, bits) == ShiftN(Xor(c, Word(bits)), |bits|)
    decreases |bits|
  {
    hide Feed, Shift, Xor, Double, Bit, Within;
    if bits == [] {
      XorZero(c);
    } else {
      var b, rest := Bit(bits[0]), Word(bits[1..]);
      FeedIs(c, bits[0]);
      FeedWord(Feed(c, bits[0]), bits[1..]);
      WordTopClear(bits[1..]);
      ShiftDouble(rest);
      ShiftXor(Xor(c, b), Double(rest));
      XorAssoc(c, b, Double(rest));
    }
  }

  lemma XorZero(c: bv32)
    ensures Xor(c, 0) == c
  {
  }

  lemma WordCons(b: bool, rest: seq<bool>)
    ensures Word([b] + rest) == Xor(Bit(b), Double(Word(rest)))
    ensures Word([]) == 0
  {
    assert ([b] + rest)[1..] == rest;
  }

  lemma WordOf8(a: bool, b: bool, c: bool, d: bool, e: bool, f: bool, g: bool, h: bool)
    ensures Word([a] + ([b] + ([c] + ([d] + ([e] + ([f] + ([g] + ([h] + []))))))))
         == Xor(Bit(a), Double(Xor(Bit(b), Double(Xor(Bit(c), Double(Xor(Bit(d), Double(Xor(Bit(e), Double(
              Xor(Bit(f), Double(Xor(Bit(g), Double(Xor(Bit(h), Double(0))))))))))))))))
  {
    hide Xor, Bit, Double, Word;
    WordCons(h, []);
    WordCons(g, [h] + []);
    WordCons(f, [g] + ([h] + []));
    WordCons(e, [f] + ([g] + ([h] + [])));
    WordCons(d, [e] + ([f] + ([g] + ([h] + []))));
    WordCons(c, [d] + ([e] + ([f] + ([g] + ([h] + [])))));
    WordCons(b, [c] + ([d] + ([e] + ([f] + ([g] + ([h] + []))))));
    WordCons(a, [b] + ([c] + ([d] + ([e] + ([f] + ([g] + ([h] + [])))))));
  }

  lemma ByteWord(b: bv8)
    ensures Word(ByteBits(b)) == b as bv32
  {
    WordOf8(b & 1 != 0, b & 2 != 0, b & 4 != 0, b & 8 != 0, b & 16 != 0, b & 32 != 0, b & 64 != 0, b & 128 != 0);
    hide Word;
  }

  // ----- The code -----

  /** An entry of the table. */
  function TableEntry(k: nat): bv32
    requires k < 256
  {
    Shift8(k as bv32)
  }

  lemma LowIndex(x: bv32)
    ensures (Low(x) as int) < 256 && (Low(x) as int) as bv32 == Low(x)
  {
  }

  function Down8(c: bv32): bv32 {
    c >> 8
  }

  lemma ByteClears(c: bv32, p: bv8)
    ensures Down8(Xor(c, p as bv32)) == Down8(c)
  {
  }

  /** One byte by the table is eight bits by the definition. */
  lemma ByteStep(c: bv32, p: bv8)
    ensures (Low(Xor(c, p as bv32)) as int) < 256
    ensures FeedAll(c, ByteBits(p)) == Xor(TableEntry(Low(Xor(c, p as bv32)) as int), Down8(c))
  {
    var x := Xor(c, p as bv32);
    hide Word, ByteBits, FeedAll, Shift8, Low, Xor, ShiftN;
    FeedWord(c, ByteBits(p));
    ByteWord(p);
    EightTurns(x);
    TableStep(x);
    ByteClears(c, p);
    LowIndex(x);
  }

  lemma EightTurns(c: bv32)
    ensures ShiftN(c, 8) == Shift8(c)
  {
    hide Shift;
    TurnMore(c, 7);
    TurnMore(Shift(c), 6);
    TurnMore(Shift(Shift(c)), 5);
    TurnMore(Shift(Shift(Shift(c))), 4);
    TurnMore(Shift(Shift(Shift(Shift(c)))), 3);
    TurnMore(Shift(Shift(Shift(Shift(Shift(c))))), 2);
    TurnMore(Shift(Shift(Shift(Shift(Shift(Shift(c)))))), 1);
    TurnMore(Shift(Shift(Shift(Shift(Shift(Shift(Shift(c))))))), 0);
  }

  lemma TurnMore(c: bv32, n: nat)
    ensures ShiftN(c, n + 1) == ShiftN(Shift(c), n) && ShiftN(c, 0) == c
  {
  }

  lemma {:induction false} FeedConcat(c: bv32, a: seq<bool>, b: seq<bool>)
    ensures FeedAll(c, a + b) == FeedAll(FeedAll(c, a), b)
    decreases |a|
  {
    hide Feed;
    if a == [] {
      assert a + b == b;
    } else {
      assert (a + b)[1..] == a[1..] + b;
      FeedConcat(Feed(c, a[0]), a[1..], b);
    }
  }

  lemma {:induction false} BitsConcat(a: seq<bv8>, b: seq<bv8>)
    ensures Bits(a + b) == Bits(a) + Bits(b)
    decreases |a|
  {
    hide ByteBits;
    if a == [] {
      assert a + b == b;
    } else {
      assert (a + b)[1..] == a[1..] + b;
      BitsConcat(a[1..], b);
    }
  }

  lemma BitsSnoc(a: seq<bv8>, p: bv8)
    ensures Bits(a + [p]) == Bits(a) + ByteBits(p)
  {
    hide ByteBits;
    BitsConcat(a, [p]);
    assert Bits([p]) == ByteBits(p);
  }

  /** The static table of idkfs_core.c with its lazy initialisation. */
  class Checksum {
    const table: array<bv32>
    var initialized: bool

    ghost predicate Valid()
      reads this, table
    {
      table.Length == 256 && (initialized ==> forall i :: 0 <= i < 256 ==> table[i] == TableEntry(i))
    }

    constructor ()
      ensures Valid() && fresh(table)
    {
      table := new bv32[256](_ => 0);
      initialized := false;
    }

    method Init()
      requires table.Length == 256
      modifies this`initialized, table
      ensures Valid() && initialized
    {
      hide TableEntry;
      for i := 0 to 256
        invariant forall k :: 0 <= k < i ==> table[k] == TableEntry(k)
      {
        table[i] := Entry(i);
      }
      initialized := true;
    }

    /** The inner loop: eight turns. */
    static method Entry(i: nat) returns (c: bv32)
      requires i < 256
      ensures c == TableEntry(i)
    {
      hide Shift, ShiftN, Shift8;
      c := i as bv32;
      EightTurns(c);
      for j := 0 to 8
        invariant ShiftN(c, 8 - j) == TableEntry(i)
      {
        TurnMore(c, 7 - j);
        c := Turn(c);
      }
      TurnMore(c, 0);
    }

    /** The innermost statement of the table loop. */
    static method Turn(c: bv32) returns (r: bv32)
      ensures r == Shift(c)
    {
      r := if c & 1 != 0 then 0xEDB88320 ^ (c >> 1) else c >> 1;
      LowBit(c);
    }

    /** The table-driven loop computes the bit-at-a-time CRC of every byte string. */
    method Sum(data: seq<bv8>) returns (r: bv32)
      requires Valid()
      modifies this`initialized, table
      ensures Valid() && initialized && r == Crc32(data)
    {
      if !initialized {
        Init();
      }
      var c: bv32 := 0xFFFFFFFF;
      var i := 0;
      hide TableEntry, ByteBits, FeedAll, Bits;
      assert data[..0] == [] && FeedAll(c, Bits([])) == c by { FeedNothing(c); }
      while i < |data|
        invariant i <= |data| && Valid() && initialized
        invariant c == FeedAll(0xFFFFFFFF, Bits(data[..i]))
      {
        BitsSnoc(data[..i], data[i]);
        FeedConcat(0xFFFFFFFF, Bits(data[..i]), ByteBits(data[i]));
        assert data[..i + 1] == data[..i] + [data[i]];
        c := Looked(c, data[i]);
        i := i + 1;
      }
      assert data[..|data|] == data;
      r := c ^ 0xFFFFFFFF;
    }

    /** `crc32_table[(c ^ p) & 0xFF] ^ (c >> 8)`. */
    function Looked(c: bv32, p: bv8): (r: bv32)
      reads this, table
      requires Valid() && initialized
      ensures r == FeedAll(c, ByteBits(p))
    {
      ByteStep(c, p);
      Xor(table[Low(Xor(c, p as bv32)) as int], Down8(c))
    }
  }

  lemma FeedNothing(c: bv32)
    ensures FeedAll(c, Bits([])) == c
  {
  }

  // ----- Bursts -----

  /** A turn loses nothing: the bit shifted out is the top bit of the result. */
  lemma ShiftInjective(a: bv32, b: bv32)
    requires Shift(a) == Shift(b)
    ensures a == b
  {
    LowBit(a);
    LowBit(b);
  }

  lemma XorCancel(a: bv32, b: bv32, c: bv32)
    requires Xor(a, c) == Xor(b, c) || Xor(c, a) == Xor(c, b)
    ensures a == b
  {
  }

  lemma {:induction false} FeedAllInjective(a: bv32, b: bv32, bits: seq<bool>)
    requires FeedAll(a, bits) == FeedAll(b, bits)
    ensures a == b
    decreases |bits|
  {
    hide Feed, Shift, Xor;
    if bits != [] {
      FeedAllInjective(Feed(a, bits[0]), Feed(b, bits[0]), bits[1..]);
      FeedIs(a, bits[0]);
      FeedIs(b, bits[0]);
      ShiftInjective(Xor(a, Bit(bits[0])), Xor(b, Bit(bits[0])));
      XorCancel(a, b, Bit(bits[0]));
    }
  }

  lemma {:induction false} ShiftNInjective(a: bv32, b: bv32, n: nat)
    requires ShiftN(a, n) == ShiftN(b, n)
    ensures a == b
    decreases n
  {
    hide Shift;
    if n > 0 {
      ShiftNInjective(Shift(a), Shift(b), n - 1);
      ShiftInjective(a, b);
    }
  }

  lemma HeadAndTailOf(a: bool, x: bv32)
    requires Within(x, 0x7FFFFFFF)
    ensures Even(Xor(Bit(a), Double(x))) == !a && Half(Xor(Bit(a), Double(x))) == x
  {
  }

  lemma HeadAndTail(a: bool, x: bv32, b: bool, y: bv32)
    requires Within(x, 0x7FFFFFFF) && Within(y, 0x7FFFFFFF)
    requires Xor(Bit(a), Double(x)) == Xor(Bit(b), Double(y))
    ensures a == b && x == y
  {
    hide Within, Xor, Bit, Double, Even, Half;
    HeadAndTailOf(a, x);
    HeadAndTailOf(b, y);
  }

  lemma {:induction false} WordInjective(a: seq<bool>, b: seq<bool>)
    requires |a| == |b| <= 32 && Word(a) == Word(b)
    ensures a == b
    decreases |a|
  {
    hide Xor, Bit, Double, Within;
    if a != [] {
      WordTopClear(a[1..]);
      WordTopClear(b[1..]);
      HeadAndTail(a[0], Word(a[1..]), b[0], Word(b[1..]));
      WordInjective(a[1..], b[1..]);
      assert a == [a[0]] + a[1..] && b == [b[0]] + b[1..];
    }
  }

  /** From one register state, at most 32 bits can be read back from the state they lead to. */
  lemma WindowInjective(c: bv32, a: seq<bool>, b: seq<bool>)
    requires |a| == |b| <= 32 && FeedAll(c, a) == FeedAll(c, b)
    ensures a == b
  {
    hide FeedAll, ShiftN, Word, Xor;
    FeedWord(c, a);
    FeedWord(c, b);
    ShiftNInjective(Xor(c, Word(a)), Xor(c, Word(b)), |a|);
    XorCancel(Word(a), Word(b), c);
    WordInjective(a, b);
  }

  lemma {:induction false} BitsInjective(x: seq<bv8>, y: seq<bv8>)
    requires |x| == |y| && Bits(x) == Bits(y)
    ensures x == y
    decreases |x|
  {
    if x != [] {
      assert Bits(x)[..8] == ByteBits(x[0]) && Bits(y)[..8] == ByteBits(y[0]);
      assert Bits(x)[8..] == Bits(x[1..]) && Bits(y)[8..] == Bits(y[1..]);
      BitsInjective(x[1..], y[1..]);
      ByteBitsInjective(x[0], y[0]);
      hide ByteBits;
      assert x == [x[0]] + x[1..] && y == [y[0]] + y[1..];
    }
  }

  lemma ByteBitsInjective(a: bv8, b: bv8)
    requires ByteBits(a) == ByteBits(b)
    ensures a == b
  {
    ByteWord(a);
    ByteWord(b);
    hide Word, ByteBits;
  }

  /** Two byte strings of one length that differ only within 32 consecutive bits have
      different CRCs. */
  lemma BurstDetected(x: seq<bv8>, y: seq<bv8>, at: nat, n: nat)
    requires |x| == |y| && x != y && n <= 32 && at + n <= 8 * |x|
    requires Bits(x)[..at] == Bits(y)[..at] && Bits(x)[at + n..] == Bits(y)[at + n..]
    ensures Crc32(x) != Crc32(y)
  {
    var a, b, end := Bits(x), Bits(y), at + n;
    if FeedAll(0xFFFFFFFF, a) == FeedAll(0xFFFFFFFF, b) {
      hide FeedAll, Bits;
      var c := FeedAll(0xFFFFFFFF, a[..at]);
      assert a == (a[..at] + a[at..end]) + a[end..] && b == (b[..at] + b[at..end]) + b[end..];
      FeedConcat(0xFFFFFFFF, a[..at] + a[at..end], a[end..]);
      FeedConcat(0xFFFFFFFF, b[..at] + b[at..end], b[end..]);
      FeedConcat(0xFFFFFFFF, a[..at], a[at..end]);
      FeedConcat(0xFFFFFFFF, b[..at], b[at..end]);
      FeedAllInjective(FeedAll(c, a[at..end]), FeedAll(c, b[at..end]), a[end..]);
      WindowInjective(c, a[at..end], b[at..end]);
      BitsInjective(x, y);
    }
    hide FeedAll;
    LastXor(FeedAll(0xFFFFFFFF, a), FeedAll(0xFFFFFFFF, b));
  }

  lemma LastXor(a: bv32, b: bv32)
    ensures a ^ 0xFFFFFFFF == b ^ 0xFFFFFFFF ==> a == b
  {
  }

  // ----- The check value -----

  lemma FeedByte(c: bv32, p: bv8)
    ensures FeedAll(c, ByteBits(p)) == Shift8(Xor(c, p as bv32))
  {
    hide Word, ByteBits, FeedAll, Shift8, Xor, ShiftN;
    FeedWord(c, ByteBits(p));
    ByteWord(p);
    EightTurns(Xor(c, p as bv32));
  }

  /** One more byte of the message takes the register from c to n. */
  lemma CheckStep(d: seq<bv8>, k: nat, c: bv32, n: bv32)
    requires k < |d| && FeedAll(0xFFFFFFFF, Bits(d[..k])) == c && Shift8(Xor(c, d[k] as bv32)) == n
    ensures FeedAll(0xFFFFFFFF, Bits(d[..k + 1])) == n
  {
    hide ByteBits, FeedAll, Bits, Shift8, Xor;
    BitsSnoc(d[..k], d[k]);
    FeedConcat(0xFFFFFFFF, Bits(d[..k]), ByteBits(d[k]));
    assert d[..k + 1] == d[..k] + [d[k]];
    FeedByte(c, d[k]);
  }

  /** The nine characters "123456789" have the CRC 0xCBF43926, the check value by which this
      CRC is told from others. */
  lemma CheckValue()
    ensures Crc32([0x31, 0x32, 0x33, 0x34, 0x35, 0x36, 0x37, 0x38, 0x39]) == 0xCBF43926
  {
    hide ByteBits, FeedAll, Bits;
    var d: seq<bv8> := [0x31, 0x32, 0x33, 0x34, 0x35, 0x36, 0x37, 0x38, 0x39];
    assert d[..0] == [];
    FeedNothing(0xFFFFFFFF);
    CheckStep(d, 0, 0xFFFFFFFF, 0x7C231048);
    CheckStep(d, 1, 0x7C231048, 0xB0ACBB32);
    CheckStep(d, 2, 0xB0ACBB32, 0x77B79C2D);
    CheckStep(d, 3, 0x77B79C2D, 0x641C1F5C);
    CheckStep(d, 4, 0x641C1F5C, 0x340AC5E3);
    CheckStep(d, 5, 0x340AC5E3, 0xF68D2C9E);
    CheckStep(d, 6, 0xF68D2C9E, 0xAFFC9660);
    CheckStep(d, 7, 0xAFFC9660, 0x651F2550);
    CheckStep(d, 8, 0x651F2550, 0x340BC6D9);
    assert d[..9] == d;
  }
}
