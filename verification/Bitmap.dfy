/** The byte-packed block bitmap: one bit per block, set when the block is taken. */
module Bitmap {

  /** `1 << k` for a bit number k of a byte. */
  function Mask(k: nat): (m: bv8)
    requires k < 8
    ensures m == 1 << k
  {
    [1, 2, 4, 8, 16, 32, 64, 128][k]
  }

  predicate ByteBit(x: bv8, k: nat)
    requires k < 8
  {
    x & Mask(k) != 0
  }

  function WithBit(x: bv8, k: nat): bv8
    requires k < 8
  {
    x | Mask(k)
  }

  function WithoutBit(x: bv8, k: nat): bv8
    requires k < 8
  {
    x & !Mask(k)
  }

  /** `bits[b / 8] >> (b % 8) & 1`, as a test of the masked bit. */
  predicate TestBit(bits: seq<bv8>, b: nat)
    requires b < 8 * |bits|
  {
    ByteBit(bits[b / 8], b % 8)
  }

  function SetBit(bits: seq<bv8>, b: nat): (r: seq<bv8>)
    requires b < 8 * |bits|
    ensures |r| == |bits|
  {
    bits[b / 8 := WithBit(bits[b / 8], b % 8)]
  }

  function ClearBit(bits: seq<bv8>, b: nat): (r: seq<bv8>)
    requires b < 8 * |bits|
    ensures |r| == |bits|
  {
    bits[b / 8 := WithoutBit(bits[b / 8], b % 8)]
  }

  lemma ShiftedBit(x: bv8, k: nat)
    requires k < 8
    ensures (x >> k) & 1 == 1 <==> ByteBit(x, k)
  {
    assert k == 0 || k == 1 || k == 2 || k == 3 || k == 4 || k == 5 || k == 6 || k == 7;
  }

  lemma MasksApart(j: nat, k: nat)
    requires j < 8 && k < 8
    ensures Mask(k) != 0 && (j != k ==> Mask(j) & Mask(k) == 0)
  {
    assert j == 0 || j == 1 || j == 2 || j == 3 || j == 4 || j == 5 || j == 6 || j == 7;
    assert k == 0 || k == 1 || k == 2 || k == 3 || k == 4 || k == 5 || k == 6 || k == 7;
  }

  lemma Masked(x: bv8, a: bv8, m: bv8)
    ensures a & m == 0 ==> (x | a) & m == x & m && (x & !a) & m == x & m
    ensures (x | m) & m == m && (x & !m) & m == 0
  {
  }

  lemma MaskBits(x: bv8, j: nat, k: nat)
    requires j < 8 && k < 8
    ensures ByteBit(WithBit(x, j), k) <==> j == k || ByteBit(x, k)
    ensures ByteBit(WithoutBit(x, j), k) <==> j != k && ByteBit(x, k)
  {
    hide Mask;
    MasksApart(j, k);
    Masked(x, Mask(j), Mask(k));
  }

  /** Each operation changes exactly the bit it names, whatever shares its byte. */
  lemma SetBitOnly(bits: seq<bv8>, b: nat, c: nat)
    requires b < 8 * |bits| && c < 8 * |bits|
    ensures TestBit(SetBit(bits, b), c) == (c == b || TestBit(bits, c))
    ensures TestBit(ClearBit(bits, b), c) == (c != b && TestBit(bits, c))
  {
    hide ByteBit, WithBit, WithoutBit;
    if b / 8 == c / 8 {
      var x, j, k := bits[b / 8], b % 8, c % 8;
      MaskBits(x, j, k);
      assert j == k <==> b == c;
    }
  }

  ghost function FreeSet(bits: seq<bv8>): set<nat> {
    set b: nat | 0 <= b < 8 * |bits| && !TestBit(bits, b)
  }

  lemma FreeSetOps(bits: seq<bv8>, b: nat)
    requires b < 8 * |bits|
    ensures FreeSet(SetBit(bits, b)) == FreeSet(bits) - {b}
    ensures FreeSet(ClearBit(bits, b)) == FreeSet(bits) + {b}
  {
    forall c: nat | c < 8 * |bits|
      ensures TestBit(SetBit(bits, b), c) == (c == b || TestBit(bits, c))
      ensures TestBit(ClearBit(bits, b), c) == (c != b && TestBit(bits, c))
    {
      SetBitOnly(bits, b, c);
    }
  }

  /** First clear bit in [i, hi), or hi. */
  function FindClear(bits: seq<bv8>, i: nat, hi: nat): (r: nat)
    requires i <= hi <= 8 * |bits|
    ensures i <= r <= hi
    ensures r < hi ==> !TestBit(bits, r)
    ensures forall j :: i <= j < r ==> TestBit(bits, j)
    decreases hi - i
  {
    if i == hi || !TestBit(bits, i) then i else FindClear(bits, i + 1, hi)
  }

  /** What `bitmap_alloc` picks: the first clear bit from `hint` on, else the first
      clear bit below it, else -1. */
  function Choose(bits: seq<bv8>, hint: nat): (r: int)
    requires hint <= 8 * |bits|
    ensures r == -1 <==> FreeSet(bits) == {}
    ensures r != -1 ==> 0 <= r < 8 * |bits| && r in FreeSet(bits)
    ensures r != -1 ==> forall j :: 0 <= j < 8 * |bits| && !TestBit(bits, j) ==>
              (if r >= hint then j < hint || r <= j else r <= j < hint)
  {
    var r := FindClear(bits, hint, 8 * |bits|);
    if r < 8 * |bits| then assert r in FreeSet(bits); r
    else
      var q := FindClear(bits, 0, hint);
      if q < hint then assert q in FreeSet(bits); q else -1
  }

  method BitmapSet(bm: array<bv8>, b: nat)
    requires b < 8 * bm.Length
    modifies bm
    ensures bm[..] == SetBit(old(bm[..]), b)
  {
    bm[b / 8] := bm[b / 8] | (1 << (b % 8));
  }

  method BitmapClear(bm: array<bv8>, b: nat)
    requires b < 8 * bm.Length
    modifies bm
    ensures bm[..] == ClearBit(old(bm[..]), b)
  {
    bm[b / 8] := bm[b / 8] & !(1 << (b % 8));
  }

  method BitmapTest(bm: array<bv8>, b: nat) returns (r: bool)
    requires b < 8 * bm.Length
    ensures r == TestBit(bm[..], b)
  {
    ShiftedBit(bm[b / 8], b % 8);
    r := (bm[b / 8] >> (b % 8)) & 1 == 1;
  }

  method BitmapAlloc(bm: array<bv8>, hint: nat) returns (r: int)
    requires hint <= 8 * bm.Length
    modifies bm
    ensures r == Choose(old(bm[..]), hint)
    ensures bm[..] == if r < 0 then old(bm[..]) else SetBit(old(bm[..]), r)
  {
    var total := 8 * bm.Length;
    for i := hint to total
      invariant bm[..] == old(bm[..])
      invariant FindClear(bm[..], hint, total) == FindClear(bm[..], i, total)
    {
      var taken := BitmapTest(bm, i);
      if !taken {
        BitmapSet(bm, i);
        return i;
      }
    }
    for i := 0 to hint
      invariant bm[..] == old(bm[..])
      invariant FindClear(bm[..], 0, hint) == FindClear(bm[..], i, hint)
    {
      var taken := BitmapTest(bm, i);
      if !taken {
        BitmapSet(bm, i);
        return i;
      }
    }
    return -1;
  }
}
