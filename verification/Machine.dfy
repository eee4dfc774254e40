/** Machine integers of the C and Rust sources and their little-endian byte forms. */
module Machine {

  type byte = x: int | 0 <= x < 0x100
  type uint32 = x: int | 0 <= x < 0x1_0000_0000
  type uint64 = x: int | 0 <= x < 0x1_0000_0000_0000_0000

  const TWO_32: int := 0x1_0000_0000
  const TWO_64: int := 0x1_0000_0000_0000_0000

  datatype Option<+T> = None | Some(value: T)

  /** `x++` and `x--` on a `uint32_t`: they wrap. */
  function Inc32(x: uint32): uint32 {
    (x + 1) % TWO_32
  }

  function Dec32(x: uint32): uint32 {
    (x + TWO_32 - 1) % TWO_32
  }

  function Min(a: nat, b: nat): nat {
    if a < b then a else b
  }

  function Le32(b: seq<byte>): uint32
    requires |b| == 4
  {
    (b[0] as int) + 0x100 * (b[1] as int) + 0x1_0000 * (b[2] as int) + 0x100_0000 * (b[3] as int)
  }

  function Bytes32(x: uint32): (b: seq<byte>)
    ensures |b| == 4
  {
    [x % 0x100, x / 0x100 % 0x100, x / 0x1_0000 % 0x100, x / 0x100_0000]
  }

  function Le64(b: seq<byte>): uint64
    requires |b| == 8
  {
    (Le32(b[..4]) as int) + TWO_32 * (Le32(b[4..]) as int)
  }

  function Bytes64(x: uint64): (b: seq<byte>)
    ensures |b| == 8
  {
    Bytes32(x % TWO_32) + Bytes32(x / TWO_32)
  }

  /** Byte k of a word counts 256^k. */
  lemma LittleEndian(b: seq<byte>, c: seq<byte>)
    requires |b| == 4 && |c| == 8
    ensures Le32(b) == (b[0] as int) + 0x100 * (b[1] as int) + 0x1_0000 * (b[2] as int) + 0x100_0000 * (b[3] as int)
    ensures Le64(c) == (c[0] as int) + 0x100 * (c[1] as int) + 0x1_0000 * (c[2] as int) + 0x100_0000 * (c[3] as int)
                       + 0x1_0000_0000 * (c[4] as int) + 0x100_0000_0000 * (c[5] as int)
                       + 0x1_0000_0000_0000 * (c[6] as int) + 0x100_0000_0000_0000 * (c[7] as int)
  {
    assert c[..4] == [c[0], c[1], c[2], c[3]] && c[4..] == [c[4], c[5], c[6], c[7]];
  }

  lemma Le32OfBytes32(x: uint32)
    ensures Le32(Bytes32(x)) == x
  {
    var a := x / 0x100;
    var b := a / 0x100;
    assert x / 0x1_0000 == b && x / 0x100_0000 == b / 0x100;
  }

  lemma Le64OfBytes64(x: uint64)
    ensures Le64(Bytes64(x)) == x
  {
    var b := Bytes64(x);
    assert b[..4] == Bytes32(x % TWO_32) && b[4..] == Bytes32(x / TWO_32);
    Le32OfBytes32(x % TWO_32);
    Le32OfBytes32(x / TWO_32);
  }

  /** `memcpy(b + off, x, |x|)`. */
  function Splice(b: seq<byte>, off: nat, x: seq<byte>): (r: seq<byte>)
    requires off + |x| <= |b|
    ensures |r| == |b|
    ensures forall i :: 0 <= i < |b| ==> r[i] == if off <= i < off + |x| then x[i - off] else b[i]
  {
    b[..off] + x + b[off + |x|..]
  }

  /** A splice leaves every slice apart from its own bytes as it was. */
  lemma SliceKept(b: seq<byte>, off: nat, x: seq<byte>, lo: nat, hi: nat)
    requires off + |x| <= |b| && lo <= hi <= |b| && (hi <= off || off + |x| <= lo)
    ensures Splice(b, off, x)[lo..hi] == b[lo..hi]
  {
  }

  lemma SliceSet(b: seq<byte>, off: nat, x: seq<byte>, hi: nat)
    requires off + |x| == hi <= |b|
    ensures Splice(b, off, x)[off..hi] == x
  {
  }

  lemma SliceOf(b: seq<byte>, off: nat, x: seq<byte>, lo: nat, hi: nat)
    requires off + |x| <= |b| && off <= lo <= hi <= off + |x|
    ensures Splice(b, off, x)[lo..hi] == x[lo - off..hi - off]
  {
  }

  lemma SpliceTwice(b: seq<byte>, off: nat, x: seq<byte>, y: seq<byte>)
    requires off + |x| + |y| <= |b|
    ensures Splice(Splice(b, off, x), off + |x|, y) == Splice(b, off, x + y)
  {
  }

  function Zeros(n: nat): (r: seq<byte>)
    ensures |r| == n && forall i :: 0 <= i < n ==> r[i] == 0
  {
    seq(n, _ => 0)
  }
}
