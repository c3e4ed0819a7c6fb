/** Fixed-width unsigned integers, wrapping arithmetic and little-endian bytes. */
module Words {

  type u8 = x: int | 0 <= x < 0x100
  type u16 = x: int | 0 <= x < 0x1_0000
  type u32 = x: int | 0 <= x < TWO32

  const TWO32: int := 0x1_0000_0000

  /** Reduction of an unbounded position to the cursor that represents it. */
  function Wrap(x: int): u32 {
    x % TWO32
  }

  function WrappingAdd(a: u32, b: u32): u32 {
    Wrap(a + b)
  }

  function WrappingSub(a: u32, b: u32): u32 {
    Wrap(a - b)
  }

  /** Adding to a wrapped position is wrapping the sum. */
  lemma WrapOfSum(x: nat, n: u32)
    ensures WrappingAdd(Wrap(x), n) == Wrap(x + n)
  {
  }

  lemma WrapOfWrap(x: nat, n: nat)
    ensures Wrap(Wrap(x) + n) == Wrap(x + n)
  {
  }

  /** The distance between two cursors is exact while the positions are less than 2^32 apart. */
  lemma WrapDistance(lo: nat, hi: nat)
    requires lo <= hi < lo + TWO32
    ensures WrappingSub(Wrap(hi), Wrap(lo)) == hi - lo
  {
  }

  function Zeros(n: nat): (z: seq<u8>)
    ensures |z| == n && forall i :: 0 <= i < n ==> z[i] == 0
  {
    seq(n, _ => 0)
  }

  function Le16(v: u16): (b: seq<u8>)
    ensures |b| == 2
  {
    [v % 0x100, v / 0x100]
  }

  function FromLe16(b: seq<u8>): u16
    requires |b| == 2
  {
    b[0] as int + 0x100 * b[1] as int
  }

  function Le32(v: u32): (b: seq<u8>)
    ensures |b| == 4
  {
    [v % 0x100, v / 0x100 % 0x100, v / 0x1_0000 % 0x100, v / 0x100_0000]
  }

  function FromLe32(b: seq<u8>): u32
    requires |b| == 4
  {
    b[0] as int + 0x100 * b[1] as int + 0x1_0000 * b[2] as int + 0x100_0000 * b[3] as int
  }

  lemma Le16RoundTrip(v: u16)
    ensures FromLe16(Le16(v)) == v
  {
  }

  lemma Le16Unique(b: seq<u8>)
    requires |b| == 2
    ensures Le16(FromLe16(b)) == b
  {
  }

  lemma Le32RoundTrip(v: u32)
    ensures FromLe32(Le32(v)) == v
  {
    assert v / 0x100 == v / 0x100 % 0x100 + 0x100 * (v / 0x1_0000);
    assert v / 0x1_0000 == v / 0x1_0000 % 0x100 + 0x100 * (v / 0x100_0000);
  }

  lemma Le32Unique(b: seq<u8>)
    requires |b| == 4
    ensures Le32(FromLe32(b)) == b
  {
    var v: int := FromLe32(b);
    assert v % 0x100 == b[0];
    assert v / 0x100 == b[1] as int + 0x100 * b[2] as int + 0x1_0000 * b[3] as int;
    assert v / 0x1_0000 == b[2] as int + 0x100 * b[3] as int;
  }

  type u64 = x: int | 0 <= x < TWO64

  const TWO64: int := 0x1_0000_0000_0000_0000

  function Le64(v: u64): (b: seq<u8>)
    ensures |b| == 8
  {
    Le32(v % TWO32) + Le32(v / TWO32)
  }

  function FromLe64(b: seq<u8>): u64
    requires |b| == 8
  {
    FromLe32(b[..4]) + TWO32 * FromLe32(b[4..])
  }

  lemma Le64RoundTrip(v: u64)
    ensures FromLe64(Le64(v)) == v
  {
    Le32RoundTrip(v % TWO32);
    Le32RoundTrip(v / TWO32);
    assert Le64(v)[..4] == Le32(v % TWO32) && Le64(v)[4..] == Le32(v / TWO32);
  }

  lemma Le64Unique(b: seq<u8>)
    requires |b| == 8
    ensures Le64(FromLe64(b)) == b
  {
    hide FromLe32, Le32;
    Le32Unique(b[..4]);
    Le32Unique(b[4..]);
    var low, high := FromLe32(b[..4]), FromLe32(b[4..]);
    assert FromLe64(b) % TWO32 == low && FromLe64(b) / TWO32 == high;
    assert b == b[..4] + b[4..];
  }

  /** Replacing a contiguous range. */
  function Splice(bytes: seq<u8>, offset: nat, data: seq<u8>): (r: seq<u8>)
    requires offset + |data| <= |bytes|
    ensures |r| == |bytes|
  {
    bytes[..offset] + data + bytes[offset + |data|..]
  }

  /** Writing the next byte of a range extends the splice. */
  lemma SpliceGrows(bytes: seq<u8>, offset: nat, data: seq<u8>, i: nat)
    requires offset + |data| <= |bytes| && i < |data|
    ensures Splice(bytes, offset, data[..i])[offset + i := data[i]] == Splice(bytes, offset, data[..i + 1])
  {
  }
}
