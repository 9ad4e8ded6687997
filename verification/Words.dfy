/** Fixed-width unsigned integers, big-endian octets and exclusive or, as the media code uses them. */
module Words {
  type byte = b: int | 0 <= b < 0x100
  type u16 = x: int | 0 <= x < 0x1_0000
  type u32 = x: int | 0 <= x < 0x1_0000_0000
  type bytes = seq<byte>

  /** Rust's `wrapping_sub` on u16. */
  function WrappingSub16(a: u16, b: u16): u16 { (a - b) % 0x1_0000 }

  /** Rust's `wrapping_add(1)` on u32. */
  function WrappingInc32(a: u32): u32 { (a + 1) % 0x1_0000_0000 }

  /** Rust's `saturating_sub(1)` on u32. */
  function SaturatingDec32(a: u32): u32 { if a == 0 then 0 else a - 1 }

  /** Rust's `saturating_sub` on times. */
  function SaturatingSub(a: nat, b: nat): nat { if a < b then 0 else a - b }

  function U16ToBytes(x: u16): (s: bytes)
    ensures |s| == 2
  {
    [x / 0x100, x % 0x100]
  }

  function U32ToBytes(x: u32): (s: bytes)
    ensures |s| == 4
  {
    U16ToBytes(x / 0x1_0000) + U16ToBytes(x % 0x1_0000)
  }

  /** The low 48 bits of an integer, as six octets. */
  function U48ToBytes(x: nat): (s: bytes)
    ensures |s| == 6
  {
    U16ToBytes(x / 0x1_0000_0000 % 0x1_0000) + U32ToBytes(x % 0x1_0000_0000)
  }

  function U16FromBytes(s: bytes): u16
    requires |s| == 2
  {
    var high: int, low: int := s[0], s[1];
    high * 0x100 + low
  }

  function U32FromBytes(s: bytes): u32
    requires |s| == 4
  {
    U16FromBytes(s[..2]) * 0x1_0000 + U16FromBytes(s[2..])
  }

  lemma U16ToBytesInjective(x: u16, y: u16)
    requires U16ToBytes(x) == U16ToBytes(y)
    ensures x == y
  {
    assert U16ToBytes(x)[0] == U16ToBytes(y)[0] && U16ToBytes(x)[1] == U16ToBytes(y)[1];
  }

  lemma U32ToBytesInjective(x: u32, y: u32)
    requires U32ToBytes(x) == U32ToBytes(y)
    ensures x == y
  {
    U16ToBytesInjective(x / 0x1_0000, y / 0x1_0000) by { assert U32ToBytes(x)[..2] == U32ToBytes(y)[..2]; }
    U16ToBytesInjective(x % 0x1_0000, y % 0x1_0000) by { assert U32ToBytes(x)[2..] == U32ToBytes(y)[2..]; }
  }

  lemma U48ToBytesInjective(x: nat, y: nat)
    requires x < 0x1_0000_0000_0000 && y < 0x1_0000_0000_0000
    requires U48ToBytes(x) == U48ToBytes(y)
    ensures x == y
  {
    U16ToBytesInjective(x / 0x1_0000_0000, y / 0x1_0000_0000) by { assert U48ToBytes(x)[..2] == U48ToBytes(y)[..2]; }
    U32ToBytesInjective(x % 0x1_0000_0000, y % 0x1_0000_0000) by { assert U48ToBytes(x)[2..] == U48ToBytes(y)[2..]; }
  }

  function Pow2(n: nat): nat { if n == 0 then 1 else 2 * Pow2(n - 1) }

  /** Exclusive or of two n-bit numbers, bit by bit. */
  function XorBits(n: nat, a: nat, b: nat): (r: nat)
    requires a < Pow2(n) && b < Pow2(n)
    ensures r < Pow2(n)
  {
    if n == 0 then 0 else 2 * XorBits(n - 1, a / 2, b / 2) + if a % 2 == b % 2 then 0 else 1
  }

  lemma {:induction false} XorBitsCancels(n: nat, a: nat, b: nat)
    requires a < Pow2(n) && b < Pow2(n)
    ensures XorBits(n, XorBits(n, a, b), b) == a
  {
    if n > 0 {
      XorBitsCancels(n - 1, a / 2, b / 2);
      var q, r := XorBits(n - 1, a / 2, b / 2), XorBits(n, a, b);
      assert r / 2 == q && r % 2 == if a % 2 == b % 2 then 0 else 1;
    }
  }

  /** Exclusive or of two octets. */
  function Xor(a: byte, b: byte): byte {
    assert Pow2(8) == 0x100 by { assert Pow2(4) == 16; assert Pow2(8) == 16 * Pow2(4); }
    XorBits(8, a, b)
  }

  lemma XorCancels(a: byte, b: byte)
    ensures Xor(Xor(a, b), b) == a
  {
    assert Pow2(8) == 0x100 by { assert Pow2(4) == 16; assert Pow2(8) == 16 * Pow2(4); }
    XorBitsCancels(8, a, b);
  }

  lemma {:induction false} XorBitsZero(n: nat, a: nat, b: nat)
    requires a < Pow2(n) && b < Pow2(n)
    ensures XorBits(n, a, b) == 0 <==> a == b
  {
    if n > 0 {
      XorBitsZero(n - 1, a / 2, b / 2);
    }
  }

  lemma {:induction false} XorBitsIdentity(n: nat, a: nat)
    requires a < Pow2(n)
    ensures XorBits(n, a, 0) == a == XorBits(n, 0, a)
  {
    if n > 0 {
      XorBitsIdentity(n - 1, a / 2);
    }
  }

  lemma XorFacts(a: byte, b: byte)
    ensures Xor(a, b) == 0 <==> a == b
    ensures Xor(a, 0) == a == Xor(0, a)
  {
    assert Pow2(8) == 0x100 by { assert Pow2(4) == 16; assert Pow2(8) == 16 * Pow2(4); }
    XorBitsZero(8, a, b);
    XorBitsIdentity(8, a);
  }

  /** Inclusive or of two n-bit numbers, bit by bit. */
  function OrBits(n: nat, a: nat, b: nat): (r: nat)
    requires a < Pow2(n) && b < Pow2(n)
    ensures r < Pow2(n)
    ensures r == 0 <==> a == 0 && b == 0
  {
    if n == 0 then 0 else 2 * OrBits(n - 1, a / 2, b / 2) + (if a % 2 == 1 || b % 2 == 1 then 1 else 0)
  }

  /** Inclusive or of two octets. */
  function Or(a: byte, b: byte): (r: byte)
    ensures r == 0 <==> a == 0 && b == 0
  {
    assert Pow2(8) == 0x100 by { assert Pow2(4) == 16; assert Pow2(8) == 16 * Pow2(4); }
    OrBits(8, a, b)
  }

  /** Octet-wise exclusive or; the second operand is at least as long as the first. */
  function XorSeq(s: bytes, mask: bytes): (r: bytes)
    requires |s| <= |mask|
    ensures |r| == |s|
    ensures forall i :: 0 <= i < |s| ==> r[i] == Xor(s[i], mask[i])
  {
    seq(|s|, i requires 0 <= i < |s| => Xor(s[i], mask[i]))
  }

  lemma XorSeqCancels(s: bytes, mask: bytes)
    requires |s| <= |mask|
    ensures XorSeq(XorSeq(s, mask), mask) == s
  {
    forall i | 0 <= i < |s| ensures XorSeq(XorSeq(s, mask), mask)[i] == s[i] {
      XorCancels(s[i], mask[i]);
    }
  }

  lemma XorSeqInjective(s: bytes, t: bytes, mask: bytes)
    requires |s| == |t| <= |mask|
    requires XorSeq(s, mask) == XorSeq(t, mask)
    ensures s == t
  {
    XorSeqCancels(s, mask);
    XorSeqCancels(t, mask);
  }
}
