/** Octets as bit vectors, octet strings as bit strings (most significant bit first). */
module Bits {

  type Byte = bv8

  type BitString = seq<bool>

  /** The octet whose only set bit is bit `k`, counted from the most significant one. */
  function Mask(k: nat): Byte
    requires k < 8
  {
    if k == 0 then 0x80 else if k == 1 then 0x40 else if k == 2 then 0x20 else if k == 3 then 0x10
    else if k == 4 then 0x08 else if k == 5 then 0x04 else if k == 6 then 0x02 else 0x01
  }

  predicate Bit(b: Byte, k: nat)
    requires k < 8
  {
    b & Mask(k) != 0
  }

  /** The bit string an octet string stands for. */
  function ToBits(data: seq<Byte>): (s: BitString)
    ensures |s| == 8 * |data|
    ensures forall k :: 0 <= k < |s| ==> s[k] == Bit(data[k / 8], k % 8)
  {
    seq(8 * |data|, k requires 0 <= k < 8 * |data| => Bit(data[k / 8], k % 8))
  }

  function PackByte(s: BitString): (b: Byte)
    requires |s| == 8
    ensures forall k :: 0 <= k < 8 ==> Bit(b, k) == s[k]
  {
    var b := (if s[0] then 0x80 else 0) | (if s[1] then 0x40 else 0) | (if s[2] then 0x20 else 0)
             | (if s[3] then 0x10 else 0) | (if s[4] then 0x08 else 0) | (if s[5] then 0x04 else 0)
             | (if s[6] then 0x02 else 0) | (if s[7] then 0x01 else 0);
    b
  }

  /** The octet string that stands for a bit string of whole octets. */
  function Pack(s: BitString): (data: seq<Byte>)
    requires |s| % 8 == 0
    ensures |data| == |s| / 8
  {
    seq(|s| / 8, i requires 0 <= i < |s| / 8 => PackByte(s[8 * i .. 8 * i + 8]))
  }

  /** Packing loses nothing. */
  lemma ToBitsPack(s: BitString)
    requires |s| % 8 == 0
    ensures ToBits(Pack(s)) == s
  {
    var t := ToBits(Pack(s));
    forall k | 0 <= k < |s| ensures t[k] == s[k] {
      var i := k / 8;
      assert t[k] == Bit(PackByte(s[8 * i .. 8 * i + 8]), k % 8) == s[8 * i .. 8 * i + 8][k % 8];
    }
  }

  lemma SameBitsSameByte(a: Byte, b: Byte)
    requires forall k :: 0 <= k < 8 ==> Bit(a, k) == Bit(b, k)
    ensures a == b
  {
    assert Bit(a, 0) == Bit(b, 0) && Bit(a, 1) == Bit(b, 1) && Bit(a, 2) == Bit(b, 2) && Bit(a, 3) == Bit(b, 3);
    assert Bit(a, 4) == Bit(b, 4) && Bit(a, 5) == Bit(b, 5) && Bit(a, 6) == Bit(b, 6) && Bit(a, 7) == Bit(b, 7);
  }

  /** An octet string is determined by its bits. */
  lemma SameBitsSameBytes(a: seq<Byte>, b: seq<Byte>)
    requires ToBits(a) == ToBits(b)
    ensures a == b
  {
    assert 8 * |a| == |ToBits(a)| == |ToBits(b)| == 8 * |b|;
    forall i | 0 <= i < |a| ensures a[i] == b[i] {
      forall k | 0 <= k < 8 ensures Bit(a[i], k) == Bit(b[i], k) {
        assert ToBits(a)[8 * i + k] == ToBits(b)[8 * i + k];
      }
      SameBitsSameByte(a[i], b[i]);
    }
  }

  lemma PackToBits(data: seq<Byte>)
    ensures Pack(ToBits(data)) == data
  {
    ToBitsPack(ToBits(data));
    SameBitsSameBytes(Pack(ToBits(data)), data);
  }

  lemma ToBitsConcat(a: seq<Byte>, b: seq<Byte>)
    ensures ToBits(a + b) == ToBits(a) + ToBits(b)
  {
  }

  lemma ToBitsSlice(data: seq<Byte>, i: nat, j: nat)
    requires i <= j <= |data|
    ensures ToBits(data[i..j]) == ToBits(data)[8 * i .. 8 * j]
  {
  }

  /** The first `n` bits are those of the first `n` bits rounded up to whole octets. */
  lemma ToBitsPrefix(data: seq<Byte>, n: nat)
    requires n <= 8 * |data|
    ensures OctetCount(n) <= |data| && n <= 8 * OctetCount(n)
    ensures ToBits(data[..OctetCount(n)])[..n] == ToBits(data)[..n]
  {
    ToBitsSlice(data, 0, OctetCount(n));
  }

  /** Whole octets needed for `n` bits: the source's `n/8 + (n%8?1:0)`. */
  function OctetCount(n: nat): nat {
    n / 8 + (if n % 8 != 0 then 1 else 0)
  }

  function Zeros(n: nat): (s: BitString)
    ensures |s| == n && forall k :: 0 <= k < n ==> !s[k]
  {
    seq(n, _ => false)
  }

  function XorBits(a: BitString, b: BitString): (s: BitString)
    requires |a| == |b|
    ensures |s| == |a| && forall k :: 0 <= k < |s| ==> s[k] == (a[k] != b[k])
  {
    seq(|a|, k requires 0 <= k < |a| => a[k] != b[k])
  }

  lemma BitOfXor(a: Byte, b: Byte, k: nat)
    requires k < 8
    ensures Bit(a ^ b, k) == (Bit(a, k) != Bit(b, k))
  {
    var m := Mask(k);
    MaskSelectsOneBit(a, k);
    MaskSelectsOneBit(b, k);
    XorUnderMask(a, b, m);
  }

  lemma XorUnderMask(a: Byte, b: Byte, m: Byte)
    ensures (a ^ b) & m == (a & m) ^ (b & m)
    ensures m ^ m == 0 && 0 ^ m == m && m ^ 0 == m
  {
  }

  lemma MaskSelectsOneBit(a: Byte, k: nat)
    requires k < 8
    ensures a & Mask(k) == 0 || a & Mask(k) == Mask(k)
    ensures Mask(k) != 0
  {
  }

  /** The number a bit string denotes, most significant bit first. */
  function Value(s: BitString): nat {
    if s == [] then 0 else 2 * Value(s[..|s| - 1]) + (if s[|s| - 1] then 1 else 0)
  }
}
