/** Octet strings as numbers in network order, and the bits of those numbers. */
module OctetNumbers {
  import opened Bits
  import opened Cmac

  /** Most significant octet first. */
  function Number(data: seq<Byte>): nat {
    if data == [] then 0 else 256 * Number(data[..|data| - 1]) + data[|data| - 1] as int
  }

  lemma ByteSum(b: Byte)
    ensures b as int == 128 * One(Bit(b, 0)) + 64 * One(Bit(b, 1)) + 32 * One(Bit(b, 2)) + 16 * One(Bit(b, 3))
                        + 8 * One(Bit(b, 4)) + 4 * One(Bit(b, 5)) + 2 * One(Bit(b, 6)) + One(Bit(b, 7))
  {
  }

  lemma BitsOfByte(b: Byte, k: nat)
    requires k < 8
    ensures ToBits([b])[k] == Bit(b, k)
  {
  }

  /** The bits are those of the octet from bit `from` on. */
  ghost predicate Spells(c: BitString, b: Byte, from: nat) {
    |c| + from == 8 && forall k :: 0 <= k < |c| ==> c[k] == Bit(b, k + from)
  }

  lemma ByteSpelt(b: Byte, from: nat)
    requires from <= 8
    ensures Spells(ToBits([b])[from..], b, from)
  {
    var c := ToBits([b]);
    forall k | 0 <= k < 8 - from ensures c[from..][k] == Bit(b, k + from) { BitsOfByte(b, k + from); }
  }

  lemma ValueOfSpelt(c: BitString, b: Byte)
    requires Spells(c, b, 0)
    ensures Value(c) == b as int
  {
    ValueOctet(c);
    ByteSum(b);
  }

  /** An octet as eight bits is the number it is as an integer. */
  lemma ValueOfByte(b: Byte)
    ensures Value(ToBits([b])) == b as int
  {
    ByteSpelt(b, 0);
    assert ToBits([b])[0..] == ToBits([b]);
    ValueOfSpelt(ToBits([b]), b);
  }

  lemma Regroup(v: nat, p: nat, u: nat, d: nat)
    ensures 2 * (v * p + u) + d == v * (2 * p) + (2 * u + d)
  {
  }

  lemma {:induction false} ValueAppend(s: BitString, t: BitString)
    ensures Value(s + t) == Value(s) * Pow2(|t|) + Value(t)
  {
    if t == [] {
      assert s + t == s;
    } else {
      var n := |t| - 1;
      ValueAppend(s, t[..n]);
      assert (s + t)[..|s + t| - 1] == s + t[..n];
      Regroup(Value(s), Pow2(n), Value(t[..n]), if t[n] then 1 else 0);
    }
  }

  lemma Pow2Eight()
    ensures Pow2(8) == 256
  {
    assert Pow2(2) == 4 && Pow2(4) == 16 && Pow2(6) == 64;
  }

  /** Eight more bits. */
  lemma ValueMore(s: BitString, t: BitString)
    requires |t| == 8
    ensures Value(s + t) == 256 * Value(s) + Value(t)
  {
    Pow2Eight();
    ValueAppendBy(s, t, 256);
  }

  lemma ValueAppendBy(s: BitString, t: BitString, p: nat)
    requires p == Pow2(|t|)
    ensures Value(s + t) == p * Value(s) + Value(t)
  {
    ValueAppend(s, t);
  }

  lemma {:induction false} ValueOfOctets(data: seq<Byte>)
    ensures Value(ToBits(data)) == Number(data)
  {
    if data != [] {
      var n := |data| - 1;
      ValueOfOctets(data[..n]);
      ValueOfByte(data[n]);
      ToBitsConcat(data[..n], [data[n]]);
      assert data == data[..n] + [data[n]];
      ValueMore(ToBits(data[..n]), ToBits([data[n]]));
    }
  }

  /** Four octets, written out. */
  lemma NumberOfFour(a: Byte, b: Byte, c: Byte, d: Byte)
    ensures Number([a, b, c, d]) == 0x100_0000 * a as int + 0x1_0000 * b as int + 0x100 * c as int + d as int
  {
    assert [a, b, c, d][..3] == [a, b, c] && [a, b, c][..2] == [a, b] && [a, b][..1] == [a] && [a][..0] == [];
    assert Number([a]) == a as int;
    assert Number([a, b]) == 256 * a as int + b as int;
    assert Number([a, b, c]) == 0x1_0000 * a as int + 256 * b as int + c as int;
  }

  lemma ValueFive(c: BitString)
    requires |c| == 5
    ensures Value(c) == 16 * One(c[0]) + 8 * One(c[1]) + 4 * One(c[2]) + 2 * One(c[3]) + One(c[4])
  {
    var vs := Horner(c);
    assert vs[0 + 1] == 2 * vs[0] + One(c[0]);
    HornerFour(c, vs, 1);
  }

  lemma LowFive(x: nat, high: nat, low: nat)
    requires x == 32 * high + low && low < 32
    ensures x % 32 == low
  {
  }

  lemma LowSum(b: Byte) returns (low: nat)
    ensures low == b as int % 32
    ensures low == 16 * One(Bit(b, 3)) + 8 * One(Bit(b, 4)) + 4 * One(Bit(b, 5)) + 2 * One(Bit(b, 6)) + One(Bit(b, 7))
  {
    ByteSum(b);
    var high := 4 * One(Bit(b, 0)) + 2 * One(Bit(b, 1)) + One(Bit(b, 2));
    low := 16 * One(Bit(b, 3)) + 8 * One(Bit(b, 4)) + 4 * One(Bit(b, 5)) + 2 * One(Bit(b, 6)) + One(Bit(b, 7));
    LowFive(b as int, high, low);
  }

  lemma ValueOfLowSpelt(c: BitString, b: Byte)
    requires Spells(c, b, 3)
    ensures Value(c) == b as int % 32
  {
    ValueFive(c);
    var low := LowSum(b);
    assert c[0] == Bit(b, 3) && c[1] == Bit(b, 4) && c[2] == Bit(b, 5) && c[3] == Bit(b, 6) && c[4] == Bit(b, 7);
  }

  /** The low five bits of an octet. */
  lemma ValueOfLowBits(b: Byte)
    ensures Value(ToBits([b])[3..]) == b as int % 32
  {
    ByteSpelt(b, 3);
    ValueOfLowSpelt(ToBits([b])[3..], b);
  }
}
