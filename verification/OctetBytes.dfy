/** Octets as integers and as bit vectors: the message code counts with them, the CMAC code shifts them. */
module OctetBytes {
  import opened Octets
  import opened Bits

  function ToBv(s: seq<Octet>): (r: seq<Byte>)
    ensures |r| == |s|
  {
    seq(|s|, i requires 0 <= i < |s| => s[i] as bv8)
  }

  function FromBv(s: seq<Byte>): (r: seq<Octet>)
    ensures |r| == |s|
  {
    seq(|s|, i requires 0 <= i < |s| => s[i] as int)
  }

  /** Octet by octet the same numbers. */
  predicate SameOctets(b: seq<Byte>, s: seq<Octet>) {
    |b| == |s| && forall i :: 0 <= i < |s| ==> b[i] as int == s[i]
  }

  lemma NextByte(b: Byte)
    requires b != 255
    ensures (b + 1) as int == b as int + 1
  {
  }

  /** Every octet is some bit vector read as a number. */
  lemma {:induction false} ByteFor(x: Octet) returns (b: Byte)
    ensures b as int == x
    decreases x
  {
    if x == 0 {
      b := 0;
    } else {
      b := ByteFor(x - 1);
      NextByte(b);
      b := b + 1;
    }
  }

  lemma OctetBack(x: Octet)
    ensures (x as bv8) as int == x
  {
    var b := ByteFor(x);
  }

  lemma ByteBack(b: Byte)
    ensures (b as int) as bv8 == b
  {
  }

  lemma ToBvSame(s: seq<Octet>)
    ensures SameOctets(ToBv(s), s)
  {
    forall i | 0 <= i < |s| ensures ToBv(s)[i] as int == s[i] {
      OctetBack(s[i]);
      assert ToBv(s)[i] == s[i] as bv8;
    }
  }

  lemma SameIsToBv(b: seq<Byte>, s: seq<Octet>)
    requires SameOctets(b, s)
    ensures b == ToBv(s)
  {
    forall i | 0 <= i < |s| ensures b[i] == ToBv(s)[i] { ByteBack(b[i]); }
  }

  lemma FromBvSame(b: seq<Byte>)
    ensures SameOctets(b, FromBv(b))
  {
  }
}
