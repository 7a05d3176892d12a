/**
 Any list of Updates on one context (NAS/src/eia2.c:136-174): right for every cipher and all data exactly when
 every Update that brings data starts on a block boundary.
 */
module CmacUpdates {
  import opened Common
  import opened Bits
  import opened Cmac
  import opened CmacStream
  import opened CmacAlignment
  import opened CmacIdentity

  function Sum(ns: seq<nat>): nat {
    if ns == [] then 0 else Sum(ns[..|ns| - 1]) + ns[|ns| - 1]
  }

  /** The copy of every Update stays inside the buffer. */
  predicate CopiesFit(ns: seq<nat>) {
    ns != [] ==> CopiesFit(ns[..|ns| - 1]) && CopyFits(Residue(Sum(ns[..|ns| - 1])), ns[|ns| - 1])
  }

  /** Octets for every Update. */
  predicate DataFits(ns: seq<nat>, ds: seq<seq<Byte>>) {
    |ns| == |ds| && forall j :: 0 <= j < |ns| ==> ns[j] <= 8 * |ds[j]|
  }

  lemma ResidueOfSum(s: nat, x: nat)
    requires s > 0 && x > 0
    ensures Residue(s + x) == Residue(Residue(s) + x)
  {
    var t := (s - 1) / 128;
    assert s == 128 * t + Residue(s);
    var u := (Residue(s) + x - 1) / 128;
    ResidueUnique(s + x, t + u, Residue(Residue(s) + x));
  }

  /** The bits buffered after an Update follow from the bits so far. */
  lemma UpdateResidue(e: BlockCipher, st: Stream, data: seq<Byte>, dlen: nat, s: nat)
    requires st.n == Residue(s) && dlen <= 8 * |data| && CopyFits(st.n, dlen)
    ensures Update(e, st, data, dlen).n == Residue(s + dlen)
  {
    if dlen > 0 {
      if s == 0 {
        AbsorbResidue(e, st.iv, st.last, data, dlen);
      } else {
        ResidueOfSum(s, dlen);
        PartialResidue(e, st, data, dlen);
      }
    }
  }

  lemma PartialResidue(e: BlockCipher, st: Stream, data: seq<Byte>, dlen: nat)
    requires 0 < st.n <= 128 && 0 < dlen <= 8 * |data| && CopyFits(st.n, dlen)
    ensures Update(e, st, data, dlen).n == Residue(st.n + dlen)
  {
    if dlen <= 128 - st.n {
      UpdateFits(e, st, data, dlen);
      ResidueUnique(st.n + dlen, 0, st.n + dlen);
    } else {
      OverflowResidue(e, st, data, dlen);
      OneBlockLess(st.n + dlen);
    }
  }

  lemma OverflowResidue(e: BlockCipher, st: Stream, data: seq<Byte>, dlen: nat)
    requires 0 < st.n <= 128 && 128 - st.n < dlen <= 8 * |data| && CopyFits(st.n, dlen)
    ensures Update(e, st, data, dlen).n == Residue(dlen - (128 - st.n))
  {
    var mid, rest, left := UpdateCompletes(e, st, data, dlen);
    AbsorbResidue(e, mid.iv, mid.last, rest, left);
  }

  lemma OneBlockLess(a: nat)
    requires a > 128
    ensures Residue(a) == Residue(a - 128)
  {
    LessOneBlock(a - 1);
  }

  /** Init and the Updates, on a buffer that holds anything. */
  function Updated(e: BlockCipher, junk: Buffer, ns: seq<nat>, ds: seq<seq<Byte>>): (st: Stream)
    requires CopiesFit(ns) && DataFits(ns, ds)
    ensures st.n == Residue(Sum(ns))
  {
    if ns == [] then Stream(ZERO_BLOCK, junk, 0)
    else
      var k := |ns| - 1;
      var st := Updated(e, junk, ns[..k], ds[..k]);
      UpdateResidue(e, st, ds[k], ns[k], Sum(ns[..k]));
      Update(e, st, ds[k], ns[k])
  }

  /** The bits the Updates bring. */
  function Message(ns: seq<nat>, ds: seq<seq<Byte>>): (m: BitString)
    requires DataFits(ns, ds)
    ensures |m| == Sum(ns)
  {
    if ns == [] then []
    else
      var k := |ns| - 1;
      Message(ns[..k], ds[..k]) + ToBits(ds[k])[..ns[k]]
  }

  function Result(e: BlockCipher, junk: Buffer, ns: seq<nat>, ds: seq<seq<Byte>>): Block
    requires CopiesFit(ns) && DataFits(ns, ds)
  {
    Final(e, Updated(e, junk, ns, ds))
  }

  ghost predicate Right(e: BlockCipher, junk: Buffer, ns: seq<nat>, ds: seq<seq<Byte>>)
    requires CopiesFit(ns) && DataFits(ns, ds)
  {
    Result(e, junk, ns, ds) == Mac(e, Message(ns, ds))
  }

  ghost predicate AllRight(ns: seq<nat>)
    requires CopiesFit(ns)
  {
    forall e: BlockCipher, junk: Buffer, ds: seq<seq<Byte>> | DataFits(ns, ds) :: Right(e, junk, ns, ds)
  }

  /** Every Update that brings data starts after a whole number of blocks. */
  predicate Aligned(ns: seq<nat>) {
    ns != [] ==> Aligned(ns[..|ns| - 1]) && (ns[|ns| - 1] > 0 ==> Sum(ns[..|ns| - 1]) % 128 == 0)
  }

  // ---- aligned lists are right ----

  lemma {:induction false} AlignedHolds(e: BlockCipher, junk: Buffer, ns: seq<nat>, ds: seq<seq<Byte>>)
    requires CopiesFit(ns) && DataFits(ns, ds) && Aligned(ns)
    ensures Holds(e, Updated(e, junk, ns, ds), Message(ns, ds))
  {
    if ns == [] {
      EmptyHolds(e, junk);
    } else {
      var k := |ns| - 1;
      AlignedHolds(e, junk, ns[..k], ds[..k]);
      HoldsMore(e, Updated(e, junk, ns[..k], ds[..k]), Message(ns[..k], ds[..k]), ds[k], ns[k]);
    }
  }

  lemma AlignedAllRight(ns: seq<nat>)
    requires CopiesFit(ns) && Aligned(ns)
    ensures AllRight(ns)
  {
    forall e: BlockCipher, junk: Buffer, ds: seq<seq<Byte>> | DataFits(ns, ds) ensures Right(e, junk, ns, ds) {
      AlignedHolds(e, junk, ns, ds);
      FinalIsMac(e, Updated(e, junk, ns, ds), Message(ns, ds));
    }
  }

  // ---- any other list is wrong: the identity cipher and one set bit, first of the misaligned Update ----

  ghost predicate AllZero(d: seq<Byte>) {
    forall k :: 0 <= k < |d| ==> d[k] == 0
  }

  /** Octet `j` of buffer and chaining value is zero. */
  ghost predicate ZeroAt(st: Stream, j: nat) {
    j < 32 && st.last[j] == 0 && (j < 16 ==> st.iv[j] == 0)
  }

  lemma ZeroOverwrite(last: Buffer, at: nat, src: seq<Byte>, j: nat)
    requires (src == [] || at + |src| <= 32) && AllZero(src) && j < 32 && last[j] == 0
    ensures Overwrite(last, at, src)[j] == 0
  {
    var r := Overwrite(last, at, src);
    if src != [] && at <= j < at + |src| {
      assert r[at..at + |src|][j - at] == src[j - at];
    }
  }

  lemma ZeroPrefix(d: seq<Byte>, a: nat)
    requires AllZero(d) && a <= |d|
    ensures AllZero(d[..a]) && AllZero(d[a..])
  {
  }

  /** The chaining value is zero where the chained block and the value before it are. */
  lemma ZeroChained(iv: Block, last: Buffer, j: nat)
    requires j < 16 && iv[j] == 0 && last[j] == 0
    ensures Xor(iv, last[..16])[j] == 0
  {
    assert last[..16][j] == last[j];
  }

  lemma ZeroCompleted(e: BlockCipher, st: Stream, src: seq<Byte>, j: nat)
    requires IsIdentity(e) && AllZero(src) && ZeroAt(st, j) && (src == [] || st.n + |src| <= 32)
    ensures ZeroAt(Completed(e, st, src), j)
  {
    var last := Overwrite(st.last, st.n, src);
    ZeroOverwrite(st.last, st.n, src, j);
    if j < 16 { ZeroChained(st.iv, last, j); }
  }

  lemma ZeroAbsorbed(e: BlockCipher, st: Stream, rest: seq<Byte>, n: nat, j: nat, end: Stream)
    requires IsIdentity(e) && n <= 8 * |rest| && AllZero(rest) && ZeroAt(st, j)
    requires end == Absorb(e, st.iv, st.last, rest, n)
    ensures ZeroAt(end, j)
  {
    AbsorbZeros(e, st.iv, st.last, n, rest);
  }

  /** Zero data keeps an octet zero, wherever the copy lands. */
  lemma ZeroKept(e: BlockCipher, st: Stream, data: seq<Byte>, dlen: nat, j: nat)
    requires IsIdentity(e) && st.n <= 128 && dlen <= 8 * |data| && CopyFits(st.n, dlen)
    requires AllZero(data) && ZeroAt(st, j)
    ensures ZeroAt(Update(e, st, data, dlen), j)
  {
    if dlen > 0 {
      if st.n == 0 {
        AbsorbZeros(e, st.iv, st.last, dlen, data);
      } else if dlen <= 128 - st.n {
        UpdateFits(e, st, data, dlen);
        ZeroPrefix(data, OctetCount(dlen));
        ZeroOverwrite(st.last, st.n, data[..OctetCount(dlen)], j);
      } else {
        ZeroKeptOver(e, st, data, dlen, j);
      }
    }
  }

  lemma ZeroKeptOver(e: BlockCipher, st: Stream, data: seq<Byte>, dlen: nat, j: nat)
    requires IsIdentity(e) && 0 < st.n <= 128 && 128 - st.n < dlen <= 8 * |data| && CopyFits(st.n, dlen)
    requires AllZero(data) && ZeroAt(st, j)
    ensures ZeroAt(Update(e, st, data, dlen), j)
  {
    var mid, rest, left := UpdateCompletes(e, st, data, dlen);
    assert AllZero(rest) by { ZeroPrefix(data, (128 - st.n) / 8); }
    assert ZeroAt(mid, j) by {
      ZeroPrefix(data, OctetCount(128 - st.n));
      ZeroCompleted(e, st, data[..OctetCount(128 - st.n)], j);
    }
    ZeroAbsorbed(e, mid, rest, left, j, Update(e, st, data, dlen));
  }

  /** Zero data from some Update on. */
  ghost predicate ZeroFrom(ds: seq<seq<Byte>>, a: nat) {
    forall k :: a <= k < |ds| ==> AllZero(ds[k])
  }

  /** The Updates leave octet `j` zero. Quantified over the state, so that the run stays folded in proofs. */
  ghost predicate EndsZero(e: BlockCipher, junk: Buffer, ns: seq<nat>, ds: seq<seq<Byte>>, j: nat) {
    && CopiesFit(ns) && DataFits(ns, ds)
    && forall st :: st == Updated(e, junk, ns, ds) ==> ZeroAt(st, j)
  }

  lemma EndsZeroMore(e: BlockCipher, junk: Buffer, ns: seq<nat>, ds: seq<seq<Byte>>, j: nat)
    requires IsIdentity(e) && ns != [] && CopiesFit(ns) && DataFits(ns, ds) && AllZero(ds[|ns| - 1])
    requires EndsZero(e, junk, ns[..|ns| - 1], ds[..|ns| - 1], j)
    ensures EndsZero(e, junk, ns, ds, j)
  {
    var k := |ns| - 1;
    var st := Updated(e, junk, ns[..k], ds[..k]);
    assert ZeroAt(st, j);
    ZeroKept(e, st, ds[k], ns[k], j);
  }

  lemma {:induction false} ZeroRun(e: BlockCipher, junk: Buffer, ns: seq<nat>, ds: seq<seq<Byte>>, a: nat, j: nat)
    requires IsIdentity(e) && CopiesFit(ns) && DataFits(ns, ds) && a <= |ns| && ZeroFrom(ds, a)
    requires EndsZero(e, junk, ns[..a], ds[..a], j)
    ensures EndsZero(e, junk, ns, ds, j)
    decreases |ns|
  {
    if a == |ns| {
      assert ns[..a] == ns && ds[..a] == ds;
    } else {
      var k := |ns| - 1;
      assert ns[..k][..a] == ns[..a] && ds[..k][..a] == ds[..a];
      ZeroRun(e, junk, ns[..k], ds[..k], a, j);
      EndsZeroMore(e, junk, ns, ds, j);
    }
  }

  lemma {:induction false} PrefixFits(ns: seq<nat>, a: nat)
    requires CopiesFit(ns) && a <= |ns|
    ensures CopiesFit(ns[..a]) && (a < |ns| ==> CopyFits(Residue(Sum(ns[..a])), ns[a]))
    decreases |ns|
  {
    if a == |ns| {
      assert ns[..a] == ns;
    } else {
      var k := |ns| - 1;
      if a < k { PrefixFits(ns[..k], a); }
      assert ns[..k][..a] == ns[..a];
    }
  }

  /** The misaligned Update brings one set bit, all others zeros. */
  function Data(ns: seq<nat>, a: nat): (ds: seq<seq<Byte>>)
    ensures DataFits(ns, ds)
    ensures forall k :: 0 <= k < |ns| ==> ds[k] == if k == a then Second(ns[k]) else ZeroOctets(ns[k])
  {
    seq(|ns|, k requires 0 <= k < |ns| => if k == a then Second(ns[k]) else ZeroOctets(ns[k]))
  }

  lemma ZeroStart(e: BlockCipher, j: nat)
    requires j < 32
    ensures EndsZero(e, ZeroOctets(32), [], [], j)
  {
    if j < 16 { ZeroBlockAt(j); }
  }

  lemma ZeroThroughout(e: BlockCipher, ns: seq<nat>, ds: seq<seq<Byte>>, j: nat)
    requires IsIdentity(e) && CopiesFit(ns) && DataFits(ns, ds) && ZeroFrom(ds, 0) && j < 32
    ensures EndsZero(e, ZeroOctets(32), ns, ds, j)
  {
    assert ns[..0] == [] && ds[..0] == [];
    ZeroStart(e, j);
    ZeroRun(e, ZeroOctets(32), ns, ds, 0, j);
  }

  lemma ZeroBefore(e: BlockCipher, ns: seq<nat>, a: nat, ds: seq<seq<Byte>>, j: nat)
    requires IsIdentity(e) && CopiesFit(ns) && a <= |ns| && ds == Data(ns, a) && j < 32
    ensures EndsZero(e, ZeroOctets(32), ns[..a], ds[..a], j)
  {
    PrefixFits(ns, a);
    assert ZeroFrom(ds[..a], 0);
    ZeroThroughout(e, ns[..a], ds[..a], j);
  }

  lemma AllZeroBlock(b: Block)
    requires forall j :: 0 <= j < 16 ==> b[j] == 0
    ensures b == ZERO_BLOCK
  {
    forall j | 0 <= j < 16 ensures b[j] == ZERO_BLOCK[j] { ZeroBlockAt(j); }
  }

  lemma ZeroStateBefore(e: BlockCipher, ns: seq<nat>, a: nat, ds: seq<seq<Byte>>)
    requires IsIdentity(e) && CopiesFit(ns) && a <= |ns| && ds == Data(ns, a) && 0 < Residue(Sum(ns[..a])) < 128
    ensures CopiesFit(ns[..a]) && ZeroState(Updated(e, ZeroOctets(32), ns[..a], ds[..a]))
  {
    PrefixFits(ns, a);
    var st := Updated(e, ZeroOctets(32), ns[..a], ds[..a]);
    forall k | 0 <= k < 32 ensures st.last[k] == 0 && (k < 16 ==> st.iv[k] == 0) {
      ZeroBefore(e, ns, a, ds, k);
      assert ZeroAt(st, k);
    }
    AllZeroBlock(st.iv);
  }

  lemma UpdatedMore(e: BlockCipher, junk: Buffer, ns: seq<nat>, ds: seq<seq<Byte>>, a: nat)
    requires CopiesFit(ns) && DataFits(ns, ds) && a < |ns|
    ensures CopiesFit(ns[..a]) && CopiesFit(ns[..a + 1]) && CopyFits(Residue(Sum(ns[..a])), ns[a])
    ensures Updated(e, junk, ns[..a + 1], ds[..a + 1]) == Update(e, Updated(e, junk, ns[..a], ds[..a]), ds[a], ns[a])
  {
    PrefixFits(ns, a);
    PrefixFits(ns, a + 1);
    assert ns[..a + 1][..a] == ns[..a] && ds[..a + 1][..a] == ds[..a];
  }

  lemma SecondTail(n: nat)
    ensures forall k :: 0 < k < |Second(n)| ==> Second(n)[k] == 0
  {
  }

  lemma MisplacedZero(e: BlockCipher, st: Stream, n: nat, j: nat, i: nat)
    requires IsIdentity(e) && ZeroState(st) && n > 0 && CopyFits(st.n, n) && st.n == 8 * j + i && i < 8
    ensures ZeroAt(Update(e, st, Second(n), n), j)
  {
    SecondTail(n);
    MisplacedOctet(e, st, n, Second(n), j, i);
  }

  /** After the misaligned Update the octet where its bit belongs is still zero. */
  lemma ZeroAfter(e: BlockCipher, ns: seq<nat>, a: nat, ds: seq<seq<Byte>>, j: nat, i: nat)
    requires IsIdentity(e) && CopiesFit(ns) && a < |ns| && ns[a] > 0 && ds == Data(ns, a)
    requires i < 8 && j < 16 && Residue(Sum(ns[..a])) == 8 * j + i && 0 < 8 * j + i < 128
    ensures EndsZero(e, ZeroOctets(32), ns[..a + 1], ds[..a + 1], j)
  {
    var st := BeforeMisplaced(e, ns, a, ds);
    MisplacedEnds(e, st, ns, a, ds, j, i);
  }

  /** The state in which the misaligned Update finds the context. */
  lemma BeforeMisplaced(e: BlockCipher, ns: seq<nat>, a: nat, ds: seq<seq<Byte>>) returns (st: Stream)
    requires IsIdentity(e) && CopiesFit(ns) && a < |ns| && ds == Data(ns, a) && 0 < Residue(Sum(ns[..a])) < 128
    ensures ZeroState(st) && st.n == Residue(Sum(ns[..a])) && CopyFits(st.n, ns[a]) && CopiesFit(ns[..a + 1])
    ensures Updated(e, ZeroOctets(32), ns[..a + 1], ds[..a + 1]) == Update(e, st, ds[a], ns[a])
  {
    ZeroStateBefore(e, ns, a, ds);
    st := Updated(e, ZeroOctets(32), ns[..a], ds[..a]);
    UpdatedMore(e, ZeroOctets(32), ns, ds, a);
  }

  lemma MisplacedEnds(e: BlockCipher, st: Stream, ns: seq<nat>, a: nat, ds: seq<seq<Byte>>, j: nat, i: nat)
    requires IsIdentity(e) && a < |ns| && ns[a] > 0 && ds == Data(ns, a)
    requires ZeroState(st) && CopyFits(st.n, ns[a]) && st.n == 8 * j + i && i < 8
    requires CopiesFit(ns[..a + 1])
    requires Updated(e, ZeroOctets(32), ns[..a + 1], ds[..a + 1]) == Update(e, st, ds[a], ns[a])
    ensures EndsZero(e, ZeroOctets(32), ns[..a + 1], ds[..a + 1], j)
  {
    MisplacedZero(e, st, ns[a], j, i);
  }

  lemma ZeroNotShown(st: Stream, j: nat)
    requires st.n <= 128 && j < 16 && ZeroAt(st, j)
    ensures NotShown(st, j)
  {
    FinalAt(st, j);
    XorCancels(FinalOctet(0, st.n, j), 1);
  }

  lemma UpdatedNotShown(e: BlockCipher, ns: seq<nat>, a: nat, ds: seq<seq<Byte>>, j: nat, i: nat)
    requires IsIdentity(e) && CopiesFit(ns) && a < |ns| && ns[a] > 0 && ds == Data(ns, a)
    requires i < 8 && j < 16 && Residue(Sum(ns[..a])) == 8 * j + i && 0 < 8 * j + i < 128
    ensures NotShown(Updated(e, ZeroOctets(32), ns, ds), j)
  {
    ZeroAfter(e, ns, a, ds, j, i);
    assert ZeroFrom(ds, a + 1);
    ZeroRun(e, ZeroOctets(32), ns, ds, a + 1, j);
    var st := Updated(e, ZeroOctets(32), ns, ds);
    assert ZeroAt(st, j);
    ZeroNotShown(st, j);
  }

  /** A chunk of the data has a set bit only if it is the misaligned one, and then its first. */
  lemma DataBit(ns: seq<nat>, a: nat, ds: seq<seq<Byte>>, z: nat, k: nat)
    requires ds == Data(ns, a) && z < |ns| && k < ns[z]
    ensures ToBits(ds[z])[k] == (z == a && k == 0)
  {
    if a == z {
      OneHotBits(ds[z], 0, 0, k);
    } else {
      OneHotBits(ds[z], |ds[z]|, 0, k);
    }
  }

  /** Bit `k` of the message is in front of the last chunk or in it. */
  lemma MessageSplit(ns: seq<nat>, ds: seq<seq<Byte>>, k: nat)
    requires DataFits(ns, ds) && k < Sum(ns)
    ensures var z := |ns| - 1;
            var front := Sum(ns[..z]);
            Message(ns, ds)[k] == if k < front then Message(ns[..z], ds[..z])[k] else ToBits(ds[z])[k - front]
  {
  }

  lemma DataFront(ns: seq<nat>, a: nat)
    requires ns != []
    ensures Data(ns, a)[..|ns| - 1] == Data(ns[..|ns| - 1], a)
  {
  }

  lemma SumFront(ns: seq<nat>, a: nat)
    requires a < |ns|
    ensures Sum(ns[..a]) <= Sum(ns[..|ns| - 1])
    ensures a < |ns| - 1 ==> Sum(ns[..a]) + ns[a] <= Sum(ns[..|ns| - 1]) && ns[..|ns| - 1][..a] == ns[..a]
  {
    var z := |ns| - 1;
    if a < z {
      assert ns[..z][..a] == ns[..a];
      SumGrows(ns[..z], a);
    }
  }

  /** The message has exactly one set bit. */
  lemma {:induction false} MessageBit(ns: seq<nat>, a: nat, ds: seq<seq<Byte>>, k: nat)
    requires ds == Data(ns, a) && k < Sum(ns)
    ensures Message(ns, ds)[k] == (a < |ns| && ns[a] > 0 && k == Sum(ns[..a]))
  {
    var z := |ns| - 1;
    var front := Sum(ns[..z]);
    MessageSplit(ns, ds, k);
    if a <= z { SumFront(ns, a); }
    if k < front {
      DataFront(ns, a);
      MessageBit(ns[..z], a, ds[..z], k);
    } else {
      DataBit(ns, a, ds, z, k - front);
    }
  }

  lemma {:induction false} SumGrows(ns: seq<nat>, a: nat)
    requires a < |ns|
    ensures Sum(ns[..a]) + ns[a] <= Sum(ns)
  {
    var z := |ns| - 1;
    if a < z {
      SumGrows(ns[..z], a);
      assert ns[..z][..a] == ns[..a];
    }
  }

  lemma MessageIsWhole(ns: seq<nat>, a: nat, ds: seq<seq<Byte>>, p: nat, i: nat)
    requires a < |ns| && ns[a] > 0 && ds == Data(ns, a) && i < 8 && Sum(ns[..a]) == 8 * p + i
    ensures Sum(ns) <= 8 * |Whole(p, i, Sum(ns))|
    ensures Message(ns, ds) == ToBits(Whole(p, i, Sum(ns)))[..Sum(ns)]
  {
    var w := Whole(p, i, Sum(ns));
    forall k | 0 <= k < Sum(ns) ensures Message(ns, ds)[k] == ToBits(w)[k] {
      MessageBit(ns, a, ds, k);
      OneHotBits(w, p, i, k);
    }
  }

  lemma UpdatedDiffers(e: BlockCipher, ns: seq<nat>, a: nat, ds: seq<seq<Byte>>, q: nat, j: nat, i: nat)
    requires IsIdentity(e) && CopiesFit(ns) && a < |ns| && ns[a] > 0 && ds == Data(ns, a)
    requires Sum(ns[..a]) == 128 * q + 8 * j + i && j < 16 && i < 8
    requires Residue(Sum(ns[..a])) == 8 * j + i && 0 < 8 * j + i < 128
    ensures IdentityFinal(Absorbed(e, Sum(ns), Whole(16 * q + j, i, Sum(ns))))
         != IdentityFinal(Updated(e, ZeroOctets(32), ns, ds))
  {
    SumGrows(ns, a);
    var w := Whole(16 * q + j, i, Sum(ns));
    var x, y := Absorbed(e, Sum(ns), w), Updated(e, ZeroOctets(32), ns, ds);
    assert x.n == y.n by { AbsorbResidue(e, ZERO_BLOCK, ZeroOctets(32), w, Sum(ns)); }
    assert Shown(x, j) by { AbsorbedShown(e, Sum(ns), w, q, j, i); }
    assert NotShown(y, j) by { UpdatedNotShown(e, ns, a, ds, j, i); }
    DifferAt(x, y, j);
  }

  lemma MessageMac(e: BlockCipher, ns: seq<nat>, a: nat, ds: seq<seq<Byte>>, p: nat, i: nat)
    requires IsIdentity(e) && a < |ns| && ns[a] > 0 && ds == Data(ns, a) && i < 8 && Sum(ns[..a]) == 8 * p + i
    ensures Sum(ns) <= 8 * |Whole(p, i, Sum(ns))|
    ensures Mac(e, Message(ns, ds)) == IdentityFinal(Absorbed(e, Sum(ns), Whole(p, i, Sum(ns))))
  {
    SumGrows(ns, a);
    MessageIsWhole(ns, a, ds, p, i);
    OneShotAsAbsorb(e, Whole(p, i, Sum(ns)), Sum(ns));
  }

  lemma IdentityResult(e: BlockCipher, junk: Buffer, ns: seq<nat>, ds: seq<seq<Byte>>)
    requires IsIdentity(e) && CopiesFit(ns) && DataFits(ns, ds)
    ensures Result(e, junk, ns, ds) == IdentityFinal(Updated(e, junk, ns, ds))
  {
    FinalIsIdentityFinal(e, Updated(e, junk, ns, ds));
  }

  lemma ResultDiffers(e: BlockCipher, ns: seq<nat>, a: nat, ds: seq<seq<Byte>>, q: nat, j: nat, i: nat)
    requires IsIdentity(e) && CopiesFit(ns) && a < |ns| && ns[a] > 0 && ds == Data(ns, a)
    requires Sum(ns[..a]) == 128 * q + 8 * j + i && j < 16 && i < 8
    requires Residue(Sum(ns[..a])) == 8 * j + i && 0 < 8 * j + i < 128
    ensures Result(e, ZeroOctets(32), ns, ds) != Mac(e, Message(ns, ds))
  {
    var w := Whole(16 * q + j, i, Sum(ns));
    var x := IdentityFinal(Updated(e, ZeroOctets(32), ns, ds));
    MessageMac(e, ns, a, ds, 16 * q + j, i);
    var y := IdentityFinal(Absorbed(e, Sum(ns), w));
    assert x != y by { UpdatedDiffers(e, ns, a, ds, q, j, i); }
    assert Result(e, ZeroOctets(32), ns, ds) == x by { IdentityResult(e, ZeroOctets(32), ns, ds); }
  }

  /** For every misaligned list a message on which the result is wrong. */
  lemma MisalignedListIsWrong(e: BlockCipher, ns: seq<nat>, a: nat)
    requires IsIdentity(e) && CopiesFit(ns) && a < |ns| && ns[a] > 0 && Sum(ns[..a]) % 128 != 0
    ensures !Right(e, ZeroOctets(32), ns, Data(ns, a))
  {
    var ds := Data(ns, a);
    assert Result(e, ZeroOctets(32), ns, ds) != Mac(e, Message(ns, ds)) by {
      var q, j, i := SplitPosition(Sum(ns[..a]));
      ResultDiffers(e, ns, a, ds, q, j, i);
    }
  }

  lemma {:induction false} MisalignedAt(ns: seq<nat>) returns (a: nat)
    requires !Aligned(ns)
    ensures a < |ns| && ns[a] > 0 && Sum(ns[..a]) % 128 != 0
  {
    var k := |ns| - 1;
    if Aligned(ns[..k]) {
      a := k;
    } else {
      a := MisalignedAt(ns[..k]);
      assert ns[..k][..a] == ns[..a];
    }
  }

  lemma AllRightInstance(e: BlockCipher, junk: Buffer, ns: seq<nat>, ds: seq<seq<Byte>>)
    requires CopiesFit(ns) && DataFits(ns, ds) && AllRight(ns)
    ensures Right(e, junk, ns, ds)
  {
  }

  lemma {:induction false} AlignedCopiesFit(ns: seq<nat>)
    requires Aligned(ns)
    ensures CopiesFit(ns)
  {
    if ns != [] { AlignedCopiesFit(ns[..|ns| - 1]); }
  }

  /** The exact condition, for any number of Updates of any lengths: every copy fits and every result is right. */
  lemma UpdatesAreExact(ns: seq<nat>)
    ensures (CopiesFit(ns) && AllRight(ns)) <==> Aligned(ns)
  {
    if Aligned(ns) {
      AlignedCopiesFit(ns);
      AlignedAllRight(ns);
    } else if CopiesFit(ns) {
      var e: BlockCipher := x => x;
      var a := MisalignedAt(ns);
      MisalignedListIsWrong(e, ns, a);
      if AllRight(ns) { AllRightInstance(e, ZeroOctets(32), ns, Data(ns, a)); }
    }
  }
}
