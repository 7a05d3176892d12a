/**
 Chunk boundaries that are not block boundaries. Update places the rest of a partial block at octet
 `nlast_block` although that counts bits (line 152 of NAS/src/eia2.c), so the first bit after the buffered ones
 is not the next message bit but whatever the buffer held there. Under every injective block function, AES
 under a key among them, that stale bit reaches the result.
 */
module CmacAlignment {
  import opened Common
  import opened Bits
  import opened Cmac
  import opened CmacStream

  /** Bits buffered after one Update of `n` bits on a new context. */
  function Residue(n: nat): (r: nat)
    ensures r <= 128 && r % 128 == n % 128 && (r == 0 <==> n == 0)
  {
    if n == 0 then 0 else (n - 1) % 128 + 1
  }

  lemma ResidueUnique(n: nat, t: nat, r: nat)
    requires n == 128 * t + r && r <= 128 && (r == 0 <==> n == 0)
    ensures Residue(n) == r
  {
  }

  /** Absorbing encrypts `t` whole blocks and buffers the rest, which is empty only if all is. */
  lemma {:induction false} AbsorbCount(e: BlockCipher, iv: Block, last: Buffer, data: seq<Byte>, dlen: nat)
    returns (t: nat)
    requires dlen <= 8 * |data|
    ensures dlen == 128 * t + Absorb(e, iv, last, data, dlen).n
    ensures Absorb(e, iv, last, data, dlen).n == 0 <==> dlen == 0
    decreases dlen
  {
    t := 0;
    if dlen > 128 {
      t := AbsorbCount(e, e(Xor(iv, data[..16])), last, data[16..], dlen - 128);
      t := t + 1;
    }
  }

  lemma AbsorbResidue(e: BlockCipher, iv: Block, last: Buffer, data: seq<Byte>, dlen: nat)
    requires dlen <= 8 * |data|
    ensures Absorb(e, iv, last, data, dlen).n == Residue(dlen)
  {
    var t := AbsorbCount(e, iv, last, data, dlen);
    ResidueUnique(dlen, t, Absorb(e, iv, last, data, dlen).n);
  }

  lemma SplitPosition(n: nat) returns (q: nat, j: nat, i: nat)
    requires n % 128 != 0
    ensures n == 128 * q + 8 * j + i && j < 16 && i < 8
    ensures Residue(n) == 8 * j + i && 0 < 8 * j + i < 128
  {
    q, j, i := n / 128, n % 128 / 8, n % 128 % 8;
    ResidueUnique(n, q, 8 * j + i);
  }

  /** The bit counts after which the copy of line 152 stays inside the buffer whatever comes next. */
  lemma CopyRoomIsExact(n: nat)
    requires n <= 128
    ensures (forall dlen: nat :: CopyFits(n, dlen)) <==> n <= 18 || n == 128
  {
    if 18 < n < 128 {
      assert !CopyFits(n, 128 - n);
    } else {
      forall dlen: nat ensures CopyFits(n, dlen) {}
    }
  }

  function FirstUpdate(e: BlockCipher, junk: Buffer, d: seq<Byte>, n: nat): (st: Stream)
    requires n <= 8 * |d|
    ensures st.n == Residue(n)
  {
    AbsorbResidue(e, ZERO_BLOCK, junk, d, n);
    Update(e, Stream(ZERO_BLOCK, junk, 0), d, n)
  }

  /** Init, two Updates, Final. */
  function TwoUpdates(e: BlockCipher, junk: Buffer, d1: seq<Byte>, n1: nat, d2: seq<Byte>, n2: nat): Block
    requires n1 <= 8 * |d1| && n2 <= 8 * |d2| && CopyFits(Residue(n1), n2)
  {
    Final(e, Update(e, FirstUpdate(e, junk, d1, n1), d2, n2))
  }

  ghost predicate RightOn(e: BlockCipher, junk: Buffer, d1: seq<Byte>, n1: nat, d2: seq<Byte>, n2: nat)
    requires n1 <= 8 * |d1| && n2 <= 8 * |d2| && CopyFits(Residue(n1), n2)
  {
    TwoUpdates(e, junk, d1, n1, d2, n2) == Mac(e, ToBits(d1)[..n1] + ToBits(d2)[..n2])
  }

  /** The octets `d` carry the bits `m`, and perhaps others after them. */
  predicate Carries(d: seq<Byte>, m: BitString) {
    |m| <= 8 * |d| && ToBits(d)[..|m|] == m
  }

  /** The first Update brings `m`; the result is right whatever else is in its octets and in the fresh buffer. */
  ghost predicate AlwaysRight(e: BlockCipher, m: BitString, d2: seq<Byte>, n2: nat)
    requires n2 <= 8 * |d2| && CopyFits(Residue(|m|), n2)
  {
    forall junk: Buffer, d1: seq<Byte> | Carries(d1, m) :: RightOn(e, junk, d1, |m|, d2, n2)
  }

  // ---- the result depends on all buffered bits and on the chaining value ----

  ghost predicate Injective(e: BlockCipher) {
    forall x: Block, y: Block :: e(x) == e(y) ==> x == y
  }

  lemma XorDiffers(a: Block, b: Block, x: Block)
    requires a != b
    ensures Xor(a, x) != Xor(b, x) && Xor(x, a) != Xor(x, b)
  {
    var j :| 0 <= j < 16 && a[j] != b[j];
    XorOctetDiffers(a[j], b[j], x[j]);
  }

  lemma XorOctetDiffers(a: Byte, b: Byte, x: Byte)
    requires a != b
    ensures a ^ x != b ^ x && x ^ a != x ^ b
  {
  }

  /** The last block as Final masks it. */
  function PaddedBlock(st: Stream): Block
    requires st.n <= 128
  {
    if st.n == 128 then st.last[..16] else PadBuffer(st.last, st.n)
  }

  lemma PadPrefix(last: Buffer, n: nat)
    requires n < 128
    ensures ToBits(PadBuffer(last, n))[..n] == ToBits(last)[..n]
  {
    var s := ToBits(last)[..n];
    PadBufferIsPad(last, n);
    ToBitsPack(Pad(s));
    assert Pad(s)[..n] == s;
  }

  lemma SamePads(a: Buffer, b: Buffer, n: nat)
    requires n < 128 && ToBits(a)[..n] == ToBits(b)[..n]
    ensures PadBuffer(a, n) == PadBuffer(b, n)
  {
    PadBufferIsPad(a, n);
    PadBufferIsPad(b, n);
  }

  lemma FullPrefix(last: Buffer)
    ensures ToBits(last[..16]) == ToBits(last)[..128]
  {
    ToBitsSlice(last, 0, 16);
  }

  /** States with as many buffered bits end in the same last block exactly when the buffered bits agree. */
  lemma PaddedBlockIsExact(s: Stream, t: Stream)
    requires s.n == t.n <= 128
    ensures PaddedBlock(s) == PaddedBlock(t) <==> ToBits(s.last)[..s.n] == ToBits(t.last)[..t.n]
  {
    if s.n == 128 {
      FullPrefix(s.last);
      FullPrefix(t.last);
      if ToBits(s.last)[..128] == ToBits(t.last)[..128] { SameBitsSameBytes(s.last[..16], t.last[..16]); }
    } else {
      PadPrefix(s.last, s.n);
      PadPrefix(t.last, t.n);
      if ToBits(s.last)[..s.n] == ToBits(t.last)[..t.n] { SamePads(s.last, t.last, s.n); }
    }
  }

  lemma FinalUnfolds(e: BlockCipher, st: Stream)
    requires st.n <= 128
    ensures Final(e, st) == e(Xor(st.iv, Xor(PaddedBlock(st), if st.n == 128 then Subkey1(e) else Subkey2(e))))
  {
  }

  lemma OtherBlock(e: BlockCipher, s: Stream, t: Stream)
    requires Injective(e) && s.n == t.n <= 128 && s.iv == t.iv && PaddedBlock(s) != PaddedBlock(t)
    ensures Final(e, s) != Final(e, t)
  {
    var k := if s.n == 128 then Subkey1(e) else Subkey2(e);
    FinalUnfolds(e, s);
    FinalUnfolds(e, t);
    XorDiffers(PaddedBlock(s), PaddedBlock(t), k);
    XorDiffers(Xor(PaddedBlock(s), k), Xor(PaddedBlock(t), k), s.iv);
  }

  lemma OtherChain(e: BlockCipher, s: Stream, t: Stream)
    requires Injective(e) && s.n == t.n <= 128 && s.iv != t.iv && PaddedBlock(s) == PaddedBlock(t)
    ensures Final(e, s) != Final(e, t)
  {
    FinalUnfolds(e, s);
    FinalUnfolds(e, t);
    XorDiffers(s.iv, t.iv, Xor(PaddedBlock(s), if s.n == 128 then Subkey1(e) else Subkey2(e)));
  }

  /** Chaining values that differ stay different over the same data, and so do the results. */
  lemma {:induction false} AbsorbDiverges(e: BlockCipher, iv: Block, iv': Block, last: Buffer, last': Buffer,
                                          data: seq<Byte>, dlen: nat)
    requires Injective(e) && iv != iv' && dlen <= 8 * |data|
    ensures Final(e, Absorb(e, iv, last, data, dlen)) != Final(e, Absorb(e, iv', last', data, dlen))
    decreases dlen
  {
    if dlen > 128 {
      XorDiffers(iv, iv', data[..16]);
      AbsorbDiverges(e, e(Xor(iv, data[..16])), e(Xor(iv', data[..16])), last, last', data[16..], dlen - 128);
    } else {
      BufferHolds(last, data, dlen);
      BufferHolds(last', data, dlen);
      var s, t := Absorb(e, iv, last, data, dlen), Absorb(e, iv', last', data, dlen);
      PaddedBlockIsExact(s, t);
      OtherChain(e, s, t);
    }
  }

  // ---- a stale bit reaches the result ----

  /** The copy lands beyond the octet of the first free bit, so it leaves that bit alone. */
  lemma CopyMissesBit(last: Buffer, n: nat, src: seq<Byte>)
    requires 0 < n < 128 && (src == [] || n + |src| <= 32)
    ensures ToBits(Overwrite(last, n, src))[n] == ToBits(last)[n]
  {
    assert n / 8 < n;
  }

  /** States alike but for the bit after the buffered ones. */
  ghost predicate StaleBitDiffers(s: Stream, t: Stream) {
    0 < s.n == t.n < 128 && s.iv == t.iv && ToBits(s.last)[s.n] != ToBits(t.last)[t.n]
  }

  lemma StaleBitShownFitting(e: BlockCipher, s: Stream, t: Stream, data: seq<Byte>, dlen: nat)
    requires Injective(e) && StaleBitDiffers(s, t)
    requires 0 < dlen <= 128 - s.n && dlen <= 8 * |data| && CopyFits(s.n, dlen)
    ensures Final(e, Update(e, s, data, dlen)) != Final(e, Update(e, t, data, dlen))
  {
    var s', t' := Update(e, s, data, dlen), Update(e, t, data, dlen);
    UpdateFits(e, s, data, dlen);
    UpdateFits(e, t, data, dlen);
    CopyMissesBit(s.last, s.n, data[..OctetCount(dlen)]);
    CopyMissesBit(t.last, t.n, data[..OctetCount(dlen)]);
    assert ToBits(s'.last)[..s'.n][s.n] != ToBits(t'.last)[..t'.n][s.n];
    PaddedBlockIsExact(s', t');
    OtherBlock(e, s', t');
  }

  lemma FirstBlocksDiffer(a: Buffer, b: Buffer, n: nat)
    requires n < 128 && ToBits(a)[n] != ToBits(b)[n]
    ensures a[..16] != b[..16]
  {
    assert a[..16][n / 8] != b[..16][n / 8];
  }

  /** The block completed by the copy goes into the chaining value. */
  function Completed(e: BlockCipher, st: Stream, src: seq<Byte>): (mid: Stream)
    requires src == [] || st.n + |src| <= 32
  {
    var last := Overwrite(st.last, st.n, src);
    Stream(e(Xor(st.iv, last[..16])), last, 0)
  }

  /** An Update that overflows completes the block, then absorbs the rest. */
  lemma UpdateCompletes(e: BlockCipher, st: Stream, data: seq<Byte>, dlen: nat)
    returns (mid: Stream, rest: seq<Byte>, left: nat)
    requires 0 < st.n <= 128 && 128 - st.n < dlen <= 8 * |data| && CopyFits(st.n, dlen)
    ensures mid == Completed(e, st, data[..OctetCount(128 - st.n)])
    ensures rest == data[(128 - st.n) / 8..] && left == dlen - (128 - st.n) && left <= 8 * |rest|
    ensures Update(e, st, data, dlen) == Absorb(e, mid.iv, mid.last, rest, left)
  {
    UpdateOverflows(e, st, data, dlen);
    mid := Completed(e, st, data[..OctetCount(128 - st.n)]);
    rest, left := data[(128 - st.n) / 8..], dlen - (128 - st.n);
  }

  lemma CompletedDiffer(e: BlockCipher, s: Stream, t: Stream, src: seq<Byte>)
    requires Injective(e) && StaleBitDiffers(s, t) && (src == [] || s.n + |src| <= 32)
    ensures Completed(e, s, src).iv != Completed(e, t, src).iv
  {
    var a, b := Overwrite(s.last, s.n, src), Overwrite(t.last, t.n, src);
    CopyMissesBit(s.last, s.n, src);
    CopyMissesBit(t.last, t.n, src);
    FirstBlocksDiffer(a, b, s.n);
    XorDiffers(a[..16], b[..16], s.iv);
  }

  lemma StaleBitShownOverflowing(e: BlockCipher, s: Stream, t: Stream, data: seq<Byte>, dlen: nat)
    requires Injective(e) && StaleBitDiffers(s, t)
    requires 128 - s.n < dlen <= 8 * |data| && CopyFits(s.n, dlen)
    ensures Final(e, Update(e, s, data, dlen)) != Final(e, Update(e, t, data, dlen))
  {
    var a, rest, left := UpdateCompletes(e, s, data, dlen);
    var b, _, _ := UpdateCompletes(e, t, data, dlen);
    CompletedDiffer(e, s, t, data[..OctetCount(128 - s.n)]);
    AbsorbDiverges(e, a.iv, b.iv, a.last, b.last, rest, left);
  }

  /** Whatever a next Update brings, a bit of the buffer that is no message bit decides the result. */
  lemma StaleBitShown(e: BlockCipher, s: Stream, t: Stream, data: seq<Byte>, dlen: nat)
    requires Injective(e) && StaleBitDiffers(s, t)
    requires 0 < dlen <= 8 * |data| && CopyFits(s.n, dlen)
    ensures Final(e, Update(e, s, data, dlen)) != Final(e, Update(e, t, data, dlen))
  {
    if dlen <= 128 - s.n {
      StaleBitShownFitting(e, s, t, data, dlen);
    } else {
      StaleBitShownOverflowing(e, s, t, data, dlen);
    }
  }

  // ---- both values of the stale bit occur, for every message ----

  /** Octet `v` where the message ends, in the data and in the fresh buffer: one of them stays in the buffer. */
  lemma {:induction false} AbsorbLeaves(e: BlockCipher, iv: Block, junk: Buffer, d: seq<Byte>, n: nat, p: nat, j: nat,
                                        i: nat, v: Byte, d': seq<Byte>)
    requires i < 8 && j < 16 && 0 < 8 * j + i && n == 8 * p + i && p < |d| && p % 16 == j && d' == d[p := v]
    ensures Absorb(e, iv, junk[j := v], d', n).n == 8 * j + i
    ensures Absorb(e, iv, junk[j := v], d', n).last[j] == v
    ensures Absorb(e, iv, junk[j := v], d', n).iv == Absorb(e, iv, junk, d, n).iv
    decreases n
  {
    if n > 128 {
      LeavesTail(n, p, j, i);
      UpdatedTail(d, p, v);
      AbsorbLeaves(e, e(Xor(iv, d[..16])), junk, d[16..], n - 128, p - 16, j, i, v, d'[16..]);
    } else {
      assert p == j;
      BufferLeaves(junk, d, j, i, v);
    }
  }

  lemma LeavesTail(n: nat, p: nat, j: nat, i: nat)
    requires n == 8 * p + i && p % 16 == j && i < 8 && n > 128
    ensures p >= 16 && n - 128 == 8 * (p - 16) + i && (p - 16) % 16 == j
  {
  }

  lemma UpdatedTail(d: seq<Byte>, p: nat, v: Byte)
    requires 16 <= p < |d|
    ensures d[p := v][..16] == d[..16] && d[p := v][16..] == d[16..][p - 16 := v]
  {
  }

  lemma BufferLeaves(junk: Buffer, d: seq<Byte>, j: nat, i: nat, v: Byte)
    requires i < 8 && j < 16 && j < |d|
    ensures OctetCount(8 * j + i) <= |d| && OctetCount(8 * j + i) <= 16
    ensures Overwrite(junk[j := v], 0, d[j := v][..OctetCount(8 * j + i)])[j] == v
  {
    if i > 0 { BufferedOctet(junk[j := v], d[j := v], 8 * j + i, j); }
  }

  lemma BufferedOctet(last: Buffer, d: seq<Byte>, dlen: nat, j: nat)
    requires 8 * j < dlen <= 128 && dlen <= 8 * |d|
    ensures OctetCount(dlen) <= |d| && OctetCount(dlen) <= 16
    ensures Overwrite(last, 0, d[..OctetCount(dlen)])[j] == d[j]
  {
    assert j < OctetCount(dlen);
    assert Overwrite(last, 0, d[..OctetCount(dlen)])[j] == d[..OctetCount(dlen)][j];
  }

  lemma MaskBits(i: nat, k: nat)
    requires i < 8 && k < 8
    ensures Bit(Mask(i), k) == (i == k) && !Bit(0, k)
  {
  }

  lemma FlippedBit(b: Byte, i: nat, k: nat)
    requires i < 8 && k < 8
    ensures Bit(b ^ Mask(i), k) == (Bit(b, k) != (i == k))
  {
    BitOfXor(b, Mask(i), k);
    MaskBits(i, k);
  }

  lemma FlippedElsewhere(d: seq<Byte>, p: nat, i: nat, k: nat)
    requires i < 8 && p < |d| && k < 8 * p + i
    ensures ToBits(d[p := d[p] ^ Mask(i)])[k] == ToBits(d)[k]
  {
    if k / 8 == p { FlippedBit(d[p], i, k % 8); }
  }

  /** Flipping the bit after the message keeps the message. */
  lemma FlippedCarries(d: seq<Byte>, m: BitString, p: nat, i: nat)
    requires i < 8 && p < |d| && |m| == 8 * p + i && Carries(d, m)
    ensures Carries(d[p := d[p] ^ Mask(i)], m)
  {
    var d' := d[p := d[p] ^ Mask(i)];
    forall k | 0 <= k < |m| ensures ToBits(d')[k] == ToBits(d)[k] { FlippedElsewhere(d, p, i, k); }
    assert ToBits(d')[..|m|] == ToBits(d)[..|m|];
  }

  lemma LongerCarries(d: seq<Byte>, m: BitString)
    requires Carries(d, m)
    ensures Carries(d + [0], m)
  {
    ToBitsConcat(d, [0]);
  }

  /** The state after a first Update that leaves octet `v` where the message ends. */
  lemma FirstLeaves(e: BlockCipher, junk: Buffer, d: seq<Byte>, q: nat, j: nat, i: nat, n: nat, v: Byte)
    returns (st: Stream)
    requires i < 8 && j < 16 && 0 < 8 * j + i && n == 128 * q + 8 * j + i && 16 * q + j < |d|
    ensures st == FirstUpdate(e, junk[j := v], d[16 * q + j := v], n)
    ensures st.n == 8 * j + i && st.last[j] == v && st.iv == Absorb(e, ZERO_BLOCK, junk, d, n).iv
  {
    AbsorbLeaves(e, ZERO_BLOCK, junk, d, n, 16 * q + j, j, i, v, d[16 * q + j := v]);
    st := FirstUpdate(e, junk[j := v], d[16 * q + j := v], n);
  }

  lemma FlippedStale(s: Stream, t: Stream, j: nat, i: nat)
    requires i < 8 && j < 16 && s.n == t.n == 8 * j + i && 0 < s.n < 128 && s.iv == t.iv
    requires t.last[j] == s.last[j] ^ Mask(i)
    ensures StaleBitDiffers(s, t)
  {
    FlippedBit(s.last[j], i, i);
    assert s.n / 8 == j && s.n % 8 == i;
  }

  /** The two first Updates: the same message, the same chaining value, the other stale bit. */
  lemma BothStaleBits(e: BlockCipher, junk: Buffer, d: seq<Byte>, q: nat, j: nat, i: nat, n: nat, w: Byte)
    requires i < 8 && j < 16 && 0 < 8 * j + i < 128 && n == 128 * q + 8 * j + i && 16 * q + j < |d|
    requires w == d[16 * q + j] ^ Mask(i)
    ensures StaleBitDiffers(FirstUpdate(e, junk[j := d[16 * q + j]], d, n),
                            FirstUpdate(e, junk[j := w], d[16 * q + j := w], n))
  {
    var v := d[16 * q + j];
    assert d[16 * q + j := v] == d;
    var s := FirstLeaves(e, junk, d, q, j, i, n, v);
    var t := FirstLeaves(e, junk, d, q, j, i, n, w);
    FlippedStale(s, t, j, i);
  }

  lemma OneIsWrong(e: BlockCipher, junk: Buffer, d: seq<Byte>, junk': Buffer, d': seq<Byte>, m: BitString,
                   d2: seq<Byte>, n2: nat)
    requires Injective(e) && Carries(d, m) && Carries(d', m)
    requires StaleBitDiffers(FirstUpdate(e, junk, d, |m|), FirstUpdate(e, junk', d', |m|))
    requires 0 < n2 <= 8 * |d2| && CopyFits(Residue(|m|), n2)
    ensures !RightOn(e, junk, d, |m|, d2, n2) || !RightOn(e, junk', d', |m|, d2, n2)
  {
    StaleBitShown(e, FirstUpdate(e, junk, d, |m|), FirstUpdate(e, junk', d', |m|), d2, n2);
  }

  /** Octets and buffers that carry the message and differ in the stale bit. */
  lemma StalePair(e: BlockCipher, d: seq<Byte>, m: BitString)
    returns (junk: Buffer, d1: seq<Byte>, junk': Buffer, d1': seq<Byte>)
    requires Carries(d, m) && |m| % 128 != 0
    ensures Carries(d1, m) && Carries(d1', m)
    ensures StaleBitDiffers(FirstUpdate(e, junk, d1, |m|), FirstUpdate(e, junk', d1', |m|))
  {
    var q, j, i := SplitPosition(|m|);
    var p := 16 * q + j;
    LongerCarries(d, m);
    d1 := d + [0];
    var w := d1[p] ^ Mask(i);
    FlippedCarries(d1, m, p, i);
    var zeros: Buffer := seq(32, _ => 0);
    BothStaleBits(e, zeros, d1, q, j, i, |m|, w);
    junk, junk', d1' := zeros[j := d1[p]], zeros[j := w], d1[p := w];
  }

  /** Whatever the two chunks bring, a first chunk that ends inside a block can make the result wrong. */
  lemma MisalignedIsWrong(e: BlockCipher, d: seq<Byte>, m: BitString, d2: seq<Byte>, n2: nat)
    returns (junk: Buffer, d1: seq<Byte>)
    requires Injective(e) && Carries(d, m) && |m| % 128 != 0
    requires 0 < n2 <= 8 * |d2| && CopyFits(Residue(|m|), n2)
    ensures Carries(d1, m) && !RightOn(e, junk, d1, |m|, d2, n2)
  {
    var a, x, b, y := StalePair(e, d, m);
    OneIsWrong(e, a, x, b, y, m, d2, n2);
    if RightOn(e, a, x, |m|, d2, n2) {
      junk, d1 := b, y;
    } else {
      junk, d1 := a, x;
    }
  }

  // ---- aligned chunks ----

  lemma FirstHolds(e: BlockCipher, junk: Buffer, d1: seq<Byte>, n1: nat)
    requires n1 <= 8 * |d1|
    ensures Holds(e, FirstUpdate(e, junk, d1, n1), ToBits(d1)[..n1])
  {
    EmptyHolds(e, junk);
    UpdateHolds(e, Stream(ZERO_BLOCK, junk, 0), [], d1, n1);
    assert [] + ToBits(d1)[..n1] == ToBits(d1)[..n1];
  }

  lemma AlignedIsRight(e: BlockCipher, junk: Buffer, d1: seq<Byte>, n1: nat, d2: seq<Byte>, n2: nat)
    requires n1 <= 8 * |d1| && n2 <= 8 * |d2| && CopyFits(Residue(n1), n2)
    requires n1 % 128 == 0 || n2 == 0
    ensures RightOn(e, junk, d1, n1, d2, n2)
  {
    var st, m := FirstUpdate(e, junk, d1, n1), ToBits(d1)[..n1];
    FirstHolds(e, junk, d1, n1);
    HoldsMore(e, st, m, d2, n2);
    FinalIsMac(e, Update(e, st, d2, n2), m + ToBits(d2)[..n2]);
  }

  lemma RightInstance(e: BlockCipher, junk: Buffer, d1: seq<Byte>, m: BitString, d2: seq<Byte>, n2: nat)
    requires n2 <= 8 * |d2| && CopyFits(Residue(|m|), n2) && AlwaysRight(e, m, d2, n2) && Carries(d1, m)
    ensures RightOn(e, junk, d1, |m|, d2, n2)
  {
  }

  /** The exact condition, for every injective block function, every first message and every second chunk. */
  lemma AlignmentIsExact(e: BlockCipher, d: seq<Byte>, m: BitString, d2: seq<Byte>, n2: nat)
    requires Injective(e) && Carries(d, m) && n2 <= 8 * |d2| && CopyFits(Residue(|m|), n2)
    ensures AlwaysRight(e, m, d2, n2) <==> |m| % 128 == 0 || n2 == 0
  {
    if |m| % 128 == 0 || n2 == 0 {
      forall junk: Buffer, d1: seq<Byte> | Carries(d1, m) ensures RightOn(e, junk, d1, |m|, d2, n2) {
        AlignedIsRight(e, junk, d1, |m|, d2, n2);
      }
    } else {
      var junk, d1 := MisalignedIsWrong(e, d, m, d2, n2);
      if AlwaysRight(e, m, d2, n2) { RightInstance(e, junk, d1, m, d2, n2); }
    }
  }
}
