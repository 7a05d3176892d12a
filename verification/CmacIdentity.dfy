/**
 CMAC under the identity block function: subkeys are zero, chaining is exclusive or, and a single set bit of an
 otherwise zero message shows in the result. The witness that refutes misaligned lists of Updates.
 */
module CmacIdentity {
  import opened Common
  import opened Bits
  import opened Cmac
  import opened CmacStream
  import opened CmacAlignment

  ghost predicate IsIdentity(e: BlockCipher) {
    forall x: Block :: e(x) == x
  }

  function ZeroOctets(n: nat): (z: seq<Byte>)
    ensures |z| == n && forall i :: 0 <= i < n ==> z[i] == 0
  {
    seq(n, _ => 0)
  }

  /** Zero octets, but for the mask of bit `i` at octet `p`. */
  ghost predicate OneHot(d: seq<Byte>, p: nat, i: nat)
    requires i < 8
  {
    forall k :: 0 <= k < |d| ==> d[k] == if k == p then Mask(i) else 0
  }

  /** Octets that are zero but for octet `p`, which is the mask of bit `i`, are a single set bit. */
  lemma OneHotBits(d: seq<Byte>, p: nat, i: nat, k: nat)
    requires i < 8 && k < 8 * |d|
    requires OneHot(d, p, i)
    ensures ToBits(d)[k] == (k == 8 * p + i)
  {
    MaskBits(i, k % 8);
  }

  lemma ZeroBlockAt(j: nat)
    requires j < 16
    ensures ZERO_BLOCK[j] == 0
  {
  }

  lemma ZeroBlockBit(k: nat)
    requires k < 128
    ensures !ToBits(ZERO_BLOCK)[k]
  {
    ZeroBlockAt(k / 8);
    MaskBits(0, k % 8);
  }

  lemma IdentitySubkeys(e: BlockCipher)
    requires IsIdentity(e)
    ensures Subkey1(e) == Subkey2(e) == ZERO_BLOCK
  {
    assert ToBits(ZERO_BLOCK) == Zeros(128) by {
      forall k | 0 <= k < 128 ensures !ToBits(ZERO_BLOCK)[k] { ZeroBlockBit(k); }
    }
    assert Double(Zeros(128)) == Zeros(128);
    PackToBits(ZERO_BLOCK);
  }

  lemma XorZero(a: Block)
    ensures Xor(a, ZERO_BLOCK) == a && Xor(ZERO_BLOCK, a) == a
  {
    forall i | 0 <= i < 16 ensures a[i] ^ 0 == a[i] && 0 ^ a[i] == a[i] {}
  }

  /** What Final makes of octet `j` of the last block when `b` is there and `n` bits are in use. */
  function FinalOctet(b: Byte, n: nat, j: nat): Byte {
    if n == 128 || j < n / 8 then b else if j == n / 8 then PadOctet(b, n % 8) else 0
  }

  /** Final under the identity cipher, whose subkeys are zero. */
  function IdentityFinal(st: Stream): Block
    requires st.n <= 128
  {
    Xor(st.iv, PaddedBlock(st))
  }

  lemma FinalIsIdentityFinal(e: BlockCipher, st: Stream)
    requires IsIdentity(e) && st.n <= 128
    ensures Final(e, st) == IdentityFinal(st)
  {
    IdentitySubkeys(e);
    XorZero(PaddedBlock(st));
  }

  lemma PadBufferAt(last: Buffer, n: nat, j: nat)
    requires n < 128 && j < 16
    ensures PadBuffer(last, n)[j] == FinalOctet(last[j], n, j)
  {
    var rest: seq<Byte> := seq(15 - n / 8, _ => 0);
    assert PadBuffer(last, n) == last[..n / 8] + ([PadOctet(last[n / 8], n % 8)] + rest);
  }

  lemma FinalAt(st: Stream, j: nat)
    requires st.n <= 128 && j < 16
    ensures IdentityFinal(st)[j] == st.iv[j] ^ FinalOctet(st.last[j], st.n, j)
  {
    if st.n == 128 {
      assert st.last[..16][j] == st.last[j];
    } else {
      PadBufferAt(st.last, st.n, j);
    }
  }

  lemma {:induction false} AbsorbZeros(e: BlockCipher, iv: Block, last: Buffer, dlen: nat, z: seq<Byte>)
    requires IsIdentity(e)
    requires dlen <= 8 * |z| && forall i :: 0 <= i < |z| ==> z[i] == 0
    ensures Absorb(e, iv, last, z, dlen).iv == iv
    ensures forall i :: 0 <= i < 32 && last[i] == 0 ==> Absorb(e, iv, last, z, dlen).last[i] == 0
    decreases dlen
  {
    if dlen > 128 {
      assert z[..16] == ZERO_BLOCK;
      XorZero(iv);
      AbsorbZeros(e, iv, last, dlen - 128, z[16..]);
    }
  }

  /** Octets that are zero but for octet `j` of the first block, which is absorbed. */
  lemma FirstBlockAbsorbed(e: BlockCipher, iv: Block, last: Buffer, dlen: nat, d: seq<Byte>, j: nat)
    requires IsIdentity(e)
    requires j < 16 && 128 < dlen <= 8 * |d|
    requires forall i :: 16 <= i < |d| ==> d[i] == 0
    ensures Absorb(e, iv, last, d, dlen).iv == Xor(iv, d[..16])
    ensures last[j] == 0 ==> Absorb(e, iv, last, d, dlen).last[j] == 0
  {
    AbsorbZeros(e, Xor(iv, d[..16]), last, dlen - 128, d[16..]);
  }

  /** Padding keeps the bits before it. */
  lemma PadKeepsBit(i: nat, r: nat)
    requires i < r < 8
    ensures PadOctet(Mask(i), r) != PadOctet(0, r)
  {
    PadOctetBits(Mask(i), r, i);
    PadOctetBits(0, r, i);
    MaskBits(i, i);
  }

  lemma XorCancels(x: Byte, v: Byte)
    requires v != 0
    ensures x ^ v != x && (0 ^ v) ^ x != x && 0 ^ x == x
  {
  }

  lemma LastOctetDiffers(i: nat, j: nat, n: nat)
    requires i < 8 && 8 * j + i < n <= 128
    ensures FinalOctet(Mask(i), n, j) != FinalOctet(0, n, j)
  {
    MaskBits(i, i);
    if n < 128 && j == n / 8 { PadKeepsBit(i, n % 8); }
  }

  /** Octet `j` of the result tells that a bit of that octet was set in some block. */
  ghost predicate Shown(st: Stream, j: nat)
    requires st.n <= 128
  {
    forall k :: k == j < 16 ==> IdentityFinal(st)[k] != FinalOctet(0, st.n, k)
  }

  ghost predicate NotShown(st: Stream, j: nat)
    requires st.n <= 128
  {
    forall k :: k == j < 16 ==> IdentityFinal(st)[k] == FinalOctet(0, st.n, k)
  }

  lemma ShowsAbsorbed(st: Stream, v: Byte, j: nat)
    requires st.n <= 128 && j < 16 && v != 0
    requires st.iv[j] == 0 ^ v && st.last[j] == 0
    ensures Shown(st, j)
  {
    FinalAt(st, j);
    XorCancels(FinalOctet(0, st.n, j), v);
  }

  lemma ShowsBuffered(st: Stream, j: nat, i: nat)
    requires i < 8 && j < 16 && 8 * j + i < st.n <= 128
    requires st.iv[j] == 0 && st.last[j] == Mask(i)
    ensures Shown(st, j)
  {
    FinalAt(st, j);
    XorCancels(FinalOctet(Mask(i), st.n, j), 1);
    LastOctetDiffers(i, j, st.n);
  }

  lemma OneHotTail(d: seq<Byte>, q: nat, j: nat, i: nat)
    requires i < 8 && |d| >= 16 && q > 0 && OneHot(d, 16 * q + j, i)
    ensures d[..16] == ZERO_BLOCK && OneHot(d[16..], 16 * (q - 1) + j, i)
  {
  }

  lemma AbsorbSkipsZeros(e: BlockCipher, iv: Block, last: Buffer, d: seq<Byte>, dlen: nat)
    requires IsIdentity(e) && 128 < dlen <= 8 * |d| && d[..16] == ZERO_BLOCK
    ensures Absorb(e, iv, last, d, dlen) == Absorb(e, iv, last, d[16..], dlen - 128)
  {
    XorZero(iv);
  }

  /** The set bit in the first of several blocks ends in the chaining value. */
  lemma FirstShown(e: BlockCipher, iv: Block, last: Buffer, dlen: nat, d: seq<Byte>, j: nat, i: nat)
    requires IsIdentity(e) && i < 8 && j < 16 && 128 < dlen <= 8 * |d| && OneHot(d, j, i)
    requires iv[j] == 0 && last[j] == 0
    ensures Shown(Absorb(e, iv, last, d, dlen), j)
  {
    MaskBits(i, i);
    FirstBlockAbsorbed(e, iv, last, dlen, d, j);
    assert Xor(iv, d[..16])[j] == 0 ^ Mask(i);
    ShowsAbsorbed(Absorb(e, iv, last, d, dlen), Mask(i), j);
  }

  /** In the last block it ends in the buffer. */
  lemma LastShown(e: BlockCipher, iv: Block, last: Buffer, dlen: nat, d: seq<Byte>, j: nat, i: nat)
    requires i < 8 && 8 * j + i < dlen <= 128 && dlen <= 8 * |d| && OneHot(d, j, i) && iv[j] == 0
    ensures Shown(Absorb(e, iv, last, d, dlen), j)
  {
    BufferedOctet(last, d, dlen, j);
    ShowsBuffered(Stream(iv, Overwrite(last, 0, d[..OctetCount(dlen)]), dlen), j, i);
  }

  /** Octet `j` of the one-shot MAC shows the set bit, bit `i` of octet `16 * q + j`. */
  lemma {:induction false} OneShotShown(e: BlockCipher, iv: Block, last: Buffer, dlen: nat, d: seq<Byte>, q: nat,
                                        j: nat,
                                        i: nat)
    requires IsIdentity(e) && i < 8 && j < 16 && iv[j] == 0 && last[j] == 0
    requires 128 * q + 8 * j + i < dlen <= 8 * |d| && OneHot(d, 16 * q + j, i)
    ensures Shown(Absorb(e, iv, last, d, dlen), j)
    decreases q
  {
    if q > 0 {
      OneHotTail(d, q, j, i);
      AbsorbSkipsZeros(e, iv, last, d, dlen);
      OneShotShown(e, iv, last, dlen - 128, d[16..], q - 1, j, i);
    } else if dlen > 128 {
      FirstShown(e, iv, last, dlen, d, j, i);
    } else {
      LastShown(e, iv, last, dlen, d, j, i);
    }
  }

  /** A state whose buffer and chaining value are all zero, part of a block buffered. */
  ghost predicate ZeroState(st: Stream) {
    0 < st.n < 128 && st.iv == ZERO_BLOCK && forall i :: 0 <= i < 32 ==> st.last[i] == 0
  }

  /** The copy lands at octet `st.n`, which is not octet `j` but beyond it. */
  lemma CopyMissesOctet(st: Stream, src: seq<Byte>, j: nat, i: nat)
    requires ZeroState(st) && st.n == 8 * j + i && i < 8
    requires src == [] || st.n + |src| <= 32
    ensures Overwrite(st.last, st.n, src)[j] == 0
  {
    assert j < st.n;
  }

  lemma RestIsZero(e: BlockCipher, last: Buffer, rest: seq<Byte>, n: nat, j: nat)
    requires IsIdentity(e)
    requires n <= 8 * |rest| && j < 16 && last[j] == 0
    requires forall k :: 0 <= k < |rest| ==> rest[k] == 0
    ensures var st2 := Absorb(e, Xor(ZERO_BLOCK, last[..16]), last, rest, n);
            st2.iv[j] == 0 && st2.last[j] == 0
  {
    XorZero(last[..16]);
    AbsorbZeros(e, last[..16], last, n, rest);
  }

  lemma MisplacedOctet(e: BlockCipher, st: Stream, n2: nat, d2: seq<Byte>, j: nat, i: nat)
    requires IsIdentity(e)
    requires ZeroState(st) && 0 < n2 <= 8 * |d2| && CopyFits(st.n, n2)
    requires forall k :: 0 < k < |d2| ==> d2[k] == 0
    requires st.n == 8 * j + i && i < 8
    ensures var st2 := Update(e, st, d2, n2);
            st2.iv[j] == 0 && st2.last[j] == 0
  {
    var nleft := Min(n2, 128 - st.n);
    var last := Overwrite(st.last, st.n, d2[..OctetCount(nleft)]);
    CopyMissesOctet(st, d2[..OctetCount(nleft)], j, i);
    if n2 > nleft {
      assert nleft / 8 >= 1;
      UpdateOverflows(e, st, d2, n2);
      RestIsZero(e, last, d2[nleft / 8..], n2 - nleft, j);
    }
  }

  lemma OneShotAsAbsorb(e: BlockCipher, d: seq<Byte>, n: nat)
    requires IsIdentity(e)
    requires 0 < n <= 8 * |d|
    ensures Mac(e, ToBits(d)[..n]) == IdentityFinal(Absorb(e, ZERO_BLOCK, ZeroOctets(32), d, n))
  {
    var m := ToBits(d)[..n];
    assert m[128 * 0..] == m;
    AbsorbHolds(e, ZERO_BLOCK, ZeroOctets(32), d, n, m, 0);
    FinalIsMac(e, Absorb(e, ZERO_BLOCK, ZeroOctets(32), d, n), m);
    FinalIsIdentityFinal(e, Absorb(e, ZERO_BLOCK, ZeroOctets(32), d, n));
  }

  lemma DifferAt(a: Stream, b: Stream, j: nat)
    requires a.n == b.n <= 128 && j < 16 && Shown(a, j) && NotShown(b, j)
    ensures IdentityFinal(a) != IdentityFinal(b)
  {
    assert IdentityFinal(a)[j] != FinalOctet(0, a.n, j);
    assert IdentityFinal(b)[j] == FinalOctet(0, b.n, j);
  }

  /** The one-hot message of the counterexample, and the same cut after `n1` bits. */
  function Whole(p: nat, i: nat, n2: nat): (d: seq<Byte>)
    requires i < 8
    ensures |d| == p + 1 + n2 && OneHot(d, p, i)
  {
    ZeroOctets(p) + [Mask(i)] + ZeroOctets(n2)
  }

  function Second(n2: nat): (d: seq<Byte>)
    ensures |d| == n2 + 1 && OneHot(d, 0, 0)
  {
    [0x80] + ZeroOctets(n2)
  }

  function Absorbed(e: BlockCipher, n: nat, d: seq<Byte>): Stream
    requires n <= 8 * |d|
  {
    Absorb(e, ZERO_BLOCK, ZeroOctets(32), d, n)
  }

  lemma AbsorbedShown(e: BlockCipher, n: nat, d: seq<Byte>, q: nat, j: nat, i: nat)
    requires IsIdentity(e) && i < 8 && j < 16
    requires 128 * q + 8 * j + i < n <= 8 * |d| && OneHot(d, 16 * q + j, i)
    ensures Shown(Absorbed(e, n, d), j)
  {
    ZeroBlockAt(j);
    OneShotShown(e, ZERO_BLOCK, ZeroOctets(32), n, d, q, j, i);
  }
}
