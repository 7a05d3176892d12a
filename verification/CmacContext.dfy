/**
 NAS/src/eia2.c: the hand-written CMAC context (Init, Update, Final) and 128-EIA2 on top of it.
 OpenSSL's AES-CBC is a chaining value and an arbitrary function of key and block, so everything
 below holds whatever AES computes.
 */
module CmacContext {
  import opened Common
  import opened Bits
  import opened Cmac
  import opened OctetNumbers
  import CmacStream

  type Aes = (Block, Block) -> Block

  function Keyed(aes: Aes, key: Block): BlockCipher {
    (x: Block) => aes(key, x)
  }

  // ---- subkeys ----

  /** Octet `j` of the shifted and reduced block, as make_kn computes it. */
  function ShiftedOctet(l: seq<Byte>, j: nat): Byte
    requires j < |l|
  {
    if j < |l| - 1 then (l[j] << 1) | (l[j + 1] >> 7)
    else (l[j] << 1) ^ ((0 - (l[0] >> 7)) & (if |l| == 16 then 0x87 else 0x1b))
  }

  lemma ShiftedOctetBits(c: Byte, next: Byte, k: nat)
    requires k < 8
    ensures Bit((c << 1) | (next >> 7), k) == (if k < 7 then Bit(c, k + 1) else Bit(next, 0))
  {
    if k < 4 {
      if k == 0 {} else if k == 1 {} else if k == 2 {} else {}
    } else {
      if k == 4 {} else if k == 5 {} else if k == 6 {} else {}
    }
  }

  lemma CarryMask(top: Byte, r: Byte)
    ensures (0 - (top >> 7)) & r == if Bit(top, 0) then r else 0
  {
  }

  lemma LastOctetBits(c: Byte, top: Byte, wide: bool, k: nat)
    requires k < 8
    ensures Bit((c << 1) ^ ((0 - (top >> 7)) & (if wide then 0x87 else 0x1b)), k)
         == ((k < 7 && Bit(c, k + 1))
             != (Bit(top, 0) && (if wide then k in {0, 5, 6, 7} else k in {3, 4, 6, 7})))
  {
    var r: Byte := if wide then 0x87 else 0x1b;
    CarryMask(top, r);
    BitOfXor(c << 1, if Bit(top, 0) then r else 0, k);
    ShiftedOctetBits(c, 0, k);
    assert (c << 1) | ((0 as Byte) >> 7) == c << 1;
    ConstantBits(wide, k);
  }

  lemma ConstantBits(wide: bool, k: nat)
    requires k < 8
    ensures Bit(if wide then 0x87 else 0x1b, k) == (if wide then k in {0, 5, 6, 7} else k in {3, 4, 6, 7})
    ensures !Bit(0, k)
  {
  }

  lemma BitAt(l: seq<Byte>, j: nat, i: nat)
    requires j < |l| && i < 8
    ensures ToBits(l)[8 * j + i] == Bit(l[j], i)
  {
    assert (8 * j + i) / 8 == j && (8 * j + i) % 8 == i;
  }

  lemma DoubleAt(s: BitString, k: nat)
    requires k < |s| && |s| >= 8
    ensures Double(s)[k] == ((k + 1 < |s| && s[k + 1]) != (s[0] && FieldConstant(|s|)[k]))
  {
  }

  lemma ConstantAt(n: nat, j: nat, i: nat)
    requires j < n && i < 8
    ensures FieldConstant(8 * n)[8 * j + i] ==
            (j == n - 1 && if n == 16 then i in {0, 5, 6, 7} else i in {3, 4, 6, 7})
  {
  }

  /** The bit after bit `i` of octet `j`. */
  lemma NextBit(l: seq<Byte>, j: nat, i: nat)
    requires j < |l| && i < 8
    ensures (8 * j + i + 1 < 8 * |l| && ToBits(l)[8 * j + i + 1])
         == if i < 7 then Bit(l[j], i + 1) else j < |l| - 1 && Bit(l[j + 1], 0)
  {
    if i < 7 { BitAt(l, j, i + 1); } else if j < |l| - 1 { BitAt(l, j + 1, 0); }
  }

  /** Bit `i` of octet `j` of the doubled block. */
  lemma DoubleOctet(l: seq<Byte>, j: nat, i: nat)
    requires j < |l| && i < 8
    ensures Double(ToBits(l))[8 * j + i] ==
              ((if i < 7 then Bit(l[j], i + 1) else j < |l| - 1 && Bit(l[j + 1], 0))
               != (Bit(l[0], 0) && j == |l| - 1 && if |l| == 16 then i in {0, 5, 6, 7} else i in {3, 4, 6, 7}))
  {
    DoubleAt(ToBits(l), 8 * j + i);
    ConstantAt(|l|, j, i);
    BitAt(l, 0, 0);
    NextBit(l, j, i);
  }

  lemma ShiftedBits(l: seq<Byte>, j: nat, i: nat)
    requires j < |l| && i < 8
    ensures Bit(ShiftedOctet(l, j), i) == Double(ToBits(l))[8 * j + i]
  {
    DoubleOctet(l, j, i);
    if j < |l| - 1 {
      ShiftedOctetBits(l[j], l[j + 1], i);
    } else {
      LastOctetBits(l[j], l[0], |l| == 16, i);
    }
  }

  lemma SameByOctets(out: seq<Byte>, d: BitString)
    requires |d| == 8 * |out|
    requires forall j, i :: 0 <= j < |out| && 0 <= i < 8 ==> Bit(out[j], i) == d[8 * j + i]
    ensures ToBits(out) == d
  {
    forall k | 0 <= k < |d| ensures ToBits(out)[k] == d[k] {
      assert Bit(out[k / 8], k % 8) == d[8 * (k / 8) + k % 8];
    }
  }

  /** The octet-wise shift with carry is doubling in the binary field. */
  lemma ShiftIsDouble(l: seq<Byte>, out: seq<Byte>)
    requires 0 < |l| == |out|
    requires forall j :: 0 <= j < |l| ==> out[j] == ShiftedOctet(l, j)
    ensures ToBits(out) == Double(ToBits(l))
  {
    forall j, i | 0 <= j < |out| && 0 <= i < 8 ensures Bit(out[j], i) == Double(ToBits(l))[8 * j + i] {
      ShiftedBits(l, j, i);
    }
    SameByOctets(out, Double(ToBits(l)));
  }

  method MakeKn(k1: array<Byte>, l: array<Byte>, bl: nat)
    requires 0 < bl <= k1.Length && bl <= l.Length && k1 != l
    modifies k1
    ensures ToBits(k1[..bl]) == Double(ToBits(l[..bl]))
    ensures k1[bl..] == old(k1[bl..])
  {
    var c := l[0];
    var carry := c >> 7;
    var i := 0;
    while i < bl - 1
      invariant 0 <= i <= bl - 1 && c == l[i]
      invariant forall j :: 0 <= j < i ==> k1[j] == ShiftedOctet(l[..bl], j)
      invariant k1[bl..] == old(k1[bl..])
    {
      var cnext := l[i + 1];
      k1[i] := (c << 1) | (cnext >> 7);
      i, c := i + 1, cnext;
    }
    k1[i] := (c << 1) ^ ((0 - carry) & (if bl == 16 then 0x87 else 0x1b));
    ShiftIsDouble(l[..bl], k1[..bl]);
  }

  // ---- the context ----

  lemma OverflowSizes(nleft: nat, dlen: nat, size: nat)
    requires nleft < dlen <= 8 * size
    ensures OctetCount(nleft) <= size && nleft / 8 <= size && dlen - nleft <= 8 * (size - nleft / 8)
    ensures nleft == 0 ==> OctetCount(nleft) == 0
  {
  }

  predicate Restarts(k: Option<Block>, keylen: nat, cipher: bool) {
    k.None? && !cipher && keylen == 0
  }

  class CmacCtx {
    const aes: Aes
    var hasCipher: bool
    var keyed: bool // the cipher context holds `key`
    var key: Block
    var iv: Block
    const k1: array<Byte>
    const k2: array<Byte>
    const tbl: array<Byte>
    const lastBlock: array<Byte>
    var nlast: int // bits in lastBlock; -1 means not initialised

    /** Arrays that later steps may overwrite are separate from the subkeys. */
    ghost predicate Separate()
    {
      && k1.Length == k2.Length == tbl.Length == lastBlock.Length == 32
      && k1 != k2 && k1 != tbl && k1 != lastBlock && k2 != tbl && k2 != lastBlock && tbl != lastBlock
    }

    ghost predicate Valid()
      reads this, k1, k2, tbl, lastBlock
    {
      && Separate()
      && -1 <= nlast <= 128
      && (nlast >= 0 && keyed ==> && hasCipher
                                  && k1[..16] == Subkey1(Keyed(aes, key))
                                  && k2[..16] == Subkey2(Keyed(aes, key)))
    }

    /** A context in use has its key: data may be added and the result taken. */
    ghost predicate Ready()
      reads this, k1, k2, tbl, lastBlock
    {
      Valid() && (nlast >= 0 ==> keyed)
    }

    ghost function State(): CmacStream.Stream
      requires Valid() && nlast >= 0
      reads this, k1, k2, tbl, lastBlock
    {
      CmacStream.Stream(iv, lastBlock[..], nlast)
    }

    /** NAS_CMAC_CTX_new */
    constructor (aes: Aes)
      ensures Ready() && nlast == -1 && this.aes == aes && !hasCipher
      ensures fresh(k1) && fresh(k2) && fresh(tbl) && fresh(lastBlock)
    {
      this.aes := aes;
      hasCipher, keyed, key, iv, nlast := false, false, ZERO_BLOCK, ZERO_BLOCK, -1;
      k1 := new Byte[32];
      k2 := new Byte[32];
      tbl := new Byte[32];
      lastBlock := new Byte[32];
    }

    /** EVP_Cipher on one block: CBC encryption, chaining value kept in the context. */
    method Encrypt(data: Block) returns (out: Block)
      modifies this`iv
      ensures iv == out == aes(key, Xor(old(iv), data))
    {
      out := aes(key, Xor(iv, data));
      iv := out;
    }

    method FillTbl(b: Block)
      requires tbl.Length == 32
      modifies tbl
      ensures tbl[..16] == b
    {
      forall i | 0 <= i < 16 { tbl[i] := b[i]; }
    }

    /** The keyed part of Init up to the second reset: K1 and K2 from the encrypted zero block. */
    method DeriveSubkeys()
      requires Separate() && iv == ZERO_BLOCK
      modifies this`iv, tbl, k1, k2
      ensures k1[..16] == Subkey1(Keyed(aes, key)) && k2[..16] == Subkey2(Keyed(aes, key))
      ensures IsTimesX(k1[..16], aes(key, ZERO_BLOCK)) && IsTimesX(k2[..16], k1[..16])
    {
      assert Xor(ZERO_BLOCK, ZERO_BLOCK) == ZERO_BLOCK;
      var l := Encrypt(ZERO_BLOCK);
      assert l == Keyed(aes, key)(ZERO_BLOCK);
      FillTbl(l);
      MakeKn(k1, tbl, 16);
      MakeKn(k2, k1, 16);
      PackToBits(k1[..16]);
      PackToBits(k2[..16]);
      SubkeyTimes(Keyed(aes, key));
    }

    /**
     NAS_CMAC_Init. Neither key nor cipher and length 0 means restart. A cipher alone makes OpenSSL forget the
     key. A key of 16 octets completes the initialisation, if there is a cipher.
     */
    method Init(k: Option<Block>, keylen: nat, cipher: bool) returns (ok: bool)
      requires Valid()
      modifies this, k1, k2, tbl
      ensures Valid()
      ensures ok <==> (if Restarts(k, keylen, cipher) then old(nlast) >= 0
                       else k.Some? ==> (cipher || old(hasCipher)) && keylen == 16)
      ensures ok && (k.Some? || Restarts(k, keylen, cipher)) ==>
                nlast == 0 && State() == CmacStream.Stream(ZERO_BLOCK, old(lastBlock[..]), 0)
      ensures ok && k.Some? ==> keyed && key == k.value
      ensures ok && Restarts(k, keylen, cipher) ==> keyed == old(keyed) && key == old(key)
      ensures !(ok && (k.Some? || Restarts(k, keylen, cipher))) ==>
                && nlast == old(nlast) && iv == old(iv) && key == old(key) && lastBlock[..] == old(lastBlock[..])
                && hasCipher == (cipher || old(hasCipher)) && keyed == (!cipher && old(keyed))
    {
      if k.None? && !cipher && keylen == 0 {
        if nlast == -1 { return false; }
        iv := ZERO_BLOCK;
        FillTbl(ZERO_BLOCK);
        nlast := 0;
        return true;
      }
      if cipher { hasCipher, keyed := true, false; }
      if k.Some? {
        if !hasCipher { return false; }
        if keylen != 16 { return false; }
        keyed, key, iv := true, k.value, ZERO_BLOCK;
        DeriveSubkeys();
        iv := ZERO_BLOCK;
        FillTbl(ZERO_BLOCK);
        nlast := 0;
      }
      return true;
    }

    /** memcpy into last_block. */
    method CopyIn(at: nat, src: seq<Byte>)
      requires lastBlock.Length == 32
      requires src == [] || at + |src| <= 32
      modifies lastBlock
      ensures lastBlock[..] == CmacStream.Overwrite(old(lastBlock[..]), at, src)
    {
      forall i | 0 <= i < |src| { lastBlock[at + i] := src[i]; }
    }

    /** The second half of Update: encrypt all but one of the blocks left, keep the rest. */
    method AbsorbRest(data: seq<Byte>, dlen: nat)
      requires Separate() && dlen <= 8 * |data|
      modifies this`iv, this`nlast, tbl, lastBlock
      ensures 0 <= nlast <= 128
      ensures CmacStream.Stream(iv, lastBlock[..], nlast)
           == CmacStream.Absorb(Keyed(aes, key), old(iv), old(lastBlock[..]), data, dlen)
    {
      ghost var e, last0 := Keyed(aes, key), lastBlock[..];
      ghost var target := CmacStream.Absorb(e, iv, last0, data, dlen);
      CmacStream.AbsorbingStart(e, iv, last0, data, dlen);
      var left, p := dlen, 0;
      while left > 128
        invariant 0 <= p <= |data| && 0 <= left <= 8 * (|data| - p)
        invariant lastBlock[..] == last0
        invariant CmacStream.Absorbing(target, e, iv, last0, data, p, left)
      {
        CmacStream.AbsorbingStep(target, e, iv, last0, data, p, left);
        var out := Encrypt(data[p..p + 16]);
        FillTbl(out);
        left, p := left - 128, p + 16;
      }
      CmacStream.AbsorbingEnd(target, e, iv, last0, data, p, left);
      assert target == CmacStream.Stream(iv, CmacStream.Overwrite(last0, 0, data[p..p + OctetCount(left)]), left);
      CopyIn(0, data[p..p + OctetCount(left)]);
      nlast := left;
    }

    /** Complete the buffered block and chain it. */
    method ChainBuffer(src: seq<Byte>)
      requires Separate() && 0 < nlast <= 128 && (src == [] || nlast + |src| <= 32)
      modifies this`iv, this`nlast, tbl, lastBlock
      ensures lastBlock[..] == CmacStream.Overwrite(old(lastBlock[..]), old(nlast), src)
      ensures iv == Keyed(aes, key)(Xor(old(iv), lastBlock[..][..16]))
    {
      CopyIn(nlast, src);
      nlast := 128;
      assert lastBlock[..16] == lastBlock[..][..16];
      var out := Encrypt(lastBlock[..16]);
      FillTbl(out);
    }

    /** Update when the buffer holds part of a block and the data overflows it. */
    method FillAndAbsorb(data: seq<Byte>, dlen: nat)
      requires Separate() && 0 < nlast <= 128 && 128 - nlast < dlen <= 8 * |data| && CmacStream.CopyFits(nlast, dlen)
      modifies this`iv, this`nlast, tbl, lastBlock
      ensures 0 <= nlast <= 128
      ensures CmacStream.Stream(iv, lastBlock[..], nlast)
           == CmacStream.Update(Keyed(aes, key), CmacStream.Stream(old(iv), old(lastBlock[..]), old(nlast)), data, dlen)
    {
      ghost var e, st := Keyed(aes, key), CmacStream.Stream(iv, lastBlock[..], nlast);
      var nleft := 128 - nlast;
      OverflowSizes(nleft, dlen, |data|);
      ChainBuffer(data[..OctetCount(nleft)]);
      ghost var mid := CmacStream.Stream(iv, lastBlock[..], 128);
      assert mid.last == CmacStream.Overwrite(st.last, st.n, data[..OctetCount(128 - st.n)]);
      assert mid.iv == e(Xor(st.iv, mid.last[..16]));
      var rest, left := data[nleft / 8..], dlen - nleft;
      AbsorbRest(rest, left);
      CmacStream.UpdateContinues(e, st, data, dlen, mid, rest, left, CmacStream.Stream(iv, lastBlock[..], nlast));
    }

    /** Update when the buffer holds part of a block and has room for the data. */
    method Fill(data: seq<Byte>, dlen: nat)
      requires Separate() && 0 < nlast && 0 < dlen <= 128 - nlast && dlen <= 8 * |data|
      requires CmacStream.CopyFits(nlast, dlen)
      modifies this`nlast, lastBlock
      ensures 0 <= nlast <= 128
      ensures CmacStream.Stream(iv, lastBlock[..], nlast)
           == CmacStream.Update(Keyed(aes, key), CmacStream.Stream(iv, old(lastBlock[..]), old(nlast)), data, dlen)
    {
      CmacStream.UpdateFits(Keyed(aes, key), CmacStream.Stream(iv, lastBlock[..], nlast), data, dlen);
      CopyIn(nlast, data[..OctetCount(dlen)]);
      nlast := nlast + dlen;
    }

    /** NAS_CMAC_Update; `dlen` counts bits. */
    method Update(data: seq<Byte>, dlen: nat) returns (ok: bool)
      requires Ready() && dlen <= 8 * |data|
      requires nlast >= 0 ==> CmacStream.CopyFits(nlast, dlen)
      modifies this`iv, this`nlast, tbl, lastBlock
      ensures Ready()
      ensures ok <==> old(nlast) >= 0
      ensures ok ==> nlast >= 0 && State() == CmacStream.Update(Keyed(aes, key), old(State()), data, dlen)
      ensures !ok ==> nlast == old(nlast) && iv == old(iv) && lastBlock[..] == old(lastBlock[..])
    {
      if nlast == -1 { return false; }
      if dlen == 0 { return true; }
      if nlast > 0 {
        if dlen <= 128 - nlast {
          Fill(data, dlen);
        } else {
          FillAndAbsorb(data, dlen);
        }
      } else {
        AbsorbRest(data, dlen);
      }
      return true;
    }

    /** The `10*` padding of an incomplete last block, in place. */
    method PadLast()
      requires lastBlock.Length == 32 && 0 <= nlast < 128
      modifies lastBlock
      ensures lastBlock[..16] == CmacStream.PadBuffer(old(lastBlock[..]), nlast)
    {
      var lb := nlast / 8;
      if nlast % 8 == 0 {
        lastBlock[lb] := 0x80;
      } else {
        lastBlock[lb] := (lastBlock[lb] | ((1 as Byte) << (7 - nlast % 8))) & ((0xFF as Byte) << (7 - nlast % 8));
      }
      forall j | lb < j < 16 { lastBlock[j] := 0; }
    }

    method XorWith(out: array<Byte>, k: array<Byte>)
      requires out.Length >= 16 && k.Length == lastBlock.Length == 32
      requires out != k && out != lastBlock
      modifies out
      ensures out[..16] == Xor(lastBlock[..16], k[..16])
    {
      var i := 0;
      while i < 16
        invariant 0 <= i <= 16
        invariant forall j :: 0 <= j < i ==> out[j] == lastBlock[j] ^ k[j]
      {
        out[i] := lastBlock[i] ^ k[i];
        i := i + 1;
      }
    }

    /** The last block, padded if need be, and its subkey. */
    method MaskLast(out: array<Byte>)
      requires Ready() && nlast >= 0 && out.Length >= 16 && out !in {k1, k2, tbl, lastBlock}
      modifies lastBlock, out
      ensures Ready() && out[..16] == CmacStream.MaskedLast(Keyed(aes, key), old(State()))
    {
      if nlast == 128 {
        XorWith(out, k1);
        assert lastBlock[..16] == old(lastBlock[..])[..16];
      } else {
        PadLast();
        XorWith(out, k2);
      }
    }

    /** EVP_Cipher with the same input and output. */
    method EncryptInto(out: array<Byte>)
      requires Ready() && out.Length >= 16 && out !in {k1, k2, tbl, lastBlock}
      modifies this`iv, out
      ensures Ready() && out[..16] == aes(key, Xor(old(iv), old(out[..16])))
    {
      var t := Encrypt(out[..16]);
      forall j | 0 <= j < 16 { out[j] := t[j]; }
    }

    /** NAS_CMAC_Final; without an output buffer it only reports the length. The context can be restarted after it. */
    method Final(out: array?<Byte>) returns (ok: bool, outlen: nat)
      requires Ready()
      requires out != null ==> out.Length >= 16 && out !in {k1, k2, tbl, lastBlock}
      modifies this`iv, lastBlock, if out == null then {} else {out}
      ensures Ready() && nlast == old(nlast)
      ensures ok <==> old(nlast) >= 0
      ensures ok ==> outlen == 16
      ensures ok && out != null ==> out[..16] == CmacStream.Final(Keyed(aes, key), old(State()))
      ensures out == null ==> iv == old(iv) && lastBlock[..] == old(lastBlock[..])
    {
      if nlast == -1 { return false, 0; }
      outlen := 16;
      if out == null { return true, outlen; }
      MaskLast(out);
      EncryptInto(out);
      return true, outlen;
    }

    /** Final into a zeroed 16-octet buffer, as eia2 calls it. */
    method Finish() returns (mact: Block)
      requires Ready() && nlast >= 0
      modifies this`iv, lastBlock
      ensures Ready() && nlast == old(nlast)
      ensures mact == CmacStream.Final(Keyed(aes, key), old(State()))
    {
      var out := new Byte[16](_ => 0);
      var ok, outlen := Final(out);
      mact := out[..16];
    }

    /** One Update and Final on a context that stands for the empty message, whatever the buffer holds. */
    method MacFromStart(data: seq<Byte>, len: nat) returns (mact: Block)
      requires Ready() && nlast == 0 && iv == ZERO_BLOCK && len <= 8 * |data|
      modifies this`iv, this`nlast, tbl, lastBlock
      ensures Ready() && nlast >= 0
      ensures mact == Mac(Keyed(aes, key), ToBits(data)[..len])
    {
      ghost var junk := lastBlock[..];
      var ok := Update(data, len);
      mact := Finish();
      OneUpdate(Keyed(aes, key), junk, data, len);
    }

    /** The same on a used context, by way of a restart. */
    method RestartedMac(data: seq<Byte>, len: nat) returns (mact: Block)
      requires Ready() && nlast >= 0 && len <= 8 * |data|
      modifies this, k1, k2, tbl, lastBlock
      ensures Ready() && nlast >= 0 && key == old(key)
      ensures mact == Mac(Keyed(aes, key), ToBits(data)[..len])
    {
      var ok := Init(None, 0, false);
      mact := MacFromStart(data, len);
    }
  }

  // ---- 128-EIA2 ----

  /** COUNT, the low five bits of BEARER, DIRECTION and 26 zero bits: section B.2.3 of TS 33.401. */
  function HeaderBits(count: seq<Byte>, bearer: Byte, direction: bool): (s: BitString)
    requires |count| == 4
    ensures |s| == 64
  {
    ToBits(count) + HeaderTail(bearer, direction)
  }

  function Eia2Digest(aes: Aes, k: Block, count: seq<Byte>, bearer: Byte, direction: bool, m: BitString): (d: seq<Byte>)
    requires |count| == 4
    ensures |d| == 4
  {
    Mac(Keyed(aes, k), HeaderBits(count, bearer, direction) + m)[..4]
  }

  lemma HeaderOctetBits(bearer: Byte, direction: Byte, k: nat)
    requires k < 8 && direction < 2
    ensures Bit((bearer << 3) | (direction << 2), k)
         == (if k < 5 then Bit(bearer, k + 3) else k == 5 && direction == 1)
  {
    if k < 4 {
      if k == 0 {} else if k == 1 {} else if k == 2 {} else {}
    } else {
      if k == 4 {} else if k == 5 {} else if k == 6 {} else {}
    }
  }

  /** BEARER, DIRECTION and the zero bits. */
  function HeaderTail(bearer: Byte, direction: bool): (s: BitString)
    ensures |s| == 32
  {
    ToBits([bearer])[3..] + [direction] + Zeros(26)
  }

  lemma HeaderTailAt(bearer: Byte, direction: Byte, k: nat)
    requires direction < 2 && k < 32
    ensures ToBits([(bearer << 3) | (direction << 2), 0, 0, 0])[k] == HeaderTail(bearer, direction == 1)[k]
  {
    var octet := (bearer << 3) | (direction << 2);
    if k < 8 {
      HeaderOctetBits(bearer, direction, k);
      if k < 5 { BitAt([bearer], 0, k + 3); }
    } else {
      assert [octet, 0, 0, 0][k / 8] == 0;
      ConstantBits(true, k % 8);
    }
  }

  lemma HeaderOctets(count: seq<Byte>, bearer: Byte, direction: Byte)
    requires |count| == 4 && direction < 2
    ensures ToBits(count + [(bearer << 3) | (direction << 2), 0, 0, 0]) == HeaderBits(count, bearer, direction == 1)
  {
    var tail := [(bearer << 3) | (direction << 2), 0, 0, 0];
    forall k | 0 <= k < 32 ensures ToBits(tail)[k] == HeaderTail(bearer, direction == 1)[k] {
      HeaderTailAt(bearer, direction, k);
    }
    assert ToBits(tail) == HeaderTail(bearer, direction == 1);
    ToBitsConcat(count, tail);
  }

  /** The octet string S of eia2: header octets, then the message rounded up to whole octets. */
  method BuildInput(count: seq<Byte>, bearer: Byte, direction: Byte, msg: seq<Byte>, mLen: nat)
    returns (data: seq<Byte>)
    requires |count| == 4 && direction < 2 && mLen <= 8 * |msg|
    ensures 64 + mLen <= 8 * |data|
    ensures ToBits(data)[..64 + mLen] == HeaderBits(count, bearer, direction == 1) + ToBits(msg)[..mLen]
  {
    var sLen := 8 + OctetCount(mLen);
    var s := new Byte[sLen](_ => 0);
    forall i | 0 <= i < 4 { s[i] := count[i]; }
    s[4] := (bearer << 3) | (direction << 2);
    forall i | 8 <= i < sLen { s[i] := msg[i - 8]; }
    ghost var header := count + [(bearer << 3) | (direction << 2), 0, 0, 0];
    data := s[..];
    assert data == header + msg[..OctetCount(mLen)];
    HeaderOctets(count, bearer, direction);
    ToBitsConcat(header, msg[..OctetCount(mLen)]);
    ToBitsPrefix(msg, mLen);
  }

  /** Init, one Update, Final is the one-shot MAC. */
  lemma OneUpdate(e: BlockCipher, junk: CmacStream.Buffer, data: seq<Byte>, len: nat)
    requires len <= 8 * |data|
    ensures CmacStream.Final(e, CmacStream.Update(e, CmacStream.Stream(ZERO_BLOCK, junk, 0), data, len))
         == Mac(e, ToBits(data)[..len])
  {
    CmacStream.StreamingIsOneShot(e, junk, [], CmacStream.RawChunk(data, len));
    assert [] + ToBits(data)[..len] == ToBits(data)[..len];
  }

  /** The calls eia2 makes on a new context: Init, one Update, Final. */
  method MacOf(aes: Aes, k: Block, data: seq<Byte>, len: nat) returns (mact: Block)
    requires len <= 8 * |data|
    ensures mact == Mac(Keyed(aes, k), ToBits(data)[..len])
  {
    var ctx := new CmacCtx(aes);
    var ok := ctx.Init(Some(k), 16, true);
    mact := ctx.MacFromStart(data, len);
  }

  /** A context is as good as new after Final and a restart: the second result is again the one-shot MAC. */
  method MacTwice(aes: Aes, k: Block, data: seq<Byte>, len: nat, data': seq<Byte>, len': nat)
    returns (mact: Block, mact': Block)
    requires len <= 8 * |data| && len' <= 8 * |data'|
    ensures mact == Mac(Keyed(aes, k), ToBits(data)[..len])
    ensures mact' == Mac(Keyed(aes, k), ToBits(data')[..len'])
  {
    var ctx := new CmacCtx(aes);
    var ok := ctx.Init(Some(k), 16, true);
    mact := ctx.MacFromStart(data, len);
    mact' := ctx.RestartedMac(data', len');
  }

  /**
   eia2: the digest is the first 32 bits of the one-shot CMAC of the header and the first `mLen`
   bits of the message; the rest of the message buffer has no influence.
   */
  method Eia2(aes: Aes, k: Block, count: seq<Byte>, bearer: Byte, direction: Byte, msg: seq<Byte>, mLen: nat)
    returns (digest: seq<Byte>)
    requires |count| == 4 && direction < 2 && mLen <= 8 * |msg|
    ensures digest == Eia2Digest(aes, k, count, bearer, direction == 1, ToBits(msg)[..mLen])
    ensures forall s: BitString ::
              Eia2Input(s, Number(count), bearer as int % 32, direction == 1, ToBits(msg)[..mLen]) ==>
                digest == Mac(Keyed(aes, k), s)[..4]
  {
    var data := BuildInput(count, bearer, direction, msg, mLen);
    var mact := MacOf(aes, k, data, 64 + mLen);
    digest := mact[..4];
    forall s: BitString | Eia2Input(s, Number(count), bearer as int % 32, direction == 1, ToBits(msg)[..mLen])
      ensures digest == Mac(Keyed(aes, k), s)[..4]
    {
      Eia2IsExact(aes, k, count, bearer, direction == 1, ToBits(msg)[..mLen], s);
    }
  }

  /**
   The input of 128-EIA2 as section B.2.3 of TS 33.401 gives it: 32 bits of COUNT, five of BEARER, DIRECTION,
   26 zero bits and the message.
   */
  ghost predicate Eia2Input(s: BitString, count: nat, bearer: nat, down: bool, m: BitString) {
    && |s| == 64 + |m| && Value(s[..32]) == count && Value(s[32..37]) == bearer && s[37] == down
    && (forall k :: 38 <= k < 64 ==> !s[k]) && s[64..] == m
  }

  lemma HeaderParts(count: seq<Byte>, bearer: Byte, down: bool, m: BitString)
    requires |count| == 4
    ensures var h := HeaderBits(count, bearer, down) + m;
            && h[..32] == ToBits(count) && h[32..37] == ToBits([bearer])[3..] && h[37] == down
            && (forall k :: 38 <= k < 64 ==> !h[k]) && h[64..] == m
  {
    var h, t := HeaderBits(count, bearer, down) + m, HeaderTail(bearer, down);
    assert forall k :: 0 <= k < 32 ==> h[32 + k] == t[k];
    assert h[32..37] == t[..5] == ToBits([bearer])[3..];
    assert forall k :: 6 <= k < 32 ==> !t[k];
    forall k | 38 <= k < 64 ensures !h[k] { assert h[32 + (k - 32)] == t[k - 32]; }
  }

  /** Strings that agree on the parts of the input agree. */
  lemma SameParts(s: BitString, h: BitString)
    requires |s| == |h| >= 64 && s[..32] == h[..32] && s[32..37] == h[32..37] && s[37] == h[37]
    requires (forall k :: 38 <= k < 64 ==> !s[k] && !h[k]) && s[64..] == h[64..]
    ensures s == h
  {
    forall k | 0 <= k < |s| ensures s[k] == h[k] {
      if k < 32 {
        assert s[..32][k] == h[..32][k];
      } else if k < 37 {
        assert s[32..37][k - 32] == h[32..37][k - 32];
      } else if k >= 64 {
        assert s[64..][k - 64] == h[64..][k - 64];
      }
    }
  }

  /** There is only one such input, and the digest is the first four octets of its CMAC. */
  lemma Eia2IsExact(aes: Aes, k: Block, count: seq<Byte>, bearer: Byte, down: bool, m: BitString, s: BitString)
    requires |count| == 4 && Eia2Input(s, Number(count), bearer as int % 32, down, m)
    ensures Eia2Digest(aes, k, count, bearer, down, m) == Mac(Keyed(aes, k), s)[..4]
  {
    var h := HeaderBits(count, bearer, down) + m;
    HeaderParts(count, bearer, down, m);
    assert s[..32] == h[..32] by {
      ValueOfOctets(count);
      ValueInjective(s[..32], ToBits(count));
    }
    assert s[32..37] == h[32..37] by {
      ValueOfLowBits(bearer);
      ValueInjective(s[32..37], ToBits([bearer])[3..]);
    }
    SameParts(s, h);
  }

  /** Buffers that agree on the first `mLen` bits have equal digests, also inside an octet. */
  lemma DigestIgnoresTrailingBits(aes: Aes, k: Block, count: seq<Byte>, bearer: Byte, direction: bool,
                                  msg: seq<Byte>, msg': seq<Byte>, mLen: nat)
    requires |count| == 4 && mLen <= 8 * |msg| && mLen <= 8 * |msg'|
    requires forall k :: 0 <= k < mLen ==> Bit(msg[k / 8], k % 8) == Bit(msg'[k / 8], k % 8)
    ensures Eia2Digest(aes, k, count, bearer, direction, ToBits(msg)[..mLen])
         == Eia2Digest(aes, k, count, bearer, direction, ToBits(msg')[..mLen])
  {
    assert ToBits(msg)[..mLen] == ToBits(msg')[..mLen];
  }
}
