/**
 One-shot CMAC over bit strings of any length: section 2.3 and 2.4 of RFC 4493, section 6.2 of
 NIST SP 800-38B. This is the reference the streaming code is proved against; it knows nothing of
 contexts, buffers or octet counts. The block cipher under a fixed key is any function on blocks.
 */
module Cmac {
  import opened Bits

  type Block = b: seq<Byte> | |b| == 16 witness seq(16, _ => 0)

  type BlockCipher = Block -> Block

  const ZERO_BLOCK: Block := [0, 0, 0, 0, 0, 0, 0, 0, 0, 0, 0, 0, 0, 0, 0, 0]

  function Xor(a: Block, b: Block): (c: Block)
    ensures forall i :: 0 <= i < 16 ==> c[i] == a[i] ^ b[i]
  {
    seq(16, i requires 0 <= i < 16 => a[i] ^ b[i])
  }

  /** The low-order terms of the field polynomial: x^7+x^2+x+1 for 128 bits, x^4+x^3+x+1 otherwise. */
  function FieldConstant(n: nat): (s: BitString)
    requires n >= 8
    ensures |s| == n
  {
    Zeros(n - 8) + if n == 128 then [true, false, false, false, false, true, true, true]
                   else [false, false, false, true, true, false, true, true]
  }

  /** Multiplication by x in the binary field: shift left, reduce when the top coefficient falls out. */
  function Double(s: BitString): (d: BitString)
    requires |s| >= 8
    ensures |d| == |s|
  {
    var shifted := s[1..] + [false];
    if s[0] then XorBits(shifted, FieldConstant(|s|)) else shifted
  }

  function Subkey1(e: BlockCipher): Block {
    Pack(Double(ToBits(e(ZERO_BLOCK))))
  }

  function Subkey2(e: BlockCipher): Block {
    Pack(Double(Double(ToBits(e(ZERO_BLOCK)))))
  }

  /** Number of blocks; the empty message still has one. */
  function NumBlocks(m: BitString): (n: nat)
    ensures n >= 1
    ensures 128 * (n - 1) <= |m| <= 128 * n
  {
    if |m| == 0 then 1 else (|m| + 127) / 128
  }

  function BlockAt(m: BitString, i: nat): Block
    requires 128 * (i + 1) <= |m|
  {
    Pack(m[128 * i .. 128 * (i + 1)])
  }

  /** The chaining value after the first `i` blocks. */
  function Chain(e: BlockCipher, m: BitString, i: nat): Block
    requires 128 * i <= |m|
  {
    if i == 0 then ZERO_BLOCK else e(Xor(Chain(e, m, i - 1), BlockAt(m, i - 1)))
  }

  /** `10*` padding of an incomplete block. */
  function Pad(s: BitString): (t: BitString)
    requires |s| < 128
    ensures |t| == 128
  {
    s + [true] + Zeros(127 - |s|)
  }

  /** The last block, masked with K1 when it is complete, padded and masked with K2 when it is not. */
  function MaskedTail(e: BlockCipher, tail: BitString): Block
    requires |tail| <= 128
  {
    if |tail| == 128 then Xor(Pack(tail), Subkey1(e)) else Xor(Pack(Pad(tail)), Subkey2(e))
  }

  function Tail(m: BitString): (t: BitString)
    ensures |t| <= 128
  {
    m[128 * (NumBlocks(m) - 1) ..]
  }

  function Mac(e: BlockCipher, m: BitString): Block {
    e(Xor(Chain(e, m, NumBlocks(m) - 1), MaskedTail(e, Tail(m))))
  }

  /** Chaining values depend only on the blocks chained so far. */
  lemma {:induction false} ChainPrefix(e: BlockCipher, m: BitString, m': BitString, i: nat)
    requires 128 * i <= |m| && 128 * i <= |m'|
    requires m[..128 * i] == m'[..128 * i]
    ensures Chain(e, m, i) == Chain(e, m', i)
  {
    if i > 0 {
      var j := 128 * (i - 1);
      assert m[..j] == m[..128 * i][..j] == m'[..128 * i][..j] == m'[..j];
      assert m[j..128 * i] == m[..128 * i][j..] == m'[..128 * i][j..] == m'[j..128 * i];
      ChainPrefix(e, m, m', i - 1);
    }
  }

  function Pow2(n: nat): (p: nat)
    ensures p >= 1
  {
    if n == 0 then 1 else 2 * Pow2(n - 1)
  }

  lemma {:induction false} ValueBound(s: BitString)
    ensures Value(s) < Pow2(|s|)
  {
    if s != [] { ValueBound(s[..|s| - 1]); }
  }

  lemma {:induction false} ValueSplitTop(s: BitString)
    requires s != []
    ensures Value(s) == Value(s[1..]) + (if s[0] then Pow2(|s| - 1) else 0)
  {
    if |s| > 1 {
      ValueSplitTop(s[..|s| - 1]);
      assert s[..|s| - 1][1..] == s[1..][..|s[1..]| - 1];
    } else {
      assert s[1..] == [] && s[..0] == [];
    }
  }

  lemma {:induction false} ValueLeadingZeros(n: nat, s: BitString)
    ensures Value(Zeros(n) + s) == Value(s)
  {
    var z := Zeros(n) + s;
    if n == 0 {
      assert z == s;
    } else {
      ValueSplitTop(z);
      assert z[1..] == Zeros(n - 1) + s;
      ValueLeadingZeros(n - 1, s);
    }
  }

  /** Shifting left doubles the value and drops what falls out at the top. */
  lemma ValueShiftSum(s: BitString)
    requires s != []
    ensures 2 * Value(s) == Value(s[1..] + [false]) + (if s[0] then Pow2(|s|) else 0)
    ensures Value(s[1..] + [false]) < Pow2(|s|)
  {
    var t := s[1..] + [false];
    assert t[..|t| - 1] == s[1..];
    ValueSplitTop(s);
    ValueBound(t);
  }

  lemma ModOfSum(x: nat, y: nat, q: nat)
    requires y < q && (x == y || x == y + q)
    ensures x % q == y
  {
  }

  lemma ValueShift(s: BitString)
    requires s != []
    ensures Value(s[1..] + [false]) == (2 * Value(s)) % Pow2(|s|)
  {
    ValueShiftSum(s);
    ModOfSum(2 * Value(s), Value(s[1..] + [false]), Pow2(|s|));
  }

  function One(b: bool): nat {
    if b then 1 else 0
  }

  /** The numbers of all prefixes, each twice the one before plus the next bit. */
  lemma {:induction false} Horner(c: BitString) returns (vs: seq<nat>)
    ensures |vs| == |c| + 1 && vs[0] == 0 && vs[|c|] == Value(c)
    ensures forall k :: 0 <= k < |c| ==> vs[k + 1] == 2 * vs[k] + One(c[k])
  {
    if c == [] {
      vs := [0];
    } else {
      var n := |c| - 1;
      var us := Horner(c[..n]);
      vs := us + [Value(c)];
      assert forall k :: 0 <= k < n ==> c[..n][k] == c[k];
    }
  }

  lemma HornerFour(c: BitString, vs: seq<nat>, k: nat)
    requires |vs| == |c| + 1 && k + 4 <= |c|
    requires forall k :: 0 <= k < |c| ==> vs[k + 1] == 2 * vs[k] + One(c[k])
    ensures vs[k + 4] == 16 * vs[k] + 8 * One(c[k]) + 4 * One(c[k + 1]) + 2 * One(c[k + 2]) + One(c[k + 3])
  {
    assert vs[k + 1] == 2 * vs[k] + One(c[k]);
    assert vs[k + 1 + 1] == 2 * vs[k + 1] + One(c[k + 1]);
    assert vs[k + 2 + 1] == 2 * vs[k + 2] + One(c[k + 2]);
    assert vs[k + 3 + 1] == 2 * vs[k + 3] + One(c[k + 3]);
  }

  /** The number eight bits denote. */
  lemma ValueOctet(c: BitString)
    requires |c| == 8
    ensures Value(c) == 128 * One(c[0]) + 64 * One(c[1]) + 32 * One(c[2]) + 16 * One(c[3])
                        + 8 * One(c[4]) + 4 * One(c[5]) + 2 * One(c[6]) + One(c[7])
  {
    var vs := Horner(c);
    HornerFour(c, vs, 0);
    HornerFour(c, vs, 4);
  }

  lemma ValueOfConstant(n: nat)
    requires n >= 8
    ensures Value(FieldConstant(n)) == if n == 128 then 0x87 else 0x1b
  {
    var c := FieldConstant(n)[n - 8..];
    assert FieldConstant(n) == Zeros(n - 8) + c;
    ValueLeadingZeros(n - 8, c);
    ValueOctet(c);
  }

  /** Exclusive or of numbers, bit by bit. */
  function XorNumbers(a: nat, b: nat): nat {
    if a == 0 && b == 0 then 0 else 2 * XorNumbers(a / 2, b / 2) + (if a % 2 != b % 2 then 1 else 0)
  }

  lemma XorNumbersStep(x: nat, p: nat, y: nat, q: nat)
    requires p < 2 && q < 2
    ensures XorNumbers(2 * x + p, 2 * y + q) == 2 * XorNumbers(x, y) + (if p != q then 1 else 0)
  {
    assert (2 * x + p) / 2 == x && (2 * y + q) / 2 == y;
    assert (2 * x + p) % 2 == p && (2 * y + q) % 2 == q;
  }

  lemma {:induction false} ValueOfXor(a: BitString, b: BitString)
    requires |a| == |b|
    ensures Value(XorBits(a, b)) == XorNumbers(Value(a), Value(b))
  {
    if a != [] {
      var n := |a| - 1;
      ValueOfXor(a[..n], b[..n]);
      assert XorBits(a, b)[..n] == XorBits(a[..n], b[..n]);
      XorNumbersStep(Value(a[..n]), if a[n] then 1 else 0, Value(b[..n]), if b[n] then 1 else 0);
    }
  }

  /**
   Doubling, read as numbers: 2 L if that has no more bits, otherwise 2 L without the top bit xored with 0x87, or
   with 0x1b where the block has not 128 bits.
   */
  lemma DoubleAsNumber(s: BitString)
    requires |s| >= 8
    ensures Value(Double(s)) ==
              if 2 * Value(s) < Pow2(|s|) then 2 * Value(s)
              else XorNumbers((2 * Value(s)) % Pow2(|s|), if |s| == 128 then 0x87 else 0x1b)
  {
    ValueOfConstant(|s|);
    ValueShift(s);
    ValueShiftSum(s);
    ValueOfXor(s[1..] + [false], FieldConstant(|s|));
  }

  /** Doubling can be undone, so distinct values of L give distinct subkeys. */
  lemma DoubleInjective(s: BitString, t: BitString)
    requires |s| == |t| == 128
    requires Double(s) == Double(t)
    ensures s == t
  {
    assert Double(s)[127] == s[0];
    assert Double(t)[127] == t[0];
    forall k | 0 <= k < 128 ensures s[k] == t[k] {
      if k > 0 { assert Double(s)[k - 1] == Double(t)[k - 1]; }
    }
  }

  // ---- the MAC without the names it is defined by ----

  /** Multiplication by x of section 2.3 of RFC 4493, on numbers below 2^128. */
  function TimesX(n: nat): nat {
    if 2 * n < Pow2(128) then 2 * n else XorNumbers((2 * n) % Pow2(128), 0x87)
  }

  /** `k` denotes `l` times x. Quantified over the number, so that it stays folded in proofs. */
  ghost predicate IsTimesX(k: Block, l: Block) {
    forall n :: n == Value(ToBits(l)) ==> Value(ToBits(k)) == TimesX(n)
  }

  lemma {:induction false} ValueInjective(s: BitString, t: BitString)
    requires |s| == |t| && Value(s) == Value(t)
    ensures s == t
  {
    if s != [] {
      var n := |s| - 1;
      assert Value(s[..n]) == Value(t[..n]) && s[n] == t[n];
      ValueInjective(s[..n], t[..n]);
      assert s == s[..n] + [s[n]] && t == t[..n] + [t[n]];
    }
  }

  lemma SameNumber(a: Block, b: Block)
    requires Value(ToBits(a)) == Value(ToBits(b))
    ensures a == b
  {
    ValueInjective(ToBits(a), ToBits(b));
    SameBitsSameBytes(a, b);
  }

  lemma PackedDouble(s: BitString)
    requires |s| == 128
    ensures Value(ToBits(Pack(Double(s)))) == TimesX(Value(s))
  {
    ToBitsPack(Double(s));
    DoubleAsNumber(s);
  }

  /** K1 is L times x and K2 is L times x twice, where L encrypts the zero block. */
  lemma SubkeyNumbers(e: BlockCipher)
    ensures Value(ToBits(Subkey1(e))) == TimesX(Value(ToBits(e(ZERO_BLOCK))))
    ensures Value(ToBits(Subkey2(e))) == TimesX(TimesX(Value(ToBits(e(ZERO_BLOCK)))))
  {
    var l := ToBits(e(ZERO_BLOCK));
    PackedDouble(l);
    PackedDouble(Double(l));
    DoubleAsNumber(l);
  }

  lemma SubkeyTimes(e: BlockCipher)
    ensures IsTimesX(Subkey1(e), e(ZERO_BLOCK)) && IsTimesX(Subkey2(e), Subkey1(e))
  {
    SubkeyNumbers(e);
  }

  /** The chaining values of cipher block chaining over all blocks of `m` but the last. */
  ghost predicate Chained(e: BlockCipher, m: BitString, cs: seq<Block>) {
    && |cs| >= 1 && 128 * (|cs| - 1) <= |m| <= 128 * |cs| && (|cs| > 1 ==> 128 * (|cs| - 1) < |m|)
    && (forall j :: 0 <= j < 16 ==> cs[0][j] == 0)
    && forall i :: 0 <= i < |cs| - 1 ==> cs[i + 1] == e(Xor(cs[i], Pack(m[128 * i..128 * i + 128])))
  }

  lemma {:induction false} ChainedIsChain(e: BlockCipher, m: BitString, cs: seq<Block>, i: nat)
    requires Chained(e, m, cs) && i < |cs|
    ensures 128 * i <= |m| && cs[i] == Chain(e, m, i)
  {
    if i == 0 {
      assert cs[0] == ZERO_BLOCK;
    } else {
      ChainedIsChain(e, m, cs, i - 1);
      assert cs[i - 1 + 1] == e(Xor(cs[i - 1], Pack(m[128 * (i - 1)..128 * (i - 1) + 128])));
    }
  }

  /** `10*` padding of an incomplete last block, nothing for a complete one. */
  function PaddedTail(last: BitString): (t: BitString)
    requires |last| <= 128
    ensures |t| == 128
  {
    if |last| == 128 then last else last + [true] + Zeros(127 - |last|)
  }

  lemma MacUnfolds(e: BlockCipher, m: BitString, n: nat, x: Block)
    requires 128 * n <= |m| <= 128 * n + 128 && (n > 0 ==> 128 * n < |m|)
    requires x == if |m| == 128 * n + 128 then Subkey1(e) else Subkey2(e)
    ensures Mac(e, m) == e(Xor(Chain(e, m, n), Xor(Pack(PaddedTail(m[128 * n..])), x)))
  {
    assert NumBlocks(m) == n + 1;
  }

  /**
   Section 2.4 of RFC 4493: with the chaining values of the blocks before, the last block is masked with the
   block that denotes L times x when it is complete, and padded and masked with L times x twice when it is not.
   */
  lemma MacIsCmac(e: BlockCipher, m: BitString, cs: seq<Block>, x: Block)
    requires Chained(e, m, cs)
    requires var l := Value(ToBits(e(cs[0])));
             Value(ToBits(x)) == if |m| == 128 * |cs| then TimesX(l) else TimesX(TimesX(l))
    ensures var last := m[128 * (|cs| - 1)..];
            var block := if |last| == 128 then last else last + [true] + Zeros(127 - |last|);
            Mac(e, m) == e(Xor(cs[|cs| - 1], Xor(Pack(block), x)))
  {
    var n := |cs| - 1;
    assert cs[0] == ZERO_BLOCK by { ChainedIsChain(e, m, cs, 0); }
    assert cs[n] == Chain(e, m, n) by { ChainedIsChain(e, m, cs, n); }
    MaskIs(e, |m| == 128 * |cs|, x);
    MacUnfolds(e, m, n, x);
  }

  lemma MaskIs(e: BlockCipher, whole: bool, x: Block)
    requires var l := Value(ToBits(e(ZERO_BLOCK))); Value(ToBits(x)) == if whole then TimesX(l) else TimesX(TimesX(l))
    ensures x == if whole then Subkey1(e) else Subkey2(e)
  {
    SubkeyNumbers(e);
    SameNumber(x, if whole then Subkey1(e) else Subkey2(e));
  }
}
