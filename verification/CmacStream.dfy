/**
 The streaming state of NAS/src/eia2.c as a value, and what one Update and one Final do to it.
 `last` is the 32-octet last_block buffer, `n` the number of BITS it holds (nlast_block), `iv` the
 chaining value kept in the cipher context.
 */
module CmacStream {
  import opened Common
  import opened Bits
  import opened Cmac

  type Buffer = b: seq<Byte> | |b| == 32 witness seq(32, _ => 0)

  datatype Stream = Stream(iv: Block, last: Buffer, n: nat)

  /** memcpy(buf + at, data, |data|). A copy of nothing touches nothing, wherever it points. */
  function Overwrite(buf: Buffer, at: nat, data: seq<Byte>): (r: Buffer)
    requires data == [] || at + |data| <= 32
    ensures data != [] ==> r[at..at + |data|] == data
    ensures forall i :: 0 <= i < 32 && !(at <= i < at + |data|) ==> r[i] == buf[i]
  {
    if data == [] then buf else buf[..at] + data + buf[at + |data|..]
  }

  /** The copy at line 152 stays inside last_block. It is placed at octet `n`, though `n` counts bits. */
  predicate CopyFits(n: nat, dlen: nat) {
    0 < n <= 128 && dlen > 0 ==>
      var nleft := Min(dlen, 128 - n);
      nleft == 0 || n + OctetCount(nleft) <= 32
  }

  /** Encrypt all but one of the blocks left, then keep the rest. */
  function Absorb(e: BlockCipher, iv: Block, last: Buffer, data: seq<Byte>, dlen: nat): (r: Stream)
    requires dlen <= 8 * |data|
    ensures r.n <= 128 && r.n % 128 == dlen % 128
    decreases dlen
  {
    if dlen > 128 then
      Absorb(e, e(Xor(iv, data[..16])), last, data[16..], dlen - 128)
    else
      Stream(iv, Overwrite(last, 0, data[..OctetCount(dlen)]), dlen)
  }

  lemma LessOneBlock(a: nat)
    requires a >= 128
    ensures (a - 128) % 128 == a % 128
  {
  }

  function Update(e: BlockCipher, st: Stream, data: seq<Byte>, dlen: nat): (r: Stream)
    requires st.n <= 128 && dlen <= 8 * |data|
    requires CopyFits(st.n, dlen)
    ensures r.n <= 128 && r.n % 128 == (st.n + dlen) % 128
  {
    if dlen == 0 then st
    else if st.n == 0 then Absorb(e, st.iv, st.last, data, dlen)
    else
      var nleft := Min(dlen, 128 - st.n);
      var last := Overwrite(st.last, st.n, data[..OctetCount(nleft)]);
      if dlen == nleft then Stream(st.iv, last, st.n + nleft)
      else LessOneBlock(st.n + dlen); Absorb(e, e(Xor(st.iv, last[..16])), last, data[nleft / 8..], dlen - nleft)
  }

  /** Update on a partly filled buffer, for more than it has room for. */
  lemma UpdateOverflows(e: BlockCipher, st: Stream, data: seq<Byte>, dlen: nat)
    requires 0 < st.n <= 128 && 128 - st.n < dlen <= 8 * |data| && CopyFits(st.n, dlen)
    ensures var last := Overwrite(st.last, st.n, data[..OctetCount(128 - st.n)]);
            Update(e, st, data, dlen) ==
              Absorb(e, e(Xor(st.iv, last[..16])), last, data[(128 - st.n) / 8..], dlen - (128 - st.n))
  {
  }

  /** The same, for states: the buffer is completed and chained, the rest is absorbed. */
  lemma UpdateContinues(e: BlockCipher, st: Stream, data: seq<Byte>, dlen: nat, mid: Stream, rest: seq<Byte>,
                        left: nat, end: Stream)
    requires 0 < st.n <= 128 && 128 - st.n < dlen <= 8 * |data| && CopyFits(st.n, dlen)
    requires mid.last == Overwrite(st.last, st.n, data[..OctetCount(128 - st.n)])
    requires mid.iv == e(Xor(st.iv, mid.last[..16]))
    requires left == dlen - (128 - st.n) && rest == data[(128 - st.n) / 8..] && left <= 8 * |rest|
    requires end == Absorb(e, mid.iv, mid.last, rest, left)
    ensures end == Update(e, st, data, dlen)
  {
    UpdateOverflows(e, st, data, dlen);
  }

  /** Update on a partly filled buffer, for no more than it has room for. */
  lemma UpdateFits(e: BlockCipher, st: Stream, data: seq<Byte>, dlen: nat)
    requires 0 < st.n <= 128 && 0 < dlen <= 128 - st.n && dlen <= 8 * |data| && CopyFits(st.n, dlen)
    ensures Update(e, st, data, dlen) == Stream(st.iv, Overwrite(st.last, st.n, data[..OctetCount(dlen)]), st.n + dlen)
  {
  }

  /** Before the block at octet `p`: what is left makes the target of the state so far. */
  ghost predicate Absorbing(target: Stream, e: BlockCipher, iv: Block, last: Buffer, data: seq<Byte>, p: nat,
                            left: nat) {
    && p <= |data| && left <= 8 * (|data| - p)
    && target == Absorb(e, iv, last, data[p..], left)
  }

  lemma AbsorbingStart(e: BlockCipher, iv: Block, last: Buffer, data: seq<Byte>, dlen: nat)
    requires dlen <= 8 * |data|
    ensures Absorbing(Absorb(e, iv, last, data, dlen), e, iv, last, data, 0, dlen)
  {
    assert data[0..] == data;
  }

  lemma AbsorbingStep(target: Stream, e: BlockCipher, iv: Block, last: Buffer, data: seq<Byte>, p: nat, left: nat)
    requires Absorbing(target, e, iv, last, data, p, left) && left > 128
    ensures Absorbing(target, e, e(Xor(iv, data[p..p + 16])), last, data, p + 16, left - 128)
  {
    assert data[p..][..16] == data[p..p + 16] && data[p..][16..] == data[p + 16..];
  }

  lemma AbsorbingEnd(target: Stream, e: BlockCipher, iv: Block, last: Buffer, data: seq<Byte>, p: nat, left: nat)
    requires Absorbing(target, e, iv, last, data, p, left) && left <= 128
    ensures p + OctetCount(left) <= |data| && OctetCount(left) <= 16
    ensures target == Stream(iv, Overwrite(last, 0, data[p..p + OctetCount(left)]), left)
  {
    assert data[p..][..OctetCount(left)] == data[p..p + OctetCount(left)];
  }

  /** The last octet in use, with the `10*` padding set after its first `r` bits. */
  function PadOctet(b: Byte, r: nat): Byte
    requires r < 8
  {
    if r == 0 then 0x80 else (b | ((1 as Byte) << (7 - r))) & ((0xFF as Byte) << (7 - r))
  }

  /** last_block as Final leaves it when the block is not complete. */
  function PadBuffer(last: Buffer, n: nat): (r: Block)
    requires n < 128
  {
    last[..n / 8] + [PadOctet(last[n / 8], n % 8)] + seq(15 - n / 8, _ => 0)
  }

  /** The last block with its subkey: K1 on a complete one, K2 on a padded one. */
  function MaskedLast(e: BlockCipher, st: Stream): Block
    requires st.n <= 128
  {
    if st.n == 128 then Xor(st.last[..16], Subkey1(e)) else Xor(PadBuffer(st.last, st.n), Subkey2(e))
  }

  function Final(e: BlockCipher, st: Stream): Block
    requires st.n <= 128
  {
    e(Xor(st.iv, MaskedLast(e, st)))
  }

  /** The state stands for message `m`: all blocks but the last are chained, the last one is buffered. */
  ghost predicate Holds(e: BlockCipher, st: Stream, m: BitString) {
    && st.n == |Tail(m)|
    && st.iv == Chain(e, m, NumBlocks(m) - 1)
    && ToBits(st.last)[..st.n] == Tail(m)
  }

  lemma PadOctetBits(b: Byte, r: nat, k: nat)
    requires r < 8 && k < 8
    ensures Bit(PadOctet(b, r), k) == (if k < r then Bit(b, k) else k == r)
  {
    if r < 4 {
      if r == 0 {} else if r == 1 {} else if r == 2 {} else {}
    } else {
      if r == 4 {} else if r == 5 {} else if r == 6 {} else {}
    }
  }

  /** The octet-level padding of Final is the bit-level padding of the reference. */
  lemma PadBufferIsPad(last: Buffer, n: nat)
    requires n < 128
    ensures PadBuffer(last, n) == Pack(Pad(ToBits(last)[..n]))
  {
    var p := PadBuffer(last, n);
    var q := Pad(ToBits(last)[..n]);
    forall k | 0 <= k < 128 ensures ToBits(p)[k] == q[k] {
      if k / 8 == n / 8 {
        PadOctetBits(last[n / 8], n % 8, k % 8);
      }
    }
    assert ToBits(p) == q;
    PackToBits(p);
  }

  /** Final of a state that stands for `m` is the one-shot MAC of `m`. */
  lemma FinalIsMac(e: BlockCipher, st: Stream, m: BitString)
    requires Holds(e, st, m)
    ensures Final(e, st) == Mac(e, m)
  {
    if st.n == 128 {
      ToBitsSlice(st.last, 0, 16);
      PackToBits(st.last[..16]);
    } else {
      PadBufferIsPad(st.last, st.n);
    }
  }

  lemma BufferHolds(last: Buffer, data: seq<Byte>, n: nat)
    requires n <= 128 && n <= 8 * |data|
    ensures OctetCount(n) <= |data| && OctetCount(n) <= 16
    ensures ToBits(Overwrite(last, 0, data[..OctetCount(n)]))[..n] == ToBits(data)[..n]
  {
    var r := Overwrite(last, 0, data[..OctetCount(n)]);
    forall k | 0 <= k < n ensures ToBits(r)[k] == ToBits(data)[k] {
      assert r[k / 8] == data[k / 8];
    }
  }

  /** The first 128 bits of the data are block `i` of the message; the rest of the data is the rest. */
  lemma FirstBlock(data: seq<Byte>, dlen: nat, m: BitString, i: nat)
    requires 128 < dlen <= 8 * |data|
    requires |m| == 128 * i + dlen
    requires ToBits(data)[..dlen] == m[128 * i..]
    ensures data[..16] == BlockAt(m, i)
    ensures ToBits(data[16..])[..dlen - 128] == m[128 * (i + 1)..]
  {
    var t := m[128 * i..];
    assert ToBits(data[..16]) == m[128 * i..128 * (i + 1)] by {
      ToBitsSlice(data, 0, 16);
      assert ToBits(data)[0..128] == t[..128];
    }
    PackToBits(data[..16]);
    ToBitsSlice(data, 16, |data|);
    assert data[16..|data|] == data[16..];
    assert ToBits(data)[128..dlen] == t[128..] == m[128 * (i + 1)..];
  }

  lemma BlockCount(m: BitString, i: nat, rest: nat)
    requires |m| == 128 * i + rest && 0 < rest <= 128
    ensures NumBlocks(m) == i + 1 && Tail(m) == m[128 * i..]
  {
  }

  lemma LastBlock(e: BlockCipher, iv: Block, last: Buffer, data: seq<Byte>, dlen: nat, m: BitString, i: nat)
    requires 0 < dlen <= 8 * |data| && dlen <= 128
    requires |m| == 128 * i + dlen && iv == Chain(e, m, i)
    requires ToBits(data)[..dlen] == m[128 * i..]
    ensures OctetCount(dlen) <= |data| && OctetCount(dlen) <= 32
    ensures Holds(e, Stream(iv, Overwrite(last, 0, data[..OctetCount(dlen)]), dlen), m)
  {
    BufferHolds(last, data, dlen);
    BlockCount(m, i, dlen);
  }

  lemma {:induction false} AbsorbHolds(e: BlockCipher, iv: Block, last: Buffer, data: seq<Byte>, dlen: nat,
                                       m: BitString, i: nat)
    requires 0 < dlen <= 8 * |data|
    requires |m| == 128 * i + dlen && iv == Chain(e, m, i)
    requires ToBits(data)[..dlen] == m[128 * i..]
    ensures Holds(e, Absorb(e, iv, last, data, dlen), m)
    decreases dlen
  {
    if dlen > 128 {
      FirstBlock(data, dlen, m, i);
      var iv' := Chain(e, m, i + 1);
      AbsorbHolds(e, iv', last, data[16..], dlen - 128, m, i + 1);
      assert Absorb(e, iv, last, data, dlen) == Absorb(e, iv', last, data[16..], dlen - 128);
    } else {
      LastBlock(e, iv, last, data, dlen, m, i);
    }
  }

  /** A full buffer is the last block of the message so far, and chaining it completes the message. */
  lemma FullBuffer(e: BlockCipher, st: Stream, m: BitString, i: nat)
    requires Holds(e, st, m) && |m| == 128 * i && i > 0
    ensures st.n == 128 && e(Xor(st.iv, st.last[..16])) == Chain(e, m, i)
  {
    BlockCount(m, i - 1, 128);
    assert m[128 * (i - 1)..] == m[128 * (i - 1)..128 * i];
    assert st.last[..16] == BlockAt(m, i - 1) by {
      ToBitsSlice(st.last, 0, 16);
      assert ToBits(st.last[..16]) == ToBits(st.last)[..128];
      PackToBits(st.last[..16]);
    }
  }

  lemma UpdateOfFull(e: BlockCipher, st: Stream, data: seq<Byte>, dlen: nat)
    requires st.n == 128 && 0 < dlen <= 8 * |data|
    ensures CopyFits(st.n, dlen)
    ensures Update(e, st, data, dlen) == Absorb(e, e(Xor(st.iv, st.last[..16])), st.last, data, dlen)
  {
    assert data[..0] == [] && data[0..] == data;
  }

  /** Update extends the message it stands for, whenever that message is a whole number of blocks. */
  lemma UpdateHolds(e: BlockCipher, st: Stream, m: BitString, data: seq<Byte>, dlen: nat)
    requires Holds(e, st, m) && |m| % 128 == 0
    requires dlen <= 8 * |data|
    ensures CopyFits(st.n, dlen)
    ensures Holds(e, Update(e, st, data, dlen), m + ToBits(data)[..dlen])
  {
    var m' := m + ToBits(data)[..dlen];
    if dlen == 0 {
      assert m' == m;
    } else {
      var i := |m| / 128;
      assert m'[128 * i..] == ToBits(data)[..dlen];
      assert m'[..128 * i] == m == m[..128 * i];
      ChainPrefix(e, m, m', i);
      AbsorbHolds(e, Chain(e, m', i), st.last, data, dlen, m', i);
      if i > 0 {
        FullBuffer(e, st, m, i);
        UpdateOfFull(e, st, data, dlen);
      }
    }
  }

  /** The same for an Update that may bring nothing. */
  lemma HoldsMore(e: BlockCipher, st: Stream, m: BitString, data: seq<Byte>, dlen: nat)
    requires Holds(e, st, m) && dlen <= 8 * |data| && CopyFits(st.n, dlen) && (dlen > 0 ==> |m| % 128 == 0)
    ensures Holds(e, Update(e, st, data, dlen), m + ToBits(data)[..dlen])
  {
    if dlen == 0 {
      assert m + ToBits(data)[..dlen] == m;
    } else {
      UpdateHolds(e, st, m, data, dlen);
    }
  }

  // ---- whole runs: Init, any number of Updates, Final ----

  datatype RawChunk = RawChunk(data: seq<Byte>, len: nat)

  /** One Update's arguments: an octet buffer and a length in bits. */
  type Chunk = c: RawChunk | c.len <= 8 * |c.data| witness RawChunk([], 0)

  /** A chunk of a whole number of blocks (none included). */
  type WholeChunk = c: Chunk | c.len % 128 == 0 witness RawChunk([], 0)

  function ChunkBits(c: Chunk): BitString {
    ToBits(c.data)[..c.len]
  }

  function Joined(chunks: seq<WholeChunk>): (m: BitString)
    ensures |m| % 128 == 0
  {
    if chunks == [] then [] else Joined(chunks[..|chunks| - 1]) + ChunkBits(chunks[|chunks| - 1])
  }

  /** The state after Init and these Updates; `junk` is what malloc left in last_block. */
  function Run(e: BlockCipher, junk: Buffer, chunks: seq<WholeChunk>): (r: Stream)
    ensures r.n == 0 || r.n == 128
  {
    if chunks == [] then
      Stream(ZERO_BLOCK, junk, 0)
    else
      var c := chunks[|chunks| - 1];
      Update(e, Run(e, junk, chunks[..|chunks| - 1]), c.data, c.len)
  }

  lemma EmptyHolds(e: BlockCipher, junk: Buffer)
    ensures Holds(e, Stream(ZERO_BLOCK, junk, 0), [])
  {
  }

  lemma {:induction false} RunHolds(e: BlockCipher, junk: Buffer, chunks: seq<WholeChunk>)
    ensures Holds(e, Run(e, junk, chunks), Joined(chunks))
  {
    if chunks == [] {
      EmptyHolds(e, junk);
    } else {
      var front, c := chunks[..|chunks| - 1], chunks[|chunks| - 1];
      RunHolds(e, junk, front);
      UpdateHolds(e, Run(e, junk, front), Joined(front), c.data, c.len);
    }
  }

  /**
   Streaming equals one-shot: any number of Updates of whole blocks, one Update of any length, then
   Final. With no whole chunks this is Init, one Update, Final.
   */
  lemma StreamingIsOneShot(e: BlockCipher, junk: Buffer, chunks: seq<WholeChunk>, c: Chunk)
    ensures Final(e, Update(e, Run(e, junk, chunks), c.data, c.len)) == Mac(e, Joined(chunks) + ChunkBits(c))
  {
    var st := Run(e, junk, chunks);
    RunHolds(e, junk, chunks);
    UpdateHolds(e, st, Joined(chunks), c.data, c.len);
    FinalIsMac(e, Update(e, st, c.data, c.len), Joined(chunks) + ChunkBits(c));
  }
}
