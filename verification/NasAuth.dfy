/**
 What nas_authenticateMsg decides, for every message and every valid context: which COUNT it uses, which octets it
 compares with which part of the MAC, and the service request with its five-bit sequence number and short MAC
 (sections 4.4.3.1, 8.2.25 and 9.9.3.28 of TS 24.301).
 */
module NasAuth {
  import opened Octets
  import opened NasSecurity
  import NasRuns

  /** The expected COUNT, in the 24 bits that are used. */
  function Expected(ctx: Ctx, d: Direction): (c: nat)
    ensures c < COUNT_LIMIT
  {
    CountOf(ctx, d) % COUNT_LIMIT
  }

  /** `c` is one of the ten COUNTs from `base` on, in the same block of `width`, with this sequence number. */
  predicate InBlock(base: nat, c: nat, width: nat, sqn: nat)
    requires width > 0
  {
    base <= c < base + 10 && c / width == base / width && c % width == sqn
  }

  lemma LowBits(last: nat)
    ensures last % COUNT_LIMIT % 256 == last % 256 && last % COUNT_LIMIT % 32 == last % 32
    ensures last % COUNT_LIMIT % COUNT_LIMIT == last % COUNT_LIMIT
  {
    var q, r := last / COUNT_LIMIT, last % COUNT_LIMIT;
    assert last == 256 * (0x1_0000 * q) + r && last == 32 * (0x8_0000 * q) + r;
    AddBlocks(r, 0x1_0000 * q);
    AddShortBlocks(r, 0x8_0000 * q);
  }

  lemma AddBlocks(r: nat, q: nat)
    ensures (256 * q + r) % 256 == r % 256
  {
  }

  lemma AddShortBlocks(r: nat, q: nat)
    ensures (32 * q + r) % 32 == r % 32
  {
  }

  /** The counter and its 24-bit part look the same to the window and to the reconstruction. */
  lemma BaseSuffices(last: Count, base: Count, recv: Octet)
    requires base == last % COUNT_LIMIT
    ensures CheckCount(last, recv) == CheckCount(base, recv) && Rebuild(last, recv) == Rebuild(base, recv)
    ensures CheckCountShort(last, recv) == CheckCountShort(base, recv)
    ensures recv < 32 ==> RebuildShort(last, recv) == RebuildShort(base, recv)
  {
    LowBits(last);
  }

  lemma BlockIsRebuilt(base: Count, c: nat, recv: Octet)
    requires base < COUNT_LIMIT
    ensures InBlock(base, c, 256, recv) <==> CheckCount(base, recv) && c == Rebuild(base, recv)
  {
    NasRuns.WindowIsExact(base, recv);
    assert base % COUNT_LIMIT == base;
    assert Rebuild(base, recv) / 256 == base / 256;
  }

  lemma ShortBlockIsRebuilt(base: Count, c: nat, recv: Octet)
    requires base < COUNT_LIMIT && recv < 32
    ensures InBlock(base, c, 32, recv) <==> CheckCountShort(base, recv) && c == RebuildShort(base, recv)
  {
    NasRuns.WindowIsExact(base, recv);
    assert base % COUNT_LIMIT == base;
    assert RebuildShort(base, recv) / 32 == base / 32;
  }

  /** Accepted with COUNT `c`, or refused with nothing changed. */
  function Verdict(ctx: Ctx, d: Direction, c: Count, good: bool): Auth
    requires c + 1 < U32
  {
    if good then Auth(1, true, WithCount(ctx, d, c + 1)) else Auth(1, false, ctx)
  }

  /** Header types 1 to 4: the MAC is in octets 1 to 4 and covers the octets behind it. */
  lemma LongIsExact(eia2: Eia2, ctx: Ctx, buf: seq<Octet>, d: Direction, c: Count)
    requires ctx.isValid && |buf| >= 6 && 1 <= buf[0] / 16 <= 4
    ensures InBlock(Expected(ctx, d), c, 256, buf[5]) ==>
              && c + 1 < U32
              && Authenticated(eia2, ctx, buf, d)
                 == Verdict(ctx, d, c, ctx.i == 0 || buf[1..5] == eia2(ctx.ikey, c, d, buf[5..]))
    ensures (forall c': nat :: !InBlock(Expected(ctx, d), c', 256, buf[5])) ==>
              Authenticated(eia2, ctx, buf, d) == Auth(2, false, ctx)
  {
    var last, base := CountOf(ctx, d), Expected(ctx, d);
    BaseSuffices(last, base, buf[5]);
    BlockIsRebuilt(base, c, buf[5]);
    BlockIsRebuilt(base, Rebuild(base, buf[5]), buf[5]);
  }

  /** A service request: the short MAC is octets 2 and 3, the last two of the MAC of octets 0 and 1. */
  lemma ShortIsExact(eia2: Eia2, ctx: Ctx, buf: seq<Octet>, d: Direction, c: Count)
    requires ctx.isValid && |buf| >= 4 && buf[0] / 16 == 12
    ensures InBlock(Expected(ctx, d), c, 32, buf[1] % 32) ==>
              && c + 1 < U32
              && var mac := eia2(ctx.ikey, c, d, [buf[0], buf[1]]);
                 Authenticated(eia2, ctx, buf, d)
                 == Verdict(ctx, d, c, ctx.i == 0 || (buf[2] == mac[2] && buf[3] == mac[3]))
    ensures (forall c': nat :: !InBlock(Expected(ctx, d), c', 32, buf[1] % 32)) ==>
              Authenticated(eia2, ctx, buf, d) == Auth(2, false, ctx)
  {
    var last, base, sqn := CountOf(ctx, d), Expected(ctx, d), buf[1] % 32;
    BaseSuffices(last, base, sqn);
    ShortBlockIsRebuilt(base, c, sqn);
    ShortBlockIsRebuilt(base, RebuildShort(base, sqn), sqn);
    assert buf[..2] == [buf[0], buf[1]];
    ShortMacs(buf, eia2(ctx.ikey, c, d, [buf[0], buf[1]]));
  }

  lemma ShortMacs(buf: seq<Octet>, mac: Mac4)
    requires |buf| >= 4
    ensures buf[2..4] == mac[2..] <==> buf[2] == mac[2] && buf[3] == mac[3]
  {
    assert buf[2..4] == [buf[2], buf[3]] && mac[2..] == [mac[2], mac[3]];
  }

  /** Without a context, on a plain message and on any other header type nothing is checked and nothing changes. */
  lemma OthersAreRefused(eia2: Eia2, ctx: Ctx, buf: seq<Octet>, d: Direction)
    requires Readable(ctx.isValid, buf)
    ensures !ctx.isValid || buf[0] / 16 !in {1, 2, 3, 4, 12} <==> Authenticated(eia2, ctx, buf, d).ret == 0
    ensures Authenticated(eia2, ctx, buf, d).ret == 0 ==> Authenticated(eia2, ctx, buf, d) == Auth(0, false, ctx)
  {
  }

  /** newNASMsg_sec, up to 254 octets: header, MAC under the COUNT of the direction, its octet, message. */
  lemma ProtectedIsExact(eia2: Eia2, ctx: Ctx, p: Octet, s: Octet, d: Direction, plain: seq<Octet>)
    requires 1 <= s <= 4 && |plain| <= 254
    ensures var c := CountOf(ctx, d);
            var body := [c % 256] + plain;
            Protected(eia2, ctx, p, s, d, plain)
            == [16 * s + p % 16] + (if ctx.i == 0 then [0, 0, 0, 0] else eia2(ctx.ikey, c, d, body)) + body
  {
    var body := [CountOf(ctx, d) % 256] + plain;
    assert body[..(|plain| + 1) % 256] == body;
  }

  // ---- the service request ----

  /** Protocol discriminator 7 and header type 12, then the key set identifier and five bits of the COUNT. */
  function ServiceHeader(ksi: Octet, c: nat): seq<Octet>
    requires ksi < 8
  {
    [0xC7, 32 * ksi + c % 32]
  }

  /** The header and the last two octets of its MAC. */
  function ServiceRequest(ksi: Octet, c: nat, mac: Mac4): seq<Octet>
    requires ksi < 8
  {
    ServiceHeader(ksi, c) + [mac[2], mac[3]]
  }

  lemma ServiceParts(ksi: Octet, c: nat, mac: Mac4)
    requires ksi < 8
    ensures var w := ServiceRequest(ksi, c, mac);
            && |w| == 4 && w[0] / 16 == 12 && w[1] % 32 == c % 32 && [w[0], w[1]] == ServiceHeader(ksi, c)
            && w[2] == mac[2] && w[3] == mac[3]
  {
  }

  /** The receiver at `base` reconstructs `base + g` from five bits. */
  predicate ShortTolerated(base: nat, g: nat) {
    g < 10 && (base + g) / 32 == base / 32
  }

  lemma ShortWindow(base: nat, g: nat, c: nat)
    requires g < 32 && InBlock(base, c, 32, (base + g) % 32)
    ensures c == base + g
  {
    NextBlock(base, g);
    assert c == 32 * (base / 32) + c % 32;
  }

  lemma NextBlock(base: nat, g: nat)
    requires g < 32
    ensures (base + g) % 32 == base % 32 + g - if base % 32 + g < 32 then 0 else 32
  {
  }

  /**
   A genuine service request `g` COUNTs ahead of the receiver is accepted and moves the counter just past its COUNT
   exactly when `g` is below ten and both COUNTs are in one block of 32. Up to a gap of 31 it is otherwise refused
   with 2 and nothing changes; further ahead the five bits may name an earlier COUNT.
   */
  lemma ServiceRequestIsExact(eia2: Eia2, ctx: Ctx, d: Direction, ksi: Octet, g: nat, mac: Mac4)
    requires ctx.isValid && ksi < 8 && CountOf(ctx, d) + g < COUNT_LIMIT
    requires mac == eia2(ctx.ikey, CountOf(ctx, d) + g, d, [0xC7, 32 * ksi + (CountOf(ctx, d) + g) % 32])
    ensures var base := CountOf(ctx, d);
            var w := [0xC7, 32 * ksi + (base + g) % 32, mac[2], mac[3]];
            && (Authenticated(eia2, ctx, w, d) == Auth(1, true, WithCount(ctx, d, base + g + 1))
                <==> g < 10 && (base + g) / 32 == base / 32)
            && (g < 32 && !(g < 10 && (base + g) / 32 == base / 32) ==>
                  Authenticated(eia2, ctx, w, d) == Auth(2, false, ctx))
  {
    var base := CountOf(ctx, d);
    var c := base + g;
    var w := ServiceRequest(ksi, c, mac);
    ServiceParts(ksi, c, mac);
    assert w == [0xC7, 32 * ksi + c % 32, mac[2], mac[3]];
    if ShortTolerated(base, g) {
      assert InBlock(Expected(ctx, d), c, 32, w[1] % 32);
      ShortIsExact(eia2, ctx, w, d, c);
    } else {
      NotTolerated(eia2, ctx, w, d, g);
    }
  }

  lemma NotTolerated(eia2: Eia2, ctx: Ctx, w: seq<Octet>, d: Direction, g: nat)
    requires ctx.isValid && |w| == 4 && w[0] / 16 == 12 && CountOf(ctx, d) + g < COUNT_LIMIT
    requires w[1] % 32 == (CountOf(ctx, d) + g) % 32 && !ShortTolerated(CountOf(ctx, d), g)
    ensures Authenticated(eia2, ctx, w, d) != Auth(1, true, WithCount(ctx, d, CountOf(ctx, d) + g + 1))
    ensures g < 32 ==> Authenticated(eia2, ctx, w, d) == Auth(2, false, ctx)
  {
    var base, sqn := CountOf(ctx, d), w[1] % 32;
    if g < 32 { NoneInBlock(base, g, sqn); }
    OnlyIfInBlock(eia2, ctx, w, d, base, base + g, sqn);
  }

  /** With no COUNT in the block the message is refused with 2; with another one it does not count as this one. */
  lemma OnlyIfInBlock(eia2: Eia2, ctx: Ctx, w: seq<Octet>, d: Direction, base: nat, c': Count, sqn: nat)
    requires ctx.isValid && |w| >= 4 && w[0] / 16 == 12 && sqn == w[1] % 32
    requires base == Expected(ctx, d) && c' + 1 < U32 && !InBlock(base, c', 32, sqn)
    ensures (forall c: nat :: !InBlock(base, c, 32, sqn)) ==> Authenticated(eia2, ctx, w, d) == Auth(2, false, ctx)
    ensures Authenticated(eia2, ctx, w, d) != Auth(1, true, WithCount(ctx, d, c' + 1))
  {
    if c: nat :| InBlock(base, c, 32, sqn) {
      Elsewhere(eia2, ctx, w, d, c, c');
    } else {
      ShortIsExact(eia2, ctx, w, d, 0);
    }
  }

  lemma NoneInBlock(base: nat, g: nat, sqn: nat)
    requires g < 32 && sqn == (base + g) % 32 && !ShortTolerated(base, g)
    ensures forall c: nat :: !InBlock(base, c, 32, sqn)
  {
    forall c: nat ensures !InBlock(base, c, 32, sqn) {
      if InBlock(base, c, 32, sqn) { ShortWindow(base, g, c); }
    }
  }

  lemma Elsewhere(eia2: Eia2, ctx: Ctx, w: seq<Octet>, d: Direction, c: Count, c': Count)
    requires ctx.isValid && |w| >= 4 && w[0] / 16 == 12 && c != c' && c' + 1 < U32
    requires InBlock(Expected(ctx, d), c, 32, w[1] % 32)
    ensures Authenticated(eia2, ctx, w, d) != Auth(1, true, WithCount(ctx, d, c' + 1))
  {
    ShortIsExact(eia2, ctx, w, d, c);
    OtherCount(ctx, d, c, c');
  }

  lemma OtherCount(ctx: Ctx, d: Direction, c: Count, c': Count)
    requires c != c' && c + 1 < U32 && c' + 1 < U32
    ensures forall good :: Verdict(ctx, d, c, good) != Auth(1, true, WithCount(ctx, d, c' + 1))
  {
    assert CountOf(WithCount(ctx, d, c + 1), d) != CountOf(WithCount(ctx, d, c' + 1), d);
  }
}
