/**
 NAS/src/NAS.c: the NAS security context. COUNT handling, integrity protection and authentication
 (sections 4.4.3 and 4.4.4 of TS 24.301). COUNT values are uint32_t; only 24 bits are meant to be used.
 */
module NasSecurity {
  import opened Octets
  import NasIe

  const U32 := 0x1_0000_0000
  const COUNT_LIMIT := 0x100_0000
  const COUNT_THRESHOLD := 10

  type Count = c: nat | c < 0x1_0000_0000

  type Key = k: seq<Octet> | |k| == 16 witness [0, 0, 0, 0, 0, 0, 0, 0, 0, 0, 0, 0, 0, 0, 0, 0]

  type Mac4 = m: seq<Octet> | |m| == 4 witness [0, 0, 0, 0]

  datatype Direction = UpLink | DownLink

  /** 128-EIA2 with bearer 0 on whole octets: key, COUNT, direction, message. */
  type Eia2 = (Key, Count, Direction, seq<Octet>) -> Mac4

  /** The key derivation function: K ASME, algorithm type distinguisher, algorithm identity. */
  type Kdf = (seq<Octet>, nat, nat) -> Key

  // ---- COUNT arithmetic ----

  /** nas_checkCOUNT: the subtraction is unsigned, so a smaller sequence number wraps around. */
  predicate CheckCount(last: Count, recv: Octet) {
    (recv - last % 256) % U32 < COUNT_THRESHOLD
  }

  /** nas_checkCOUNTshort */
  predicate CheckCountShort(last: Count, recv: Octet) {
    (recv - last % 32) % U32 < COUNT_THRESHOLD
  }

  /** (last & 0xFFFF00) | recv */
  function Rebuild(last: Count, recv: Octet): (c: Count)
    ensures c < COUNT_LIMIT && c % 256 == recv
  {
    last % COUNT_LIMIT / 256 * 256 + recv
  }

  /** (last & 0xFFFFE0) | recv, for a five-bit sequence number */
  function RebuildShort(last: Count, recv: Octet): (c: Count)
    requires recv < 32
    ensures c < COUNT_LIMIT && c % 32 == recv
  {
    last % COUNT_LIMIT / 32 * 32 + recv
  }

  // ---- the context as a value ----

  datatype Ctx = Ctx(isValid: bool, i: nat, ikey: Key, e: nat, ekey: Key, up: Count, down: Count)

  function CountOf(ctx: Ctx, d: Direction): Count {
    if d.UpLink? then ctx.up else ctx.down
  }

  function WithCount(ctx: Ctx, d: Direction, c: Count): (r: Ctx)
    ensures CountOf(r, d) == c
    ensures forall d' | d' != d :: CountOf(r, d') == CountOf(ctx, d')
    ensures SameKeys(r, ctx)
  {
    if d.UpLink? then ctx.(up := c) else ctx.(down := c)
  }

  predicate SameKeys(a: Ctx, b: Ctx) {
    a.isValid == b.isValid && a.i == b.i && a.ikey == b.ikey && a.e == b.e && a.ekey == b.ekey
  }

  /** The integrity table has an entry: EIA0 and EIA2. The others hold null pointers. */
  predicate MacSupported(ctx: Ctx) {
    ctx.i == 0 || ctx.i == 2
  }

  /** Header types 2 and 4 are ciphered, and the ciphering table has only EEA0. */
  predicate CipherSupported(ctx: Ctx, s: Octet) {
    s in {2, 4} ==> ctx.e == 0
  }

  function Integrity(eia2: Eia2, ctx: Ctx, c: Count, d: Direction, msg: seq<Octet>): Mac4
  {
    if ctx.i == 0 then [0, 0, 0, 0] else eia2(ctx.ikey, c, d, msg)
  }

  // ---- protect ----

  predicate ProtectedType(s: Octet) {
    1 <= s <= 4
  }

  /** The octets of a protected message; the body length passes through a uint8_t. */
  function Protected(eia2: Eia2, ctx: Ctx, p: Octet, s: Octet, d: Direction, plain: seq<Octet>): seq<Octet> {
    var c := CountOf(ctx, d);
    var body := [c % 256] + plain;
    [16 * Low(s) + Low(p)] + Integrity(eia2, ctx, c, d, body) + body[..(|plain| + 1) % 256]
  }

  /** The DOWNLINK counter moves, whatever the direction. */
  function AfterProtect(ctx: Ctx): Ctx {
    ctx.(down := (ctx.down + 1) % U32)
  }

  predicate CanProtect(ctx: Ctx, s: Octet) {
    ctx.isValid && ProtectedType(s)
  }

  // ---- authenticate ----

  datatype Auth = Auth(ret: nat, isAuth: bool, ctx: Ctx)

  /** Octets the source reads before it has checked any length. */
  predicate Readable(valid: bool, buf: seq<Octet>) {
    && |buf| >= 1
    && (valid && ProtectedType(High(buf[0])) ==> |buf| >= 6)
    && (valid && High(buf[0]) == 12 ==> |buf| >= 4)
  }

  /** The COUNT the receiver reconstructs. */
  function CountUsed(ctx: Ctx, buf: seq<Octet>, d: Direction): Count
    requires Readable(true, buf) && (ProtectedType(High(buf[0])) || High(buf[0]) == 12)
  {
    if High(buf[0]) == 12 then RebuildShort(CountOf(ctx, d), buf[1] % 32) else Rebuild(CountOf(ctx, d), buf[5])
  }

  predicate InWindow(ctx: Ctx, buf: seq<Octet>, d: Direction)
    requires Readable(true, buf) && (ProtectedType(High(buf[0])) || High(buf[0]) == 12)
  {
    if High(buf[0]) == 12 then CheckCountShort(CountOf(ctx, d), buf[1] % 32) else CheckCount(CountOf(ctx, d), buf[5])
  }

  predicate MacMatches(eia2: Eia2, ctx: Ctx, buf: seq<Octet>, d: Direction)
    requires Readable(true, buf) && (ProtectedType(High(buf[0])) || High(buf[0]) == 12)
  {
    var c := CountUsed(ctx, buf, d);
    if High(buf[0]) == 12 then buf[2..4] == Integrity(eia2, ctx, c, d, buf[..2])[2..]
    else buf[1..5] == Integrity(eia2, ctx, c, d, buf[5..])
  }

  function Authenticated(eia2: Eia2, ctx: Ctx, buf: seq<Octet>, d: Direction): Auth
    requires Readable(ctx.isValid, buf)
  {
    var s := High(buf[0]);
    if !ctx.isValid || !(ProtectedType(s) || s == 12) then Auth(0, false, ctx)
    else if !InWindow(ctx, buf, d) then Auth(2, false, ctx)
    else if MacMatches(eia2, ctx, buf, d) || ctx.i == 0 then
      Auth(1, true, WithCount(ctx, d, CountUsed(ctx, buf, d) + 1))
    else Auth(1, false, ctx)
  }

  // ---- the handler ----

  lemma PutPrefix(buf: seq<Octet>, x: seq<Octet>)
    requires |x| <= |buf|
    ensures Put(buf, 0, x)[..|x|] == x
  {
  }

  /** The writer calls of newNASMsg_sec: header octet, MAC, and the body under a uint8_t length. */
  method WriteProtected(out: array<Octet>, p: Octet, s: Octet, mac: Mac4, body: seq<Octet>) returns (len: nat)
    requires out.Length >= 5 + |body| % 256
    modifies out
    ensures len == 5 + |body| % 256
    ensures out[..len] == [16 * Low(s) + Low(p)] + mac + body[..|body| % 256]
  {
    ghost var was, n := out[..], |body| % 256;
    ghost var head := [16 * Low(s) + Low(p)];
    len := NasIe.VT1Pair(out, 0, p, s);
    len := NasIe.VT3(out, len, mac, 4);
    assert mac[..4] == mac;
    PutTwice(was, 0, head, mac);
    len := NasIe.VT3(out, len, body, |body|);
    PutTwice(was, 0, head + mac, body[..n]);
    PutPrefix(was, head + mac + body[..n]);
    assert out[..len] == out[..][..len];
  }

  class NasHandler {
    const eia2: Eia2
    const kdf: Kdf
    var isValid: bool
    var i: nat
    var ikey: Key
    var e: nat
    var ekey: Key
    const nasCount: array<Count>

    ghost predicate Valid()
      reads this, nasCount
    {
      nasCount.Length == 2
    }

    ghost function State(): Ctx
      reads this, nasCount
      requires nasCount.Length == 2
    {
      Ctx(isValid, i, ikey, e, ekey, nasCount[0], nasCount[1])
    }

    /** nas_newHandler: a zeroed structure. */
    constructor (eia2: Eia2, kdf: Kdf)
      ensures Valid() && !isValid && this.eia2 == eia2 && this.kdf == kdf && fresh(nasCount)
    {
      this.eia2, this.kdf := eia2, kdf;
      isValid, i, e := false, 0, 0;
      ikey := [0, 0, 0, 0, 0, 0, 0, 0, 0, 0, 0, 0, 0, 0, 0, 0];
      ekey := [0, 0, 0, 0, 0, 0, 0, 0, 0, 0, 0, 0, 0, 0, 0, 0];
      nasCount := new Count[2](_ => 0);
    }

    /** nas_setSecurity */
    method SetSecurity(i: nat, e: nat, kasme: seq<Octet>)
      requires Valid()
      modifies this, nasCount
      ensures Valid()
      ensures State() == Ctx(true, i, kdf(kasme, 2, i), e, kdf(kasme, 1, e), 0, 0)
    {
      this.i, this.e := i, e;
      ikey := kdf(kasme, 2, i);
      ekey := kdf(kasme, 1, e);
      nasCount[0] := 0;
      nasCount[1] := 0;
      isValid := true;
    }

    function Index(d: Direction): (k: nat)
      ensures k < 2
    {
      if d.UpLink? then 0 else 1
    }

    /** nas_incrementNASCount; 0 warns of an overflow to come. */
    method IncrementCount(d: Direction) returns (ok: bool)
      requires Valid()
      modifies nasCount
      ensures Valid() && State() == WithCount(old(State()), d, (CountOf(old(State()), d) + 1) % U32)
      ensures ok <==> CountOf(State(), d) <= 0xffffff - 5
    {
      nasCount[Index(d)] := (nasCount[Index(d)] + 1) % U32;
      ok := !(nasCount[Index(d)] > 0xffffff - 5);
    }

    /** nas_setCOUNT and nas_setCOUNTshort */
    method SetCount(d: Direction, recv: Octet, short: bool) returns (ok: bool)
      requires Valid() && (short ==> recv < 32)
      modifies nasCount
      ensures Valid()
      ensures var c := CountOf(old(State()), d);
              State() == WithCount(old(State()), d, 1 + if short then RebuildShort(c, recv) else Rebuild(c, recv))
      ensures ok <==> CountOf(State(), d) <= 0xffffff - 5
    {
      var c := nasCount[Index(d)];
      nasCount[Index(d)] := 1 + if short then RebuildShort(c, recv) else Rebuild(c, recv);
      ok := !(nasCount[Index(d)] > 0xffffff - 5);
    }

    /** newNASMsg_sec. Under EEA0 ciphering copies. */
    method Protect(out: array<Octet>, p: Octet, s: Octet, d: Direction, plain: seq<Octet>)
      returns (ok: bool, len: nat)
      requires Valid() && out.Length >= 5 + (|plain| + 1) % 256
      requires CanProtect(State(), s) ==> MacSupported(State()) && CipherSupported(State(), s)
      requires out !in {this as object, nasCount as object}
      modifies out, nasCount
      ensures Valid()
      ensures ok <==> CanProtect(old(State()), s)
      ensures ok ==> State() == AfterProtect(old(State()))
      ensures ok ==> len <= out.Length && out[..len] == Protected(eia2, old(State()), p, s, d, plain)
      ensures !ok ==> State() == old(State()) && out[..] == old(out[..])
    {
      len := 0;
      if !isValid { return false, 0; }
      if !(1 <= s <= 4) { return false, 0; }
      var c := nasCount[Index(d)];
      var buf := [c % 256] + plain;
      var mac: Mac4 := if i == 0 then [0, 0, 0, 0] else eia2(ikey, c, d, buf);
      len := WriteProtected(out, p, s, mac, buf);
      var warn := IncrementCount(DownLink);
      return true, len;
    }

    /** nas_authenticateMsg */
    method Authenticate(buf: seq<Octet>, d: Direction) returns (ret: nat, isAuth: bool)
      requires Valid() && Readable(isValid, buf)
      requires isValid && (ProtectedType(High(buf[0])) || High(buf[0]) == 12) ==> MacSupported(State())
      modifies nasCount
      ensures Valid()
      ensures Auth(ret, isAuth, State()) == Authenticated(eia2, old(State()), buf, d)
    {
      isAuth := false;
      var s := High(buf[0]);
      if !isValid { return 0, false; }
      if s == 0 { return 0, false; }
      var last := nasCount[Index(d)];
      if 1 <= s <= 4 {
        var sqn := buf[5];
        if !CheckCount(last, sqn) { return 2, false; }
        var mac := buf[1..5];
        var c := Rebuild(last, sqn);
        var macX: Mac4 := if i == 0 then [0, 0, 0, 0] else eia2(ikey, c, d, buf[5..]);
        if mac == macX || i == 0 {
          isAuth := true;
          var warn := SetCount(d, sqn, false);
        }
        return 1, isAuth;
      } else if s == 12 {
        var sqn := buf[1] % 32;
        if !CheckCountShort(last, sqn) { return 2, false; }
        var shortMac := buf[2..4];
        var c := RebuildShort(last, sqn);
        var macX: Mac4 := if i == 0 then [0, 0, 0, 0] else eia2(ikey, c, d, buf[..2]);
        if shortMac == macX[2..] || i == 0 {
          isAuth := true;
          var warn := SetCount(d, sqn, true);
        }
        return 1, isAuth;
      }
      return 0, false;
    }
  }
}
