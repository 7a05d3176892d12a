/**
 The pieces together: 128-EIA2 as the MAC of the security context, dec_secNAS, and what happens to a
 message on its way from one handler to the other.
 */
module NasPipeline {
  import opened Common
  import opened Octets
  import NasSecurity
  import NasRuns
  import NasDecoder
  import opened NasSchemas
  import opened NasMessages
  import Bits
  import Cmac
  import CmacContext
  import OctetNumbers
  import opened OctetBytes

  // ---- the MAC is 128-EIA2 ----

  /** htonl and memcpy of a COUNT */
  function CountOctets(c: NasSecurity.Count): (r: seq<Octet>)
    ensures |r| == 4
  {
    [c / 0x100_0000, c / 0x1_0000 % 256, c / 256 % 256, c % 256]
  }

  /** eia2 as NAS.c calls it: bearer 0, the message measured in whole octets. */
  function Eia2Of(aes: CmacContext.Aes): NasSecurity.Eia2 {
    (k: NasSecurity.Key, c: NasSecurity.Count, d: NasSecurity.Direction, m: seq<Octet>) =>
      FromBv(CmacContext.Eia2Digest(aes, ToBv(k), ToBv(CountOctets(c)), 0, d.DownLink?, Bits.ToBits(ToBv(m))))
  }

  /**
   The bits 128-EIA2 authenticates for NAS: 32 bits of COUNT, five zero bits of BEARER, DIRECTION, 26 zero bits, and
   the message octet by octet.
   */
  ghost predicate MacInput(s: Bits.BitString, c: NasSecurity.Count, d: NasSecurity.Direction, m: seq<Octet>) {
    && |s| == 64 + 8 * |m| && Bits.Value(s[..32]) == c
    && (forall k :: 32 <= k < 37 ==> !s[k]) && (s[37] <==> d.DownLink?) && (forall k :: 38 <= k < 64 ==> !s[k])
    && forall i :: 0 <= i < |m| ==> Bits.Value(s[64 + 8 * i..72 + 8 * i]) == m[i]
  }

  lemma Digits(c: nat)
    ensures 0x100_0000 * (c / 0x100_0000) + 0x1_0000 * (c / 0x1_0000 % 256) + 256 * (c / 256 % 256) + c % 256 == c
  {
    assert c == 256 * (c / 256) + c % 256;
    assert c / 256 == 256 * (c / 0x1_0000) + c / 256 % 256;
    assert c / 0x1_0000 == 256 * (c / 0x100_0000) + c / 0x1_0000 % 256;
  }

  lemma NumberOfSame(b: seq<Bits.Byte>, s: seq<Octet>)
    requires SameOctets(b, s) && |s| == 4
    ensures OctetNumbers.Number(b)
         == 0x100_0000 * s[0] as int + 0x1_0000 * s[1] as int + 0x100 * s[2] as int + s[3] as int
  {
    assert b == [b[0], b[1], b[2], b[3]];
    OctetNumbers.NumberOfFour(b[0], b[1], b[2], b[3]);
  }

  /** The four octets of a COUNT denote it. */
  lemma CountOctetsNumber(c: NasSecurity.Count)
    ensures OctetNumbers.Number(ToBv(CountOctets(c))) == c
  {
    ToBvSame(CountOctets(c));
    NumberOfSame(ToBv(CountOctets(c)), CountOctets(c));
    Digits(c);
  }

  lemma ZeroBits(s: Bits.BitString)
    requires forall k :: 0 <= k < |s| ==> !s[k]
    ensures Bits.Value(s) == 0
  {
    if s != [] { ZeroBits(s[..|s| - 1]); }
  }

  lemma OctetOfBits(data: seq<Bits.Byte>, i: nat)
    requires i < |data|
    ensures Bits.Value(Bits.ToBits(data)[8 * i..8 * i + 8]) == data[i] as int
  {
    Bits.ToBitsSlice(data, i, i + 1);
    assert data[i..i + 1] == [data[i]];
    OctetNumbers.ValueOfByte(data[i]);
  }

  /** Bits that denote the octets one by one are the bits of the octets. */
  lemma BitsByOctets(t: Bits.BitString, m: seq<Octet>)
    requires |t| == 8 * |m| && forall i :: 0 <= i < |m| ==> Bits.Value(t[8 * i..8 * i + 8]) == m[i]
    ensures t == Bits.ToBits(ToBv(m))
  {
    var b := ToBv(m);
    ToBvSame(m);
    forall i | 0 <= i < |m| ensures SliceAt(t, i) == SliceAt(Bits.ToBits(b), i) {
      OctetOfBits(b, i);
      Cmac.ValueInjective(SliceAt(t, i), SliceAt(Bits.ToBits(b), i));
    }
    SameBySlices(t, Bits.ToBits(b), |m|);
  }

  /** Bits `8 * i` to `8 * i + 8`. */
  function SliceAt(t: Bits.BitString, i: nat): Bits.BitString
    requires 8 * i + 8 <= |t|
  {
    t[8 * i..8 * i + 8]
  }

  lemma SameBySlices(t: Bits.BitString, u: Bits.BitString, n: nat)
    requires |t| == |u| == 8 * n && forall i :: 0 <= i < n ==> SliceAt(t, i) == SliceAt(u, i)
    ensures t == u
  {
    forall k | 0 <= k < |t| ensures t[k] == u[k] {
      var i := k / 8;
      assert SliceAt(t, i)[k - 8 * i] == SliceAt(u, i)[k - 8 * i];
    }
  }

  /** The message part of the input. */
  lemma InputMessage(s: Bits.BitString, c: NasSecurity.Count, d: NasSecurity.Direction, m: seq<Octet>)
    requires MacInput(s, c, d, m)
    ensures s[64..] == Bits.ToBits(ToBv(m))
  {
    var t := s[64..];
    forall i | 0 <= i < |m| ensures Bits.Value(t[8 * i..8 * i + 8]) == m[i] {
      assert t[8 * i..8 * i + 8] == s[64 + 8 * i..72 + 8 * i];
    }
    BitsByOctets(t, m);
  }

  lemma MacInputIsEia2Input(s: Bits.BitString, c: NasSecurity.Count, d: NasSecurity.Direction, m: seq<Octet>)
    requires MacInput(s, c, d, m)
    ensures CmacContext.Eia2Input(s, OctetNumbers.Number(ToBv(CountOctets(c))), 0, d.DownLink?, Bits.ToBits(ToBv(m)))
  {
    CountOctetsNumber(c);
    ZeroBits(s[32..37]);
    InputMessage(s, c, d, m);
  }

  /** The MAC octet by octet: the first four of the CMAC of the input under the key. */
  lemma Eia2OfIsExact(aes: CmacContext.Aes, k: NasSecurity.Key, c: NasSecurity.Count, d: NasSecurity.Direction,
                      m: seq<Octet>, s: Bits.BitString, key: Cmac.Block)
    requires MacInput(s, c, d, m) && SameOctets(key, k)
    ensures SameOctets(Cmac.Mac(CmacContext.Keyed(aes, key), s)[..4], Eia2Of(aes)(k, c, d, m))
  {
    SameIsToBv(key, k);
    MacInputIsEia2Input(s, c, d, m);
    var count, msg := ToBv(CountOctets(c)), ToBv(m);
    Eia2OfUnfolds(aes, k, c, d, m, key, count, msg);
    DigestSame(aes, key, count, d.DownLink?, msg, s);
  }

  lemma Eia2OfUnfolds(aes: CmacContext.Aes, k: NasSecurity.Key, c: NasSecurity.Count, d: NasSecurity.Direction,
                      m: seq<Octet>, key: Cmac.Block, count: seq<Bits.Byte>, msg: seq<Bits.Byte>)
    requires key == ToBv(k) && count == ToBv(CountOctets(c)) && msg == ToBv(m)
    ensures Eia2Of(aes)(k, c, d, m)
         == FromBv(CmacContext.Eia2Digest(aes, key, count, 0, d.DownLink?, Bits.ToBits(msg)))
  {
  }

  lemma DigestSame(aes: CmacContext.Aes, key: Cmac.Block, count: seq<Bits.Byte>, down: bool, msg: seq<Bits.Byte>,
                   s: Bits.BitString)
    requires |count| == 4
    requires CmacContext.Eia2Input(s, OctetNumbers.Number(count), 0, down, Bits.ToBits(msg))
    ensures var digest := CmacContext.Eia2Digest(aes, key, count, 0, down, Bits.ToBits(msg));
            SameOctets(Cmac.Mac(CmacContext.Keyed(aes, key), s)[..4], FromBv(digest))
  {
    CmacContext.Eia2IsExact(aes, key, count, 0, down, Bits.ToBits(msg), s);
    FromBvSame(CmacContext.Eia2Digest(aes, key, count, 0, down, Bits.ToBits(msg)));
  }

  /** The code computes that MAC. */
  method ComputeMac(aes: CmacContext.Aes, k: NasSecurity.Key, c: NasSecurity.Count, d: NasSecurity.Direction,
                    m: seq<Octet>)
    returns (mac: seq<Octet>)
    ensures mac == Eia2Of(aes)(k, c, d, m)
    ensures forall s: Bits.BitString, key: Cmac.Block :: MacInput(s, c, d, m) && SameOctets(key, k) ==>
              SameOctets(Cmac.Mac(CmacContext.Keyed(aes, key), s)[..4], mac)
  {
    var msg := ToBv(m);
    var digest := CmacContext.Eia2(aes, ToBv(k), ToBv(CountOctets(c)), 0, if d.DownLink? then 1 else 0, msg, 8 * |m|);
    assert Bits.ToBits(msg)[..8 * |m|] == Bits.ToBits(msg);
    mac := FromBv(digest);
    forall s: Bits.BitString, key: Cmac.Block | MacInput(s, c, d, m) && SameOctets(key, k)
      ensures SameOctets(Cmac.Mac(CmacContext.Keyed(aes, key), s)[..4], mac)
    {
      Eia2OfIsExact(aes, k, c, d, m, s, key);
    }
  }

  // ---- dec_secNAS ----

  /** None when the source would read beyond the octets given, or call a null entry of the ciphering table. */
  function DecSec(sc: Schemas, ctx: NasSecurity.Ctx, buf: seq<Octet>): Option<Result> {
    if buf == [] then None
    else
      var s := High(buf[0]);
      if s == 1 then
        if |buf| < 6 then None
        else
          var r := DecNas(sc, buf[6..]);
          if r.None? then r else Some(r.value.(ret := true))
      else if s !in {2, 4, 12} then Some(Result(false, ZERO_MESSAGE))
      else if !ctx.isValid then Some(Result(false, ZERO_MESSAGE))
      else if |buf| < 6 || ctx.e != 0 then None
      else DecNas(sc, buf[6..])
  }

  /**
   Unprotect undoes protect for types 1, 2 and 4: the message is the one dec_NAS finds in the plain
   octets. Type 3 is protected but never decoded, and types 2 and 4 need EEA0.
   */
  lemma UnprotectIsExact(sc: Schemas, eia2: NasSecurity.Eia2, snd: NasSecurity.Ctx, rcv: NasSecurity.Ctx, p: Octet,
                         s: Octet, d: NasSecurity.Direction, plain: seq<Octet>)
    requires rcv.isValid && NasSecurity.ProtectedType(s) && |plain| <= 254
    ensures var w := NasSecurity.Protected(eia2, snd, p, s, d, plain);
            var r := DecNas(sc, plain);
            DecSec(sc, rcv, w) ==
              if s == 3 then Some(Result(false, ZERO_MESSAGE))
              else if !NasSecurity.CipherSupported(rcv, s) then None
              else if s == 1 && r.Some? then Some(r.value.(ret := true))
              else r
  {
    NasRuns.ProtectedLayout(eia2, snd, p, s, d, plain);
  }

  /** What else dec_secNAS is given: any octets, any context. */
  lemma UnprotectOthers(sc: Schemas, ctx: NasSecurity.Ctx, buf: seq<Octet>)
    requires |buf| >= 6
    ensures buf[0] / 16 == 1 && DecNas(sc, buf[6..]).Some? ==>
              DecSec(sc, ctx, buf) == Some(Result(true, DecNas(sc, buf[6..]).value.msg))
    ensures buf[0] / 16 !in {1, 2, 4, 12} || (buf[0] / 16 != 1 && !ctx.isValid) ==>
              DecSec(sc, ctx, buf) == Some(Result(false, Message(0, 0, Nothing)))
    ensures buf[0] / 16 in {2, 4, 12} && ctx.isValid && ctx.e == 0 ==> DecSec(sc, ctx, buf) == DecNas(sc, buf[6..])
  {
  }

  /** In direction `d` the receiver accepts what the sender protects, and moves just past its COUNT. */
  ghost predicate Arrives(eia2: NasSecurity.Eia2, snd: NasSecurity.Ctx, rcv: NasSecurity.Ctx, d: NasSecurity.Direction,
                          w: seq<Octet>)
    requires NasSecurity.CountOf(snd, d) < NasSecurity.COUNT_LIMIT
  {
    && NasSecurity.Readable(rcv.isValid, w)
    && NasSecurity.Authenticated(eia2, rcv, w, d)
       == NasSecurity.Auth(1, true, NasSecurity.WithCount(rcv, d, NasSecurity.CountOf(snd, d) + 1))
  }

  lemma InStepArrives(eia2: NasSecurity.Eia2, snd: NasSecurity.Ctx, rcv: NasSecurity.Ctx, p: Octet, s: Octet,
                      d: NasSecurity.Direction, plain: seq<Octet>)
    requires snd.isValid && NasSecurity.SameKeys(snd, rcv) && NasSecurity.ProtectedType(s) && |plain| <= 254
    requires NasSecurity.CountOf(snd, d) == NasSecurity.CountOf(rcv, d) < NasSecurity.COUNT_LIMIT
    ensures Arrives(eia2, snd, rcv, d, NasSecurity.Protected(eia2, snd, p, s, d, plain))
  {
    NasRuns.ReceiveInStep(eia2, snd, rcv, d, NasRuns.Plain(p, s, plain));
  }

  /** On the downlink the sender moves as well, so the two stay in step; on the uplink it stays behind. */
  lemma AfterArrival(snd: NasSecurity.Ctx, rcv: NasSecurity.Ctx, d: NasSecurity.Direction)
    requires snd.isValid && NasSecurity.SameKeys(snd, rcv)
    requires NasSecurity.CountOf(snd, d) == NasSecurity.CountOf(rcv, d) < NasSecurity.COUNT_LIMIT
    ensures var snd' := NasSecurity.AfterProtect(snd);
            var rcv' := NasSecurity.WithCount(rcv, d, NasSecurity.CountOf(snd, d) + 1);
            NasSecurity.CountOf(snd', d) == NasSecurity.CountOf(rcv', d) <==> d.DownLink?
  {
  }

  /**
   End to end, in either direction: an Attach Request built from any fields and any in-order optionals,
   protected by a handler and received by one at the same COUNT, is authenticated under 128-EIA2 whatever
   AES does, moves the receiver just past that COUNT, and decodes to the fields and optionals it was built from.
   */
  lemma ProtectedAttachArrives(sc: Schemas, aes: CmacContext.Aes, snd: NasSecurity.Ctx, rcv: NasSecurity.Ctx, s: Octet,
                               d: NasSecurity.Direction, a: AttachFields, ies: seq<NasDecoder.WfIe>, f: seq<nat>)
    requires snd.isValid && NasSecurity.SameKeys(snd, rcv) && s in {1, 2, 4}
    requires NasSecurity.MacSupported(snd) && NasSecurity.CipherSupported(snd, s)
    requires NasSecurity.CountOf(snd, d) == NasSecurity.CountOf(rcv, d) < NasSecurity.COUNT_LIMIT
    requires FieldsOk(a) && NasDecoder.Distinguishable(sc.attach) && NasDecoder.Embeds(ies, sc.attach, f)
    requires |EncAttach(a, ies)| <= 254
    ensures var w := NasSecurity.Protected(Eia2Of(aes), snd, 7, s, d, EncAttach(a, ies));
            && Arrives(Eia2Of(aes), snd, rcv, d, w)
            && DecSec(sc, rcv, w) == Some(Result(true, Message(7, 0, AttachBody(
                 Attach(a.attachType, a.ksi, a.mobileId, a.capability, a.esm, NasDecoder.KeptAll(sc.attach, ies, f))))))
  {
    ghost var eia2 := Eia2Of(aes);
    InStepArrives(eia2, snd, rcv, 7, s, d, EncAttach(a, ies));
    AttachRoundTrip(sc, a, ies, f);
    UnprotectIsExact(sc, eia2, snd, rcv, 7, s, d, EncAttach(a, ies));
  }
}
