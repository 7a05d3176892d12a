/**
 NAS/src/NASMessages.c and the dispatch of NAS/src/NAS.c: Attach Request, Tracking Area Update
 Request and PDN Connectivity Request, plain and security protected. None stands for a read beyond
 the octets given; the source does not guard against it.
 */
module NasMessages {
  import opened Common
  import opened Octets
  import NasIe
  import opened NasDecoder
  import opened NasSchemas

  // ---- mandatory fields ----

  datatype Field = Field(v: seq<Octet>, rest: seq<Octet>)

  /** A length octet and that many octets. */
  function TakeLv(buf: seq<Octet>): Option<Field> {
    if buf == [] then None
    else
      var l: nat := buf[0];
      if |buf| < 1 + l then None else Some(Field(buf[1..1 + l], buf[1 + l..]))
  }

  /** A two-octet length in network order and that many octets. */
  function TakeLve(buf: seq<Octet>): Option<Field> {
    if |buf| < 2 then None
    else
      var l: nat := 256 * buf[0] as int + buf[1] as int;
      if |buf| < 2 + l then None else Some(Field(buf[2..2 + l], buf[2 + l..]))
  }

  datatype Attach = Attach(attachType: Octet, ksi: Octet, mobileId: seq<Octet>, capability: seq<Octet>, esm: seq<Octet>,
                           opts: seq<seq<Octet>>)

  datatype Tau = Tau(updateType: Octet, ksi: Octet, oldGuti: seq<Octet>, opts: seq<seq<Octet>>)

  datatype Pdn = Pdn(requestType: Octet, pdnType: Octet, opts: seq<seq<Octet>>)

  /** dec_AttachRequest, on the octets after the message type. */
  function DecAttach(schema: Schema, buf: seq<Octet>): Option<Attach> {
    if buf == [] then None
    else
      var id := TakeLv(buf[1..]);
      if id.None? then None
      else
        var cap := TakeLv(id.value.rest);
        if cap.None? then None
        else
          var esm := TakeLve(cap.value.rest);
          if esm.None? then None
          else
            var d := Decode(schema, esm.value.rest);
            if d.None? then None
            else Some(Attach(Low(buf[0]), High(buf[0]), id.value.v, cap.value.v, esm.value.v, d.value.opts))
  }

  /** dec_TrackingAreaUpdateRequest */
  function DecTau(schema: Schema, buf: seq<Octet>): Option<Tau> {
    if buf == [] then None
    else
      var guti := TakeLv(buf[1..]);
      if guti.None? then None
      else
        var d := Decode(schema, guti.value.rest);
        if d.None? then None else Some(Tau(Low(buf[0]), High(buf[0]), guti.value.v, d.value.opts))
  }

  /** dec_PDNConnectivityRequest */
  function DecPdn(schema: Schema, buf: seq<Octet>): Option<Pdn> {
    if buf == [] then None
    else
      var d := Decode(schema, buf[1..]);
      if d.None? then None else Some(Pdn(Low(buf[0]), High(buf[0]), d.value.opts))
  }

  /** The LV reads of the decoders: value, cursor and size left. */
  method ReadLv(buffer: seq<Octet>, pos: nat, size: nat) returns (v: seq<Octet>, pos': nat, size': nat)
    requires pos + size == |buffer| && TakeLv(buffer[pos..]).Some?
    ensures pos' + size' == |buffer| && TakeLv(buffer[pos..]) == Some(Field(v, buffer[pos'..]))
  {
    var l: nat := buffer[pos];
    v := buffer[pos + 1..pos + 1 + l];
    pos', size' := pos + 1 + l, size - (l + 1);
    assert buffer[pos..][1..1 + l] == v && buffer[pos..][1 + l..] == buffer[pos'..];
  }

  method ReadLve(buffer: seq<Octet>, pos: nat, size: nat) returns (v: seq<Octet>, pos': nat, size': nat)
    requires pos + size == |buffer| && TakeLve(buffer[pos..]).Some?
    ensures pos' + size' == |buffer| && TakeLve(buffer[pos..]) == Some(Field(v, buffer[pos'..]))
  {
    var l: nat := 256 * buffer[pos] as int + buffer[pos + 1] as int;
    v := buffer[pos + 2..pos + 2 + l];
    pos', size' := pos + 2 + l, size - 2 - l;
    assert buffer[pos..][2..2 + l] == v && buffer[pos..][2 + l..] == buffer[pos'..];
  }

  /** The message structure of an Attach Request, filled in place. */
  class AttachRequest {
    var ePSAttachType: Octet
    var nASKeySetId: Octet
    var ePSMobileId: seq<Octet>
    var uENetworkCapability: seq<Octet>
    var eSMMessageContainer: seq<Octet>
    const optionals: array<seq<Octet>>

    /** The zeroed structure dec_NAS starts from. */
    constructor (slots: nat)
      ensures fresh(optionals) && optionals.Length == slots
      ensures forall i :: 0 <= i < slots ==> optionals[i] == []
    {
      ePSAttachType, nASKeySetId := 0, 0;
      ePSMobileId, uENetworkCapability, eSMMessageContainer := [], [], [];
      optionals := new seq<Octet>[slots](_ => []);
    }

    /** dec_AttachRequest. Room is asked only for the optionals the message carries. */
    method Decode(schema: Schema, buffer: seq<Octet>) returns (numOp: nat)
      requires DecAttach(schema, buffer).Some? && |DecAttach(schema, buffer).value.opts| <= optionals.Length
      modifies this, optionals
      ensures numOp <= |schema| && numOp <= optionals.Length
      ensures DecAttach(schema, buffer).value == Attach(ePSAttachType, nASKeySetId, ePSMobileId, uENetworkCapability,
                                                eSMMessageContainer, optionals[..numOp])
      ensures optionals[numOp..] == old(optionals[numOp..])
    {
      numOp := 0;
      ePSAttachType, nASKeySetId := Low(buffer[0]), High(buffer[0]);
      var pos, size := 1, |buffer| - 1;
      ePSMobileId, pos, size := ReadLv(buffer, pos, size);
      uENetworkCapability, pos, size := ReadLv(buffer, pos, size);
      eSMMessageContainer, pos, size := ReadLve(buffer, pos, size);
      if size == 0 {
        assert buffer[pos..] == [];
        DecodeNothing(schema);
        return 0;
      }
      var pos', size';
      pos', size', numOp := DecodeOptionals(schema, optionals, buffer, pos);
    }
  }

  /** The message structure of a Tracking Area Update Request. */
  class TauRequest {
    var ePSUpdateType: Octet
    var nASKeySetId: Octet
    var oldGUTI: seq<Octet>
    const optionals: array<seq<Octet>>

    constructor (slots: nat)
      ensures fresh(optionals) && optionals.Length == slots
      ensures forall i :: 0 <= i < slots ==> optionals[i] == []
    {
      ePSUpdateType, nASKeySetId, oldGUTI := 0, 0, [];
      optionals := new seq<Octet>[slots](_ => []);
    }

    /** dec_TrackingAreaUpdateRequest */
    method Decode(schema: Schema, buffer: seq<Octet>) returns (numOp: nat)
      requires DecTau(schema, buffer).Some? && |DecTau(schema, buffer).value.opts| <= optionals.Length
      modifies this, optionals
      ensures numOp <= |schema| && numOp <= optionals.Length
      ensures DecTau(schema, buffer).value == Tau(ePSUpdateType, nASKeySetId, oldGUTI, optionals[..numOp])
      ensures optionals[numOp..] == old(optionals[numOp..])
    {
      numOp := 0;
      ePSUpdateType, nASKeySetId := Low(buffer[0]), High(buffer[0]);
      var pos, size := 1, |buffer| - 1;
      oldGUTI, pos, size := ReadLv(buffer, pos, size);
      if size == 0 {
        assert buffer[pos..] == [];
        DecodeNothing(schema);
        return 0;
      }
      var pos', size';
      pos', size', numOp := DecodeOptionals(schema, optionals, buffer, pos);
    }
  }

  // ---- dispatch ----

  datatype Body = Nothing
                | AttachBody(attach: Attach)
                | TauBody(tau: Tau)
                | PdnBody(pti: Octet, pdn: Pdn)
                | OtherEmm(messageType: Octet, rest: seq<Octet>)
                | OtherEsm(pti: Octet, messageType: Octet, rest: seq<Octet>)

  datatype Message = Message(pd: Octet, securityHeader: Octet, body: Body)

  const ZERO_MESSAGE := Message(0, 0, Nothing)

  datatype Result = Result(ret: bool, msg: Message)

  /** dec_EMM; the messages decoded elsewhere keep their octets. */
  function DecEmm(sc: Schemas, buf: seq<Octet>): Option<Body> {
    if buf == [] then None
    else if buf[0] == 0x41 then
      var a := DecAttach(sc.attach, buf[1..]);
      if a.None? then None else Some(AttachBody(a.value))
    else if buf[0] == 0x48 then
      var t := DecTau(sc.tau, buf[1..]);
      if t.None? then None else Some(TauBody(t.value))
    else Some(OtherEmm(buf[0], buf[1..]))
  }

  /** dec_ESM */
  function DecEsm(sc: Schemas, buf: seq<Octet>): Option<Body> {
    if |buf| < 2 then None
    else if buf[1] == 0xD0 then
      var p := DecPdn(sc.pdn, buf[2..]);
      if p.None? then None else Some(PdnBody(buf[0], p.value))
    else Some(OtherEsm(buf[0], buf[1], buf[2..]))
  }

  /** dec_NAS. The test on the protocol discriminator never fails, so all but 7 goes to ESM. */
  function DecNas(sc: Schemas, buf: seq<Octet>): Option<Result> {
    if buf == [] then Some(Result(false, ZERO_MESSAGE))
    else
      var s, p := High(buf[0]), Low(buf[0]);
      if s != 0 then Some(Result(false, Message(p, s, Nothing)))
      else
        var body := if p == 7 then DecEmm(sc, buf[1..]) else DecEsm(sc, buf[1..]);
        if body.None? then None else Some(Result(true, Message(p, s, body.value)))
  }

  // ---- Attach Request round trip ----

  /** The fields an Attach Request is built from; type 1 values take four bits. */
  datatype AttachFields = AttachFields(attachType: Octet, ksi: Octet, mobileId: seq<Octet>, capability: seq<Octet>,
                                       esm: seq<Octet>)

  predicate FieldsOk(a: AttachFields) {
    a.attachType < 16 && a.ksi < 16 && |a.mobileId| <= 255 && |a.capability| <= 255 && |a.esm| <= 65535
  }

  function EncAttach(a: AttachFields, ies: seq<WfIe>): (r: seq<Octet>)
    requires FieldsOk(a)
  {
    [0x07, 0x41] + EncAttachBody(a, ies)
  }

  function EncAttachBody(a: AttachFields, ies: seq<WfIe>): (r: seq<Octet>)
    requires FieldsOk(a)
  {
    EncAttachHead(a, EncAll(ies))
  }

  /** The mandatory fields in front of `tail`. */
  function EncAttachHead(a: AttachFields, tail: seq<Octet>): (r: seq<Octet>)
    requires FieldsOk(a)
  {
    [16 * a.ksi + a.attachType]
    + (NasIe.EncLv4(a.mobileId) + (NasIe.EncLv4(a.capability) + (NasIe.EncLv6(a.esm) + tail)))
  }

  lemma TakeEncLv(v: seq<Octet>, rest: seq<Octet>)
    requires |v| <= 255
    ensures TakeLv(NasIe.EncLv4(v) + rest) == Some(Field(v, rest))
  {
    var s := NasIe.EncLv4(v) + rest;
    assert s == [|v|] + (v + rest);
    assert s[1..1 + |v|] == v && s[1 + |v|..] == rest;
  }

  lemma TakeEncLve(v: seq<Octet>, rest: seq<Octet>)
    requires |v| <= 65535
    ensures TakeLve(NasIe.EncLv6(v) + rest) == Some(Field(v, rest))
  {
    var s := NasIe.EncLv6(v) + rest;
    assert 256 * (|v| / 256) + |v| % 256 == |v|;
    assert s[0] == |v| / 256 && s[1] == |v| % 256;
    assert s[2..2 + |v|] == v && s[2 + |v|..] == rest;
  }

  /** Elements of a distinguishable schema have the formats it expects. */
  lemma FormatsFromEmbedding(schema: Schema, ies: seq<WfIe>, f: seq<nat>)
    requires Distinguishable(schema) && Embeds(ies, schema, f)
    ensures FormatsAgree(schema, ies)
  {
    forall e, ie | e in schema && ie in ies && Hits(e, Enc(ie)[0]) ensures Fits(e, ie) {
      var b :| 0 <= b < |schema| && schema[b] == e;
      var j :| 0 <= j < |ies| && ies[j] == ie;
      OneEntryFits(schema, ie, f[j], b);
    }
  }

  lemma OptionalsRoundTrip(schema: Schema, ies: seq<WfIe>, f: seq<nat>)
    requires Distinguishable(schema) && Embeds(ies, schema, f)
    ensures Greedy(schema, ies) == f
    ensures Decode(schema, EncAll(ies)) == Some(Decoded(KeptAll(schema, ies, f), []))
  {
    FormatsFromEmbedding(schema, ies, f);
    DecodesAll(schema, ies, f);
    var g := Greedy(schema, ies);
    forall j | 0 <= j < |f| ensures g[j] == f[j] {
      FitsHits(schema[g[j]], ies[j]);
      OneEntryFits(schema, ies[j], f[j], g[j]);
    }
  }

  lemma FitsHits(e: Entry, ie: WfIe)
    requires Fits(e, ie)
    ensures Hits(e, Enc(ie)[0])
  {
  }

  /** Decoding a built Attach Request gives back its fields and its optionals, type 1 values masked. */
  lemma AttachRoundTrip(sc: Schemas, a: AttachFields, ies: seq<WfIe>, f: seq<nat>)
    requires FieldsOk(a) && Distinguishable(sc.attach) && Embeds(ies, sc.attach, f)
    ensures DecNas(sc, EncAttach(a, ies))
         == Some(Result(true, Message(7, 0, AttachBody(
              Attach(a.attachType, a.ksi, a.mobileId, a.capability, a.esm, KeptAll(sc.attach, ies, f))))))
  {
    OptionalsRoundTrip(sc.attach, ies, f);
    MandatoryRoundTrip(sc.attach, a, EncAll(ies));
    DispatchAttach(sc, EncAttachBody(a, ies));
  }

  lemma DispatchAttach(sc: Schemas, body: seq<Octet>)
    requires DecAttach(sc.attach, body).Some?
    ensures DecNas(sc, [0x07, 0x41] + body)
         == Some(Result(true, Message(7, 0, AttachBody(DecAttach(sc.attach, body).value))))
  {
    var s := [0x07, 0x41] + body;
    assert s[1..] == [0x41] + body && s[1..][1..] == body;
  }

  lemma Nibbles(high: Octet, low: Octet)
    requires high < 16 && low < 16
    ensures Low(16 * high + low) == low && High(16 * high + low) == high
  {
  }

  /** Taking one mandatory field off the front at a time leaves `tail`. */
  ghost predicate InTurn(a: AttachFields, s: seq<Octet>, tail: seq<Octet>) {
    && FieldsOk(a) && s != [] && s[0] == 16 * a.ksi + a.attachType
    && exists s2, s3 ::
         && TakeLv(s[1..]) == Some(Field(a.mobileId, s2)) && TakeLv(s2) == Some(Field(a.capability, s3))
         && TakeLve(s3) == Some(Field(a.esm, tail))
  }

  lemma TakesInTurn(a: AttachFields, tail: seq<Octet>)
    requires FieldsOk(a)
    ensures InTurn(a, EncAttachHead(a, tail), tail)
  {
    var s3 := NasIe.EncLv6(a.esm) + tail;
    var s2 := NasIe.EncLv4(a.capability) + s3;
    assert EncAttachHead(a, tail)[1..] == NasIe.EncLv4(a.mobileId) + s2;
    TakeEncLv(a.mobileId, s2);
    TakeEncLv(a.capability, s3);
    TakeEncLve(a.esm, tail);
  }

  lemma AttachFieldByField(schema: Schema, a: AttachFields, s: seq<Octet>, tail: seq<Octet>)
    requires InTurn(a, s, tail) && Decode(schema, tail).Some?
    ensures DecAttach(schema, s)
         == Some(Attach(a.attachType, a.ksi, a.mobileId, a.capability, a.esm, Decode(schema, tail).value.opts))
  {
    Nibbles(a.ksi, a.attachType);
  }

  lemma MandatoryRoundTrip(schema: Schema, a: AttachFields, tail: seq<Octet>)
    requires FieldsOk(a) && Decode(schema, tail).Some?
    ensures DecAttach(schema, EncAttachHead(a, tail))
         == Some(Attach(a.attachType, a.ksi, a.mobileId, a.capability, a.esm, Decode(schema, tail).value.opts))
  {
    TakesInTurn(a, tail);
    AttachFieldByField(schema, a, EncAttachHead(a, tail), tail);
  }

  function EncTau(updateType: Octet, ksi: Octet, guti: seq<Octet>, ies: seq<WfIe>): seq<Octet>
    requires updateType < 16 && ksi < 16 && |guti| <= 255
  {
    [0x07, 0x48] + EncTauBody(updateType, ksi, guti, EncAll(ies))
  }

  /** The mandatory fields in front of `tail`. */
  function EncTauBody(updateType: Octet, ksi: Octet, guti: seq<Octet>, tail: seq<Octet>): seq<Octet>
    requires updateType < 16 && ksi < 16 && |guti| <= 255
  {
    [16 * ksi + updateType] + (NasIe.EncLv4(guti) + tail)
  }

  /** A body whose first octet is followed by the GUTI and then by the optionals. */
  lemma TauBodySplits(schema: Schema, s: seq<Octet>, rest: seq<Octet>, guti: seq<Octet>, tail: seq<Octet>)
    requires s != [] && s[1..] == rest && TakeLv(rest) == Some(Field(guti, tail)) && Decode(schema, tail).Some?
    ensures DecTau(schema, s) == Some(Tau(Low(s[0]), High(s[0]), guti, Decode(schema, tail).value.opts))
  {
  }

  lemma TauBodyRoundTrip(schema: Schema, updateType: Octet, ksi: Octet, guti: seq<Octet>, tail: seq<Octet>)
    requires updateType < 16 && ksi < 16 && |guti| <= 255 && Decode(schema, tail).Some?
    ensures DecTau(schema, EncTauBody(updateType, ksi, guti, tail))
         == Some(Tau(updateType, ksi, guti, Decode(schema, tail).value.opts))
  {
    var s, rest := EncTauBody(updateType, ksi, guti, tail), NasIe.EncLv4(guti) + tail;
    assert Low(s[0]) == updateType && High(s[0]) == ksi by { Nibbles(ksi, updateType); }
    assert s[1..] == rest;
    assert TakeLv(rest) == Some(Field(guti, tail)) by { TakeEncLv(guti, tail); }
    TauBodySplits(schema, s, rest, guti, tail);
  }

  /** The same for a Tracking Area Update Request. */
  lemma TauRoundTrip(sc: Schemas, updateType: Octet, ksi: Octet, guti: seq<Octet>, ies: seq<WfIe>, f: seq<nat>)
    requires updateType < 16 && ksi < 16 && |guti| <= 255
    requires Distinguishable(sc.tau) && Embeds(ies, sc.tau, f)
    ensures DecNas(sc, EncTau(updateType, ksi, guti, ies))
         == Some(Result(true, Message(7, 0, TauBody(Tau(updateType, ksi, guti, KeptAll(sc.tau, ies, f))))))
  {
    OptionalsRoundTrip(sc.tau, ies, f);
    TauBodyRoundTrip(sc.tau, updateType, ksi, guti, EncAll(ies));
    DispatchTau(sc, EncTauBody(updateType, ksi, guti, EncAll(ies)));
  }

  lemma DispatchTau(sc: Schemas, body: seq<Octet>)
    requires DecTau(sc.tau, body).Some?
    ensures DecNas(sc, [0x07, 0x48] + body)
         == Some(Result(true, Message(7, 0, TauBody(DecTau(sc.tau, body).value))))
  {
    var s := [0x07, 0x48] + body;
    assert s[1..] == [0x48] + body && s[1..][1..] == body;
  }

  /** The mandatory octet in front of `tail`. */
  function EncPdnBody(requestType: Octet, pdnType: Octet, tail: seq<Octet>): seq<Octet>
    requires requestType < 16 && pdnType < 16
  {
    [16 * pdnType + requestType] + tail
  }

  lemma PdnBodyRoundTrip(schema: Schema, requestType: Octet, pdnType: Octet, tail: seq<Octet>)
    requires requestType < 16 && pdnType < 16 && Decode(schema, tail).Some?
    ensures DecPdn(schema, EncPdnBody(requestType, pdnType, tail))
         == Some(Pdn(requestType, pdnType, Decode(schema, tail).value.opts))
  {
    Nibbles(pdnType, requestType);
    assert EncPdnBody(requestType, pdnType, tail)[1..] == tail;
  }

  lemma DispatchPdn(sc: Schemas, pti: Octet, body: seq<Octet>)
    requires DecPdn(sc.pdn, body).Some?
    ensures DecNas(sc, [0x02, pti, 0xD0] + body)
         == Some(Result(true, Message(2, 0, PdnBody(pti, DecPdn(sc.pdn, body).value))))
  {
    var s := [0x02, pti, 0xD0] + body;
    assert s[1..] == [pti, 0xD0] + body && s[1..][2..] == body;
  }

  /** The same for a PDN Connectivity Request, which travels as the ESM message of an Attach Request. */
  lemma PdnRoundTrip(sc: Schemas, pti: Octet, requestType: Octet, pdnType: Octet, ies: seq<WfIe>, f: seq<nat>)
    requires requestType < 16 && pdnType < 16 && Distinguishable(sc.pdn) && Embeds(ies, sc.pdn, f)
    ensures DecNas(sc, [0x02, pti, 0xD0, 16 * pdnType + requestType] + EncAll(ies))
         == Some(Result(true, Message(2, 0, PdnBody(pti, Pdn(requestType, pdnType, KeptAll(sc.pdn, ies, f))))))
  {
    OptionalsRoundTrip(sc.pdn, ies, f);
    PdnBodyRoundTrip(sc.pdn, requestType, pdnType, EncAll(ies));
    var body := EncPdnBody(requestType, pdnType, EncAll(ies));
    assert [0x02, pti, 0xD0, 16 * pdnType + requestType] + EncAll(ies) == [0x02, pti, 0xD0] + body;
    DispatchPdn(sc, pti, body);
  }

  // ---- building an Attach Request with the writers ----

  lemma PutExtends(buf: seq<Octet>, at: nat, x: seq<Octet>)
    requires at + |x| <= |buf|
    ensures Put(buf, at, x)[..at + |x|] == buf[..at] + x
  {
  }

  /** One optional: nasIe_tv_t3, nasIe_tlv_t4, or for type 1 the two nibble writers. */
  method WriteIe(out: array<Octet>, p: nat, ie: WfIe) returns (q: nat)
    requires p + |Enc(ie)| <= out.Length
    modifies out
    ensures q == p + |Enc(ie)| && out[..q] == old(out[..p]) + Enc(ie)
  {
    PutExtends(out[..], p, Enc(ie));
    match ie {
      case T1(tag, value) => q := NasIe.VT1Pair(out, p, value, tag);
      case T3(tag, v) => q := NasIe.TvT3(out, p, tag, v);
      case T4(tag, v) => q := NasIe.TlvT4(out, p, tag, v);
    }
  }

  method WriteAll(out: array<Octet>, p: nat, ies: seq<WfIe>) returns (q: nat)
    requires p + |EncAll(ies)| <= out.Length
    modifies out
    ensures q == p + |EncAll(ies)| && out[..q] == old(out[..p]) + EncAll(ies)
  {
    ghost var target := out[..p] + EncAll(ies);
    q := p;
    assert ies[0..] == ies;
    var k := 0;
    while k < |ies|
      invariant 0 <= k <= |ies| && q + |EncAll(ies[k..])| == p + |EncAll(ies)|
      invariant q <= out.Length && out[..q] + EncAll(ies[k..]) == target
    {
      EncAllSplit(ies[k..]);
      assert ies[k..][0] == ies[k] && ies[k..][1..] == ies[k + 1..];
      Associate(out[..q], Enc(ies[k]), EncAll(ies[k + 1..]));
      q := WriteIe(out, q, ies[k]);
      k := k + 1;
    }
    assert ies[k..] == [];
  }

  /** newNASMsg_EMM, encaps_EMM and the nibble pair. */
  method WriteAttachHead(out: array<Octet>, a: AttachFields) returns (q: nat)
    requires FieldsOk(a) && out.Length >= 3
    modifies out
    ensures q == 3 && out[..3] == [0x07, 0x41, 16 * a.ksi + a.attachType]
  {
    q := NasIe.VT1Pair(out, 0, 7, 0);
    q := NasIe.VT3(out, q, [0x41], 1);
    q := NasIe.VT1Pair(out, q, a.attachType, a.ksi);
  }

  /** The two LV fields and the LV-E container. */
  method WriteAttachFields(out: array<Octet>, p: nat, a: AttachFields) returns (q: nat)
    requires FieldsOk(a) && p + 4 + |a.mobileId| + |a.capability| + |a.esm| <= out.Length
    modifies out
    ensures q == p + 4 + |a.mobileId| + |a.capability| + |a.esm|
    ensures out[..q] == old(out[..p]) + (NasIe.EncLv4(a.mobileId) + (NasIe.EncLv4(a.capability) + NasIe.EncLv6(a.esm)))
  {
    ghost var pre := out[..p];
    PutExtends(out[..], p, NasIe.EncLv4(a.mobileId));
    q := NasIe.LvT4(out, p, a.mobileId);
    PutExtends(out[..], q, NasIe.EncLv4(a.capability));
    q := NasIe.LvT4(out, q, a.capability);
    PutExtends(out[..], q, NasIe.EncLv6(a.esm));
    q := NasIe.LvT6(out, q, a.esm);
    Associate(NasIe.EncLv4(a.mobileId), NasIe.EncLv4(a.capability), NasIe.EncLv6(a.esm));
    Associate(pre, NasIe.EncLv4(a.mobileId) + NasIe.EncLv4(a.capability), NasIe.EncLv6(a.esm));
    Associate(pre, NasIe.EncLv4(a.mobileId), NasIe.EncLv4(a.capability));
  }

  /** The writer calls that make an Attach Request. */
  method BuildAttach(out: array<Octet>, a: AttachFields, ies: seq<WfIe>) returns (len: nat)
    requires FieldsOk(a) && |EncAttach(a, ies)| <= out.Length
    modifies out
    ensures len == |EncAttach(a, ies)| && out[..len] == EncAttach(a, ies)
  {
    EncAttachLayout(a, ies);
    var q := WriteAttachHead(out, a);
    q := WriteAttachFields(out, q, a);
    len := WriteAll(out, q, ies);
  }

  lemma EncAttachLayout(a: AttachFields, ies: seq<WfIe>)
    requires FieldsOk(a)
    ensures EncAttach(a, ies)
         == [0x07, 0x41, 16 * a.ksi + a.attachType]
            + (NasIe.EncLv4(a.mobileId) + (NasIe.EncLv4(a.capability) + NasIe.EncLv6(a.esm))) + EncAll(ies)
  {
  }

  /**
   Looking optionals up in the 17 declared slots of a decoded Attach Request finds every one that
   was encoded exactly when at most 17 of the 18 were.
   */
  lemma AttachLookup(ies: seq<WfIe>, f: seq<nat>, empty: seq<seq<Octet>>)
    requires Embeds(ies, ATTACH, f) && |ies| + |empty| >= 17 && forall s :: s in empty ==> s == []
    ensures AllFound(ATTACH, f, (KeptAll(ATTACH, ies, f) + empty)[..17]) <==> |ies| <= 17
  {
    SchemasDistinguishable();
    LookupIsExact(ATTACH, ies, f, empty, 17);
  }

  /** The same for the 22 declared slots of a Tracking Area Update Request, of whose calls 24 can hit. */
  lemma TauLookup(ies: seq<WfIe>, f: seq<nat>, empty: seq<seq<Octet>>)
    requires Embeds(ies, TAU, f) && |ies| + |empty| >= 22 && forall s :: s in empty ==> s == []
    ensures AllFound(TAU, f, (KeptAll(TAU, ies, f) + empty)[..22]) <==> |ies| <= 22
  {
    SchemasDistinguishable();
    LookupIsExact(TAU, ies, f, empty, 22);
  }

  /** How many slots are enough for every message: 18 and 24, one and two more than declared. */
  lemma DeclaredSlotsAreShort(sc: Schemas, n: nat)
    requires sc == SOURCE
    ensures (forall ies: seq<WfIe> :: Subsequence(ies, sc.attach) ==> |ies| <= n) <==> n >= 18
    ensures (forall ies: seq<WfIe> :: Subsequence(ies, sc.tau) ==> |ies| <= n) <==> n >= 24
  {
    SchemasDistinguishable();
    SlotsAreExact(sc.attach, n);
    SlotsAreExact(sc.tau, n);
  }

  /** The messages of the source, with the call sequences of the source. */
  lemma SourceRoundTrips(sc: Schemas, a: AttachFields, t: Octet, ksi: Octet, guti: seq<Octet>, ies: seq<WfIe>,
                         f: seq<nat>)
    requires sc == SOURCE && FieldsOk(a) && t < 16 && ksi < 16 && |guti| <= 255
    ensures Embeds(ies, sc.attach, f) ==>
              DecNas(sc, EncAttach(a, ies)) == Some(Result(true, Message(7, 0, AttachBody(
                Attach(a.attachType, a.ksi, a.mobileId, a.capability, a.esm, KeptAll(sc.attach, ies, f))))))
    ensures Embeds(ies, sc.tau, f) ==>
              DecNas(sc, EncTau(t, ksi, guti, ies)) == Some(Result(true, Message(7, 0, TauBody(
                Tau(t, ksi, guti, KeptAll(sc.tau, ies, f))))))
  {
    SchemasDistinguishable();
    if Embeds(ies, sc.attach, f) { AttachRoundTrip(sc, a, ies, f); }
    if Embeds(ies, sc.tau, f) { TauRoundTrip(sc, t, ksi, guti, ies, f); }
  }

  /** An Attach Request with one optional for every call fills a slot for each. */
  lemma FullAttach(schema: Schema, a: AttachFields)
    requires Distinguishable(schema) && FieldsOk(a)
    ensures var d := DecAttach(schema, EncAttachBody(a, Samples(schema)));
            d.Some? && d.value.opts == KeptAll(schema, Samples(schema), Identity(|schema|))
  {
    SamplesEmbed(schema);
    OptionalsRoundTrip(schema, Samples(schema), Identity(|schema|));
    MandatoryRoundTrip(schema, a, EncAll(Samples(schema)));
  }

  /** Searched in fewer slots, one of them is not found. */
  lemma FullMessageLosesOne(schema: Schema, n: nat)
    requires Distinguishable(schema) && n < |schema|
    ensures !AllFound(schema, Identity(|schema|), KeptAll(schema, Samples(schema), Identity(|schema|))[..n])
  {
    var kept := KeptAll(schema, Samples(schema), Identity(|schema|));
    SamplesEmbed(schema);
    LookupIsExact(schema, Samples(schema), Identity(|schema|), [], n);
    assert kept + [] == kept;
  }

  /** In the source's own terms: a message whose 18 optionals neither fit nor are all found in the 17 slots. */
  lemma FullAttachOverflows(sc: Schemas, a: AttachFields)
    requires sc == SOURCE && FieldsOk(a)
    ensures var d := DecAttach(sc.attach, EncAttachBody(a, Samples(sc.attach)));
            && d.Some? && |d.value.opts| == 18
            && !AllFound(sc.attach, Identity(|sc.attach|), d.value.opts[..17])
  {
    SourceAttach(sc);
    FullAttachOf(sc.attach, a);
  }

  lemma SourceAttach(sc: Schemas)
    requires sc == SOURCE
    ensures |sc.attach| == 18 && Distinguishable(sc.attach)
  {
    SchemasDistinguishable();
  }

  lemma FullAttachOf(schema: Schema, a: AttachFields)
    requires |schema| == 18 && Distinguishable(schema) && FieldsOk(a)
    ensures var d := DecAttach(schema, EncAttachBody(a, Samples(schema)));
            && d.Some? && |d.value.opts| == 18
            && !AllFound(schema, Identity(|schema|), d.value.opts[..17])
  {
    FullAttach(schema, a);
    FullMessageLosesOne(schema, 17);
  }

  /** A Tracking Area Update Request with one optional for every call fills a slot for each. */
  lemma FullTau(schema: Schema, t: Octet, ksi: Octet, guti: seq<Octet>)
    requires Distinguishable(schema) && t < 16 && ksi < 16 && |guti| <= 255
    ensures var d := DecTau(schema, EncTauBody(t, ksi, guti, EncAll(Samples(schema))));
            d.Some? && d.value.opts == KeptAll(schema, Samples(schema), Identity(|schema|))
  {
    SamplesEmbed(schema);
    OptionalsRoundTrip(schema, Samples(schema), Identity(|schema|));
    TauBodyRoundTrip(schema, t, ksi, guti, EncAll(Samples(schema)));
  }

  /** A message with an optional for each of 24 calls: all are decoded, one is not found in 22 slots. */
  ghost predicate TauLosesOne(schema: Schema, t: Octet, ksi: Octet, guti: seq<Octet>) {
    && t < 16 && ksi < 16 && |guti| <= 255
    && var d := DecTau(schema, EncTauBody(t, ksi, guti, EncAll(Samples(schema))));
       && d.Some? && |d.value.opts| == |schema| == 24
       && !AllFound(schema, Identity(|schema|), d.value.opts[..22])
  }

  lemma FullTauOf(schema: Schema, t: Octet, ksi: Octet, guti: seq<Octet>)
    requires |schema| == 24 && Distinguishable(schema) && t < 16 && ksi < 16 && |guti| <= 255
    ensures TauLosesOne(schema, t, ksi, guti)
  {
    FullTau(schema, t, ksi, guti);
    FullMessageLosesOne(schema, 22);
  }

  lemma SourceTau(sc: Schemas) returns (schema: Schema)
    requires sc == SOURCE
    ensures schema == sc.tau && |schema| == 24 && Distinguishable(schema)
  {
    schema := sc.tau;
    SchemasDistinguishable();
  }

  /** A Tracking Area Update Request whose 24 optionals neither fit nor are all found in the 22 slots. */
  lemma FullTauOverflows(sc: Schemas, t: Octet, ksi: Octet, guti: seq<Octet>)
    requires sc == SOURCE && t < 16 && ksi < 16 && |guti| <= 255
    ensures TauLosesOne(sc.tau, t, ksi, guti)
  {
    var schema := SourceTau(sc);
    FullTauOf(schema, t, ksi, guti);
  }

  /** The type 1 writer puts the tag where the decoder does not look, unless tag and value agree. */
  lemma TvT1Recognised(t: Octet, v: Octet, mask: Octet)
    requires t < 16 && v < 16
    ensures Hits(Tv1(t, mask), 16 * Low(v) + Low(t)) <==> v == t
  {
  }
}
