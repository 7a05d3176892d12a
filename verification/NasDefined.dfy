/**
 The three requests against the message definitions of TS 24.301: octets put together from the tables of the
 standard, with no reference to the decoder, are decoded to the fields and elements they were put together from.
 */
module NasDefined {
  import opened Common
  import opened Octets
  import NasIe
  import opened NasDecoder
  import opened NasSchemas
  import opened NasMessages

  /** An optional element: its tag and the octets of its value. */
  datatype Element = Element(tag: Octet, v: seq<Octet>)

  /** The value has the size the format asks for. */
  predicate Obeys(format: Format, v: seq<Octet>) {
    match format
    case Half(_) => |v| == 1 && v[0] < 16
    case Fixed(n) => |v| == n
    case Variable => |v| <= 255
  }

  /** The octets of an element on the wire. */
  function Coded(format: Format, tag: Octet, v: seq<Octet>): seq<Octet>
    requires Obeys(format, v)
  {
    match format
    case Half(_) => [(16 * tag + v[0]) % 256]
    case Fixed(_) => [tag] + v
    case Variable => [tag, |v|] + v
  }

  /** The octets kept of it: all, but of half an octet of value only what the message tells apart. */
  function Stored(format: Format, tag: Octet, v: seq<Octet>): seq<Octet>
    requires Obeys(format, v)
  {
    match format
    case Half(values) => [(16 * tag + if values == 0 then 0 else v[0] % values) % 256]
    case Fixed(_) => [tag] + v
    case Variable => [tag, |v|] + v
  }

  /** The elements are those of a definition, each with a value of its format, in the order of the message. */
  ghost predicate Defined(row: Octet -> Option<Row>, es: seq<Element>) {
    && (forall j :: 0 <= j < |es| ==> row(es[j].tag).Some? && Obeys(row(es[j].tag).value.format, es[j].v))
    && (forall i, j :: 0 <= i < j < |es| ==> row(es[i].tag).value.place < row(es[j].tag).value.place)
  }

  lemma DefinedTail(row: Octet -> Option<Row>, es: seq<Element>)
    requires Defined(row, es) && es != []
    ensures Defined(row, es[1..])
  {
  }

  ghost function CodedAll(row: Octet -> Option<Row>, es: seq<Element>): seq<Octet>
    requires Defined(row, es)
  {
    if es == [] then []
    else
      DefinedTail(row, es);
      Coded(row(es[0].tag).value.format, es[0].tag, es[0].v) + CodedAll(row, es[1..])
  }

  ghost function StoredAll(row: Octet -> Option<Row>, es: seq<Element>): (s: seq<seq<Octet>>)
    requires Defined(row, es)
    ensures |s| == |es|
  {
    seq(|es|, j requires 0 <= j < |es| => Stored(row(es[j].tag).value.format, es[j].tag, es[j].v))
  }

  // ---- in the decoder's terms ----

  function AsIe(format: Format, tag: Octet, v: seq<Octet>): (ie: Ie)
    requires Obeys(format, v)
  {
    match format
    case Half(_) => T1(tag, v[0])
    case Fixed(_) => T3(tag, v)
    case Variable => T4(tag, v)
  }

  /** A call of the definition takes its element, reads these octets and keeps those. */
  lemma CallTakes(format: Format, tag: Octet, v: seq<Octet>)
    requires Obeys(format, v) && EntryOk(CallFor(tag, format))
    ensures var e, ie := CallFor(tag, format), AsIe(format, tag, v);
            && IeOk(ie) && Fits(e, ie) && Enc(ie) == Coded(format, tag, v) && Kept(e, ie) == Stored(format, tag, v)
  {
  }

  ghost function AsIes(row: Octet -> Option<Row>, es: seq<Element>): (ies: seq<Ie>)
    requires Defined(row, es)
    ensures |ies| == |es|
    ensures forall j :: 0 <= j < |es| ==> ies[j] == AsIe(row(es[j].tag).value.format, es[j].tag, es[j].v)
  {
    seq(|es|, j requires 0 <= j < |es| => AsIe(row(es[j].tag).value.format, es[j].tag, es[j].v))
  }

  ghost function Places(row: Octet -> Option<Row>, es: seq<Element>): (f: seq<nat>)
    requires Defined(row, es)
    ensures |f| == |es| && forall j :: 0 <= j < |es| ==> f[j] == row(es[j].tag).value.place
  {
    seq(|es|, j requires 0 <= j < |es| => row(es[j].tag).value.place)
  }

  lemma ElementTaken(schema: Schema, row: Octet -> Option<Row>, es: seq<Element>, j: nat)
    requires Implements(schema, row) && Defined(row, es) && j < |es|
    ensures var r, ie := row(es[j].tag).value, AsIes(row, es)[j];
            && r.place < |schema| && EntryOk(schema[r.place]) && IeOk(ie) && Fits(schema[r.place], ie)
            && Enc(ie) == Coded(r.format, es[j].tag, es[j].v)
            && Kept(schema[r.place], ie) == Stored(r.format, es[j].tag, es[j].v)
  {
    var r := row(es[j].tag).value;
    assert schema[r.place] == CallFor(es[j].tag, r.format);
    assert schema[r.place] in schema;
    CallTakes(r.format, es[j].tag, es[j].v);
  }

  /** The elements of a definition, as a stream that embeds in the call sequence. */
  lemma DefinedEmbeds(schema: Schema, row: Octet -> Option<Row>, es: seq<Element>) returns (ies: seq<WfIe>, f: seq<nat>)
    requires Implements(schema, row) && Defined(row, es)
    ensures ies == AsIes(row, es) && Embeds(ies, schema, f) && KeptAll(schema, ies, f) == StoredAll(row, es)
  {
    var raw := AsIes(row, es);
    forall j | 0 <= j < |raw| ensures IeOk(raw[j]) { ElementTaken(schema, row, es, j); }
    ies, f := raw, Places(row, es);
    forall j | 0 <= j < |f|
      ensures f[j] < |schema| && Fits(schema[f[j]], ies[j]) && Kept(schema[f[j]], ies[j]) == StoredAll(row, es)[j]
    {
      ElementTaken(schema, row, es, j);
    }
  }

  lemma {:induction false} CodedIsEncAll(schema: Schema, row: Octet -> Option<Row>, es: seq<Element>, ies: seq<WfIe>)
    requires Implements(schema, row) && Defined(row, es) && ies == AsIes(row, es)
    ensures EncAll(ies) == CodedAll(row, es)
    decreases |es|
  {
    if es != [] {
      DefinedTail(row, es);
      ElementTaken(schema, row, es, 0);
      assert ies[1..] == AsIes(row, es[1..]);
      CodedIsEncAll(schema, row, es[1..], ies[1..]);
    }
  }

  /** A call sequence that implements a definition decodes every stream the definition allows, whole. */
  lemma DefinitionDecodes(schema: Schema, row: Octet -> Option<Row>, es: seq<Element>)
    requires Implements(schema, row) && Distinguishable(schema) && Defined(row, es)
    ensures Decode(schema, CodedAll(row, es)) == Some(Decoded(StoredAll(row, es), []))
  {
    var ies, f := DefinedEmbeds(schema, row, es);
    CodedIsEncAll(schema, row, es, ies);
    OptionalsRoundTrip(schema, ies, f);
  }

  // ---- whole messages ----

  /** An Attach Request octet by octet. */
  lemma AttachDecodes(sc: Schemas, a: AttachFields, es: seq<Element>, s: seq<Octet>)
    requires sc == SOURCE && FieldsOk(a) && Defined(AttachRow, es)
    requires s == [0x07, 0x41, 16 * a.ksi + a.attachType] + ([|a.mobileId|] + a.mobileId)
                  + ([|a.capability|] + a.capability) + ([|a.esm| / 256, |a.esm| % 256] + a.esm)
                  + CodedAll(AttachRow, es)
    ensures DecNas(sc, s) == Some(Result(true, Message(7, 0, AttachBody(
              Attach(a.attachType, a.ksi, a.mobileId, a.capability, a.esm, StoredAll(AttachRow, es))))))
  {
    var schema, row := SourceAttach(sc);
    DefinitionDecodes(schema, row, es);
    AttachWhole(sc, a, CodedAll(row, es), StoredAll(row, es), s);
  }

  lemma AttachWhole(sc: Schemas, a: AttachFields, tail: seq<Octet>, opts: seq<seq<Octet>>, s: seq<Octet>)
    requires FieldsOk(a) && Decode(sc.attach, tail) == Some(Decoded(opts, []))
    requires s == [0x07, 0x41, 16 * a.ksi + a.attachType] + ([|a.mobileId|] + a.mobileId)
                  + ([|a.capability|] + a.capability) + ([|a.esm| / 256, |a.esm| % 256] + a.esm) + tail
    ensures DecNas(sc, s) == Some(Result(true, Message(7, 0, AttachBody(
              Attach(a.attachType, a.ksi, a.mobileId, a.capability, a.esm, opts)))))
  {
    AttachLaidOut(a, tail, s);
    MandatoryRoundTrip(sc.attach, a, tail);
    DispatchAttach(sc, EncAttachHead(a, tail));
  }

  lemma SourceAttach(sc: Schemas) returns (schema: Schema, row: Octet -> Option<Row>)
    requires sc == SOURCE
    ensures schema == sc.attach && row == AttachRow && Implements(schema, row) && Distinguishable(schema)
  {
    schema, row := sc.attach, AttachRow;
    SchemasDistinguishable();
    AttachImplements();
  }

  lemma AttachLaidOut(a: AttachFields, tail: seq<Octet>, s: seq<Octet>)
    requires FieldsOk(a)
    requires s == [0x07, 0x41, 16 * a.ksi + a.attachType] + ([|a.mobileId|] + a.mobileId)
                  + ([|a.capability|] + a.capability) + ([|a.esm| / 256, |a.esm| % 256] + a.esm) + tail
    ensures s == [0x07, 0x41] + EncAttachHead(a, tail)
  {
    assert EncAttachHead(a, tail) == [16 * a.ksi + a.attachType] + ([|a.mobileId|] + a.mobileId)
                  + ([|a.capability|] + a.capability) + ([|a.esm| / 256, |a.esm| % 256] + a.esm) + tail;
  }

  lemma SourceTau(sc: Schemas) returns (schema: Schema, row: Octet -> Option<Row>)
    requires sc == SOURCE
    ensures schema == sc.tau && row == TauRow && Implements(schema, row) && Distinguishable(schema)
  {
    schema, row := sc.tau, TauRow;
    SchemasDistinguishable();
    TauImplements();
  }

  lemma TauLaidOut(sc: Schemas, updateType: Octet, ksi: Octet, guti: seq<Octet>, tail: seq<Octet>,
                   opts: seq<seq<Octet>>, s: seq<Octet>)
    requires updateType < 16 && ksi < 16 && |guti| <= 255 && Decode(sc.tau, tail) == Some(Decoded(opts, []))
    requires s == [0x07, 0x48, 16 * ksi + updateType, |guti|] + guti + tail
    ensures DecNas(sc, s) == Some(Result(true, Message(7, 0, TauBody(Tau(updateType, ksi, guti, opts)))))
  {
    var body := EncTauBody(updateType, ksi, guti, tail);
    assert s == [0x07, 0x48] + body by { TauOctets(updateType, ksi, guti, tail); }
    assert DecTau(sc.tau, body) == Some(Tau(updateType, ksi, guti, opts)) by {
      TauBodyRoundTrip(sc.tau, updateType, ksi, guti, tail);
    }
    DispatchTau(sc, body);
  }

  lemma TauOctets(updateType: Octet, ksi: Octet, guti: seq<Octet>, tail: seq<Octet>)
    requires updateType < 16 && ksi < 16 && |guti| <= 255
    ensures [0x07, 0x48, 16 * ksi + updateType, |guti|] + guti + tail
         == [0x07, 0x48] + EncTauBody(updateType, ksi, guti, tail)
  {
    assert EncTauBody(updateType, ksi, guti, tail) == [16 * ksi + updateType, |guti|] + guti + tail;
  }

  /** A Tracking Area Update Request octet by octet. */
  lemma TauDecodes(sc: Schemas, updateType: Octet, ksi: Octet, guti: seq<Octet>, es: seq<Element>, s: seq<Octet>)
    requires sc == SOURCE && updateType < 16 && ksi < 16 && |guti| <= 255 && Defined(TauRow, es)
    requires s == [0x07, 0x48, 16 * ksi + updateType, |guti|] + guti + CodedAll(TauRow, es)
    ensures DecNas(sc, s)
         == Some(Result(true, Message(7, 0, TauBody(Tau(updateType, ksi, guti, StoredAll(TauRow, es))))))
  {
    var schema, row := SourceTau(sc);
    DefinitionDecodes(schema, row, es);
    TauLaidOut(sc, updateType, ksi, guti, CodedAll(row, es), StoredAll(row, es), s);
  }

  lemma SourcePdn(sc: Schemas) returns (schema: Schema, row: Octet -> Option<Row>)
    requires sc == SOURCE
    ensures schema == sc.pdn && row == PdnRow && Implements(schema, row) && Distinguishable(schema)
  {
    schema, row := sc.pdn, PdnRow;
    SchemasDistinguishable();
    PdnImplements();
  }

  lemma PdnLaidOut(sc: Schemas, pti: Octet, requestType: Octet, pdnType: Octet, tail: seq<Octet>,
                   opts: seq<seq<Octet>>, s: seq<Octet>)
    requires requestType < 16 && pdnType < 16 && Decode(sc.pdn, tail) == Some(Decoded(opts, []))
    requires s == [0x02, pti, 0xD0, 16 * pdnType + requestType] + tail
    ensures DecNas(sc, s) == Some(Result(true, Message(2, 0, PdnBody(pti, Pdn(requestType, pdnType, opts)))))
  {
    PdnBodyRoundTrip(sc.pdn, requestType, pdnType, tail);
    assert s == [0x02, pti, 0xD0] + EncPdnBody(requestType, pdnType, tail);
    DispatchPdn(sc, pti, EncPdnBody(requestType, pdnType, tail));
  }

  /** A PDN Connectivity Request octet by octet. */
  lemma PdnDecodes(sc: Schemas, pti: Octet, requestType: Octet, pdnType: Octet, es: seq<Element>, s: seq<Octet>)
    requires sc == SOURCE && requestType < 16 && pdnType < 16 && Defined(PdnRow, es)
    requires s == [0x02, pti, 0xD0, 16 * pdnType + requestType] + CodedAll(PdnRow, es)
    ensures DecNas(sc, s)
         == Some(Result(true, Message(2, 0, PdnBody(pti, Pdn(requestType, pdnType, StoredAll(PdnRow, es))))))
  {
    var schema, row := SourcePdn(sc);
    DefinitionDecodes(schema, row, es);
    PdnLaidOut(sc, pti, requestType, pdnType, CodedAll(row, es), StoredAll(row, es), s);
  }

  /** Everything else dec_NAS is given: other header types, other messages. */
  lemma OthersAreKept(sc: Schemas, x: Octet, pti: Octet, t: Octet, rest: seq<Octet>)
    ensures DecNas(sc, []) == Some(Result(false, Message(0, 0, Nothing)))
    ensures x >= 16 ==> DecNas(sc, [x] + rest) == Some(Result(false, Message(x % 16, x / 16, Nothing)))
    ensures t !in {0x41, 0x48} ==> DecNas(sc, [0x07, t] + rest) == Some(Result(true, Message(7, 0, OtherEmm(t, rest))))
    ensures x < 16 && x != 7 && t != 0xD0 ==>
              DecNas(sc, [x, pti, t] + rest) == Some(Result(true, Message(x, 0, OtherEsm(pti, t, rest))))
  {
    assert ([0x07, t] + rest)[1..] == [t] + rest && ([t] + rest)[1..] == rest;
    assert ([x, pti, t] + rest)[1..] == [pti, t] + rest && ([pti, t] + rest)[2..] == rest;
  }
}
