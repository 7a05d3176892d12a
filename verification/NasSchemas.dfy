/**
 The call sequences of NAS/src/NASMessages.c for the optional elements of three messages, and the message definitions
 of TS 24.301 they follow: tag by tag, the place in the message and the format.
 */
module NasSchemas {
  import opened Common
  import opened Octets
  import opened NasDecoder

  // ---- the call sequences ----

  /** One call sequence after another. */
  function Joined(a: Schema, b: Schema): (c: Schema)
    ensures c == a + b
  {
    assert forall e :: e in a + b ==> e in a || e in b;
    a + b
  }

  const ATTACH_FIRST: Schema := [
    Tv3(0x19, 4), Tlv(0x50), Tv3(0x52, 6), Tv3(0x5C, 3), Tlv(0x31), Tv3(0x13, 6), Tv1(0x9, 1), Tlv(0x11), Tlv(0x20)
  ]

  const ATTACH_SECOND: Schema := [
    Tlv(0x40), Tv1(0xF, 1), Tlv(0x5D), Tv1(0xD, 1), Tv1(0xE, 1), Tv1(0xC, 1), Tlv(0x10), Tlv(0x6A), Tlv(0x5E)
  ]

  const ATTACH: Schema := Joined(ATTACH_FIRST, ATTACH_SECOND)

  const TAU_FIRST: Schema := [
    Tv1(0xB, 15), Tv1(0x8, 7), Tv3(0x19, 4), Tlv(0x50), Tv3(0x55, 5), Tlv(0x58), Tv3(0x52, 6), Tv3(0x5C, 3),
    Tv1(0xA, 1), Tlv(0x57), Tlv(0x31), Tv3(0x13, 6)
  ]

  const TAU_SECOND: Schema := [
    Tv1(0x9, 1), Tlv(0x11), Tlv(0x20), Tlv(0x40), Tv1(0xF, 1), Tlv(0x5D), Tv1(0xE, 1), Tv1(0xD, 1), Tv1(0xC, 1),
    Tlv(0x10), Tlv(0x6A), Tlv(0x5E)
  ]

  const TAU: Schema := Joined(TAU_FIRST, TAU_SECOND)

  const PDN: Schema := [Tv1(0xD, 1), Tlv(0x28), Tlv(0x27), Tv1(0xC, 1)]

  /** The call sequences of the three messages. */
  datatype Schemas = Schemas(attach: Schema, tau: Schema, pdn: Schema)

  const SOURCE := Schemas(ATTACH, TAU, PDN)

  // ---- the message definitions ----

  /**
   How an optional element is coded (section 11.2 of TS 24.007): half an octet of tag and a value of which
   `values` are told apart, a tag and so many octets, or a tag, a length octet and that many octets.
   */
  datatype Format = Half(values: nat) | Fixed(octets: nat) | Variable

  datatype Row = Row(place: nat, format: Format)

  /** Optional elements of the ATTACH REQUEST, table 8.2.4.1 of TS 24.301, in the order of the message. */
  function AttachRow(tag: Octet): Option<Row> {
    match tag
    case 0x19 => Some(Row(0, Fixed(3)))   // old P-TMSI signature
    case 0x50 => Some(Row(1, Variable))   // additional GUTI
    case 0x52 => Some(Row(2, Fixed(5)))   // last visited registered TAI
    case 0x5C => Some(Row(3, Fixed(2)))   // DRX parameter
    case 0x31 => Some(Row(4, Variable))   // MS network capability
    case 0x13 => Some(Row(5, Fixed(5)))   // old location area identification
    case 0x09 => Some(Row(6, Half(2)))    // TMSI status
    case 0x11 => Some(Row(7, Variable))   // mobile station classmark 2
    case 0x20 => Some(Row(8, Variable))   // mobile station classmark 3
    case 0x40 => Some(Row(9, Variable))   // supported codecs
    case 0x0F => Some(Row(10, Half(2)))   // additional update type
    case 0x5D => Some(Row(11, Variable))  // voice domain preference
    case 0x0D => Some(Row(12, Half(2)))   // device properties
    case 0x0E => Some(Row(13, Half(2)))   // old GUTI type
    case 0x0C => Some(Row(14, Half(2)))   // MS network feature support
    case 0x10 => Some(Row(15, Variable))  // TMSI based NRI container
    case 0x6A => Some(Row(16, Variable))  // T3324 value
    case 0x5E => Some(Row(17, Variable))  // T3412 extended value
    case _ => None
  }

  /** Optional elements of the TRACKING AREA UPDATE REQUEST, table 8.2.29.1 of TS 24.301. */
  function TauRow(tag: Octet): Option<Row> {
    match tag
    case 0x0B => Some(Row(0, Half(16)))   // non-current native NAS key set identifier
    case 0x08 => Some(Row(1, Half(8)))    // GPRS ciphering key sequence number
    case 0x19 => Some(Row(2, Fixed(3)))   // old P-TMSI signature
    case 0x50 => Some(Row(3, Variable))   // additional GUTI
    case 0x55 => Some(Row(4, Fixed(4)))   // nonce UE
    case 0x58 => Some(Row(5, Variable))   // UE network capability
    case 0x52 => Some(Row(6, Fixed(5)))   // last visited registered TAI
    case 0x5C => Some(Row(7, Fixed(2)))   // DRX parameter
    case 0x0A => Some(Row(8, Half(2)))    // UE radio capability information update needed
    case 0x57 => Some(Row(9, Variable))   // EPS bearer context status
    case 0x31 => Some(Row(10, Variable))  // MS network capability
    case 0x13 => Some(Row(11, Fixed(5)))  // old location area identification
    case 0x09 => Some(Row(12, Half(2)))   // TMSI status
    case 0x11 => Some(Row(13, Variable))  // mobile station classmark 2
    case 0x20 => Some(Row(14, Variable))  // mobile station classmark 3
    case 0x40 => Some(Row(15, Variable))  // supported codecs
    case 0x0F => Some(Row(16, Half(2)))   // additional update type
    case 0x5D => Some(Row(17, Variable))  // voice domain preference
    case 0x0E => Some(Row(18, Half(2)))   // old GUTI type
    case 0x0D => Some(Row(19, Half(2)))   // device properties
    case 0x0C => Some(Row(20, Half(2)))   // MS network feature support
    case 0x10 => Some(Row(21, Variable))  // TMSI based NRI container
    case 0x6A => Some(Row(22, Variable))  // T3324 value
    case 0x5E => Some(Row(23, Variable))  // T3412 extended value
    case _ => None
  }

  /** Optional elements of the PDN CONNECTIVITY REQUEST, table 8.3.20.1 of TS 24.301. */
  function PdnRow(tag: Octet): Option<Row> {
    match tag
    case 0x0D => Some(Row(0, Half(2)))    // ESM information transfer flag
    case 0x28 => Some(Row(1, Variable))   // access point name
    case 0x27 => Some(Row(2, Variable))   // protocol configuration options
    case 0x0C => Some(Row(3, Half(2)))    // device properties
    case _ => None
  }

  // ---- the call sequences follow the definitions ----

  predicate DistinctTags(schema: Schema) {
    forall i, j :: 0 <= i < j < |schema| ==> schema[i].tag != schema[j].tag
  }

  lemma DistinctTagsSuffice(schema: Schema)
    requires DistinctTags(schema)
    ensures Distinguishable(schema)
  {
    forall i, j, octet: Octet | 0 <= i < j < |schema|
      ensures !(Hits(schema[i], octet) && Hits(schema[j], octet))
    {
      assert EntryOk(schema[i]) && EntryOk(schema[j]);
    }
  }

  /** Tags that tell their own place differ. */
  lemma PlacesDiffer(schema: Schema, place: Octet -> nat)
    requires forall i :: 0 <= i < |schema| ==> place(schema[i].tag) == i
    ensures DistinctTags(schema)
  {
  }

  lemma PlacesOfParts(a: Schema, b: Schema, place: Octet -> nat)
    requires forall i :: 0 <= i < |a| ==> place(a[i].tag) == i
    requires forall i :: 0 <= i < |b| ==> place(b[i].tag) == |a| + i
    ensures forall i :: 0 <= i < |a + b| ==> place((a + b)[i].tag) == i
  {
    forall i | 0 <= i < |a + b| ensures place((a + b)[i].tag) == i {
      if i >= |a| { assert (a + b)[i] == b[i - |a|]; }
    }
  }

  lemma PartsDiffer(a: Schema, b: Schema, place: Octet -> nat)
    requires forall i :: 0 <= i < |a| ==> place(a[i].tag) == i
    requires forall i :: 0 <= i < |b| ==> place(b[i].tag) == |a| + i
    ensures |Joined(a, b)| == |a| + |b| && DistinctTags(Joined(a, b))
  {
    PlacesOfParts(a, b, place);
    PlacesDiffer(a + b, place);
  }

  /** Where a tag stands in the call sequence of the Attach Request. */
  function AttachPlace(tag: Octet): nat {
    if AttachRow(tag).Some? then AttachRow(tag).value.place else 18
  }

  lemma AttachFirstTags(schema: Schema, i: nat)
    requires schema == ATTACH_FIRST && i < 9
    ensures |schema| == 9 && AttachPlace(schema[i].tag) == i
  {
    if i < 5 {} else {}
  }

  lemma AttachSecondTags(schema: Schema, i: nat)
    requires schema == ATTACH_SECOND && i < 9
    ensures |schema| == 9 && AttachPlace(schema[i].tag) == 9 + i
  {
    if i < 5 {} else {}
  }

  lemma AttachPlaces() returns (a: Schema, b: Schema, place: Octet -> nat)
    ensures ATTACH == Joined(a, b) && |a| == 9 && |b| == 9
    ensures forall i :: 0 <= i < 9 ==> place(a[i].tag) == i
    ensures forall i :: 0 <= i < 9 ==> place(b[i].tag) == 9 + i
  {
    a, b, place := ATTACH_FIRST, ATTACH_SECOND, AttachPlace;
    forall i | 0 <= i < 9 ensures |a| == 9 && place(a[i].tag) == i { AttachFirstTags(a, i); }
    forall i | 0 <= i < 9 ensures |b| == 9 && place(b[i].tag) == 9 + i { AttachSecondTags(b, i); }
  }

  lemma AttachTags()
    ensures |ATTACH| == 18 && DistinctTags(ATTACH)
  {
    var a, b, place := AttachPlaces();
    PartsDiffer(a, b, place);
  }

  /** Where a tag stands in the call sequence of the Tracking Area Update Request. */
  function TauPlace(tag: Octet): nat {
    if TauRow(tag).Some? then TauRow(tag).value.place else 24
  }

  lemma TauFirstTags(schema: Schema, i: nat)
    requires schema == TAU_FIRST && i < 12
    ensures |schema| == 12 && TauPlace(schema[i].tag) == i
  {
    if i < 6 {} else {}
  }

  lemma TauSecondTags(schema: Schema, i: nat)
    requires schema == TAU_SECOND && i < 12
    ensures |schema| == 12 && TauPlace(schema[i].tag) == 12 + i
  {
    if i < 6 {} else {}
  }

  lemma TauPlaces() returns (a: Schema, b: Schema, place: Octet -> nat)
    ensures TAU == Joined(a, b) && |a| == 12 && |b| == 12
    ensures forall i :: 0 <= i < 12 ==> place(a[i].tag) == i
    ensures forall i :: 0 <= i < 12 ==> place(b[i].tag) == 12 + i
  {
    a, b, place := TAU_FIRST, TAU_SECOND, TauPlace;
    forall i | 0 <= i < 12 ensures |a| == 12 && place(a[i].tag) == i { TauFirstTags(a, i); }
    forall i | 0 <= i < 12 ensures |b| == 12 && place(b[i].tag) == 12 + i { TauSecondTags(b, i); }
  }

  lemma TauTags()
    ensures |TAU| == 24 && DistinctTags(TAU)
  {
    var a, b, place := TauPlaces();
    PartsDiffer(a, b, place);
  }

  lemma PdnTags()
    ensures DistinctTags(PDN)
  {
  }

  lemma SchemasDistinguishable()
    ensures |ATTACH| == 18 && |TAU| == 24
    ensures Distinguishable(ATTACH) && Distinguishable(TAU) && Distinguishable(PDN)
  {
    AttachTags();
    TauTags();
    PdnTags();
    DistinctTagsSuffice(ATTACH);
    DistinctTagsSuffice(TAU);
    DistinctTagsSuffice(PDN);
  }

  /** The call a row asks for. */
  function CallFor(tag: Octet, format: Format): Entry {
    match format
    case Half(values) => Tv1(tag, if 1 <= values <= 256 then values - 1 else 0)
    case Fixed(octets) => Tv3(tag, octets + 1)
    case Variable => Tlv(tag)
  }

  /** Every row of the definition has its call at its place. */
  ghost predicate Implements(schema: Schema, row: Octet -> Option<Row>) {
    forall tag: Octet | row(tag).Some? ::
      row(tag).value.place < |schema| && schema[row(tag).value.place] == CallFor(tag, row(tag).value.format)
  }

  /** The rows from place `from` on have their calls in `part`, as far as it goes. */
  ghost predicate PartImplements(part: Schema, from: nat, row: Octet -> Option<Row>) {
    forall tag: Octet, r: Row :: row(tag) == Some(r) && from <= r.place < from + |part| ==>
      part[r.place - from] == CallFor(tag, r.format)
  }

  ghost predicate PlacesBelow(row: Octet -> Option<Row>, n: nat) {
    forall tag: Octet, r: Row :: row(tag) == Some(r) ==> r.place < n
  }

  lemma JoinedImplements(a: Schema, b: Schema, row: Octet -> Option<Row>)
    requires PartImplements(a, 0, row) && PartImplements(b, |a|, row) && PlacesBelow(row, |a| + |b|)
    ensures Implements(Joined(a, b), row)
  {
    forall tag: Octet | row(tag).Some?
      ensures row(tag).value.place < |Joined(a, b)|
      ensures Joined(a, b)[row(tag).value.place] == CallFor(tag, row(tag).value.format)
    {
      var r := row(tag).value;
      assert row(tag) == Some(r);
      assert (a + b)[r.place] == if r.place < |a| then a[r.place] else b[r.place - |a|];
    }
  }

  lemma AttachFirstLow(part: Schema, tag: Octet, r: Row)
    requires part == ATTACH_FIRST && AttachRow(tag) == Some(r) && 0 <= r.place < 5
    ensures |part| == 9 && part[r.place] == CallFor(tag, r.format)
  {
    if r.place < 2 {} else {}
  }

  lemma AttachFirstHigh(part: Schema, tag: Octet, r: Row)
    requires part == ATTACH_FIRST && AttachRow(tag) == Some(r) && 5 <= r.place < 9
    ensures |part| == 9 && part[r.place] == CallFor(tag, r.format)
  {
    if r.place < 7 {} else {}
  }

  lemma AttachFirstCalls(row: Octet -> Option<Row>) returns (part: Schema)
    requires row == AttachRow
    ensures part == ATTACH_FIRST && |part| == 9 && PartImplements(part, 0, row)
  {
    part := ATTACH_FIRST;
    AttachFirstTags(part, 0);
    forall tag: Octet, r: Row | row(tag) == Some(r) && 0 <= r.place < 0 + |part|
      ensures part[r.place - 0] == CallFor(tag, r.format)
    {
      if r.place < 5 { AttachFirstLow(part, tag, r); } else { AttachFirstHigh(part, tag, r); }
    }
  }

  lemma AttachSecondLow(part: Schema, tag: Octet, r: Row)
    requires part == ATTACH_SECOND && AttachRow(tag) == Some(r) && 9 <= r.place < 14
    ensures |part| == 9 && part[r.place - 9] == CallFor(tag, r.format)
  {
    if r.place < 11 {} else {}
  }

  lemma AttachSecondHigh(part: Schema, tag: Octet, r: Row)
    requires part == ATTACH_SECOND && AttachRow(tag) == Some(r) && 14 <= r.place < 18
    ensures |part| == 9 && part[r.place - 9] == CallFor(tag, r.format)
  {
    if r.place < 16 {} else {}
  }

  lemma AttachSecondCalls(row: Octet -> Option<Row>) returns (part: Schema)
    requires row == AttachRow
    ensures part == ATTACH_SECOND && |part| == 9 && PartImplements(part, 9, row)
  {
    part := ATTACH_SECOND;
    AttachSecondTags(part, 0);
    forall tag: Octet, r: Row | row(tag) == Some(r) && 9 <= r.place < 9 + |part|
      ensures part[r.place - 9] == CallFor(tag, r.format)
    {
      if r.place < 14 { AttachSecondLow(part, tag, r); } else { AttachSecondHigh(part, tag, r); }
    }
  }

  lemma AttachPlacesBelow(row: Octet -> Option<Row>)
    requires row == AttachRow
    ensures PlacesBelow(row, 18)
  {
    forall tag: Octet, r: Row | row(tag) == Some(r) ensures r.place < 18 { assert AttachRow(tag) == Some(r); }
  }

  lemma AttachImplements()
    ensures Implements(ATTACH, AttachRow)
  {
    var row: Octet -> Option<Row> := AttachRow;
    var a := AttachFirstCalls(row);
    var b := AttachSecondCalls(row);
    AttachPlacesBelow(row);
    JoinedImplements(a, b, row);
  }

  lemma TauFirstLow(part: Schema, tag: Octet, r: Row)
    requires part == TAU_FIRST && TauRow(tag) == Some(r) && 0 <= r.place < 6
    ensures |part| == 12 && part[r.place] == CallFor(tag, r.format)
  {
    if r.place < 3 {} else {}
  }

  lemma TauFirstHigh(part: Schema, tag: Octet, r: Row)
    requires part == TAU_FIRST && TauRow(tag) == Some(r) && 6 <= r.place < 12
    ensures |part| == 12 && part[r.place] == CallFor(tag, r.format)
  {
    if r.place < 9 {} else {}
  }

  lemma TauFirstCalls(row: Octet -> Option<Row>) returns (part: Schema)
    requires row == TauRow
    ensures part == TAU_FIRST && |part| == 12 && PartImplements(part, 0, row)
  {
    part := TAU_FIRST;
    TauFirstTags(part, 0);
    forall tag: Octet, r: Row | row(tag) == Some(r) && 0 <= r.place < 0 + |part|
      ensures part[r.place - 0] == CallFor(tag, r.format)
    {
      if r.place < 6 { TauFirstLow(part, tag, r); } else { TauFirstHigh(part, tag, r); }
    }
  }

  lemma TauSecondLow(part: Schema, tag: Octet, r: Row)
    requires part == TAU_SECOND && TauRow(tag) == Some(r) && 12 <= r.place < 18
    ensures |part| == 12 && part[r.place - 12] == CallFor(tag, r.format)
  {
    if r.place < 15 {} else {}
  }

  lemma TauSecondHigh(part: Schema, tag: Octet, r: Row)
    requires part == TAU_SECOND && TauRow(tag) == Some(r) && 18 <= r.place < 24
    ensures |part| == 12 && part[r.place - 12] == CallFor(tag, r.format)
  {
    if r.place < 21 {} else {}
  }

  lemma TauSecondCalls(row: Octet -> Option<Row>) returns (part: Schema)
    requires row == TauRow
    ensures part == TAU_SECOND && |part| == 12 && PartImplements(part, 12, row)
  {
    part := TAU_SECOND;
    TauSecondTags(part, 0);
    forall tag: Octet, r: Row | row(tag) == Some(r) && 12 <= r.place < 12 + |part|
      ensures part[r.place - 12] == CallFor(tag, r.format)
    {
      if r.place < 18 { TauSecondLow(part, tag, r); } else { TauSecondHigh(part, tag, r); }
    }
  }

  lemma TauPlacesBelow(row: Octet -> Option<Row>)
    requires row == TauRow
    ensures PlacesBelow(row, 24)
  {
    forall tag: Octet, r: Row | row(tag) == Some(r) ensures r.place < 24 { assert TauRow(tag) == Some(r); }
  }

  lemma TauImplements()
    ensures Implements(TAU, TauRow)
  {
    var row: Octet -> Option<Row> := TauRow;
    var a := TauFirstCalls(row);
    var b := TauSecondCalls(row);
    TauPlacesBelow(row);
    JoinedImplements(a, b, row);
  }

  lemma PdnImplements()
    ensures Implements(PDN, PdnRow)
  {
  }
}
