/**
 NAS/src/NASMessages.c: the optional information element decoder. The source calls one of three
 functions per optional element, in the order of the message definition; here the calls of a message
 are a schema and one loop makes them. `nas_NASOpt_lookup` of NAS/src/NAS.c searches what they stored.
 */
module NasDecoder {
  import opened Common
  import opened Octets
  import NasIe

  /** One call: dec_NASOpt_tv_t1, dec_NASOpt_tlv or dec_NASOpt_tv_t3 (`len` counts the tag octet). */
  datatype Entry = Tv1(tag: Octet, mask: Octet) | Tlv(tag: Octet) | Tv3(tag: Octet, len: nat)

  /** Half-octet tags from 8 on, full-octet tags below 0x80; value masks of one, three or four bits. */
  predicate EntryOk(e: Entry) {
    match e
    case Tv1(tag, mask) => 8 <= tag < 16 && mask in {1, 7, 15}
    case Tlv(tag) => 16 <= tag < 128
    case Tv3(tag, len) => 16 <= tag < 128 && 1 <= len <= 256
  }

  type Schema = s: seq<Entry> | forall e :: e in s ==> EntryOk(e) witness []

  /** The tag test of a call, on the octet at the cursor. */
  predicate Hits(e: Entry, octet: Octet) {
    match e
    case Tv1(tag, _) => High(octet) == tag
    case Tlv(tag) => octet == tag
    case Tv3(tag, _) => octet == tag
  }

  /** value & mask, for the masks in use */
  function And(x: Octet, mask: Octet): Octet
    requires mask in {1, 7, 15}
  {
    x % (mask + 1)
  }

  /** What one call does with the octets left. Overrun: it would read or copy beyond them. */
  datatype Outcome = Miss | Hit(stored: seq<Octet>, used: nat) | Overrun

  function Call(e: Entry, rest: seq<Octet>): (o: Outcome)
    requires EntryOk(e)
    ensures o.Hit? ==> 0 < o.used <= |rest| && o.stored != []
  {
    if rest == [] || !Hits(e, rest[0]) then Miss
    else
      match e
      case Tv1(tag, mask) => Hit([16 * tag + And(Low(rest[0]), mask)], 1)
      case Tv3(_, len) => if |rest| < len then Overrun else Hit(rest[..len], len)
      case Tlv(_) =>
        if |rest| < 2 then Overrun
        else
          var n: nat := rest[1] as int + 2;
          if |rest| < n then Overrun else Hit(rest[..n], n)
  }

  datatype Decoded = Decoded(opts: seq<seq<Octet>>, rest: seq<Octet>)

  /** All calls of a schema in order; None when one of them overruns. */
  function Decode(schema: Schema, rest: seq<Octet>): (d: Option<Decoded>)
    ensures d.Some? ==> |d.value.opts| <= |schema| && forall o :: o in d.value.opts ==> o != []
  {
    if schema == [] then Some(Decoded([], rest))
    else
      match Call(schema[0], rest)
      case Miss => Decode(schema[1..], rest)
      case Overrun => None
      case Hit(stored, used) =>
        match Decode(schema[1..], rest[used..])
        case None => None
        case Some(d) => Some(Decoded([stored] + d.opts, d.rest))
  }

  // ---- the calls, in place ----

  /** dec_NASOpt_tlv */
  method DecTlv(optionals: array<seq<Octet>>, buffer: seq<Octet>, pos: nat, size: nat, index: nat, tag: Octet)
    returns (pos': nat, size': nat, index': nat)
    requires pos + size == |buffer| && EntryOk(Tlv(tag))
    requires Call(Tlv(tag), buffer[pos..]).Hit? ==> index < optionals.Length
    requires !Call(Tlv(tag), buffer[pos..]).Overrun?
    modifies optionals
    ensures Called(Tlv(tag), old(optionals[..]), optionals[..], buffer, pos, index, pos', size', index')
  {
    if size == 0 { return pos, size, index; }
    var opT := buffer[pos];
    if opT == tag {
      var l: nat := buffer[pos + 1];
      optionals[index] := buffer[pos..pos + l + 2];
      assert buffer[pos..][..l + 2] == buffer[pos..pos + l + 2];
      return pos + l + 2, size - (l + 2), index + 1;
    }
    return pos, size, index;
  }

  /** dec_NASOpt_tv_t3 */
  method DecTv3(optionals: array<seq<Octet>>, buffer: seq<Octet>, pos: nat, size: nat, index: nat, tag: Octet, len: nat)
    returns (pos': nat, size': nat, index': nat)
    requires pos + size == |buffer| && EntryOk(Tv3(tag, len))
    requires Call(Tv3(tag, len), buffer[pos..]).Hit? ==> index < optionals.Length
    requires !Call(Tv3(tag, len), buffer[pos..]).Overrun?
    modifies optionals
    ensures Called(Tv3(tag, len), old(optionals[..]), optionals[..], buffer, pos, index, pos', size', index')
  {
    if size == 0 { return pos, size, index; }
    var opT := buffer[pos];
    if opT == tag {
      optionals[index] := buffer[pos..pos + len];
      assert buffer[pos..][..len] == buffer[pos..pos + len];
      return pos + len, size - len, index + 1;
    }
    return pos, size, index;
  }

  /** dec_NASOpt_tv_t1 */
  method DecTv1(optionals: array<seq<Octet>>, buffer: seq<Octet>, pos: nat, size: nat, index: nat, tag: Octet,
                mask: Octet)
    returns (pos': nat, size': nat, index': nat)
    requires pos + size == |buffer| && EntryOk(Tv1(tag, mask))
    requires Call(Tv1(tag, mask), buffer[pos..]).Hit? ==> index < optionals.Length
    modifies optionals
    ensures Called(Tv1(tag, mask), old(optionals[..]), optionals[..], buffer, pos, index, pos', size', index')
  {
    if size == 0 { return pos, size, index; }
    var opT := buffer[pos];
    if High(opT) == tag {
      optionals[index] := [16 * High(opT) + And(Low(opT), mask)];
      return pos + 1, size - 1, index + 1;
    }
    return pos, size, index;
  }

  /** The effect of one call on cursor, size, index and slots, against `Call`. */
  ghost predicate Called(e: Entry, was: seq<seq<Octet>>, now: seq<seq<Octet>>, buffer: seq<Octet>, pos: nat, index: nat,
                         pos': nat, size': nat, index': nat)
    requires EntryOk(e) && pos <= |buffer| && (Call(e, buffer[pos..]).Hit? ==> index < |was|)
  {
    && pos' + size' == |buffer|
    && match Call(e, buffer[pos..])
       case Miss => pos' == pos && index' == index && now == was
       case Hit(stored, used) => pos' == pos + used && index' == index + 1 && now == was[index := stored]
       case Overrun => false
  }

  /** The call an entry stands for. */
  method Dispatch(e: Entry, optionals: array<seq<Octet>>, buffer: seq<Octet>, pos: nat, size: nat, index: nat)
    returns (pos': nat, size': nat, index': nat)
    requires pos + size == |buffer| && EntryOk(e)
    requires Call(e, buffer[pos..]).Hit? ==> index < optionals.Length
    requires !Call(e, buffer[pos..]).Overrun?
    modifies optionals
    ensures Called(e, old(optionals[..]), optionals[..], buffer, pos, index, pos', size', index')
  {
    match e {
      case Tlv(tag) => pos', size', index' := DecTlv(optionals, buffer, pos, size, index, tag);
      case Tv3(tag, len) => pos', size', index' := DecTv3(optionals, buffer, pos, size, index, tag, len);
      case Tv1(tag, mask) => pos', size', index' := DecTv1(optionals, buffer, pos, size, index, tag, mask);
    }
  }

  /** Decode, one entry at a time from the front. */
  lemma DecodeStep(schema: Schema, k: nat, rest: seq<Octet>)
    requires k < |schema| && Decode(schema[k..], rest).Some?
    ensures var o := Call(schema[k], rest);
            && !o.Overrun?
            && var rest' := if o.Hit? then rest[o.used..] else rest;
               && Decode(schema[k + 1..], rest').Some?
               && Decode(schema[k..], rest).value.rest == Decode(schema[k + 1..], rest').value.rest
               && Decode(schema[k..], rest).value.opts
                  == (if o.Hit? then [o.stored] else []) + Decode(schema[k + 1..], rest').value.opts
  {
    assert schema[k..][0] == schema[k] && schema[k..][1..] == schema[k + 1..];
  }

  /** Between two calls: the slots filled so far and what the calls left make of the rest. */
  ghost predicate Decoding(target: Decoded, schema: Schema, k: nat, rest: seq<Octet>, slots: seq<seq<Octet>>,
                           index: nat,
                           was: seq<seq<Octet>>) {
    && k <= |schema| && index <= k && index <= |slots| == |was|
    && Decode(schema[k..], rest).Some?
    && target.opts == slots[..index] + Decode(schema[k..], rest).value.opts
    && target.rest == Decode(schema[k..], rest).value.rest
    && slots[index..] == was[index..]
  }

  lemma DecodingStart(schema: Schema, rest: seq<Octet>, slots: seq<seq<Octet>>)
    requires Decode(schema, rest).Some?
    ensures Decoding(Decode(schema, rest).value, schema, 0, rest, slots, 0, slots)
  {
    assert schema[0..] == schema;
  }

  lemma DecodingMiss(target: Decoded, schema: Schema, k: nat, rest: seq<Octet>, slots: seq<seq<Octet>>, index: nat,
                     was: seq<seq<Octet>>)
    requires Decoding(target, schema, k, rest, slots, index, was) && k < |schema| && Call(schema[k], rest) == Miss
    ensures Decoding(target, schema, k + 1, rest, slots, index, was)
  {
    DecodeStep(schema, k, rest);
  }

  lemma DecodingHit(target: Decoded, schema: Schema, k: nat, rest: seq<Octet>, slots: seq<seq<Octet>>, index: nat,
                    was: seq<seq<Octet>>)
    requires Decoding(target, schema, k, rest, slots, index, was) && k < |schema| && |target.opts| <= |slots|
    requires Call(schema[k], rest).Hit?
    ensures index < |slots|
    ensures var o := Call(schema[k], rest);
            Decoding(target, schema, k + 1, rest[o.used..], slots[index := o.stored], index + 1, was)
  {
    var o := Call(schema[k], rest);
    DecodeStep(schema, k, rest);
    assert slots[index := o.stored][..index + 1] == slots[..index] + [o.stored];
    assert slots[index := o.stored][index + 1..] == slots[index..][1..] == was[index..][1..] == was[index + 1..];
  }

  lemma DecodingEnd(target: Decoded, schema: Schema, rest: seq<Octet>, slots: seq<seq<Octet>>, index: nat,
                    was: seq<seq<Octet>>)
    requires Decoding(target, schema, |schema|, rest, slots, index, was)
    ensures target.opts == slots[..index] && target.rest == rest && slots[index..] == was[index..]
  {
    assert schema[|schema|..] == [];
    assert slots[..index] + [] == slots[..index];
  }

  lemma DecodingCalled(target: Decoded, schema: Schema, k: nat, buffer: seq<Octet>, pos: nat, before: seq<seq<Octet>>,
                       now: seq<seq<Octet>>, index: nat, was: seq<seq<Octet>>, pos': nat, size': nat, index': nat)
    requires pos <= |buffer| && k < |schema| && |target.opts| <= |before|
    requires Call(schema[k], buffer[pos..]).Hit? ==> index < |before|
    requires Decoding(target, schema, k, buffer[pos..], before, index, was)
    requires Called(schema[k], before, now, buffer, pos, index, pos', size', index')
    ensures pos' <= |buffer| && Decoding(target, schema, k + 1, buffer[pos'..], now, index', was)
  {
    var o := Call(schema[k], buffer[pos..]);
    if o.Hit? {
      DecodingHit(target, schema, k, buffer[pos..], before, index, was);
      assert buffer[pos..][o.used..] == buffer[pos + o.used..];
    } else {
      DecodingMiss(target, schema, k, buffer[pos..], before, index, was);
    }
  }

  /** One call of the sequence. */
  method DecodeOne(schema: Schema, k: nat, optionals: array<seq<Octet>>, buffer: seq<Octet>, pos: nat, size: nat,
                   index: nat,
                   ghost target: Decoded, ghost was: seq<seq<Octet>>)
    returns (pos': nat, size': nat, index': nat)
    requires pos + size == |buffer| && k < |schema| && |target.opts| <= optionals.Length
    requires Decoding(target, schema, k, buffer[pos..], optionals[..], index, was)
    modifies optionals
    ensures pos' + size' == |buffer|
    ensures Decoding(target, schema, k + 1, buffer[pos'..], optionals[..], index', was)
  {
    DecodeStep(schema, k, buffer[pos..]);
    ghost var before := optionals[..];
    if Call(schema[k], buffer[pos..]).Hit? {
      DecodingHit(target, schema, k, buffer[pos..], before, index, was);
    }
    pos', size', index' := Dispatch(schema[k], optionals, buffer, pos, size, index);
    DecodingCalled(target, schema, k, buffer, pos, before, optionals[..], index, was, pos', size', index');
  }

  /** The call sequence of a message: cursor plus size stays the end, the slots filled are Decode's. */
  method DecodeOptionals(schema: Schema, optionals: array<seq<Octet>>, buffer: seq<Octet>, start: nat)
    returns (pos: nat, size: nat, index: nat)
    requires start <= |buffer| && Decode(schema, buffer[start..]).Some?
    requires |Decode(schema, buffer[start..]).value.opts| <= optionals.Length
    modifies optionals
    ensures var d := Decode(schema, buffer[start..]).value;
            && pos + size == |buffer| && buffer[pos..] == d.rest
            && index == |d.opts| && index <= optionals.Length
            && optionals[..index] == d.opts && optionals[index..] == old(optionals[..])[index..]
  {
    pos, size, index := start, |buffer| - start, 0;
    ghost var target, was := Decode(schema, buffer[start..]).value, optionals[..];
    DecodingStart(schema, buffer[start..], was);
    var k := 0;
    while k < |schema|
      invariant 0 <= k <= |schema| && pos + size == |buffer|
      invariant Decoding(target, schema, k, buffer[pos..], optionals[..], index, was)
    {
      pos, size, index := DecodeOne(schema, k, optionals, buffer, pos, size, index, target, was);
      k := k + 1;
    }
    DecodingEnd(target, schema, buffer[pos..], optionals[..], index, was);
  }

  // ---- streams of information elements ----

  /** An encoded element: type 1 TV, type 3 TV, type 4 TLV. */
  datatype Ie = T1(tag: Octet, value: Octet) | T3(tag: Octet, v: seq<Octet>) | T4(tag: Octet, v: seq<Octet>)

  predicate IeOk(ie: Ie) {
    match ie
    case T1(tag, value) => 8 <= tag < 16 && value < 16
    case T3(tag, v) => 16 <= tag < 128 && |v| <= 255
    case T4(tag, v) => 16 <= tag < 128 && |v| <= 255
  }

  type WfIe = ie: Ie | IeOk(ie) witness T1(8, 0)

  function Enc(ie: WfIe): (r: seq<Octet>)
    ensures r != []
  {
    match ie
    case T1(tag, value) => [16 * tag + value]
    case T3(tag, v) => [tag] + v
    case T4(tag, v) => NasIe.EncTlv4(tag, v)
  }

  function EncAll(ies: seq<WfIe>): seq<Octet> {
    if ies == [] then [] else Enc(ies[0]) + EncAll(ies[1..])
  }

  /** The element is what the call expects. */
  predicate Fits(e: Entry, ie: Ie) {
    match e
    case Tv1(tag, _) => ie.T1? && ie.tag == tag
    case Tv3(tag, len) => ie.T3? && ie.tag == tag && |ie.v| + 1 == len
    case Tlv(tag) => ie.T4? && ie.tag == tag
  }

  /** Elements whose tag a call recognises have the format that call expects. */
  predicate FormatsAgree(schema: Schema, ies: seq<WfIe>) {
    forall e, ie :: e in schema && ie in ies && Hits(e, Enc(ie)[0]) ==> Fits(e, ie)
  }

  /** What is stored of an element: all its octets, or the tag and the masked value of a type 1. */
  function Kept(e: Entry, ie: WfIe): seq<Octet>
    requires EntryOk(e)
  {
    if ie.T1? && e.Tv1? then [16 * ie.tag + And(ie.value, e.mask)] else Enc(ie)
  }

  /** The elements are, in order, among those the schema lists: `f` says where. */
  ghost predicate Embeds(ies: seq<WfIe>, schema: Schema, f: seq<nat>) {
    && |f| == |ies|
    && (forall j :: 0 <= j < |f| ==> f[j] < |schema| && Fits(schema[f[j]], ies[j]))
    && (forall i, j :: 0 <= i < j < |f| ==> f[i] < f[j])
  }

  ghost predicate Subsequence(ies: seq<WfIe>, schema: Schema) {
    exists f: seq<nat> :: Embeds(ies, schema, f)
  }

  /** A call on the head of a stream hits exactly when the element fits, and keeps and skips it. */
  lemma CallOnElement(e: Entry, ie: WfIe, tail: seq<Octet>)
    requires EntryOk(e)
    requires Hits(e, Enc(ie)[0]) ==> Fits(e, ie)
    ensures !Fits(e, ie) ==> Call(e, Enc(ie) + tail) == Miss
    ensures Fits(e, ie) ==> Call(e, Enc(ie) + tail) == Hit(Kept(e, ie), |Enc(ie)|)
  {
    var s := Enc(ie) + tail;
    assert s[0] == Enc(ie)[0];
    if Fits(e, ie) { assert s[..|Enc(ie)|] == Enc(ie); }
  }

  lemma {:induction false} EncAllSplit(ies: seq<WfIe>)
    requires ies != []
    ensures EncAll(ies) == Enc(ies[0]) + EncAll(ies[1..])
    ensures EncAll(ies)[|Enc(ies[0])|..] == EncAll(ies[1..])
  {
  }

  /** How many elements the calls take, and where. */
  function Greedy(schema: Schema, ies: seq<WfIe>): (f: seq<nat>)
    ensures |f| <= |ies|
  {
    if schema == [] || ies == [] then []
    else if Fits(schema[0], ies[0]) then [0] + Shift(Greedy(schema[1..], ies[1..]))
    else Shift(Greedy(schema[1..], ies))
  }

  function Shift(f: seq<nat>): (r: seq<nat>)
    ensures |r| == |f| && forall i :: 0 <= i < |f| ==> r[i] == f[i] + 1
  {
    seq(|f|, i requires 0 <= i < |f| => f[i] + 1)
  }

  lemma EmbedsLater(ies: seq<WfIe>, schema: Schema, f: seq<nat>)
    requires schema != [] && Embeds(ies, schema[1..], f)
    ensures Embeds(ies, schema, Shift(f))
  {
    var g := Shift(f);
    forall j | 0 <= j < |g| ensures g[j] < |schema| && Fits(schema[g[j]], ies[j]) {
      assert schema[1..][f[j]] == schema[g[j]];
    }
  }

  lemma EmbedsFirst(ies: seq<WfIe>, schema: Schema, f: seq<nat>)
    requires schema != [] && ies != [] && Fits(schema[0], ies[0]) && Embeds(ies[1..], schema[1..], f)
    ensures Embeds(ies, schema, [0] + Shift(f))
  {
    EmbedsLater(ies[1..], schema, f);
    var g := [0] + Shift(f);
    forall j | 0 <= j < |g| ensures g[j] < |schema| && Fits(schema[g[j]], ies[j]) {
      if j > 0 { assert ies[1..][j - 1] == ies[j] && g[j] == Shift(f)[j - 1]; }
    }
  }

  lemma {:induction false} GreedyEmbeds(schema: Schema, ies: seq<WfIe>)
    ensures Embeds(ies[..|Greedy(schema, ies)|], schema, Greedy(schema, ies))
    decreases |schema|
  {
    if schema != [] && ies != [] {
      if Fits(schema[0], ies[0]) {
        var f := Greedy(schema[1..], ies[1..]);
        GreedyEmbeds(schema[1..], ies[1..]);
        assert ies[..|f| + 1][1..] == ies[1..][..|f|];
        EmbedsFirst(ies[..|f| + 1], schema, f);
      } else {
        var f := Greedy(schema[1..], ies);
        GreedyEmbeds(schema[1..], ies);
        EmbedsLater(ies[..|f|], schema, f);
      }
    }
  }

  /** No embedding of a prefix is longer than the greedy one. */
  lemma {:induction false} GreedyIsLongest(schema: Schema, ies: seq<WfIe>, n: nat, f: seq<nat>)
    requires n <= |ies| && Embeds(ies[..n], schema, f)
    ensures n <= |Greedy(schema, ies)|
    decreases |schema|
  {
    if n > 0 {
      assert Fits(schema[f[0]], ies[..n][0]);
      var taken := Fits(schema[0], ies[0]);
      var g := if taken then f[1..] else f;
      assert forall j :: 0 <= j < |g| ==> g[j] >= 1;
      var h := seq(|g|, j requires 0 <= j < |g| => g[j] - 1);
      if taken {
        assert Embeds(ies[1..][..n - 1], schema[1..], h);
        GreedyIsLongest(schema[1..], ies[1..], n - 1, h);
      } else {
        assert Embeds(ies[..n], schema[1..], h);
        GreedyIsLongest(schema[1..], ies, n, h);
      }
    }
  }

  function KeptAll(schema: Schema, ies: seq<WfIe>, f: seq<nat>): seq<seq<Octet>>
    requires |f| <= |ies| && forall j :: 0 <= j < |f| ==> f[j] < |schema|
  {
    seq(|f|, j requires 0 <= j < |f| => Kept(schema[f[j]], ies[j]))
  }

  /** The decoder follows the greedy embedding. */
  ghost predicate Follows(schema: Schema, ies: seq<WfIe>) {
    var f := Greedy(schema, ies);
    && (forall j :: 0 <= j < |f| ==> f[j] < |schema|)
    && Decode(schema, EncAll(ies)) == Some(Decoded(KeptAll(schema, ies, f), EncAll(ies[|f|..])))
  }

  lemma DecodeTaken(schema: Schema, ies: seq<WfIe>)
    requires FormatsAgree(schema, ies) && schema != [] && ies != [] && Fits(schema[0], ies[0])
    requires Decode(schema[1..], EncAll(ies[1..])).Some?
    ensures var d := Decode(schema[1..], EncAll(ies[1..])).value;
            Decode(schema, EncAll(ies)) == Some(Decoded([Kept(schema[0], ies[0])] + d.opts, d.rest))
  {
    CallOnElement(schema[0], ies[0], EncAll(ies[1..]));
    EncAllSplit(ies);
  }

  lemma KeptSkipped(schema: Schema, ies: seq<WfIe>, f: seq<nat>, g: seq<nat>)
    requires schema != [] && f == Shift(g)
    requires |g| <= |ies| && forall j :: 0 <= j < |g| ==> g[j] < |schema[1..]|
    ensures forall j :: 0 <= j < |f| ==> f[j] < |schema|
    ensures KeptAll(schema, ies, f) == KeptAll(schema[1..], ies, g)
  {
    var all, rest := KeptAll(schema, ies, f), KeptAll(schema[1..], ies, g);
    forall j | 0 <= j < |f| ensures all[j] == rest[j] {
      assert schema[1..][g[j]] == schema[f[j]];
    }
  }

  lemma KeptFirst(schema: Schema, ies: seq<WfIe>, h: seq<nat>)
    requires schema != [] && ies != [] && |h| < |ies| && forall j :: 0 <= j < |h| ==> h[j] < |schema|
    ensures KeptAll(schema, ies, [0] + h) == [Kept(schema[0], ies[0])] + KeptAll(schema, ies[1..], h)
  {
    var all, rest := KeptAll(schema, ies, [0] + h), KeptAll(schema, ies[1..], h);
    forall j | 0 < j <= |h| ensures all[j] == rest[j - 1] {
      assert ([0] + h)[j] == h[j - 1] && ies[1..][j - 1] == ies[j];
    }
  }

  lemma KeptTaken(schema: Schema, ies: seq<WfIe>, g: seq<nat>)
    requires schema != [] && ies != []
    requires |g| <= |ies[1..]| && forall j :: 0 <= j < |g| ==> g[j] < |schema[1..]|
    ensures forall j :: 0 <= j < |Shift(g)| ==> Shift(g)[j] < |schema|
    ensures KeptAll(schema, ies, [0] + Shift(g)) == [Kept(schema[0], ies[0])] + KeptAll(schema[1..], ies[1..], g)
  {
    KeptSkipped(schema, ies[1..], Shift(g), g);
    KeptFirst(schema, ies, Shift(g));
  }

  lemma FollowsTaken(schema: Schema, ies: seq<WfIe>)
    requires FormatsAgree(schema, ies) && schema != [] && ies != []
    requires Fits(schema[0], ies[0]) && Follows(schema[1..], ies[1..])
    ensures Follows(schema, ies)
  {
    var f, g := Greedy(schema, ies), Greedy(schema[1..], ies[1..]);
    DecodeTaken(schema, ies);
    KeptTaken(schema, ies, g);
    assert ies[1..][|g|..] == ies[|f|..];
  }

  lemma FollowsSkipped(schema: Schema, ies: seq<WfIe>)
    requires FormatsAgree(schema, ies) && schema != [] && ies != []
    requires !Fits(schema[0], ies[0]) && Follows(schema[1..], ies)
    ensures Follows(schema, ies)
  {
    CallOnElement(schema[0], ies[0], EncAll(ies[1..]));
    EncAllSplit(ies);
    var f, g := Greedy(schema, ies), Greedy(schema[1..], ies);
    KeptSkipped(schema, ies, f, g);
  }

  lemma {:induction false} DecodeIsGreedy(schema: Schema, ies: seq<WfIe>)
    requires FormatsAgree(schema, ies)
    ensures Follows(schema, ies)
    decreases |schema|
  {
    assert ies[0..] == ies;
    assert KeptAll(schema, ies, []) == [];
    if schema == [] {
    } else if ies == [] {
      DecodeNothing(schema);
    } else if Fits(schema[0], ies[0]) {
      DecodeIsGreedy(schema[1..], ies[1..]);
      FollowsTaken(schema, ies);
    } else {
      DecodeIsGreedy(schema[1..], ies);
      FollowsSkipped(schema, ies);
    }
  }

  lemma {:induction false} DecodeNothing(schema: Schema)
    ensures Decode(schema, []) == Some(Decoded([], []))
    decreases |schema|
  {
    if schema != [] { DecodeNothing(schema[1..]); }
  }

  /**
   For any schema and any stream of elements whose formats agree with it, decoding consumes exactly
   the longest prefix that is a subsequence of the schema and keeps its elements in order.
   */
  lemma DecodesLongestPrefix(schema: Schema, ies: seq<WfIe>) returns (f: seq<nat>)
    requires FormatsAgree(schema, ies)
    ensures |f| <= |ies| && Embeds(ies[..|f|], schema, f)
    ensures Decode(schema, EncAll(ies)) == Some(Decoded(KeptAll(schema, ies, f), EncAll(ies[|f|..])))
    ensures forall n :: |f| < n <= |ies| ==> !Subsequence(ies[..n], schema)
  {
    f := Greedy(schema, ies);
    GreedyEmbeds(schema, ies);
    DecodeIsGreedy(schema, ies);
    forall n | |f| < n <= |ies| ensures !Subsequence(ies[..n], schema) {
      if Subsequence(ies[..n], schema) {
        var g: seq<nat> :| Embeds(ies[..n], schema, g);
        GreedyIsLongest(schema, ies, n, g);
      }
    }
  }

  /** A stream that is itself a subsequence of the schema is consumed whole. */
  lemma DecodesAll(schema: Schema, ies: seq<WfIe>, f: seq<nat>)
    requires FormatsAgree(schema, ies) && Embeds(ies, schema, f)
    ensures var g := Greedy(schema, ies);
            && |g| == |ies| && Embeds(ies, schema, g)
            && Decode(schema, EncAll(ies)) == Some(Decoded(KeptAll(schema, ies, g), []))
  {
    assert ies[..|ies|] == ies;
    GreedyIsLongest(schema, ies, |ies|, f);
    GreedyEmbeds(schema, ies);
    DecodeIsGreedy(schema, ies);
    assert ies[|ies|..] == [];
  }

  // ---- lookup ----

  /** The iei octet of a slot; an untouched slot is zero. */
  function Iei(slot: seq<Octet>): Octet {
    if slot == [] then 0 else slot[0]
  }

  /** The comparison of nas_NASOpt_lookup: half an octet for tags 8 to 15, else the whole octet. */
  predicate TagMatches(slot: seq<Octet>, iei: Octet) {
    if 8 <= iei < 16 then High(Iei(slot)) == iei else Iei(slot) == iei
  }

  /** nas_NASOpt_lookup: the first matching slot before the first empty one, within `maxOpts`. */
  method Lookup(optionals: array<seq<Octet>>, maxOpts: nat, iei: Octet) returns (found: Option<nat>)
    requires maxOpts <= optionals.Length
    ensures found == Search(optionals[..maxOpts], iei)
  {
    assert optionals[..maxOpts][0..] == optionals[..maxOpts];
    var i := 0;
    while i < maxOpts
      invariant 0 <= i <= maxOpts
      invariant forall j :: 0 <= j < i ==> Iei(optionals[j]) != 0 && !TagMatches(optionals[j], iei)
    {
      if Iei(optionals[i]) == 0 {
        SearchStops(optionals[..maxOpts], iei, i);
        return None;
      }
      if TagMatches(optionals[i], iei) {
        SearchStops(optionals[..maxOpts], iei, i);
        return Some(i);
      }
      i := i + 1;
    }
    SearchStops(optionals[..maxOpts], iei, maxOpts);
    return None;
  }

  function Search(slots: seq<seq<Octet>>, iei: Octet): Option<nat> {
    if slots == [] || Iei(slots[0]) == 0 then None
    else if TagMatches(slots[0], iei) then Some(0)
    else
      match Search(slots[1..], iei)
      case None => None
      case Some(i) => Some(i + 1)
  }

  /** Search stops at the first slot that is empty or matches. */
  lemma {:induction false} SearchStops(slots: seq<seq<Octet>>, iei: Octet, i: nat)
    requires i <= |slots|
    requires forall j :: 0 <= j < i ==> Iei(slots[j]) != 0 && !TagMatches(slots[j], iei)
    requires i < |slots| ==> Iei(slots[i]) == 0 || TagMatches(slots[i], iei)
    ensures Search(slots, iei) == if i < |slots| && Iei(slots[i]) != 0 then Some(i) else None
  {
    if i > 0 { SearchStops(slots[1..], iei, i - 1); }
  }

  /** The comparison of the source: tags 8 to 15 against the high half of the octet, others against all of it. */
  predicate SlotHas(slot: seq<Octet>, iei: Octet) {
    slot != [] && slot[0] != 0 && (if iei / 8 == 1 then slot[0] / 16 == iei else slot[0] == iei)
  }

  /** Whatever the slots hold: found is exactly the first that has the tag, if no slot before it is empty. */
  lemma {:induction false} SearchIsFirst(slots: seq<seq<Octet>>, iei: Octet, i: nat)
    ensures Search(slots, iei) == Some(i) <==>
              && i < |slots| && SlotHas(slots[i], iei)
              && forall j :: 0 <= j < i ==> slots[j] != [] && slots[j][0] != 0 && !SlotHas(slots[j], iei)
    decreases |slots|
  {
    if slots != [] && i > 0 {
      SearchIsFirst(slots[1..], iei, i - 1);
      assert forall j :: 0 < j < |slots| ==> slots[j] == slots[1..][j - 1];
    }
  }

  /** No octet is recognised by two calls of the schema. */
  predicate Distinguishable(schema: Schema) {
    forall i, j, octet: Octet :: 0 <= i < j < |schema| ==> !(Hits(schema[i], octet) && Hits(schema[j], octet))
  }

  lemma KeptMatches(e: Entry, e': Entry, ie: WfIe)
    requires EntryOk(e) && EntryOk(e') && Fits(e, ie)
    ensures Iei(Kept(e, ie)) != 0
    ensures TagMatches(Kept(e, ie), e'.tag) <==> Hits(e', Enc(ie)[0])
  {
  }

  /**
   After decoding elements that all fit the schema, looking up the tag of an entry among the first
   `maxOpts` slots finds element `j` exactly when that element is the entry's and is among them.
   */
  lemma LookupFinds(schema: Schema, ies: seq<WfIe>, f: seq<nat>, empty: seq<seq<Octet>>, k: nat, maxOpts: nat)
    requires Distinguishable(schema) && Embeds(ies, schema, f) && k < |schema|
    requires forall s :: s in empty ==> s == []
    requires maxOpts <= |ies| + |empty|
    ensures var slots := (KeptAll(schema, ies, f) + empty)[..maxOpts];
            match Search(slots, schema[k].tag)
            case Some(j) => j < maxOpts && j < |ies| && f[j] == k && slots[j] == Kept(schema[k], ies[j])
            case None => forall j :: 0 <= j < |f| && j < maxOpts ==> f[j] != k
  {
    var kept := KeptAll(schema, ies, f);
    var slots, iei := (kept + empty)[..maxOpts], schema[k].tag;
    var n := if maxOpts < |ies| then maxOpts else |ies|;
    forall j | 0 <= j < n
      ensures slots[j] == kept[j] && Iei(kept[j]) != 0 && (TagMatches(kept[j], iei) <==> f[j] == k)
    {
      KeptMatches(schema[f[j]], schema[k], ies[j]);
      OneEntryFits(schema, ies[j], f[j], k);
    }
    if hit :| 0 <= hit < n && f[hit] == k {
      SearchStops(slots, iei, hit);
    } else {
      if n < maxOpts { assert slots[n] == empty[n - |ies|] && empty[n - |ies|] in empty; }
      SearchStops(slots, iei, n);
    }
  }

  /** What the comparison of the lookup finds in the slot of an element: its tag, or from 0x80 on its stored octet. */
  predicate Answers(e: Entry, ie: WfIe, iei: Octet)
    requires EntryOk(e) && Fits(e, ie)
  {
    if iei < 0x80 then ie.tag == iei else ie.T1? && 16 * ie.tag + And(ie.value, e.mask) == iei
  }

  lemma AnswersIsMatch(e: Entry, ie: WfIe, iei: Octet)
    requires EntryOk(e) && Fits(e, ie)
    ensures Iei(Kept(e, ie)) != 0
    ensures TagMatches(Kept(e, ie), iei) <==> Answers(e, ie, iei)
  {
  }

  /**
   The lookup of any iei after decoding: the first of the searched elements that answers to it, none exactly when
   none does. Below 0x80 these are the elements of that tag.
   */
  lemma LookupAny(schema: Schema, ies: seq<WfIe>, f: seq<nat>, empty: seq<seq<Octet>>, iei: Octet, maxOpts: nat)
    requires Embeds(ies, schema, f) && maxOpts <= |ies| + |empty|
    requires forall s :: s in empty ==> s == []
    ensures var slots := (KeptAll(schema, ies, f) + empty)[..maxOpts];
            match Search(slots, iei)
            case Some(j) => && j < maxOpts && j < |ies| && Answers(schema[f[j]], ies[j], iei)
                            && slots[j] == Kept(schema[f[j]], ies[j])
                            && forall k :: 0 <= k < j ==> !Answers(schema[f[k]], ies[k], iei)
            case None => forall k :: 0 <= k < |ies| && k < maxOpts ==> !Answers(schema[f[k]], ies[k], iei)
  {
    var kept := KeptAll(schema, ies, f);
    var slots := (kept + empty)[..maxOpts];
    var n := if maxOpts < |ies| then maxOpts else |ies|;
    forall j | 0 <= j < n
      ensures slots[j] == kept[j] && Iei(slots[j]) != 0
      ensures TagMatches(slots[j], iei) <==> Answers(schema[f[j]], ies[j], iei)
    {
      AnswersIsMatch(schema[f[j]], ies[j], iei);
    }
    var hit := FirstAnswer(slots[..n], iei);
    if hit == n && n < maxOpts { assert slots[n] == empty[n - |ies|] && empty[n - |ies|] in empty; }
    SearchStops(slots, iei, hit);
  }

  /** The first slot that matches, or the number of slots. */
  lemma FirstAnswer(slots: seq<seq<Octet>>, iei: Octet) returns (hit: nat)
    ensures hit <= |slots| && (hit < |slots| ==> TagMatches(slots[hit], iei))
    ensures forall k :: 0 <= k < hit ==> !TagMatches(slots[k], iei)
  {
    hit := 0;
    while hit < |slots| && !TagMatches(slots[hit], iei)
      invariant hit <= |slots| && forall k :: 0 <= k < hit ==> !TagMatches(slots[k], iei)
    {
      hit := hit + 1;
    }
  }

  lemma OneEntryFits(schema: Schema, ie: WfIe, a: nat, b: nat)
    requires Distinguishable(schema) && a < |schema| && b < |schema| && Fits(schema[a], ie)
    ensures Hits(schema[b], Enc(ie)[0]) <==> a == b
  {
    var octet := Enc(ie)[0];
    assert Hits(schema[a], octet);
    if a < b {
      assert !Hits(schema[b], octet);
    } else if b < a {
      assert !Hits(schema[b], octet);
    }
  }

  /** Every element can be found again exactly when the searched slots are enough for all of them. */
  lemma LookupIsExact(schema: Schema, ies: seq<WfIe>, f: seq<nat>, empty: seq<seq<Octet>>, maxOpts: nat)
    requires Distinguishable(schema) && Embeds(ies, schema, f)
    requires forall s :: s in empty ==> s == []
    requires maxOpts <= |ies| + |empty|
    ensures AllFound(schema, f, (KeptAll(schema, ies, f) + empty)[..maxOpts]) <==> |ies| <= maxOpts
  {
    var slots := (KeptAll(schema, ies, f) + empty)[..maxOpts];
    forall j | 0 <= j < |f| ensures Search(slots, schema[f[j]].tag).Some? <==> j < maxOpts {
      LookupFinds(schema, ies, f, empty, f[j], maxOpts);
    }
    if maxOpts < |ies| { assert Search(slots, schema[f[maxOpts]].tag).None?; }
  }

  predicate AllFound(schema: Schema, f: seq<nat>, slots: seq<seq<Octet>>)
    requires forall j :: 0 <= j < |f| ==> f[j] < |schema|
  {
    forall j :: 0 <= j < |f| ==> Search(slots, schema[f[j]].tag).Some?
  }

  // ---- how many slots a call sequence can fill ----

  /** An element a call accepts. */
  function Sample(e: Entry): (ie: WfIe)
    requires EntryOk(e)
    ensures Fits(e, ie)
  {
    match e
    case Tv1(tag, _) => T1(tag, 0)
    case Tv3(tag, len) => T3(tag, seq(len - 1, _ => 0))
    case Tlv(tag) => T4(tag, [])
  }

  /** One element for every call. */
  function Samples(schema: Schema): (ies: seq<WfIe>)
    ensures |ies| == |schema| && forall j :: 0 <= j < |schema| ==> Fits(schema[j], ies[j])
  {
    if schema == [] then [] else [Sample(schema[0])] + Samples(schema[1..])
  }

  function Identity(n: nat): (f: seq<nat>)
    ensures |f| == n && forall j :: 0 <= j < n ==> f[j] == j
  {
    seq(n, j => j)
  }

  lemma SamplesEmbed(schema: Schema)
    ensures Embeds(Samples(schema), schema, Identity(|schema|))
  {
  }

  lemma {:induction false} EmbeddingIsShort(f: seq<nat>, n: nat)
    requires forall j :: 0 <= j < |f| ==> f[j] < n
    requires forall i, j :: 0 <= i < j < |f| ==> f[i] < f[j]
    ensures |f| <= n
  {
    if |f| > 0 {
      var last := f[|f| - 1];
      EmbeddingIsShort(f[..|f| - 1], last);
    }
  }

  /** Every stream the calls take whole has room in `n` slots exactly when there are no more calls than that. */
  lemma SlotsAreExact(schema: Schema, n: nat)
    ensures (forall ies: seq<WfIe> :: Subsequence(ies, schema) ==> |ies| <= n) <==> |schema| <= n
  {
    SamplesEmbed(schema);
    assert Subsequence(Samples(schema), schema);
    forall ies: seq<WfIe> | Subsequence(ies, schema) ensures |ies| <= |schema| {
      var f :| Embeds(ies, schema, f);
      EmbeddingIsShort(f, |schema|);
    }
  }
}
