/**
 libgtp/gtpie.c and get_default_gtp of libgtp/gtp.c: the GTPv2-C information element codec (section
 8.2 of TS 29.274). An element is a type, a 16-bit length, an instance and a value; groups nest.
 */
module GtpIe {
  import opened Common
  import opened Octets

  const GTPIE_SIZE := 256
  const GTPIE_MAX := 65535
  const U16 := 65536

  datatype RawIe = RawIe(t: Octet, i: Octet, v: seq<Octet>)

  type Ie = ie: RawIe | |ie.v| < 65536 witness RawIe(0, 0, [])

  function Enc(ie: Ie): (r: seq<Octet>)
    ensures |r| == 4 + |ie.v|
  {
    [ie.t, |ie.v| / 256, |ie.v| % 256, ie.i] + ie.v
  }

  function EncAll(ies: seq<Ie>): seq<Octet> {
    if ies == [] then [] else Enc(ies[0]) + EncAll(ies[1..])
  }

  /** ntoh16 of the two octets at `at` */
  function Word(buf: seq<Octet>, at: nat): (w: nat)
    requires at + 2 <= |buf|
    ensures w < U16
  {
    256 * buf[at] as int + buf[at + 1] as int
  }

  function WordOctets(w: nat): (r: seq<Octet>)
    requires w < U16
    ensures |r| == 2
  {
    [w / 256, w % 256]
  }

  // ---- reading: the reference ----

  /** The elements an octet string is the concatenation of, at most `max` of them. */
  function Parse(s: seq<Octet>, max: nat): (r: Option<seq<Ie>>)
    decreases |s|
  {
    if s == [] then Some([])
    else if max == 0 || |s| < 4 then None
    else
      var l := Word(s, 1);
      if |s| < 4 + l then None
      else
        match Parse(s[4 + l..], max - 1)
        case None => None
        case Some(ies) =>
          var ie: Ie := RawIe(s[0], s[3], s[4..4 + l]);
          Some([ie] + ies)
  }

  lemma ParseHead(ie: Ie, rest: seq<Octet>)
    ensures var s := Enc(ie) + rest;
            && |s| >= 4 && Word(s, 1) == |ie.v| && s[0] == ie.t && s[3] == ie.i
            && s[4..4 + |ie.v|] == ie.v && s[4 + |ie.v|..] == rest
  {
    var s := Enc(ie) + rest;
    assert s[1] == |ie.v| / 256 && s[2] == |ie.v| % 256;
  }

  lemma ParseCons(s: seq<Octet>, ies: seq<Ie>, rest: seq<Octet>, max: nat)
    requires 0 < max && ies != [] && s == Enc(ies[0]) + rest && Parse(rest, max - 1) == Some(ies[1..])
    ensures Parse(s, max) == Some(ies)
  {
    ParseHead(ies[0], rest);
    assert ies == [ies[0]] + ies[1..];
  }

  ghost predicate ParsesBack(ies: seq<Ie>) {
    forall max: nat :: |ies| <= max ==> Parse(EncAll(ies), max) == Some(ies)
  }

  lemma ParsesBackMore(ies: seq<Ie>)
    requires ies != [] && ParsesBack(ies[1..])
    ensures ParsesBack(ies)
  {
    forall max: nat | |ies| <= max ensures Parse(EncAll(ies), max) == Some(ies) {
      ParseCons(EncAll(ies), ies, EncAll(ies[1..]), max);
    }
  }

  lemma {:induction false} AllParseBack(ies: seq<Ie>)
    ensures ParsesBack(ies)
    decreases |ies|
  {
    if ies != [] {
      AllParseBack(ies[1..]);
      ParsesBackMore(ies);
    }
  }

  lemma ParseComplete(ies: seq<Ie>, max: nat)
    requires |ies| <= max
    ensures Parse(EncAll(ies), max) == Some(ies)
  {
    AllParseBack(ies);
  }

  lemma HeadOf(s: seq<Octet>)
    requires |s| >= 4 && |s| >= 4 + Word(s, 1)
    ensures Enc(RawIe(s[0], s[3], s[4..4 + Word(s, 1)])) == s[..4 + Word(s, 1)]
  {
    assert Word(s, 1) / 256 == s[1] && Word(s, 1) % 256 == s[2];
  }

  lemma {:induction false} ParseSound(s: seq<Octet>, max: nat)
    requires Parse(s, max).Some?
    ensures EncAll(Parse(s, max).value) == s && |Parse(s, max).value| <= max
    decreases |s|
  {
    if s != [] {
      var n := 4 + Word(s, 1);
      HeadOf(s);
      ParseSound(s[n..], max - 1);
      var ies, tail := Parse(s, max).value, Parse(s[n..], max - 1).value;
      assert ies[1..] == tail && Enc(ies[0]) == s[..n];
      assert s == s[..n] + s[n..];
    }
  }

  /** Values are shorter than what holds them. */
  lemma {:induction false} ParseBounded(s: seq<Octet>, max: nat)
    ensures Parse(s, max).Some? ==> forall ie :: ie in Parse(s, max).value ==> |ie.v| + 4 <= |s|
    decreases |s|
  {
    if |s| >= 4 && max > 0 && 4 + Word(s, 1) <= |s| {
      ParseBounded(s[4 + Word(s, 1)..], max - 1);
    }
  }

  /** Parsing succeeds on exactly the concatenations of at most `max` elements, with those elements. */
  lemma ParseIsExact(s: seq<Octet>, max: nat, ies: seq<Ie>)
    ensures Parse(s, max) == Some(ies) <==> EncAll(ies) == s && |ies| <= max
  {
    if Parse(s, max) == Some(ies) { ParseSound(s, max); }
    if EncAll(ies) == s && |ies| <= max { ParseComplete(ies, max); }
  }

  // ---- reading: the loops of gtp2ie_decap and gtp2ie_decaps_group ----

  /** Offset -1 stands for NULL. */
  const NULL := -1

  /** The offsets point at the elements one after the other: no gap, no overlap, no octet left. */
  ghost predicate Tiles(offsets: seq<int>, pack: seq<Octet>, from: nat, end: nat, ies: seq<Ie>)
    decreases |ies|
  {
    && |offsets| == |ies| && from <= end <= |pack|
    && if ies == [] then from == end
       else
         && offsets[0] == from && from + |Enc(ies[0])| <= end
         && pack[from..from + |Enc(ies[0])|] == Enc(ies[0])
         && Tiles(offsets[1..], pack, from + |Enc(ies[0])|, end, ies[1..])
  }

  /** What is left to parse once the cursor stands at `p`; beyond the end nothing can succeed. */
  ghost function Left(pack: seq<Octet>, p: nat, end: nat, max: nat): Option<seq<Ie>>
    requires end <= |pack|
  {
    if p <= end then Parse(pack[p..end], max) else None
  }

  lemma SliceOfSlice(pack: seq<Octet>, p: nat, end: nat, a: nat, b: nat)
    requires p <= end <= |pack| && a <= b <= end - p
    ensures pack[p..end][a..b] == pack[p + a..p + b]
  {
    var x, y := pack[p..end][a..b], pack[p + a..p + b];
    forall i | 0 <= i < b - a ensures x[i] == y[i] {
      assert x[i] == pack[p..end][a + i] == pack[p + a + i];
    }
  }

  /** The element at `p` and what is left after it. Short of 4 octets the length read is garbage. */
  lemma LeftStep(pack: seq<Octet>, p: nat, end: nat, max: nat)
    requires p < end && end + 2 <= |pack| && 0 < max
    ensures var next := p + 4 + Word(pack, p + 1);
            && (Left(pack, p, end, max).Some? <==> Left(pack, next, end, max - 1).Some?)
            && (Left(pack, p, end, max).Some? ==>
                  && next <= end
                  && var ie: Ie := RawIe(pack[p], pack[p + 3], pack[p + 4..next]);
                     && pack[p..next] == Enc(ie)
                     && Left(pack, p, end, max).value == [ie] + Left(pack, next, end, max - 1).value)
  {
    var s, l := pack[p..end], Word(pack, p + 1);
    if |s| >= 4 {
      assert Word(s, 1) == l;
      if |s| >= 4 + l {
        HeadOf(s);
        SliceOfSlice(pack, p, end, 0, 4 + l);
        SliceOfSlice(pack, p, end, 4, 4 + l);
        SliceOfSlice(pack, p, end, 4 + l, end - p);
      }
    }
  }

  /**
   The loop both functions share: walk from `start` to `end` over at most GTPIE_SIZE elements, keep a
   pointer to each. It lands on the end exactly when the octets parse, and then `n`, the slot of the
   terminator, is the number of elements. Each round moves at least 4 octets.
   */
  method WalkLoop(ie: array<int>, pack: array<Octet>, start: nat, end: nat) returns (landed: bool, n: nat)
    requires ie.Length >= GTPIE_SIZE && end + 2 <= pack.Length
    modifies ie
    ensures n <= GTPIE_SIZE
    ensures landed <==> Left(pack[..], start, end, GTPIE_SIZE).Some?
    ensures landed ==> Tiles(ie[..n], pack[..], start, end, Left(pack[..], start, end, GTPIE_SIZE).value)
  {
    var p, j := start, 0;
    ghost var got: seq<Ie>, octets := [], pack[..];
    ghost var whole := Left(octets, start, end, GTPIE_SIZE);
    ProgressStart(octets, start, end, GTPIE_SIZE);
    while p < end && j < GTPIE_SIZE
      invariant 0 <= j <= GTPIE_SIZE
      invariant Progress(octets, start, end, p, GTPIE_SIZE - j, whole, got, ie[..j])
      decreases end - p
    {
      ghost var offs := ie[..j];
      got := ProgressStep(octets, start, end, p, GTPIE_SIZE - j, whole, got, offs);
      ie[j] := p;
      assert ie[..j + 1] == offs + [p];
      assert pack[..] == octets;
      p, j := p + 4 + Word(pack[..], p + 1), j + 1;
    }
    ProgressEnd(octets, start, end, p, GTPIE_SIZE - j, whole, got, ie[..j]);
    landed, n := p == end, j;
  }

  /** The terminator behind the elements found has a slot. */
  ghost predicate TerminatorFits(found: Option<seq<Ie>>, slots: nat) {
    found.Some? ==> |found.value| < slots
  }

  /** The loop, then the terminating null pointer on success. */
  method Walk(ie: array<int>, pack: array<Octet>, start: nat, end: nat) returns (ret: int, n: nat)
    requires ie.Length >= GTPIE_SIZE && end + 2 <= pack.Length
    requires TerminatorFits(Left(pack[..], start, end, GTPIE_SIZE), ie.Length)
    modifies ie
    ensures n <= GTPIE_SIZE
    ensures ret == if Left(pack[..], start, end, GTPIE_SIZE).Some? then 0 else -1
    ensures ret == 0 ==>
              && n < ie.Length && ie[n] == NULL
              && Tiles(ie[..n], pack[..], start, end, Left(pack[..], start, end, GTPIE_SIZE).value)
  {
    var landed;
    landed, n := WalkLoop(ie, pack, start, end);
    if landed {
      ghost var offs := ie[..n];
      ie[n] := NULL;
      assert ie[..n] == offs;
      ret := 0;
    } else {
      ret := -1;
    }
  }

  /** Elements of no value, as many as asked for. */
  function Empties(n: nat): (ies: seq<Ie>)
    ensures |ies| == n
  {
    if n == 0 then [] else [RawIe(0, 0, [])] + Empties(n - 1)
  }

  /** On an array of GTPIE_SIZE slots the terminator stays inside unless the octets are exactly that many elements. */
  lemma TerminatorIsExact(s: seq<Octet>)
    ensures TerminatorFits(Parse(s, GTPIE_SIZE), GTPIE_SIZE)
       <==> !exists ies: seq<Ie> :: EncAll(ies) == s && |ies| == 256
  {
    var found := Parse(s, GTPIE_SIZE);
    if found.Some? {
      ParseIsExact(s, GTPIE_SIZE, found.value);
    }
    if ies: seq<Ie> :| EncAll(ies) == s && |ies| == GTPIE_SIZE {
      ParseIsExact(s, GTPIE_SIZE, ies);
    }
  }

  /** A payload that puts the terminator outside: `n` empty elements on `n` slots. */
  lemma TerminatorOutside(n: nat)
    requires n == 256
    ensures Parse(EncAll(Empties(n)), GTPIE_SIZE) == Some(Empties(n))
    ensures !TerminatorFits(Parse(EncAll(Empties(n)), GTPIE_SIZE), n)
  {
    ParseComplete(Empties(n), GTPIE_SIZE);
  }

  /** Where a walk stands: `whole` will be the result exactly if the rest can be parsed. */
  ghost predicate Progress(pack: seq<Octet>, start: nat, end: nat, p: nat, max: nat, whole: Option<seq<Ie>>,
                           got: seq<Ie>, offs: seq<int>)
    requires end <= |pack|
  {
    && (whole.Some? <==> Left(pack, p, end, max).Some?)
    && (whole.Some? ==>
          whole.value == got + Left(pack, p, end, max).value && p <= end && Tiles(offs, pack, start, p, got))
  }

  lemma ProgressStart(pack: seq<Octet>, start: nat, end: nat, max: nat)
    requires end <= |pack|
    ensures Progress(pack, start, end, start, max, Left(pack, start, end, max), [], [])
  {
  }

  lemma ProgressStep(pack: seq<Octet>, start: nat, end: nat, p: nat, max: nat, whole: Option<seq<Ie>>,
                     got: seq<Ie>, offs: seq<int>) returns (got': seq<Ie>)
    requires p < end && end + 2 <= |pack| && 0 < max
    requires Progress(pack, start, end, p, max, whole, got, offs)
    ensures Progress(pack, start, end, p + 4 + Word(pack, p + 1), max - 1, whole, got', offs + [p])
  {
    LeftStep(pack, p, end, max);
    got' := got;
    if whole.Some? {
      var next := p + 4 + Word(pack, p + 1);
      var elem: Ie := RawIe(pack[p], pack[p + 3], pack[p + 4..next]);
      got' := got + [elem];
      OneMore(pack, start, p, got, offs, elem, Left(pack, next, end, max - 1).value);
    }
  }

  lemma OneMore(pack: seq<Octet>, start: nat, p: nat, got: seq<Ie>, offs: seq<int>, elem: Ie, tail: seq<Ie>)
    requires Tiles(offs, pack, start, p, got)
    requires p + |Enc(elem)| <= |pack| && pack[p..p + |Enc(elem)|] == Enc(elem)
    ensures got + ([elem] + tail) == (got + [elem]) + tail
    ensures Tiles(offs + [p], pack, start, p + |Enc(elem)|, got + [elem])
  {
    TilesSnoc(offs, pack, start, p, got, elem);
  }

  lemma ProgressEnd(pack: seq<Octet>, start: nat, end: nat, p: nat, max: nat, whole: Option<seq<Ie>>,
                    got: seq<Ie>, offs: seq<int>)
    requires end <= |pack| && (p >= end || max == 0)
    requires Progress(pack, start, end, p, max, whole, got, offs)
    ensures p == end <==> whole.Some?
    ensures p == end ==> Tiles(offs, pack, start, end, whole.value)
  {
    if p == end {
      assert pack[p..end] == [];
      assert got + [] == got;
    }
  }

  lemma {:induction false} TilesSnoc(offsets: seq<int>, pack: seq<Octet>, from: nat, p: nat, ies: seq<Ie>, ie: Ie)
    requires Tiles(offsets, pack, from, p, ies)
    requires p + |Enc(ie)| <= |pack| && pack[p..p + |Enc(ie)|] == Enc(ie)
    ensures Tiles(offsets + [p], pack, from, p + |Enc(ie)|, ies + [ie])
    decreases |ies|
  {
    if ies == [] {
      assert (offsets + [p])[1..] == [] && (ies + [ie])[1..] == [];
    } else {
      TilesSnoc(offsets[1..], pack, from + |Enc(ies[0])|, p, ies[1..], ie);
      assert (offsets + [p])[1..] == offsets[1..] + [p] && (ies + [ie])[1..] == ies[1..] + [ie];
    }
  }

  /** flags & 0xe8 == 0x40: version 2 without a TEID, so an 8-octet header. */
  predicate ShortHeader(flags: Octet) {
    flags / 32 == 2 && flags / 8 % 2 == 0
  }

  function HeaderSize(flags: Octet): nat {
    if ShortHeader(flags) then 8 else 12
  }

  /** The flags of a header without TEID: version 2 with the T bit clear, whatever the other flags are. */
  lemma HeaderSizeIsExact(flags: Octet)
    ensures HeaderSize(flags) == if 0x40 <= flags < 0x48 || 0x50 <= flags < 0x58 then 8 else 12
  {
  }

  /** gtp2ie_decap */
  method Decap(ie: array<int>, pack: array<Octet>, len: nat) returns (ret: int, n: nat)
    requires ie.Length >= GTPIE_SIZE && len + 2 <= pack.Length
    requires TerminatorFits(Left(pack[..], HeaderSize(pack[0]), len, GTPIE_SIZE), ie.Length)
    modifies ie
    ensures var h := HeaderSize(pack[0]);
            && (ret == 0 <==> h <= len && Parse(pack[h..len], GTPIE_SIZE).Some?)
            && (ret == 0 ==> n <= GTPIE_SIZE && n < ie.Length && ie[n] == NULL
                             && Tiles(ie[..n], pack[..], h, len, Parse(pack[h..len], GTPIE_SIZE).value))
  {
    var p := if ShortHeader(pack[0]) then 8 else 12;
    ret, n := Walk(ie, pack, p, len);
    assert p <= len ==> pack[..][p..len] == pack[p..len];
  }

  /** gtp2ie_decaps_group */
  method DecapsGroup(ie: array<int>, from: array<Octet>, len: nat) returns (ret: int, size: nat)
    requires ie.Length >= GTPIE_SIZE && len + 2 <= from.Length
    requires TerminatorFits(Parse(from[..len], GTPIE_SIZE), ie.Length)
    modifies ie
    ensures ret == 0 <==> Parse(from[..len], GTPIE_SIZE).Some?
    ensures ret == 0 ==> size <= GTPIE_SIZE && size < ie.Length && ie[size] == NULL
                         && Tiles(ie[..size], from[..], 0, len, Parse(from[..len], GTPIE_SIZE).value)
  {
    assert from[..][0..len] == from[..len];
    ret, size := Walk(ie, from, 0, len);
  }

  // ---- searching ----

  /** Index of the first element of this type and instance. */
  function FirstMatch(ies: seq<Ie>, t: int, inst: int): Option<nat> {
    if ies == [] then None
    else if ies[0].t == t && ies[0].i == inst then Some(0)
    else
      match FirstMatch(ies[1..], t, inst)
      case None => None
      case Some(k) => Some(k + 1)
  }

  lemma {:induction false} TilesAt(offsets: seq<int>, pack: seq<Octet>, from: nat, end: nat, ies: seq<Ie>, k: nat)
    requires Tiles(offsets, pack, from, end, ies) && k < |ies|
    ensures 0 <= offsets[k] && offsets[k] + |Enc(ies[k])| <= |pack|
    ensures pack[offsets[k]..offsets[k] + |Enc(ies[k])|] == Enc(ies[k])
    decreases |ies|
  {
    if k > 0 { TilesAt(offsets[1..], pack, from + |Enc(ies[0])|, end, ies[1..], k - 1); }
  }

  lemma ElementAt(pack: seq<Octet>, p: nat, ie: Ie)
    requires p + |Enc(ie)| <= |pack| && pack[p..p + |Enc(ie)|] == Enc(ie)
    ensures pack[p] == ie.t && pack[p + 3] == ie.i && Word(pack, p + 1) == |ie.v|
    ensures pack[p + 4..p + 4 + |ie.v|] == ie.v
  {
    var s := pack[p..p + |Enc(ie)|];
    assert s[0] == pack[p] && s[1] == pack[p + 1] && s[2] == pack[p + 2] && s[3] == pack[p + 3];
    assert s[4..] == ie.v;
  }

  lemma PointsAt(offsets: seq<int>, pack: seq<Octet>, from: nat, end: nat, ies: seq<Ie>, k: nat)
    requires Tiles(offsets, pack, from, end, ies) && k < |ies|
    ensures 0 <= offsets[k] && offsets[k] + 4 <= |pack|
    ensures pack[offsets[k]] == ies[k].t && pack[offsets[k] + 3] == ies[k].i
  {
    TilesAt(offsets, pack, from, end, ies, k);
    ElementAt(pack, offsets[k], ies[k]);
  }

  /** gtpie_getie on the pointers a successful decap left behind. */
  method GetIe(ie: array<int>, pack: array<Octet>, t: int, inst: int, ghost from: nat, ghost end: nat,
               ghost ies: seq<Ie>)
    returns (ien: int)
    requires |ies| <= GTPIE_SIZE && |ies| <= ie.Length
    requires |ies| < GTPIE_SIZE ==> |ies| < ie.Length && ie[|ies|] == NULL
    requires Tiles(ie[..|ies|], pack[..], from, end, ies)
    ensures ien == match FirstMatch(ies, t, inst) case None => -1 case Some(k) => k
  {
    var j := 0;
    assert ies[0..] == ies;
    while j < GTPIE_SIZE
      invariant 0 <= j <= |ies|
      invariant FirstMatch(ies, t, inst) ==
                match FirstMatch(ies[j..], t, inst) case None => None case Some(k) => Some(k + j)
    {
      if j < |ies| {
        PointsAt(ie[..|ies|], pack[..], from, end, ies, j);
        assert ie[..|ies|][j] == ie[j];
      }
      if ie[j] == NULL { break; }
      assert ies[j..][0] == ies[j] && ies[j..][1..] == ies[j + 1..];
      if pack[ie[j]] == t && pack[ie[j] + 3] == inst { return j; }
      j := j + 1;
    }
    assert ies[j..] == [];
    return -1;
  }

  /** gtp2ie_gettliv: the value of the first element of this type and instance. */
  method GetTliv(ie: array<int>, pack: array<Octet>, t: int, inst: int, ghost from: nat, ghost end: nat,
                 ghost ies: seq<Ie>)
    returns (ret: int, dst: seq<Octet>)
    requires |ies| <= GTPIE_SIZE && |ies| <= ie.Length
    requires |ies| < GTPIE_SIZE ==> |ies| < ie.Length && ie[|ies|] == NULL
    requires Tiles(ie[..|ies|], pack[..], from, end, ies)
    ensures match FirstMatch(ies, t, inst)
            case None => ret == -1 && dst == []
            case Some(k) => ret == 0 && k < |ies| && dst == ies[k].v
  {
    FirstMatchInRange(ies, t, inst);
    var ien := GetIe(ie, pack, t, inst, from, end, ies);
    dst := [];
    if ien >= 0 {
      TilesAt(ie[..|ies|], pack[..], from, end, ies, ien);
      ElementAt(pack[..], ie[ien], ies[ien]);
      var l := Word(pack[..], ie[ien] + 1);
      dst := pack[ie[ien] + 4..ie[ien] + 4 + l];
      return 0, dst;
    }
    return -1, dst;
  }

  lemma {:induction false} FirstMatchInRange(ies: seq<Ie>, t: int, inst: int)
    ensures match FirstMatch(ies, t, inst)
            case None => forall k :: 0 <= k < |ies| ==> !(ies[k].t == t && ies[k].i == inst)
            case Some(k) => && k < |ies| && ies[k].t == t && ies[k].i == inst
                            && forall m :: 0 <= m < k ==> !(ies[m].t == t && ies[m].i == inst)
    decreases |ies|
  {
    if ies != [] { FirstMatchInRange(ies[1..], t, inst); }
  }
}
