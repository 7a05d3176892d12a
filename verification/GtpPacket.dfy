/**
 Writing GTPv2-C packets: get_default_gtp, gtp2ie_tliv, gtp2ie_encaps and gtp2ie_encaps_group, the
 length field they keep in the header, and the round trip through nested groups.
 */
module GtpPacket {
  import opened Common
  import opened Octets
  import opened GtpIe

  /** A packet under construction: its buffer and the octets used so far. */
  datatype Packet = Packet(buf: seq<Octet>, len: nat)

  function LengthField(buf: seq<Octet>): nat
    requires |buf| >= 4
  {
    Word(buf, 2)
  }

  function WithLength(buf: seq<Octet>, w: nat): (r: seq<Octet>)
    requires |buf| >= 4 && w < U16
    ensures |r| == |buf|
  {
    Put(buf, 2, WordOctets(w))
  }

  /** Octets added at the end, length field moved along in 16 bits. */
  function Appended(p: Packet, x: seq<Octet>): Packet
    requires 4 <= p.len && p.len + |x| <= |p.buf|
  {
    Packet(WithLength(Put(p.buf, p.len, x), (LengthField(p.buf) + |x|) % U16), p.len + |x|)
  }

  /** The packet has a header of `h` octets, then exactly these elements, and the length field agrees. */
  ghost predicate Holds(p: Packet, h: nat, ies: seq<Ie>) {
    && 8 <= h <= p.len <= |p.buf| && HeaderSize(p.buf[0]) == h
    && p.buf[h..p.len] == EncAll(ies)
    && LengthField(p.buf) == (p.len - 4) % U16
  }

  lemma {:induction false} EncAllSnoc(ies: seq<Ie>, ie: Ie)
    ensures EncAll(ies + [ie]) == EncAll(ies) + Enc(ie)
    decreases |ies|
  {
    if ies == [] {
      assert ([] + [ie])[1..] == [] && ([] + [ie])[0] == ie;
      assert EncAll([] + [ie]) == Enc(ie) + EncAll([]);
    } else {
      assert (ies + [ie])[1..] == ies[1..] + [ie];
      EncAllSnoc(ies[1..], ie);
    }
  }

  lemma WordOfOctets(buf: seq<Octet>, w: nat)
    requires |buf| >= 4 && w < U16
    ensures LengthField(WithLength(buf, w)) == w
    ensures WithLength(buf, w)[0] == buf[0] && WithLength(buf, w)[4..] == buf[4..]
  {
    var r := WithLength(buf, w);
    assert r[2] == w / 256 && r[3] == w % 256;
  }

  lemma AppendedParts(p: Packet, x: seq<Octet>, h: nat)
    requires 8 <= h <= p.len && p.len + |x| <= |p.buf|
    ensures var q := Appended(p, x);
            && q.buf[0] == p.buf[0] && q.buf[h..q.len] == p.buf[h..p.len] + x
            && LengthField(q.buf) == (LengthField(p.buf) + |x|) % U16
  {
    var w := (LengthField(p.buf) + |x|) % U16;
    var b := Put(p.buf, p.len, x);
    WordOfOctets(b, w);
    var r := WithLength(b, w);
    assert r[h..p.len + |x|] == r[4..][h - 4..p.len + |x| - 4] == b[4..][h - 4..p.len + |x| - 4] == b[h..p.len + |x|];
  }

  lemma FieldAdds(len: nat, n: nat)
    requires len >= 4
    ensures ((len - 4) % U16 + n) % U16 == (len + n - 4) % U16
  {
  }

  lemma AppendHolds(p: Packet, h: nat, ies: seq<Ie>, ie: Ie)
    requires Holds(p, h, ies) && p.len + |Enc(ie)| <= |p.buf|
    ensures Holds(Appended(p, Enc(ie)), h, ies + [ie])
  {
    AppendedParts(p, Enc(ie), h);
    EncAllSnoc(ies, ie);
    FieldAdds(p.len, |Enc(ie)|);
  }

  /** The length field tells the packet length exactly while it fits in 16 bits. */
  lemma LengthFieldIsExact(p: Packet, h: nat, ies: seq<Ie>)
    requires Holds(p, h, ies)
    ensures p.len == LengthField(p.buf) + 4 <==> p.len < U16 + 4
  {
  }

  /** One element of 65535 octets behind a long header: the field wraps to 11 while the packet has 65551 octets. */
  lemma LengthFieldWraps(p: Packet, ie: Ie)
    requires Holds(p, 12, []) && p.len == 12 && |ie.v| == 65535 && 65551 <= |p.buf|
    ensures var q := Appended(p, Enc(ie));
            Holds(q, 12, [ie]) && q.len == 65551 && LengthField(q.buf) == 11
  {
    AppendHolds(p, 12, [], ie);
    assert [] + [ie] == [ie];
  }

  /** A packet that holds at most GTPIE_SIZE elements is decoded to them. */
  lemma PacketRoundTrip(p: Packet, h: nat, ies: seq<Ie>)
    requires Holds(p, h, ies)
    ensures Parse(p.buf[HeaderSize(p.buf[0])..p.len], GTPIE_SIZE) == Some(ies) <==> |ies| <= GTPIE_SIZE
  {
    ParseIsExact(p.buf[h..p.len], GTPIE_SIZE, ies);
  }

  // ---- the writers ----

  /** get_default_gtp. Version 0 falls through to version 2; any other is an error. */
  method DefaultHeader(version: int, t: Octet, packet: array<Octet>) returns (len: nat)
    requires packet.Length >= 12
    modifies packet
    ensures version != 0 && version != 2 ==> len == 0 && packet[..] == old(packet[..])
    ensures version == 0 || version == 2 ==>
              && len == (if t == 1 || t == 2 then 8 else 12)
              && packet[..len] == [if len == 8 then 0x40 else 0x48, t, 0, len - 4] + seq(len - 4, _ => 0)
              && Holds(Packet(packet[..], len), len, [])
  {
    if version != 0 && version != 2 { return 0; }
    if t == 1 || t == 2 {
      forall i | 0 <= i < 8 { packet[i] := 0; }
      packet[0] := 0x40;
      packet[2], packet[3] := 0, 4;
    } else {
      forall i | 0 <= i < 12 { packet[i] := 0; }
      packet[0] := 0x48;
      packet[2], packet[3] := 0, 8;
    }
    packet[1] := t;
    len := Word(packet[..], 2) + 4;
  }

  /** Room for the element is judged as if its value had four octets. */
  predicate TlivAccepts(len: nat, size: nat) {
    len + 8 < size
  }

  /** The header length field, re-read and rewritten in network order. */
  method BumpLength(p: array<Octet>, n: nat)
    requires p.Length >= 4
    modifies p
    ensures p[..] == WithLength(old(p[..]), (LengthField(old(p[..])) + n) % U16)
  {
    var w := (Word(p[..], 2) + n) % U16;
    p[2], p[3] := w / 256, w % 256;
  }

  /** The value loop of gtp2ie_tliv; every round also stores the first octet again. */
  method CopyValue(p: array<Octet>, at: nat, value: seq<Octet>)
    requires at + |value| <= p.Length
    modifies p
    ensures p[..] == Put(old(p[..]), at, value)
  {
    var i := 0;
    while i < |value|
      invariant 0 <= i <= |value|
      invariant p[..] == Put(old(p[..]), at, value[..i])
    {
      p[at] := value[0];
      assert i > 0 ==> p[..] == Put(old(p[..]), at, value[..i]);
      PutMore(old(p[..]), at, value, i);
      p[at + i] := value[i];
      i := i + 1;
    }
    assert value[..i] == value;
  }

  method StoreHead(p: array<Octet>, at: nat, t: Octet, l: nat, inst: Octet)
    requires at + 4 <= p.Length && l < U16
    modifies p
    ensures p[..] == Put(old(p[..]), at, [t, l / 256, l % 256, inst])
  {
    p[at] := t;
    p[at + 1], p[at + 2] := l / 256, l % 256;
    p[at + 3] := inst;
  }

  /** The octets gtp2ie_tliv stores. */
  lemma TlivStores(buf: seq<Octet>, at: nat, t: Octet, inst: Octet, value: seq<Octet>)
    requires |value| < U16 && 4 <= at && at + 4 + |value| <= |buf|
    ensures Put(Put(buf, at, [t, |value| / 256, |value| % 256, inst]), at + 4, value) ==
            Put(buf, at, Enc(RawIe(t, inst, value)))
    ensures LengthField(Put(buf, at, Enc(RawIe(t, inst, value)))) == LengthField(buf)
  {
    PutTwice(buf, at, [t, |value| / 256, |value| % 256, inst], value);
    PutKeepsLength(buf, at, Enc(RawIe(t, inst, value)));
  }

  /** The stores of gtp2ie_tliv: type, length, instance and value. */
  method StoreTliv(p: array<Octet>, at: nat, t: Octet, inst: Octet, value: seq<Octet>)
    requires |value| < U16 && 4 <= at && at + 4 + |value| <= p.Length
    modifies p
    ensures p[..] == Put(old(p[..]), at, Enc(RawIe(t, inst, value)))
  {
    ghost var buf := p[..];
    StoreHead(p, at, t, |value|, inst);
    CopyValue(p, at + 4, value);
    TlivStores(buf, at, t, inst, value);
  }

  lemma TlivAppends(buf: seq<Octet>, stored: seq<Octet>, now: seq<Octet>, at: nat, ie: Ie)
    requires 4 <= at && at + |Enc(ie)| <= |buf| && stored == Put(buf, at, Enc(ie))
    requires now == WithLength(stored, (LengthField(stored) + |Enc(ie)|) % U16)
    ensures Packet(now, at + |Enc(ie)|) == Appended(Packet(buf, at), Enc(ie))
  {
    PutKeepsLength(buf, at, Enc(ie));
  }

  /** gtp2ie_tliv */
  method Tliv(p: array<Octet>, length: nat, size: nat, t: Octet, inst: Octet, value: seq<Octet>)
    returns (ret: int, length': nat)
    requires |value| < U16 && 4 <= length
    requires TlivAccepts(length, size) ==> length + 4 + |value| <= p.Length
    modifies p
    ensures ret == 0 <==> TlivAccepts(length, size)
    ensures ret == 0 ==> Packet(p[..], length') == Appended(Packet(old(p[..]), length), Enc(RawIe(t, inst, value)))
    ensures ret != 0 ==> ret == 1 && length' == length && p[..] == old(p[..])
  {
    if length + 8 >= size { return 1, length; }
    ghost var buf := p[..];
    StoreTliv(p, length, t, inst, value);
    ghost var stored := p[..];
    BumpLength(p, |value| + 4);
    TlivAppends(buf, stored, p[..], length, RawIe(t, inst, value));
    return 0, length + |value| + 4;
  }

  lemma PutKeepsLength(buf: seq<Octet>, at: nat, x: seq<Octet>)
    requires 4 <= at && at + |x| <= |buf|
    ensures LengthField(Put(buf, at, x)) == LengthField(buf)
  {
  }

  /** How many elements fit: each must leave the total below the room. */
  function Fitting(ies: seq<Ie>, room: nat): (k: nat)
    ensures k <= |ies|
  {
    if ies == [] || |Enc(ies[0])| >= room then 0 else 1 + Fitting(ies[1..], room - |Enc(ies[0])|)
  }

  lemma FittingStep(ies: seq<Ie>, i: nat, room: nat)
    requires i < |ies|
    ensures var n := |Enc(ies[i])|;
            Fitting(ies[i..], room) == if n < room then 1 + Fitting(ies[i + 1..], room - n) else 0
  {
    assert ies[i..][0] == ies[i] && ies[i..][1..] == ies[i + 1..];
  }

  /** The elements that fit are the longest prefix whose encoding is shorter than the room. */
  lemma {:induction false} FittingIsLongest(ies: seq<Ie>, room: nat, k: nat)
    requires 0 < room && k <= |ies|
    ensures |EncAll(ies[..k])| < room <==> k <= Fitting(ies, room)
    decreases |ies|
  {
    if k == 0 {
      assert ies[..0] == [];
    } else {
      assert ies[..k][1..] == ies[1..][..k - 1];
      var n := |Enc(ies[0])|;
      if n < room { FittingIsLongest(ies[1..], room - n, k - 1); }
    }
  }

  /** gtp2ie_encaps on values: elements in order while they fit. */
  function AppendedAll(p: Packet, ies: seq<Ie>, room: nat): (q: Packet)
    requires 4 <= p.len && p.len + room <= |p.buf|
    ensures |q.buf| == |p.buf| && p.len <= q.len <= p.len + room
    decreases |ies|
  {
    if ies == [] || |Enc(ies[0])| >= room then p
    else AppendedAll(Appended(p, Enc(ies[0])), ies[1..], room - |Enc(ies[0])|)
  }

  lemma TakeMore(done: seq<Ie>, ies: seq<Ie>, k: nat)
    requires k < |ies|
    ensures done + ies[..k + 1] == done + [ies[0]] + ies[1..][..k]
  {
  }

  lemma {:induction false} AppendedAllHolds(p: Packet, h: nat, done: seq<Ie>, ies: seq<Ie>, room: nat)
    requires Holds(p, h, done) && p.len + room <= |p.buf|
    ensures Holds(AppendedAll(p, ies, room), h, done + ies[..Fitting(ies, room)])
    decreases |ies|
  {
    if ies == [] || |Enc(ies[0])| >= room {
      assert done + ies[..0] == done;
    } else {
      AppendHolds(p, h, done, ies[0]);
      var n := |Enc(ies[0])|;
      AppendedAllHolds(Appended(p, Enc(ies[0])), h, done + [ies[0]], ies[1..], room - n);
      TakeMore(done, ies, Fitting(ies[1..], room - n));
    }
  }

  /** memset(pack + len, 0, GTPIE_MAX) */
  function Cleared(p: Packet): (q: Packet)
    requires p.len + GTPIE_MAX <= |p.buf|
    ensures |q.buf| == |p.buf| && q.len == p.len && q.buf[..p.len] == p.buf[..p.len]
  {
    Packet(p.buf[..p.len] + seq(GTPIE_MAX, _ => 0) + p.buf[p.len + GTPIE_MAX..], p.len)
  }

  /** The octets behind the packet are zero as far as the memset goes, all others are as before. */
  lemma ClearedOctets(p: Packet, k: nat)
    requires p.len + GTPIE_MAX <= |p.buf| && k < |p.buf|
    ensures Cleared(p).buf[k] == if p.len <= k < p.len + 65535 then 0 else p.buf[k]
  {
    if k < p.len { assert Cleared(p).buf[..p.len][k] == p.buf[..p.len][k]; }
  }

  lemma ClearedHolds(p: Packet, h: nat, ies: seq<Ie>)
    requires Holds(p, h, ies) && p.len + GTPIE_MAX <= |p.buf|
    ensures Holds(Cleared(p), h, ies)
  {
    var q := Cleared(p);
    assert q.buf[h..p.len] == q.buf[..p.len][h..] == p.buf[h..p.len];
    assert q.buf[0] == q.buf[..p.len][0] && q.buf[2] == q.buf[..p.len][2] && q.buf[3] == q.buf[..p.len][3];
  }

  /** One round of gtp2ie_encaps: copy the element, move the header length. */
  method AppendOne(pack: array<Octet>, p: nat, ie: Ie)
    requires 4 <= p && p + |Enc(ie)| <= pack.Length
    modifies pack
    ensures Packet(pack[..], p + |Enc(ie)|) == Appended(Packet(old(pack[..]), p), Enc(ie))
  {
    PutKeepsLength(pack[..], p, Enc(ie));
    Memcpy(pack, p, Enc(ie));
    BumpLength(pack, |Enc(ie)|);
  }

  method Clear(pack: array<Octet>, len: nat)
    requires len + GTPIE_MAX <= pack.Length
    modifies pack
    ensures pack[..] == Cleared(Packet(old(pack[..]), len)).buf
  {
    forall i | len <= i < len + GTPIE_MAX { pack[i] := 0; }
  }

  /** Before element `i` of gtp2ie_encaps: the packet so far, and what the rest will make of it. */
  ghost predicate Encapsing(target: Packet, fit: nat, q: Packet, ies: seq<Ie>, i: nat, room: nat) {
    && i <= |ies| && 4 <= q.len && q.len + room <= |q.buf|
    && target == AppendedAll(q, ies[i..], room)
    && fit == i + Fitting(ies[i..], room)
  }

  lemma EncapsingStart(q: Packet, ies: seq<Ie>, room: nat)
    requires 4 <= q.len && q.len + room <= |q.buf|
    ensures Encapsing(AppendedAll(q, ies, room), Fitting(ies, room), q, ies, 0, room)
  {
    assert ies[0..] == ies;
  }

  /** The element at `i` fits, or no later one is looked at. */
  lemma EncapsingStep(target: Packet, fit: nat, q: Packet, ies: seq<Ie>, i: nat, room: nat)
    requires Encapsing(target, fit, q, ies, i, room) && i < |ies|
    ensures |Enc(ies[i])| < room ==>
              Encapsing(target, fit, Appended(q, Enc(ies[i])), ies, i + 1, room - |Enc(ies[i])|)
    ensures |Enc(ies[i])| >= room ==> target == q && fit == i
  {
    assert ies[i..][0] == ies[i] && ies[i..][1..] == ies[i + 1..];
  }

  lemma EncapsingAdvance(target: Packet, fit: nat, was: Packet, now: Packet, ies: seq<Ie>, i: nat, room: nat,
                         room': nat)
    requires Encapsing(target, fit, was, ies, i, room) && i < |ies|
    requires |Enc(ies[i])| < room && room' == room - |Enc(ies[i])| && now == Appended(was, Enc(ies[i]))
    ensures Encapsing(target, fit, now, ies, i + 1, room')
  {
    EncapsingStep(target, fit, was, ies, i, room);
  }

  lemma EncapsingEnd(target: Packet, fit: nat, q: Packet, ies: seq<Ie>, room: nat)
    requires Encapsing(target, fit, q, ies, |ies|, room)
    ensures target == q && fit == |ies|
  {
  }

  /** One round of gtp2ie_encaps: the element is copied if it fits. */
  method EncapsOne(ies: seq<Ie>, pack: array<Octet>, p: nat, i: nat, end: nat, ghost target: Packet, ghost fit: nat)
    returns (q: nat)
    requires p <= end && i < |ies| && Encapsing(target, fit, Packet(pack[..], p), ies, i, end - p)
    modifies pack
    ensures p + |Enc(ies[i])| < end ==>
              q == p + |Enc(ies[i])| && Encapsing(target, fit, Packet(pack[..], q), ies, i + 1, end - q)
    ensures p + |Enc(ies[i])| >= end ==> q == p && Packet(pack[..], p) == target && fit == i
  {
    ghost var was := Packet(pack[..], p);
    q := p;
    var iesize := 4 + |ies[i].v|;
    if p + iesize < end {
      AppendOne(pack, p, ies[i]);
      q := p + iesize;
      EncapsingAdvance(target, fit, was, Packet(pack[..], q), ies, i, end - p, end - q);
    } else {
      EncapsingStep(target, fit, was, ies, i, end - p);
    }
  }

  /** gtp2ie_encaps after its memset. */
  method EncapsLoop(ies: seq<Ie>, pack: array<Octet>, len: nat, ghost target: Packet, ghost fit: nat)
    returns (ret: int, len': nat)
    requires Encapsing(target, fit, Packet(pack[..], len), ies, 0, GTPIE_MAX)
    modifies pack
    ensures Packet(pack[..], len') == target
    ensures ret == if fit == |ies| then 0 else -1
  {
    var end := len + GTPIE_MAX;
    len' := len;
    var i := 0;
    while i < |ies|
      invariant 0 <= i <= |ies| && len' < end
      invariant Encapsing(target, fit, Packet(pack[..], len'), ies, i, end - len')
    {
      var p := len';
      len' := EncapsOne(ies, pack, p, i, end, target, fit);
      if len' == p {
        return -1, len';
      }
      i := i + 1;
    }
    EncapsingEnd(target, fit, Packet(pack[..], len'), ies, end - len');
    return 0, len';
  }

  /** gtp2ie_encaps */
  method Encaps(ies: seq<Ie>, pack: array<Octet>, len: nat) returns (ret: int, len': nat)
    requires 4 <= len && len + GTPIE_MAX <= pack.Length
    modifies pack
    ensures Packet(pack[..], len') == AppendedAll(Cleared(Packet(old(pack[..]), len)), ies, GTPIE_MAX)
    ensures ret == if Fitting(ies, GTPIE_MAX) == |ies| then 0 else -1
  {
    Clear(pack, len);
    ghost var start := Packet(pack[..], len);
    EncapsingStart(start, ies, GTPIE_MAX);
    ret, len' := EncapsLoop(ies, pack, len, AppendedAll(start, ies, GTPIE_MAX), Fitting(ies, GTPIE_MAX));
  }

  /** One round of gtp2ie_encaps_group: copy the element, move the group's own length. */
  method AppendToGroup(to: array<Octet>, p: nat, ie: Ie, ghost t: Octet, ghost inst: Octet, ghost v: seq<Octet>)
    requires p == 4 + |v| && |v| + |Enc(ie)| < GTPIE_MAX && to.Length >= 4 + GTPIE_MAX
    requires to[..p] == Enc(RawIe(t, inst, v))
    modifies to
    ensures to[..p + |Enc(ie)|] == Enc(RawIe(t, inst, v + Enc(ie)))
  {
    ghost var was := to[..];
    Memcpy(to, p, Enc(ie));
    GroupLength(was, p, Enc(ie), t, inst, v);
    var l := (Word(to[..], 1) + |Enc(ie)|) % U16;
    to[1], to[2] := l / 256, l % 256;
    assert l == |v| + |Enc(ie)|;
    assert to[..] == Put(Put(was, p, Enc(ie)), 1, WordOctets(l));
    GroupGrows(was, p, Enc(ie), t, inst, v);
    assert to[..p + |Enc(ie)|] == to[..][..p + |Enc(ie)|];
  }

  lemma FittingIsShort(ies: seq<Ie>)
    ensures |EncAll(ies[..Fitting(ies, GTPIE_MAX)])| < GTPIE_MAX
  {
    FittingIsLongest(ies, GTPIE_MAX, Fitting(ies, GTPIE_MAX));
  }

  /** The element gtp2ie_encaps_group builds: the elements that fit are its value. */
  function Grouped(t: Octet, inst: Octet, ies: seq<Ie>): (ie: Ie)
    ensures |ie.v| < GTPIE_MAX
  {
    FittingIsShort(ies);
    RawIe(t, inst, EncAll(ies[..Fitting(ies, GTPIE_MAX)]))
  }

  /** Before element `i` of gtp2ie_encaps_group, with `v` the value built so far. */
  ghost predicate Grouping(fit: nat, v: seq<Octet>, ies: seq<Ie>, i: nat) {
    && i <= |ies| && |v| < GTPIE_MAX
    && v == EncAll(ies[..i])
    && fit == i + Fitting(ies[i..], GTPIE_MAX - |v|)
  }

  lemma GroupingStart(ies: seq<Ie>)
    ensures Grouping(Fitting(ies, GTPIE_MAX), [], ies, 0)
  {
    assert ies[0..] == ies && ies[..0] == [];
  }

  lemma GroupingStep(fit: nat, v: seq<Octet>, ies: seq<Ie>, i: nat)
    requires Grouping(fit, v, ies, i) && i < |ies|
    ensures |v| + |Enc(ies[i])| < GTPIE_MAX ==> Grouping(fit, v + Enc(ies[i]), ies, i + 1)
    ensures |v| + |Enc(ies[i])| >= GTPIE_MAX ==> fit == i
  {
    FittingStep(ies, i, GTPIE_MAX - |v|);
    EncAllSnoc(ies[..i], ies[i]);
    assert ies[..i] + [ies[i]] == ies[..i + 1];
  }

  lemma GroupingEnd(fit: nat, v: seq<Octet>, ies: seq<Ie>)
    requires Grouping(fit, v, ies, |ies|)
    ensures fit == |ies|
  {
  }

  /** gtp2ie_encaps_group: the group element holds the elements that fit. */
  method EncapsGroup(t: Octet, inst: Octet, to: array<Octet>, ies: seq<Ie>) returns (ret: int)
    requires to.Length >= 4 + GTPIE_MAX
    modifies to
    ensures ret == if Fitting(ies, GTPIE_MAX) == |ies| then 0 else -1
    ensures to[..|Enc(Grouped(t, inst, ies))|] == Enc(Grouped(t, inst, ies))
  {
    to[0], to[3] := t, inst;
    to[1], to[2] := 0, 0;
    var p, end := 4, 4 + GTPIE_MAX;
    ghost var v: seq<Octet>, fit := [], Fitting(ies, GTPIE_MAX);
    GroupingStart(ies);
    var i := 0;
    while i < |ies|
      invariant 0 <= i <= |ies| && p == 4 + |v| < end
      invariant Grouping(fit, v, ies, i)
      invariant to[..4 + |v|] == Enc(RawIe(t, inst, v))
    {
      GroupingStep(fit, v, ies, i);
      var iesize := 4 + |ies[i].v|;
      if p + iesize < end {
        AppendToGroup(to, p, ies[i], t, inst, v);
        v := v + Enc(ies[i]);
        p := p + iesize;
      } else {
        return -1;
      }
      i := i + 1;
    }
    GroupingEnd(fit, v, ies);
    return 0;
  }

  /** The group's length field, read after the copy and moved, is the new length. */
  lemma GroupLength(was: seq<Octet>, p: nat, x: seq<Octet>, t: Octet, inst: Octet, v: seq<Octet>)
    requires p == 4 + |v| && |v| + |x| < U16 && p + |x| <= |was| && was[..p] == Enc(RawIe(t, inst, v))
    ensures (Word(Put(was, p, x), 1) + |x|) % U16 == |v| + |x|
  {
    var now := Put(was, p, x);
    assert now[1] == was[..p][1] == |v| / 256;
    assert now[2] == was[..p][2] == |v| % 256;
  }

  /** The group element after one more element and the new length have been stored. */
  lemma GroupGrows(was: seq<Octet>, p: nat, x: seq<Octet>, t: Octet, inst: Octet, v: seq<Octet>)
    requires p == 4 + |v| && |v| + |x| < GTPIE_MAX && p + |x| <= |was| && was[..p] == Enc(RawIe(t, inst, v))
    ensures Put(Put(was, p, x), 1, WordOctets(|v| + |x|))[..p + |x|] == Enc(RawIe(t, inst, v + x))
  {
    var mid := Put(was, p, x);
    var now := Put(mid, 1, WordOctets(|v| + |x|));
    assert mid[4..p] == was[4..p] == was[..p][4..] == v && mid[p..p + |x|] == x;
    assert now[3..] == mid[3..];
    assert now[4..p + |x|] == now[3..][1..p + |x| - 3] == mid[4..p + |x|] == mid[4..p] + mid[p..p + |x|];
    assert was[0] == was[..p][0] && was[3] == was[..p][3];
    assert now[..p + |x|] == now[..4] + now[4..p + |x|];
  }
}
