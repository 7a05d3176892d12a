/**
 Whole constructions: any run of writer calls on a packet, and trees of nested groups of any depth.
 */
module GtpRuns {
  import opened Common
  import opened Octets
  import opened GtpIe
  import opened GtpPacket

  // ---- runs of gtp2ie_tliv and gtp2ie_encaps ----

  datatype Op = AddTliv(size: nat, ie: Ie) | AddAll(ies: seq<Ie>)

  /** The stores of the call stay inside the buffer. */
  predicate OpOk(p: Packet, op: Op) {
    match op
    case AddTliv(size, ie) => TlivAccepts(p.len, size) ==> p.len + |Enc(ie)| <= |p.buf|
    case AddAll(_) => p.len + GTPIE_MAX <= |p.buf|
  }

  function Step(p: Packet, op: Op): (q: Packet)
    requires 4 <= p.len && OpOk(p, op)
    ensures p.len <= q.len && |q.buf| == |p.buf|
  {
    match op
    case AddTliv(size, ie) => if TlivAccepts(p.len, size) then Appended(p, Enc(ie)) else p
    case AddAll(ies) => AppendedAll(Cleared(p), ies, GTPIE_MAX)
  }

  /** The elements the call adds: all, none, or those before the first that did not fit. */
  function Added(p: Packet, op: Op): seq<Ie> {
    match op
    case AddTliv(size, ie) => if TlivAccepts(p.len, size) then [ie] else []
    case AddAll(ies) => ies[..Fitting(ies, GTPIE_MAX)]
  }

  predicate RunOk(p: Packet, ops: seq<Op>)
    requires 4 <= p.len
    decreases |ops|
  {
    ops != [] ==> OpOk(p, ops[0]) && RunOk(Step(p, ops[0]), ops[1..])
  }

  function Exec(p: Packet, ops: seq<Op>): Packet
    requires 4 <= p.len && RunOk(p, ops)
    decreases |ops|
  {
    if ops == [] then p else Exec(Step(p, ops[0]), ops[1..])
  }

  function Written(p: Packet, ops: seq<Op>): seq<Ie>
    requires 4 <= p.len && RunOk(p, ops)
    decreases |ops|
  {
    if ops == [] then [] else Added(p, ops[0]) + Written(Step(p, ops[0]), ops[1..])
  }

  lemma StepHolds(p: Packet, h: nat, done: seq<Ie>, op: Op)
    requires Holds(p, h, done) && OpOk(p, op)
    ensures Holds(Step(p, op), h, done + Added(p, op))
  {
    match op {
      case AddTliv(size, ie) =>
        if TlivAccepts(p.len, size) { AppendHolds(p, h, done, ie); } else { assert done + [] == done; }
      case AddAll(ies) =>
        ClearedHolds(p, h, done);
        AppendedAllHolds(Cleared(p), h, done, ies, GTPIE_MAX);
    }
  }

  /**
   After any run the packet is well formed and holds exactly the elements added, in order, and its
   length field is the packet length less 4 as far as 16 bits go.
   */
  lemma {:induction false} RunHolds(p: Packet, h: nat, done: seq<Ie>, ops: seq<Op>)
    requires Holds(p, h, done) && RunOk(p, ops)
    ensures Holds(Exec(p, ops), h, done + Written(p, ops))
    decreases |ops|
  {
    if ops == [] {
      assert done + [] == done;
    } else {
      var q, now := Step(p, ops[0]), done + Added(p, ops[0]);
      StepHolds(p, h, done, ops[0]);
      RunHolds(q, h, now, ops[1..]);
      Associate(done, Added(p, ops[0]), Written(q, ops[1..]));
    }
  }

  /** From a new header: the run can be read back, and the length field is right below 2^16. */
  lemma RunRoundTrip(p: Packet, h: nat, ops: seq<Op>)
    requires Holds(p, h, []) && RunOk(p, ops)
    requires |Written(p, ops)| <= GTPIE_SIZE
    ensures var q := Exec(p, ops);
            && 8 <= h <= q.len <= |q.buf| && HeaderSize(q.buf[0]) == h
            && Parse(q.buf[h..q.len], GTPIE_SIZE) == Some(Written(p, ops))
            && (q.len == LengthField(q.buf) + 4 <==> q.len < U16 + 4)
  {
    RunHolds(p, h, [], ops);
    assert [] + Written(p, ops) == Written(p, ops);
    PacketRoundTrip(Exec(p, ops), h, Written(p, ops));
    LengthFieldIsExact(Exec(p, ops), h, Written(p, ops));
  }

  /**
   The room test of gtp2ie_tliv keeps the stores of every accepted call inside `size` exactly for values of at
   most five octets, on any packet.
   */
  lemma TlivRoomIsExact(len: nat, vsize: nat)
    requires len >= 8
    ensures (forall size: nat :: TlivAccepts(len, size) ==> len + 4 + vsize <= size) <==> vsize <= 5
  {
    if vsize > 5 { assert TlivAccepts(len, len + 9) && len + 4 + vsize > len + 9; }
  }

  /** In the terms of a run: with the buffer's own size, up to five octets are always safe and six are not. */
  lemma TlivOverruns(p: Packet, ie: Ie)
    requires 8 <= p.len
    ensures |ie.v| <= 5 ==> OpOk(p, AddTliv(|p.buf|, ie))
    ensures |ie.v| >= 6 && |p.buf| == p.len + 9 ==> TlivAccepts(p.len, |p.buf|) && !OpOk(p, AddTliv(|p.buf|, ie))
  {
  }

  /** The declared packet: a long header and GTP_MAX octets. */
  const PACKET_OCTETS := 12 + 0xFFFF

  /** There the memset of gtp2ie_encaps stays inside exactly on a packet of no more than a long header. */
  lemma MemsetRoomIsExact(p: Packet, ies: seq<Ie>)
    requires |p.buf| == PACKET_OCTETS
    ensures OpOk(p, AddAll(ies)) <==> p.len <= 12
  {
  }

  lemma {:induction false} EncAllGrows(ies: seq<Ie>)
    ensures |EncAll(ies)| >= 4 * |ies|
    decreases |ies|
  {
    if ies != [] { EncAllGrows(ies[1..]); }
  }

  /** So after any run from a long header another encaps stays inside exactly when nothing was written yet. */
  lemma SecondEncapsIsExact(p: Packet, ops: seq<Op>, ies: seq<Ie>)
    requires Holds(p, 12, []) && p.len == 12 && |p.buf| == PACKET_OCTETS && RunOk(p, ops)
    ensures OpOk(Exec(p, ops), AddAll(ies)) <==> Written(p, ops) == []
  {
    RunHolds(p, 12, [], ops);
    assert [] + Written(p, ops) == Written(p, ops);
    EncAllGrows(Written(p, ops));
    ExecKeepsSize(p, ops);
    MemsetRoomIsExact(Exec(p, ops), ies);
  }

  /** One empty element is enough to put the memset of a second call outside. */
  lemma SecondEncapsOutside(p: Packet, ie: Ie)
    requires Holds(p, 12, []) && p.len == 12 && |p.buf| == PACKET_OCTETS && |ie.v| < GTPIE_MAX - 4
    ensures RunOk(p, [AddAll([ie])]) && !OpOk(Exec(p, [AddAll([ie])]), AddAll([ie]))
  {
    assert Fitting([ie], GTPIE_MAX) == 1 by { assert [ie][1..] == []; }
    assert [AddAll([ie])][1..] == [] && [ie][..1] == [ie];
    assert Added(p, AddAll([ie])) == [ie];
    SecondEncapsIsExact(p, [AddAll([ie])], [ie]);
  }

  lemma {:induction false} ExecKeepsSize(p: Packet, ops: seq<Op>)
    requires 4 <= p.len && RunOk(p, ops)
    ensures |Exec(p, ops).buf| == |p.buf|
    decreases |ops|
  {
    if ops != [] { ExecKeepsSize(Step(p, ops[0]), ops[1..]); }
  }

  // ---- nested groups ----

  datatype Node = Leaf(t: Octet, i: Octet, v: seq<Octet>) | Group(t: Octet, i: Octet, kids: seq<Node>)

  /** The value octets of a node: its own, or its children one after the other. */
  function Value(n: Node): seq<Octet>
    decreases n, 0
  {
    match n
    case Leaf(_, _, v) => v
    case Group(_, _, kids) => EncNodes(kids)
  }

  function EncNodes(ns: seq<Node>): seq<Octet>
    decreases ns, 1
  {
    if ns == [] then []
    else
      var v := Value(ns[0]);
      [ns[0].t, |v| / 256 % 256, |v| % 256, ns[0].i] + v + EncNodes(ns[1..])
  }

  /** Every value fits a 16-bit length. */
  predicate Sized(ns: seq<Node>)
    decreases ns
  {
    ns != [] ==> |Value(ns[0])| < U16 && (ns[0].Group? ==> Sized(ns[0].kids)) && Sized(ns[1..])
  }

  /** The types in `g`, and no others, are groups. */
  predicate Typed(g: set<Octet>, ns: seq<Node>)
    decreases ns
  {
    ns != [] ==> (ns[0].Group? <==> ns[0].t in g) && (ns[0].Group? ==> Typed(g, ns[0].kids)) && Typed(g, ns[1..])
  }

  /** No sibling list below this one has more than `max` elements. */
  predicate NarrowBelow(ns: seq<Node>, max: nat)
    decreases ns
  {
    ns != [] ==> (ns[0].Group? ==> |ns[0].kids| <= max && NarrowBelow(ns[0].kids, max)) && NarrowBelow(ns[1..], max)
  }

  /** The elements of the top level. */
  function Flat(ns: seq<Node>): (r: seq<Ie>)
    requires Sized(ns)
    ensures |r| == |ns|
  {
    if ns == [] then []
    else
      var ie: Ie := RawIe(ns[0].t, ns[0].i, Value(ns[0]));
      [ie] + Flat(ns[1..])
  }

  lemma {:induction false} EncNodesIsEncAll(ns: seq<Node>)
    requires Sized(ns)
    ensures EncNodes(ns) == EncAll(Flat(ns))
    decreases |ns|
  {
    if ns != [] {
      EncNodesIsEncAll(ns[1..]);
      var ies := Flat(ns);
      assert ies[1..] == Flat(ns[1..]);
      assert Enc(ies[0]) == [ns[0].t, |Value(ns[0])| / 256 % 256, |Value(ns[0])| % 256, ns[0].i] + Value(ns[0]);
    }
  }

  // ---- building a tree with the writers ----

  /** gtp2ie_encaps_group from the innermost groups outwards; None as soon as one returns -1. */
  function Build(ns: seq<Node>): Option<seq<Ie>>
    decreases ns, 1
  {
    if ns == [] then Some([])
    else
      var first, rest := BuildNode(ns[0]), Build(ns[1..]);
      if first.None? || rest.None? then None else Some([first.value] + rest.value)
  }

  function BuildNode(n: Node): Option<Ie>
    decreases n, 0
  {
    match n
    case Leaf(t, i, v) => if |v| < U16 then var ie: Ie := RawIe(t, i, v); Some(ie) else None
    case Group(t, i, kids) =>
      var ies := Build(kids);
      if ies.None? || Fitting(ies.value, GTPIE_MAX) != |ies.value| then None else Some(Grouped(t, i, ies.value))
  }

  /** Every group value is shorter than the room gtp2ie_encaps_group has. */
  predicate Buildable(ns: seq<Node>)
    decreases ns
  {
    ns != [] ==>
      && (match ns[0]
          case Leaf(_, _, v) => |v| < U16
          case Group(_, _, kids) => |EncNodes(kids)| < GTPIE_MAX && Buildable(kids))
      && Buildable(ns[1..])
  }

  /** All elements fit exactly when their encoding is shorter than the room, and then they are the group's value. */
  lemma AllFit(ies: seq<Ie>)
    ensures Fitting(ies, GTPIE_MAX) == |ies| <==> |EncAll(ies)| < GTPIE_MAX
    ensures Fitting(ies, GTPIE_MAX) == |ies| ==> forall t, i :: Grouped(t, i, ies) == RawIe(t, i, EncAll(ies))
  {
    assert ies[..|ies|] == ies;
    FittingIsLongest(ies, GTPIE_MAX, |ies|);
  }

  /** The writers build a tree exactly when every group fits, and then its elements are those of `Flat`. */
  lemma {:induction false} BuildIsExact(ns: seq<Node>)
    ensures Buildable(ns) ==> Sized(ns) && Build(ns) == Some(Flat(ns))
    ensures !Buildable(ns) ==> Build(ns) == None
    decreases ns, 1
  {
    if ns != [] {
      BuildNodeIsExact(ns[0]);
      BuildIsExact(ns[1..]);
    }
  }

  lemma {:induction false} BuildNodeIsExact(n: Node)
    ensures var ok := match n case Leaf(_, _, v) => |v| < U16
                              case Group(_, _, kids) => |EncNodes(kids)| < GTPIE_MAX && Buildable(kids);
            && (ok ==> |Value(n)| < U16 && (n.Group? ==> Sized(n.kids)))
            && (ok ==> BuildNode(n) == Some(RawIe(n.t, n.i, Value(n))))
            && (!ok ==> BuildNode(n) == None)
    decreases n, 0
  {
    if n.Group? {
      BuildIsExact(n.kids);
      if Buildable(n.kids) {
        EncNodesIsEncAll(n.kids);
        AllFit(Flat(n.kids));
      }
    }
  }

  /** A tree whose whole encoding is short has no group that does not fit. */
  lemma {:induction false} ShortIsBuildable(ns: seq<Node>)
    requires |EncNodes(ns)| < GTPIE_MAX
    ensures Buildable(ns)
    decreases ns
  {
    if ns != [] {
      if ns[0].Group? { ShortIsBuildable(ns[0].kids); }
      ShortIsBuildable(ns[1..]);
    }
  }

  // ---- reading it back ----

  /** The most elements a decap into `slots` pointers keeps with the terminator inside. */
  function Width(slots: nat): nat
    requires slots >= 1
  {
    Min(GTPIE_SIZE, slots - 1)
  }

  /**
   gtp2ie_decap, and gtp2ie_decaps_group on the value of every group, to any depth, into arrays of `slots`
   pointers. None when a call fails or stores its terminator outside.
   */
  function ReadNodes(g: set<Octet>, s: seq<Octet>, slots: nat): Option<seq<Node>>
    decreases |s|, 1, 0
  {
    match Parse(s, GTPIE_SIZE)
    case None => None
    case Some(ies) =>
      ParseBounded(s, GTPIE_SIZE);
      if |ies| < slots then ReadEach(g, ies, |s|, slots) else None
  }

  function ReadEach(g: set<Octet>, ies: seq<Ie>, bound: nat, slots: nat): Option<seq<Node>>
    requires forall ie :: ie in ies ==> |ie.v| < bound
    decreases bound, 0, |ies|
  {
    if ies == [] then Some([])
    else
      var ie := ies[0];
      var rest := ReadEach(g, ies[1..], bound, slots);
      if rest.None? then None
      else if ie.t !in g then Some([Leaf(ie.t, ie.i, ie.v)] + rest.value)
      else
        var kids := ReadNodes(g, ie.v, slots);
        if kids.None? then None else Some([Group(ie.t, ie.i, kids.value)] + rest.value)
  }

  /** Reading each element gives the nodes exactly when every group below can be read. */
  lemma {:induction false} ReadEachIsExact(g: set<Octet>, ns: seq<Node>, bound: nat, slots: nat)
    requires Sized(ns) && Typed(g, ns) && slots >= 1 && forall ie :: ie in Flat(ns) ==> |ie.v| < bound
    ensures ReadEach(g, Flat(ns), bound, slots) == Some(ns) <==> NarrowBelow(ns, Width(slots))
    decreases ns, 1
  {
    if ns != [] {
      var ies := Flat(ns);
      assert ies[1..] == Flat(ns[1..]) && ies[0] == RawIe(ns[0].t, ns[0].i, Value(ns[0]));
      ReadEachIsExact(g, ns[1..], bound, slots);
      if ns[0].Group? { ReadIsExact(g, ns[0].kids, slots); }
      assert [ns[0]] + ns[1..] == ns;
    }
  }

  /**
   Reading an encoded tree gives it back exactly when no sibling list has more than GTPIE_SIZE elements or
   fills the pointer array: at most 255 with the GTPIE_SIZE slots the callers declare.
   */
  lemma {:induction false} ReadIsExact(g: set<Octet>, ns: seq<Node>, slots: nat)
    requires Sized(ns) && Typed(g, ns) && slots >= 1
    ensures ReadNodes(g, EncNodes(ns), slots) == Some(ns) <==> |ns| <= Width(slots) && NarrowBelow(ns, Width(slots))
    decreases ns, 2
  {
    var ies, s := Flat(ns), EncNodes(ns);
    EncNodesIsEncAll(ns);
    if |ns| <= GTPIE_SIZE {
      ParseComplete(ies, GTPIE_SIZE);
      ParseBounded(s, GTPIE_SIZE);
      ReadEachIsExact(g, ns, |s|, slots);
    } else {
      TooMany(ies);
    }
  }

  lemma TooMany(ies: seq<Ie>)
    requires |ies| > GTPIE_SIZE
    ensures Parse(EncAll(ies), GTPIE_SIZE) == None
  {
    var s := EncAll(ies);
    var found := Parse(s, GTPIE_SIZE);
    if found.Some? {
      ParseIsExact(s, GTPIE_SIZE, found.value);
      ParseComplete(found.value, |ies|);
      ParseComplete(ies, |ies|);
    }
  }

  // ---- there and back ----

  /** A tree built, and its elements put behind a header by gtp2ie_encaps; None if a call returns -1. */
  function Sent(p: Packet, ns: seq<Node>): Option<Packet>
    requires 4 <= p.len && p.len + GTPIE_MAX <= |p.buf|
  {
    var ies := Build(ns);
    if ies.None? || Fitting(ies.value, GTPIE_MAX) != |ies.value| then None
    else Some(AppendedAll(Cleared(p), ies.value, GTPIE_MAX))
  }

  /**
   Groups built with gtp2ie_encaps_group, sent with gtp2ie_encaps, read with gtp2ie_decap and
   gtp2ie_decaps_group level by level into arrays of `slots` pointers: sending succeeds exactly when the encoded
   tree is shorter than GTPIE_MAX, and then the tree comes back, every terminator inside its array, exactly when
   no sibling list has more than `Width(slots)` elements.
   */
  lemma TreeTravels(p: Packet, h: nat, g: set<Octet>, ns: seq<Node>, slots: nat)
    requires Holds(p, h, []) && p.len + GTPIE_MAX <= |p.buf| && Typed(g, ns) && slots >= 1
    ensures Sent(p, ns).Some? <==> |EncNodes(ns)| < 65535
    ensures Sent(p, ns).Some? ==>
              var q := Sent(p, ns).value;
              && 8 <= h <= q.len <= |q.buf| && HeaderSize(q.buf[0]) == h
              && q.buf[h..q.len] == EncNodes(ns)
              && (ReadNodes(g, q.buf[h..q.len], slots) == Some(ns)
                  <==> |ns| <= Width(slots) && NarrowBelow(ns, Width(slots)))
  {
    BuildIsExact(ns);
    if |EncNodes(ns)| < GTPIE_MAX { ShortIsBuildable(ns); }
    if Buildable(ns) {
      var ies := Flat(ns);
      EncNodesIsEncAll(ns);
      AllFit(ies);
      if Fitting(ies, GTPIE_MAX) == |ies| {
        SentHolds(p, h, ies);
        ReadIsExact(g, ns, slots);
      }
    }
  }

  lemma SentHolds(p: Packet, h: nat, ies: seq<Ie>)
    requires Holds(p, h, []) && p.len + GTPIE_MAX <= |p.buf| && Fitting(ies, GTPIE_MAX) == |ies|
    ensures Holds(AppendedAll(Cleared(p), ies, GTPIE_MAX), h, ies)
  {
    ClearedHolds(p, h, []);
    AppendedAllHolds(Cleared(p), h, [], ies, GTPIE_MAX);
    assert [] + ies[..|ies|] == ies;
  }
}
