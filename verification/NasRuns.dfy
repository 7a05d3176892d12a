/**
 What the NAS security context guarantees over whole runs: accepted COUNTs only grow, two handlers
 stay in step, how much loss is tolerated, and where each guarantee ends. All of it for any MAC.
 */
module NasRuns {
  import opened Octets
  import opened NasSecurity

  /** A difference of octets in unsigned 32-bit arithmetic. */
  lemma Difference(a: Octet, b: Octet)
    ensures (a - b) % U32 == if a >= b then a - b else a - b + U32
  {
  }

  /** The window, in COUNTs: the rebuilt COUNT lies in the ten values from the expected one on. */
  lemma WindowIsExact(last: Count, recv: Octet)
    requires last < COUNT_LIMIT
    ensures CheckCount(last, recv) <==> last <= Rebuild(last, recv) < last + 10
    ensures recv < 32 ==> (CheckCountShort(last, recv) <==> last <= RebuildShort(last, recv) < last + 10)
  {
    Difference(recv, last % 256);
    Difference(recv, last % 32);
    assert last % COUNT_LIMIT == last;
  }

  predicate Protectable(buf: seq<Octet>) {
    |buf| >= 1 && (ProtectedType(High(buf[0])) || High(buf[0]) == 12)
  }

  /** One call: an accepted message uses a COUNT in the window and moves the counter just past it. */
  lemma AcceptStep(eia2: Eia2, ctx: Ctx, buf: seq<Octet>, d: Direction)
    requires Readable(ctx.isValid, buf) && CountOf(ctx, d) < COUNT_LIMIT
    ensures var a := Authenticated(eia2, ctx, buf, d);
            && (!a.isAuth ==> a.ctx == ctx)
            && (a.isAuth ==>
                  && a.ret == 1 && ctx.isValid && Protectable(buf)
                  && CountOf(ctx, d) <= CountUsed(ctx, buf, d) < CountOf(ctx, d) + 10
                  && a.ctx == WithCount(ctx, d, CountUsed(ctx, buf, d) + 1))
  {
    if ctx.isValid && Protectable(buf) {
      WindowIsExact(CountOf(ctx, d), if High(buf[0]) == 12 then buf[1] % 32 else buf[5]);
    }
  }

  /** At 2^24 the guarantee ends: from there on an accepted COUNT is never a new one. */
  lemma FreshExactlyBelowLimit(eia2: Eia2, ctx: Ctx, buf: seq<Octet>, d: Direction)
    requires Readable(ctx.isValid, buf) && Authenticated(eia2, ctx, buf, d).isAuth
    ensures CountUsed(ctx, buf, d) >= CountOf(ctx, d) <==> CountOf(ctx, d) < COUNT_LIMIT
  {
    if CountOf(ctx, d) < COUNT_LIMIT { AcceptStep(eia2, ctx, buf, d); }
  }

  // ---- runs of sends and receives on one handler ----

  datatype Op = Receive(d: Direction, buf: seq<Octet>)
              | Send(p: Octet, s: Octet, d: Direction, plain: seq<Octet>)

  predicate OpReadable(ctx: Ctx, op: Op) {
    op.Receive? ==> Readable(ctx.isValid, op.buf)
  }

  function Step(eia2: Eia2, ctx: Ctx, op: Op): Ctx
    requires OpReadable(ctx, op)
  {
    match op
    case Receive(d, buf) => Authenticated(eia2, ctx, buf, d).ctx
    case Send(p, s, d, plain) => if CanProtect(ctx, s) then AfterProtect(ctx) else ctx
  }

  /** The run can be made, and the counter of direction `d` is below 2^24 before every call. */
  predicate RunOk(eia2: Eia2, ctx: Ctx, ops: seq<Op>, d: Direction)
    decreases |ops|
  {
    ops != [] ==>
      && OpReadable(ctx, ops[0])
      && CountOf(ctx, d) < COUNT_LIMIT
      && RunOk(eia2, Step(eia2, ctx, ops[0]), ops[1..], d)
  }

  function Exec(eia2: Eia2, ctx: Ctx, ops: seq<Op>, d: Direction): Ctx
    requires RunOk(eia2, ctx, ops, d)
    decreases |ops|
  {
    if ops == [] then ctx else Exec(eia2, Step(eia2, ctx, ops[0]), ops[1..], d)
  }

  /** The COUNT this call accepts in direction `d`, if any. */
  function AcceptedBy(eia2: Eia2, ctx: Ctx, op: Op, d: Direction): seq<nat>
    requires OpReadable(ctx, op)
  {
    if op.Receive? && op.d == d && Authenticated(eia2, ctx, op.buf, d).isAuth then [CountUsed(ctx, op.buf, d)] else []
  }

  function Accepted(eia2: Eia2, ctx: Ctx, ops: seq<Op>, d: Direction): seq<nat>
    requires RunOk(eia2, ctx, ops, d)
    decreases |ops|
  {
    if ops == [] then []
    else AcceptedBy(eia2, ctx, ops[0], d) + Accepted(eia2, Step(eia2, ctx, ops[0]), ops[1..], d)
  }

  predicate StrictlyIncreasing(s: seq<nat>) {
    forall i, j :: 0 <= i < j < |s| ==> s[i] < s[j]
  }

  predicate Within(s: seq<nat>, lo: nat, hi: nat) {
    forall i :: 0 <= i < |s| ==> lo <= s[i] < hi
  }

  lemma StepMoves(eia2: Eia2, ctx: Ctx, op: Op, d: Direction)
    requires OpReadable(ctx, op) && CountOf(ctx, d) < COUNT_LIMIT
    ensures CountOf(ctx, d) <= CountOf(Step(eia2, ctx, op), d)
    ensures Within(AcceptedBy(eia2, ctx, op, d), CountOf(ctx, d), CountOf(Step(eia2, ctx, op), d))
    ensures SameKeys(Step(eia2, ctx, op), ctx)
  {
    if op.Receive? && op.d == d { AcceptStep(eia2, ctx, op.buf, d); }
  }

  /**
   Over every run of receives in both directions and sends, in any order, the COUNTs accepted in a
   direction strictly increase while its counter is below 2^24, so none is accepted twice.
   */
  lemma {:induction false} AcceptedCountsIncrease(eia2: Eia2, ctx: Ctx, ops: seq<Op>, d: Direction)
    requires RunOk(eia2, ctx, ops, d)
    ensures StrictlyIncreasing(Accepted(eia2, ctx, ops, d))
    ensures CountOf(ctx, d) <= CountOf(Exec(eia2, ctx, ops, d), d)
    ensures Within(Accepted(eia2, ctx, ops, d), CountOf(ctx, d), CountOf(Exec(eia2, ctx, ops, d), d))
    ensures SameKeys(Exec(eia2, ctx, ops, d), ctx)
    decreases |ops|
  {
    if ops != [] {
      var next := Step(eia2, ctx, ops[0]);
      StepMoves(eia2, ctx, ops[0], d);
      AcceptedCountsIncrease(eia2, next, ops[1..], d);
      var first, rest := AcceptedBy(eia2, ctx, ops[0], d), Accepted(eia2, next, ops[1..], d);
      assert Accepted(eia2, ctx, ops, d) == first + rest;
    }
  }

  // ---- two handlers ----

  datatype Plain = Plain(p: Octet, s: Octet, octets: seq<Octet>)

  /** Messages newNASMsg_sec can carry: a protected type and at most 254 octets. */
  predicate Carried(m: Plain) {
    ProtectedType(m.s) && |m.octets| <= 254
  }

  function Wire(eia2: Eia2, ctx: Ctx, m: Plain): seq<Octet> {
    Protected(eia2, ctx, m.p, m.s, DownLink, m.octets)
  }

  predicate InStep(snd: Ctx, rcv: Ctx) {
    snd.isValid && SameKeys(snd, rcv) && snd.down == rcv.down
  }

  /** The layout of a protected message of at most 254 octets: header, MAC, sequence number, body. */
  lemma ProtectedLayout(eia2: Eia2, ctx: Ctx, p: Octet, s: Octet, d: Direction, plain: seq<Octet>)
    requires ProtectedType(s) && |plain| <= 254
    ensures var w := Protected(eia2, ctx, p, s, d, plain);
            var body := [CountOf(ctx, d) % 256] + plain;
            && Readable(true, w) && High(w[0]) == s && Low(w[0]) == Low(p)
            && w[1..5] == Integrity(eia2, ctx, CountOf(ctx, d), d, body)
            && w[5..] == body && w[6..] == plain
  {
    var body := [CountOf(ctx, d) % 256] + plain;
    assert body[..(|plain| + 1) % 256] == body;
    assert 16 * Low(s) + Low(p) == 16 * s + Low(p);
    assert Protected(eia2, ctx, p, s, d, plain)
        == [16 * s + Low(p)] + (Integrity(eia2, ctx, CountOf(ctx, d), d, body) + body);
  }

  lemma WireLayout(eia2: Eia2, ctx: Ctx, m: Plain)
    requires Carried(m)
    ensures var w := Wire(eia2, ctx, m);
            var body := [ctx.down % 256] + m.octets;
            && Readable(true, w) && High(w[0]) == m.s
            && w[1..5] == Integrity(eia2, ctx, ctx.down, DownLink, body)
            && w[5..] == body
  {
    ProtectedLayout(eia2, ctx, m.p, m.s, DownLink, m.octets);
  }

  lemma RebuildsItself(c: Count)
    requires c < COUNT_LIMIT
    ensures Rebuild(c, c % 256) == c && CheckCount(c, c % 256)
  {
    Difference(c % 256, c % 256);
    assert c % COUNT_LIMIT == c;
  }

  /** What the receiver makes of the sender's next message, by the distance between the counters. */
  lemma ReceiveAhead(eia2: Eia2, snd: Ctx, rcv: Ctx, m: Plain)
    requires snd.isValid && SameKeys(snd, rcv) && Carried(m)
    requires snd.down < COUNT_LIMIT && rcv.down < COUNT_LIMIT
    ensures Readable(rcv.isValid, Wire(eia2, snd, m))
    ensures Rebuild(rcv.down, snd.down % 256) == snd.down && CheckCount(rcv.down, snd.down % 256) ==>
              Authenticated(eia2, rcv, Wire(eia2, snd, m), DownLink) == Auth(1, true, rcv.(down := snd.down + 1))
    ensures !CheckCount(rcv.down, snd.down % 256) ==>
              Authenticated(eia2, rcv, Wire(eia2, snd, m), DownLink) == Auth(2, false, rcv)
  {
    WireLayout(eia2, snd, m);
    var w := Wire(eia2, snd, m);
    assert w[5] == w[5..][0] == snd.down % 256;
  }

  /** In either direction: a receiver at the sender's COUNT accepts its message and moves just past it. */
  lemma ReceiveInStep(eia2: Eia2, snd: Ctx, rcv: Ctx, d: Direction, m: Plain)
    requires snd.isValid && SameKeys(snd, rcv) && Carried(m) && CountOf(snd, d) == CountOf(rcv, d) < COUNT_LIMIT
    ensures var w := Protected(eia2, snd, m.p, m.s, d, m.octets);
            && Readable(rcv.isValid, w)
            && Authenticated(eia2, rcv, w, d) == Auth(1, true, WithCount(rcv, d, CountOf(snd, d) + 1))
  {
    ProtectedLayout(eia2, snd, m.p, m.s, d, m.octets);
    var w := Protected(eia2, snd, m.p, m.s, d, m.octets);
    RebuildsItself(CountOf(snd, d));
    assert w[5] == w[5..][0] == CountOf(snd, d) % 256;
  }

  /** Lockstep: every message of an in-order run is authenticated and the counters stay equal. */
  predicate Lockstep(eia2: Eia2, snd: Ctx, rcv: Ctx, msgs: seq<Plain>)
    decreases |msgs|
  {
    && InStep(snd, rcv)
    && (msgs != [] ==>
          && Readable(rcv.isValid, Wire(eia2, snd, msgs[0]))
          && var a := Authenticated(eia2, rcv, Wire(eia2, snd, msgs[0]), DownLink);
             && a.isAuth && a.ret == 1
             && Lockstep(eia2, AfterProtect(snd), a.ctx, msgs[1..]))
  }

  lemma {:induction false} StayInStep(eia2: Eia2, snd: Ctx, rcv: Ctx, msgs: seq<Plain>)
    requires InStep(snd, rcv)
    requires forall m :: m in msgs ==> Carried(m)
    requires snd.down + |msgs| <= COUNT_LIMIT
    ensures Lockstep(eia2, snd, rcv, msgs)
    decreases |msgs|
  {
    if msgs != [] {
      RebuildsItself(snd.down);
      ReceiveAhead(eia2, snd, rcv, msgs[0]);
      StayInStep(eia2, AfterProtect(snd), rcv.(down := snd.down + 1), msgs[1..]);
    }
  }

  // ---- replay beyond 2^24 ----

  /** From 2^24 on a receiver accepts old messages again, whatever the MAC: its counter falls back. */
  lemma ReplayAccepted(eia2: Eia2, snd: Ctx, rcv: Ctx, m: Plain)
    requires snd.isValid && SameKeys(snd, rcv) && Carried(m)
    requires rcv.down >= COUNT_LIMIT && snd.down < COUNT_LIMIT
    requires rcv.down % COUNT_LIMIT <= snd.down && Tolerated(rcv.down % COUNT_LIMIT, snd.down - rcv.down % COUNT_LIMIT)
    ensures Readable(rcv.isValid, Wire(eia2, snd, m))
    ensures Authenticated(eia2, rcv, Wire(eia2, snd, m), DownLink) == Auth(1, true, rcv.(down := snd.down + 1))
    ensures snd.down + 1 <= rcv.down
  {
    var c := rcv.down % COUNT_LIMIT;
    WindowOverGap(c, snd.down - c);
    assert c % 256 == rcv.down % 256;
    WireLayout(eia2, snd, m);
    var w := Wire(eia2, snd, m);
    assert w[5] == w[5..][0] == snd.down % 256;
  }

  /**
   The same octets, authenticated twice: by a receiver in step, and again when its counter has reached
   2^24, which accepting COUNT 2^24 - 1 makes it do.
   */
  lemma SameMessageTwice(eia2: Eia2, snd: Ctx, rcv: Ctx, m: Plain, last: Plain)
    requires InStep(snd, rcv) && snd.down < 10 && Carried(m) && Carried(last)
    ensures var w := Wire(eia2, snd, m);
            && Readable(true, w) && Authenticated(eia2, rcv, w, DownLink).isAuth
            && Authenticated(eia2, rcv.(down := COUNT_LIMIT), w, DownLink) == Auth(1, true, rcv.(down := snd.down + 1))
    ensures var w := Wire(eia2, snd.(down := COUNT_LIMIT - 1), last);
            && Readable(true, w)
            && Authenticated(eia2, rcv.(down := COUNT_LIMIT - 1), w, DownLink).ctx == rcv.(down := COUNT_LIMIT)
  {
    RebuildsItself(snd.down);
    ReceiveAhead(eia2, snd, rcv, m);
    ReplayAccepted(eia2, snd, rcv.(down := COUNT_LIMIT), m);
    RebuildsItself(COUNT_LIMIT - 1);
    ReceiveAhead(eia2, snd.(down := COUNT_LIMIT - 1), rcv.(down := COUNT_LIMIT - 1), last);
  }

  // ---- loss ----

  /** The sender after `g` messages nobody received. */
  function Ahead(snd: Ctx, g: nat): (r: Ctx)
    requires snd.down + g < U32
    ensures r == snd.(down := snd.down + g)
  {
    if g == 0 then snd else AfterProtect(Ahead(snd, g - 1))
  }

  /** The receiver catches up from `c` over `g` lost messages. */
  predicate Tolerated(c: nat, g: nat) {
    g < 10 && (c + g) / 256 == c / 256
  }

  lemma WindowOverGap(c: Count, g: nat)
    requires g < 256 && c + g < COUNT_LIMIT
    ensures CheckCount(c, (c + g) % 256) <==> Tolerated(c, g)
    ensures Tolerated(c, g) ==> Rebuild(c, (c + g) % 256) == c + g
  {
    WindowIsExact(c, (c + g) % 256);
    var q, r := c / 256, c % 256;
    if r + g < 256 {
      assert (c + g) % 256 == r + g && (c + g) / 256 == q;
    } else {
      assert (c + g) % 256 == r + g - 256 && (c + g) / 256 == q + 1;
    }
  }

  /** One gap: accepted and resynchronised exactly when it is tolerated, otherwise refused unchanged. */
  lemma GapIsExact(eia2: Eia2, far: Ctx, rcv: Ctx, g: nat, m: Plain)
    requires far.isValid && SameKeys(far, rcv) && Carried(m) && g < 256
    requires far.down == rcv.down + g && far.down < COUNT_LIMIT
    ensures Readable(true, Wire(eia2, far, m))
    ensures Tolerated(rcv.down, g) ==>
              Authenticated(eia2, rcv, Wire(eia2, far, m), DownLink) == Auth(1, true, rcv.(down := far.down + 1))
    ensures !Tolerated(rcv.down, g) ==>
              Authenticated(eia2, rcv, Wire(eia2, far, m), DownLink) == Auth(2, false, rcv)
  {
    WindowOverGap(rcv.down, g);
    ReceiveAhead(eia2, far, rcv, m);
  }

  /** `gap` messages lost, then one delivered. */
  datatype Hop = Hop(gap: nat, m: Plain)

  function Length(hops: seq<Hop>): nat {
    if hops == [] then 0 else hops[0].gap + 1 + Length(hops[1..])
  }

  predicate AllTolerated(c: nat, hops: seq<Hop>)
    decreases |hops|
  {
    hops != [] ==> Tolerated(c, hops[0].gap) && AllTolerated(c + hops[0].gap + 1, hops[1..])
  }

  predicate HopOk(h: Hop) {
    h.gap < 256 && Carried(h.m)
  }

  /** Every delivered message of the run is authenticated. */
  predicate AllAuthenticated(eia2: Eia2, snd: Ctx, rcv: Ctx, hops: seq<Hop>)
    requires rcv.isValid && forall h :: h in hops ==> HopOk(h)
    requires snd.down + Length(hops) <= COUNT_LIMIT
    decreases |hops|
  {
    hops != [] ==>
      var far := Ahead(snd, hops[0].gap);
      var w := Wire(eia2, far, hops[0].m);
      && Readable(true, w)
      && var a := Authenticated(eia2, rcv, w, DownLink);
         a.isAuth && AllAuthenticated(eia2, AfterProtect(far), a.ctx, hops[1..])
  }

  lemma TailOk(hops: seq<Hop>)
    requires hops != [] && forall h :: h in hops ==> HopOk(h)
    ensures HopOk(hops[0]) && forall h :: h in hops[1..] ==> HopOk(h)
  {
  }

  /** The first hop of a run is authenticated exactly when its gap is tolerated, and both sides are in step again. */
  lemma FirstHopIsExact(eia2: Eia2, snd: Ctx, rcv: Ctx, hops: seq<Hop>, far: Ctx)
    requires InStep(snd, rcv) && hops != [] && forall h :: h in hops ==> HopOk(h)
    requires snd.down + Length(hops) <= COUNT_LIMIT && far == Ahead(snd, hops[0].gap)
    ensures InStep(AfterProtect(far), rcv.(down := far.down + 1))
    ensures AllAuthenticated(eia2, snd, rcv, hops) <==>
              && Tolerated(rcv.down, hops[0].gap)
              && AllAuthenticated(eia2, AfterProtect(far), rcv.(down := far.down + 1), hops[1..])
  {
    TailOk(hops);
    assert hops[0].gap + 1 <= Length(hops);
    GapIsExact(eia2, far, rcv, hops[0].gap, hops[0].m);
    HopUnfolds(eia2, snd, rcv, hops, far, Authenticated(eia2, rcv, Wire(eia2, far, hops[0].m), DownLink));
  }

  lemma HopUnfolds(eia2: Eia2, snd: Ctx, rcv: Ctx, hops: seq<Hop>, far: Ctx, a: Auth)
    requires rcv.isValid && hops != [] && forall h :: h in hops ==> HopOk(h)
    requires snd.down + Length(hops) <= COUNT_LIMIT && far == Ahead(snd, hops[0].gap)
    requires Readable(true, Wire(eia2, far, hops[0].m))
    requires a == Authenticated(eia2, rcv, Wire(eia2, far, hops[0].m), DownLink) && a.ctx.isValid
    ensures AllAuthenticated(eia2, snd, rcv, hops) <==>
              a.isAuth && AllAuthenticated(eia2, AfterProtect(far), a.ctx, hops[1..])
  {
  }

  /** A lossy run is authenticated throughout exactly when every gap is tolerated where it occurs. */
  lemma {:induction false} LossyRunIsExact(eia2: Eia2, snd: Ctx, rcv: Ctx, hops: seq<Hop>)
    requires InStep(snd, rcv) && forall h :: h in hops ==> HopOk(h)
    requires snd.down + Length(hops) <= COUNT_LIMIT
    ensures AllAuthenticated(eia2, snd, rcv, hops) <==> AllTolerated(rcv.down, hops)
    decreases |hops|
  {
    if hops != [] {
      TailOk(hops);
      var far := Ahead(snd, hops[0].gap);
      FirstHopIsExact(eia2, snd, rcv, hops, far);
      LossyRunIsExact(eia2, AfterProtect(far), rcv.(down := far.down + 1), hops[1..]);
    }
  }

  /**
   Once the sender is in a later block of 256 and the MAC tells COUNTs apart, no later message is
   ever authenticated: the receiver rebuilds a COUNT of its own block. `later` are the sender's
   states when it protects the messages that do arrive, in any order.
   */
  datatype Late = Late(ctx: Ctx, m: Plain)

  predicate TellsApart(eia2: Eia2, key: Key, c: Count, m: seq<Octet>) {
    forall c': Count :: c' < COUNT_LIMIT && c' != c ==> eia2(key, c', DownLink, m) != eia2(key, c, DownLink, m)
  }

  predicate IsLate(eia2: Eia2, rcv: Ctx, l: Late) {
    && Carried(l.m) && SameKeys(l.ctx, rcv)
    && l.ctx.down < COUNT_LIMIT && l.ctx.down / 256 > rcv.down / 256
    && TellsApart(eia2, rcv.ikey, l.ctx.down, [l.ctx.down % 256] + l.m.octets)
  }

  predicate NeverAuthenticated(eia2: Eia2, rcv: Ctx, later: seq<Late>)
    decreases |later|
  {
    later != [] ==>
      && Readable(rcv.isValid, Wire(eia2, later[0].ctx, later[0].m))
      && var a := Authenticated(eia2, rcv, Wire(eia2, later[0].ctx, later[0].m), DownLink);
         !a.isAuth && a.ctx == rcv && NeverAuthenticated(eia2, a.ctx, later[1..])
  }

  lemma LateIsRefused(eia2: Eia2, rcv: Ctx, l: Late)
    requires rcv.isValid && rcv.i != 0 && rcv.down < COUNT_LIMIT && IsLate(eia2, rcv, l)
    ensures Readable(rcv.isValid, Wire(eia2, l.ctx, l.m))
    ensures var a := Authenticated(eia2, rcv, Wire(eia2, l.ctx, l.m), DownLink);
            !a.isAuth && a.ctx == rcv
  {
    WireLayout(eia2, l.ctx, l.m);
    var w := Wire(eia2, l.ctx, l.m);
    assert w[5] == w[5..][0];
    assert Rebuild(rcv.down, w[5]) / 256 == rcv.down / 256;
  }

  lemma {:induction false} DesyncIsPermanent(eia2: Eia2, rcv: Ctx, later: seq<Late>)
    requires rcv.isValid && rcv.i != 0 && rcv.down < COUNT_LIMIT
    requires forall l :: l in later ==> IsLate(eia2, rcv, l)
    ensures NeverAuthenticated(eia2, rcv, later)
    decreases |later|
  {
    if later != [] {
      LateIsRefused(eia2, rcv, later[0]);
      DesyncIsPermanent(eia2, rcv, later[1..]);
    }
  }

  // ---- the uplink counter never moves on a send ----

  /** The COUNTs of `n` messages protected one after the other in direction `d`. */
  function CountsUsed(ctx: Ctx, d: Direction, n: nat): seq<Count>
    decreases n
  {
    if n == 0 then [] else [CountOf(ctx, d)] + CountsUsed(AfterProtect(ctx), d, n - 1)
  }

  lemma AddInSteps(a: nat, k: nat)
    requires k > 0
    ensures ((a + 1) % U32 + (k - 1)) % U32 == (a + k) % U32
  {
  }

  lemma {:induction false} CountsUsedAt(ctx: Ctx, d: Direction, n: nat, k: nat)
    requires k < n
    ensures |CountsUsed(ctx, d, n)| == n
    ensures CountsUsed(ctx, d, n)[k] == if d.UpLink? then ctx.up else (ctx.down + k) % U32
    decreases n
  {
    if n > 1 { CountsUsedAt(AfterProtect(ctx), d, n - 1, if k > 0 then k - 1 else 0); }
    if k > 0 { AddInSteps(ctx.down, k); }
  }

  predicate Distinct(s: seq<Count>) {
    forall i, j :: 0 <= i < j < |s| ==> s[i] != s[j]
  }

  lemma SumsDiffer(a: nat, i: nat, j: nat)
    requires i < j < i + U32
    ensures (a + i) % U32 != (a + j) % U32
  {
  }

  /** Protecting uses each COUNT once exactly for the downlink (or for at most one message). */
  lemma {:induction false} SendCountsFreshExactly(ctx: Ctx, d: Direction, n: nat)
    requires n <= U32
    ensures Distinct(CountsUsed(ctx, d, n)) <==> d.DownLink? || n <= 1
  {
    var s := CountsUsed(ctx, d, n);
    if n > 0 { CountsUsedAt(ctx, d, n, 0); }
    if d.UpLink? && n > 1 {
      CountsUsedAt(ctx, d, n, 1);
      assert s[0] == s[1];
    }
    if d.DownLink? {
      forall i, j | 0 <= i < j < n ensures s[i] != s[j] {
        CountsUsedAt(ctx, d, n, i);
        CountsUsedAt(ctx, d, n, j);
        SumsDiffer(ctx.down, i, j);
      }
    }
  }

  /** The sender's uplink messages in order, at a receiver: the first is accepted, every later one refused with 2. */
  predicate OnlyFirst(eia2: Eia2, snd: Ctx, rcv: Ctx, msgs: seq<Plain>, first: bool)
    requires snd.up < COUNT_LIMIT
    decreases |msgs|
  {
    msgs != [] ==>
      var w := Protected(eia2, snd, msgs[0].p, msgs[0].s, UpLink, msgs[0].octets);
      && Readable(rcv.isValid, w)
      && var a := Authenticated(eia2, rcv, w, UpLink);
         && (if first then a == Auth(1, true, rcv.(up := snd.up + 1)) else a == Auth(2, false, rcv))
         && OnlyFirst(eia2, AfterProtect(snd), a.ctx, msgs[1..], false)
  }

  lemma UplinkFirst(eia2: Eia2, snd: Ctx, rcv: Ctx, m: Plain)
    requires snd.isValid && SameKeys(snd, rcv) && Carried(m) && snd.up == rcv.up < COUNT_LIMIT
    ensures var w := Protected(eia2, snd, m.p, m.s, UpLink, m.octets);
            Readable(rcv.isValid, w) && Authenticated(eia2, rcv, w, UpLink) == Auth(1, true, rcv.(up := snd.up + 1))
  {
    ReceiveInStep(eia2, snd, rcv, UpLink, m);
  }

  lemma UplinkAgain(eia2: Eia2, snd: Ctx, rcv: Ctx, m: Plain)
    requires snd.isValid && SameKeys(snd, rcv) && Carried(m) && snd.up < COUNT_LIMIT && rcv.up == snd.up + 1
    ensures var w := Protected(eia2, snd, m.p, m.s, UpLink, m.octets);
            Readable(rcv.isValid, w) && Authenticated(eia2, rcv, w, UpLink) == Auth(2, false, rcv)
  {
    ProtectedLayout(eia2, snd, m.p, m.s, UpLink, m.octets);
    var w := Protected(eia2, snd, m.p, m.s, UpLink, m.octets);
    assert w[5] == w[5..][0] == snd.up % 256;
    Difference(snd.up % 256, rcv.up % 256);
    OneBehind(snd.up);
  }

  lemma OneBehind(c: nat)
    ensures !(0 <= c % 256 - (c + 1) % 256 < 10)
  {
    if c % 256 == 255 { assert (c + 1) % 256 == 0; } else { assert (c + 1) % 256 == c % 256 + 1; }
  }

  /**
   What the unmoved uplink counter does to a whole run: between handlers with equal uplink counters, an
   in-order run of uplink messages is accepted once and refused from the second message on, whatever the MAC.
   */
  lemma {:induction false} UplinkRunStops(eia2: Eia2, snd: Ctx, rcv: Ctx, msgs: seq<Plain>, first: bool)
    requires snd.isValid && SameKeys(snd, rcv) && forall m :: m in msgs ==> Carried(m)
    requires snd.up < COUNT_LIMIT && rcv.up == if first then snd.up else snd.up + 1
    ensures OnlyFirst(eia2, snd, rcv, msgs, first)
    decreases |msgs|
  {
    if msgs != [] {
      if first {
        UplinkFirst(eia2, snd, rcv, msgs[0]);
        UplinkRunStops(eia2, AfterProtect(snd), rcv.(up := snd.up + 1), msgs[1..], false);
      } else {
        UplinkAgain(eia2, snd, rcv, msgs[0]);
        UplinkRunStops(eia2, AfterProtect(snd), rcv, msgs[1..], false);
      }
    }
  }

  // ---- the uint8_t body length ----

  /** A receiver in step authenticates the message whatever the MAC. */
  ghost predicate AlwaysDelivered(ctx: Ctx, p: Octet, s: Octet, plain: seq<Octet>) {
    forall eia2: Eia2 :: Delivered(eia2, ctx, p, s, plain)
  }

  ghost predicate Delivered(eia2: Eia2, ctx: Ctx, p: Octet, s: Octet, plain: seq<Octet>) {
    var w := Protected(eia2, ctx, p, s, DownLink, plain);
    Readable(ctx.isValid, w) && Authenticated(eia2, ctx, w, DownLink).isAuth
  }

  lemma LongBodyIsRefused(eia2: Eia2, ctx: Ctx, p: Octet, s: Octet, plain: seq<Octet>)
    requires ctx.isValid && ctx.i == 2 && ProtectedType(s) && |plain| > 254
    requires forall k: Key, c: Count, d: Direction, m: seq<Octet> ::
               eia2(k, c, d, m) == if |m| > 255 then [1, 0, 0, 0] else [0, 0, 0, 0]
    ensures !Delivered(eia2, ctx, p, s, plain)
  {
    var body := [ctx.down % 256] + plain;
    var w := Protected(eia2, ctx, p, s, DownLink, plain);
    var mac := Integrity(eia2, ctx, ctx.down, DownLink, body);
    assert w == [16 * Low(s) + Low(p)] + (mac + body[..(|plain| + 1) % 256]);
    assert w[1..5] == mac;
    assert |w[5..]| < 256 by { assert |w| == 5 + (|plain| + 1) % 256; }
  }

  lemma DeliveredInstance(eia2: Eia2, ctx: Ctx, p: Octet, s: Octet, plain: seq<Octet>)
    requires AlwaysDelivered(ctx, p, s, plain)
    ensures Delivered(eia2, ctx, p, s, plain)
  {
  }

  /** Delivery whatever the MAC: exactly up to 254 octets. */
  lemma BodyLengthIsExact(ctx: Ctx, p: Octet, s: Octet, plain: seq<Octet>)
    requires ctx.isValid && ctx.i == 2 && ProtectedType(s) && ctx.down < COUNT_LIMIT
    ensures AlwaysDelivered(ctx, p, s, plain) <==> |plain| <= 254
  {
    if |plain| <= 254 {
      forall eia2: Eia2 ensures Delivered(eia2, ctx, p, s, plain) {
        RebuildsItself(ctx.down);
        ReceiveAhead(eia2, ctx, ctx, Plain(p, s, plain));
      }
    } else {
      var eia2: Eia2 := (k, c, d, m) => if |m| > 255 then [1, 0, 0, 0] else [0, 0, 0, 0];
      LongBodyIsRefused(eia2, ctx, p, s, plain);
      if AlwaysDelivered(ctx, p, s, plain) { DeliveredInstance(eia2, ctx, p, s, plain); }
    }
  }
}
