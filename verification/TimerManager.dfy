/**
 Common/timermgr.c: retransmission timers on an event loop. A callback may start timers and stop
 live ones, the firing one included, and the free callback run by a stop may do the same; what each
 callback does is an arbitrary finite tree of such actions, so every statement below is for all
 callbacks. Timers have unique identities (an address that is reused counts as a new timer).
 */
module TimerManager {
  import opened Common

  const U32 := 0x1_0000_0000

  type Word = x: int | 0 <= x < U32

  type Id = nat

  /** What a timer was started with: max_rtx, and whether cb_maxTo and cb_free are given. */
  datatype Spec = Spec(maxRtx: Word, hasMaxTo: bool, hasFree: bool)

  /** Arguments of tm_add_timer: tv and cb_to may be missing, tv may be zero. */
  datatype Args = Args(hasTv: bool, zeroTv: bool, hasTo: bool, spec: Spec)

  datatype Timer = Timer(spec: Spec, rtx: Word)

  /** Callbacks and table changes, in the order they happen. */
  datatype Event = Started(id: Id) | CbTo(id: Id) | CbMaxTo(id: Id) | Removed(id: Id) | CbFree(id: Id)

  /** What a callback does: start a timer, or stop one whose free callback then acts in turn. */
  datatype Act = Start(args: Args) | Stop(timer: Option<Id>, freeActs: seq<Act>)

  /** The manager: timer table, armed events, and as history the events and all specs so far. */
  datatype Mgr = Mgr(timers: map<Id, Timer>, armed: set<Id>, next: Id, log: seq<Event>, specs: map<Id, Spec>)

  const EMPTY := Mgr(map[], {}, 0, [], map[])

  predicate ArgsOk(a: Args) {
    a.hasTv && a.hasTo && !a.zeroTv && a.spec.maxRtx >= 1
  }

  function Log(m: Mgr, e: Event): Mgr {
    m.(log := m.log + [e])
  }

  /** tm_add_timer; bad arguments start nothing. */
  function Add(m: Mgr, a: Args): Mgr {
    if !ArgsOk(a) then m
    else
      m.(timers := m.timers[m.next := Timer(a.spec, 0)], armed := m.armed + {m.next}, next := m.next + 1,
         log := m.log + [Started(m.next)], specs := m.specs[m.next := a.spec])
  }

  /** The table and event changes of tm_stop_timer up to the call of cb_free. */
  function Unlink(m: Mgr, id: Id): Mgr
    requires id in m.timers
  {
    var m1 := m.(timers := m.timers - {id}, armed := m.armed - {id}, log := m.log + [Removed(id)]);
    if m.timers[id].spec.hasFree then Log(m1, CbFree(id)) else m1
  }

  /** tm_stop_timer; no timer, nothing to do. None: the timer is not live, or a callback stopped one that is not. */
  function AfterStop(m: Mgr, t: Option<Id>, freeActs: seq<Act>): Option<Mgr>
    decreases freeActs, 1
  {
    if t.None? then Some(m)
    else if t.value !in m.timers then None
    else if m.timers[t.value].spec.hasFree then AfterActs(Unlink(m, t.value), freeActs)
    else Some(Unlink(m, t.value))
  }

  function AfterActs(m: Mgr, acts: seq<Act>): Option<Mgr>
    decreases acts, 0
  {
    if acts == [] then Some(m)
    else
      var m1 := match acts[0]
                case Start(a) => Some(Add(m, a))
                case Stop(t, freeActs) => AfterStop(m, t, freeActs);
      if m1.None? then None else AfterActs(m1.value, acts[1..])
  }

  /** The timer's count after one more expiry; it is a guint32. */
  function Bump(m: Mgr, id: Id): Mgr
    requires id in m.timers
  {
    m.(timers := m.timers[id := m.timers[id].(rtx := (m.timers[id].rtx + 1) % U32)])
  }

  /** timer_cb. `acts` is what cb_to or cb_maxTo does, `stopActs` what cb_free does if the timer is stopped here. */
  function AfterFire(m: Mgr, id: Id, acts: seq<Act>, stopActs: seq<Act>): Option<Mgr> {
    if id !in m.timers then None
    else
      var m1 := Bump(m, id);
      var t := m1.timers[id];
      if t.rtx <= t.spec.maxRtx then
        var m2 := AfterActs(Log(m1, CbTo(id)), acts);
        if m2.Some? && !t.spec.hasMaxTo && t.rtx == t.spec.maxRtx && id in m2.value.timers then
          AfterStop(m2.value, Some(id), stopActs)
        else m2
      else if !t.spec.hasMaxTo then None
      else
        var m2 := AfterActs(Log(m1, CbMaxTo(id)), acts);
        if m2.Some? && id in m2.value.timers then AfterStop(m2.value, Some(id), stopActs) else m2
  }

  // ---- the manager as an object ----

  class TimerMgr {
    var timers: map<Id, Timer>
    var armed: set<Id>
    var next: Id
    ghost var log: seq<Event>
    ghost var specs: map<Id, Spec>

    ghost function State(): Mgr
      reads this
    {
      Mgr(timers, armed, next, log, specs)
    }

    constructor ()
      ensures State() == EMPTY
    {
      timers, armed, next := map[], {}, 0;
      log, specs := [], map[];
    }

    /** tm_add_timer */
    method AddTimer(a: Args) returns (t: Option<Id>)
      modifies this
      ensures State() == Add(old(State()), a)
      ensures t.Some? <==> a.hasTv && !a.zeroTv && a.hasTo && a.spec.maxRtx >= 1
      ensures t.Some? ==> t.value == old(next) && t.value in armed && timers == old(timers)[t.value := Timer(a.spec, 0)]
      ensures t.None? ==> State() == old(State())
    {
      if !a.hasTv || !a.hasTo { return None; }
      if a.zeroTv { return None; }
      if a.spec.maxRtx < 1 { return None; }
      t := Some(next);
      armed := armed + {next};
      timers := timers[next := Timer(a.spec, 0)];
      log, specs := log + [Started(next)], specs[next := a.spec];
      next := next + 1;
    }

    /** tm_stop_timer, with the free callback it triggers. */
    method StopTimer(timer: Option<Id>, freeActs: seq<Act>)
      requires AfterStop(State(), timer, freeActs).Some?
      modifies this
      ensures Some(State()) == AfterStop(old(State()), timer, freeActs)
      decreases freeActs, 1
    {
      if timer == None { return; }
      var id := timer.value;
      var t := timers[id];
      armed := armed - {id};
      timers := timers - {id};
      log := log + [Removed(id)];
      if t.spec.hasFree {
        log := log + [CbFree(id)];
        RunActs(freeActs);
      }
    }

    /** A callback at work. */
    method RunActs(acts: seq<Act>)
      requires AfterActs(State(), acts).Some?
      modifies this
      ensures Some(State()) == AfterActs(old(State()), acts)
      decreases acts, 0
    {
      if acts != [] {
        match acts[0] {
          case Start(a) => var t := AddTimer(a);
          case Stop(t, freeActs) => StopTimer(t, freeActs);
        }
        RunActs(acts[1..]);
      }
    }

    /** timer_cb */
    method TimerCb(id: Id, acts: seq<Act>, stopActs: seq<Act>)
      requires AfterFire(State(), id, acts, stopActs).Some?
      modifies this
      ensures Some(State()) == AfterFire(old(State()), id, acts, stopActs)
    {
      timers := timers[id := timers[id].(rtx := (timers[id].rtx + 1) % U32)];
      var t := timers[id];
      if t.rtx <= t.spec.maxRtx {
        log := log + [CbTo(id)];
        RunActs(acts);
        var timerExists := id in timers;
        if !t.spec.hasMaxTo && t.rtx == t.spec.maxRtx && timerExists {
          StopTimer(Some(id), stopActs);
        }
        return;
      }
      log := log + [CbMaxTo(id)];
      RunActs(acts);
      var timerExists := id in timers;
      if timerExists {
        StopTimer(Some(id), stopActs);
      }
    }
  }

  // ---- what the log says about one timer ----

  /** Calls of each callback, removals, and whether cb_to or cb_maxTo ran after the removal. */
  datatype Summary = Summary(to: nat, maxTo: nat, free: nat, removed: nat, late: bool)

  function Summarize(log: seq<Event>, x: Id): Summary {
    if log == [] then Summary(0, 0, 0, 0, false)
    else
      var s := Summarize(log[..|log| - 1], x);
      var e := log[|log| - 1];
      if e.id != x then s
      else
        match e
        case Started(_) => s
        case CbTo(_) => s.(to := s.to + 1, late := s.late || s.removed > 0)
        case CbMaxTo(_) => s.(maxTo := s.maxTo + 1, late := s.late || s.removed > 0)
        case Removed(_) => s.(removed := s.removed + 1)
        case CbFree(_) => s.(free := s.free + 1)
  }

  lemma SummarizeSnoc(log: seq<Event>, e: Event, x: Id)
    ensures var s := Summarize(log, x);
            Summarize(log + [e], x) ==
              if e.id != x then s
              else
                match e
                case Started(_) => s
                case CbTo(_) => s.(to := s.to + 1, late := s.late || s.removed > 0)
                case CbMaxTo(_) => s.(maxTo := s.maxTo + 1, late := s.late || s.removed > 0)
                case Removed(_) => s.(removed := s.removed + 1)
                case CbFree(_) => s.(free := s.free + 1)
  {
    assert (log + [e])[..|log|] == log;
  }

  /** cb_maxTo set and max_rtx the largest guint32: the count wraps before it can exceed max_rtx. */
  predicate Endless(spec: Spec) {
    spec.hasMaxTo && spec.maxRtx == U32 - 1
  }

  /** The callback calls a timer may have had at any time, and their order. */
  predicate WithinLimits(s: Summary, spec: Spec) {
    && (s.to <= spec.maxRtx || Endless(spec)) && s.maxTo <= 1 && !s.late
    && (s.maxTo == 1 ==> s.to == spec.maxRtx && spec.hasMaxTo && !Endless(spec))
  }

  /** A live timer between steps: its count is the number of cb_to calls, and it has an expiry to come. */
  predicate Resting(t: Timer, s: Summary) {
    t.rtx == s.to % U32 && s.maxTo == 0 && (t.rtx == t.spec.maxRtx ==> t.spec.hasMaxTo)
  }

  /** All the manager and the log hold about one timer. */
  datatype View = View(started: bool, spec: Option<Spec>, timer: Option<Timer>, armed: bool, calls: Summary)

  function Look(m: Mgr, x: Id): View {
    View(x < m.next, if x in m.specs then Some(m.specs[x]) else None,
         if x in m.timers then Some(m.timers[x]) else None, x in m.armed, Summarize(m.log, x))
  }

  /**
   All that is guaranteed about a timer: not yet started, live and armed, or removed for good with
   cb_free called once if given. While it is firing only the limits hold.
   */
  predicate Good(v: View, firing: bool) {
    && v.armed == v.timer.Some?
    && v.started == v.spec.Some?
    && (!v.started ==> v.timer.None? && v.calls == Summary(0, 0, 0, 0, false))
    && (v.started ==> WithinLimits(v.calls, v.spec.value))
    && (v.timer.Some? ==>
          && v.spec == Some(v.timer.value.spec) && v.timer.value.spec.maxRtx >= 1
          && v.calls.removed == 0 && v.calls.free == 0
          && (!firing ==> Resting(v.timer.value, v.calls)))
    && (v.started && v.timer.None? ==>
          v.calls.removed == 1 && v.calls.free == if v.spec.value.hasFree then 1 else 0)
  }

  /** What the actions of callbacks leave alone of a started timer: expiry calls, count, spec; the dead stay dead. */
  predicate Frame(v: View, v': View) {
    && v'.calls.to == v.calls.to && v'.calls.maxTo == v.calls.maxTo
    && (v.started ==> v'.started && v'.spec == v.spec && (v'.timer == v.timer || v'.timer.None?))
  }

  lemma AddLook(m: Mgr, a: Args, x: Id)
    ensures Look(Add(m, a), x) ==
              if ArgsOk(a) && x == m.next then
                View(true, Some(a.spec), Some(Timer(a.spec, 0)), true, Summarize(m.log, x))
              else Look(m, x)
  {
    SummarizeSnoc(m.log, Started(m.next), x);
  }

  lemma UnlinkLook(m: Mgr, id: Id, x: Id)
    requires id in m.timers
    ensures var v := Look(m, x);
            var free: nat := if m.timers[id].spec.hasFree then 1 else 0;
            Look(Unlink(m, id), x) ==
              if x != id then v
              else v.(timer := None, armed := false,
                      calls := v.calls.(removed := v.calls.removed + 1, free := v.calls.free + free))
  {
    SummarizeSnoc(m.log, Removed(id), x);
    SummarizeSnoc(m.log + [Removed(id)], CbFree(id), x);
  }

  lemma {:induction false} StopGood(m: Mgr, t: Option<Id>, freeActs: seq<Act>, x: Id, firing: bool)
    requires Good(Look(m, x), firing) && AfterStop(m, t, freeActs).Some?
    ensures Good(Look(AfterStop(m, t, freeActs).value, x), firing)
    ensures Frame(Look(m, x), Look(AfterStop(m, t, freeActs).value, x))
    ensures t == Some(x) ==> Look(AfterStop(m, t, freeActs).value, x).timer == None
    decreases freeActs, 1
  {
    if t.Some? {
      UnlinkLook(m, t.value, x);
      if m.timers[t.value].spec.hasFree {
        ActsGood(Unlink(m, t.value), freeActs, x, firing);
      }
    }
  }

  /** Whatever a callback does, nested free callbacks included, keeps every guarantee. */
  lemma {:induction false} ActsGood(m: Mgr, acts: seq<Act>, x: Id, firing: bool)
    requires Good(Look(m, x), firing) && AfterActs(m, acts).Some?
    ensures Good(Look(AfterActs(m, acts).value, x), firing)
    ensures Frame(Look(m, x), Look(AfterActs(m, acts).value, x))
    decreases acts, 0
  {
    if acts != [] {
      var m1: Mgr;
      match acts[0] {
        case Start(a) =>
          AddLook(m, a, x);
          m1 := Add(m, a);
        case Stop(t, freeActs) =>
          StopGood(m, t, freeActs, x, firing);
          m1 := AfterStop(m, t, freeActs).value;
      }
      ActsGood(m1, acts[1..], x, firing);
    }
  }

  /** The callback an expiry of a live timer calls: cb_to while the count allows, then cb_maxTo. */
  function Called(m: Mgr, id: Id): Event
    requires id in m.timers
  {
    var t := Bump(m, id).timers[id];
    if t.rtx <= t.spec.maxRtx then CbTo(id) else CbMaxTo(id)
  }

  /** The state in which that callback starts to act. */
  function Entered(m: Mgr, id: Id): Mgr
    requires id in m.timers
  {
    Log(Bump(m, id), Called(m, id))
  }

  /** The callback of an expiry, as the log and the table show it. */
  lemma EnterLook(m: Mgr, id: Id, x: Id)
    requires id in m.timers
    ensures var v, t := Look(m, x), Bump(m, id).timers[id];
            Look(Entered(m, id), x) ==
              if x != id then v
              else v.(timer := Some(t), calls :=
                        var late := v.calls.late || v.calls.removed > 0;
                        if t.rtx <= t.spec.maxRtx then v.calls.(to := v.calls.to + 1, late := late)
                        else v.calls.(maxTo := v.calls.maxTo + 1, late := late))
  {
    SummarizeSnoc(m.log, Called(m, id), x);
  }

  lemma EnterGood(m: Mgr, id: Id, x: Id)
    requires Good(Look(m, x), false) && id in m.timers
    ensures var v, v' := Look(m, x), Look(Entered(m, id), x);
            && Good(v', x == id) && v'.spec == v.spec
            && v'.calls.to + v'.calls.maxTo == v.calls.to + v.calls.maxTo + (if x == id then 1 else 0)
    ensures x == id && Called(m, id).CbMaxTo? ==> m.timers[id].spec.hasMaxTo
    ensures x == id && Called(m, id).CbTo? ==>
              var v := Look(Entered(m, id), id);
              v.timer.value.rtx == v.calls.to % U32 && v.calls.maxTo == 0
  {
    EnterLook(m, id, x);
  }

  /** Whether an expiry stops the timer once its callback has returned and left it in the table. */
  predicate LastExpiry(m: Mgr, id: Id)
    requires id in m.timers
  {
    var t := Bump(m, id).timers[id];
    Called(m, id).CbMaxTo? || (!t.spec.hasMaxTo && t.rtx == t.spec.maxRtx)
  }

  lemma FireSplits(m: Mgr, id: Id, acts: seq<Act>, stopActs: seq<Act>)
    requires id in m.timers && (Called(m, id).CbMaxTo? ==> m.timers[id].spec.hasMaxTo)
    ensures var m2 := AfterActs(Entered(m, id), acts);
            AfterFire(m, id, acts, stopActs) ==
              if m2.Some? && LastExpiry(m, id) && id in m2.value.timers
              then AfterStop(m2.value, Some(id), stopActs) else m2
  {
  }

  /** One expiry keeps every guarantee and calls exactly one of cb_to and cb_maxTo, of the timer that expired. */
  lemma FireGood(m: Mgr, id: Id, acts: seq<Act>, stopActs: seq<Act>, x: Id)
    requires Good(Look(m, x), false) && AfterFire(m, id, acts, stopActs).Some?
    ensures var v, v' := Look(m, x), Look(AfterFire(m, id, acts, stopActs).value, x);
            && Good(v', false)
            && v'.calls.to + v'.calls.maxTo == v.calls.to + v.calls.maxTo + (if x == id then 1 else 0)
            && (v.started ==> v'.spec == v.spec)
  {
    EnterGood(m, id, x);
    FireSplits(m, id, acts, stopActs);
    ActsGood(Entered(m, id), acts, x, x == id);
    var m2 := AfterActs(Entered(m, id), acts).value;
    if LastExpiry(m, id) && id in m2.timers {
      StopGood(m2, Some(id), stopActs, x, x == id);
    }
  }
}
