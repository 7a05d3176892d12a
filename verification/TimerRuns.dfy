/**
 Whole runs of the timer manager: any interleaving of calls from outside and expiries of live timers,
 with arbitrary callbacks.
 */
module TimerRuns {
  import opened Common
  import opened TimerManager

  datatype Step = Call(act: Act) | Expire(id: Id, acts: seq<Act>, stopActs: seq<Act>)

  function AfterStep(m: Mgr, s: Step): Option<Mgr> {
    match s
    case Call(act) => AfterActs(m, [act])
    case Expire(id, acts, stopActs) => AfterFire(m, id, acts, stopActs)
  }

  function Exec(m: Mgr, steps: seq<Step>): Option<Mgr>
    decreases |steps|
  {
    if steps == [] then Some(m)
    else
      var m1 := AfterStep(m, steps[0]);
      if m1.None? then None else Exec(m1.value, steps[1..])
  }

  function Expirations(steps: seq<Step>, x: Id): nat
    decreases |steps|
  {
    if steps == [] then 0
    else (if steps[0].Expire? && steps[0].id == x then 1 else 0) + Expirations(steps[1..], x)
  }

  /** How often a timer can expire: max_rtx times for cb_to, once more for cb_maxTo. */
  function Budget(spec: Spec): nat {
    spec.maxRtx + if spec.hasMaxTo then 1 else 0
  }

  lemma {:induction false} RunGood(m: Mgr, steps: seq<Step>, x: Id)
    requires Good(Look(m, x), false) && Exec(m, steps).Some?
    ensures var v, v' := Look(m, x), Look(Exec(m, steps).value, x);
            && Good(v', false)
            && v'.calls.to + v'.calls.maxTo == v.calls.to + v.calls.maxTo + Expirations(steps, x)
            && (v.started ==> v'.spec == v.spec)
    decreases |steps|
  {
    if steps != [] {
      match steps[0] {
        case Call(act) => ActsGood(m, [act], x, false);
        case Expire(id, acts, stopActs) => FireGood(m, id, acts, stopActs, x);
      }
      RunGood(AfterStep(m, steps[0]).value, steps[1..], x);
    }
  }

  /**
   Every run, every timer: cb_to at most max_rtx times, cb_maxTo at most once and only after exactly
   max_rtx calls of cb_to, cb_free exactly once on removal if given, nothing called after removal, armed
   exactly while in the table; and every expiry spends one of a bounded number, with one left while live.
   */
  lemma EveryRunGood(steps: seq<Step>, x: Id)
    requires Exec(EMPTY, steps).Some?
    ensures var v := Look(Exec(EMPTY, steps).value, x);
            && Good(v, false)
            && Expirations(steps, x) == v.calls.to + v.calls.maxTo
            && (v.started && !Endless(v.spec.value) ==> Expirations(steps, x) <= Budget(v.spec.value))
            && (v.timer.Some? && !Endless(v.spec.value) ==> Expirations(steps, x) < Budget(v.spec.value))
  {
    RunGood(EMPTY, steps, x);
  }

  /** The next expiry of a live timer never calls a missing cb_maxTo, so it only fails if its callbacks do. */
  lemma ExpiryNeverFails(steps: seq<Step>, id: Id)
    requires Exec(EMPTY, steps).Some? && id in Exec(EMPTY, steps).value.timers
    ensures var m := Exec(EMPTY, steps).value;
            && (Called(m, id).CbMaxTo? ==> m.timers[id].spec.hasMaxTo)
            && AfterFire(m, id, [], []).Some?
  {
    RunGood(EMPTY, steps, id);
    EnterGood(Exec(EMPTY, steps).value, id, id);
    FireSplits(Exec(EMPTY, steps).value, id, [], []);
  }

  /** `n` expiries of one timer whose callbacks do nothing. */
  function Ticks(id: Id, n: nat): seq<Step> {
    if n == 0 then [] else [Expire(id, [], [])] + Ticks(id, n - 1)
  }

  lemma {:induction false} TicksCount(id: Id, n: nat)
    ensures Expirations(Ticks(id, n), id) == n
  {
    if n > 0 {
      TicksCount(id, n - 1);
    }
  }

  /** A tick succeeds, and leaves the timer live unless it was the last. */
  lemma Tick(m: Mgr, id: Id)
    requires Good(Look(m, id), false) && id in m.timers
    ensures var m' := AfterFire(m, id, [], []);
            && m'.Some? && Good(Look(m'.value, id), false)
            && (id in m'.value.timers <==> !LastExpiry(m, id))
  {
    EnterGood(m, id, id);
    FireSplits(m, id, [], []);
    FireGood(m, id, [], [], id);
    if LastExpiry(m, id) {
      StopGood(Entered(m, id), Some(id), [], id, true);
    }
  }

  lemma {:induction false} TicksSucceed(m: Mgr, id: Id, n: nat)
    requires Good(Look(m, id), false) && id in m.timers
    requires var v := Look(m, id);
             Endless(v.spec.value) || v.calls.to + v.calls.maxTo + n <= Budget(v.spec.value)
    ensures Exec(m, Ticks(id, n)).Some?
    decreases n
  {
    if n > 0 {
      Tick(m, id);
      FireGood(m, id, [], [], id);
      if n > 1 {
        TicksSucceed(AfterFire(m, id, [], []).value, id, n - 1);
      }
    }
  }

  lemma Exhausted(v: View)
    requires Good(v, false) && v.started && !Endless(v.spec.value)
    requires v.calls.to + v.calls.maxTo == Budget(v.spec.value)
    ensures var spec := v.spec.value;
            && v.timer.None? && !v.armed
            && v.calls == Summary(spec.maxRtx, if spec.hasMaxTo then 1 else 0, if spec.hasFree then 1 else 0, 1, false)
  {
  }

  /** Left to expire, a live timer spends its whole budget, every callback called as often as promised, and is gone. */
  lemma RunsOut(m: Mgr, id: Id)
    requires Good(Look(m, id), false) && id in m.timers && !Endless(m.timers[id].spec)
    ensures var spec, calls := m.timers[id].spec, Look(m, id).calls;
            calls.to + calls.maxTo < Budget(spec)
    ensures var spec, calls := m.timers[id].spec, Look(m, id).calls;
            var end := Exec(m, Ticks(id, Budget(spec) - calls.to - calls.maxTo));
            && end.Some? && id !in end.value.timers && id !in end.value.armed
            && Look(end.value, id).calls ==
                 Summary(spec.maxRtx, if spec.hasMaxTo then 1 else 0, if spec.hasFree then 1 else 0, 1, false)
  {
    var n := Budget(m.timers[id].spec) - Look(m, id).calls.to - Look(m, id).calls.maxTo;
    TicksSucceed(m, id, n);
    TicksCount(id, n);
    RunGood(m, Ticks(id, n), id);
    Exhausted(Look(Exec(m, Ticks(id, n)).value, id));
  }

  /** A manager that has just started one timer. */
  function OneTimer(spec: Spec): Mgr {
    Add(EMPTY, Args(true, false, true, spec))
  }

  ghost predicate NeverOverLimit(spec: Spec) {
    forall steps :: Exec(OneTimer(spec), steps).Some? ==>
      Look(Exec(OneTimer(spec), steps).value, 0).calls.to <= spec.maxRtx
  }

  lemma EndlessIsOver(spec: Spec, n: nat)
    requires Endless(spec) && n == spec.maxRtx + 1
    ensures !NeverOverLimit(spec)
  {
    var m := OneTimer(spec);
    AddLook(EMPTY, Args(true, false, true, spec), 0);
    TicksSucceed(m, 0, n);
    TicksCount(0, n);
    RunGood(m, Ticks(0, n), 0);
    assert Look(Exec(m, Ticks(0, n)).value, 0).calls.to == n;
  }

  /** cb_to stays within max_rtx in every run exactly when the counter does not wrap first. */
  lemma LimitIsExact(spec: Spec)
    requires spec.maxRtx >= 1
    ensures NeverOverLimit(spec) <==> !Endless(spec)
  {
    if Endless(spec) {
      EndlessIsOver(spec, spec.maxRtx + 1);
    } else {
      AddLook(EMPTY, Args(true, false, true, spec), 0);
      forall steps | Exec(OneTimer(spec), steps).Some?
        ensures Look(Exec(OneTimer(spec), steps).value, 0).calls.to <= spec.maxRtx
      {
        RunGood(OneTimer(spec), steps, 0);
      }
    }
  }
}
