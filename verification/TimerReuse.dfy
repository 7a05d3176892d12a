/**
 Addresses used again. timer_cb looks its timer up in the table by address after the callback, so a timer the
 callback started at that address is taken for the one that expired. `addr` says where each timer lives.
 */
module TimerReuse {
  import opened Common
  import opened TimerManager
  import opened TimerRuns

  /** The allocator gives live timers different addresses. */
  ghost predicate Apart(m: Mgr, addr: Id -> nat) {
    forall x, y :: x in m.timers && y in m.timers && addr(x) == addr(y) ==> x == y
  }

  /** The live timer at an address. */
  ghost function Occupant(m: Mgr, addr: Id -> nat, a: nat): (o: Option<Id>)
    ensures o.Some? ==> o.value in m.timers && addr(o.value) == a
    ensures o.None? ==> forall x :: x in m.timers ==> addr(x) != a
  {
    if exists x :: x in m.timers && addr(x) == a then
      var x :| x in m.timers && addr(x) == a;
      Some(x)
    else None
  }

  /** The callback of the expiry has returned. */
  function AfterCallback(m: Mgr, id: Id, acts: seq<Act>): Option<Mgr>
    requires id in m.timers
  {
    if Called(m, id).CbMaxTo? && !m.timers[id].spec.hasMaxTo then None else AfterActs(Entered(m, id), acts)
  }

  /** timer_cb with its test by address: the last expiry stops whatever timer lives there. */
  ghost function AfterFireAt(m: Mgr, addr: Id -> nat, id: Id, acts: seq<Act>, stopActs: seq<Act>): Option<Mgr>
    requires id in m.timers
  {
    var m2 := AfterCallback(m, id, acts);
    if m2.Some? && LastExpiry(m, id) then AfterStop(m2.value, Occupant(m2.value, addr, addr(id)), stopActs) else m2
  }

  /** The timer a last expiry stops is not the one that expired. */
  ghost predicate StopsOther(m: Mgr, addr: Id -> nat, id: Id, acts: seq<Act>)
    requires id in m.timers
  {
    var m2 := AfterCallback(m, id, acts);
    && m2.Some? && LastExpiry(m, id)
    && var o := Occupant(m2.value, addr, addr(id)); o.Some? && o.value != id
  }

  /**
   An expiry stops another timer exactly when it is the last one, its callback stopped its own timer, and a timer
   started in that callback lives at the freed address. In every other case the test by address is right.
   */
  lemma ReuseIsExact(steps: seq<Step>, addr: Id -> nat, id: Id, acts: seq<Act>, stopActs: seq<Act>)
    requires Exec(EMPTY, steps).Some? && id in Exec(EMPTY, steps).value.timers
    requires var m := Exec(EMPTY, steps).value;
             && Apart(m, addr)
             && (AfterCallback(m, id, acts).Some? ==> Apart(AfterCallback(m, id, acts).value, addr))
    ensures var m := Exec(EMPTY, steps).value;
            var m2 := AfterCallback(m, id, acts);
            && (StopsOther(m, addr, id, acts) <==>
                  && m2.Some? && LastExpiry(m, id) && id !in m2.value.timers
                  && exists x :: x >= m.next && x in m2.value.timers && addr(x) == addr(id))
            && (!StopsOther(m, addr, id, acts) ==>
                  AfterFireAt(m, addr, id, acts, stopActs) == AfterFire(m, id, acts, stopActs))
  {
    var m := Exec(EMPTY, steps).value;
    var m2 := AfterCallback(m, id, acts);
    RunGood(EMPTY, steps, id);
    EnterGood(m, id, id);
    FireSplits(m, id, acts, stopActs);
    if m2.Some? {
      var o := Occupant(m2.value, addr, addr(id));
      if o.Some? && o.value != id { OccupantIsNew(steps, addr, id, acts, o.value); }
    }
  }

  /** A timer that lives at the address of the one that expired was started by the callback. */
  lemma OccupantIsNew(steps: seq<Step>, addr: Id -> nat, id: Id, acts: seq<Act>, x: Id)
    requires Exec(EMPTY, steps).Some? && id in Exec(EMPTY, steps).value.timers && x != id
    requires var m := Exec(EMPTY, steps).value;
             && Apart(m, addr) && AfterActs(Entered(m, id), acts).Some?
             && x in AfterActs(Entered(m, id), acts).value.timers && addr(x) == addr(id)
    ensures x >= Exec(EMPTY, steps).value.next
  {
    var m := Exec(EMPTY, steps).value;
    RunGood(EMPTY, steps, x);
    EnterGood(m, id, x);
    ActsGood(Entered(m, id), acts, x, false);
  }

  function Replaced(m: Mgr, id: Id, args: Args): Mgr
    requires id in m.timers
  {
    Add(Unlink(m, id), args)
  }

  lemma Replacing(m: Mgr, id: Id, args: Args)
    requires id in m.timers
    ensures AfterActs(m, [Stop(Some(id), []), Start(args)]) == Some(Replaced(m, id, args))
  {
    var acts := [Stop(Some(id), []), Start(args)];
    assert acts[1..] == [Start(args)] && acts[1..][1..] == [];
    assert AfterStop(m, Some(id), []) == Some(Unlink(m, id));
    assert AfterActs(Unlink(m, id), [Start(args)]) == Some(Add(Unlink(m, id), args)) by {
      assert [Start(args)][1..] == [];
    }
  }

  /** The table: the replacement is added, the timer it replaces is gone. */
  lemma ReplacedTimers(m: Mgr, id: Id, args: Args, m2: Mgr)
    requires id in m.timers && m.next !in m.timers && ArgsOk(args) && m2 == Replaced(m, id, args)
    ensures m.next in m2.timers && m2.timers[m.next].spec == args.spec
    ensures Unlink(m2, m.next).timers == m.timers - {id}
    ensures forall x :: x in m2.timers ==> x == m.next || (x in m.timers && x != id)
  {
  }

  lemma ReplacedLook(m: Mgr, id: Id, args: Args, m2: Mgr)
    requires id in m.timers && m.next != id && ArgsOk(args) && m2 == Replaced(m, id, args)
    ensures Look(m2, m.next).calls == Look(m, m.next).calls
  {
    var m1 := Unlink(m, id);
    UnlinkLook(m, id, m.next);
    AddLook(m1, args, m.next);
  }

  /** A timer not called yet and stopped is released, and no more. */
  lemma StoppedNew(m: Mgr, x: Id, end: Mgr)
    requires x in m.timers && Look(m, x).calls == Summary(0, 0, 0, 0, false) && end == Unlink(m, x)
    ensures Look(end, x).calls == Summary(0, 0, if m.timers[x].spec.hasFree then 1 else 0, 1, false)
  {
    UnlinkLook(m, x, x);
  }

  /** Both stops and the start between them, on the manager the callback found. */
  lemma ReplacementEnds(m: Mgr, id: Id, args: Args) returns (m2: Mgr, end: Mgr)
    requires id in m.timers && m.next !in m.timers && ArgsOk(args)
    requires Look(m, m.next).calls == Summary(0, 0, 0, 0, false)
    ensures AfterActs(m, [Stop(Some(id), []), Start(args)]) == Some(m2)
    ensures m.next in m2.timers && forall x :: x in m2.timers ==> x == m.next || (x in m.timers && x != id)
    ensures AfterStop(m2, Some(m.next), []) == Some(end) && end.timers == m.timers - {id}
    ensures Look(end, m.next).calls == Summary(0, 0, if args.spec.hasFree then 1 else 0, 1, false)
  {
    m2 := Replaced(m, id, args);
    Replacing(m, id, args);
    ReplacedTimers(m, id, args, m2);
    ReplacedLook(m, id, args, m2);
    end := Unlink(m2, m.next);
    StoppedNew(m2, m.next, end);
  }

  /** The manager the callback finds at the last expiry. */
  lemma EnteredLast(steps: seq<Step>, id: Id) returns (m: Mgr, m1: Mgr)
    requires Exec(EMPTY, steps).Some? && id in Exec(EMPTY, steps).value.timers
    requires LastExpiry(Exec(EMPTY, steps).value, id)
    ensures m == Exec(EMPTY, steps).value && m1 == Entered(m, id)
    ensures m1.next == m.next && m1.timers - {id} == m.timers - {id} && id in m1.timers && m.next !in m.timers
    ensures m.next !in m1.timers && Look(m1, m.next).calls == Summary(0, 0, 0, 0, false)
    ensures forall acts :: AfterCallback(m, id, acts) == AfterActs(m1, acts)
  {
    m := Exec(EMPTY, steps).value;
    m1 := Entered(m, id);
    RunGood(EMPTY, steps, id);
    RunGood(EMPTY, steps, m.next);
    EnterGood(m, id, id);
    EnterLook(m, id, m.next);
  }

  /** A callback that replaces its timer in its last expiry: the new timer is stopped before it ever expires. */
  lemma ReplacementIsStopped(steps: seq<Step>, addr: Id -> nat, id: Id, args: Args)
    requires Exec(EMPTY, steps).Some? && id in Exec(EMPTY, steps).value.timers && ArgsOk(args)
    requires var m := Exec(EMPTY, steps).value;
             Apart(m, addr) && LastExpiry(m, id) && addr(m.next) == addr(id)
    ensures var m := Exec(EMPTY, steps).value;
            var end := AfterFireAt(m, addr, id, [Stop(Some(id), []), Start(args)], []);
            && end.Some? && end.value.timers == m.timers - {id}
            && Look(end.value, m.next).calls == Summary(0, 0, if args.spec.hasFree then 1 else 0, 1, false)
  {
    var m, m1 := EnteredLast(steps, id);
    var m2, end := ReplacementEnds(m1, id, args);
    assert Occupant(m2, addr, addr(id)) == Some(m.next);
  }
}
