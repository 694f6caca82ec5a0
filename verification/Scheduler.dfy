/** src/bootstrap/lifecycle.ts, createArbScheduler: when passes run, and who is told that nothing is left to do. */
module Scheduler {
  import opened IntMath
  import opened Outcomes

  // The scheduler's variables, and what the event loop around it holds: the application's running flag,
  // the clock, the timers that will fire, the passes in flight, and the waiters already released.
  datatype State = State(
    queued: bool, running: bool, dirty: bool, timer: Option<nat>, lastArb: int, waiters: set<nat>,
    live: bool, clock: int, pending: map<nat, int>, nextTimer: nat, passes: nat, released: set<nat>,
    spacing: int)

  const INITIAL := State(false, false, false, None, 0, {}, true, 0, map[], 0, 0, {}, 0)

  predicate Busy(s: State) {
    s.queued || s.running || s.dirty || s.timer.Some?
  }

  function Flush(s: State): State {
    if Busy(s) then s else s.(waiters := {}, released := s.released + s.waiters)
  }

  // The debounce is what the application asks for at the moment; `spacing` remembers it.
  function Schedule(s: State, debounce: int): State {
    if !s.live then s
    else if s.queued || s.running then s.(dirty := true)
    else
      var wait := debounce - (s.clock - s.lastArb);
      var delay := if wait > 0 then wait else 0;
      s.(queued := true, timer := Some(s.nextTimer), pending := s.pending[s.nextTimer := s.clock + delay],
         nextTimer := s.nextTimer + 1, spacing := debounce)
  }

  function Fire(s: State, id: nat): State {
    var t := s.(pending := s.pending - {id}, timer := None, queued := false, lastArb := s.clock);
    if !t.live then Flush(t.(dirty := false))
    else if t.running then t.(dirty := true)
    else t.(running := true, passes := t.passes + 1)
  }

  function EndPass(s: State, debounce: int): State
    requires s.passes > 0
  {
    var t := s.(passes := s.passes - 1, running := false);
    if t.dirty && t.live then Schedule(t.(dirty := false), debounce) else Flush(t)
  }

  function Cancel(s: State): State {
    var t := if s.timer.Some? then s.(pending := s.pending - {s.timer.value}, timer := None) else s;
    Flush(t.(queued := false, dirty := false))
  }

  function Wait(s: State, who: nat): State {
    if Busy(s) then s.(waiters := s.waiters + {who}) else s.(released := s.released + {who})
  }

  datatype Event =
    | ScheduleArb(debounce: int)
    | TimerFires(id: nat)
    | PassEnds(nextDebounce: int)
    | CancelArb
    | WaitForIdle(who: nat)
    | SetRunning(on: bool)
    | TimePasses(ms: nat)

  // A timer fires when it is pending and due; a pass can end when there is one.
  predicate Enabled(s: State, e: Event) {
    match e
    case TimerFires(id) => id in s.pending && s.pending[id] <= s.clock
    case PassEnds(_) => s.passes > 0
    case _ => true
  }

  function Step(s: State, e: Event): State
    requires Enabled(s, e)
  {
    match e
    case ScheduleArb(debounce) => Schedule(s, debounce)
    case TimerFires(id) => Fire(s, id)
    case PassEnds(debounce) => EndPass(s, debounce)
    case CancelArb => Cancel(s)
    case WaitForIdle(who) => Wait(s, who)
    case SetRunning(on) => s.(live := on)
    case TimePasses(ms) => s.(clock := s.clock + ms)
  }

  // The run is possible event by event.
  predicate Possible(s: State, run: seq<Event>)
    decreases |run|
  {
    run != [] ==> Enabled(s, run[0]) && Possible(Step(s, run[0]), run[1..])
  }

  function After(s: State, run: seq<Event>): State
    requires Possible(s, run)
    decreases |run|
  {
    if run == [] then s else After(Step(s, run[0]), run[1..])
  }

  // --- What every run keeps ---

  predicate Inv(s: State) {
    // At most one pass, and the flag tells.
    && s.passes == (if s.running then 1 else 0)
    // Queued means exactly that one timer will fire, and that it is the one the scheduler knows.
    && (s.queued <==> s.timer.Some?)
    && s.pending.Keys == (if s.timer.Some? then {s.timer.value} else {})
    && (forall id :: id in s.pending ==> id < s.nextTimer)
    // Nothing is queued while a pass runs.
    && !(s.queued && s.running)
    // Whoever waits has something to wait for, and has not been released.
    && (s.waiters != {} ==> Busy(s))
    // The timer is not due before the debounce after the previous one has passed.
    && (forall id :: id in s.pending ==> s.lastArb + s.spacing <= s.pending[id])
    && s.lastArb <= s.clock
  }

  lemma StepKeepsInv(s: State, e: Event)
    requires Inv(s) && Enabled(s, e)
    ensures Inv(Step(s, e))
  {
  }

  lemma {:induction false} RunKeepsInv(s: State, run: seq<Event>)
    requires Inv(s) && Possible(s, run)
    ensures Inv(After(s, run))
    decreases |run|
  {
    hide Inv, Enabled, Step;
    if run != [] {
      StepKeepsInv(s, run[0]);
      RunKeepsInv(Step(s, run[0]), run[1..]);
    }
  }

  // Over every run from the start no two passes overlap, and queued holds exactly when a timer exists.
  lemma NoOverlap(run: seq<Event>)
    requires Possible(INITIAL, run)
    ensures var s := After(INITIAL, run);
            s.passes <= 1 && (s.queued <==> s.timer.Some?) && |s.pending| == if s.queued then 1 else 0
  {
    hide Enabled, Step;
    RunKeepsInv(INITIAL, run);
    var s := After(INITIAL, run);
    assert |s.pending.Keys| == |s.pending|;
  }

  // A timer never finds a pass running: that branch of the callback is dead. A firing timer on a live
  // application starts a pass, at least the debounce after the one before.
  lemma FiringStartsAPass(s: State, id: nat)
    requires Inv(s) && Enabled(s, TimerFires(id))
    ensures !s.running && s.lastArb + s.spacing <= s.clock
    ensures s.live ==> Step(s, TimerFires(id)).running && Step(s, TimerFires(id)).passes == 1
    ensures Step(s, TimerFires(id)).lastArb == s.clock
  {
  }

  // A request on a live scheduler with nothing queued or running sets one timer, for the first moment
  // that is neither past nor within the debounce of the last pass; any other live request marks dirty,
  // and one on a stopped application does nothing.
  lemma RequestIsTimely(s: State, debounce: int)
    requires Inv(s)
    ensures var t := Schedule(s, debounce);
            && (!s.live ==> t == s)
            && (s.live && (s.queued || s.running) ==> t == s.(dirty := true))
            && (s.live && !s.queued && !s.running ==>
                  && t.queued && !t.running && t.dirty == s.dirty && t.timer.Some?
                  && t.pending == map[t.timer.value := Max(s.clock, s.lastArb + debounce)])
  {
  }

  // A timer that fires on a stopped application starts nothing and leaves nothing behind.
  lemma FiringWhenStopped(s: State, id: nat)
    requires Inv(s) && Enabled(s, TimerFires(id)) && !s.live
    ensures var t := Step(s, TimerFires(id));
            !Busy(t) && t.passes == 0 && t.pending == map[] && t.waiters == {} && t.released == s.released + s.waiters
  {
  }

  // Nobody who waits is forgotten: an event moves waiters only to the released, all of them when it
  // leaves the scheduler idle by a flush, and whoever starts to wait is one or the other.
  lemma NobodyIsForgotten(s: State, e: Event)
    requires Inv(s) && Enabled(s, e)
    ensures var t := Step(s, e);
            && t.waiters + t.released == s.waiters + s.released + (if e.WaitForIdle? then {e.who} else {})
            && (e.WaitForIdle? ==> if Busy(s) then t.waiters == s.waiters + {e.who} else t.released == s.released + {e.who})
            && (!Busy(t) && (e.CancelArb? || e.PassEnds? || e.TimerFires?) ==> t.waiters == {})
  {
  }

  // A pass that ends dirty on a live application is followed by another, no sooner than the debounce
  // after it began; any other pass leaves nothing queued.
  lemma PassEndsExactly(s: State, debounce: int)
    requires Inv(s) && Enabled(s, PassEnds(debounce))
    ensures var t := Step(s, PassEnds(debounce));
            && !t.running && t.passes == 0 && (t.queued <==> s.dirty && s.live)
            && (t.queued ==> !t.dirty && t.pending == map[t.timer.value := Max(s.clock, s.lastArb + debounce)])
            && (!t.queued ==> t.dirty == s.dirty && t.pending == map[])
  {
  }

  // A cancel takes back what is queued or owed and leaves a running pass alone.
  lemma CancelTakesBack(s: State)
    requires Inv(s)
    ensures var t := Step(s, CancelArb);
            !t.queued && !t.dirty && t.timer.None? && t.pending == map[] && t.running == s.running && t.passes == s.passes
  {
  }

  // Where it starts: nothing queued, running or owed, on a live application.
  lemma StartsIdle()
    ensures Inv(INITIAL) && !Busy(INITIAL) && INITIAL.live && INITIAL.waiters == {} && INITIAL.released == {}
  {
  }

  // --- No lost wake-up ---

  // A pass is still owed: one is queued, or the one that runs will be followed by another.
  predicate Owed(s: State) {
    s.queued || (s.running && s.dirty)
  }

  predicate StartsPass(e: Event) {
    e.TimerFires?
  }

  predicate Disturbs(e: Event) {
    e.CancelArb? || (e.SetRunning? && !e.on)
  }

  lemma RequestIsOwed(s: State, debounce: int)
    requires Inv(s) && s.live
    ensures Owed(Schedule(s, debounce))
  {
  }

  lemma OwedStepwise(s: State, e: Event)
    requires Inv(s) && Enabled(s, e) && Owed(s) && s.live && !Disturbs(e)
    ensures Step(s, e).live
    ensures if StartsPass(e) then Step(s, e).running else Owed(Step(s, e))
  {
  }

  // A request made while the application runs is owed a pass through every run without cancel or stop,
  // until a pass starts.
  lemma {:induction false} NoLostWakeUp(s: State, run: seq<Event>)
    requires Inv(s) && Owed(s) && s.live && Possible(s, run)
    requires forall e :: e in run ==> !Disturbs(e) && !StartsPass(e)
    ensures Owed(After(s, run)) && After(s, run).live
    decreases |run|
  {
    hide Inv, Enabled, Step, Owed;
    if run != [] {
      OwedStepwise(s, run[0]);
      StepKeepsInv(s, run[0]);
      NoLostWakeUp(Step(s, run[0]), run[1..]);
    }
  }

  lemma AfterOne(s: State, e: Event)
    requires Enabled(s, e)
    ensures Possible(s, [e]) && After(s, [e]) == Step(s, e)
  {
  }

  // The pass owed is never out of reach: the current pass ends, time passes, the timer fires.
  lemma OwedPassCanStart(s: State) returns (run: seq<Event>)
    requires Inv(s) && Owed(s) && s.live
    ensures Possible(s, run) && 0 < |run| <= 3 && After(s, run).running && run[|run| - 1].TimerFires?
    ensures forall e :: e in run ==> !Disturbs(e) && !e.ScheduleArb?
  {
    var t := s;
    run := [];
    if !s.queued {
      run := [PassEnds(0)];
      t := Step(s, PassEnds(0));
      StepKeepsInv(s, PassEnds(0));
      assert t.queued && t.live;
    }
    var id := t.timer.value;
    assert id in t.pending;
    var delay := if t.pending[id] > t.clock then t.pending[id] - t.clock else 0;
    var u := Step(t, TimePasses(delay));
    StepKeepsInv(t, TimePasses(delay));
    assert Enabled(u, TimerFires(id));
    FiringStartsAPass(u, id);
    var tail := [TimePasses(delay), TimerFires(id)];
    assert tail[1..] == [TimerFires(id)] && [TimerFires(id)][1..] == [];
    var last := [TimerFires(id)];
    AfterOne(u, TimerFires(id));
    assert Possible(t, tail) && After(t, tail) == After(u, last);
    if !s.queued {
      run := run + tail;
      assert run[1..] == tail;
    } else {
      run := tail;
    }
  }

  // --- Shutdown ---

  // Stopped and cancelled: nothing is queued or owed, and only a running pass keeps anyone waiting.
  predicate Draining(s: State) {
    !s.live && !s.queued && !s.dirty && (s.running || s.waiters == {})
  }

  predicate Restarts(e: Event) {
    e.SetRunning? && e.on
  }

  lemma StopAndCancelDrains(s: State)
    requires Inv(s)
    ensures Draining(Cancel(s.(live := false)))
  {
  }

  lemma {:induction false} DrainingLasts(s: State, run: seq<Event>)
    requires Inv(s) && Draining(s) && Possible(s, run)
    requires forall e :: e in run ==> !Restarts(e)
    ensures Draining(After(s, run)) && Inv(After(s, run))
    decreases |run|
  {
    hide Inv, Restarts, Draining, Step, Enabled;
    if run != [] {
      assert run[0] in run;
      StepKeepsInv(s, run[0]);
      DrainStep(s, run[0]);
      DrainingLasts(Step(s, run[0]), run[1..]);
    }
  }

  lemma DrainStep(s: State, e: Event)
    requires Inv(s) && Draining(s) && Enabled(s, e) && !Restarts(e)
    ensures Draining(Step(s, e))
    ensures e.PassEnds? ==> !Step(s, e).running
  {
  }

  // After a stop followed by a cancel, whatever else happens short of a restart, as soon as no pass
  // runs every waiter has been released, and nobody who asks later has to wait.
  lemma ShutdownReleasesEveryone(s: State, run: seq<Event>)
    requires Inv(s) && Possible(Cancel(s.(live := false)), run)
    requires forall e :: e in run ==> !Restarts(e)
    ensures var e := After(Cancel(s.(live := false)), run);
            !e.running ==> e.waiters == {} && e.passes == 0 && e.pending == map[] && !Busy(e)
  {
    StepKeepsInv(s, SetRunning(false));
    StepKeepsInv(s.(live := false), CancelArb);
    StopAndCancelDrains(s);
    DrainingLasts(Cancel(s.(live := false)), run);
  }

  // A waiter is only ever let go into an idle scheduler.
  lemma ReleasedWhenIdle(s: State, e: Event, who: nat)
    requires Inv(s) && Enabled(s, e) && who in Step(s, e).released && who !in s.released
    ensures !Busy(Step(s, e)) && Step(s, e).passes == 0 && Step(s, e).pending == map[]
  {
  }

  // A stop without a cancel: the end of the pass releases the waiters exactly when the flag is clear.
  // Otherwise the request it stands for is kept, nothing will serve it, and they wait on.
  lemma StopAloneReleasesUnlessDirty(s: State, debounce: int)
    requires Inv(s) && !s.live && s.running && s.waiters != {}
    ensures var e := EndPass(s, debounce);
            && (e.waiters == {} <==> !s.dirty)
            && (s.dirty ==> e.dirty && !e.running && e.pending == map[] && e.waiters == s.waiters)
  {
  }

  // The life of one pass: queued or running throughout, and not ended.
  predicate Occupied(s: State, run: seq<Event>)
    requires Possible(s, run)
    decreases |run|
  {
    (s.queued || s.running) && (run != [] ==> !run[0].PassEnds? && Occupied(Step(s, run[0]), run[1..]))
  }

  predicate NoCancel(run: seq<Event>) {
    forall e :: e in run ==> !e.CancelArb?
  }

  // A request came in on a live application, and no cancel since.
  predicate Asked(s: State, run: seq<Event>)
    requires Possible(s, run)
    decreases |run|
  {
    && run != []
    && ((run[0].ScheduleArb? && s.live && NoCancel(run[1..])) || Asked(Step(s, run[0]), run[1..]))
  }

  // What the flag stands for, all through the life of a pass.
  lemma {:induction false} FlagTells(s: State, run: seq<Event>)
    requires Inv(s) && Possible(s, run) && Occupied(s, run)
    ensures After(s, run).dirty <==> (s.dirty && NoCancel(run)) || Asked(s, run)
    decreases |run|
  {
    hide Inv, Enabled, Step, NoCancel;
    if run == [] {
      assert NoCancel(run) by { NothingIsNoCancel(); }
    } else {
      var t := Step(s, run[0]);
      StepKeepsInv(s, run[0]);
      FlagTells(t, run[1..]);
      FlagStep(s, run[0]);
      NoCancelSplits(run);
    }
  }

  lemma NothingIsNoCancel()
    ensures NoCancel([])
  {
  }

  lemma NoCancelSplits(run: seq<Event>)
    requires run != []
    ensures NoCancel(run) <==> !run[0].CancelArb? && NoCancel(run[1..])
  {
    assert forall e :: e in run <==> e == run[0] || e in run[1..];
  }

  lemma FlagStep(s: State, e: Event)
    requires Inv(s) && Enabled(s, e) && (s.queued || s.running) && !e.PassEnds?
    requires Step(s, e).queued || Step(s, e).running
    ensures Step(s, e).dirty <==> !e.CancelArb? && (s.dirty || (e.ScheduleArb? && s.live))
  {
  }

  // From the moment a pass is queued with the flag clear to its end on a stopped application: the
  // waiters are left behind exactly when a live request has come in since, no cancel after it.
  lemma StopAloneStrandsExactly(s: State, run: seq<Event>, debounce: int)
    requires Inv(s) && s.queued && !s.dirty && Possible(s, run) && Occupied(s, run)
    requires var t := After(s, run); t.running && !t.live && t.waiters != {}
    ensures After(s, run).passes > 0
    ensures var t := After(s, run);
            var e := EndPass(t, debounce);
            && (e.waiters == {} <==> !Asked(s, run))
            && (Asked(s, run) ==> e.waiters == t.waiters && e.passes == 0 && e.pending == map[])
  {
    hide Step, Asked, Occupied, Enabled;
    FlagTells(s, run);
    RunKeepsInv(s, run);
    StopAloneReleasesUnlessDirty(After(s, run), debounce);
    StepKeepsInv(After(s, run), PassEnds(debounce)) by { CanEnd(After(s, run), debounce); }
    EndIsStep(After(s, run), debounce);
  }

  lemma CanEnd(s: State, debounce: int)
    requires s.passes > 0
    ensures Enabled(s, PassEnds(debounce))
  {
  }

  lemma EndIsStep(s: State, debounce: int)
    requires s.passes > 0 && Enabled(s, PassEnds(debounce))
    ensures Step(s, PassEnds(debounce)) == EndPass(s, debounce)
  {
  }

  // Every request that starts from an idle scheduler queues such a pass.
  lemma RequestQueuesClean(s: State, debounce: int)
    requires Inv(s) && !Busy(s) && s.live
    ensures Schedule(s, debounce).queued && !Schedule(s, debounce).dirty
  {
  }

  // A possible run from the start after which a waiter is left and nothing is going to happen.
  predicate Strands(run: seq<Event>) {
    && Possible(INITIAL, run)
    && var e := After(INITIAL, run); e.waiters == {7} && e.passes == 0 && e.pending == map[]
  }

  // Such runs: the second request comes while the pass runs, or while it is still queued.
  lemma StopAloneCanStrand()
    ensures Strands([ScheduleArb(0), TimerFires(0), ScheduleArb(0), WaitForIdle(7), SetRunning(false), PassEnds(0)])
    ensures Strands([ScheduleArb(0), ScheduleArb(0), TimerFires(0), WaitForIdle(7), SetRunning(false), PassEnds(0)])
  {
    hide After, Possible;
    var s1 := Step(INITIAL, ScheduleArb(0));
    var late, early := Step(Step(s1, TimerFires(0)), ScheduleArb(0)), Step(Step(s1, ScheduleArb(0)), TimerFires(0));
    assert late == early;
    var s4 := Step(late, WaitForIdle(7));
    var s5 := Step(s4, SetRunning(false));
    var s6 := Step(s5, PassEnds(0));
    assert s6.waiters == {7} && s6.passes == 0 && s6.pending == map[];
    Follow([INITIAL, s1, Step(s1, TimerFires(0)), late, s4, s5, s6],
           [ScheduleArb(0), TimerFires(0), ScheduleArb(0), WaitForIdle(7), SetRunning(false), PassEnds(0)]);
    Follow([INITIAL, s1, Step(s1, ScheduleArb(0)), early, s4, s5, s6],
           [ScheduleArb(0), ScheduleArb(0), TimerFires(0), WaitForIdle(7), SetRunning(false), PassEnds(0)]);
  }

  // A run given with the states it goes through.
  lemma {:induction false} Follow(states: seq<State>, run: seq<Event>)
    requires |states| == |run| + 1
    requires forall k :: 0 <= k < |run| ==> Enabled(states[k], run[k]) && states[k + 1] == Step(states[k], run[k])
    ensures Possible(states[0], run) && After(states[0], run) == states[|run|]
  {
    hide Enabled, Step;
    if run != [] {
      Follow(states[1..], run[1..]);
    }
  }

  // --- The code ---

  // The closure's variables, with the event loop's side as fields of the same object.
  class ArbScheduler {
    var arbQueued: bool
    var arbRunning: bool
    var arbDirty: bool
    var arbTimer: Option<nat>
    var lastArbMs: int
    var idleResolvers: set<nat>
    var live: bool
    var clock: int
    var timers: map<nat, int>
    var nextTimer: nat
    var passes: nat
    var released: set<nat>
    ghost var spacing: int

    constructor ()
      ensures View() == INITIAL
    {
      arbQueued, arbRunning, arbDirty, arbTimer, lastArbMs, idleResolvers := false, false, false, None, 0, {};
      live, clock, timers, nextTimer, passes, released, spacing := true, 0, map[], 0, 0, {}, 0;
    }

    ghost function View(): State
      reads this
    {
      State(arbQueued, arbRunning, arbDirty, arbTimer, lastArbMs, idleResolvers,
            live, clock, timers, nextTimer, passes, released, spacing)
    }

    method FlushIdleWaiters()
      modifies this
      ensures View() == Flush(old(View()))
    {
      if arbQueued || arbRunning || arbDirty || arbTimer.Some? {
        return;
      }
      released := released + idleResolvers;
      idleResolvers := {};
    }

    method ScheduleArb(debounceMs: int)
      modifies this
      ensures View() == Schedule(old(View()), debounceMs)
    {
      if !live {
        return;
      }
      if arbQueued || arbRunning {
        arbDirty := true;
        return;
      }
      var wait := debounceMs - (clock - lastArbMs);
      var delay := if wait > 0 then wait else 0;
      arbQueued := true;
      arbTimer := Some(nextTimer);
      timers := timers[nextTimer := clock + delay];
      nextTimer := nextTimer + 1;
      spacing := debounceMs;
    }

    // The timer's callback up to the await of the pass.
    method OnTimer(id: nat)
      modifies this
      ensures View() == Fire(old(View()), id)
    {
      timers := timers - {id};
      arbTimer := None;
      arbQueued := false;
      lastArbMs := clock;
      if !live {
        arbDirty := false;
        FlushIdleWaiters();
        return;
      }
      if arbRunning {
        arbDirty := true;
        return;
      }
      arbRunning := true;
      passes := passes + 1;
    }

    // The rest of it, when the pass has ended, well or badly.
    method OnPassEnd(debounceMs: int)
      requires passes > 0
      modifies this
      ensures View() == EndPass(old(View()), debounceMs)
    {
      passes := passes - 1;
      arbRunning := false;
      if arbDirty && live {
        arbDirty := false;
        ScheduleArb(debounceMs);
        return;
      }
      FlushIdleWaiters();
    }

    method CancelScheduledArb()
      modifies this
      ensures View() == Cancel(old(View()))
    {
      if arbTimer.Some? {
        timers := timers - {arbTimer.value};
        arbTimer := None;
      }
      arbQueued := false;
      arbDirty := false;
      FlushIdleWaiters();
    }

    method WaitForIdle(who: nat)
      modifies this
      ensures View() == Wait(old(View()), who)
    {
      if !arbQueued && !arbRunning && !arbDirty && arbTimer.None? {
        released := released + {who};
        return;
      }
      idleResolvers := idleResolvers + {who};
    }
  }
}
