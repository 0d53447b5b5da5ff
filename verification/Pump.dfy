// The self-rearming timer behind heartbeat and snapshot: one tick at a time, error
// backoff, and a terminal stop.
module Pumps {
  import opened Common

  const DEFAULT_ERROR_BACKOFF_MS: seq<nat> := [30_000, 60_000, 300_000, 900_000, 3_600_000]

  datatype Config = Config(serial: bool, intervalMs: nat, backoff: seq<nat>)

  /** An armed timer with the delay it was given; None is the `undefined` of an index out of bounds. */
  datatype Timer = Timer(id: nat, delay: Option<nat>)

  /** `armed` and `running` are the runtime's side: timers not yet cleared or fired, ticks whose
      onTick has not settled. `outcomes` records every finished tick, true for success, and `armedAfter`
      how many had finished when the timer was last armed. */
  datatype Pump = Pump(
    enabled: bool, stopped: bool, started: bool, processing: bool, errors: nat,
    timer: Option<Timer>, inFlight: Option<nat>,
    armed: set<nat>, running: set<nat>, nextId: nat, launched: nat, outcomes: seq<bool>, armedAfter: nat)

  /** `throwsNow` is an onTick that throws before returning a promise. */
  datatype Event =
    | Start
    | Stop
    | SetEnabled(next: bool)
    | RunNow(throwsNow: bool)
    | TimerFires(id: nat, throwsNow: bool)
    | TickSettles(tick: nat, ok: bool)

  function Initial(enabled: bool): Pump {
    Pump(enabled, false, false, false, 0, None, None, {}, {}, 0, 0, [], 0)
  }

  function NextDelay(c: Config, errors: nat): Option<nat> {
    if errors == 0 then Some(c.intervalMs)
    else
      var i := Min(errors - 1, |c.backoff| - 1);
      if 0 <= i then Some(c.backoff[i]) else None
  }

  function ArmNext(c: Config, p: Pump): Pump {
    if p.stopped || !p.enabled || p.timer.Some? then p
    else
      p.(timer := Some(Timer(p.nextId, NextDelay(c, p.errors))), armedAfter := |p.outcomes|,
         armed := p.armed + {p.nextId}, nextId := p.nextId + 1)
  }

  function ClearTimer(p: Pump): Pump {
    if p.timer.None? then p else p.(timer := None, armed := p.armed - {p.timer.value.id})
  }

  /** A synchronous throw reaches the finally block before `thisRun` is initialised: the flag is
      cleared and the error counted, but nothing is rearmed. */
  function Tick(c: Config, p: Pump, throwsNow: bool): Pump {
    if p.stopped || (c.serial && p.processing) then p
    else if throwsNow then
      p.(processing := false, errors := p.errors + 1, outcomes := p.outcomes + [false],
         inFlight := Some(p.nextId), nextId := p.nextId + 1, launched := p.launched + 1)
    else
      p.(processing := true, inFlight := Some(p.nextId), running := p.running + {p.nextId},
         nextId := p.nextId + 1, launched := p.launched + 1)
  }

  function Settle(c: Config, p: Pump, tick: nat, ok: bool): Pump {
    if tick !in p.running then p
    else
      ArmNext(c, p.(running := p.running - {tick}, processing := false,
                    errors := if ok then 0 else p.errors + 1, outcomes := p.outcomes + [ok],
                    inFlight := if p.inFlight == Some(tick) then None else p.inFlight))
  }

  function Step(c: Config, p: Pump, e: Event): Pump {
    match e
    case Start => if p.started || p.stopped then p else ArmNext(c, p.(started := true))
    case Stop => ClearTimer(p.(stopped := true))
    case SetEnabled(next) =>
      if p.stopped || p.enabled == next then p
      else if next then ArmNext(c, p.(enabled := true)) else ClearTimer(p.(enabled := false))
    case RunNow(throwsNow) =>
      if p.stopped || (p.processing && p.inFlight.Some?) then p else Tick(c, p, throwsNow)
    case TimerFires(id, throwsNow) =>
      if id !in p.armed then p else Tick(c, p.(armed := p.armed - {id}, timer := None), throwsNow)
    case TickSettles(tick, ok) => Settle(c, p, tick, ok)
  }

  function Run(c: Config, p: Pump, events: seq<Event>): Pump {
    if events == [] then p else Step(c, Run(c, p, events[..|events| - 1]), events[|events| - 1])
  }

  /** Failures since the last success. */
  function Trailing(outcomes: seq<bool>): nat {
    if outcomes == [] || outcomes[|outcomes| - 1] then 0 else 1 + Trailing(outcomes[..|outcomes| - 1])
  }

  /** At most one tick is running and at most one timer armed, both known to the pump. */
  predicate Single(p: Pump) {
    && p.armed == (if p.timer.Some? then {p.timer.value.id} else {})
    && (p.processing <==> p.running != {})
    && (p.running != {} ==> p.inFlight.Some? && p.running == {p.inFlight.value})
    && (p.stopped ==> p.armed == {})
    && p.errors == Trailing(p.outcomes)
  }

  /** A started, enabled pump that has not been stopped has something that will rearm it. */
  predicate Live(p: Pump) {
    p.started && p.enabled && !p.stopped ==> p.armed != {} || p.running != {}
  }

  /** The error count is that of the outcomes, and the armed timer was given the delay of the failures
      then trailing. */
  predicate DelayChosen(c: Config, p: Pump) {
    && p.errors == Trailing(p.outcomes)
    && (p.timer.Some? ==>
          && p.armedAfter <= |p.outcomes|
          && p.timer.value.delay == NextDelay(c, Trailing(p.outcomes[..p.armedAfter])))
  }

  lemma TrailingOfAppend(outcomes: seq<bool>, ok: bool)
    ensures Trailing(outcomes + [ok]) == if ok then 0 else 1 + Trailing(outcomes)
  {
    assert (outcomes + [ok])[..|outcomes|] == outcomes;
  }

  lemma StepKeepsSingle(c: Config, p: Pump, e: Event)
    requires c.serial && Single(p)
    ensures Single(Step(c, p, e))
  {
    TrailingOfAppend(p.outcomes, true);
    TrailingOfAppend(p.outcomes, false);
    hide Trailing;
    if e.TickSettles? && e.tick in p.running {
      assert p.running - {e.tick} == {};
    }
  }

  /** Main result: in every run of a serial pump, at most one tick in flight and one timer armed. */
  lemma {:induction false} EveryRunSingle(c: Config, enabled: bool, events: seq<Event>)
    requires c.serial
    ensures var p := Run(c, Initial(enabled), events); Single(p) && |p.running| <= 1 && |p.armed| <= 1
  {
    if events != [] {
      EveryRunSingle(c, enabled, events[..|events| - 1]);
      StepKeepsSingle(c, Run(c, Initial(enabled), events[..|events| - 1]), events[|events| - 1]);
    }
  }

  /** An idle pump's own timer finds an onTick that throws before returning a promise. */
  predicate Stalls(p: Pump, e: Event) {
    && e.TimerFires? && e.id in p.armed && e.throwsNow
    && p.started && p.enabled && p.running == {}
  }

  /** Liveness survives every step but that one. */
  lemma LiveKeptExactly(c: Config, p: Pump, e: Event)
    requires c.serial && Single(p) && Live(p)
    ensures Live(Step(c, p, e)) <==> !Stalls(p, e)
  {
    hide Trailing;
    if e.TickSettles? && e.tick in p.running {
      assert p.running - {e.tick} == {};
    }
    if e.TimerFires? && e.id in p.armed {
      assert p.armed - {e.id} == {};
    }
  }

  predicate AsyncOnly(events: seq<Event>) {
    forall i :: 0 <= i < |events| ==>
      (events[i].TimerFires? ==> !events[i].throwsNow) && (events[i].RunNow? ==> !events[i].throwsNow)
  }

  /** Main result: with an onTick that reports errors through its promise, a started, enabled,
      unstopped pump always has a timer armed or a tick running. */
  lemma {:induction false} EveryRunLive(c: Config, enabled: bool, events: seq<Event>)
    requires c.serial && AsyncOnly(events)
    ensures Live(Run(c, Initial(enabled), events))
  {
    if events != [] {
      var init, last := events[..|events| - 1], events[|events| - 1];
      assert AsyncOnly(init);
      EveryRunLive(c, enabled, init);
      EveryRunSingle(c, enabled, init);
      assert events[|events| - 1] == last;
      LiveKeptExactly(c, Run(c, Initial(enabled), init), last);
    }
  }

  /** A stalled pump stays without timer and tick until someone toggles it or runs it by hand. */
  lemma StalledStays(c: Config, p: Pump, e: Event)
    requires Single(p) && p.started && p.armed == {} && p.running == {}
    requires !e.RunNow? && !e.SetEnabled?
    ensures var q := Step(c, p, e); q.armed == {} && q.running == {} && q.launched == p.launched
  {
  }

  predicate HandsOff(events: seq<Event>) {
    forall i :: 0 <= i < |events| ==> !events[i].RunNow? && !events[i].SetEnabled?
  }

  lemma {:induction false} StalledForGood(c: Config, p: Pump, events: seq<Event>)
    requires c.serial && Single(p) && p.started && p.armed == {} && p.running == {} && HandsOff(events)
    ensures var q := Run(c, p, events);
            Single(q) && q.started && q.armed == {} && q.running == {} && q.launched == p.launched && q.enabled == p.enabled
  {
    if events != [] {
      var init, last := events[..|events| - 1], events[|events| - 1];
      assert HandsOff(init) && !last.RunNow? && !last.SetEnabled?;
      StalledForGood(c, p, init);
      StalledStays(c, Run(c, p, init), last);
      StepKeepsSingle(c, Run(c, p, init), last);
    }
  }

  lemma {:induction false} RunOfConcat(c: Config, p: Pump, a: seq<Event>, b: seq<Event>)
    ensures Run(c, p, a + b) == Run(c, Run(c, p, a), b)
  {
    hide Step;
    if b == [] {
      assert a + b == a;
    } else {
      RunOfConcat(c, p, a, b[..|b| - 1]);
      assert (a + b)[..|a + b| - 1] == a + b[..|b| - 1] && (a + b)[|a + b| - 1] == b[|b| - 1];
    }
  }

  /** From a fresh pump two events are enough, a start and a first tick that throws: from then on,
      untouched, it never ticks again, though it stays enabled. */
  lemma FreshPumpStalls(c: Config, events: seq<Event>)
    requires c.serial && HandsOff(events)
    ensures var q := Run(c, Initial(true), [Start, TimerFires(0, true)] + events);
            q.started && q.enabled && q.armed == {} && q.running == {} && q.launched == 1
  {
    var p := Run(c, Initial(true), [Start, TimerFires(0, true)]);
    RunOfTwo(c, Initial(true), Start, TimerFires(0, true));
    EveryRunSingle(c, true, [Start, TimerFires(0, true)]);
    assert p.armed == {} && p.running == {} && p.launched == 1;
    RunOfConcat(c, Initial(true), [Start, TimerFires(0, true)], events);
    StalledForGood(c, p, events);
  }

  /** stop() is terminal: nothing starts afterwards, in any continuation. */
  lemma {:induction false} NothingStartsAfterStop(c: Config, p: Pump, events: seq<Event>)
    requires c.serial && Single(p) && p.stopped
    ensures var q := Run(c, p, events); q.stopped && Single(q) && q.launched == p.launched && q.armed == {}
  {
    if events != [] {
      NothingStartsAfterStop(c, p, events[..|events| - 1]);
      StepKeepsSingle(c, Run(c, p, events[..|events| - 1]), events[|events| - 1]);
    }
  }

  /** The backoff index is in bounds exactly when there is a backoff schedule to index, or no error. */
  lemma DelayInBoundsExactly(c: Config, errors: nat)
    ensures NextDelay(c, errors).Some? <==> errors == 0 || c.backoff != []
    ensures c.backoff != [] && 1 <= errors <= |c.backoff| ==> NextDelay(c, errors) == Some(c.backoff[errors - 1])
    ensures c.backoff != [] && errors > |c.backoff| ==> NextDelay(c, errors) == Some(c.backoff[|c.backoff| - 1])
  {
  }

  lemma StepChoosesDelay(c: Config, p: Pump, e: Event)
    requires DelayChosen(c, p)
    ensures DelayChosen(c, Step(c, p, e))
  {
    TrailingOfAppend(p.outcomes, true);
    TrailingOfAppend(p.outcomes, false);
    hide Trailing, NextDelay;
    var q := Step(c, p, e);
    assert q.outcomes[..|q.outcomes|] == q.outcomes;
    assert p.armedAfter <= |p.outcomes| ==> q.outcomes[..p.armedAfter] == p.outcomes[..p.armedAfter];
  }

  /** Main result: in every run an armed timer's delay is that of the failures trailing when it was
      armed, whatever has happened since, and it is a delay whenever there is a backoff schedule. */
  lemma {:induction false} EveryRunDelays(c: Config, enabled: bool, events: seq<Event>)
    ensures var p := Run(c, Initial(enabled), events);
            && DelayChosen(c, p)
            && (p.timer.Some? && c.backoff != [] ==> p.timer.value.delay.Some?)
  {
    if events != [] {
      EveryRunDelays(c, enabled, events[..|events| - 1]);
      var p := Run(c, Initial(enabled), events[..|events| - 1]);
      StepChoosesDelay(c, p, events[|events| - 1]);
    }
    var p := Run(c, Initial(enabled), events);
    if p.timer.Some? {
      DelayInBoundsExactly(c, Trailing(p.outcomes[..p.armedAfter]));
    }
  }

  /** With the default schedule the delays go from half a minute to an hour. */
  lemma DefaultBackoffExactly(c: Config, errors: nat)
    requires c.backoff == DEFAULT_ERROR_BACKOFF_MS
    ensures NextDelay(c, errors) == Some(
              if errors == 0 then c.intervalMs
              else if errors == 1 then 30_000
              else if errors == 2 then 60_000
              else if errors == 3 then 300_000
              else if errors == 4 then 900_000
              else 3_600_000)
  {
  }

  // ---------------------------------------------------------------- what each event does

  /** An armed timer is the pump's own, and the pump is enabled and not stopped. */
  predicate ArmedFits(p: Pump) {
    && p.armed == (if p.timer.Some? then {p.timer.value.id} else {})
    && (p.armed != {} ==> p.enabled && !p.stopped)
  }

  /** Main result: in every run, of a serial pump or not, a disabled or stopped pump has no timer armed. */
  lemma {:induction false} EveryRunArmedFits(c: Config, enabled: bool, events: seq<Event>)
    ensures ArmedFits(Run(c, Initial(enabled), events))
  {
    if events != [] {
      EveryRunArmedFits(c, enabled, events[..|events| - 1]);
    }
  }

  /** A tick starts exactly when an armed timer fires or a live pump is run by hand, and none is running. */
  lemma LaunchesExactly(c: Config, p: Pump, e: Event)
    requires c.serial && Single(p)
    ensures var q, wanted := Step(c, p, e), (e.TimerFires? && e.id in p.armed) || (e.RunNow? && !p.stopped);
            q.launched == if wanted && p.running == {} then p.launched + 1 else p.launched
    ensures var q := Step(c, p, e); q.running - p.running != {} <==> q.launched > p.launched && !e.throwsNow
  {
  }

  /** Run by hand, a pump that has been stopped or has a tick in flight does nothing, serial or not. */
  lemma HandRunWaits(c: Config, p: Pump, throwsNow: bool)
    requires p.stopped || (p.processing && p.inFlight.Some?)
    ensures Step(c, p, RunNow(throwsNow)) == p
  {
  }

  /** A settled tick is over, counts as it went, and leaves the next timer armed. */
  lemma SettlesExactly(c: Config, p: Pump, tick: nat, ok: bool)
    requires c.serial && Single(p) && ArmedFits(p) && tick in p.running
    ensures var q := Step(c, p, TickSettles(tick, ok));
            && q.running == {} && !q.processing && q.launched == p.launched
            && q.errors == (if ok then 0 else p.errors + 1) && q.outcomes == p.outcomes + [ok]
            && (q.armed != {} <==> p.enabled && !p.stopped)
            && (p.timer.Some? ==> q.timer == p.timer)
            && (p.timer.None? && q.timer.Some? ==> q.timer.value.delay == NextDelay(c, q.errors))
            && q.enabled == p.enabled && q.stopped == p.stopped && q.started == p.started
  {
    hide Trailing, NextDelay;
    assert p.running - {tick} == {};
  }

  /** Starting, stopping and switching: what they leave armed, and that they start and end no tick. */
  lemma SwitchesExactly(c: Config, p: Pump, e: Event)
    requires ArmedFits(p) && (e.Start? || e.Stop? || e.SetEnabled?)
    ensures var q := Step(c, p, e);
            && q.running == p.running && q.launched == p.launched && q.outcomes == p.outcomes && q.errors == p.errors
            && q.started == (p.started || (e.Start? && !p.stopped))
            && q.stopped == (p.stopped || e.Stop?)
            && q.enabled == (if e.SetEnabled? && !p.stopped then e.next else p.enabled)
    ensures var q := Step(c, p, e);
            (q.armed != {} <==>
               if p.armed != {} then !q.stopped && q.enabled
               else !p.stopped && q.enabled && ((e.Start? && !p.started) || (e.SetEnabled? && !p.enabled)))
            && (p.timer.None? && q.timer.Some? ==> q.timer.value.delay == NextDelay(c, p.errors))
  {
    hide NextDelay;
  }

  // ---------------------------------------------------------------- delays that are out of date

  /** An armed timer waits what the present error count asks for. */
  predicate DelayCurrent(c: Config, p: Pump) {
    p.timer.Some? ==> p.timer.value.delay == NextDelay(c, p.errors)
  }

  /** With a timer already armed, a tick finishes, its promise settling or a call by hand throwing at once,
      and the new error count asks for another delay. */
  predicate Outdates(c: Config, p: Pump, e: Event) {
    && p.timer.Some?
    && ((&& e.TickSettles? && e.tick in p.running
         && NextDelay(c, if e.ok then 0 else p.errors + 1) != p.timer.value.delay)
        || (&& e.RunNow? && e.throwsNow && !p.stopped && p.running == {}
            && NextDelay(c, p.errors + 1) != p.timer.value.delay))
  }

  /** The armed delay stays that of the present count through every step but those. */
  lemma DelayCurrentKeptExactly(c: Config, p: Pump, e: Event)
    requires c.serial && Single(p) && DelayCurrent(c, p)
    ensures DelayCurrent(c, Step(c, p, e)) <==> !Outdates(c, p, e)
  {
    hide Trailing, NextDelay;
  }

  /** No timer is armed while a tick runs. */
  predicate Apart(p: Pump) {
    p.timer.Some? ==> p.running == {}
  }

  /** Nobody runs a tick by hand under an armed timer, or arms the pump while a tick runs. */
  predicate Quiet(p: Pump, e: Event) {
    && (e.RunNow? ==> p.timer.None?)
    && (e.Start? || (e.SetEnabled? && e.next) ==> p.running == {})
  }

  predicate QuietRun(c: Config, p: Pump, events: seq<Event>) {
    events == []
    || (QuietRun(c, p, events[..|events| - 1]) && Quiet(Run(c, p, events[..|events| - 1]), events[|events| - 1]))
  }

  lemma QuietStepKeeps(c: Config, p: Pump, e: Event)
    requires c.serial && Single(p) && Apart(p) && DelayCurrent(c, p) && Quiet(p, e)
    ensures Apart(Step(c, p, e)) && DelayCurrent(c, Step(c, p, e))
  {
    hide Trailing, NextDelay;
    if e.TickSettles? && e.tick in p.running {
      assert p.running - {e.tick} == {};
    }
  }

  /** Main result: in every such run the armed delay is always that of the present error count. */
  lemma {:induction false} EveryQuietRunCurrent(c: Config, enabled: bool, events: seq<Event>)
    requires c.serial && QuietRun(c, Initial(enabled), events)
    ensures var p := Run(c, Initial(enabled), events); Apart(p) && DelayCurrent(c, p)
  {
    if events != [] {
      hide Single;
      EveryQuietRunCurrent(c, enabled, events[..|events| - 1]);
      EveryRunSingle(c, enabled, events[..|events| - 1]);
      QuietStepKeeps(c, Run(c, Initial(enabled), events[..|events| - 1]), events[|events| - 1]);
    }
  }

  /** The timer of a pump whose first tick failed, armed before that tick finished. */
  predicate WaitsPlain(c: Config, p: Pump) {
    && p.errors == 1 && p.timer.Some? && p.timer.value.delay == Some(c.intervalMs)
    && (DelayCurrent(c, p) <==> NextDelay(c, 1) == Some(c.intervalMs))
  }

  /** A tick run by hand under the first timer fails: the timer still waits the plain interval. */
  lemma ManualFailureKeepsDelay(c: Config)
    requires c.serial
    ensures WaitsPlain(c, Run(c, Initial(true), [Start, RunNow(false), TickSettles(1, false)]))
  {
    RunOfThree(c, Initial(true), Start, RunNow(false), TickSettles(1, false));
  }

  /** So it does when the call by hand throws at once. */
  lemma ManualThrowKeepsDelay(c: Config)
    requires c.serial
    ensures WaitsPlain(c, Run(c, Initial(true), [Start, RunNow(true)]))
  {
    RunOfTwo(c, Initial(true), Start, RunNow(true));
  }

  /** And when the pump is switched off and on again while its own first tick runs, and the tick fails. */
  lemma ToggleKeepsDelay(c: Config)
    requires c.serial
    ensures WaitsPlain(c, Run(c, Initial(true),
              [Start, TimerFires(0, false)] + [SetEnabled(false), SetEnabled(true), TickSettles(1, false)]))
  {
    var p := Run(c, Initial(true), [Start, TimerFires(0, false)]);
    RunOfTwo(c, Initial(true), Start, TimerFires(0, false));
    RunOfConcat(c, Initial(true), [Start, TimerFires(0, false)], [SetEnabled(false), SetEnabled(true), TickSettles(1, false)]);
    RunOfThree(c, p, SetEnabled(false), SetEnabled(true), TickSettles(1, false));
  }

  /** And when it is enabled before it is started, and started while that tick runs. */
  lemma LateStartKeepsDelay(c: Config)
    requires c.serial
    ensures WaitsPlain(c, Run(c, Initial(false),
              [SetEnabled(true), TimerFires(0, false)] + [Start, TickSettles(1, false)]))
  {
    var p := Run(c, Initial(false), [SetEnabled(true), TimerFires(0, false)]);
    RunOfTwo(c, Initial(false), SetEnabled(true), TimerFires(0, false));
    RunOfConcat(c, Initial(false), [SetEnabled(true), TimerFires(0, false)], [Start, TickSettles(1, false)]);
    RunOfTwo(c, p, Start, TickSettles(1, false));
  }

  lemma RunOfThree(c: Config, p: Pump, e0: Event, e1: Event, e2: Event)
    ensures Run(c, p, [e0, e1, e2]) == Step(c, Step(c, Step(c, p, e0), e1), e2)
  {
    RunOfTwo(c, p, e0, e1);
    hide Step;
    assert [e0, e1, e2][..2] == [e0, e1];
  }

  lemma RunOfTwo(c: Config, p: Pump, e0: Event, e1: Event)
    ensures Run(c, p, [e0, e1]) == Step(c, Step(c, p, e0), e1)
  {
    hide Step;
    assert [e0, e1][..1] == [e0] && [e0][..0] == [];
    assert Run(c, p, []) == p;
    assert Run(c, p, [e0]) == Step(c, p, e0);
  }

  // ---------------------------------------------------------------- the pump as the program runs it

  class PumpTimer {
    const config: Config
    var enabled: bool
    var stopped: bool
    var started: bool
    var processing: bool
    var consecutiveErrors: nat
    var timer: Option<Timer>
    var inFlight: Option<nat>
    var armed: set<nat>
    var running: set<nat>
    var nextId: nat
    ghost var launched: nat
    ghost var outcomes: seq<bool>
    ghost var armedAfter: nat

    ghost function State(): Pump
      reads this
    {
      Pump(enabled, stopped, started, processing, consecutiveErrors, timer, inFlight, armed, running, nextId, launched, outcomes, armedAfter)
    }

    /** What every run of the pump keeps, read off the object. */
    ghost predicate Sound()
      reads this
    {
      DelayChosen(config, State()) && (config.serial ==> Single(State()))
    }

    lemma KeepsSound(e: Event)
      ensures Sound() ==> DelayChosen(config, Step(config, State(), e))
      ensures Sound() && config.serial ==> Single(Step(config, State(), e))
    {
      hide Step, Single, DelayChosen;
      if Sound() {
        StepChoosesDelay(config, State(), e);
        if config.serial {
          StepKeepsSingle(config, State(), e);
        }
      }
    }

    constructor (config: Config, enabled: bool)
      ensures State() == Initial(enabled) && this.config == config && Sound()
    {
      this.config, this.enabled := config, enabled;
      stopped, started, processing, consecutiveErrors := false, false, false, 0;
      timer, inFlight, armed, running, nextId := None, None, {}, {}, 0;
      launched, outcomes, armedAfter := 0, [], 0;
    }

    method Arm()
      modifies this`timer, this`armed, this`nextId, this`armedAfter
      ensures State() == ArmNext(config, old(State()))
    {
      if stopped || !enabled {
        return;
      }
      if timer.Some? {
        return;
      }
      timer := Some(Timer(nextId, NextDelay(config, consecutiveErrors)));
      armedAfter := |outcomes|;
      armed := armed + {nextId};
      nextId := nextId + 1;
    }

    method Clear()
      modifies this`timer, this`armed
      ensures State() == ClearTimer(old(State()))
    {
      if timer.Some? {
        armed := armed - {timer.value.id};
        timer := None;
      }
    }

    method BeginTick(throwsNow: bool)
      modifies this
      ensures State() == Tick(config, old(State()), throwsNow)
    {
      if stopped {
        return;
      }
      if config.serial && processing {
        return;
      }
      processing := true;
      launched := launched + 1;
      if throwsNow {
        consecutiveErrors := consecutiveErrors + 1;
        outcomes := outcomes + [false];
        processing := false;
      } else {
        running := running + {nextId};
      }
      inFlight := Some(nextId);
      nextId := nextId + 1;
    }

    method OnTickSettled(tick: nat, ok: bool)
      modifies this
      ensures State() == Step(config, old(State()), TickSettles(tick, ok))
      ensures old(Sound()) ==> Sound()
    {
      KeepsSound(TickSettles(tick, ok));
      if tick !in running {
        return;
      }
      running := running - {tick};
      consecutiveErrors := if ok then 0 else consecutiveErrors + 1;
      outcomes := outcomes + [ok];
      processing := false;
      if inFlight == Some(tick) {
        inFlight := None;
      }
      Arm();
    }

    method OnTimer(id: nat, throwsNow: bool)
      modifies this
      ensures State() == Step(config, old(State()), TimerFires(id, throwsNow))
      ensures old(Sound()) ==> Sound()
    {
      KeepsSound(TimerFires(id, throwsNow));
      if id !in armed {
        return;
      }
      armed := armed - {id};
      timer := None;
      BeginTick(throwsNow);
    }

    method StartPump()
      modifies this
      ensures State() == Step(config, old(State()), Start)
      ensures old(Sound()) ==> Sound()
    {
      KeepsSound(Start);
      if started || stopped {
        return;
      }
      started := true;
      Arm();
    }

    method StopPump()
      modifies this
      ensures State() == Step(config, old(State()), Stop)
      ensures old(Sound()) ==> Sound()
    {
      KeepsSound(Stop);
      stopped := true;
      Clear();
    }

    method SetEnabledTo(next: bool)
      modifies this
      ensures State() == Step(config, old(State()), SetEnabled(next))
      ensures old(Sound()) ==> Sound()
    {
      KeepsSound(SetEnabled(next));
      if stopped {
        return;
      }
      if enabled == next {
        return;
      }
      enabled := next;
      if next {
        Arm();
      } else {
        Clear();
      }
    }

    /** While a serial tick is in flight this only waits for it. */
    method RunTickNow(throwsNow: bool)
      modifies this
      ensures State() == Step(config, old(State()), RunNow(throwsNow))
      ensures old(Sound()) ==> Sound()
    {
      KeepsSound(RunNow(throwsNow));
      if stopped {
        return;
      }
      if processing && inFlight.Some? {
        return;
      }
      BeginTick(throwsNow);
    }
  }
}
