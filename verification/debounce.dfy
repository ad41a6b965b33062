/**
 * The client's `debounce(func, wait, immediate)` helper as a state machine
 * over an abstract clock in milliseconds. The closure's one `timeout` slot
 * is the state; calling the debounced function and a timer expiring are
 * the transitions; "the wrapped function runs" is their output.
 */
module Debounce {
  import opened Wrappers

  /** The closure's `timeout` variable: the deadline of the armed timer, or `None` while it is null or undefined. */
  datatype State = State(pending: Option<int>)

  /** A fresh debouncer: nothing armed. */
  const Unarmed: State := State(None)

  /** The outcome of a call to the debounced function. */
  datatype Invoked = Invoked(state: State, runNow: bool)

  /** The outcome of a clock reading. */
  datatype Expired = Expired(state: State, run: bool)

  /**
   * `executedFunction()` at time `now`: any armed timer is cleared and
   * exactly one new one is armed for `now + wait`; the wrapped function
   * runs at once only in `immediate` mode with nothing armed before.
   */
  function Invoke(s: State, now: int, wait: nat, immediate: bool): (r: Invoked)
    ensures r.state.pending == Some(now + wait)
    ensures !immediate ==> !r.runNow
    ensures immediate ==> (r.runNow <==> s.pending.None?)
  {
    var callNow := immediate && s.pending.None?;
    Invoked(State(Some(now + wait)), callNow)
  }

  /**
   * The clock reads `now`: a timer whose deadline has passed fires `later`,
   * which empties the slot and, outside `immediate` mode, runs the wrapped
   * function; otherwise nothing happens.
   */
  function Expire(s: State, now: int, immediate: bool): (r: Expired)
    ensures r.run ==> !immediate && s.pending.Some? && s.pending.value <= now
    ensures s.pending.Some? && s.pending.value <= now ==> r.state == Unarmed && r.run == !immediate
    ensures !(s.pending.Some? && s.pending.value <= now) ==> r.state == s
  {
    match s.pending
    case Some(deadline) =>
      if deadline <= now then Expired(Unarmed, !immediate) else Expired(s, false)
    case None => Expired(s, false)
  }

  /** Something that happens to a debouncer: a call to it, or the clock reaching a time. */
  datatype Event = Call(at: int) | Clock(at: int)

  /**
   * Whether event `ev` comes after the timer due at `deadline` has fired.
   * A timer callback runs in a task of its own, never in the middle of a
   * call: a clock reading at or after the deadline sees it fired, but a call
   * at the deadline itself comes first and clears it, so a call sees only
   * deadlines strictly before it fired.
   */
  predicate Reaches(ev: Event, deadline: int) {
    if ev.Call? then deadline < ev.at else deadline <= ev.at
  }

  /**
   * One event. A clock reading fires a timer that is due; a call first
   * lets a timer that fell due strictly before it fire, then re-arms.
   */
  function StepEvent(s: State, ev: Event, wait: nat, immediate: bool): (r: (State, bool))
    ensures r.1 && !immediate ==> s.pending.Some? && Reaches(ev, s.pending.value)
    ensures ev.Call? ==> r.0.pending == Some(ev.at + wait)
    ensures ev.Clock? && s.pending.Some? && Reaches(ev, s.pending.value) ==> r == (Unarmed, !immediate)
    ensures ev.Clock? && !(s.pending.Some? && Reaches(ev, s.pending.value)) ==> r == (s, false)
  {
    match ev
    case Clock(t) =>
      var e := Expire(s, t, immediate);
      (e.state, e.run)
    case Call(t) =>
      var e := Expire(s, t - 1, immediate);
      var i := Invoke(e.state, t, wait, immediate);
      (i.state, e.run || i.runNow)
  }

  /** A debouncer's final state after a sequence of events, and for each event whether the wrapped function ran. */
  datatype Trace = Trace(state: State, runs: seq<bool>)

  /** Feed `evs` to a fresh debouncer, in order. */
  function Run(evs: seq<Event>, wait: nat, immediate: bool): (t: Trace)
    ensures |t.runs| == |evs|
    decreases |evs|
  {
    if |evs| == 0 then Trace(Unarmed, [])
    else
      var prior := Run(evs[..|evs| - 1], wait, immediate);
      var step := StepEvent(prior.state, evs[|evs| - 1], wait, immediate);
      Trace(step.0, prior.runs + [step.1])
  }

  /** The index of the last call among `evs`. */
  function LastCall(evs: seq<Event>): (r: Option<nat>)
    ensures r.Some? ==> r.value < |evs| && evs[r.value].Call?
    ensures r.Some? ==> forall k :: r.value < k < |evs| ==> evs[k].Clock?
    ensures r.None? ==> forall k :: 0 <= k < |evs| ==> evs[k].Clock?
    decreases |evs|
  {
    if |evs| == 0 then None
    else if evs[|evs| - 1].Call? then Some(|evs| - 1)
    else LastCall(evs[..|evs| - 1])
  }

  /**
   * The reference meaning of a debouncer's slot after `evs`: the deadline
   * `wait` after the last call, as long as no event since that call has
   * reached it; nothing otherwise.
   */
  function Armed(evs: seq<Event>, wait: nat): Option<int> {
    match LastCall(evs)
    case None => None
    case Some(j) =>
      var deadline := evs[j].at + wait;
      if forall k :: j < k < |evs| ==> evs[k].at < deadline then Some(deadline) else None
  }

  /** Feeding a sequence is feeding its prefix first: earlier outputs do not depend on later events. */
  lemma {:induction false} RunPrefix(evs: seq<Event>, k: nat, wait: nat, immediate: bool)
    requires k <= |evs|
    ensures Run(evs, wait, immediate).runs[..k] == Run(evs[..k], wait, immediate).runs
    decreases |evs|
  {
    if k < |evs| {
      var init := evs[..|evs| - 1];
      RunPrefix(init, k, wait, immediate);
      assert init[..k] == evs[..k];
    } else {
      assert evs[..k] == evs;
    }
  }

  /**
   * Cancel and re-arm: whatever the events, a debouncer holds at most one
   * timer, and it is the one armed by the last call, until the clock
   * reaches its deadline.
   */
  lemma {:induction false} RunMatchesArmed(evs: seq<Event>, wait: nat, immediate: bool)
    ensures Run(evs, wait, immediate).state.pending == Armed(evs, wait)
    decreases |evs|
  {
    if |evs| > 0 {
      var init := evs[..|evs| - 1];
      RunMatchesArmed(init, wait, immediate);
      var ev := evs[|evs| - 1];
      if ev.Clock? {
        assert LastCall(evs) == LastCall(init);
        match LastCall(init)
        case None =>
        case Some(j) =>
          assert forall k :: j < k < |init| ==> init[k] == evs[k];
      }
    }
  }

  /**
   * Outside `immediate` mode the wrapped function runs exactly when the
   * clock (or a later call) reaches the deadline of a timer that the last
   * call armed and that has not fired yet; never because of the call itself.
   */
  lemma RunsOnlyOnExpiry(evs: seq<Event>, wait: nat, k: nat)
    requires k < |evs|
    ensures Run(evs, wait, false).runs[k] <==> Armed(evs[..k], wait).Some? && Reaches(evs[k], Armed(evs[..k], wait).value)
  {
    RunPrefix(evs, k + 1, wait, false);
    var prefix := evs[..k + 1];
    assert prefix[..k] == evs[..k];
    assert Run(evs, wait, false).runs[k] == Run(prefix, wait, false).runs[k];
    RunMatchesArmed(evs[..k], wait, false);
  }

  /**
   * A call at 0 ms and another at 150 ms with a 200 ms window: the clock
   * at 200 ms runs nothing, because the second call re-armed the timer;
   * the clock at 350 ms runs the wrapped function, once.
   */
  lemma RearmPostponesRun()
    ensures Run([Call(0), Call(150), Clock(200), Clock(350)], 200, false).runs == [false, false, false, true]
  {
    var e1 := [Call(0)];
    var e2 := e1 + [Call(150)];
    var e3 := e2 + [Clock(200)];
    var e4 := e3 + [Clock(350)];
    assert e1[..0] == [];
    assert Run(e1, 200, false) == Trace(State(Some(200)), [false]);
    assert e2[..1] == e1;
    assert Run(e2, 200, false) == Trace(State(Some(350)), [false, false]);
    assert e3[..2] == e2;
    assert Run(e3, 200, false) == Trace(State(Some(350)), [false, false, false]);
    assert e4[..3] == e3;
    assert e4 == [Call(0), Call(150), Clock(200), Clock(350)];
  }

  /**
   * Two calls in the same instant with no window: the second clears the
   * timer the first armed before it can fire, so the wrapped function runs
   * once, at the next clock reading.
   */
  lemma SameInstantCallsRunOnce()
    ensures Run([Call(0), Call(0), Clock(1)], 0, false).runs == [false, false, true]
  {
    var e1 := [Call(0)];
    var e2 := e1 + [Call(0)];
    var e3 := e2 + [Clock(1)];
    assert e1[..0] == [];
    assert Run(e1, 0, false) == Trace(State(Some(0)), [false]);
    assert e2[..1] == e1;
    assert Run(e2, 0, false) == Trace(State(Some(0)), [false, false]);
    assert e3[..2] == e2;
    assert e3 == [Call(0), Call(0), Clock(1)];
  }
}
