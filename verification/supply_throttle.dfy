/**
 The recompute throttle of the imprecise-supply hook: a snapshot arriving at
 wall-clock time `now` (milliseconds) refreshes the remembered supply only when
 there was no earlier refresh or more than 60 whole seconds have passed.
 The remembered value is the exact Wei numerator; its scaling to a float is not modelled.
 */
module SupplyThrottle {
  import opened Wrappers
  import opened EthSupply

  /** The refresh cooldown, in whole seconds. */
  const CooldownSeconds: int := 60

  /** The hook's state: the time of the last refresh and the supply it computed. */
  datatype State = State(lastRefresh: Option<int>, lastSupply: Option<int>)

  /** On mount: no refresh yet (the ref is `undefined`) and no supply. */
  const Initial: State := State(None, None)

  /** The state after one effect run, plus the decode error it raised, if any. */
  datatype StepResult = StepResult(state: State, raised: Option<DecodeError>)

  /** Whole seconds from `earlier` to `later` (milliseconds), truncated toward zero. */
  function DifferenceInSeconds(later: int, earlier: int): (r: int)
    ensures later >= earlier ==> 0 <= r && r * 1000 <= later - earlier < (r + 1) * 1000
    ensures later < earlier ==> r <= 0 && (r - 1) * 1000 < later - earlier <= r * 1000
  {
    var d := later - earlier;
    if d >= 0 then d / 1000 else -((-d) / 1000)
  }

  /**
   Whether a snapshot arriving at `now` may recompute the supply: no refresh yet,
   or more than 60 truncated whole seconds since it, which is at least 61 000 ms.
   */
  predicate Due(s: State, now: int)
    ensures Due(s, now) <==> s.lastRefresh.None? || now - s.lastRefresh.value >= 61_000
  {
    s.lastRefresh.None? || DifferenceInSeconds(now, s.lastRefresh.value) > CooldownSeconds
  }

  /**
   One run of the effect. An absent snapshot changes nothing. A due snapshot
   records `now` first and then decodes; a malformed one therefore leaves the
   new refresh time in place, keeps the old supply and raises the decode error.
   */
  function Step(s: State, snapshot: Option<EthSupplyWire>, now: int): (r: StepResult)
    ensures snapshot.None? ==> r == StepResult(s, None)
    ensures snapshot.Some? && !Due(s, now) ==> r == StepResult(s, None)
    ensures snapshot.Some? && Due(s, now) && WellFormed(snapshot.value) ==>
      r.raised.None? && r.state.lastRefresh == Some(now)
      && r.state.lastSupply == Some(SupplyWei(Decode(snapshot.value).value))
    ensures snapshot.Some? && Due(s, now) && !WellFormed(snapshot.value) ==>
      r.raised.Some? && r.state == State(Some(now), s.lastSupply)
  {
    match snapshot
    case None => StepResult(s, None)
    case Some(w) =>
      if Due(s, now) then
        match Decode(w)
        case Success(supply) => StepResult(State(Some(now), Some(SupplyWei(supply))), None)
        case Failure(e) => StepResult(State(Some(now), s.lastSupply), Some(e))
      else StepResult(s, None)
  }

  /** The first snapshot after mount always recomputes: a well-formed one sets the supply, a malformed one raises. */
  lemma FirstSnapshotRecomputes(w: EthSupplyWire, now: int)
    ensures Step(Initial, Some(w), now).state.lastRefresh == Some(now)
    ensures WellFormed(w) <==> Step(Initial, Some(w), now).state.lastSupply.Some?
    ensures !WellFormed(w) <==> Step(Initial, Some(w), now).raised.Some?
  {
  }

  /** A run of effect invocations: snapshot (or none) and arrival time, in order. */
  datatype Event = Event(snapshot: Option<EthSupplyWire>, now: int)

  /**
   Where a run leaves the hook. A decode error thrown inside the effect reaches
   the error boundary, which unmounts the hook: its ref and state are gone and
   the rest of the run is not seen by it.
   */
  datatype Hook = Mounted(state: State) | Unmounted(error: DecodeError)

  /** Effect runs one after another, stopping at the first raised decode error. */
  function Run(s: State, events: seq<Event>): Hook
    decreases |events|
  {
    if |events| == 0 then Mounted(s)
    else
      var r := Step(s, events[0].snapshot, events[0].now);
      match r.raised
      case Some(e) => Unmounted(e)
      case None => Run(r.state, events[1..])
  }

  /** Snapshots arriving less than 61 s after the last refresh leave the hook mounted with its state untouched, however many. */
  lemma {:induction false} RunWithinCooldown(s: State, events: seq<Event>)
    requires s.lastRefresh.Some?
    requires forall i :: 0 <= i < |events| ==> events[i].now - s.lastRefresh.value < 61_000
    ensures Run(s, events) == Mounted(s)
    decreases |events|
  {
    if |events| > 0 {
      assert Step(s, events[0].snapshot, events[0].now) == StepResult(s, None);
      assert forall i :: 0 <= i < |events[1..]| ==> events[1..][i] == events[i + 1];
      RunWithinCooldown(s, events[1..]);
    }
  }

  /**
   With clock readings in order, a run of well-formed snapshots keeps the hook
   mounted, and while it stays mounted a recorded refresh time is never forgotten
   and never moves backwards.
   */
  lemma {:induction false} RunKeepsRefresh(s: State, events: seq<Event>)
    requires s.lastRefresh.Some?
    requires forall i :: 0 <= i < |events| ==> events[i].now >= s.lastRefresh.value
    requires forall i, j :: 0 <= i < j < |events| ==> events[i].now <= events[j].now
    ensures (forall i :: 0 <= i < |events| && events[i].snapshot.Some? ==> WellFormed(events[i].snapshot.value)) ==>
      Run(s, events).Mounted?
    ensures Run(s, events).Mounted? ==>
      Run(s, events).state.lastRefresh.Some? && Run(s, events).state.lastRefresh.value >= s.lastRefresh.value
    decreases |events|
  {
    if |events| > 0 {
      var r := Step(s, events[0].snapshot, events[0].now);
      if r.raised.None? {
        var s' := r.state;
        assert s'.lastRefresh.Some? && s'.lastRefresh.value >= s.lastRefresh.value;
        assert forall i :: 0 <= i < |events[1..]| ==> events[1..][i] == events[i + 1];
        RunKeepsRefresh(s', events[1..]);
      }
    }
  }

  /** A malformed snapshot arriving when a recompute is due unmounts the hook, losing the refresh time and the supply. */
  lemma MalformedDueUnmounts(s: State, w: EthSupplyWire, now: int, rest: seq<Event>)
    requires Due(s, now) && !WellFormed(w)
    ensures Run(s, [Event(Some(w), now)] + rest).Unmounted?
  {
  }
}
