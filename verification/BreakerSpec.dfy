/** What the circuit breaker means, with no ring and no clearing loop: a state, a log of
    every outcome counted since the breaker last closed, and nothing that a reader of the
    state could disturb. The class in Breaker.dfy is proved to compute exactly this. */
module BreakerSpec {
  import opened Common
  import opened RollingWindow

  datatype State = Closed | HalfOpen | Open

  datatype Outcome = Success | Failure | Ignored

  datatype Permit = Permit(generation: nat, probe: bool, valid: bool)

  datatype Config = Config(failureRatio: real, minRequests: int, window: int, openDuration: int)
  {
    function WithDefaults(): (c: Config)
      ensures c.failureRatio > 0.0 && c.minRequests > 0 && c.window > 0 && c.openDuration > 0
      ensures c.failureRatio == (if failureRatio > 0.0 then failureRatio else 0.5)
      ensures c.minRequests == (if minRequests > 0 then minRequests else 10)
      ensures c.window == (if window > 0 then window else 60 * 1_000_000_000)
      ensures c.openDuration == (if openDuration > 0 then openDuration else 15 * 1_000_000_000)
    {
      Config(
        if failureRatio <= 0.0 then 0.5 else failureRatio,
        if minRequests <= 0 then 10 else minRequests,
        if window <= 0 then 60_000_000_000 else window,
        if openDuration <= 0 then 15_000_000_000 else openDuration)
    }

    /** A policy the breaker can run on: every bucket lasts at least one nanosecond. */
    predicate Usable() {
      failureRatio > 0.0 && minRequests > 0 && window >= WINDOW_BUCKETS && openDuration > 0
    }

    function BucketDur(): (d: int)
      requires Usable()
      ensures 0 < d && WINDOW_BUCKETS * d <= window < WINDOW_BUCKETS * (d + 1)
    {
      window / WINDOW_BUCKETS
    }
  }

  /** `log` holds the outcomes counted since `origin`, the instant the breaker was built
      or last closed. */
  datatype Ref = Ref(
    state: State, generation: nat, openedAt: int, probeInFlight: bool, rejected: nat,
    origin: int, log: seq<Sample>)

  datatype Snapshot = Snapshot(
    state: State, total: nat, failures: nat, failureRatio: real, rejected: nat, retryIn: int)

  datatype Transition = Transition(from: State, to: State, snapshot: Snapshot)

  datatype Verdict = Granted(permit: Permit) | Rejected(retryIn: int)

  function Init(now: int): Ref {
    Ref(Closed, 0, 0, false, 0, now, [])
  }

  function SlotOf(cfg: Config, r: Ref, now: int): int
    requires cfg.Usable()
  {
    Slot(r.origin, cfg.BucketDur(), now)
  }

  /** Outcomes (or failures) still in the window at `now`. */
  function Counted(cfg: Config, r: Ref, failedOnly: bool, now: int): nat
    requires cfg.Usable()
  {
    Count(r.log, failedOnly, SlotOf(cfg, r, now) - WINDOW_BUCKETS, SlotOf(cfg, r, now))
  }

  function Remaining(cfg: Config, r: Ref, now: int): int {
    cfg.openDuration - (now - r.openedAt)
  }

  function RetryIn(cfg: Config, r: Ref, now: int): int {
    if Remaining(cfg, r, now) < 0 then 0 else Remaining(cfg, r, now)
  }

  predicate Tripped(cfg: Config, total: nat, failures: nat) {
    cfg.minRequests > 0 && cfg.minRequests <= total && failures as real / total as real >= cfg.failureRatio
  }

  /** The state a call arriving at `now` is decided in. */
  function EffectiveState(cfg: Config, r: Ref, now: int): State {
    if r.state == Open && Remaining(cfg, r, now) <= 0 then HalfOpen else r.state
  }

  function SnapshotAt(cfg: Config, r: Ref, now: int): Snapshot
    requires cfg.Usable()
  {
    var total, failures := Counted(cfg, r, false, now), Counted(cfg, r, true, now);
    Snapshot(
      EffectiveState(cfg, r, now), total, failures,
      if total > 0 then failures as real / total as real else 0.0,
      r.rejected,
      if EffectiveState(cfg, r, now) == Open then Remaining(cfg, r, now) else 0)
  }

  /** Entering a state: a new generation, no probe, and a clean log if the state is closed. */
  function Enter(r: Ref, to: State, now: int): Ref {
    var r := r.(state := to, generation := r.generation + 1, probeInFlight := false);
    match to
    case Open => r.(openedAt := now)
    case HalfOpen => r
    case Closed => r.(origin := now, log := [])
  }

  function Announce(cfg: Config, from: Ref, to: Ref, now: int): Option<Transition>
    requires cfg.Usable()
  {
    if from.state == to.state then None
    else Some(Transition(from.state, to.state, SnapshotAt(cfg, to, now)))
  }

  /** The state as a call at `now` finds it, the open period having been measured. */
  function Wake(cfg: Config, r: Ref, now: int): Ref {
    if EffectiveState(cfg, r, now) == r.state then r else Enter(r, HalfOpen, now)
  }

  function Allow(cfg: Config, r: Ref, now: int): (Ref, Verdict) {
    var r := Wake(cfg, r, now);
    if r.state == Closed then
      (r, Granted(Permit(r.generation, false, true)))
    else if r.state == HalfOpen && !r.probeInFlight then
      (r.(probeInFlight := true), Granted(Permit(r.generation, true, true)))
    else
      (r.(rejected := r.rejected + 1), Rejected(RetryIn(cfg, r, now)))
  }

  function Observe(cfg: Config, r: Ref, outcome: Outcome, now: int): Ref
    requires cfg.Usable()
  {
    r.(log := r.log + [Sample(now, SlotOf(cfg, r, now), outcome == Failure)])
  }

  /** A closed breaker opens when its window says so. */
  function Judge(cfg: Config, r: Ref, now: int): Ref
    requires cfg.Usable()
  {
    if r.state == Closed && Tripped(cfg, Counted(cfg, r, false, now), Counted(cfg, r, true, now))
    then Enter(r, Open, now) else r
  }

  function Record(cfg: Config, r: Ref, permit: Permit, outcome: Outcome, now: int): Ref
    requires cfg.Usable()
  {
    if !permit.valid || permit.generation != r.generation then r
    else
      var r := if permit.probe then r.(probeInFlight := false) else r;
      if outcome == Ignored then r
      else if r.state == HalfOpen then
        Enter(r, if outcome == Failure then Open else Closed, now)
      else
        Judge(cfg, Observe(cfg, r, outcome, now), now)
  }
}
