/** The circuit breaker of one upstream, as the object its callers share. Every method is
    one critical section; `now` is the reading its clock gave inside that section. */
module BreakerClass {
  import opened Common
  import opened RollingWindow
  import Spec = BreakerSpec
  import opened BreakerSpec

  class Breaker {
    const cfg: Config
    const bucketDur: int
    const buckets: array<Bucket>

    var state: State
    var generation: nat
    var openedAt: int
    var probeInFlight: bool
    var bucketIndex: int
    var bucketStart: int
    var rejected: nat

    // The outcomes the ring stands for, and the slot its head is on.
    ghost var origin: int
    ghost var log: seq<Sample>
    ghost var slot: int

    ghost predicate Valid()
      reads this, buckets
    {
      && cfg.Usable()
      && bucketDur == cfg.BucketDur()
      && buckets.Length == WINDOW_BUCKETS
      && 0 <= slot
      && bucketStart == origin + slot * bucketDur
      && Represents(buckets[..], bucketIndex, slot, log)
    }

    /** The breaker's meaning. The ring does not appear in it. */
    ghost function Value(): Ref
      reads this
    {
      Ref(state, generation, openedAt, probeInFlight, rejected, origin, log)
    }

    /** The window has been rolled forward to the slot of `now`. */
    ghost predicate RolledTo(now: int)
      reads this
    {
      bucketDur > 0 && slot == Slot(origin, bucketDur, now) && bucketStart <= now
    }

    /** Any policy is accepted. A window shorter than ten nanoseconds leaves buckets of no
        length, on which the first roll would divide by zero; every other one can be run. */
    constructor (cfg: Config, now: int)
      ensures this.cfg == cfg.WithDefaults() && Value() == Init(now) && bucketStart == now && fresh(buckets)
      ensures bucketDur == cfg.WithDefaults().window / WINDOW_BUCKETS
      ensures if cfg.WithDefaults().window < WINDOW_BUCKETS then bucketDur == 0 else Valid()
    {
      this.cfg := cfg.WithDefaults();
      bucketDur := cfg.WithDefaults().window / WINDOW_BUCKETS;
      buckets := new Bucket[WINDOW_BUCKETS](_ => Bucket(0, 0));
      state, generation, openedAt, probeInFlight := Closed, 0, 0, false;
      bucketIndex, bucketStart, rejected := 0, now, 0;
      origin, log, slot := now, [], 0;
      new;
      assert 0 * bucketDur == 0;
    }

    method AdvanceLocked(now: int)
      requires Valid()
      modifies this`bucketIndex, this`bucketStart, this`slot, buckets
      ensures Valid()
      ensures old(bucketStart) <= now ==> RolledTo(now)
    {
      var elapsed := now - bucketStart;
      if bucketStart <= now {
        SlotAfter(origin, bucketDur, slot, now);
      }
      if elapsed < bucketDur {
        return;
      }
      var steps := elapsed / bucketDur;
      assert (slot + steps) * bucketDur == slot * bucketDur + steps * bucketDur;
      RollLocked(steps);
      bucketStart := bucketStart + steps * bucketDur;
    }

    /** Turns the ring by `steps` slots, clearing what has aged out. */
    method RollLocked(steps: nat)
      requires buckets.Length == WINDOW_BUCKETS && Represents(buckets[..], bucketIndex, slot, log)
      modifies this`bucketIndex, this`slot, buckets
      ensures slot == old(slot) + steps
      ensures Represents(buckets[..], bucketIndex, slot, log)
    {
      if steps >= WINDOW_BUCKETS {
        WipeKeeps(log, slot, slot + steps);
        forall p | 0 <= p < WINDOW_BUCKETS { buckets[p] := Bucket(0, 0); }
        bucketIndex := 0;
        slot := slot + steps;
        assert buckets[..] == seq(WINDOW_BUCKETS, _ => Bucket(0, 0));
      } else {
        for i := 0 to steps
          invariant slot == old(slot) + i
          invariant Represents(buckets[..], bucketIndex, slot, log)
        {
          TurnKeeps(buckets[..], bucketIndex, slot, log);
          ghost var before := buckets[..];
          bucketIndex := (bucketIndex + 1) % WINDOW_BUCKETS;
          buckets[bucketIndex] := Bucket(0, 0);
          slot := slot + 1;
          assert buckets[..] == before[bucketIndex := Bucket(0, 0)];
        }
      }
    }

    method CountsLocked() returns (total: nat, failures: nat)
      requires Valid()
      ensures total == Count(log, false, slot - WINDOW_BUCKETS, slot)
      ensures failures == Count(log, true, slot - WINDOW_BUCKETS, slot)
    {
      total, failures := 0, 0;
      FirstCellsEnds(log, false, bucketIndex, slot);
      FirstCellsEnds(log, true, bucketIndex, slot);
      for p := 0 to WINDOW_BUCKETS
        invariant total == FirstCells(log, false, bucketIndex, slot, p)
        invariant failures == FirstCells(log, true, bucketIndex, slot, p)
      {
        FirstCellsStep(log, false, bucketIndex, slot, p);
        FirstCellsStep(log, true, bucketIndex, slot, p);
        assert Holds(buckets[..][p], log, HeldSlot(bucketIndex, slot, p));
        total, failures := total + buckets[p].total, failures + buckets[p].failures;
      }
    }

    method TrippedLocked() returns (tripped: bool)
      requires Valid()
      ensures tripped == Tripped(cfg, Count(log, false, slot - WINDOW_BUCKETS, slot),
                                 Count(log, true, slot - WINDOW_BUCKETS, slot))
    {
      var total, failures := CountsLocked();
      if total < cfg.minRequests {
        return false;
      }
      return failures as real / total as real >= cfg.failureRatio;
    }

    method SnapshotLocked(now: int) returns (s: Spec.Snapshot)
      requires Valid() && RolledTo(now)
      ensures s == SnapshotAt(cfg, Value(), now)
    {
      var total, failures := CountsLocked();
      var ratio := 0.0;
      if total > 0 {
        ratio := failures as real / total as real;
      }
      var shown, retryIn := state, 0;
      if shown == Open {
        var remaining := cfg.openDuration - (now - openedAt);
        if remaining > 0 {
          retryIn := remaining;
        } else {
          shown := HalfOpen;
        }
      }
      s := Spec.Snapshot.Snapshot(shown, total, failures, ratio, rejected, retryIn);
    }

    method SetStateLocked(to: State, now: int) returns (event: Option<Transition>)
      requires Valid() && RolledTo(now)
      modifies this, buckets
      ensures Valid() && RolledTo(now)
      ensures Value() == if to == old(state) then old(Value()) else Enter(old(Value()), to, now)
      ensures event == Announce(cfg, old(Value()), Value(), now)
    {
      var from := state;
      if from == to {
        return None;
      }
      state := to;
      generation := generation + 1;
      probeInFlight := false;
      match to {
        case Open =>
          openedAt := now;
        case Closed =>
          forall p | 0 <= p < WINDOW_BUCKETS { buckets[p] := Bucket(0, 0); }
          bucketIndex := 0;
          bucketStart := now;
          origin, log, slot := now, [], 0;
          assert 0 * bucketDur == 0;
        case HalfOpen =>
      }
      var snapshot := SnapshotLocked(now);
      event := Some(Transition(from, to, snapshot));
    }

    method OpenErrorLocked(now: int) returns (v: Verdict)
      ensures v == Rejected(Spec.RetryIn(cfg, Value(), now))
    {
      var retryIn := cfg.openDuration - (now - openedAt);
      if retryIn < 0 {
        retryIn := 0;
      }
      v := Rejected(retryIn);
    }

    /** Asks permission for one call. */
    method Allow(now: int) returns (verdict: Verdict, event: Option<Transition>)
      requires Valid() && bucketStart <= now
      modifies this, buckets
      ensures Valid() && bucketStart <= now
      ensures (Value(), verdict) == Spec.Allow(cfg, old(Value()), now)
      ensures event == Announce(cfg, old(Value()), Wake(cfg, old(Value()), now), now)
      ensures if state == old(state) then event == None
              else event.Some? && event.value.from == old(state) && event.value.to == state
    {
      AdvanceLocked(now);
      event := None;
      if state == Open && now - openedAt >= cfg.openDuration {
        event := SetStateLocked(HalfOpen, now);
      }
      match state {
        case Open =>
          rejected := rejected + 1;
          verdict := OpenErrorLocked(now);
        case HalfOpen =>
          if probeInFlight {
            rejected := rejected + 1;
            verdict := OpenErrorLocked(now);
          } else {
            probeInFlight := true;
            verdict := Granted(Permit(generation, true, true));
          }
        case Closed =>
          verdict := Granted(Permit(generation, false, true));
      }
    }

    /** Reports how a permitted call ended. */
    method Record(permit: Permit, outcome: Outcome, now: int) returns (event: Option<Transition>)
      requires Valid() && bucketStart <= now
      modifies this, buckets
      ensures Valid() && bucketStart <= now
      ensures Value() == Spec.Record(cfg, old(Value()), permit, outcome, now)
      ensures if state == old(state) then event == None
              else event == Some(Transition(old(state), state, SnapshotAt(cfg, Value(), now)))
    {
      if !permit.valid || permit.generation != generation {
        return None;
      }
      if permit.probe {
        probeInFlight := false;
      }
      if outcome == Ignored {
        return None;
      }
      AdvanceLocked(now);
      if state == HalfOpen {
        if outcome == Failure {
          event := SetStateLocked(Open, now);
        } else {
          event := SetStateLocked(Closed, now);
        }
        return;
      }
      CountLocked(outcome, now);
      event := JudgeLocked(now);
    }

    method JudgeLocked(now: int) returns (event: Option<Transition>)
      requires Valid() && RolledTo(now)
      modifies this, buckets
      ensures Valid() && bucketStart <= now
      ensures Value() == Judge(cfg, old(Value()), now)
      ensures event == Announce(cfg, old(Value()), Value(), now)
    {
      event := None;
      if state == Closed {
        var tripped := TrippedLocked();
        if tripped {
          event := SetStateLocked(Open, now);
        }
      }
    }

    /** Counts one outcome in the head bucket. */
    method CountLocked(outcome: Outcome, now: int)
      requires Valid() && RolledTo(now)
      modifies this`log, buckets
      ensures Valid()
      ensures Value() == Observe(cfg, old(Value()), outcome, now)
    {
      ghost var sample := Sample(now, slot, outcome == Failure);
      CountKeeps(buckets[..], bucketIndex, slot, log, sample);
      ghost var before := buckets[..];
      var b := buckets[bucketIndex];
      buckets[bucketIndex] := b.(total := b.total + 1);
      if outcome == Failure {
        buckets[bucketIndex] := buckets[bucketIndex].(failures := b.failures + 1);
      }
      log := log + [sample];
      assert buckets[..] == before[bucketIndex := buckets[bucketIndex]];
    }

    /** Reports the state. The ring may be rolled forward, the breaker's meaning may not change. */
    method Snapshot(now: int) returns (s: Spec.Snapshot)
      requires Valid() && bucketStart <= now
      modifies this`bucketIndex, this`bucketStart, this`slot, buckets
      ensures Valid() && bucketStart <= now
      ensures Value() == old(Value())
      ensures s == SnapshotAt(cfg, Value(), now)
    {
      AdvanceLocked(now);
      s := SnapshotLocked(now);
    }
  }
}
