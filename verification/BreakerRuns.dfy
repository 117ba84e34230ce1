/** Whole runs of one breaker: any interleaving of callers asking for permits, reporting
    outcomes and reading snapshots, under a clock that never steps back. */
module BreakerRuns {
  import opened RollingWindow
  import opened BreakerSpec

  datatype Call =
    | AllowCall(at: int)
    | RecordCall(permit: Permit, outcome: Outcome, at: int)
    | SnapshotCall(at: int)

  /** The breaker together with the permits its callers still hold and have not reported. */
  datatype World = World(ref: Ref, outstanding: multiset<Permit>, asked: nat, granted: nat, clock: int)

  function Start(now: int): World {
    World(Init(now), multiset{}, 0, 0, now)
  }

  /** A caller reports only a permit it holds, and the clock does not step back. */
  predicate Possible(w: World, c: Call) {
    w.clock <= c.at && (c.RecordCall? ==> c.permit in w.outstanding)
  }

  function Step(cfg: Config, w: World, c: Call): World
    requires cfg.Usable()
  {
    var w := w.(clock := c.at);
    match c
    case AllowCall(at) =>
      var (ref, verdict) := Allow(cfg, w.ref, at);
      if verdict.Granted? then
        w.(ref := ref, asked := w.asked + 1, granted := w.granted + 1,
           outstanding := w.outstanding + multiset{verdict.permit})
      else
        w.(ref := ref, asked := w.asked + 1)
    case RecordCall(permit, outcome, at) =>
      w.(ref := Record(cfg, w.ref, permit, outcome, at), outstanding := w.outstanding - multiset{permit})
    case SnapshotCall(_) => w
  }

  /** The world after a run that begins with a new breaker at `t0`. */
  function After(cfg: Config, t0: int, calls: seq<Call>): World
    requires cfg.Usable()
  {
    if calls == [] then Start(t0)
    else Step(cfg, After(cfg, t0, calls[..|calls| - 1]), calls[|calls| - 1])
  }

  ghost predicate Run(cfg: Config, t0: int, calls: seq<Call>)
    requires cfg.Usable()
  {
    calls != [] ==>
      var before := calls[..|calls| - 1];
      Run(cfg, t0, before) && Possible(After(cfg, t0, before), calls[|calls| - 1])
  }

  // ---- Permit discipline ----

  function Live(w: World, probe: bool): nat {
    w.outstanding[Permit(w.ref.generation, probe, true)]
  }

  /** Which permits of the current period can be in callers' hands, state by state. */
  ghost predicate Disciplined(w: World) {
    && (forall p :: p in w.outstanding ==> p.valid && p.generation <= w.ref.generation)
    && (w.ref.state == Open ==> Live(w, false) == 0 && Live(w, true) == 0)
    && (w.ref.state == Closed ==> Live(w, true) == 0)
    && (w.ref.state == HalfOpen ==> Live(w, false) == 0 && Live(w, true) == if w.ref.probeInFlight then 1 else 0)
    && (w.ref.state != HalfOpen ==> !w.ref.probeInFlight)
    && w.granted + w.ref.rejected == w.asked
    && w.ref.origin <= w.clock
  }

  /** What a request can change: the rejection counter, the probe slot, and an open period
      that has run out. */
  lemma AllowShape(cfg: Config, r: Ref, at: int)
    ensures var (s, verdict) := Allow(cfg, r, at);
            && s.origin == r.origin
            && (s.state == Closed ==> verdict.Granted?)
            && (s.state == Open ==> verdict.Rejected?)
            && (s.state == HalfOpen ==> s.probeInFlight)
            && (s.state != HalfOpen ==> s.probeInFlight == r.probeInFlight)
            && (s.state == r.state == HalfOpen ==> (verdict.Granted? <==> !r.probeInFlight))
            && (s.state == r.state ==> s.generation == r.generation)
            && (s.state != r.state ==> s.state == HalfOpen && s.generation == r.generation + 1 && verdict.Granted?)
            && (verdict.Granted? ==> verdict.permit == Permit(s.generation, s.state == HalfOpen, true))
            && s.rejected == r.rejected + (if verdict.Granted? then 0 else 1)
  {}

  lemma AllowKeepsDiscipline(cfg: Config, w: World, at: int)
    requires cfg.Usable() && Disciplined(w) && w.clock <= at
    ensures Disciplined(Step(cfg, w, AllowCall(at)))
  {
    AllowShape(cfg, w.ref, at);
    hide Allow;
    assert forall p :: p in w.outstanding ==> p.generation != w.ref.generation + 1;
  }

  /** What a report can change: nothing outside the current period, and a change of state
      always opens a new period with no probe in flight. */
  lemma RecordShape(cfg: Config, r: Ref, permit: Permit, outcome: Outcome, at: int)
    requires cfg.Usable()
    ensures var s := Record(cfg, r, permit, outcome, at);
            && s.rejected == r.rejected
            && (permit.generation != r.generation ==> s == r)
            && (s.state == r.state ==> s.generation == r.generation && s.origin == r.origin)
            && (s.state == r.state && permit.generation == r.generation && permit.valid && permit.probe ==> !s.probeInFlight)
            && (s.state == r.state && !permit.probe ==> s.probeInFlight == r.probeInFlight)
            && (s.state != r.state ==> s.generation == r.generation + 1 && !s.probeInFlight)
            && (s.origin == r.origin || s.origin == at)
  {}

  lemma RecordKeepsDiscipline(cfg: Config, w: World, permit: Permit, outcome: Outcome, at: int)
    requires cfg.Usable() && Disciplined(w) && w.clock <= at && permit in w.outstanding
    ensures Disciplined(Step(cfg, w, RecordCall(permit, outcome, at)))
  {
    RecordShape(cfg, w.ref, permit, outcome, at);
    hide Record;
    assert forall p :: p in w.outstanding ==> p.generation != w.ref.generation + 1;
    assert forall p :: p in w.outstanding - multiset{permit} ==> p in w.outstanding;
  }

  lemma StepKeepsDiscipline(cfg: Config, w: World, c: Call)
    requires cfg.Usable() && Disciplined(w) && Possible(w, c)
    ensures Disciplined(Step(cfg, w, c))
  {
    match c
    case AllowCall(at) => AllowKeepsDiscipline(cfg, w, at);
    case RecordCall(permit, outcome, at) => RecordKeepsDiscipline(cfg, w, permit, outcome, at);
    case SnapshotCall(_) =>
  }

  /** In every run the outstanding permits of the current period are: none while open, only
      ordinary ones while closed, and while half-open exactly the one probe in flight. */
  lemma {:induction false} EveryRunIsDisciplined(cfg: Config, t0: int, calls: seq<Call>)
    requires cfg.Usable() && Run(cfg, t0, calls)
    ensures Disciplined(After(cfg, t0, calls))
  {
    if calls != [] {
      EveryRunIsDisciplined(cfg, t0, calls[..|calls| - 1]);
      StepKeepsDiscipline(cfg, After(cfg, t0, calls[..|calls| - 1]), calls[|calls| - 1]);
    }
  }

  /** A probe whose call was abandoned gives its slot back: the very next call probes again. */
  lemma ProbeNeverStrands(cfg: Config, w: World, at: int, later: int)
    requires cfg.Usable() && Disciplined(w) && w.ref.state == HalfOpen && w.ref.probeInFlight
    ensures var probe := Permit(w.ref.generation, true, true);
            && probe in w.outstanding
            && Allow(cfg, Record(cfg, w.ref, probe, Ignored, at), later).1 == Granted(probe)
  {
    assert Live(w, true) == 1;
  }

  // ---- Transitions ----

  /** The only moves: closed to open and half-open to open or closed at a report, open to
      half-open at a request made once the open period has run out. */
  lemma OnlyLegalMoves(cfg: Config, w: World, c: Call)
    requires cfg.Usable() && Disciplined(w) && Possible(w, c)
    requires Step(cfg, w, c).ref.state != w.ref.state
    ensures var to := Step(cfg, w, c).ref.state;
            match w.ref.state
            case Closed => to == Open && c.RecordCall? && c.outcome != Ignored
            case Open => to == HalfOpen && c.AllowCall? && c.at - w.ref.openedAt >= cfg.openDuration
            case HalfOpen =>
              && c.RecordCall? && c.permit == Permit(w.ref.generation, true, true)
              && w.ref.probeInFlight
              && to == if c.outcome == Failure then Open else Closed
    ensures Step(cfg, w, c).ref.state == Open ==> Step(cfg, w, c).ref.openedAt == c.at
  {
    if c.RecordCall? {
      RecordShape(cfg, w.ref, c.permit, c.outcome, c.at);
      assert c.permit == Permit(w.ref.generation, c.permit.probe, true);
      assert Live(w, c.permit.probe) > 0;
    }
  }

  function Requests(calls: seq<Call>): nat {
    if calls == [] then 0
    else Requests(calls[..|calls| - 1]) + if calls[|calls| - 1].AllowCall? then 1 else 0
  }

  lemma OpenStep(cfg: Config, w: World, c: Call)
    requires cfg.Usable() && Disciplined(w) && Possible(w, c)
    requires w.ref.state == Open && (c.AllowCall? ==> c.at < w.ref.openedAt + cfg.openDuration)
    ensures var v := Step(cfg, w, c);
            v.ref == w.ref.(rejected := w.ref.rejected + Requests([c])) && v.granted == w.granted
  {
    if c.RecordCall? {
      var live := Permit(w.ref.generation, c.permit.probe, true);
      assert w.outstanding[live] == Live(w, c.permit.probe) == 0;
      assert c.permit != live && c.permit.valid;
    }
  }

  /** Whichever instant from `due` on a request comes at, it is granted as the probe. */
  ghost predicate ProbesNext(cfg: Config, r: Ref, due: int, generation: nat) {
    forall at :: at >= due ==> Allow(cfg, r, at).1 == Granted(Permit(generation, true, true))
  }

  /** From the moment the breaker opens until the first request after its open period nothing but
      the rejection counter moves: every request within the period is refused, and no report of
      any outstanding permit has an effect, however late. That first request is granted, as the
      probe. */
  lemma {:induction false} OpenPeriodIsAbsolute(cfg: Config, t0: int, calls: seq<Call>, more: seq<Call>)
    requires cfg.Usable() && Run(cfg, t0, calls + more)
    requires After(cfg, t0, calls).ref.state == Open
    requires forall i :: 0 <= i < |more| && more[i].AllowCall? ==>
               more[i].at < After(cfg, t0, calls).ref.openedAt + cfg.openDuration
    ensures var w, v := After(cfg, t0, calls), After(cfg, t0, calls + more);
            && v.ref == w.ref.(rejected := w.ref.rejected + Requests(more))
            && v.granted == w.granted
            && ProbesNext(cfg, v.ref, w.ref.openedAt + cfg.openDuration, w.ref.generation + 1)
  {
    hide Step;
    hide Disciplined;
    if more == [] {
      assert calls + more == calls;
    } else {
      var init, last := more[..|more| - 1], more[|more| - 1];
      var all := calls + more;
      assert all[..|all| - 1] == calls + init && all[|all| - 1] == last;
      OpenPeriodIsAbsolute(cfg, t0, calls, init);
      EveryRunIsDisciplined(cfg, t0, calls + init);
      OpenStep(cfg, After(cfg, t0, calls + init), last);
    }
  }

  // ---- Snapshots ----

  function WithoutSnapshots(calls: seq<Call>): seq<Call> {
    if calls == [] then []
    else
      WithoutSnapshots(calls[..|calls| - 1]) +
      if calls[|calls| - 1].SnapshotCall? then [] else [calls[|calls| - 1]]
  }

  /** The answers given to the requests of a run, in order. */
  function Answers(cfg: Config, t0: int, calls: seq<Call>): seq<Verdict>
    requires cfg.Usable()
  {
    if calls == [] then []
    else
      var before, last := calls[..|calls| - 1], calls[|calls| - 1];
      Answers(cfg, t0, before) +
      if last.AllowCall? then [Allow(cfg, After(cfg, t0, before).ref, last.at).1] else []
  }

  /** Reading the state, at any instants and however often, changes no later answer and no
      later state. */
  lemma {:induction false} SnapshotsAreUnobservable(cfg: Config, t0: int, calls: seq<Call>)
    requires cfg.Usable()
    ensures var quiet := WithoutSnapshots(calls);
            && Answers(cfg, t0, calls) == Answers(cfg, t0, quiet)
            && After(cfg, t0, calls).(clock := 0) == After(cfg, t0, quiet).(clock := 0)
  {
    if calls != [] {
      var before, last := calls[..|calls| - 1], calls[|calls| - 1];
      SnapshotsAreUnobservable(cfg, t0, before);
      var quiet := WithoutSnapshots(before);
      if last.SnapshotCall? {
        assert quiet + [] == quiet;
      } else {
        assert (quiet + [last])[..|quiet|] == quiet;
      }
    }
  }

  /** A snapshot names the state in which a request at that instant would be decided, and the
      wait it shows is the wait that request would be told. */
  lemma SnapshotTellsWhatAllowDoes(cfg: Config, r: Ref, now: int)
    requires cfg.Usable()
    ensures var s := SnapshotAt(cfg, r, now);
            var (after, verdict) := Allow(cfg, r, now);
            && s.state == after.state
            && (s.state == Closed <==> verdict.Granted? && !verdict.permit.probe)
            && (s.state == Open ==> verdict == Rejected(s.retryIn) && s.retryIn > 0)
            && (s.state == HalfOpen ==>
                  (verdict.Granted? <==> r.state == Open || !r.probeInFlight))
            && SnapshotAt(cfg, after, now).total == s.total
            && SnapshotAt(cfg, after, now).failures == s.failures
  {}

  /** What a snapshot says, field by field: the outcomes and the failures among them in the ten
      latest slots, their ratio, the refusals so far, and what is left of the open period. */
  lemma {:induction false} SnapshotSpelledOut(cfg: Config, r: Ref, now: int)
    requires cfg.Usable()
    ensures var s, hi := SnapshotAt(cfg, r, now), (now - r.origin) / cfg.BucketDur();
            var left := r.openedAt + cfg.openDuration - now;
            && s.total == |OutcomesIn(r.log, hi - 10, hi)|
            && s.failures == |FailuresIn(r.log, hi - 10, hi)|
            && (s.total > 0 ==> s.failureRatio * s.total as real == s.failures as real)
            && (s.total == 0 ==> s.failureRatio == 0.0)
            && s.rejected == r.rejected
            && s.state == (if r.state == Open && left <= 0 then HalfOpen else r.state)
            && s.retryIn == (if r.state == Open && left > 0 then left else 0)
  {
    hide Count;
    hide OutcomesIn;
    hide FailuresIn;
    var hi := (now - r.origin) / cfg.BucketDur();
    assert SlotOf(cfg, r, now) == hi;
    CountIsCardinality(r.log, hi - 10, hi);
    var total, failures := Count(r.log, false, hi - 10, hi), Count(r.log, true, hi - 10, hi);
    if total > 0 {
      ShareOfTotal(total, failures);
    }
  }

  lemma ShareOfTotal(total: nat, failures: nat)
    requires total > 0
    ensures failures as real / total as real * total as real == failures as real
  {}

  /** A refusal names what is left of the open period, and zero once it is over. */
  lemma RefusalNamesTheWait(cfg: Config, r: Ref, now: int)
    requires Allow(cfg, r, now).1.Rejected?
    ensures var left := r.openedAt + cfg.openDuration - now;
            Allow(cfg, r, now).1.retryIn == if left > 0 then left else 0
  {}

  function Refusals(answers: seq<Verdict>): nat {
    if answers == [] then 0
    else Refusals(answers[..|answers| - 1]) + if answers[|answers| - 1].Rejected? then 1 else 0
  }

  lemma StepRejections(cfg: Config, w: World, c: Call)
    requires cfg.Usable()
    ensures Step(cfg, w, c).ref.rejected ==
            w.ref.rejected + if c.AllowCall? && Allow(cfg, w.ref, c.at).1.Rejected? then 1 else 0
  {
    if c.RecordCall? {
      RecordShape(cfg, w.ref, c.permit, c.outcome, c.at);
      hide Record;
    } else if c.AllowCall? {
      AllowShape(cfg, w.ref, c.at);
      hide Allow;
    }
  }

  /** The rejection counter is the number of requests that were refused. */
  lemma {:induction false} RejectedCountsRefusals(cfg: Config, t0: int, calls: seq<Call>)
    requires cfg.Usable()
    ensures After(cfg, t0, calls).ref.rejected == Refusals(Answers(cfg, t0, calls))
  {
    if calls != [] {
      var before, last := calls[..|calls| - 1], calls[|calls| - 1];
      RejectedCountsRefusals(cfg, t0, before);
      StepRejections(cfg, After(cfg, t0, before), last);
      hide Step;
      hide Allow;
      var answers := Answers(cfg, t0, before);
      var verdict := Allow(cfg, After(cfg, t0, before).ref, last.at).1;
      assert (answers + [verdict])[..|answers|] == answers;
      assert answers + [] == answers;
    }
  }

  // ---- Why the breaker opens ----

  /** The index from which on the breaker has stayed in its present period. */
  function PeriodStart(cfg: Config, t0: int, calls: seq<Call>): (k: nat)
    requires cfg.Usable()
    ensures k <= |calls|
  {
    if calls == [] then 0
    else
      var before := calls[..|calls| - 1];
      if After(cfg, t0, calls).ref.generation != After(cfg, t0, before).ref.generation then |calls|
      else PeriodStart(cfg, t0, before)
  }

  lemma GenerationNamesState(cfg: Config, w: World, c: Call)
    requires cfg.Usable()
    ensures var v := Step(cfg, w, c);
            && w.ref.generation <= v.ref.generation
            && (v.ref.generation == w.ref.generation ==> v.ref.state == w.ref.state)
  {
    if c.RecordCall? {
      RecordShape(cfg, w.ref, c.permit, c.outcome, c.at);
      hide Record;
    }
  }

  /** A period is a stretch of the run spent in one state under one generation. */
  lemma {:induction false} PeriodIsOneState(cfg: Config, t0: int, calls: seq<Call>, j: int)
    requires cfg.Usable() && PeriodStart(cfg, t0, calls) <= j <= |calls|
    ensures After(cfg, t0, calls[..j]).ref.state == After(cfg, t0, calls).ref.state
    ensures After(cfg, t0, calls[..j]).ref.generation == After(cfg, t0, calls).ref.generation
  {
    if j == |calls| {
      assert calls[..j] == calls;
    } else {
      var before := calls[..|calls| - 1];
      PeriodIsOneState(cfg, t0, before, j);
      assert before[..j] == calls[..j];
      GenerationNamesState(cfg, After(cfg, t0, before), calls[|calls| - 1]);
      hide Step;
    }
  }

  predicate Reported(c: Call, generation: nat) {
    c.RecordCall? && c.permit.valid && c.permit.generation == generation && c.outcome != Ignored
  }

  function SampleOf(c: Call, origin: int, dur: int): Sample
    requires c.RecordCall? && dur > 0
  {
    Sample(c.at, Slot(origin, dur, c.at), c.outcome == Failure)
  }

  /** The outcomes reported by a stretch of calls for permits of one generation. */
  function Reports(calls: seq<Call>, generation: nat, origin: int, dur: int): seq<Sample>
    requires dur > 0
  {
    if calls == [] then []
    else
      var last := calls[|calls| - 1];
      Reports(calls[..|calls| - 1], generation, origin, dur) +
      if Reported(last, generation) then [SampleOf(last, origin, dur)] else []
  }

  /** A closed breaker's log is exactly what was reported since it closed. */
  ghost predicate PeriodRecorded(cfg: Config, t0: int, calls: seq<Call>)
    requires cfg.Usable()
  {
    var w, k := After(cfg, t0, calls), PeriodStart(cfg, t0, calls);
    && w.ref.log == Reports(calls[k..], w.ref.generation, w.ref.origin, cfg.BucketDur())
    && w.ref.origin == if k == 0 then t0 else calls[k - 1].at
  }

  lemma {:induction false} ReportsKnown(calls: seq<Call>, generation: nat, origin: int, dur: int)
    requires dur > 0
    ensures forall s :: s in Reports(calls, generation, origin, dur) ==>
              s.slot == Slot(origin, dur, s.at) &&
              exists i :: 0 <= i < |calls| && Reported(calls[i], generation) && s == SampleOf(calls[i], origin, dur)
  {
    if calls != [] {
      ReportsKnown(calls[..|calls| - 1], generation, origin, dur);
    }
  }

  /** One call on a closed breaker: a report of the current period is appended to the log,
      anything else leaves it alone. */
  lemma ClosedStep(cfg: Config, w: World, c: Call)
    requires cfg.Usable() && Disciplined(w) && Possible(w, c) && w.ref.state == Closed
    ensures var v := Step(cfg, w, c);
            && v.ref.origin == w.ref.origin
            && v.ref.log == w.ref.log +
                 (if Reported(c, w.ref.generation) then [SampleOf(c, w.ref.origin, cfg.BucketDur())] else [])
            && (v.ref.state == Closed ==> v.ref.generation == w.ref.generation)
            && v.ref.openedAt == if v.ref.state == Open then c.at else w.ref.openedAt
  {
    hide Tripped;
    hide Count;
    assert w.ref.log + [] == w.ref.log;
  }

  /** Among the outcomes of the ten slots ending at `hi` there are at least the minimum, and
      at least the configured share of them failed. */
  ghost predicate Justified(cfg: Config, outcomes: seq<Sample>, hi: int) {
    var total, failures := |OutcomesIn(outcomes, hi - 10, hi)|, |FailuresIn(outcomes, hi - 10, hi)|;
    cfg.minRequests <= total && failures as real >= cfg.failureRatio * total as real
  }

  lemma RatioAsProduct(total: nat, failures: nat, ratio: real)
    requires total > 0
    ensures failures as real / total as real >= ratio <==> failures as real >= ratio * total as real
  {
    var share := failures as real / total as real;
    assert share * total as real == failures as real;
  }

  lemma TrippedIsJustified(cfg: Config, outcomes: seq<Sample>, hi: int)
    requires cfg.Usable()
    ensures var total, failures := Count(outcomes, false, hi - WINDOW_BUCKETS, hi),
                                   Count(outcomes, true, hi - WINDOW_BUCKETS, hi);
            Tripped(cfg, total, failures) <==> Justified(cfg, outcomes, hi)
  {
    hide Count;
    hide OutcomesIn;
    hide FailuresIn;
    CountIsCardinality(outcomes, hi - 10, hi);
    var total := |OutcomesIn(outcomes, hi - 10, hi)|;
    if cfg.minRequests <= total {
      RatioAsProduct(total, |FailuresIn(outcomes, hi - 10, hi)|, cfg.failureRatio);
    }
  }

  lemma TripsExactly(cfg: Config, w: World, c: Call)
    requires cfg.Usable() && Disciplined(w) && Possible(w, c) && w.ref.state == Closed
    ensures var v := Step(cfg, w, c);
            var hi := SlotOf(cfg, w.ref, c.at);
            v.ref.state == Open <==> Reported(c, w.ref.generation) && Justified(cfg, v.ref.log, hi)
  {
    hide Count;
    hide Tripped;
    hide Justified;
    ClosedStep(cfg, w, c);
    TrippedIsJustified(cfg, Step(cfg, w, c).ref.log, SlotOf(cfg, w.ref, c.at));
  }

  /** The state after any call of a run: a closed breaker opens exactly at a report that its
      window then justifies, an open one turns half-open exactly at a request once its period is
      over, and a half-open one goes exactly where the outcome of its probe sends it. */
  lemma MovesExactly(cfg: Config, w: World, c: Call)
    requires cfg.Usable() && Disciplined(w) && Possible(w, c)
    ensures var v, reported := Step(cfg, w, c), Reported(c, w.ref.generation);
            v.ref.state ==
            match w.ref.state
            case Closed => if reported && Justified(cfg, v.ref.log, SlotOf(cfg, w.ref, c.at)) then Open else Closed
            case Open => if c.AllowCall? && c.at >= w.ref.openedAt + cfg.openDuration then HalfOpen else Open
            case HalfOpen => if !reported then HalfOpen else if c.outcome == Failure then Open else Closed
  {
    hide Justified;
    hide Tripped;
    hide Count;
    if w.ref.state == Closed {
      TripsExactly(cfg, w, c);
      if Step(cfg, w, c).ref.state != Closed {
        OnlyLegalMoves(cfg, w, c);
      }
    } else if w.ref.state == Open && !(c.AllowCall? && c.at >= w.ref.openedAt + cfg.openDuration) {
      OpenStep(cfg, w, c);
    }
  }

  /** What any call of a run does to the opening stamp and the window: opening stamps, closing
      clears, a report counted by a closed breaker is appended, and nothing else touches them. */
  lemma WindowExactly(cfg: Config, w: World, c: Call)
    requires cfg.Usable() && Disciplined(w) && Possible(w, c)
    ensures var r, s := w.ref, Step(cfg, w, c).ref;
            && s.openedAt == (if s.state == Open && r.state != Open then c.at else r.openedAt)
            && s.origin == (if s.state == Closed && r.state != Closed then c.at else r.origin)
            && s.log == (if s.state == Closed && r.state != Closed then []
                         else if r.state == Closed && Reported(c, r.generation)
                         then r.log + [SampleOf(c, r.origin, cfg.BucketDur())]
                         else r.log)
  {
    hide Step;
    if w.ref.state == Closed {
      ClosedStep(cfg, w, c);
      assert w.ref.log + [] == w.ref.log;
    } else if w.ref.state == HalfOpen {
      HalfOpenStep(cfg, w, c);
    } else if c.AllowCall? && c.at >= w.ref.openedAt + cfg.openDuration {
      WakingStep(cfg, w, c);
    } else {
      OpenStep(cfg, w, c);
    }
  }

  lemma WakingStep(cfg: Config, w: World, c: Call)
    requires cfg.Usable() && w.ref.state == Open && c.AllowCall? && c.at >= w.ref.openedAt + cfg.openDuration
    ensures var r, s := w.ref, Step(cfg, w, c).ref;
            s.state == HalfOpen && s.openedAt == r.openedAt && s.origin == r.origin && s.log == r.log
  {}

  lemma HalfOpenStep(cfg: Config, w: World, c: Call)
    requires cfg.Usable() && w.ref.state == HalfOpen
    ensures var r, s := w.ref, Step(cfg, w, c).ref;
            && s.openedAt == (if s.state == Open then c.at else r.openedAt)
            && s.origin == (if s.state == Closed then c.at else r.origin)
            && s.log == (if s.state == Closed then [] else r.log)
  {}

  lemma {:induction false} HalfOpenIsOverdue(cfg: Config, t0: int, calls: seq<Call>)
    requires cfg.Usable() && Run(cfg, t0, calls)
    ensures var w := After(cfg, t0, calls);
            w.ref.state == HalfOpen ==> w.ref.openedAt + cfg.openDuration <= w.clock
  {
    if calls != [] {
      var before, last := calls[..|calls| - 1], calls[|calls| - 1];
      HalfOpenIsOverdue(cfg, t0, before);
      EveryRunIsDisciplined(cfg, t0, before);
      var w := After(cfg, t0, before);
      MovesExactly(cfg, w, last);
      WindowExactly(cfg, w, last);
      hide Disciplined;
      hide Justified;
      assert Step(cfg, w, last).clock == last.at;
      hide Step;
    }
  }

  /** In every run a request refused while the breaker is open is told what is left of the open
      period, and one refused because a probe is in flight is told no wait. */
  lemma EveryRefusalNamesTheWait(cfg: Config, t0: int, calls: seq<Call>, now: int)
    requires cfg.Usable() && Run(cfg, t0, calls + [AllowCall(now)])
    ensures var w := After(cfg, t0, calls);
            var verdict := Allow(cfg, w.ref, now).1;
            verdict.Rejected? ==>
              verdict.retryIn == if w.ref.state == Open then w.ref.openedAt + cfg.openDuration - now else 0
    ensures var w := After(cfg, t0, calls);
            Allow(cfg, w.ref, now).1.Rejected? <==>
              || (w.ref.state == Open && now < w.ref.openedAt + cfg.openDuration)
              || (w.ref.state == HalfOpen && w.ref.probeInFlight)
  {
    var all := calls + [AllowCall(now)];
    assert all[..|all| - 1] == calls && all[|all| - 1] == AllowCall(now);
    HalfOpenIsOverdue(cfg, t0, calls);
    hide After;
  }

  lemma ReopenedStep(cfg: Config, w: World, c: Call)
    requires cfg.Usable() && Disciplined(w) && Possible(w, c)
    requires w.ref.state != Closed && Step(cfg, w, c).ref.state == Closed
    ensures var v := Step(cfg, w, c);
            v.ref.log == [] && v.ref.origin == c.at && v.ref.generation == w.ref.generation + 1
  {
    OnlyLegalMoves(cfg, w, c);
  }

  lemma PeriodRecordedStep(cfg: Config, t0: int, calls: seq<Call>)
    requires cfg.Usable() && Run(cfg, t0, calls) && calls != []
    requires var w := After(cfg, t0, calls[..|calls| - 1]);
             Disciplined(w) && (w.ref.state == Closed ==> PeriodRecorded(cfg, t0, calls[..|calls| - 1]))
    requires After(cfg, t0, calls).ref.state == Closed
    ensures PeriodRecorded(cfg, t0, calls)
  {
    hide Step;
    hide Disciplined;
    var before, last := calls[..|calls| - 1], calls[|calls| - 1];
    var w := After(cfg, t0, before);
    if w.ref.state == Closed {
      ClosedStep(cfg, w, last);
      var k := PeriodStart(cfg, t0, before);
      assert calls[k..][..|calls[k..]| - 1] == before[k..];
    } else {
      ReopenedStep(cfg, w, last);
      assert calls[|calls|..] == [];
    }
  }

  lemma {:induction false} ClosedLogIsTheRecord(cfg: Config, t0: int, calls: seq<Call>)
    requires cfg.Usable() && Run(cfg, t0, calls)
    requires After(cfg, t0, calls).ref.state == Closed
    ensures PeriodRecorded(cfg, t0, calls)
  {
    if calls != [] {
      var before := calls[..|calls| - 1];
      EveryRunIsDisciplined(cfg, t0, before);
      if After(cfg, t0, before).ref.state == Closed {
        ClosedLogIsTheRecord(cfg, t0, before);
      }
      PeriodRecordedStep(cfg, t0, calls);
    }
  }

  /** A closed breaker opens exactly when a report of its current period arrives and, among
      the outcomes reported in that same period, those of the ten latest slots number at
      least the minimum and fail at least at the configured ratio. */
  lemma OpensExactlyWhenJustified(cfg: Config, t0: int, calls: seq<Call>)
    requires cfg.Usable() && Run(cfg, t0, calls) && calls != []
    requires After(cfg, t0, calls[..|calls| - 1]).ref.state == Closed
    ensures var before, last := calls[..|calls| - 1], calls[|calls| - 1];
            var w, k := After(cfg, t0, before), PeriodStart(cfg, t0, before);
            var reports := Reports(calls[k..], w.ref.generation, w.ref.origin, cfg.BucketDur());
            var hi := SlotOf(cfg, w.ref, last.at);
            && w.ref.origin == (if k == 0 then t0 else calls[k - 1].at)
            && (After(cfg, t0, calls).ref.state == Open <==>
                Reported(last, w.ref.generation) && Justified(cfg, reports, hi))
  {
    hide Step;
    hide Disciplined;
    hide Justified;
    var before, last := calls[..|calls| - 1], calls[|calls| - 1];
    var w, k := After(cfg, t0, before), PeriodStart(cfg, t0, before);
    EveryRunIsDisciplined(cfg, t0, before);
    ClosedLogIsTheRecord(cfg, t0, before);
    ClosedStep(cfg, w, last);
    assert calls[k..][..|calls[k..]| - 1] == before[k..];
    var reports := Reports(calls[k..], w.ref.generation, w.ref.origin, cfg.BucketDur());
    assert Step(cfg, w, last).ref.log == reports;
    TripsExactly(cfg, w, last);
  }

  /** ... and every outcome that is counted then was reported by a call of that period, less
      than one window before. */
  lemma CountedOutcomesAreRecent(cfg: Config, t0: int, calls: seq<Call>)
    requires cfg.Usable() && Run(cfg, t0, calls) && calls != []
    ensures var before, now := calls[..|calls| - 1], calls[|calls| - 1].at;
            var w, k := After(cfg, t0, before), PeriodStart(cfg, t0, before);
            var reports := Reports(calls[k..], w.ref.generation, w.ref.origin, cfg.BucketDur());
            var hi := SlotOf(cfg, w.ref, now);
            forall s :: s in Select(reports, false, hi - WINDOW_BUCKETS, hi) ==>
              s.at <= now < s.at + cfg.window && ReportedBy(calls[k..], w.ref.generation, s)
  {
    hide Step;
    hide Count;
    var before, now := calls[..|calls| - 1], calls[|calls| - 1].at;
    var w, k, dur := After(cfg, t0, before), PeriodStart(cfg, t0, before), cfg.BucketDur();
    var reports := Reports(calls[k..], w.ref.generation, w.ref.origin, dur);
    var hi := SlotOf(cfg, w.ref, now);
    ReportsKnown(calls[k..], w.ref.generation, w.ref.origin, dur);
    forall s | s in Select(reports, false, hi - WINDOW_BUCKETS, hi)
      ensures s.at <= now < s.at + cfg.window && ReportedBy(calls[k..], w.ref.generation, s)
    {
      var i :| 0 <= i < |calls[k..]| && Reported(calls[k..][i], w.ref.generation)
               && s == SampleOf(calls[k..][i], w.ref.origin, dur);
      assert calls[k + i] == calls[k..][i];
      ClockIsMonotone(cfg, t0, calls, k + i);
      ExpiryBounds(w.ref.origin, dur, s.at, now);
    }
  }

  /** Some call of the stretch reported this outcome at this instant. */
  ghost predicate ReportedBy(calls: seq<Call>, generation: nat, s: Sample) {
    exists i :: 0 <= i < |calls| && Reported(calls[i], generation) && calls[i].at == s.at
                && s.failed == (calls[i].outcome == Failure)
  }

  lemma {:induction false} ReportsComplete(calls: seq<Call>, generation: nat, origin: int, dur: int, i: int)
    requires dur > 0 && 0 <= i < |calls| && Reported(calls[i], generation)
    ensures SampleOf(calls[i], origin, dur) in Reports(calls, generation, origin, dur)
  {
    if i < |calls| - 1 {
      ReportsComplete(calls[..|calls| - 1], generation, origin, dur, i);
    }
  }

  /** ... while no outcome reported in that period within the last nine slots is left out. */
  lemma RecentOutcomesAreCounted(cfg: Config, t0: int, calls: seq<Call>, i: int)
    requires cfg.Usable() && Run(cfg, t0, calls) && 0 <= i < |calls|
    requires var w := After(cfg, t0, calls[..|calls| - 1]);
             && PeriodStart(cfg, t0, calls[..|calls| - 1]) <= i
             && Reported(calls[i], w.ref.generation)
             && calls[|calls| - 1].at - calls[i].at <= (WINDOW_BUCKETS - 1) * cfg.BucketDur()
    ensures var w, k := After(cfg, t0, calls[..|calls| - 1]), PeriodStart(cfg, t0, calls[..|calls| - 1]);
            var hi := SlotOf(cfg, w.ref, calls[|calls| - 1].at);
            SampleOf(calls[i], w.ref.origin, cfg.BucketDur()) in
              Select(Reports(calls[k..], w.ref.generation, w.ref.origin, cfg.BucketDur()), false, hi - WINDOW_BUCKETS, hi)
  {
    hide Step;
    hide Count;
    var w, k := After(cfg, t0, calls[..|calls| - 1]), PeriodStart(cfg, t0, calls[..|calls| - 1]);
    assert calls[k..][i - k] == calls[i];
    ReportsComplete(calls[k..], w.ref.generation, w.ref.origin, cfg.BucketDur(), i - k);
    ClockIsMonotone(cfg, t0, calls, i);
    ExpiryBounds(w.ref.origin, cfg.BucketDur(), calls[i].at, calls[|calls| - 1].at);
  }

  lemma StepClock(cfg: Config, w: World, c: Call)
    requires cfg.Usable()
    ensures Step(cfg, w, c).clock == c.at
  {}

  lemma {:induction false} ClockIsMonotone(cfg: Config, t0: int, calls: seq<Call>, i: int)
    requires cfg.Usable() && Run(cfg, t0, calls) && 0 <= i < |calls|
    ensures calls[i].at <= After(cfg, t0, calls).clock == calls[|calls| - 1].at
  {
    var before := calls[..|calls| - 1];
    StepClock(cfg, After(cfg, t0, before), calls[|calls| - 1]);
    hide Step;
    if i < |before| {
      ClockIsMonotone(cfg, t0, before, i);
    }
  }

  /** A snapshot of a closed breaker counts the outcomes reported in the present period that lie
      in the ten latest slots, and the refusals of the whole run. */
  lemma {:induction false} ClosedSnapshotCountsThePeriod(cfg: Config, t0: int, calls: seq<Call>, now: int)
    requires cfg.Usable() && Run(cfg, t0, calls) && After(cfg, t0, calls).ref.state == Closed
    ensures var w, k := After(cfg, t0, calls), PeriodStart(cfg, t0, calls);
            var since := if k == 0 then t0 else calls[k - 1].at;
            var reports := Reports(calls[k..], w.ref.generation, since, cfg.BucketDur());
            var s, hi := SnapshotAt(cfg, w.ref, now), (now - since) / cfg.BucketDur();
            && s.total == |OutcomesIn(reports, hi - 10, hi)|
            && s.failures == |FailuresIn(reports, hi - 10, hi)|
            && s.rejected == Refusals(Answers(cfg, t0, calls))
  {
    hide After;
    hide Run;
    hide PeriodStart;
    hide SnapshotAt;
    hide Reports;
    hide OutcomesIn;
    hide FailuresIn;
    hide Answers;
    hide Refusals;
    ClosedLogIsTheRecord(cfg, t0, calls);
    SnapshotSpelledOut(cfg, After(cfg, t0, calls).ref, now);
    RejectedCountsRefusals(cfg, t0, calls);
  }
}
