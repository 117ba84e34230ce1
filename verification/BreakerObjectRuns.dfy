/** Runs of the breaker object itself: its ring rolls and is cleared as the calls come in, and
    what it answers is what the log-based runs say. */
module BreakerObjectRuns {
  import opened Common
  import opened RollingWindow
  import opened BreakerSpec
  import opened BreakerRuns
  import opened BreakerClass

  lemma {:induction false} PrefixRuns(cfg: Config, t0: int, calls: seq<Call>, i: nat)
    requires cfg.Usable() && Run(cfg, t0, calls) && i <= |calls|
    ensures Run(cfg, t0, calls[..i])
  {
    if i < |calls| {
      PrefixRuns(cfg, t0, calls[..|calls| - 1], i);
      assert calls[..|calls| - 1][..i] == calls[..i];
    } else {
      assert calls[..i] == calls;
    }
  }

  /** The snapshots a run takes, in order. */
  function Sights(cfg: Config, t0: int, calls: seq<Call>): seq<Snapshot>
    requires cfg.Usable()
  {
    if calls == [] then []
    else
      var before, last := calls[..|calls| - 1], calls[|calls| - 1];
      Sights(cfg, t0, before) +
      if last.SnapshotCall? then [SnapshotAt(cfg, After(cfg, t0, before).ref, last.at)] else []
  }

  /** One call on the object. */
  method Perform(b: Breaker, ghost w: World, call: Call) returns (verdict: Option<Verdict>, sight: Option<Snapshot>)
    requires b.Valid() && b.Value() == w.ref && b.bucketStart <= w.clock && Possible(w, call)
    modifies b, b.buckets
    ensures b.Valid() && b.Value() == Step(b.cfg, w, call).ref && b.bucketStart <= call.at
    ensures verdict == if call.AllowCall? then Some(Allow(b.cfg, w.ref, call.at).1) else None
    ensures sight == if call.SnapshotCall? then Some(SnapshotAt(b.cfg, w.ref, call.at)) else None
  {
    verdict, sight := None, None;
    match call {
      case AllowCall(at) =>
        var v, _ := b.Allow(at);
        verdict := Some(v);
      case RecordCall(permit, outcome, at) =>
        var _ := b.Record(permit, outcome, at);
      case SnapshotCall(at) =>
        var s := b.Snapshot(at);
        sight := Some(s);
    }
  }

  /** A new breaker driven through any run ends in the state, and gives the answers and the
      snapshots, of the log-based run. */
  method Drive(cfg: Config, t0: int, calls: seq<Call>)
    returns (b: Breaker, answers: seq<Verdict>, sights: seq<Snapshot>)
    requires cfg.Usable() && Run(cfg, t0, calls)
    ensures fresh(b) && fresh(b.buckets) && b.Valid() && b.cfg == cfg
    ensures b.Value() == After(cfg, t0, calls).ref
    ensures answers == Answers(cfg, t0, calls) && sights == Sights(cfg, t0, calls)
  {
    b := new Breaker(cfg, t0);
    answers, sights := [], [];
    for i := 0 to |calls|
      invariant fresh(b) && fresh(b.buckets) && b.Valid() && b.cfg == cfg
      invariant b.Value() == After(cfg, t0, calls[..i]).ref
      invariant b.bucketStart <= After(cfg, t0, calls[..i]).clock
      invariant answers == Answers(cfg, t0, calls[..i]) && sights == Sights(cfg, t0, calls[..i])
    {
      ghost var w := After(cfg, t0, calls[..i]);
      PrefixRuns(cfg, t0, calls, i + 1);
      assert calls[..i + 1][..i] == calls[..i];
      StepClock(cfg, w, calls[i]);
      hide Step;
      hide Allow;
      hide SnapshotAt;
      var verdict, sight := Perform(b, w, calls[i]);
      if verdict.Some? {
        answers := answers + [verdict.value];
      }
      if sight.Some? {
        sights := sights + [sight.value];
      }
    }
    assert calls[..|calls|] == calls;
  }

  /** Without its snapshots a run is still a run. */
  lemma {:induction false} QuietRuns(cfg: Config, t0: int, calls: seq<Call>)
    requires cfg.Usable() && Run(cfg, t0, calls)
    ensures Run(cfg, t0, WithoutSnapshots(calls))
    ensures After(cfg, t0, WithoutSnapshots(calls)).clock <= After(cfg, t0, calls).clock
  {
    if calls != [] {
      var before, last := calls[..|calls| - 1], calls[|calls| - 1];
      QuietRuns(cfg, t0, before);
      SnapshotsAreUnobservable(cfg, t0, before);
      StepClock(cfg, After(cfg, t0, before), last);
      var quiet := WithoutSnapshots(before);
      if last.SnapshotCall? {
        assert quiet + [] == quiet;
      } else {
        StepClock(cfg, After(cfg, t0, quiet), last);
        assert (quiet + [last])[..|quiet|] == quiet;
      }
      hide Step;
      hide Answers;
    }
  }

  /** Two breakers, one also read by snapshots at any instants and one never read: they end with
      the same meaning and answer every request alike, although their rings were rolled at
      different times. */
  method DriveWatchedAndUnwatched(cfg: Config, t0: int, calls: seq<Call>)
    returns (watched: Breaker, unwatched: Breaker, answers: seq<Verdict>, quietAnswers: seq<Verdict>)
    requires cfg.Usable() && Run(cfg, t0, calls)
    ensures watched.Valid() && unwatched.Valid()
    ensures watched.Value() == unwatched.Value() && answers == quietAnswers == Answers(cfg, t0, calls)
  {
    QuietRuns(cfg, t0, calls);
    SnapshotsAreUnobservable(cfg, t0, calls);
    hide After;
    hide Answers;
    var s1, s2;
    watched, answers, s1 := Drive(cfg, t0, calls);
    unwatched, quietAnswers, s2 := Drive(cfg, t0, WithoutSnapshots(calls));
  }
}
