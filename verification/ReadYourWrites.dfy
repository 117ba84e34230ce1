/** Read-your-writes over whole runs: users write and note their writes, replicas replay, lag
    and health are reported, reads drop pins that have run out, and time passes. */
module ReadYourWrites {
  import opened Common
  import opened ReplicaRouter

  datatype Write = Write(user: string, at: int)

  /** `applied[i]` counts the writes replica i has replayed, in commit order; `noted` holds the
      indices of the writes their users have noted. */
  datatype World = World(
    clock: int, writes: seq<Write>, noted: set<int>, applied: seq<nat>,
    replicas: seq<ReplicaInfo>, pins: Pins)

  datatype Event =
    | Tick(to: int)
    | Commit(user: string)
    | Note(user: string)
    | Replay(replica: int, count: nat)
    | ReportLag(replica: int, lag: int)
    | ReportHealth(replica: int, healthy: bool)
    | Read(user: string)

  /** `open[i]` says whether the pool of replica i could be opened. */
  function Start(open: seq<bool>): World {
    World(0, [], {}, seq(|open|, _ => 0),
          seq(|open|, i requires 0 <= i < |open| => ReplicaInfo(open[i], open[i], 0)), map[])
  }

  function WritesOf(w: World, user: string): set<int> {
    set k | 0 <= k < |w.writes| && w.writes[k].user == user
  }

  predicate Possible(w: World, e: Event) {
    match e
    case Tick(to) => w.clock <= to
    case Replay(i, count) => 0 <= i < |w.applied| && w.applied[i] <= count <= |w.writes|
    case _ => true
  }

  function Step(window: int, w: World, e: Event): World {
    match e
    case Tick(to) => w.(clock := to)
    case Commit(user) => w.(writes := w.writes + [Write(user, w.clock)])
    case Note(user) =>
      if user == "" then w
      else w.(pins := Pin(w.pins, window, user, w.clock), noted := w.noted + WritesOf(w, user))
    case Replay(i, count) => if 0 <= i < |w.applied| then w.(applied := w.applied[i := count]) else w
    case ReportLag(i, lag) => w.(replicas := WithLag(w.replicas, i, lag))
    case ReportHealth(i, healthy) => w.(replicas := WithHealth(w.replicas, i, healthy))
    case Read(user) => if user == "" then w else w.(pins := Asked(w.pins, user, w.clock))
  }

  function After(window: int, open: seq<bool>, run: seq<Event>): World {
    if run == [] then Start(open) else Step(window, After(window, open, run[..|run| - 1]), run[|run| - 1])
  }

  ghost predicate Run(window: int, open: seq<bool>, run: seq<Event>) {
    run != [] ==>
      && Run(window, open, run[..|run| - 1])
      && Possible(After(window, open, run[..|run| - 1]), run[|run| - 1])
  }

  /** Recorded lags bound true lags: a replica holds every write committed longer ago than the
      lag last reported for it. */
  ghost predicate LagsBound(w: World) {
    forall i, k | 0 <= i < |w.replicas| && i < |w.applied| && 0 <= k < |w.writes| ::
      w.writes[k].at < w.clock - w.replicas[i].lag ==> k < w.applied[i]
  }

  /** The pools a read for this user may be sent to. */
  predicate MayServe(maxLag: int, w: World, user: string, pool: Pool) {
    pool == Primary ||
    (!(user != "" && Pinned(w.pins, user, w.clock)) &&
     0 <= pool.index < |w.replicas| && Servable(w.replicas[pool.index], maxLag))
  }

  /** The router's Read, by its contract, answers with one of them. */
  lemma ReadMayServe(maxLag: int, w: World, user: string, start: int, pool: Pool)
    requires if user != "" && Pinned(w.pins, user, w.clock) then pool == Primary
             else if w.replicas == [] then pool == Primary
             else Scan(w.replicas, maxLag, start, pool)
    ensures MayServe(maxLag, w, user, pool)
  {}

  /** The pool already has every write this user noted. */
  ghost predicate HasOwnWrites(w: World, user: string, pool: Pool) {
    pool.Replica? ==>
      forall k :: k in w.noted && 0 <= k < |w.writes| && w.writes[k].user == user ==>
        0 <= pool.index < |w.applied| && k < w.applied[pool.index]
  }

  /** In every run, at every instant the recorded lags are honest, a read is sent only to pools
      that have the reader's own noted writes. */
  ghost predicate ReadsOwnWrites(maxLag: int, window: int) {
    forall open: seq<bool>, run, user, pool ::
      Run(window, open, run) && LagsBound(After(window, open, run)) && user != "" &&
      MayServe(maxLag, After(window, open, run), user, pool) ==>
        HasOwnWrites(After(window, open, run), user, pool)
  }

  /** A noted write is still pinned, or older than the window. */
  ghost predicate Covered(window: int, w: World, k: int)
    requires 0 <= k < |w.writes|
  {
    var user, at := w.writes[k].user, w.writes[k].at;
    (user in w.pins && at + window <= w.pins[user]) || at + window < w.clock
  }

  ghost predicate Sound(window: int, w: World) {
    && |w.applied| == |w.replicas|
    && (forall k :: 0 <= k < |w.writes| ==> w.writes[k].at <= w.clock)
    && (forall k :: k in w.noted ==> 0 <= k < |w.writes| && Covered(window, w, k))
  }

  lemma NoteKeepsSound(window: int, w: World, user: string)
    requires Sound(window, w)
    ensures Sound(window, Step(window, w, Note(user)))
  {
    var v := Step(window, w, Note(user));
    forall k | k in v.noted
      ensures 0 <= k < |v.writes| && Covered(window, v, k)
    {
      if k in w.noted {
        assert Covered(window, w, k);
      }
    }
  }

  lemma StepKeepsSound(window: int, w: World, e: Event)
    requires Sound(window, w) && Possible(w, e)
    ensures Sound(window, Step(window, w, e))
  {
    if e.Note? {
      NoteKeepsSound(window, w, e.user);
    } else {
      var v := Step(window, w, e);
      forall k | k in v.noted
        ensures 0 <= k < |v.writes| && Covered(window, v, k)
      {
        assert Covered(window, w, k);
      }
    }
  }

  lemma {:induction false} EveryRunIsSound(window: int, open: seq<bool>, run: seq<Event>)
    requires Run(window, open, run)
    ensures Sound(window, After(window, open, run))
  {
    if run != [] {
      EveryRunIsSound(window, open, run[..|run| - 1]);
      StepKeepsSound(window, After(window, open, run[..|run| - 1]), run[|run| - 1]);
    }
  }

  lemma SoundReads(maxLag: int, window: int, w: World, user: string, pool: Pool)
    requires 0 < maxLag <= window && Sound(window, w) && LagsBound(w)
    requires user != "" && MayServe(maxLag, w, user, pool)
    ensures HasOwnWrites(w, user, pool)
  {
    if pool.Replica? {
      forall k | k in w.noted && 0 <= k < |w.writes| && w.writes[k].user == user
        ensures k < w.applied[pool.index]
      {
        assert Covered(window, w, k);
      }
    }
  }

  /** The run that reads too early: the write is older than the pin but not than the lag. */
  function EarlyRead(window: int): seq<Event> {
    var t := if window < 0 then 0 else window + 1;
    [Commit("u"), Note("u"), ReportLag(0, t), Tick(t)]
  }

  lemma EarlyReadWorld(window: int)
    ensures var t := if window < 0 then 0 else window + 1;
            && Run(window, [true], EarlyRead(window))
            && After(window, [true], EarlyRead(window)) ==
               World(t, [Write("u", 0)], {0}, [0], [ReplicaInfo(true, true, t)], map["u" := window])
  {
    var run := EarlyRead(window);
    var t := if window < 0 then 0 else window + 1;
    assert run[..3][..2] == run[..2] && run[..2][..1] == run[..1] && run[..1][..0] == [];
    var w0 := Start([true]);
    assert After(window, [true], run[..1]) == w0.(writes := [Write("u", 0)]);
    var w2 := After(window, [true], run[..2]);
    assert w2 == w0.(writes := [Write("u", 0)], noted := {0}, pins := map["u" := window]);
    var w3 := After(window, [true], run[..3]);
    assert w3 == w2.(replicas := [ReplicaInfo(true, true, t)]);
    assert Run(window, [true], []) && Run(window, [true], run[..1]) && Run(window, [true], run[..2]) && Run(window, [true], run[..3]);
  }

  lemma EarlyReadMisses(maxLag: int, window: int)
    requires !(0 < maxLag <= window)
    ensures var run := EarlyRead(window);
            var w := After(window, [true], run);
            && Run(window, [true], run) && LagsBound(w)
            && !Pinned(w.pins, "u", w.clock)
            && w.replicas != []
            && (forall start, pool :: Scan(w.replicas, maxLag, start, pool) <==> pool == Replica(0))
            && MayServe(maxLag, w, "u", Replica(0)) && !HasOwnWrites(w, "u", Replica(0))
  {
    EarlyReadWorld(window);
    hide After;
    hide Run;
    var w := After(window, [true], EarlyRead(window));
    forall start, pool
      ensures Scan(w.replicas, maxLag, start, pool) <==> pool == Replica(0)
    {
      ScanTakesTheFirst(w.replicas, maxLag, start, pool);
    }
    hide Scan;
    assert 0 in After(window, [true], EarlyRead(window)).noted;
  }

  /** Users always read their own noted writes exactly if the lag budget is enforced and does
      not exceed the pin window. */
  lemma ReadsOwnWritesExactly(maxLag: int, window: int)
    ensures ReadsOwnWrites(maxLag, window) <==> 0 < maxLag <= window
  {
    if 0 < maxLag <= window {
      forall open: seq<bool>, run, user, pool |
        Run(window, open, run) && LagsBound(After(window, open, run)) && user != "" &&
        MayServe(maxLag, After(window, open, run), user, pool)
        ensures HasOwnWrites(After(window, open, run), user, pool)
      {
        EveryRunIsSound(window, open, run);
        SoundReads(maxLag, window, After(window, open, run), user, pool);
      }
    } else {
      EarlyReadMisses(maxLag, window);
      assert "u" != "";
    }
  }

  // ---- Who may serve, from the events alone ----

  /** The present instant. */
  function Now(run: seq<Event>): int {
    if run == [] then 0
    else match run[|run| - 1]
      case Tick(to) => to
      case _ => Now(run[..|run| - 1])
  }

  /** The health last reported of replica i; before any report, whether its pool opened. */
  function LastHealth(open: seq<bool>, run: seq<Event>, i: int): bool
    requires 0 <= i < |open|
  {
    if run == [] then open[i]
    else match run[|run| - 1]
      case ReportHealth(j, healthy) => if j == i then healthy else LastHealth(open, run[..|run| - 1], i)
      case _ => LastHealth(open, run[..|run| - 1], i)
  }

  /** The lag last reported of replica i. */
  function LastLag(run: seq<Event>, i: int): int {
    if run == [] then 0
    else match run[|run| - 1]
      case ReportLag(j, lag) => if j == i then lag else LastLag(run[..|run| - 1], i)
      case _ => LastLag(run[..|run| - 1], i)
  }

  /** When this user last noted a write. */
  function LastNote(run: seq<Event>, user: string): Option<int> {
    if run == [] then None
    else match run[|run| - 1]
      case Note(u) => if u == user then Some(Now(run[..|run| - 1])) else LastNote(run[..|run| - 1], user)
      case _ => LastNote(run[..|run| - 1], user)
  }

  /** The router knows of each replica what was last reported. */
  lemma {:induction false} KnowsTheLastReports(window: int, open: seq<bool>, run: seq<Event>)
    ensures var w := After(window, open, run);
            && w.clock == Now(run)
            && |w.replicas| == |open|
            && forall i :: 0 <= i < |open| ==>
                 w.replicas[i] == ReplicaInfo(open[i], LastHealth(open, run, i), LastLag(run, i))
  {
    if run != [] {
      KnowsTheLastReports(window, open, run[..|run| - 1]);
    }
  }

  /** Dropping pins that have run out is unobservable: a user is pinned exactly for one window
      after the last noted write. */
  lemma {:induction false} PinnedExactly(window: int, open: seq<bool>, run: seq<Event>, user: string)
    requires Run(window, open, run) && user != ""
    ensures var w, noted := After(window, open, run), LastNote(run, user);
            && (user in w.pins ==> noted.Some? && w.pins[user] == noted.value + window)
            && (Pinned(w.pins, user, w.clock) <==> noted.Some? && w.clock <= noted.value + window)
  {
    if run != [] {
      var init := run[..|run| - 1];
      PinnedExactly(window, open, init, user);
      KnowsTheLastReports(window, open, init);
    }
  }

  /** In every run a read for this user may go to replica i exactly if its pool opened, it was
      last reported healthy and, with a lag budget, within it, and the user's last noted write
      is more than one window ago. */
  lemma ReplicaServesExactly(maxLag: int, window: int, open: seq<bool>, run: seq<Event>, user: string, i: int)
    requires Run(window, open, run)
    ensures MayServe(maxLag, After(window, open, run), user, Replica(i)) <==>
            && 0 <= i < |open| && open[i]
            && LastHealth(open, run, i)
            && (maxLag > 0 ==> LastLag(run, i) <= maxLag)
            && !(user != "" && LastNote(run, user).Some? && Now(run) <= LastNote(run, user).value + window)
  {
    KnowsTheLastReports(window, open, run);
    if user != "" {
      PinnedExactly(window, open, run, user);
    }
  }

  lemma {:induction false} LastReportOfHealth(open: seq<bool>, run: seq<Event>, k: int, i: int, healthy: bool)
    requires 0 <= i < |open| && 0 <= k < |run| && run[k] == ReportHealth(i, healthy)
    requires forall j :: k < j < |run| && run[j].ReportHealth? ==> run[j].replica != i
    ensures LastHealth(open, run, i) == healthy
  {
    if k < |run| - 1 {
      LastReportOfHealth(open, run[..|run| - 1], k, i, healthy);
    }
  }

  lemma {:induction false} LastReportOfLag(run: seq<Event>, k: int, i: int, lag: int)
    requires 0 <= k < |run| && run[k] == ReportLag(i, lag)
    requires forall j :: k < j < |run| && run[j].ReportLag? ==> run[j].replica != i
    ensures LastLag(run, i) == lag
  {
    if k < |run| - 1 {
      LastReportOfLag(run[..|run| - 1], k, i, lag);
    }
  }

  /** After a last report that replica i is down, or behind its budget, no read goes to it. */
  lemma DownReplicaIsLeftAlone(maxLag: int, window: int, open: seq<bool>, run: seq<Event>, k: int, i: int, user: string)
    requires Run(window, open, run) && 0 <= k < |run|
    requires || (run[k] == ReportHealth(i, false)
                 && forall j :: k < j < |run| && run[j].ReportHealth? ==> run[j].replica != i)
             || (run[k].ReportLag? && run[k].replica == i && 0 < maxLag < run[k].lag
                 && forall j :: k < j < |run| && run[j].ReportLag? ==> run[j].replica != i)
    ensures !MayServe(maxLag, After(window, open, run), user, Replica(i))
  {
    ReplicaServesExactly(maxLag, window, open, run, user, i);
    if run[k].ReportLag? {
      LastReportOfLag(run, k, i, run[k].lag);
    } else if 0 <= i < |open| {
      LastReportOfHealth(open, run, k, i, false);
    }
  }
}
