/** The feature-flag store and the read-through cache in front of it. */
module FlagCache {
  import opened Common

  datatype Flag = Flag(name: string, body: string, createdAt: int, updatedAt: int)

  /** A definitive answer about a flag; only these are cached. */
  datatype Answer = Found(flag: Flag) | Missing

  datatype Entry = Entry(answer: Answer, expires: int)

  type Table = map<string, Flag>

  type Entries = map<string, Entry>

  function Truth(flags: Table, name: string): Answer {
    if name in flags then Found(flags[name]) else Missing
  }

  /** Creating a flag stamps both times; updating one keeps when it was created. */
  function Upserted(flags: Table, f: Flag, now: int): Table {
    flags[f.name := f.(createdAt := if f.name in flags then flags[f.name].createdAt else now, updatedAt := now)]
  }

  function Hit(entries: Entries, name: string, now: int): Option<Answer> {
    if name in entries && now < entries[name].expires then Some(entries[name].answer) else None
  }

  function Stored(entries: Entries, name: string, answer: Answer, now: int, ttl: int): Entries {
    entries[name := Entry(answer, now + ttl)]
  }

  /** Where a change to the store can go wrong, in the order the code meets it. */
  datatype Fault = NoFault | ReadFails | ExecFails | AuditFails

  datatype ChangeResult = Changed | NotChanged | ChangedButNotAudited

  // ---- One operation at a time, as a function of the table and the entries ----

  datatype Local = Local(flags: Table, entries: Entries)

  /** `accepted` is false for a flag that fails validation or the secret guard. */
  datatype Op =
    | GetOp(name: string, fails: bool, now: int, storedAt: int)
    | SetOp(flag: Flag, accepted: bool, fault: Fault, now: int)
    | DeleteOp(name: string, fault: Fault)

  function Subject(op: Op): string {
    if op.SetOp? then op.flag.name else op.name
  }

  /** How a change ends. */
  function ChangeOutcome(flags: Table, op: Op): ChangeResult
    requires !op.GetOp?
  {
    if op.SetOp? && !op.accepted then NotChanged
    else if op.fault == ReadFails || op.fault == ExecFails then NotChanged
    else if op.DeleteOp? && op.name !in flags then NotChanged
    else if op.fault == AuditFails then ChangedButNotAudited
    else Changed
  }

  function ChangedTable(flags: Table, op: Op): Table
    requires !op.GetOp?
  {
    if ChangeOutcome(flags, op) == NotChanged then flags
    else if op.SetOp? then Upserted(flags, op.flag, op.now)
    else flags - {op.name}
  }

  /** The answer a Get gives in a state; None is a transient error. */
  function GetAnswer(s: Local, op: Op): Option<Answer>
    requires op.GetOp?
  {
    if Hit(s.entries, op.name, op.now).Some? then Hit(s.entries, op.name, op.now)
    else if op.fails then None
    else Some(Truth(s.flags, op.name))
  }

  /** `wired` says whether the cache hears of announced changes. */
  function Do(ttl: int, wired: bool, s: Local, op: Op): Local {
    if op.GetOp? then
      if Hit(s.entries, op.name, op.now).Some? || op.fails then s
      else s.(entries := Stored(s.entries, op.name, Truth(s.flags, op.name), op.storedAt, ttl))
    else
      var told := wired && ChangeOutcome(s.flags, op) == Changed;
      Local(ChangedTable(s.flags, op), if told then s.entries - {Subject(op)} else s.entries)
  }

  class Cache {
    const ttl: int
    var entries: Entries

    constructor (ttl: int)
      ensures this.ttl == (if ttl <= 0 then 30_000_000_000 else ttl) && entries == map[]
    {
      this.ttl := if ttl <= 0 then 30_000_000_000 else ttl;
      entries := map[];
    }

    /** Answers from a fresh entry without touching the source; otherwise asks the source and
        keeps what it said, unless it said nothing definite. `storedAt` is the clock when the
        entry is written. */
    method Get(source: Store, name: string, now: int, fails: bool, storedAt: int) returns (r: Option<Answer>)
      modifies this
      ensures var s, op := Local(source.flags, old(entries)), GetOp(name, fails, now, storedAt);
              r == GetAnswer(s, op) && Local(source.flags, entries) == Do(ttl, true, s, op)
      ensures if name in old(entries) && now < old(entries)[name].expires then
                r == Some(old(entries)[name].answer) && entries == old(entries)
              else if fails then
                r == None && entries == old(entries)
              else
                && r == Some(if name in source.flags then Found(source.flags[name]) else Missing)
                && entries == old(entries)[name := Entry(r.value, storedAt + ttl)]
    {
      if name in entries && now < entries[name].expires {
        return Some(entries[name].answer);
      }
      r := source.Get(name, fails);
      if r.Some? {
        entries := entries[name := Entry(r.value, storedAt + ttl)];
      }
    }

    method Invalidate(name: string)
      modifies this
      ensures entries == old(entries) - {name}
    {
      entries := entries - {name};
    }

    method InvalidateAll()
      modifies this
      ensures entries == map[]
    {
      entries := map[];
    }
  }

  class Store {
    var flags: Table
    const listener: Cache?

    constructor (listener: Cache?)
      ensures flags == map[] && this.listener == listener
    {
      flags := map[];
      this.listener := listener;
    }

    method Get(name: string, fails: bool) returns (r: Option<Answer>)
      ensures r == if fails then None else Some(Truth(flags, name))
      ensures !fails ==> r == Some(if name in flags then Found(flags[name]) else Missing)
    {
      if fails {
        return None;
      }
      r := Some(if name in flags then Found(flags[name]) else Missing);
    }

    /** Creates or updates a flag. The listener hears of the change only after it was audited. */
    method Set(f: Flag, accepted: bool, fault: Fault, now: int) returns (r: ChangeResult)
      modifies this`flags, listener
      ensures var op := SetOp(f, accepted, fault, now);
              && r == ChangeOutcome(old(flags), op)
              && flags == ChangedTable(old(flags), op)
              && (listener != null ==>
                    forall ttl :: Local(flags, listener.entries) == Do(ttl, true, Local(old(flags), old(listener.entries)), op))
      ensures r == NotChanged <==> !accepted || fault == ReadFails || fault == ExecFails
      ensures r == ChangedButNotAudited <==> accepted && fault == AuditFails
      ensures r == NotChanged ==> flags == old(flags)
      ensures r != NotChanged ==>
                var created := if f.name in old(flags) then old(flags)[f.name].createdAt else now;
                flags == old(flags)[f.name := Flag(f.name, f.body, created, now)]
      ensures r != Changed && listener != null ==> listener.entries == old(listener.entries)
      ensures r == Changed && listener != null ==> listener.entries == old(listener.entries) - {f.name}
    {
      if !accepted {
        return NotChanged;
      }
      var before := Get(f.name, fault == ReadFails);
      if before == None {
        return NotChanged;
      }
      if fault == ExecFails {
        return NotChanged;
      }
      var created := if f.name in flags then flags[f.name].createdAt else now;
      flags := flags[f.name := f.(createdAt := created, updatedAt := now)];
      if fault == AuditFails {
        return ChangedButNotAudited;
      }
      if listener != null {
        listener.Invalidate(f.name);
      }
      r := Changed;
    }

    /** Removes a flag that exists. */
    method Delete(name: string, fault: Fault) returns (r: ChangeResult)
      modifies this`flags, listener
      ensures var op := DeleteOp(name, fault);
              && r == ChangeOutcome(old(flags), op)
              && flags == ChangedTable(old(flags), op)
              && (listener != null ==>
                    forall ttl :: Local(flags, listener.entries) == Do(ttl, true, Local(old(flags), old(listener.entries)), op))
      ensures r == NotChanged <==> name !in old(flags) || fault == ReadFails || fault == ExecFails
      ensures r == ChangedButNotAudited <==> name in old(flags) && fault == AuditFails
      ensures r == NotChanged ==> flags == old(flags)
      ensures r != NotChanged ==> name in old(flags) && flags == old(flags) - {name}
      ensures r != Changed && listener != null ==> listener.entries == old(listener.entries)
      ensures r == Changed && listener != null ==> listener.entries == old(listener.entries) - {name}
    {
      var prev := Get(name, fault == ReadFails);
      if prev == None || prev.value == Missing {
        return NotChanged;
      }
      if fault == ExecFails {
        return NotChanged;
      }
      flags := flags - {name};
      if fault == AuditFails {
        return ChangedButNotAudited;
      }
      if listener != null {
        listener.Invalidate(name);
      }
      r := Changed;
    }
  }

  // ---- Concurrent runs: a Get looks up, fetches and stores in three separate steps ----

  /** A Get that found no fresh entry and has read the store but not yet written the cache.
      `seen` is how many changes of the flag it has seen. */
  datatype Pending = Pending(name: string, answer: Answer, fetchedAt: int, seen: nat)

  /** Beside the table, the cache and the Gets under way: how often and when last each flag was
      changed, and when last a Get that had read before that change wrote the cache. */
  datatype World = World(
    clock: int, flags: Table, entries: Entries, pending: map<int, Pending>,
    changes: map<string, nat>, changedAt: map<string, int>, lateAt: map<string, int>)

  datatype Event =
    | Tick(to: int)
    | Change(name: string, flag: Option<Flag>)
    | Invalidated(name: string)
    | AllInvalidated
    | Fetch(id: int, name: string)
    | Store(id: int)

  function Start(): World {
    World(0, map[], map[], map[], map[], map[], map[])
  }

  function Changes(w: World, name: string): nat {
    if name in w.changes then w.changes[name] else 0
  }

  predicate Possible(w: World, e: Event) {
    match e
    case Tick(to) => w.clock <= to
    case Fetch(id, _) => id !in w.pending
    case Store(id) => id in w.pending
    case _ => true
  }

  function Step(ttl: int, w: World, e: Event): World {
    match e
    case Tick(to) => w.(clock := to)
    case Change(name, flag) =>
      w.(flags := if flag.Some? then w.flags[name := flag.value] else w.flags - {name},
         changes := w.changes[name := Changes(w, name) + 1],
         changedAt := w.changedAt[name := w.clock])
    case Invalidated(name) => w.(entries := w.entries - {name})
    case AllInvalidated => w.(entries := map[])
    case Fetch(id, name) =>
      w.(pending := w.pending[id := Pending(name, Truth(w.flags, name), w.clock, Changes(w, name))])
    case Store(id) =>
      if id !in w.pending then w
      else
        var p := w.pending[id];
        w.(entries := Stored(w.entries, p.name, p.answer, w.clock, ttl),
           pending := w.pending - {id},
           lateAt := if p.seen < Changes(w, p.name) then w.lateAt[p.name := w.clock] else w.lateAt)
  }

  function After(ttl: int, run: seq<Event>): World {
    if run == [] then Start() else Step(ttl, After(ttl, run[..|run| - 1]), run[|run| - 1])
  }

  ghost predicate Run(ttl: int, run: seq<Event>) {
    run != [] ==>
      && Run(ttl, run[..|run| - 1])
      && Possible(After(ttl, run[..|run| - 1]), run[|run| - 1])
  }

  /** One time to live has passed since the flag last changed, and since a Get that had read
      before that change last wrote the cache. */
  ghost predicate Quiet(ttl: int, w: World, name: string) {
    && (name in w.changedAt ==> w.changedAt[name] + ttl <= w.clock)
    && (name in w.lateAt ==> w.lateAt[name] + ttl <= w.clock)
  }

  /** An entry is the truth, or runs out within ttl of the last change or of the last late store. */
  ghost predicate EntrySound(ttl: int, w: World, name: string)
    requires name in w.entries
  {
    var e := w.entries[name];
    && e.expires <= w.clock + ttl
    && (|| e.answer == Truth(w.flags, name)
        || (name in w.changedAt && e.expires <= w.changedAt[name] + ttl)
        || (name in w.lateAt && e.expires <= w.lateAt[name] + ttl))
  }

  /** A Get that has seen every change of its flag has seen the truth. */
  ghost predicate PendingSound(w: World, id: int)
    requires id in w.pending
  {
    var p := w.pending[id];
    p.seen <= Changes(w, p.name) && (p.seen == Changes(w, p.name) ==> p.answer == Truth(w.flags, p.name))
  }

  ghost predicate Sound(ttl: int, w: World) {
    && (forall name :: name in w.entries ==> EntrySound(ttl, w, name))
    && (forall id :: id in w.pending ==> PendingSound(w, id))
  }

  lemma StepKeepsSound(ttl: int, w: World, e: Event)
    requires Sound(ttl, w) && Possible(w, e)
    ensures Sound(ttl, Step(ttl, w, e))
  {
    var v := Step(ttl, w, e);
    forall name | name in v.entries
      ensures EntrySound(ttl, v, name)
    {
      if e.Store? && name == w.pending[e.id].name {
        assert PendingSound(w, e.id);
      } else {
        assert EntrySound(ttl, w, name);
      }
    }
    forall id | id in v.pending
      ensures PendingSound(v, id)
    {
      if id in w.pending {
        assert PendingSound(w, id);
      }
    }
  }

  lemma {:induction false} EveryRunIsSound(ttl: int, run: seq<Event>)
    requires Run(ttl, run)
    ensures Sound(ttl, After(ttl, run))
  {
    if run != [] {
      EveryRunIsSound(ttl, run[..|run| - 1]);
      StepKeepsSound(ttl, After(ttl, run[..|run| - 1]), run[|run| - 1]);
    }
  }

  /** However Gets interleave and whichever invalidations are lost, once ttl has passed since the
      flag last changed and since the store step of any Get that had read before, whatever the
      cache still serves for it is what the store holds. */
  lemma EveryQuietFlagAgrees(ttl: int, run: seq<Event>, name: string)
    requires Run(ttl, run)
    ensures var w := After(ttl, run);
            Quiet(ttl, w, name) && Hit(w.entries, name, w.clock).Some? ==>
              Hit(w.entries, name, w.clock) == Some(Truth(w.flags, name))
  {
    EveryRunIsSound(ttl, run);
    var w := After(ttl, run);
    if name in w.entries {
      assert EntrySound(ttl, w, name);
    }
  }

  // ---- The same in advance: how long a change takes if Gets are prompt ----

  /** `delay` bounds the time between a Get's reading the store and its writing the cache. */
  ghost predicate Prompt(ttl: int, delay: int, run: seq<Event>) {
    run != [] ==>
      var w, e := After(ttl, run[..|run| - 1]), run[|run| - 1];
      && Prompt(ttl, delay, run[..|run| - 1])
      && (e.Store? && e.id in w.pending ==> w.clock <= w.pending[e.id].fetchedAt + delay)
  }

  /** Once a flag has been left alone for `settle`, whatever the cache still serves for it is
      what the store holds. */
  ghost predicate Settled(w: World, settle: int) {
    forall name | Hit(w.entries, name, w.clock).Some? ::
      (name in w.changedAt ==> w.changedAt[name] + settle <= w.clock) ==>
        Hit(w.entries, name, w.clock) == Some(Truth(w.flags, name))
  }

  /** ... in every run, whichever invalidations are lost. */
  ghost predicate Converges(ttl: int, delay: int, settle: int) {
    forall run :: Run(ttl, run) && Prompt(ttl, delay, run) ==> Settled(After(ttl, run), settle)
  }

  /** Late stores follow the last change by at most the delay. */
  ghost predicate Punctual(delay: int, w: World) {
    && (forall name :: name in w.changedAt ==> w.changedAt[name] <= w.clock)
    && (forall id :: id in w.pending ==>
          var p := w.pending[id];
          && p.fetchedAt <= w.clock
          && (p.seen < Changes(w, p.name) ==> p.name in w.changedAt && p.fetchedAt <= w.changedAt[p.name]))
    && (forall name :: name in w.lateAt ==> name in w.changedAt && w.lateAt[name] <= w.changedAt[name] + delay)
  }

  lemma StepKeepsPunctual(ttl: int, delay: int, w: World, e: Event)
    requires delay >= 0 && Punctual(delay, w) && Possible(w, e)
    requires e.Store? && e.id in w.pending ==> w.clock <= w.pending[e.id].fetchedAt + delay
    ensures Punctual(delay, Step(ttl, w, e))
  {}

  lemma {:induction false} PromptRunsArePunctual(ttl: int, delay: int, run: seq<Event>)
    requires delay >= 0 && Run(ttl, run) && Prompt(ttl, delay, run)
    ensures Punctual(delay, After(ttl, run))
  {
    if run != [] {
      PromptRunsArePunctual(ttl, delay, run[..|run| - 1]);
      StepKeepsPunctual(ttl, delay, After(ttl, run[..|run| - 1]), run[|run| - 1]);
    }
  }

  lemma PromptRunSettles(ttl: int, delay: int, settle: int, run: seq<Event>)
    requires ttl > 0 && delay >= 0 && delay + ttl <= settle && Run(ttl, run) && Prompt(ttl, delay, run)
    ensures Settled(After(ttl, run), settle)
  {
    PromptRunsArePunctual(ttl, delay, run);
    var w := After(ttl, run);
    forall name | Hit(w.entries, name, w.clock).Some? && (name in w.changedAt ==> w.changedAt[name] + settle <= w.clock)
      ensures Hit(w.entries, name, w.clock) == Some(Truth(w.flags, name))
    {
      EveryQuietFlagAgrees(ttl, run, name);
    }
  }

  const LATE := Flag("f", "", 0, 0)

  /** A read made just before a change, and written to the cache `delay` later. The change is
      even announced to the cache in between. */
  function LateStore(delay: int, until: int): seq<Event> {
    [Fetch(0, "f"), Change("f", Some(LATE)), Invalidated("f"), Tick(delay), Store(0), Tick(until)]
  }

  lemma LateStoreFirstHalf(ttl: int, delay: int, until: int)
    requires 0 <= delay
    ensures var run := LateStore(delay, until)[..4];
            && Run(ttl, run) && Prompt(ttl, delay, run)
            && After(ttl, run) ==
               World(delay, map["f" := LATE], map[], map[0 := Pending("f", Missing, 0, 0)],
                     map["f" := 1], map["f" := 0], map[])
  {
    var run := LateStore(delay, until);
    assert run[..4][..3] == run[..3] && run[..3][..2] == run[..2] && run[..2][..1] == run[..1] && run[..1][..0] == [];
    var p := Pending("f", Missing, 0, 0);
    assert After(ttl, run[..1]) == World(0, map[], map[], map[0 := p], map[], map[], map[]);
    assert After(ttl, run[..2]) ==
           World(0, map["f" := LATE], map[], map[0 := p], map["f" := 1], map["f" := 0], map[]);
    assert After(ttl, run[..3]) == After(ttl, run[..2]);
    assert Run(ttl, []) && Run(ttl, run[..1]) && Run(ttl, run[..2]) && Run(ttl, run[..3]);
    assert Prompt(ttl, delay, []) && Prompt(ttl, delay, run[..1]);
    assert Prompt(ttl, delay, run[..2]) && Prompt(ttl, delay, run[..3]);
  }

  lemma LateStoreWorld(ttl: int, delay: int, until: int)
    requires 0 <= delay <= until
    ensures Run(ttl, LateStore(delay, until)) && Prompt(ttl, delay, LateStore(delay, until))
    ensures After(ttl, LateStore(delay, until)) ==
            World(until, map["f" := LATE], map["f" := Entry(Missing, delay + ttl)], map[],
                  map["f" := 1], map["f" := 0], map["f" := delay])
  {
    LateStoreFirstHalf(ttl, delay, until);
    var run := LateStore(delay, until);
    assert run[..5][..4] == run[..4];
    assert After(ttl, run[..5]) ==
           World(delay, map["f" := LATE], map["f" := Entry(Missing, delay + ttl)], map[],
                 map["f" := 1], map["f" := 0], map["f" := delay]);
    assert Run(ttl, run[..5]) && Prompt(ttl, delay, run[..5]);
  }

  lemma LateStoreUnsettled(ttl: int, delay: int, settle: int)
    requires ttl > 0 && delay >= 0 && settle < delay + ttl
    ensures !Converges(ttl, delay, settle)
  {
    var until := if settle < delay then delay else settle;
    LateStoreWorld(ttl, delay, until);
    hide After;
    hide Run;
    hide Prompt;
    var w := After(ttl, LateStore(delay, until));
    assert Hit(w.entries, "f", w.clock) == Some(Missing);
    assert !Settled(w, settle);
  }

  /** How long a change takes to reach every reader when invalidations can be lost: the time to
      live plus the longest a Get can sit between reading the store and writing the cache, and
      not a nanosecond less. The time to live alone is not enough unless that gap is nil. */
  lemma ConvergesExactly(ttl: int, delay: int, settle: int)
    requires ttl > 0 && delay >= 0
    ensures Converges(ttl, delay, settle) <==> delay + ttl <= settle
  {
    if delay + ttl <= settle {
      forall run | Run(ttl, run) && Prompt(ttl, delay, run)
        ensures Settled(After(ttl, run), settle)
      {
        PromptRunSettles(ttl, delay, settle, run);
      }
    } else {
      LateStoreUnsettled(ttl, delay, settle);
    }
  }

  // ---- Sequential runs on one instance ----

  /** Every entry, fresh or not, holds what the store holds. */
  ghost predicate Agree(s: Local) {
    forall name :: name in s.entries ==> s.entries[name].answer == Truth(s.flags, name)
  }

  /** The operation changes a flag the cache holds and the cache is not told. */
  ghost predicate Untold(wired: bool, s: Local, op: Op) {
    && !op.GetOp?
    && Subject(op) in s.entries
    && Truth(ChangedTable(s.flags, op), Subject(op)) != Truth(s.flags, Subject(op))
    && !(wired && ChangeOutcome(s.flags, op) == Changed)
  }

  lemma AgreementLostExactly(ttl: int, wired: bool, s: Local, op: Op)
    requires Agree(s)
    ensures Agree(Do(ttl, wired, s, op)) <==> !Untold(wired, s, op)
  {
    var t := Do(ttl, wired, s, op);
    var subject := Subject(op);
    assert forall name :: name != subject ==> Truth(t.flags, name) == Truth(s.flags, name);
    if Untold(wired, s, op) {
      assert subject in t.entries;
    }
  }

  function DoAll(ttl: int, wired: bool, ops: seq<Op>): Local {
    if ops == [] then Local(map[], map[]) else Do(ttl, wired, DoAll(ttl, wired, ops[..|ops| - 1]), ops[|ops| - 1])
  }

  /** With invalidation wired and no audit failure, a sequential run never serves anything but
      what the store holds. */
  lemma {:induction false} SequentialReadsAgree(ttl: int, ops: seq<Op>)
    requires forall i :: 0 <= i < |ops| && !ops[i].GetOp? ==> ops[i].fault != AuditFails
    ensures Agree(DoAll(ttl, true, ops))
    ensures forall name, fails, now, storedAt ::
              var answer := GetAnswer(DoAll(ttl, true, ops), GetOp(name, fails, now, storedAt));
              answer.Some? ==> answer.value == Truth(DoAll(ttl, true, ops).flags, name)
  {
    if ops != [] {
      SequentialReadsAgree(ttl, ops[..|ops| - 1]);
      var s := DoAll(ttl, true, ops[..|ops| - 1]);
      AgreementLostExactly(ttl, true, s, ops[|ops| - 1]);
    }
  }

  /** A change whose audit record fails stays in the store and out of the cache. */
  lemma AuditFailureLeavesStaleEntry(ttl: int)
    requires ttl > 0
    ensures var ops := [GetOp("f", false, 0, 0), SetOp(LATE, true, AuditFails, 0)];
            var s := DoAll(ttl, true, ops);
            && GetAnswer(s, GetOp("f", false, 0, 0)) == Some(Missing)
            && Truth(s.flags, "f") == Found(LATE)
  {
    var ops := [GetOp("f", false, 0, 0), SetOp(LATE, true, AuditFails, 0)];
    assert ops[..1][..0] == [];
    assert DoAll(ttl, true, ops[..1]) == Local(map[], map["f" := Entry(Missing, ttl)]);
  }
}
