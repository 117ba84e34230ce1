/** How stale the indexed view of the chain is, in int64 nanoseconds that must not wrap. */
module Freshness {
  import opened Common

  const MAX_INT64: int := 0x7fff_ffff_ffff_ffff
  const MIN_INT64: int := -0x8000_0000_0000_0000

  const LEDGER_CLOSE_INTERVAL: int := 5_000_000_000
  const DEFAULT_BUDGET: int := 300_000_000_000

  /** int64 arithmetic: the representative of x modulo 2^64. */
  function Wrap64(x: int): (r: int)
    ensures MIN_INT64 <= r <= MAX_INT64
    ensures MIN_INT64 <= x <= MAX_INT64 ==> r == x
  {
    var m := x % TWO64;
    if m <= MAX_INT64 then m else m - TWO64
  }

  /** The difference of two instants, which the time package saturates. */
  function Sub(a: int, b: int): int {
    if a - b > MAX_INT64 then MAX_INT64 else if a - b < MIN_INT64 then MIN_INT64 else a - b
  }

  function Cap(x: int): int {
    if x > MAX_INT64 then MAX_INT64 else x
  }

  /** Ledgers as wall time: the true product, capped. */
  function LedgerLagDuration(ledgers: int): (d: int)
    requires 0 <= ledgers < TWO64
    ensures d == Cap(ledgers * LEDGER_CLOSE_INTERVAL) && d >= 0
  {
    if ledgers > MAX_INT64 / LEDGER_CLOSE_INTERVAL then MAX_INT64
    else Wrap64(Wrap64(ledgers) * LEDGER_CLOSE_INTERVAL)
  }

  /** The true sum, capped. */
  function AddSaturating(a: int, b: int): (d: int)
    requires 0 <= a <= MAX_INT64 && 0 <= b <= MAX_INT64
    ensures d == Cap(a + b)
  {
    if b > Wrap64(MAX_INT64 - a) then MAX_INT64 else Wrap64(a + b)
  }

  /** What the tracker knows. */
  datatype Sample = Sample(sampled: bool, at: int, indexed: int, network: int, errors: int)

  ghost predicate InRange(s: Sample) {
    0 <= s.indexed < TWO64 && 0 <= s.network < TWO64 && 0 <= s.errors < TWO64
  }

  datatype Report = Report(
    sampled: bool, indexedLedger: int, networkLedger: int, lagLedgers: int,
    lag: int, sampleAge: int, budget: int, stale: bool, sampleErrors: int)

  // ---- In unbounded integers ----

  function IdealAge(s: Sample, now: int): int {
    if now < s.at then 0 else now - s.at
  }

  function Behind(s: Sample): int {
    if s.sampled && s.network > s.indexed then s.network - s.indexed else 0
  }

  function IdealLag(s: Sample, now: int): int {
    IdealAge(s, now) + Behind(s) * LEDGER_CLOSE_INTERVAL
  }

  lemma CapOfSum(a: int, b: int)
    requires a >= 0 && b >= 0
    ensures Cap(Cap(a) + Cap(b)) == Cap(a + b)
  {}

  class Tracker {
    const budget: int
    var sampled: bool
    var sampledAt: int
    var indexedLedger: int
    var networkLedger: int
    var sampleErrors: int

    ghost function Value(): Sample
      reads this
    {
      Sample(sampled, sampledAt, indexedLedger, networkLedger, sampleErrors)
    }

    ghost predicate Valid()
      reads this
    {
      0 < budget <= MAX_INT64 && InRange(Value())
    }

    constructor (budget: int, now: int)
      requires MIN_INT64 <= budget <= MAX_INT64
      ensures Valid() && Value() == Sample(false, now, 0, 0, 0)
      ensures this.budget == if budget <= 0 then 300_000_000_000 else budget
    {
      this.budget := if budget <= 0 then DEFAULT_BUDGET else budget;
      sampled, sampledAt, indexedLedger, networkLedger, sampleErrors := false, now, 0, 0, 0;
    }

    method Observe(indexed: int, network: int, now: int)
      requires Valid() && 0 <= indexed < TWO64 && 0 <= network < TWO64
      modifies this
      ensures Valid() && Value() == Sample(true, now, indexed, network, old(sampleErrors))
    {
      sampled, sampledAt, indexedLedger, networkLedger := true, now, indexed, network;
    }

    /** A failed attempt proves nothing about freshness: only the error count moves. */
    method ObserveFailure()
      requires Valid()
      modifies this`sampleErrors
      ensures Valid() && sampleErrors == (old(sampleErrors) + 1) % TWO64
    {
      sampleErrors := (sampleErrors + 1) % TWO64;
    }

    /** The lag reported is the unbounded-integer lag, capped at the largest duration. */
    method Snapshot(now: int) returns (s: Report)
      requires Valid()
      ensures s.lag == Cap(IdealLag(Value(), now)) && s.lag >= 0
      ensures s.stale <==> s.lag > budget
      ensures s.sampleAge == Cap(IdealAge(Value(), now)) && s.budget == budget
      ensures s.sampled == sampled && s.sampleErrors == sampleErrors && s.lagLedgers == Behind(Value())
      ensures s.lagLedgers == (if sampled && networkLedger > indexedLedger then networkLedger - indexedLedger else 0)
      ensures var age := if now > sampledAt then now - sampledAt else 0;
              var lag := age + s.lagLedgers * 5_000_000_000;
              && s.sampleAge == (if age > 0x7fff_ffff_ffff_ffff then 0x7fff_ffff_ffff_ffff else age)
              && s.lag == (if lag > 0x7fff_ffff_ffff_ffff then 0x7fff_ffff_ffff_ffff else lag)
      ensures s.indexedLedger == (if sampled then indexedLedger else 0)
      ensures s.networkLedger == (if sampled then networkLedger else 0)
    {
      var age := Sub(now, sampledAt);
      if age < 0 {
        age := 0;
      }
      assert age == Cap(IdealAge(Value(), now));
      var indexed, network, lagLedgers, lag := 0, 0, 0, age;
      if sampled {
        indexed, network := indexedLedger, networkLedger;
        if network > indexed {
          lagLedgers := network - indexed;
        }
        lag := AddSaturating(age, LedgerLagDuration(lagLedgers));
        CapOfSum(IdealAge(Value(), now), lagLedgers * LEDGER_CLOSE_INTERVAL);
      }
      s := Report(sampled, indexed, network, lagLedgers, lag, age, budget, lag > budget, sampleErrors);
    }
  }

  // ---- What consumers may rely on ----

  predicate Stale(s: Sample, budget: int, now: int) {
    Cap(IdealLag(s, now)) > budget
  }

  /** The capped comparison agrees with the ideal one for every state exactly if the budget is
      below the largest duration. */
  lemma StaleIsIdealExactly(budget: int)
    requires 0 < budget <= MAX_INT64
    ensures (forall s, now :: Stale(s, budget, now) <==> IdealLag(s, now) > budget) <==> budget < MAX_INT64
  {
    if budget == MAX_INT64 {
      var s := Sample(false, 0, 0, 0, 0);
      assert IdealLag(s, MAX_INT64 + 1) > budget && !Stale(s, budget, MAX_INT64 + 1);
    }
  }

  datatype Event = Failed | Tick(to: int)

  /** What an indexer that reports no position leaves behind. */
  function Silent(s: Sample, now: int, events: seq<Event>): (Sample, int)
    decreases |events|
  {
    if events == [] then (s, now)
    else
      match events[0]
      case Failed => Silent(s.(errors := (s.errors + 1) % TWO64), now, events[1..])
      case Tick(to) => Silent(s, if to < now then now else to, events[1..])
  }

  /** While no sample succeeds the lag never goes down, whatever fails meanwhile. */
  lemma {:induction false} LagNeverFallsInSilence(s: Sample, now: int, events: seq<Event>)
    ensures var (t, later) := Silent(s, now, events);
            && now <= later
            && t == s.(errors := t.errors)
            && Cap(IdealLag(s, now)) <= Cap(IdealLag(t, later))
    decreases |events|
  {
    if events != [] {
      match events[0]
      case Failed => LagNeverFallsInSilence(s.(errors := (s.errors + 1) % TWO64), now, events[1..]);
      case Tick(to) => LagNeverFallsInSilence(s, if to < now then now else to, events[1..]);
    }
  }

  /** A silent indexer is stale at every instant more than one budget after its last sample. */
  lemma SilentIndexerIsStale(s: Sample, now: int, events: seq<Event>, budget: int)
    requires InRange(s) && 0 < budget < MAX_INT64
    ensures var (t, later) := Silent(s, now, events);
            later > s.at + budget ==> Stale(t, budget, later)
  {
    LagNeverFallsInSilence(s, now, events);
    var (t, later) := Silent(s, now, events);
    assert Behind(t) * LEDGER_CLOSE_INTERVAL >= 0;
  }
}
