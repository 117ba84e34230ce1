/** The breaker's ten-slot ring, seen as a compressed log of timestamped outcomes.

    Time is cut into slots of equal length counted from an origin. A ring whose head is
    on slot `slot` stands for a log of samples when every cell holds the totals of the
    one slot it is responsible for. */
module RollingWindow {

  const WINDOW_BUCKETS: int := 10

  datatype Bucket = Bucket(total: nat, failures: nat)

  /** One counted outcome: when it was reported, the slot that instant falls in, and
      whether it was a failure. */
  datatype Sample = Sample(at: int, slot: int, failed: bool)

  function Slot(origin: int, dur: int, at: int): int
    requires dur > 0
  {
    (at - origin) / dur
  }

  /** Whether a sample lies in the slots (lo, hi], counting only failures if asked to. */
  predicate Counts(s: Sample, failedOnly: bool, lo: int, hi: int) {
    lo < s.slot <= hi && (failedOnly ==> s.failed)
  }

  function Count(log: seq<Sample>, failedOnly: bool, lo: int, hi: int): nat {
    if log == [] then 0
    else
      Count(log[..|log| - 1], failedOnly, lo, hi) +
      if Counts(log[|log| - 1], failedOnly, lo, hi) then 1 else 0
  }

  /** The samples in the slots (lo, hi], oldest first. */
  function Select(log: seq<Sample>, failedOnly: bool, lo: int, hi: int): (r: seq<Sample>)
    ensures |r| == Count(log, failedOnly, lo, hi)
    ensures forall s :: s in r <==> s in log && Counts(s, failedOnly, lo, hi)
  {
    if log == [] then []
    else
      assert log == log[..|log| - 1] + [log[|log| - 1]];
      Select(log[..|log| - 1], failedOnly, lo, hi) +
      if Counts(log[|log| - 1], failedOnly, lo, hi) then [log[|log| - 1]] else []
  }

  /** The positions in the log of the outcomes in the slots (lo, hi]. */
  ghost function OutcomesIn(log: seq<Sample>, lo: int, hi: int): set<int> {
    set i | 0 <= i < |log| && lo < log[i].slot <= hi
  }

  /** ... and of the failures among them. */
  ghost function FailuresIn(log: seq<Sample>, lo: int, hi: int): set<int> {
    set i | 0 <= i < |log| && lo < log[i].slot <= hi && log[i].failed
  }

  lemma {:induction false} OutcomesAreCounted(log: seq<Sample>, lo: int, hi: int)
    ensures Count(log, false, lo, hi) == |OutcomesIn(log, lo, hi)|
  {
    if log != [] {
      var init, last := log[..|log| - 1], log[|log| - 1];
      OutcomesAreCounted(init, lo, hi);
      var few := OutcomesIn(init, lo, hi);
      if lo < last.slot <= hi {
        assert OutcomesIn(log, lo, hi) == few + {|init|};
      } else {
        assert OutcomesIn(log, lo, hi) == few;
      }
    }
  }

  lemma {:induction false} FailuresAreCounted(log: seq<Sample>, lo: int, hi: int)
    ensures Count(log, true, lo, hi) == |FailuresIn(log, lo, hi)|
  {
    if log != [] {
      var init, last := log[..|log| - 1], log[|log| - 1];
      FailuresAreCounted(init, lo, hi);
      var few := FailuresIn(init, lo, hi);
      if lo < last.slot <= hi && last.failed {
        assert FailuresIn(log, lo, hi) == few + {|init|};
      } else {
        assert FailuresIn(log, lo, hi) == few;
      }
    }
  }

  /** Counting is taking the size of those sets. */
  lemma CountIsCardinality(log: seq<Sample>, lo: int, hi: int)
    ensures Count(log, false, lo, hi) == |OutcomesIn(log, lo, hi)|
    ensures Count(log, true, lo, hi) == |FailuresIn(log, lo, hi)|
  {
    OutcomesAreCounted(log, lo, hi);
    FailuresAreCounted(log, lo, hi);
  }

  /** The slot that cell `p` of a ring with head `index` on `slot` answers for. */
  function HeldSlot(index: int, slot: int, p: int): int {
    if p <= index then slot - index + p else slot - index + p - WINDOW_BUCKETS
  }

  /** The bucket holds exactly the samples of slot `slot`. */
  ghost predicate Holds(b: Bucket, log: seq<Sample>, slot: int) {
    && b.total == Count(log, false, slot - 1, slot)
    && b.failures == Count(log, true, slot - 1, slot)
  }

  ghost predicate UpTo(log: seq<Sample>, slot: int) {
    forall i :: 0 <= i < |log| ==> log[i].slot <= slot
  }

  /** The ring holds, cell by cell, exactly the samples of the ten slots ending at `slot`. */
  ghost predicate Represents(buckets: seq<Bucket>, index: int, slot: int, log: seq<Sample>) {
    && |buckets| == WINDOW_BUCKETS
    && 0 <= index < WINDOW_BUCKETS
    && UpTo(log, slot)
    && forall p :: 0 <= p < WINDOW_BUCKETS ==> Holds(buckets[p], log, HeldSlot(index, slot, p))
  }

  lemma CountAppend(log: seq<Sample>, s: Sample, failedOnly: bool, lo: int, hi: int)
    ensures Count(log + [s], failedOnly, lo, hi) ==
            Count(log, failedOnly, lo, hi) + if Counts(s, failedOnly, lo, hi) then 1 else 0
  {
    assert (log + [s])[..|log|] == log;
  }

  lemma {:induction false} CountSplit(log: seq<Sample>, failedOnly: bool, lo: int, mid: int, hi: int)
    requires lo <= mid <= hi
    ensures Count(log, failedOnly, lo, hi) ==
            Count(log, failedOnly, lo, mid) + Count(log, failedOnly, mid, hi)
  {
    if log != [] {
      CountSplit(log[..|log| - 1], failedOnly, lo, mid, hi);
    }
  }

  lemma {:induction false} CountAbove(log: seq<Sample>, failedOnly: bool, lo: int, hi: int)
    requires UpTo(log, lo)
    ensures Count(log, failedOnly, lo, hi) == 0
  {
    if log != [] {
      CountAbove(log[..|log| - 1], failedOnly, lo, hi);
    }
  }

  lemma EmptyAbove(log: seq<Sample>, slot: int)
    requires UpTo(log, slot - 1)
    ensures Holds(Bucket(0, 0), log, slot)
  {
    CountAbove(log, false, slot - 1, slot);
    CountAbove(log, true, slot - 1, slot);
  }

  /** One turn of the ring: the next cell is wiped and becomes the head. */
  lemma TurnKeeps(buckets: seq<Bucket>, index: int, slot: int, log: seq<Sample>)
    requires Represents(buckets, index, slot, log)
    ensures var next := (index + 1) % WINDOW_BUCKETS;
            Represents(buckets[next := Bucket(0, 0)], next, slot + 1, log)
  {
    EmptyAbove(log, slot + 1);
    var next := (index + 1) % WINDOW_BUCKETS;
    assert forall p :: 0 <= p < WINDOW_BUCKETS && p != next ==>
                         HeldSlot(next, slot + 1, p) == HeldSlot(index, slot, p);
  }

  /** Ten or more turns: the whole ring is wiped at once. */
  lemma WipeKeeps(log: seq<Sample>, slot: int, later: int)
    requires UpTo(log, slot) && slot + WINDOW_BUCKETS <= later
    ensures Represents(seq(WINDOW_BUCKETS, _ => Bucket(0, 0)), 0, later, log)
  {
    forall p | 0 <= p < WINDOW_BUCKETS
      ensures Holds(Bucket(0, 0), log, HeldSlot(0, later, p))
    {
      EmptyAbove(log, HeldSlot(0, later, p));
    }
  }

  function Counting(b: Bucket, s: Sample): Bucket {
    Bucket(b.total + 1, b.failures + if s.failed then 1 else 0)
  }

  lemma CellKeeps(b: Bucket, log: seq<Sample>, s: Sample, slot: int)
    requires Holds(b, log, slot)
    ensures Holds(if s.slot == slot then Counting(b, s) else b, log + [s], slot)
  {
    CountAppend(log, s, false, slot - 1, slot);
    CountAppend(log, s, true, slot - 1, slot);
  }

  /** Counting one outcome in the head cell. */
  lemma CountKeeps(buckets: seq<Bucket>, index: int, slot: int, log: seq<Sample>, s: Sample)
    requires Represents(buckets, index, slot, log) && s.slot == slot
    ensures Represents(buckets[index := Counting(buckets[index], s)], index, slot, log + [s])
  {
    hide Holds;
    forall p | 0 <= p < WINDOW_BUCKETS
      ensures Holds(buckets[index := Counting(buckets[index], s)][p], log + [s], HeldSlot(index, slot, p))
    {
      CellKeeps(buckets[p], log, s, HeldSlot(index, slot, p));
    }
  }

  /** What the first `p` cells of the ring add up to. Cells 0..index hold the latest slots;
      the cells after the head hold the ones before those. */
  ghost function FirstCells(log: seq<Sample>, failedOnly: bool, index: int, slot: int, p: int): nat {
    var base := slot - index - 1;
    if p <= index + 1 then Count(log, failedOnly, base, base + p)
    else Count(log, failedOnly, base, slot) +
         Count(log, failedOnly, slot - WINDOW_BUCKETS, base + p - WINDOW_BUCKETS)
  }

  lemma {:induction false} CountNone(log: seq<Sample>, failedOnly: bool, slot: int)
    ensures Count(log, failedOnly, slot, slot) == 0
  {
    if log != [] {
      CountNone(log[..|log| - 1], failedOnly, slot);
    }
  }

  lemma FirstCellsStep(log: seq<Sample>, failedOnly: bool, index: int, slot: int, p: int)
    requires 0 <= index < WINDOW_BUCKETS && 0 <= p < WINDOW_BUCKETS
    ensures var h := HeldSlot(index, slot, p);
            FirstCells(log, failedOnly, index, slot, p + 1) ==
            FirstCells(log, failedOnly, index, slot, p) + Count(log, failedOnly, h - 1, h)
  {
    var base := slot - index - 1;
    if p <= index {
      CountSplit(log, failedOnly, base, base + p, base + p + 1);
    } else {
      CountNone(log, failedOnly, slot - WINDOW_BUCKETS);
      CountSplit(log, failedOnly, slot - WINDOW_BUCKETS, base + p - WINDOW_BUCKETS, base + p + 1 - WINDOW_BUCKETS);
    }
  }

  lemma FirstCellsEnds(log: seq<Sample>, failedOnly: bool, index: int, slot: int)
    requires 0 <= index < WINDOW_BUCKETS
    ensures FirstCells(log, failedOnly, index, slot, 0) == 0
    ensures FirstCells(log, failedOnly, index, slot, WINDOW_BUCKETS) ==
            Count(log, failedOnly, slot - WINDOW_BUCKETS, slot)
  {
    CountNone(log, failedOnly, slot - index - 1);
    CountSplit(log, failedOnly, slot - WINDOW_BUCKETS, slot - index - 1, slot);
  }

  /** A ring is determined, up to rotation, by the log and the slot it has been rolled to:
      however many stops the rolling made, the cell j places behind the head is the same. */
  lemma RingsAgreeUpToRotation(
    b1: seq<Bucket>, i1: int, b2: seq<Bucket>, i2: int, slot: int, log: seq<Sample>, j: int)
    requires 0 <= j < WINDOW_BUCKETS
    requires Represents(b1, i1, slot, log) && Represents(b2, i2, slot, log)
    ensures Holds(b1[(i1 - j) % WINDOW_BUCKETS], log, slot - j)
    ensures b1[(i1 - j) % WINDOW_BUCKETS] == b2[(i2 - j) % WINDOW_BUCKETS]
  {
    assert HeldSlot(i1, slot, (i1 - j) % WINDOW_BUCKETS) == slot - j;
    assert HeldSlot(i2, slot, (i2 - j) % WINDOW_BUCKETS) == slot - j;
  }

  lemma SlotBounds(origin: int, dur: int, at: int)
    requires dur > 0
    ensures Slot(origin, dur, at) * dur <= at - origin < Slot(origin, dur, at) * dur + dur
  {}

  lemma SlotsApart(a: int, k: int, b: int, dur: int)
    requires dur > 0 && a + k <= b
    ensures a * dur + k * dur <= b * dur
  {
    assert (b - a - k) * dur >= 0;
  }

  /** How long an outcome counts: always for nine slot lengths, never for ten. */
  lemma ExpiryBounds(origin: int, dur: int, at: int, now: int)
    requires dur > 0 && at <= now
    ensures now - at <= (WINDOW_BUCKETS - 1) * dur ==>
              Slot(origin, dur, at) > Slot(origin, dur, now) - WINDOW_BUCKETS
    ensures Slot(origin, dur, at) > Slot(origin, dur, now) - WINDOW_BUCKETS ==>
              now - at < WINDOW_BUCKETS * dur
    ensures Slot(origin, dur, at) <= Slot(origin, dur, now)
  {
    var a, b := Slot(origin, dur, at), Slot(origin, dur, now);
    SlotBounds(origin, dur, at);
    SlotBounds(origin, dur, now);
    if b < a {
      SlotsApart(b, 1, a, dur);
    } else if a + WINDOW_BUCKETS <= b {
      SlotsApart(a, WINDOW_BUCKETS, b, dur);
    } else {
      SlotsApart(b, 1 - WINDOW_BUCKETS, a, dur);
    }
  }

  /** Rolling by whole slots from a slot boundary lands on the slot of the instant reached. */
  lemma SlotAfter(origin: int, dur: int, slot: int, now: int)
    requires dur > 0 && origin + slot * dur <= now
    ensures Slot(origin, dur, now) == slot + (now - (origin + slot * dur)) / dur
  {
    var steps := (now - (origin + slot * dur)) / dur;
    var s := Slot(origin, dur, now);
    SlotBounds(origin, dur, now);
    assert (slot + steps) * dur == slot * dur + steps * dur;
    if s < slot + steps {
      SlotsApart(s, 1, slot + steps, dur);
    } else if s > slot + steps {
      SlotsApart(slot + steps, 1, s, dur);
    }
  }
}
