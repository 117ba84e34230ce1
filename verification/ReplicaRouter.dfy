/** Replica-aware reads: a round-robin scan over the replicas that may serve, and a primary
    pin that gives every user a view containing their own writes. Instants and durations are
    nanoseconds. */
module ReplicaRouter {
  import opened Common

  /** Where a query goes. */
  datatype Pool = Primary | Replica(index: int)

  /** A replica as the router knows it. `open` is false if its pool could not be opened. */
  datatype ReplicaInfo = ReplicaInfo(open: bool, healthy: bool, lag: int)

  predicate Eligible(r: ReplicaInfo, maxLag: int) {
    r.healthy && (maxLag <= 0 || r.lag <= maxLag)
  }

  predicate Servable(r: ReplicaInfo, maxLag: int) {
    Eligible(r, maxLag) && r.open
  }

  /** The i-th replica a scan from counter value `start` looks at, in uint64 arithmetic. */
  function Visit(start: int, i: int, n: int): (x: int)
    requires n > 0
    ensures 0 <= x < n
  {
    ((start + i) % TWO64) % n
  }

  ghost predicate Visited(start: int, n: int, x: int)
    requires n > 0
  {
    exists i :: 0 <= i < n && Visit(start, i, n) == x
  }

  /** The outcome of a scan from `start`: the first servable replica it meets, or the primary if
      it meets none. */
  ghost predicate Scan(replicas: seq<ReplicaInfo>, maxLag: int, start: int, pool: Pool)
    requires replicas != []
  {
    var n := |replicas|;
    if pool == Primary then forall i :: 0 <= i < n ==> !Servable(replicas[Visit(start, i, n)], maxLag)
    else
      && 0 <= pool.index < n && Servable(replicas[pool.index], maxLag)
      && exists i :: && 0 <= i < n && Visit(start, i, n) == pool.index
                     && forall j :: 0 <= j < i ==> !Servable(replicas[Visit(start, j, n)], maxLag)
  }

  // ---- The pins ----

  type Pins = map<string, int>

  function Pin(pins: Pins, window: int, user: string, now: int): Pins {
    pins[user := now + window]
  }

  predicate Pinned(pins: Pins, user: string, now: int) {
    user in pins && now <= pins[user]
  }

  /** Asking drops a pin that has run out. */
  function Asked(pins: Pins, user: string, now: int): Pins {
    if user in pins && now > pins[user] then pins - {user} else pins
  }

  class Router {
    const maxLag: int
    const window: int
    var replicas: seq<ReplicaInfo>
    var next: int
    var pins: Pins

    ghost predicate Valid()
      reads this
    {
      0 <= next < TWO64
    }

    constructor (open: seq<bool>, maxLag: int, window: int)
      ensures Valid() && this.maxLag == maxLag && this.window == window
      ensures next == 0 && pins == map[] && |replicas| == |open|
      ensures forall i :: 0 <= i < |open| ==> replicas[i] == ReplicaInfo(open[i], open[i], 0)
    {
      this.maxLag, this.window := maxLag, window;
      next, pins := 0, map[];
      replicas := seq(|open|, i requires 0 <= i < |open| => ReplicaInfo(open[i], open[i], 0));
    }

    /** Moves the cursor on and scans from there. */
    method ReadAny() returns (pool: Pool)
      requires Valid()
      modifies this`next
      ensures Valid()
      ensures next == if replicas == [] then old(next) else (old(next) + 1) % TWO64
      ensures if replicas == [] then pool == Primary else Scan(replicas, maxLag, next, pool)
      ensures pool.Replica? ==>
                && 0 <= pool.index < |replicas|
                && var r := replicas[pool.index]; r.open && r.healthy && (maxLag > 0 ==> r.lag <= maxLag)
      ensures pool == Primary && replicas != [] ==>
                forall i :: 0 <= i < |replicas| ==>
                  var r := replicas[Visit(next, i, |replicas|)];
                  !r.open || !r.healthy || (maxLag > 0 && r.lag > maxLag)
    {
      var n := |replicas|;
      if n == 0 {
        return Primary;
      }
      next := (next + 1) % TWO64;
      var start := next;
      for i := 0 to n
        invariant forall j :: 0 <= j < i ==> !Servable(replicas[Visit(start, j, n)], maxLag)
      {
        var idx := ((start + i) % TWO64) % n;
        assert idx == Visit(start, i, n);
        var rep := replicas[idx];
        if Eligible(rep, maxLag) && rep.open {
          return Replica(idx);
        }
      }
      pool := Primary;
    }

    method IsPinned(user: string, now: int) returns (pinned: bool)
      modifies this`pins
      ensures pinned == Pinned(old(pins), user, now)
      ensures pins == Asked(old(pins), user, now)
      ensures pinned <==> user in old(pins) && now <= old(pins)[user]
      ensures user in pins <==> pinned
      ensures forall u :: u in old(pins) && (u != user || pinned) ==> u in pins && pins[u] == old(pins)[u]
      ensures forall u :: u in pins ==> u in old(pins)
    {
      if user !in pins {
        return false;
      }
      if now > pins[user] {
        pins := pins - {user};
        return false;
      }
      pinned := true;
    }

    method Read(user: string, now: int) returns (pool: Pool)
      requires Valid()
      modifies this`next, this`pins
      ensures Valid()
      ensures if user != "" && Pinned(old(pins), user, now) then pool == Primary && next == old(next)
              else if replicas == [] then pool == Primary && next == old(next)
              else next == (old(next) + 1) % TWO64 && Scan(replicas, maxLag, next, pool)
      ensures pins == if user == "" then old(pins) else Asked(old(pins), user, now)
      ensures user != "" && user in old(pins) && now <= old(pins)[user] ==> pool == Primary
      ensures pool.Replica? ==>
                && 0 <= pool.index < |replicas|
                && var r := replicas[pool.index]; r.open && r.healthy && (maxLag > 0 ==> r.lag <= maxLag)
      ensures pool == Primary && !(user != "" && user in old(pins) && now <= old(pins)[user]) && replicas != [] ==>
                forall i :: 0 <= i < |replicas| ==>
                  var r := replicas[Visit(next, i, |replicas|)];
                  !r.open || !r.healthy || (maxLag > 0 && r.lag > maxLag)
    {
      if user != "" {
        var pinned := IsPinned(user, now);
        if pinned {
          return Primary;
        }
      }
      pool := ReadAny();
    }

    method NoteWrite(user: string, now: int)
      modifies this`pins
      ensures pins == if user == "" then old(pins) else Pin(old(pins), window, user, now)
      ensures user != "" ==> user in pins && pins[user] == now + window
      ensures forall u :: u != user || user == "" ==> (u in pins <==> u in old(pins))
      ensures forall u :: u in old(pins) && (u != user || user == "") ==> u in pins && pins[u] == old(pins)[u]
    {
      if user != "" {
        pins := pins[user := now + window];
      }
    }

    method SetReplicaHealth(i: int, healthy: bool)
      modifies this`replicas
      ensures replicas == WithHealth(old(replicas), i, healthy)
      ensures |replicas| == |old(replicas)|
      ensures 0 <= i < |replicas| ==>
                && replicas[i].healthy == healthy
                && replicas[i].open == old(replicas)[i].open && replicas[i].lag == old(replicas)[i].lag
      ensures forall j :: 0 <= j < |replicas| && j != i ==> replicas[j] == old(replicas)[j]
    {
      if i < 0 || i >= |replicas| {
        return;
      }
      replicas := replicas[i := replicas[i].(healthy := healthy)];
    }

    method SetReplicaLag(i: int, lag: int)
      modifies this`replicas
      ensures replicas == WithLag(old(replicas), i, lag)
      ensures |replicas| == |old(replicas)|
      ensures 0 <= i < |replicas| ==>
                && replicas[i].lag == lag
                && replicas[i].open == old(replicas)[i].open && replicas[i].healthy == old(replicas)[i].healthy
      ensures forall j :: 0 <= j < |replicas| && j != i ==> replicas[j] == old(replicas)[j]
    {
      if i < 0 || i >= |replicas| {
        return;
      }
      replicas := replicas[i := replicas[i].(lag := lag)];
    }
  }

  function WithHealth(replicas: seq<ReplicaInfo>, i: int, healthy: bool): seq<ReplicaInfo> {
    if 0 <= i < |replicas| then replicas[i := replicas[i].(healthy := healthy)] else replicas
  }

  function WithLag(replicas: seq<ReplicaInfo>, i: int, lag: int): seq<ReplicaInfo> {
    if 0 <= i < |replicas| then replicas[i := replicas[i].(lag := lag)] else replicas
  }

  // ---- The scan ----

  lemma SmallMultiple(k: int, n: int)
    requires n > 0 && -n < k * n < n
    ensures k == 0
  {
    assert k >= 1 ==> (k - 1) * n >= 0;
    assert k <= -1 ==> (k + 1) * n <= 0;
  }

  lemma ModShift(q: int, x: int, n: int)
    requires n > 0 && 0 <= x < n
    ensures (q * n + x) % n == x
  {
    var y := q * n + x;
    var m := y / n;
    assert y == m * n + y % n;
    assert (m - q) * n == m * n - q * n;
    SmallMultiple(m - q, n);
  }

  /** A scan that does not run past the last counter value meets every replica. */
  lemma MeetsAllBeforeWrap(start: int, n: int, x: int)
    requires 0 <= start && 0 < n && start + n <= TWO64 && 0 <= x < n
    ensures Visited(start, n, x)
  {
    var i := (x - start) % n;
    var q := (x - start) / n;
    assert start + i == -q * n + x;
    ModShift(-q, x, n);
    assert Visit(start, i, n) == x;
  }

  /** So does one that wraps, if the number of replicas divides the counter range. */
  lemma MeetsAllIfDivides(start: int, n: int, x: int)
    requires 0 <= start < TWO64 && 0 < n <= TWO64 && TWO64 % n == 0 && 0 <= x < n
    ensures Visited(start, n, x)
  {
    var i := (x - start) % n;
    var q := (x - start) / n;
    assert start + i == -q * n + x;
    ModShift(-q, x, n);
    if start + i >= TWO64 {
      var k := TWO64 / n;
      assert (start + i) - TWO64 == (-q - k) * n + x;
      ModShift(-q - k, x, n);
      assert (start + i) % TWO64 == start + i - TWO64;
    }
    assert Visit(start, i, n) == x;
  }

  /** The two runs of consecutive replicas a wrapping scan meets, `left` steps before the wrap:
      with r the remainder of the counter range, those at r - left .. r - 1 (modulo n) and then
      those at 0 .. n - left - 1. */
  lemma WrappingVisit(start: int, n: int, i: int)
    requires 0 < n < TWO64 && 0 <= start < TWO64 < start + n && 0 <= i < n
    ensures var left, r := TWO64 - start, TWO64 % n;
            var x := Visit(start, i, n);
            if i < left then x == r - left + i || x == r - left + i + n else x == i - left
  {
    var left, r, q := TWO64 - start, TWO64 % n, TWO64 / n;
    if i < left {
      var y := r - left + i;
      assert start + i == q * n + y;
      if y >= 0 {
        ModShift(q, y, n);
      } else {
        assert q * n + y == (q - 1) * n + (y + n);
        ModShift(q - 1, y + n, n);
      }
    } else {
      assert (start + i) % TWO64 == i - left;
      ModShift(0, i - left, n);
    }
  }

  /** A replica that a wrapping scan never looks at. */
  function Missed(start: int, n: int): int
    requires 0 < n
  {
    var left, r := TWO64 - start, TWO64 % n;
    if r >= left then n - 1 else if r >= n - left then r else n - left
  }

  lemma MissesOneOtherwise(start: int, n: int)
    requires 0 < n < TWO64 && 0 <= start < TWO64 < start + n && TWO64 % n != 0
    ensures 0 <= Missed(start, n) < n && !Visited(start, n, Missed(start, n))
  {
    forall i | 0 <= i < n
      ensures Visit(start, i, n) != Missed(start, n)
    {
      WrappingVisit(start, n, i);
    }
  }

  /** The scan looks at every replica exactly if it does not wrap or the number of replicas
      divides 2^64. */
  lemma ScanIsCompleteExactly(start: int, n: int)
    requires 0 <= start < TWO64 && 0 < n < TWO64
    ensures (forall x :: 0 <= x < n ==> Visited(start, n, x)) <==>
            start + n <= TWO64 || TWO64 % n == 0
  {
    hide Visited;
    if start + n <= TWO64 {
      forall x | 0 <= x < n ensures Visited(start, n, x) { MeetsAllBeforeWrap(start, n, x); }
    } else if TWO64 % n == 0 {
      forall x | 0 <= x < n ensures Visited(start, n, x) { MeetsAllIfDivides(start, n, x); }
    } else {
      MissesOneOtherwise(start, n);
    }
  }

  /** The primary answers exactly when no replica can serve. */
  ghost predicate FallsBackOnlyWhenNoneServes(start: int, n: int, maxLag: int)
    requires n > 0
  {
    forall replicas, pool :: |replicas| == n && Scan(replicas, maxLag, start, pool) ==>
      (pool == Primary <==> forall x :: 0 <= x < n ==> !Servable(replicas[x], maxLag))
  }

  lemma CompleteScanFallsBackRightly(start: int, n: int, maxLag: int)
    requires n > 0 && forall x :: 0 <= x < n ==> Visited(start, n, x)
    ensures FallsBackOnlyWhenNoneServes(start, n, maxLag)
  {
    forall replicas, pool | |replicas| == n && Scan(replicas, maxLag, start, pool)
      ensures pool == Primary <==> forall x :: 0 <= x < n ==> !Servable(replicas[x], maxLag)
    {
      if pool == Primary {
        forall x | 0 <= x < n
          ensures !Servable(replicas[x], maxLag)
        {
          assert Visited(start, n, x);
        }
      }
    }
  }

  lemma MissedReplicaIsPassedOver(start: int, n: int, maxLag: int, x: int)
    requires n > 0 && 0 <= x < n && !Visited(start, n, x)
    ensures !FallsBackOnlyWhenNoneServes(start, n, maxLag)
  {
    var lag := if maxLag < 0 then maxLag else 0;
    var replicas := seq(n, i => ReplicaInfo(true, i == x, lag));
    assert forall i :: 0 <= i < n ==> Visit(start, i, n) != x;
    assert Scan(replicas, maxLag, start, Primary);
    assert Servable(replicas[x], maxLag);
  }

  /** Falling back to the primary means that no replica can serve, whatever the replicas'
      states, if and only if the scan does not wrap or the number of replicas divides 2^64. */
  lemma FallbackIsRightExactly(start: int, n: int, maxLag: int)
    requires 0 <= start < TWO64 && 0 < n < TWO64
    ensures FallsBackOnlyWhenNoneServes(start, n, maxLag) <==> start + n <= TWO64 || TWO64 % n == 0
  {
    ScanIsCompleteExactly(start, n);
    hide Visited;
    if forall x :: 0 <= x < n ==> Visited(start, n, x) {
      CompleteScanFallsBackRightly(start, n, maxLag);
    } else {
      var x :| 0 <= x < n && !Visited(start, n, x);
      MissedReplicaIsPassedOver(start, n, maxLag, x);
    }
  }

  /** The replica that read number k uses, counting from a cursor at `cursor`, when every
      replica can serve. */
  function Turn(cursor: int, k: int, n: int): int
    requires n > 0
  {
    Visit((cursor + 1 + k) % TWO64, 0, n)
  }

  /** That is what the scan does: with every replica able to serve, it stops at once. */
  lemma ScanTakesTheFirst(replicas: seq<ReplicaInfo>, maxLag: int, start: int, pool: Pool)
    requires replicas != [] && forall x :: 0 <= x < |replicas| ==> Servable(replicas[x], maxLag)
    ensures Scan(replicas, maxLag, start, pool) <==> pool == Replica(Visit(start, 0, |replicas|))
  {
    var n := |replicas|;
    assert Servable(replicas[Visit(start, 0, n)], maxLag);
    if Scan(replicas, maxLag, start, pool) {
      var i :| && 0 <= i < n && Visit(start, i, n) == pool.index
               && forall j :: 0 <= j < i ==> !Servable(replicas[Visit(start, j, n)], maxLag);
    }
  }

  /** The cursor after k reads. */
  function CursorAfter(cursor: int, k: nat): int {
    if k == 0 then cursor else (CursorAfter(cursor, k - 1) + 1) % TWO64
  }

  lemma {:induction false} CursorIsModular(cursor: int, k: nat)
    requires 0 <= cursor < TWO64
    ensures CursorAfter(cursor, k) == (cursor + k) % TWO64
  {
    if k > 0 {
      CursorIsModular(cursor, k - 1);
    }
  }

  lemma ModDrop(k: int, t: int)
    requires t > 0
    ensures (t + k) % t == k % t
  {
    assert (k / t + 1) * t == k / t * t + t;
    ModShift(k / t + 1, k % t, t);
  }

  lemma TurnIsVisit(cursor: int, k: int, n: int)
    requires 0 <= cursor < TWO64 && n > 0 && k >= 0
    ensures Turn(cursor, k, n) == Visit((cursor + 1) % TWO64, k, n)
  {
    if cursor + 1 == TWO64 {
      ModDrop(k, TWO64);
    }
    var a := (cursor + 1 + k) % TWO64;
    assert a % TWO64 == a;
  }

  /** Read number k of a row of reads from this cursor, every replica being able to serve, is
      sent to replica Turn(cursor, k, n). */
  lemma ReadsTakeTurns(replicas: seq<ReplicaInfo>, maxLag: int, cursor: int, k: nat, pool: Pool)
    requires replicas != [] && forall x :: 0 <= x < |replicas| ==> Servable(replicas[x], maxLag)
    requires 0 <= cursor < TWO64
    ensures Scan(replicas, maxLag, CursorAfter(cursor, k + 1), pool) <==>
            pool == Replica(Turn(cursor, k, |replicas|))
  {
    CursorIsModular(cursor, k + 1);
    ScanTakesTheFirst(replicas, maxLag, CursorAfter(cursor, k + 1), pool);
    hide Scan;
    hide Visit;
  }

  /** One of the n reads is sent to replica x. */
  ghost predicate Taken(cursor: int, n: int, x: int)
    requires n > 0
  {
    exists k :: 0 <= k < n && Turn(cursor, k, n) == x
  }

  /** n reads in a row use every one of the n replicas. */
  ghost predicate Fair(cursor: int, n: int)
    requires n > 0
  {
    forall x :: 0 <= x < n ==> Taken(cursor, n, x)
  }

  lemma TakenIsVisited(cursor: int, n: int, x: int)
    requires 0 <= cursor < TWO64 && n > 0
    ensures Taken(cursor, n, x) <==> Visited((cursor + 1) % TWO64, n, x)
  {
    var start := (cursor + 1) % TWO64;
    forall k | 0 <= k < n
      ensures Turn(cursor, k, n) == Visit(start, k, n)
    {
      TurnIsVisit(cursor, k, n);
    }
    hide Turn;
    hide Visit;
  }

  /** n reads in a row, with every replica able to serve, use every replica if and only if the
      counter does not wrap meanwhile or the number of replicas divides 2^64. */
  lemma RoundRobinIsFairExactly(cursor: int, n: int)
    requires 0 <= cursor < TWO64 && 0 < n < TWO64
    ensures Fair(cursor, n) <==> (cursor + 1) % TWO64 + n <= TWO64 || TWO64 % n == 0
  {
    hide Taken;
    hide Visited;
    var start := (cursor + 1) % TWO64;
    forall x | 0 <= x < n
      ensures Taken(cursor, n, x) <==> Visited(start, n, x)
    {
      TakenIsVisited(cursor, n, x);
    }
    ScanIsCompleteExactly(start, n);
  }

  /** Using every replica in n reads is using none of them twice. */
  lemma FairIsOnceEach(cursor: int, n: int, k: int, l: int)
    requires 0 <= cursor < TWO64 && 0 < n < TWO64 && Fair(cursor, n)
    requires 0 <= k < l < n
    ensures Turn(cursor, k, n) != Turn(cursor, l, n)
  {
    RoundRobinIsFairExactly(cursor, n);
    TurnIsVisit(cursor, k, n);
    TurnIsVisit(cursor, l, n);
    VisitsDiffer((cursor + 1) % TWO64, n, k, l);
  }

  lemma SameRemainder(a: int, b: int, n: int)
    requires n > 0 && a % n == b % n && -n < a - b < n
    ensures a == b
  {
    var p, q := a / n, b / n;
    assert a == p * n + a % n && b == q * n + b % n;
    assert (p - q) * n == p * n - q * n;
    SmallMultiple(p - q, n);
  }

  /** Where the counter range is a multiple of n, or is not left, a visit is a plain remainder. */
  lemma VisitIsRemainder(start: int, i: int, n: int)
    requires 0 <= start < TWO64 && 0 <= i < n < TWO64
    requires start + n <= TWO64 || TWO64 % n == 0
    ensures Visit(start, i, n) == (start + i) % n
  {
    if start + i >= TWO64 {
      var q, y := TWO64 / n, start + i - TWO64;
      assert TWO64 == q * n;
      assert (start + i) % TWO64 == y;
      assert y == y / n * n + y % n;
      assert (q + y / n) * n == q * n + y / n * n;
      ModShift(q + y / n, y % n, n);
    }
  }

  lemma VisitsDiffer(start: int, n: int, k: int, l: int)
    requires 0 <= start < TWO64 && 0 <= k < l < n < TWO64
    requires start + n <= TWO64 || TWO64 % n == 0
    ensures Visit(start, k, n) != Visit(start, l, n)
  {
    VisitIsRemainder(start, k, n);
    VisitIsRemainder(start, l, n);
    hide Visit;
    if (start + k) % n == (start + l) % n {
      SameRemainder(start + k, start + l, n);
    }
  }

  /** Three replicas and a counter about to wrap: two reads in a row go to the same one. */
  lemma WrappingCounterRepeats()
    ensures Turn(TWO64 - 2, 0, 3) == Turn(TWO64 - 2, 1, 3) && !Fair(TWO64 - 2, 3)
  {
    RoundRobinIsFairExactly(TWO64 - 2, 3);
  }
}
