/** Interrupted and restarted migrations end where one uninterrupted run would, and rolling
    back undoes them in reverse. */
module MigrationTheorems {
  import opened Common
  import opened SortedNames
  import opened Migrations

  /** No two files carry the same version. */
  ghost predicate DistinctVersions(files: seq<string>) {
    forall i, j :: 0 <= i < j < |files| ==> VersionOf(files[i]) != VersionOf(files[j])
  }

  lemma {:induction false} UpNamesAreUpFiles(entries: seq<DirEntry>)
    ensures forall f :: f in UpNames(entries) <==> DirEntry(f, false) in entries && HasSuffix(f, UP_SUFFIX)
  {
    if entries != [] {
      hide HasSuffix;
      UpNamesAreUpFiles(entries[..|entries| - 1]);
      assert entries == entries[..|entries| - 1] + [entries[|entries| - 1]];
    }
  }

  /** A directory lists each name once. */
  ghost predicate Listing(entries: seq<DirEntry>) {
    forall i, j :: 0 <= i < j < |entries| ==> entries[i].name != entries[j].name
  }

  lemma {:induction false} UpNamesAreDistinct(entries: seq<DirEntry>)
    requires Listing(entries)
    ensures Distinct(UpNames(entries))
  {
    if entries != [] {
      hide HasSuffix;
      var init, last := entries[..|entries| - 1], entries[|entries| - 1];
      UpNamesAreDistinct(init);
      UpNamesAreUpFiles(init);
      assert last.name !in UpNames(init);
    }
  }

  /** Distinct file names with the up suffix carry distinct versions. */
  lemma DistinctNamesDistinctVersions(files: seq<string>)
    requires forall f :: f in files ==> HasSuffix(f, UP_SUFFIX)
    requires Distinct(files)
    ensures DistinctVersions(files)
  {
    assert forall i :: 0 <= i < |files| ==> files[i] == VersionOf(files[i]) + UP_SUFFIX;
  }

  /** The files still to be applied, in order. */
  function Pending(applied: seq<string>, files: seq<string>): seq<string> {
    if files == [] then []
    else (if VersionOf(files[0]) in applied then [] else [files[0]]) + Pending(applied, files[1..])
  }

  function VersionsOf(files: seq<string>): seq<string> {
    seq(|files|, i requires 0 <= i < |files| => VersionOf(files[i]))
  }

  function ExecAll<S>(sc: Scripts<S>, schema: S, files: seq<string>): Option<S> {
    if files == [] then Some(schema)
    else
      match sc.up(files[0], schema)
      case None => None
      case Some(next) => ExecAll(sc, next, files[1..])
  }

  /** From `from`, exactly the first k of these files have been both executed and recorded. */
  ghost predicate Reached<S>(sc: Scripts<S>, from: Db<S>, pending: seq<string>, db: Db<S>, k: nat) {
    && k <= |pending|
    && ExecAll(sc, from.schema, pending[..k]) == Some(db.schema)
    && Versions(db.records) == Versions(from.records) + VersionsOf(pending[..k])
  }

  lemma {:induction false} PendingMembers(applied: seq<string>, files: seq<string>)
    ensures forall f :: f in Pending(applied, files) <==> f in files && VersionOf(f) !in applied
  {
    if files != [] {
      PendingMembers(applied, files[1..]);
    }
  }

  lemma ReachedFirst<S>(sc: Scripts<S>, from: Db<S>, file: string, rest: seq<string>, next: Db<S>, db: Db<S>, j: nat)
    requires sc.up(file, from.schema) == Some(next.schema)
    requires Versions(next.records) == Versions(from.records) + [VersionOf(file)]
    requires Reached(sc, next, rest, db, j)
    ensures Reached(sc, from, [file] + rest, db, j + 1)
  {
    hide VersionOf;
    assert ([file] + rest)[..j + 1] == [file] + rest[..j];
    assert ([file] + rest[..j])[1..] == rest[..j];
    assert VersionsOf([file] + rest[..j]) == [VersionOf(file)] + VersionsOf(rest[..j]);
  }

  /** What is pending keeps the files' order. */
  lemma {:induction false} PendingIsSorted(applied: seq<string>, files: seq<string>)
    requires Sorted(files)
    ensures Sorted(Pending(applied, files))
  {
    if files != [] {
      hide LexLeq;
      assert files == [files[0]] + files[1..];
      SortedCons(files[0], files[1..]);
      PendingIsSorted(applied, files[1..]);
      PendingMembers(applied, files[1..]);
      var rest := Pending(applied, files[1..]);
      SortedCons(files[0], rest);
      assert [] + rest == rest;
    }
  }

  /** One call applies a prefix of what is pending. It succeeds exactly if that is all of it, and
      otherwise stopped at a file whose script or transaction failed. */
  lemma {:induction false} OneCall<S>(sc: Scripts<S>, db: Db<S>, applied: seq<string>, files: seq<string>, a: Attempt)
    returns (k: nat)
    ensures Reached(sc, db, Pending(applied, files), UpFrom(sc, db, applied, files, a).0, k)
    ensures UpFrom(sc, db, applied, files, a).1 <==> k == |Pending(applied, files)|
    ensures var pending, stopped := Pending(applied, files), UpFrom(sc, db, applied, files, a).0;
            k < |pending| ==> a.fails(pending[k]) || sc.up(pending[k], stopped.schema) == None
    decreases |files|
  {
    var pending := Pending(applied, files);
    if files == [] {
      k := 0;
    } else if VersionOf(files[0]) in applied {
      k := OneCall(sc, db, applied, files[1..], a);
      assert pending == Pending(applied, files[1..]);
    } else if a.fails(files[0]) || sc.up(files[0], db.schema) == None {
      k := 0;
      assert pending[..0] == [];
    } else {
      var next := Db(sc.up(files[0], db.schema).value, db.records + [Record(VersionOf(files[0]), a.at(files[0]))]);
      var j := OneCall(sc, next, applied, files[1..], a);
      ReachedFirst(sc, db, files[0], Pending(applied, files[1..]), next, UpFrom(sc, next, applied, files[1..], a).0, j);
      hide Reached;
      k := j + 1;
    }
  }

  lemma {:induction false} PendingDistinct(applied: seq<string>, files: seq<string>)
    requires DistinctVersions(files)
    ensures DistinctVersions(Pending(applied, files))
  {
    if files != [] {
      PendingDistinct(applied, files[1..]);
      PendingMembers(applied, files[1..]);
      var rest := Pending(applied, files[1..]);
      if VersionOf(files[0]) !in applied {
        forall j | 0 <= j < |rest|
          ensures VersionOf(files[0]) != VersionOf(rest[j])
        {
          assert rest[j] in files[1..];
          var i :| 0 <= i < |files[1..]| && files[1..][i] == rest[j];
          assert files[i + 1] == rest[j];
        }
      }
    }
  }

  /** Recording more versions takes those files out of what is pending. */
  lemma {:induction false} KeepPending(applied: seq<string>, files: seq<string>, more: seq<string>)
    ensures Pending(applied + more, files) == Pending(more, Pending(applied, files))
  {
    if files != [] {
      KeepPending(applied, files[1..], more);
      var rest := Pending(applied, files[1..]);
      assert ([files[0]] + rest)[1..] == rest;
      assert [] + rest == rest;
    }
  }

  lemma {:induction false} NothingDone(files: seq<string>, versions: seq<string>)
    requires forall f :: f in files ==> VersionOf(f) !in versions
    ensures Pending(versions, files) == files
  {
    if files != [] {
      NothingDone(files[1..], versions);
      assert files == [files[0]] + files[1..];
    }
  }

  lemma {:induction false} DropDone(pending: seq<string>, versions: seq<string>, k: nat)
    requires DistinctVersions(pending) && k <= |pending| && versions == VersionsOf(pending[..k])
    ensures Pending(versions, pending) == pending[k..]
  {
    DropFrom(pending, versions, k, 0);
    assert pending[0..] == pending;
  }

  lemma {:induction false} DropFrom(pending: seq<string>, versions: seq<string>, k: nat, i: nat)
    requires DistinctVersions(pending) && i <= k <= |pending| && versions == VersionsOf(pending[..k])
    ensures Pending(versions, pending[i..]) == pending[k..]
    decreases k - i
  {
    if i == k {
      forall f | f in pending[k..]
        ensures VersionOf(f) !in versions
      {
        var j :| 0 <= j < |pending[k..]| && pending[k..][j] == f;
        assert pending[k + j] == f;
        assert forall x :: 0 <= x < |versions| ==> versions[x] == VersionOf(pending[x]);
      }
      NothingDone(pending[k..], versions);
    } else {
      assert versions[i] == VersionOf(pending[i]);
      assert pending[i..][1..] == pending[i + 1..];
      DropFrom(pending, versions, k, i + 1);
    }
  }

  lemma {:induction false} ExecThen<S>(sc: Scripts<S>, schema: S, first: seq<string>, second: seq<string>)
    requires ExecAll(sc, schema, first).Some?
    ensures ExecAll(sc, schema, first + second) == ExecAll(sc, ExecAll(sc, schema, first).value, second)
    decreases |first|
  {
    if first == [] {
      assert first + second == second;
    } else {
      ExecThen(sc, sc.up(first[0], schema).value, first[1..], second);
      assert (first + second)[1..] == first[1..] + second;
    }
  }

  lemma ReachedThen<S>(sc: Scripts<S>, from: Db<S>, pending: seq<string>, mid: Db<S>, k: nat, db: Db<S>, j: nat)
    requires Reached(sc, from, pending, mid, k) && Reached(sc, mid, pending[k..], db, j)
    ensures Reached(sc, from, pending, db, k + j)
  {
    assert pending[..k + j] == pending[..k] + pending[k..][..j];
    ExecThen(sc, from.schema, pending[..k], pending[k..][..j]);
    assert VersionsOf(pending[..k + j]) == VersionsOf(pending[..k]) + VersionsOf(pending[k..][..j]);
  }

  /** A restart picks up where the interrupted calls stopped. */
  lemma Restart<S>(sc: Scripts<S>, from: Db<S>, files: seq<string>, mid: Db<S>, k: nat, a: Attempt) returns (k': nat)
    requires DistinctVersions(files)
    requires Reached(sc, from, Pending(Versions(from.records), files), mid, k)
    ensures k <= k' && Reached(sc, from, Pending(Versions(from.records), files), Up(sc, mid, files, a).0, k')
    ensures Up(sc, mid, files, a).1 <==> k' == |Pending(Versions(from.records), files)|
  {
    var applied := Versions(from.records);
    var pending := Pending(applied, files);
    PendingDistinct(applied, files);
    KeepPending(applied, files, VersionsOf(pending[..k]));
    DropDone(pending, VersionsOf(pending[..k]), k);
    var j := OneCall(sc, mid, Versions(mid.records), files, a);
    hide Reached;
    ReachedThen(sc, from, pending, mid, k, Up(sc, mid, files, a).0, j);
    k' := k + j;
  }

  function UpAll<S>(sc: Scripts<S>, db: Db<S>, files: seq<string>, attempts: seq<Attempt>): Db<S> {
    if attempts == [] then db
    else Up(sc, UpAll(sc, db, files, attempts[..|attempts| - 1]), files, attempts[|attempts| - 1]).0
  }

  /** However many calls there were and wherever each of them stopped, exactly a prefix of the
      pending files has been executed and recorded; a call that succeeds has done all of them. */
  lemma {:induction false} EveryRestartKeepsAPrefix<S>(sc: Scripts<S>, db: Db<S>, files: seq<string>, attempts: seq<Attempt>)
    returns (k: nat)
    requires DistinctVersions(files)
    ensures Reached(sc, db, Pending(Versions(db.records), files), UpAll(sc, db, files, attempts), k)
    ensures attempts != [] &&
            Up(sc, UpAll(sc, db, files, attempts[..|attempts| - 1]), files, attempts[|attempts| - 1]).1 ==>
              k == |Pending(Versions(db.records), files)|
  {
    var pending := Pending(Versions(db.records), files);
    if attempts == [] {
      k := 0;
      assert pending[..0] == [];
    } else {
      var j := EveryRestartKeepsAPrefix(sc, db, files, attempts[..|attempts| - 1]);
      hide Reached;
      k := Restart(sc, db, files, UpAll(sc, db, files, attempts[..|attempts| - 1]), j, attempts[|attempts| - 1]);
    }
  }

  lemma Unrecorded(file: string, records: seq<Record>)
    ensures HasSuffix(file, UP_SUFFIX) && VersionOf(file) !in Versions(records) <==>
            exists v :: file == v + ".up.sql" && forall r :: r in records ==> r.version != v
  {
    forall v
      ensures v in Versions(records) <==> exists r :: r in records && r.version == v
    {
      if v in Versions(records) {
        var i :| 0 <= i < |records| && Versions(records)[i] == v;
        assert records[i] in records;
      }
      if r :| r in records && r.version == v {
        var i :| 0 <= i < |records| && records[i] == r;
        assert Versions(records)[i] == v;
      }
    }
    hide Versions;
    if HasSuffix(file, UP_SUFFIX) {
      VersionExactly(file, VersionOf(file));
    }
    if v :| file == v + ".up.sql" && forall r :: r in records ==> r.version != v {
      VersionExactly(file, v);
    }
  }

  /** The same for a directory: its up files, in lexicographic order, are applied from the front,
      none skipped and none out of turn, however the calls are interrupted. */
  lemma DirectoryIsAppliedInOrder<S>(
    sc: Scripts<S>, db: Db<S>, entries: seq<DirEntry>, files: seq<string>, attempts: seq<Attempt>)
    returns (k: nat)
    requires Listing(entries)
    requires Sorted(files) && multiset(files) == multiset(UpNames(entries))
    ensures var pending := Pending(Versions(db.records), files);
            && Sorted(pending)
            && Reached(sc, db, pending, UpAll(sc, db, files, attempts), k)
            && (forall f :: f in pending <==>
                  && DirEntry(f, false) in entries
                  && exists v :: f == v + ".up.sql" && forall r :: r in db.records ==> r.version != v)
  {
    UpNamesAreDistinct(entries);
    UpNamesAreUpFiles(entries);
    SameNames(files, UpNames(entries));
    DistinctNamesDistinctVersions(files);
    PendingIsSorted(Versions(db.records), files);
    PendingMembers(Versions(db.records), files);
    forall f
      ensures HasSuffix(f, UP_SUFFIX) && VersionOf(f) !in Versions(db.records) <==>
              exists v :: f == v + ".up.sql" && forall r :: r in db.records ==> r.version != v
    {
      Unrecorded(f, db.records);
    }
    hide Reached;
    hide HasSuffix;
    hide VersionOf;
    k := EveryRestartKeepsAPrefix(sc, db, files, attempts);
  }

  /** Interrupted calls that end in success leave the schema and the versions that one
      uninterrupted successful call would. */
  lemma RestartsEqualOneCall<S>(sc: Scripts<S>, db: Db<S>, files: seq<string>, attempts: seq<Attempt>, once: Attempt)
    requires DistinctVersions(files) && attempts != []
    requires Up(sc, UpAll(sc, db, files, attempts[..|attempts| - 1]), files, attempts[|attempts| - 1]).1
    requires Up(sc, db, files, once).1
    ensures UpAll(sc, db, files, attempts).schema == Up(sc, db, files, once).0.schema
    ensures Versions(UpAll(sc, db, files, attempts).records) == Versions(Up(sc, db, files, once).0.records)
  {
    var k := EveryRestartKeepsAPrefix(sc, db, files, attempts);
    var j := OneCall(sc, db, Versions(db.records), files, once);
    hide UpAll;
    hide UpFrom;
  }

  // ---- Rolling back ----

  lemma {:induction false} LatestIsLast(records: seq<Record>)
    requires records != []
    requires forall i :: 0 <= i < |records| - 1 ==> Later(records[|records| - 1], records[i])
    ensures Latest(records) == |records| - 1
  {}

  /** The query returns a record that every other one sorts before. */
  lemma {:induction false} LatestIsMaximal(records: seq<Record>, j: nat)
    requires j < |records|
    ensures Later(records[Latest(records)], records[j])
  {
    var n := |records|;
    LexTotal(records[j].version, records[j].version);
    if n > 1 {
      var init := records[..n - 1];
      var i := Latest(init);
      LexTotal(records[n - 1].version, init[i].version);
      if j < n - 1 {
        LatestIsMaximal(init, j);
        if Later(records[n - 1], init[i]) {
          LaterTransitive(records[n - 1], init[i], records[j]);
        }
      }
    }
  }

  lemma LaterTransitive(a: Record, b: Record, c: Record)
    requires Later(a, b) && Later(b, c)
    ensures Later(a, c)
  {
    if a.appliedAt == b.appliedAt == c.appliedAt {
      LexTransitive(c.version, b.version, a.version);
    }
  }

  /** Rollback takes away the record applied last exactly if the order of the query agrees, for
      that record, with the order of application. */
  lemma UndoesTheLastExactly(records: seq<Record>)
    requires records != []
    ensures Latest(records) == |records| - 1 <==>
            forall i :: 0 <= i < |records| - 1 ==> Later(records[|records| - 1], records[i])
  {
    if Latest(records) == |records| - 1 {
      forall i | 0 <= i < |records| - 1
        ensures Later(records[|records| - 1], records[i])
      {
        LatestIsMaximal(records, i);
      }
    } else if forall i :: 0 <= i < |records| - 1 ==> Later(records[|records| - 1], records[i]) {
      LatestIsLast(records);
    }
  }

  function DownTimes<S>(sc: Scripts<S>, db: Db<S>, k: nat): Db<S> {
    if k == 0 then db else Down(sc, DownTimes(sc, db, k - 1), false).0
  }

  /** Every down script undoes its up script, from every schema the up script accepts. */
  ghost predicate InversePairs<S(!new)>(sc: Scripts<S>) {
    forall f, s :: sc.up(f, s).Some? ==> sc.down(VersionOf(f), sc.up(f, s).value) == Some(s)
  }

  ghost predicate InOrder(records: seq<Record>) {
    forall i, j :: 0 <= i < j < |records| ==> Later(records[j], records[i])
  }

  lemma {:induction false} ExecPrefix<S>(sc: Scripts<S>, schema: S, files: seq<string>, i: nat)
    requires i < |files| && ExecAll(sc, schema, files).Some?
    ensures ExecAll(sc, schema, files[..i]).Some?
    ensures ExecAll(sc, schema, files[..i + 1]) == sc.up(files[i], ExecAll(sc, schema, files[..i]).value)
    ensures ExecAll(sc, schema, files[..i + 1]).Some?
  {
    if i == 0 {
      assert files[..1][1..] == [];
    } else {
      ExecPrefix(sc, sc.up(files[0], schema).value, files[1..], i - 1);
      assert files[..i][1..] == files[1..][..i - 1];
      assert files[..i + 1][1..] == files[1..][..i];
    }
  }

  /** One rollback of a database that stands at k pending files leaves it at k - 1. */
  lemma RollbackStep<S(!new)>(sc: Scripts<S>, from: Db<S>, pending: seq<string>, db: Db<S>, k: nat)
    requires InversePairs(sc) && InOrder(db.records)
    requires Reached(sc, from, pending, db, k) && k > 0
    ensures var r := Down(sc, db, false);
            && r.1 && r.0.records == db.records[..|db.records| - 1]
            && Reached(sc, from, pending, r.0, k - 1)
  {
    var n := |db.records|;
    hide VersionOf;
    var applied, last := pending[..k], pending[k - 1];
    assert VersionsOf(applied)[k - 1] == VersionOf(last);
    assert n == |Versions(db.records)| == |from.records| + k;
    assert db.records[n - 1].version == Versions(db.records)[n - 1] == VersionOf(last);
    LatestIsLast(db.records);
    ExecPrefix(sc, from.schema, applied, k - 1);
    assert applied[..k - 1] == pending[..k - 1] && applied[..k] == applied;
    assert db.records[..n - 1] + db.records[n..] == db.records[..n - 1];
    assert Versions(db.records[..n - 1]) == Versions(db.records)[..n - 1];
    assert VersionsOf(applied)[..k - 1] == VersionsOf(pending[..k - 1]);
  }

  lemma {:induction false} RollbackFrom<S(!new)>(sc: Scripts<S>, from: Db<S>, pending: seq<string>, db: Db<S>, k: nat, j: nat)
    requires InversePairs(sc) && InOrder(db.records) && j <= k
    requires Reached(sc, from, pending, db, k)
    ensures |db.records| == |from.records| + k
    ensures var r := DownTimes(sc, db, j);
            r.records == db.records[..|db.records| - j] && Reached(sc, from, pending, r, k - j)
  {
    assert |db.records| == |Versions(db.records)| == |from.records| + k;
    if j == 0 {
      assert db.records[..|db.records|] == db.records;
    } else {
      RollbackFrom(sc, from, pending, db, k, j - 1);
      var r := DownTimes(sc, db, j - 1);
      RollbackStep(sc, from, pending, r, k - (j - 1));
      hide Reached;
      assert r.records[..|r.records| - 1] == db.records[..|db.records| - j];
    }
  }

  /** The clock of a run of calls: each transaction is stamped later than every earlier one, and
      later than what was recorded before the run. */
  ghost predicate ClockAdvances(db: Db, files: seq<string>, attempts: seq<Attempt>) {
    && Increasing(db.records)
    && (forall i, x, r :: 0 <= i < |attempts| && 0 <= x < |files| && r in db.records ==>
          r.appliedAt < attempts[i].at(files[x]))
    && (forall i, x, y :: 0 <= i < |attempts| && 0 <= x < y < |files| ==>
          attempts[i].at(files[x]) < attempts[i].at(files[y]))
    && (forall i, j, x, y :: 0 <= i < j < |attempts| && 0 <= x < |files| && 0 <= y < |files| ==>
          attempts[i].at(files[x]) < attempts[j].at(files[y]))
  }

  ghost predicate Increasing(records: seq<Record>) {
    forall i, j :: 0 <= i < j < |records| ==> records[i].appliedAt < records[j].appliedAt
  }

  /** Every record was there before, or stamped for one of the files. */
  ghost predicate StampedBy(records: seq<Record>, before: seq<Record>, files: seq<string>, a: Attempt) {
    forall r :: r in records ==> r in before || exists x :: 0 <= x < |files| && r.appliedAt == a.at(files[x])
  }

  lemma {:induction false} OneCallStamps<S>(sc: Scripts<S>, db: Db<S>, applied: seq<string>, files: seq<string>, a: Attempt)
    requires Increasing(db.records)
    requires forall x, r :: 0 <= x < |files| && r in db.records ==> r.appliedAt < a.at(files[x])
    requires forall x, y :: 0 <= x < y < |files| ==> a.at(files[x]) < a.at(files[y])
    ensures Increasing(UpFrom(sc, db, applied, files, a).0.records)
    ensures StampedBy(UpFrom(sc, db, applied, files, a).0.records, db.records, files, a)
    decreases |files|
  {
    hide VersionOf;
    if files != [] {
      var rest := files[1..];
      if VersionOf(files[0]) in applied {
        OneCallStamps(sc, db, applied, rest, a);
        StampedByMore(UpFrom(sc, db, applied, rest, a).0.records, db.records, db.records, files, a);
      } else if !a.fails(files[0]) && sc.up(files[0], db.schema).Some? {
        var record := Record(VersionOf(files[0]), a.at(files[0]));
        var next := Db(sc.up(files[0], db.schema).value, db.records + [record]);
        forall x, r | 0 <= x < |rest| && r in next.records
          ensures r.appliedAt < a.at(rest[x])
        {
          assert rest[x] == files[x + 1];
        }
        OneCallStamps(sc, next, applied, rest, a);
        StampedByMore(UpFrom(sc, next, applied, rest, a).0.records, next.records, db.records, files, a);
      }
    }
  }

  lemma StampedByMore(records: seq<Record>, next: seq<Record>, before: seq<Record>, files: seq<string>, a: Attempt)
    requires files != [] && StampedBy(records, next, files[1..], a)
    requires forall r :: r in next ==> r in before || r.appliedAt == a.at(files[0])
    ensures StampedBy(records, before, files, a)
  {
    forall r | r in records
      ensures r in before || exists x :: 0 <= x < |files| && r.appliedAt == a.at(files[x])
    {
      if r !in next {
        var x :| 0 <= x < |files[1..]| && r.appliedAt == a.at(files[1..][x]);
        assert files[x + 1] == files[1..][x];
      }
    }
  }

  /** Every record was there before the run, or stamped in one of its calls. */
  ghost predicate StampedIn(records: seq<Record>, before: seq<Record>, files: seq<string>, attempts: seq<Attempt>) {
    forall r :: r in records ==>
      r in before || exists i, x :: 0 <= i < |attempts| && 0 <= x < |files| && r.appliedAt == attempts[i].at(files[x])
  }

  lemma ClockPrefix<S>(db: Db<S>, files: seq<string>, attempts: seq<Attempt>)
    requires ClockAdvances(db, files, attempts) && attempts != []
    ensures ClockAdvances(db, files, attempts[..|attempts| - 1])
  {}

  lemma EarlierStampsAreBefore<S>(db: Db<S>, files: seq<string>, attempts: seq<Attempt>, r: Record, x: nat)
    requires ClockAdvances(db, files, attempts) && attempts != [] && x < |files|
    requires StampedIn([r], db.records, files, attempts[..|attempts| - 1])
    ensures r.appliedAt < attempts[|attempts| - 1].at(files[x])
  {
    assert r in [r];
    if r !in db.records {
      var init := attempts[..|attempts| - 1];
      var i, y :| 0 <= i < |init| && 0 <= y < |files| && r.appliedAt == init[i].at(files[y]);
      assert init[i] == attempts[i];
    }
  }

  lemma StampedInMore(records: seq<Record>, mid: seq<Record>, before: seq<Record>, files: seq<string>, attempts: seq<Attempt>)
    requires attempts != [] && StampedBy(records, mid, files, attempts[|attempts| - 1])
    requires StampedIn(mid, before, files, attempts[..|attempts| - 1])
    ensures StampedIn(records, before, files, attempts)
  {
    var init, a := attempts[..|attempts| - 1], attempts[|attempts| - 1];
    forall r | r in records && r !in before
      ensures exists i, x :: 0 <= i < |attempts| && 0 <= x < |files| && r.appliedAt == attempts[i].at(files[x])
    {
      if r in mid {
        var i, x :| 0 <= i < |init| && 0 <= x < |files| && r.appliedAt == init[i].at(files[x]);
        assert attempts[i] == init[i];
      } else {
        var x :| 0 <= x < |files| && r.appliedAt == a.at(files[x]);
        assert attempts[|attempts| - 1] == a;
      }
    }
  }

  lemma {:induction false} RunStamps<S>(sc: Scripts<S>, db: Db<S>, files: seq<string>, attempts: seq<Attempt>)
    requires ClockAdvances(db, files, attempts)
    ensures Increasing(UpAll(sc, db, files, attempts).records)
    ensures StampedIn(UpAll(sc, db, files, attempts).records, db.records, files, attempts)
  {
    if attempts != [] {
      hide UpFrom;
      var init, a := attempts[..|attempts| - 1], attempts[|attempts| - 1];
      ClockPrefix(db, files, attempts);
      RunStamps(sc, db, files, init);
      var mid := UpAll(sc, db, files, init);
      forall x, r | 0 <= x < |files| && r in mid.records
        ensures r.appliedAt < a.at(files[x])
      {
        EarlierStampsAreBefore(db, files, attempts, r, x);
      }
      OneCallStamps(sc, mid, Versions(mid.records), files, a);
      StampedInMore(UpAll(sc, db, files, attempts).records, mid.records, db.records, files, attempts);
    }
  }

  /** A clock that advances from transaction to transaction keeps the query's order that of
      application, through all interruptions. */
  lemma AdvancingClockKeepsOrder<S>(sc: Scripts<S>, db: Db<S>, files: seq<string>, attempts: seq<Attempt>)
    requires ClockAdvances(db, files, attempts)
    ensures InOrder(UpAll(sc, db, files, attempts).records)
  {
    RunStamps(sc, db, files, attempts);
    IncreasingTimesAreInOrder(UpAll(sc, db, files, attempts).records);
  }

  /** Migrating and rolling back: after any interrupted and restarted calls that got through k
      pending files, with inverse scripts and the query's order that of application, j <= k
      rollbacks leave exactly the schema and the versions of the first k - j of them. */
  lemma RollbackUndoesInReverse<S(!new)>(
    sc: Scripts<S>, db: Db<S>, files: seq<string>, attempts: seq<Attempt>, k: nat, j: nat)
    requires InversePairs(sc) && InOrder(UpAll(sc, db, files, attempts).records) && j <= k
    requires Reached(sc, db, Pending(Versions(db.records), files), UpAll(sc, db, files, attempts), k)
    ensures var pending := Pending(Versions(db.records), files);
            var r := DownTimes(sc, UpAll(sc, db, files, attempts), j);
            && Some(r.schema) == ExecAll(sc, db.schema, pending[..k - j])
            && Versions(r.records) == Versions(db.records) + VersionsOf(pending[..k - j])
  {
    hide UpAll;
    RollbackFrom(sc, db, Pending(Versions(db.records), files), UpAll(sc, db, files, attempts), k, j);
  }

  /** In particular, undoing all of them restores the database the run began with. */
  lemma RollbackRestores<S(!new)>(sc: Scripts<S>, db: Db<S>, files: seq<string>, attempts: seq<Attempt>, k: nat)
    requires InversePairs(sc) && InOrder(UpAll(sc, db, files, attempts).records)
    requires Reached(sc, db, Pending(Versions(db.records), files), UpAll(sc, db, files, attempts), k)
    ensures var r := DownTimes(sc, UpAll(sc, db, files, attempts), k);
            r.schema == db.schema && Versions(r.records) == Versions(db.records)
  {
    RollbackUndoesInReverse(sc, db, files, attempts, k, k);
    var pending := Pending(Versions(db.records), files);
    assert pending[..0] == [];
    assert Versions(db.records) + [] == Versions(db.records);
  }

  /** Strictly increasing times are enough for that order. */
  lemma IncreasingTimesAreInOrder(records: seq<Record>)
    requires Increasing(records)
    ensures InOrder(records)
  {}

  /** Equal times are not: files are sorted with their suffix and versions without it, so of two
      migrations recorded at one instant the first can be rolled back before the second. */
  lemma EqualTimesCanUndoTheFirst()
    ensures var first, second := "1-a.up.sql", "1.up.sql";
            && LexLeq(first, second)
            && Latest([Record(VersionOf(first), 0), Record(VersionOf(second), 0)]) == 0
  {
    var first, second := "1-a.up.sql", "1.up.sql";
    assert first[1..] == "-a.up.sql" && second[1..] == ".up.sql";
    assert VersionOf(first) == "1-a" && VersionOf(second) == "1";
    assert !LexLeq("1-a", "1");
  }
}
