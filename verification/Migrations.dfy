/** The schema migration runner: it may be interrupted at any file and started again. */
module Migrations {
  import opened Common
  import opened SortedNames

  // ---- File names ----

  predicate HasSuffix(s: string, suffix: string) {
    |suffix| <= |s| && s[|s| - |suffix|..] == suffix
  }

  const UP_SUFFIX := ".up.sql"

  function VersionOf(file: string): string {
    if HasSuffix(file, UP_SUFFIX) then file[..|file| - |UP_SUFFIX|] else file
  }

  /** An up file is its version followed by the suffix. */
  lemma VersionExactly(file: string, version: string)
    ensures file == version + ".up.sql" <==> HasSuffix(file, UP_SUFFIX) && VersionOf(file) == version
  {
    if HasSuffix(file, UP_SUFFIX) {
      assert file == file[..|file| - |UP_SUFFIX|] + UP_SUFFIX;
    }
  }

  datatype DirEntry = DirEntry(name: string, isDir: bool)

  function UpNames(entries: seq<DirEntry>): seq<string> {
    if entries == [] then []
    else
      var last := entries[|entries| - 1];
      UpNames(entries[..|entries| - 1]) + if !last.isDir && HasSuffix(last.name, UP_SUFFIX) then [last.name] else []
  }

  /** The regular files with the up suffix, each once, in lexicographic order. */
  method UpFiles(entries: seq<DirEntry>) returns (files: seq<string>)
    ensures Sorted(files) && multiset(files) == multiset(UpNames(entries))
  {
    files := [];
    for i := 0 to |entries|
      invariant files == UpNames(entries[..i])
    {
      assert entries[..i + 1][..i] == entries[..i];
      if !entries[i].isDir && HasSuffix(entries[i].name, UP_SUFFIX) {
        files := files + [entries[i].name];
      }
    }
    assert entries[..|entries|] == entries;
    SortSorts(files);
    files := SortNames(files);
  }

  // ---- The database ----

  datatype Record = Record(version: string, appliedAt: int)

  datatype Db<S> = Db(schema: S, records: seq<Record>)

  /** What running a file's up script, or a version's down script, does to a schema; None if the
      script is missing or fails. */
  datatype Scripts<!S> = Scripts(up: (string, S) -> Option<S>, down: (string, S) -> Option<S>)

  /** The luck of one call: at which files its transaction does not commit, and when the
      others' transactions ran. */
  datatype Attempt = Attempt(fails: string -> bool, at: string -> int)

  function Versions(records: seq<Record>): seq<string> {
    seq(|records|, i requires 0 <= i < |records| => records[i].version)
  }

  /** Goes through the files, skipping the versions in `applied`, until one does not commit. */
  function UpFrom<S>(sc: Scripts<S>, db: Db<S>, applied: seq<string>, files: seq<string>, a: Attempt): (Db<S>, bool)
    decreases |files|
  {
    if files == [] then (db, true)
    else if VersionOf(files[0]) in applied then UpFrom(sc, db, applied, files[1..], a)
    else if a.fails(files[0]) then (db, false)
    else
      match sc.up(files[0], db.schema)
      case None => (db, false)
      case Some(schema) =>
        var record := Record(VersionOf(files[0]), a.at(files[0]));
        UpFrom(sc, Db(schema, db.records + [record]), applied, files[1..], a)
  }

  function Up<S>(sc: Scripts<S>, db: Db<S>, files: seq<string>, a: Attempt): (Db<S>, bool) {
    UpFrom(sc, db, Versions(db.records), files, a)
  }

  /** `a` sorts after `b` in the order the rollback query uses. */
  predicate Later(a: Record, b: Record) {
    a.appliedAt > b.appliedAt || (a.appliedAt == b.appliedAt && LexLeq(b.version, a.version))
  }

  /** Index of the record the rollback query returns. */
  function Latest(records: seq<Record>): (i: nat)
    requires records != []
    ensures i < |records|
  {
    if |records| == 1 then 0
    else
      var i := Latest(records[..|records| - 1]);
      if Later(records[|records| - 1], records[i]) then |records| - 1 else i
  }

  function Down<S>(sc: Scripts<S>, db: Db<S>, fails: bool): (Db<S>, bool) {
    if db.records == [] then (db, true)
    else
      var i := Latest(db.records);
      match sc.down(db.records[i].version, db.schema)
      case None => (db, false)
      case Some(schema) =>
        if fails then (db, false) else (Db(schema, db.records[..i] + db.records[i + 1..]), true)
  }

  class Database<S(==)> {
    const sc: Scripts<S>
    var schema: S
    var records: seq<Record>

    ghost function Value(): Db<S>
      reads this
    {
      Db(schema, records)
    }

    constructor (sc: Scripts<S>, schema: S)
      ensures this.sc == sc && Value() == Db(schema, [])
    {
      this.sc, this.schema, this.records := sc, schema, [];
    }

    /** Applies the files not yet recorded, each in a transaction of its own, up to the first
        that does not commit. */
    method MigrateUp(files: seq<string>, a: Attempt) returns (ok: bool)
      modifies this
      ensures (Value(), ok) == Up(sc, old(Value()), files, a)
    {
      var applied := Versions(records);
      for i := 0 to |files|
        invariant UpFrom(sc, Value(), applied, files[i..], a) == Up(sc, old(Value()), files, a)
      {
        assert files[i..][1..] == files[i + 1..];
        var version := VersionOf(files[i]);
        if version in applied {
          continue;
        }
        if a.fails(files[i]) {
          return false;
        }
        var r := sc.up(files[i], schema);
        if r == None {
          return false;
        }
        schema, records := r.value, records + [Record(version, a.at(files[i]))];
      }
      assert files[|files|..] == [];
      ok := true;
    }

    /** Undoes the record that sorts last by time and version. */
    method MigrateDown(fails: bool) returns (ok: bool)
      modifies this
      ensures (Value(), ok) == Down(sc, old(Value()), fails)
      ensures !ok || old(records) == [] ==> Value() == old(Value())
      ensures old(records) == [] ==> ok
      ensures old(records) != [] ==>
                var i := Latest(old(records));
                var undone := sc.down(old(records)[i].version, old(schema));
                && (ok <==> undone.Some? && !fails)
                && (ok ==> schema == undone.value && records == old(records)[..i] + old(records)[i + 1..])
    {
      if records == [] {
        return true;
      }
      var i := Latest(records);
      var r := sc.down(records[i].version, schema);
      if r == None || fails {
        return false;
      }
      schema, records := r.value, records[..i] + records[i + 1..];
      ok := true;
    }
  }
}
