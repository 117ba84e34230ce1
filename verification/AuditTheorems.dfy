/** What the audit log is for: every table its own operations can produce verifies, and a
    table that verifies cannot have been altered behind an entry hash known from elsewhere. */
module AuditTheorems {
  import opened Common
  import opened AuditSerialization
  import opened AuditLog
  import opened AuditDetails

  // ---- Every run verifies ----

  /** Re-reading a stored canonical detail reproduces the text its hash was taken of. */
  lemma StoredDetailReproduces(c: Codec, detail: Detail)
    requires Lawful(c) && CanonicalizeDetail(c, detail).Some?
    ensures var canonical := CanonicalizeDetail(c, detail).value;
            Normalize(c, c.column(canonical)) == canonical
  {
    assert c.parse(c.marshal(JObj(map[]))) == Some(JObj(map[]));
  }

  lemma StoredTimeReproduces(nanos: int)
    ensures Truncated(Truncated(nanos)) == Truncated(nanos)
  {}

  lemma FaultsUnaffected(c: Codec, rows: seq<Row>, row: Row, i: int)
    requires 0 <= i < |rows|
    ensures FaultAt(c, rows + [row], 1, i) == FaultAt(c, rows, 1, i)
  {
    hide Serialize;
    hide Normalize;
  }

  lemma NewRowFaultless(c: Codec, rows: seq<Row>, a: Action)
    requires Lawful(c) && Chain(c, rows, 1) && CanonicalizeDetail(c, a.detail).Some?
    ensures var row := StoredRow(c, rows, a, CanonicalizeDetail(c, a.detail).value);
            FaultAt(c, rows + [row], 1, |rows|) == None
  {
    StoredDetailReproduces(c, a.detail);
    StoredTimeReproduces(a.nanos);
    hide Lawful;
    hide Serialize;
    hide Normalize;
    hide CanonicalizeDetail;
    hide Truncated;
    assert rows != [] ==> FaultAt(c, rows, 1, |rows| - 1) == None;
  }

  lemma AppendKeepsChain(c: Codec, rows: seq<Row>, a: Action, commits: bool)
    requires Lawful(c) && Chain(c, rows, 1)
    ensures Chain(c, Appended(c, rows, a, commits), 1)
  {
    hide FaultAt;
    hide CanonicalizeDetail;
    hide StoredRow;
    if CanonicalizeDetail(c, a.detail).Some? && commits {
      var row := StoredRow(c, rows, a, CanonicalizeDetail(c, a.detail).value);
      NewRowFaultless(c, rows, a);
      forall i | 0 <= i < |rows|
        ensures FaultAt(c, rows + [row], 1, i) == None
      {
        FaultsUnaffected(c, rows, row, i);
      }
    }
  }

  /** Redaction touches one detail and one flag: no chained field and no entry hash changes. */
  lemma RedactionKeepsHashes(c: Codec, rows: seq<Row>, sequence: int, keys: seq<string>)
    requires RedactOutcome(c, rows, sequence, keys, true) == Redacted
    ensures var r := RedactedRows(c, rows, sequence, keys);
            && |r| == |rows|
            && forall i :: 0 <= i < |rows| ==>
                 && r[i].chained == rows[i].chained
                 && r[i].entryHash == rows[i].entryHash
                 && (r[i] == rows[i] || (r[i].redacted && r[i].chained.sequence == sequence))
  {}

  lemma RedactionKeepsChain(c: Codec, rows: seq<Row>, sequence: int, keys: seq<string>)
    requires Chain(c, rows, 1) && RedactOutcome(c, rows, sequence, keys, true) == Redacted
    ensures Chain(c, RedactedRows(c, rows, sequence, keys), 1)
  {
    RedactionKeepsHashes(c, rows, sequence, keys);
    var r := RedactedRows(c, rows, sequence, keys);
    hide RedactedRows;
    hide Serialize;
    hide Normalize;
    forall i | 0 <= i < |r|
      ensures FaultAt(c, r, 1, i) == None
    {
      assert FaultAt(c, rows, 1, i) == None;
    }
  }

  lemma {:induction false} EveryRunIsAChain(c: Codec, ops: seq<Op>)
    requires Lawful(c)
    ensures Chain(c, ApplyAll(c, ops), 1)
  {
    if ops != [] {
      var rows, op := ApplyAll(c, ops[..|ops| - 1]), ops[|ops| - 1];
      EveryRunIsAChain(c, ops[..|ops| - 1]);
      hide Chain;
      hide Appended;
      match op {
        case Log(a, commits) =>
          AppendKeepsChain(c, rows, a, commits);
        case Redact(sequence, keys, commits, nanos, noticeCommits) =>
          if RedactOutcome(c, rows, sequence, keys, commits) == Redacted {
            RedactionKeepsChain(c, rows, sequence, keys);
            hide RedactOutcome;
            AppendKeepsChain(c, RedactedRows(c, rows, sequence, keys), RedactionNotice(sequence, keys, nanos), noticeCommits);
          }
      }
    }
  }

  ghost predicate GapFree(rows: seq<Row>) {
    forall i :: 0 <= i < |rows| ==> rows[i].chained.sequence == i + 1
  }

  /** In a gap-free table a range of sequences is a slice. */
  function Slice(rows: seq<Row>, from: int, to: int): seq<Row>
    requires from >= 1
  {
    var hi := if to < |rows| then to else |rows|;
    if from - 1 < hi then rows[from - 1..hi] else []
  }

  lemma SliceGrows(rows: seq<Row>, from: int, to: int)
    requires rows != [] && from >= 1
    ensures var n := |rows|;
            Slice(rows, from, to) ==
            Slice(rows[..n - 1], from, to) + if from <= n <= to then [rows[n - 1]] else []
  {
    var n := |rows|;
    var init := rows[..n - 1];
    if n <= to && from <= n {
      assert Slice(rows, from, to) == rows[from - 1..n];
      assert Slice(init, from, to) == rows[from - 1..n - 1];
    } else if to < n && from <= to {
      assert Slice(init, from, to) == rows[from - 1..to];
    }
  }

  lemma {:induction false} SelectedIsSlice(rows: seq<Row>, from: int, to: int)
    requires GapFree(rows) && from >= 1
    ensures Selected(rows, from, to) == Slice(rows, from, to)
  {
    if rows != [] {
      var init, n := rows[..|rows| - 1], |rows|;
      SelectedIsSlice(init, from, to);
      assert rows[n - 1].chained.sequence == n;
      SliceGrows(rows, from, to);
      hide Slice;
    }
  }

  /** The rows verification looks at are those of the range, and all of them. */
  lemma {:induction false} SelectedExactly(rows: seq<Row>, from: int, to: int, row: Row)
    ensures row in Selected(rows, from, to) <==> row in rows && from <= row.chained.sequence <= to
  {
    if rows != [] {
      SelectedExactly(rows[..|rows| - 1], from, to, row);
    }
  }

  /** ... and a range that covers a table leaves nothing out and reorders nothing. */
  lemma {:induction false} SelectedWhole(rows: seq<Row>, from: int, to: int)
    requires forall i :: 0 <= i < |rows| ==> from <= rows[i].chained.sequence <= to
    ensures Selected(rows, from, to) == rows
  {
    if rows != [] {
      SelectedWhole(rows[..|rows| - 1], from, to);
    }
  }

  lemma FirstFaultIsTheAnswer(c: Codec, rows: seq<Row>, to: int, i: int)
    requires Selected(rows, 1, to) == rows && 0 <= i < |rows|
    requires (forall j :: 0 <= j < i ==> FaultAt(c, rows, 1, j) == None) && FaultAt(c, rows, 1, i).Some?
    ensures forall v :: Answers(c, rows, 1, to, v) <==>
              v == Broken(rows[i].chained.sequence, FaultAt(c, rows, 1, i).value)
  {
    hide FaultAt;
    hide Selected;
  }

  /** An unredacted detail exchanged for one of another value is what verifying the whole table
      then answers, and nothing else. */
  lemma AlteredDetailIsReported(c: Codec, rows: seq<Row>, i: int, text: string)
    requires Lawful(c) && Chain(c, rows, 1) && 0 <= i < |rows|
    requires !rows[i].redacted && !SameDetail(c, rows[i].detail, text)
    requires NoCollision(c, Normalize(c, rows[i].detail), Normalize(c, text))
    ensures var altered := rows[i := rows[i].(detail := text)];
            forall v :: Answers(c, altered, 1, |rows|, v) <==> v == Broken(i + 1, DetailHashMismatch)
  {
    assert FaultAt(c, rows, 1, i) == None;
    AlteredDetailIsFoundExactly(c, rows, 1, i, text);
    var altered := rows[i := rows[i].(detail := text)];
    forall j | 0 <= j < |rows|
      ensures altered[j].chained.sequence == j + 1
    {
      assert FaultAt(c, rows, 1, j) == None;
    }
    SelectedWhole(altered, 1, |rows|);
    assert forall j :: 0 <= j < i ==> FaultAt(c, altered, 1, j) == None;
    hide *;
    FirstFaultIsTheAnswer(c, altered, |rows|, i);
  }

  lemma SliceRowFaultless(c: Codec, rows: seq<Row>, lo: nat, hi: nat, i: nat)
    requires lo + i < hi <= |rows| && FaultAt(c, rows, 1, lo + i) == None
    ensures FaultAt(c, rows[lo..hi], lo + 1, i) == None
  {
    hide Serialize;
    hide Normalize;
    assert rows[lo..hi][i] == rows[lo + i];
    if i > 0 {
      assert rows[lo..hi][i - 1] == rows[lo + i - 1];
    }
  }

  lemma SliceIsAChain(c: Codec, rows: seq<Row>, from: int, to: int)
    requires Chain(c, rows, 1) && from >= 1
    ensures Chain(c, Slice(rows, from, to), from)
  {
    hide FaultAt;
    var hi := if to < |rows| then to else |rows|;
    if from - 1 < hi {
      var slice := rows[from - 1..hi];
      forall i | 0 <= i < |slice|
        ensures FaultAt(c, slice, from, i) == None
      {
        SliceRowFaultless(c, rows, from - 1, hi, i);
      }
    }
  }

  /** After any interleaving of appends and redactions, committed or rolled back, sequences run
      gap-free from 1 and every range verifies. */
  lemma EveryRunVerifies(c: Codec, ops: seq<Op>, fromSeq: int, toSeq: int)
    requires Lawful(c)
    ensures GapFree(ApplyAll(c, ops))
    ensures Answers(c, ApplyAll(c, ops), if fromSeq <= 0 then 1 else fromSeq, toSeq, Intact)
  {
    var rows := ApplyAll(c, ops);
    EveryRunIsAChain(c, ops);
    forall i | 0 <= i < |rows|
      ensures rows[i].chained.sequence == i + 1
    {
      assert FaultAt(c, rows, 1, i) == None;
    }
    var first := if fromSeq <= 0 then 1 else fromSeq;
    SelectedIsSlice(rows, first, toSeq);
    SliceIsAChain(c, rows, first, toSeq);
  }

  /** Hashing an instant finer than the column keeps would break the entry at once: the stored
      row reproduces its hash exactly when the hashed instant is whole microseconds. */
  lemma MustTruncateBeforeHashing(c: Codec, x: Chained)
    requires LawfulTime(c.time) && Clean(x)
    requires NoCollision(c, Serialize(c.time, x), Serialize(c.time, x.(createdAt := Truncated(x.createdAt))))
    ensures c.hash(Serialize(c.time, x.(createdAt := Truncated(x.createdAt)))) == c.hash(Serialize(c.time, x))
            <==> x.createdAt % 1000 == 0
  {
    var stored := x.(createdAt := Truncated(x.createdAt));
    if Serialize(c.time, x) == Serialize(c.time, stored) {
      CleanIsUnique(c.time, x, stored);
    }
  }

  // ---- What every entry still says ----

  /** The value with the named members overwritten. */
  ghost function Overwrite(j: Json, keys: seq<string>): Json {
    if j.JObj? then JObj(map k | k in j.members :: if k in keys then JStr("[REDACTED]") else j.members[k]) else j
  }

  /** `after` is the entry `before`, of whose detail at most the named members were overwritten,
      and which is marked exactly if one was. */
  ghost predicate StillTells(c: Codec, before: Row, after: Row, keys: seq<string>) {
    && after.chained == before.chained
    && after.entryHash == before.entryHash
    && c.parse(after.detail) ==
       (if c.parse(before.detail).Some? then Some(Overwrite(c.parse(before.detail).value, keys)) else None)
    && (after.redacted <==> before.redacted || Names(c, before.detail, keys))
  }

  /** The keys named by the committed redactions of one entry. */
  function NamedKeys(ops: seq<Op>, sequence: int): seq<string> {
    if ops == [] then []
    else
      var op := ops[|ops| - 1];
      NamedKeys(ops[..|ops| - 1], sequence) +
      if op.Redact? && op.commits && op.sequence == sequence then op.keys else []
  }

  lemma NothingNamed(j: Json, keys: seq<string>)
    requires !(j.JObj? && exists k :: k in keys && k in j.members)
    ensures Overwrite(j, keys) == j
  {
    if j.JObj? {
      assert Overwrite(j, keys).members == j.members;
    }
  }

  lemma OverwritesCompose(j: Json, first: seq<string>, second: seq<string>)
    ensures Overwrite(Overwrite(j, first), second) == Overwrite(j, first + second)
  {
    if j.JObj? {
      assert Overwrite(Overwrite(j, first), second).members == Overwrite(j, first + second).members;
    }
  }

  lemma UntouchedTells(c: Codec, row: Row, keys: seq<string>)
    requires !Names(c, row.detail, keys)
    ensures StillTells(c, row, row, keys)
  {
    if c.parse(row.detail).Some? {
      NothingNamed(c.parse(row.detail).value, keys);
    }
  }

  lemma NamesSplit(c: Codec, detail: string, first: seq<string>, second: seq<string>)
    ensures Names(c, detail, first + second) <==> Names(c, detail, first) || Names(c, detail, second)
  {}

  lemma TellingComposes(c: Codec, a: Row, b: Row, d: Row, first: seq<string>, second: seq<string>)
    requires StillTells(c, a, b, first) && StillTells(c, b, d, second)
    ensures StillTells(c, a, d, first + second)
  {
    NamesSplit(c, a.detail, first, second);
    if c.parse(a.detail).Some? {
      var j := c.parse(a.detail).value;
      OverwritesCompose(j, first, second);
      assert j.JObj? ==> Overwrite(j, first).members.Keys == j.members.Keys;
    }
    assert Names(c, b.detail, second) <==> Names(c, a.detail, second);
  }

  lemma RedactionTells(c: Codec, rows: seq<Row>, sequence: int, keys: seq<string>)
    requires Lawful(c) && RedactOutcome(c, rows, sequence, keys, true) == Redacted
    ensures var i := Find(rows, sequence);
            i < |rows| && StillTells(c, rows[i], RedactedRows(c, rows, sequence, keys)[i], keys)
  {
    RedactionOverwrites(c, rows, sequence, keys);
    RedactsExactly(c, rows, sequence, keys, true);
    var i, r := Find(rows, sequence), RedactedRows(c, rows, sequence, keys);
    hide RedactOutcome;
    hide RedactedRows;
    hide Lawful;
    assert c.parse(r[i].detail).value.members == Overwrite(c.parse(rows[i].detail).value, keys).members;
  }

  lemma RedactStepTells(c: Codec, rows: seq<Row>, sequence: int, keys: seq<string>, commits: bool, i: nat)
    requires Lawful(c) && GapFree(rows) && i < |rows|
    ensures var r := if RedactOutcome(c, rows, sequence, keys, commits) == Redacted
                     then RedactedRows(c, rows, sequence, keys) else rows;
            && |r| == |rows|
            && StillTells(c, rows[i], r[i], if commits && sequence == i + 1 then keys else [])
  {
    RedactsExactly(c, rows, sequence, keys, commits);
    var at := Find(rows, sequence);
    assert sequence == i + 1 ==> at == i by {
      assert rows[i].chained.sequence == i + 1;
      assert at < |rows| ==> rows[at].chained.sequence == at + 1;
    }
    UntouchedTells(c, rows[i], []);
    if RedactOutcome(c, rows, sequence, keys, commits) == Redacted {
      RedactionOverwrites(c, rows, sequence, keys);
      RedactionTells(c, rows, sequence, keys);
      assert rows[at].chained.sequence == at + 1;
    } else if commits && sequence == i + 1 {
      UntouchedTells(c, rows[i], keys);
    }
  }

  lemma StepTells(c: Codec, rows: seq<Row>, op: Op, i: nat)
    requires Lawful(c) && GapFree(rows) && i < |rows|
    ensures var after := Apply(c, rows, op);
            && i < |after|
            && StillTells(c, rows[i], after[i],
                          if op.Redact? && op.commits && op.sequence == i + 1 then op.keys else [])
  {
    match op {
      case Log(a, commits) =>
        UntouchedTells(c, rows[i], []);
      case Redact(sequence, keys, commits, nanos, noticeCommits) =>
        RedactStepTells(c, rows, sequence, keys, commits, i);
        hide RedactOutcome;
        hide RedactedRows;
    }
  }

  /** Whatever is done to a table after an entry was written, the entry keeps its place, its
      chained fields and its hash; its detail keeps its value but for the members named by the
      committed redactions of that entry, all of which are overwritten; and it is marked exactly
      if it had such a member. */
  lemma {:induction false} EveryEntryStillTells(c: Codec, ops: seq<Op>, k: nat, i: nat)
    requires Lawful(c) && k <= |ops| && i < |ApplyAll(c, ops[..k])|
    ensures var before, after := ApplyAll(c, ops[..k]), ApplyAll(c, ops);
            i < |after| && StillTells(c, before[i], after[i], NamedKeys(ops[k..], i + 1))
    decreases |ops|
  {
    if k == |ops| {
      assert ops[..k] == ops;
      UntouchedTells(c, ApplyAll(c, ops)[i], []);
    } else {
      var init, op := ops[..|ops| - 1], ops[|ops| - 1];
      assert init[..k] == ops[..k];
      EveryEntryStillTells(c, init, k, i);
      var rows := ApplyAll(c, init);
      EveryRunVerifies(c, init, 1, 1);
      StepTells(c, rows, op, i);
      hide Apply;
      hide StillTells;
      var later := ops[k..];
      assert later[..|later| - 1] == init[k..] && later[|later| - 1] == op;
      TellingComposes(c, ApplyAll(c, ops[..k])[i], rows[i], ApplyAll(c, ops)[i], NamedKeys(init[k..], i + 1),
                      if op.Redact? && op.commits && op.sequence == i + 1 then op.keys else []);
    }
  }

  // ---- Tamper evidence ----

  /** The digest tells apart the texts that verification hashed for the two rows. */
  ghost predicate RowsDistinguished(c: Codec, a: Row, b: Row) {
    && NoCollision(c, Serialize(c.time, a.chained), Serialize(c.time, b.chained))
    && NoCollision(c, Normalize(c, a.detail), Normalize(c, b.detail))
  }

  ghost predicate SameEntry(c: Codec, a: Row, b: Row) {
    && a.chained == b.chained
    && a.entryHash == b.entryHash
    && (!a.redacted && !b.redacted ==> SameDetail(c, a.detail, b.detail))
  }

  lemma SameHashSameEntry(c: Codec, rows: seq<Row>, other: seq<Row>, i: int)
    requires Lawful(c) && Chain(c, rows, 1) && Chain(c, other, 1)
    requires 0 <= i < |rows| && i < |other|
    requires rows[i].entryHash == other[i].entryHash
    requires Clean(rows[i].chained) && RowsDistinguished(c, rows[i], other[i])
    ensures SameEntry(c, rows[i], other[i])
  {
    CanonicalFormsAgreeExactly(c, rows[i].detail, other[i].detail);
    hide Serialize;
    hide Normalize;
    hide SameDetail;
    assert FaultAt(c, rows, 1, i) == None && FaultAt(c, other, 1, i) == None;
    CleanIsUnique(c.time, rows[i].chained, other[i].chained);
  }

  lemma {:induction false} TamperEvidentFrom(c: Codec, rows: seq<Row>, other: seq<Row>, i: int)
    requires Lawful(c) && Chain(c, rows, 1) && Chain(c, other, 1)
    requires |other| == |rows| && 0 <= i < |rows|
    requires forall j :: 0 <= j < |rows| ==> Clean(rows[j].chained) && RowsDistinguished(c, rows[j], other[j])
    requires rows[|rows| - 1].entryHash == other[|rows| - 1].entryHash
    ensures SameEntry(c, rows[i], other[i])
    decreases |rows| - i
  {
    hide Clean;
    hide RowsDistinguished;
    if i + 1 < |rows| {
      TamperEvidentFrom(c, rows, other, i + 1);
      assert FaultAt(c, rows, 1, i + 1) == None && FaultAt(c, other, 1, i + 1) == None;
    }
    SameHashSameEntry(c, rows, other, i);
  }

  /** A log whose fields are clean is pinned down by its last sequence and entry hash. Any other
      table that also verifies from sequence 1 and ends in the same sequence and hash, whatever
      its fields contain, agrees with it on every chained field of every row, and on the value
      of the detail of every row that neither has redacted. */
  lemma TamperEvidence(c: Codec, rows: seq<Row>, other: seq<Row>)
    requires Lawful(c) && Chain(c, rows, 1) && Chain(c, other, 1)
    requires rows != [] && other != []
    requires rows[|rows| - 1].chained.sequence == other[|other| - 1].chained.sequence
    requires rows[|rows| - 1].entryHash == other[|other| - 1].entryHash
    requires forall j :: 0 <= j < |rows| ==> Clean(rows[j].chained)
    requires forall j :: 0 <= j < |rows| && j < |other| ==> RowsDistinguished(c, rows[j], other[j])
    ensures |rows| == |other|
    ensures forall i :: 0 <= i < |rows| ==> SameEntry(c, rows[i], other[i])
  {
    hide Clean;
    hide RowsDistinguished;
    assert FaultAt(c, rows, 1, |rows| - 1) == None && FaultAt(c, other, 1, |other| - 1) == None;
    hide FaultAt;
    forall i | 0 <= i < |rows|
      ensures SameEntry(c, rows[i], other[i])
    {
      TamperEvidentFrom(c, rows, other, i);
    }
  }

  /** `other` verifies from sequence 1, ends as `rows` does, and the digest tells their rows apart. */
  ghost predicate Rival(c: Codec, rows: seq<Row>, other: seq<Row>)
    requires rows != []
  {
    && Chain(c, other, 1) && other != []
    && rows[|rows| - 1].chained.sequence == other[|other| - 1].chained.sequence
    && rows[|rows| - 1].entryHash == other[|other| - 1].entryHash
    && forall j :: 0 <= j < |rows| && j < |other| ==> RowsDistinguished(c, rows[j], other[j])
  }

  /** The last sequence and hash of the table pin down every row of it. */
  ghost predicate PinnedDown(c: Codec, rows: seq<Row>)
    requires rows != []
  {
    forall other :: Rival(c, rows, other) ==>
      |other| == |rows| && forall i :: 0 <= i < |rows| ==> SameEntry(c, rows[i], other[i])
  }

  ghost predicate OneLineHashes(rows: seq<Row>) {
    forall i :: 0 <= i < |rows| ==> NewlineFree(rows[i].chained.detailHash) && NewlineFree(rows[i].chained.prevHash)
  }

  /** The table with row i read with other fields, and marked redacted so that its detail is not
      looked at. */
  function Reread(rows: seq<Row>, i: nat, y: Chained): seq<Row>
    requires i < |rows|
  {
    rows[i := rows[i].(chained := y, redacted := true)]
  }

  lemma RereadKeepsChain(c: Codec, rows: seq<Row>, i: nat, y: Chained)
    requires Chain(c, rows, 1) && i < |rows|
    requires y.sequence == rows[i].chained.sequence && y.prevHash == rows[i].chained.prevHash
    requires Serialize(c.time, y) == Serialize(c.time, rows[i].chained)
    ensures Chain(c, Reread(rows, i, y), 1)
  {
    hide Serialize;
    hide Normalize;
    var other := Reread(rows, i, y);
    forall j | 0 <= j < |other|
      ensures FaultAt(c, other, 1, j) == None
    {
      assert FaultAt(c, rows, 1, j) == None;
      assert other[j].entryHash == rows[j].entryHash;
      assert j > 0 ==> other[j - 1].entryHash == rows[j - 1].entryHash;
    }
  }

  lemma RereadIsRival(c: Codec, rows: seq<Row>, i: nat, y: Chained)
    requires i < |rows| && Chain(c, Reread(rows, i, y), 1)
    requires y.sequence == rows[i].chained.sequence
    requires Serialize(c.time, y) == Serialize(c.time, rows[i].chained)
    ensures Rival(c, rows, Reread(rows, i, y))
  {
    hide Serialize;
    hide Normalize;
    hide Chain;
    var other := Reread(rows, i, y);
    assert forall j :: 0 <= j < |rows| && j != i ==> other[j] == rows[j];
  }

  lemma UncleanRowHasRival(c: Codec, rows: seq<Row>, i: nat)
    requires Chain(c, rows, 1) && OneLineHashes(rows)
    requires i < |rows| && !Clean(rows[i].chained)
    ensures !PinnedDown(c, rows)
  {
    var y := UncleanIsShared(c.time, rows[i].chained);
    hide Serialize;
    hide Clean;
    hide Chain;
    RereadKeepsChain(c, rows, i, y);
    RereadIsRival(c, rows, i, y);
    hide Rival;
    assert !SameEntry(c, rows[i], Reread(rows, i, y)[i]);
  }

  lemma CleanTableIsPinnedDown(c: Codec, rows: seq<Row>)
    requires Lawful(c) && Chain(c, rows, 1) && rows != []
    requires forall j :: 0 <= j < |rows| ==> Clean(rows[j].chained)
    ensures PinnedDown(c, rows)
  {
    hide Clean;
    hide Chain;
    hide SameEntry;
    hide RowsDistinguished;
    forall other | Rival(c, rows, other)
      ensures |other| == |rows| && forall i :: 0 <= i < |rows| ==> SameEntry(c, rows[i], other[i])
    {
      TamperEvidence(c, rows, other);
    }
  }

  /** A verifying table with one-line hashes is pinned down by its last sequence and hash if and
      only if every row's free text is clean. */
  lemma PinnedDownExactlyWhenClean(c: Codec, rows: seq<Row>)
    requires Lawful(c) && Chain(c, rows, 1) && rows != [] && OneLineHashes(rows)
    ensures PinnedDown(c, rows) <==> forall j :: 0 <= j < |rows| ==> Clean(rows[j].chained)
  {
    hide Chain;
    hide Clean;
    hide PinnedDown;
    if forall j :: 0 <= j < |rows| ==> Clean(rows[j].chained) {
      CleanTableIsPinnedDown(c, rows);
    } else {
      var i :| 0 <= i < |rows| && !Clean(rows[i].chained);
      UncleanRowHasRival(c, rows, i);
    }
  }

  // ---- Tables written by the service are clean ----

  predicate OneLine(a: Action) {
    NewlineFree(a.actor) && NewlineFree(a.action) && NewlineFree(a.target)
  }

  ghost predicate AllOneLine(rows: seq<Row>) {
    forall i :: 0 <= i < |rows| ==>
      && NewlineFree(rows[i].entryHash) && NewlineFree(rows[i].chained.actor) && NewlineFree(rows[i].chained.action)
      && NewlineFree(rows[i].chained.target) && NewlineFree(rows[i].chained.detailHash)
      && NewlineFree(rows[i].chained.prevHash)
  }

  lemma AppendKeepsOneLine(c: Codec, rows: seq<Row>, a: Action, commits: bool)
    requires Lawful(c) && AllOneLine(rows) && OneLine(a)
    ensures AllOneLine(Appended(c, rows, a, commits))
  {
    hide Serialize;
    hide CanonicalizeDetail;
  }

  lemma {:induction false} RunsAreOneLine(c: Codec, ops: seq<Op>)
    requires Lawful(c)
    requires forall i :: 0 <= i < |ops| && ops[i].Log? ==> OneLine(ops[i].action)
    ensures AllOneLine(ApplyAll(c, ops))
  {
    if ops != [] {
      var rows, op := ApplyAll(c, ops[..|ops| - 1]), ops[|ops| - 1];
      RunsAreOneLine(c, ops[..|ops| - 1]);
      match op {
        case Log(a, commits) =>
          AppendKeepsOneLine(c, rows, a, commits);
        case Redact(sequence, keys, commits, nanos, noticeCommits) =>
          if RedactOutcome(c, rows, sequence, keys, commits) == Redacted {
            RedactionKeepsHashes(c, rows, sequence, keys);
            NoticeIsOneLine(sequence, keys, nanos);
            AppendKeepsOneLine(c, RedactedRows(c, rows, sequence, keys), RedactionNotice(sequence, keys, nanos), noticeCommits);
          }
      }
    }
  }

  lemma NoticeIsOneLine(sequence: int, keys: seq<string>, nanos: int)
    ensures OneLine(RedactionNotice(sequence, keys, nanos))
  {
    DecimalInjective(sequence, sequence);
    hide Decimal;
  }

  /** Tamper evidence for what the service itself wrote: if no caller put a newline into an
      actor, action or target, the table left by any run is pinned down by its last hash. */
  lemma RunsAreTamperEvident(c: Codec, ops: seq<Op>, other: seq<Row>)
    requires Lawful(c)
    requires forall i :: 0 <= i < |ops| && ops[i].Log? ==> OneLine(ops[i].action)
    requires var rows := ApplyAll(c, ops);
             && Chain(c, other, 1) && rows != [] && other != []
             && other[|other| - 1].chained.sequence == |rows|
             && other[|other| - 1].entryHash == LastHash(rows)
             && forall j :: 0 <= j < |rows| && j < |other| ==> RowsDistinguished(c, rows[j], other[j])
    ensures var rows := ApplyAll(c, ops);
            |other| == |rows| && forall i :: 0 <= i < |rows| ==> SameEntry(c, rows[i], other[i])
  {
    var rows := ApplyAll(c, ops);
    EveryRunVerifies(c, ops, 1, |rows|);
    EveryRunIsAChain(c, ops);
    RunsAreOneLine(c, ops);
    forall j | 0 <= j < |rows|
      ensures Clean(rows[j].chained)
    {
      NewlineFreeIsClean(rows[j].chained);
    }
    hide Clean;
    hide RowsDistinguished;
    hide Chain;
    TamperEvidence(c, rows, other);
  }
}
