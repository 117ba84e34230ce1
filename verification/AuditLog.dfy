/** The hash-chained audit table: append, redact, verify. Each committed transaction is one
    step; a transaction that does not commit leaves the table as it was. */
module AuditLog {
  import opened Common
  import opened AuditSerialization

  datatype Json =
    | JNull | JBool(b: bool) | JNum(n: int) | JStr(s: string)
    | JArr(items: seq<Json>) | JObj(members: map<string, Json>)

  /** What the log takes from its surroundings: the digest, the time and JSON formats, and
      what the JSONB column gives back for a text written to it. */
  datatype Codec = Codec(
    hash: string -> string, time: int -> string,
    parse: string -> Option<Json>, marshal: Json -> string, column: string -> string)

  ghost predicate Lawful(c: Codec) {
    && LawfulTime(c.time)
    && (forall s :: NewlineFree(c.hash(s)))
    && (forall j :: c.parse(c.marshal(j)) == Some(j))
    && c.marshal(JObj(map[])) == "{}"
    && (forall s :: c.parse(c.column(s)) == c.parse(s))
  }

  /** The forms a detail argument arrives in. `Value(None)` is a value with no JSON form. */
  datatype Detail = Nil | Text(text: string) | Raw(text: string) | Value(json: Option<Json>)

  /** A JSON text in canonical form; a text that is not JSON is wrapped, not refused. */
  function Normalize(c: Codec, text: string): string {
    match c.parse(text)
    case Some(j) => c.marshal(j)
    case None => c.marshal(JObj(map["raw" := JStr(text)]))
  }

  function CanonicalizeDetail(c: Codec, detail: Detail): Option<string> {
    match detail
    case Nil => Some("{}")
    case Text(text) => Some(if text == "" then "{}" else Normalize(c, text))
    case Raw(text) => Some(Normalize(c, text))
    case Value(None) => None
    case Value(Some(j)) => Some(Normalize(c, c.marshal(j)))
  }

  /** The value a detail argument stands for. */
  ghost function ValueGiven(c: Codec, detail: Detail): Option<Json> {
    match detail
    case Nil => Some(JObj(map[]))
    case Text(text) => if text == "" then Some(JObj(map[])) else ValueOrWrapped(c, text)
    case Raw(text) => ValueOrWrapped(c, text)
    case Value(json) => json
  }

  ghost function ValueOrWrapped(c: Codec, text: string): Option<Json> {
    if c.parse(text).Some? then c.parse(text) else Some(JObj(map["raw" := JStr(text)]))
  }

  /** Canonicalizing fails exactly for a value with no JSON form, and otherwise gives a text
      that reads as the value given, both before and after it went through the column. */
  lemma CanonicalKeepsValue(c: Codec, detail: Detail)
    ensures CanonicalizeDetail(c, detail) == None <==> detail == Value(None)
    ensures var canonical := CanonicalizeDetail(c, detail);
            Lawful(c) && canonical.Some? ==>
              && c.parse(canonical.value) == ValueGiven(c, detail)
              && c.parse(c.column(canonical.value)) == ValueGiven(c, detail)
  {
    assert Lawful(c) ==> c.parse(c.marshal(JObj(map[]))) == Some(JObj(map[]));
  }

  datatype Row = Row(chained: Chained, detail: string, entryHash: string, redacted: bool)

  // ---- Verification ----

  datatype Fault = SequenceGap | PrevHashMismatch | DetailHashMismatch | EntryHashMismatch

  /** The first thing wrong with row i of a selection that should begin at `from`. */
  function FaultAt(c: Codec, rows: seq<Row>, from: int, i: int): Option<Fault>
    requires 0 <= i < |rows|
  {
    var row := rows[i];
    if row.chained.sequence != from + i then Some(SequenceGap)
    else if i > 0 && row.chained.prevHash != rows[i - 1].entryHash then Some(PrevHashMismatch)
    else if i == 0 && row.chained.sequence == 1 && row.chained.prevHash != "" then Some(PrevHashMismatch)
    else if !row.redacted && c.hash(Normalize(c, row.detail)) != row.chained.detailHash then Some(DetailHashMismatch)
    else if c.hash(Serialize(c.time, row.chained)) != row.entryHash then Some(EntryHashMismatch)
    else None
  }

  ghost predicate Chain(c: Codec, rows: seq<Row>, from: int) {
    forall i :: 0 <= i < |rows| ==> FaultAt(c, rows, from, i) == None
  }

  /** The rows of a table whose sequence lies in [from, to], in table order. */
  function Selected(rows: seq<Row>, from: int, to: int): seq<Row> {
    if rows == [] then []
    else
      var last := rows[|rows| - 1];
      Selected(rows[..|rows| - 1], from, to) + if from <= last.chained.sequence <= to then [last] else []
  }

  datatype Verdict = Intact | Broken(sequence: int, fault: Fault)

  /** Intact exactly if no row of the range has a fault; otherwise the first fault of the first
      faulty row, and that row's sequence. */
  ghost predicate Answers(c: Codec, rows: seq<Row>, first: int, to: int, v: Verdict) {
    var chosen := Selected(rows, first, to);
    && (v == Intact <==> forall i :: 0 <= i < |chosen| ==> FaultAt(c, chosen, first, i) == None)
    && (v.Broken? ==>
          exists i :: && 0 <= i < |chosen|
                      && (forall j :: 0 <= j < i ==> FaultAt(c, chosen, first, j) == None)
                      && FaultAt(c, chosen, first, i) == Some(v.fault)
                      && v.sequence == chosen[i].chained.sequence)
  }

  // ---- Steps on the table ----

  function Truncated(nanos: int): int {
    nanos - nanos % 1000
  }

  function NextSequence(rows: seq<Row>): int {
    if rows == [] then 1 else rows[|rows| - 1].chained.sequence + 1
  }

  function LastHash(rows: seq<Row>): string {
    if rows == [] then "" else rows[|rows| - 1].entryHash
  }

  datatype Action = Action(actor: string, action: string, target: string, detail: Detail, nanos: int)

  function ChainedOf(c: Codec, rows: seq<Row>, a: Action, canonical: string): Chained {
    Chained(NextSequence(rows), Truncated(a.nanos), a.actor, a.action, a.target, c.hash(canonical), LastHash(rows))
  }

  /** The row a committed append stores: the column keeps whole microseconds and its own
      rendering of the detail. */
  function StoredRow(c: Codec, rows: seq<Row>, a: Action, canonical: string): Row {
    var x := ChainedOf(c, rows, a, canonical);
    Row(x.(createdAt := Truncated(x.createdAt)), c.column(canonical), c.hash(Serialize(c.time, x)), false)
  }

  function Appended(c: Codec, rows: seq<Row>, a: Action, commits: bool): seq<Row> {
    match CanonicalizeDetail(c, a.detail)
    case None => rows
    case Some(canonical) => if commits then rows + [StoredRow(c, rows, a, canonical)] else rows
  }

  const REDACTED := JStr("[REDACTED]")

  function RedactKeys(members: map<string, Json>, keys: seq<string>): (r: map<string, Json>)
    ensures r.Keys == members.Keys
    ensures forall k :: k in members ==> r[k] == if k in keys then REDACTED else members[k]
  {
    map k | k in members :: if k in keys then REDACTED else members[k]
  }

  /** Position of the row with a sequence, or the table's length. */
  function Find(rows: seq<Row>, sequence: int): (i: nat)
    ensures i <= |rows| && (i < |rows| ==> rows[i].chained.sequence == sequence)
    ensures forall j :: 0 <= j < i ==> rows[j].chained.sequence != sequence
  {
    if rows == [] || rows[0].chained.sequence == sequence then 0 else 1 + Find(rows[1..], sequence)
  }

  /** A JSON null reads as an object with no members. */
  function MembersOf(j: Json): Option<map<string, Json>> {
    match j
    case JObj(members) => Some(members)
    case JNull => Some(map[])
    case _ => None
  }

  datatype RedactResult = Redacted | NothingToRedact | NotFound | NotAnObject | NotCommitted

  function RedactOutcome(c: Codec, rows: seq<Row>, sequence: int, keys: seq<string>, commits: bool): RedactResult {
    var i := Find(rows, sequence);
    if i == |rows| then NotFound
    else
      match c.parse(rows[i].detail)
      case None => NotAnObject
      case Some(j) =>
        match MembersOf(j)
        case None => NotAnObject
        case Some(members) =>
          if !(exists k :: k in keys && k in members) then NothingToRedact
          else if !commits then NotCommitted
          else Redacted
  }

  function RedactedRows(c: Codec, rows: seq<Row>, sequence: int, keys: seq<string>): seq<Row>
    requires RedactOutcome(c, rows, sequence, keys, true) == Redacted
  {
    var i := Find(rows, sequence);
    var members := MembersOf(c.parse(rows[i].detail).value).value;
    rows[i := rows[i].(detail := c.column(c.marshal(JObj(RedactKeys(members, keys)))), redacted := true)]
  }

  /** Both details are objects with the same members; those named by the keys now read
      "[REDACTED]", and all others are as they were. */
  ghost predicate Overwritten(c: Codec, before: string, after: string, keys: seq<string>) {
    && c.parse(before).Some? && c.parse(before).value.JObj?
    && c.parse(after).Some? && c.parse(after).value.JObj?
    && var was, left := c.parse(before).value.members, c.parse(after).value.members;
       && left.Keys == was.Keys
       && forall k :: k in was ==> left[k] == if k in keys then JStr("[REDACTED]") else was[k]
  }

  /** A redaction overwrites the named members of one entry and marks it; of that entry nothing
      else changes, and no other entry does. */
  lemma RedactionOverwrites(c: Codec, rows: seq<Row>, sequence: int, keys: seq<string>)
    requires Lawful(c) && RedactOutcome(c, rows, sequence, keys, true) == Redacted
    ensures var i, r := Find(rows, sequence), RedactedRows(c, rows, sequence, keys);
            && i < |rows| == |r|
            && r == rows[i := rows[i].(detail := r[i].detail, redacted := true)]
            && Overwritten(c, rows[i].detail, r[i].detail, keys)
  {
    var i, r := Find(rows, sequence), RedactedRows(c, rows, sequence, keys);
    var members := c.parse(rows[i].detail).value.members;
    assert c.parse(r[i].detail) == Some(JObj(RedactKeys(members, keys)));
  }

  function RedactionNotice(sequence: int, keys: seq<string>, nanos: int): Action {
    Action("system", "redaction", "audit_logs:sequence:" + Decimal(sequence),
           Value(Some(JObj(map["target_sequence" := JNum(sequence),
                               "redacted_fields" := JArr(seq(|keys|, i requires 0 <= i < |keys| => JStr(keys[i])))]))),
           nanos)
  }

  /** The entry is of the system itself and says which members of which entry were redacted. */
  ghost predicate RecordsRedaction(c: Codec, row: Row, sequence: int, keys: seq<string>) {
    && row.chained.actor == "system"
    && row.chained.action == "redaction"
    && row.chained.target == "audit_logs:sequence:" + Decimal(sequence)
    && c.parse(row.detail) == Some(JObj(map[
         "target_sequence" := JNum(sequence),
         "redacted_fields" := JArr(seq(|keys|, i requires 0 <= i < |keys| => JStr(keys[i])))]))
  }

  lemma NoticeIsRecorded(c: Codec, rows: seq<Row>, sequence: int, keys: seq<string>, nanos: int)
    requires Lawful(c)
    ensures var after := Appended(c, rows, RedactionNotice(sequence, keys, nanos), true);
            |after| == |rows| + 1 && after[..|rows|] == rows && RecordsRedaction(c, after[|rows|], sequence, keys)
  {
    hide Decimal;
    hide Serialize;
    var notice := RedactionNotice(sequence, keys, nanos);
    CanonicalKeepsValue(c, notice.detail);
    hide CanonicalizeDetail;
  }

  datatype Op =
    | Log(action: Action, commits: bool)
    | Redact(sequence: int, keys: seq<string>, commits: bool, nanos: int, noticeCommits: bool)

  function Apply(c: Codec, rows: seq<Row>, op: Op): seq<Row> {
    match op
    case Log(a, commits) => Appended(c, rows, a, commits)
    case Redact(sequence, keys, commits, nanos, noticeCommits) =>
      if RedactOutcome(c, rows, sequence, keys, commits) == Redacted then
        Appended(c, RedactedRows(c, rows, sequence, keys), RedactionNotice(sequence, keys, nanos), noticeCommits)
      else rows
  }

  function ApplyAll(c: Codec, ops: seq<Op>): seq<Row> {
    if ops == [] then [] else Apply(c, ApplyAll(c, ops[..|ops| - 1]), ops[|ops| - 1])
  }

  // ---- The service ----

  class AuditService {
    const codec: Codec
    var rows: seq<Row>

    constructor (codec: Codec)
      ensures this.codec == codec && rows == []
    {
      this.codec := codec;
      rows := [];
    }

    /** Appends one entry, if its detail has a JSON form and the transaction commits: the next
        sequence, the last entry's hash, the instant in whole microseconds, and the fields given. */
    method LogAction(a: Action, commits: bool) returns (entry: Option<Row>)
      modifies this
      ensures rows == Appended(codec, old(rows), a, commits)
      ensures entry.Some? <==> commits && a.detail != Value(None)
      ensures entry == None ==> rows == old(rows)
      ensures entry.Some? ==>
                && |rows| == |old(rows)| + 1 && rows[..|old(rows)|] == old(rows)
                && var row, x := rows[|old(rows)|], rows[|old(rows)|].chained;
                   && x.sequence == (if old(rows) == [] then 1 else old(rows)[|old(rows)| - 1].chained.sequence + 1)
                   && x.prevHash == (if old(rows) == [] then "" else old(rows)[|old(rows)| - 1].entryHash)
                   && x.createdAt == a.nanos - a.nanos % 1000
                   && x.actor == a.actor && x.action == a.action && x.target == a.target
                   && x.detailHash == codec.hash(entry.value.detail)
                   && row.entryHash == codec.hash(Serialize(codec.time, x))
                   && !row.redacted
                   && entry.value == row.(detail := entry.value.detail)
                   && (Lawful(codec) ==>
                         && codec.parse(row.detail) == ValueGiven(codec, a.detail)
                         && codec.parse(entry.value.detail) == ValueGiven(codec, a.detail))
      ensures entry.Some? ==>
                var canonical := CanonicalizeDetail(codec, a.detail).value;
                entry.value == Row(ChainedOf(codec, old(rows), a, canonical), canonical, LastHash(rows), false)
    {
      hide Serialize;
      hide CanonicalizeDetail;
      var nextSeq, prevHash := 1, "";
      if rows != [] {
        nextSeq := rows[|rows| - 1].chained.sequence + 1;
        prevHash := rows[|rows| - 1].entryHash;
      }
      var canonical := CanonicalizeDetail(codec, a.detail);
      CanonicalKeepsValue(codec, a.detail);
      if canonical == None {
        return None;
      }
      var detailHash := codec.hash(canonical.value);
      var now := Truncated(a.nanos);
      var chained := Chained(nextSeq, now, a.actor, a.action, a.target, detailHash, prevHash);
      var entryHash := codec.hash(Serialize(codec.time, chained));
      if !commits {
        return None;
      }
      var stored := Row(chained.(createdAt := Truncated(now)), codec.column(canonical.value), entryHash, false);
      rows := rows + [stored];
      entry := Some(Row(chained, canonical.value, entryHash, false));
    }

    /** Checks the rows with sequences in [fromSeq, toSeq]: intact exactly if no row has a fault,
        and otherwise the first fault of the first faulty row is named. */
    method VerifyChain(fromSeq: int, toSeq: int) returns (v: Verdict)
      ensures Answers(codec, rows, if fromSeq <= 0 then 1 else fromSeq, toSeq, v)
    {
      hide Serialize;
      hide Normalize;
      var first := if fromSeq <= 0 then 1 else fromSeq;
      var chosen := Selected(rows, first, toSeq);
      var expectedSeq, expectedPrevHash := first, "";
      for i := 0 to |chosen|
        invariant expectedSeq == first + i
        invariant i > 0 ==> expectedPrevHash == chosen[i - 1].entryHash
        invariant forall j :: 0 <= j < i ==> FaultAt(codec, chosen, first, j) == None
      {
        ghost var fault := FaultAt(codec, chosen, first, i);
        var entry := chosen[i];
        var sequence := entry.chained.sequence;
        if sequence != expectedSeq {
          return Broken(sequence, SequenceGap);
        }
        if i > 0 {
          if entry.chained.prevHash != expectedPrevHash {
            return Broken(sequence, PrevHashMismatch);
          }
        } else if sequence == 1 && entry.chained.prevHash != "" {
          return Broken(sequence, PrevHashMismatch);
        }
        if !entry.redacted {
          var recomputed := codec.hash(Normalize(codec, entry.detail));
          if recomputed != entry.chained.detailHash {
            return Broken(sequence, DetailHashMismatch);
          }
        }
        var recomputedHash := codec.hash(Serialize(codec.time, entry.chained));
        if recomputedHash != entry.entryHash {
          return Broken(sequence, EntryHashMismatch);
        }
        expectedPrevHash := entry.entryHash;
        expectedSeq := expectedSeq + 1;
      }
      v := Intact;
    }

    /** Overwrites the named members of one entry's detail, keeping its hashes. */
    method RedactDetail(sequence: int, keys: seq<string>, commits: bool) returns (r: RedactResult)
      modifies this
      ensures r == RedactOutcome(codec, old(rows), sequence, keys, commits)
      ensures |rows| == |old(rows)|
      ensures rows == if r == Redacted then RedactedRows(codec, old(rows), sequence, keys) else old(rows)
      ensures r == Redacted && Lawful(codec) ==>
                var i := Find(old(rows), sequence);
                && i < |old(rows)| == |rows|
                && rows == old(rows)[i := old(rows)[i].(detail := rows[i].detail, redacted := true)]
                && Overwritten(codec, old(rows)[i].detail, rows[i].detail, keys)
    {
      hide Lawful;
      hide Overwritten;
      var i := Find(rows, sequence);
      if i == |rows| {
        return NotFound;
      }
      var parsed := codec.parse(rows[i].detail);
      if parsed == None || MembersOf(parsed.value) == None {
        return NotAnObject;
      }
      var original := MembersOf(parsed.value).value;
      var members, redactedAny := original, false;
      for n := 0 to |keys|
        invariant members == RedactKeys(original, keys[..n])
        invariant redactedAny <==> exists k :: k in keys[..n] && k in original
      {
        assert keys[..n + 1] == keys[..n] + [keys[n]];
        if keys[n] in members {
          members := members[keys[n] := REDACTED];
          redactedAny := true;
        }
      }
      assert keys[..|keys|] == keys;
      if !redactedAny {
        return NothingToRedact;
      }
      var detail := codec.marshal(JObj(members));
      if !commits {
        return NotCommitted;
      }
      rows := rows[i := rows[i].(detail := codec.column(detail), redacted := true)];
      r := Redacted;
      if Lawful(codec) {
        RedactionOverwrites(codec, old(rows), sequence, keys);
      }
    }

    /** Redacts, and then records the redaction as an entry of its own; losing that second
        entry is not an error. */
    method RedactEntry(sequence: int, keys: seq<string>, commits: bool, nanos: int, noticeCommits: bool)
      returns (r: RedactResult)
      modifies this
      ensures r == RedactOutcome(codec, old(rows), sequence, keys, commits)
      ensures rows == Apply(codec, old(rows), Redact(sequence, keys, commits, nanos, noticeCommits))
      ensures r != Redacted ==> rows == old(rows)
      ensures r == Redacted ==> |rows| == |old(rows)| + if noticeCommits then 1 else 0
      ensures r == Redacted && Lawful(codec) ==>
                var i := Find(old(rows), sequence);
                && i < |old(rows)|
                && rows[..|old(rows)|] == old(rows)[i := old(rows)[i].(detail := rows[i].detail, redacted := true)]
                && Overwritten(codec, old(rows)[i].detail, rows[i].detail, keys)
                && (noticeCommits ==> RecordsRedaction(codec, rows[|old(rows)|], sequence, keys))
    {
      hide Lawful;
      hide Overwritten;
      hide RecordsRedaction;
      hide RedactOutcome;
      hide RedactedRows;
      r := RedactDetail(sequence, keys, commits);
      if r == Redacted {
        if Lawful(codec) {
          NoticeIsRecorded(codec, rows, sequence, keys, nanos);
        }
        var _ := LogAction(RedactionNotice(sequence, keys, nanos), noticeCommits);
      }
    }
  }
}
