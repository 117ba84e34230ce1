/** What the details of an audit table say: what is stored for a value that was logged, what a
    redaction leaves of it, and what verification makes of a detail or field that was altered. */
module AuditDetails {
  import opened Common
  import opened AuditSerialization
  import opened AuditLog

  // ---- The canonical form ----

  /** The canonical form stands for the value of the text, or for the text itself under "raw". */
  lemma NormalizeKeepsValue(c: Codec, text: string)
    requires Lawful(c)
    ensures c.parse(Normalize(c, text)) ==
            if c.parse(text).Some? then c.parse(text) else Some(JObj(map["raw" := JStr(text)]))
  {}

  /** The two texts stand for one value; a text that is not JSON stands for its wrapping. */
  ghost predicate SameDetail(c: Codec, a: string, b: string) {
    match (c.parse(a), c.parse(b))
    case (Some(x), Some(y)) => x == y
    case (None, None) => a == b
    case (Some(x), None) => x == JObj(map["raw" := JStr(b)])
    case (None, Some(y)) => y == JObj(map["raw" := JStr(a)])
  }

  lemma WrappingIsInjective(a: string, b: string)
    requires JObj(map["raw" := JStr(a)]) == JObj(map["raw" := JStr(b)])
    ensures a == b
  {
    var x, y := map["raw" := JStr(a)], map["raw" := JStr(b)];
    assert x["raw"] == y["raw"];
  }

  /** The canonical forms are one text exactly if the details stand for one value. */
  lemma CanonicalFormsAgreeExactly(c: Codec, a: string, b: string)
    requires Lawful(c)
    ensures Normalize(c, a) == Normalize(c, b) <==> SameDetail(c, a, b)
  {
    NormalizeKeepsValue(c, a);
    NormalizeKeepsValue(c, b);
    if Normalize(c, a) == Normalize(c, b) && c.parse(a) == None && c.parse(b) == None {
      WrappingIsInjective(a, b);
    }
  }

  // ---- What verification makes of an alteration ----

  ghost predicate NoCollision(c: Codec, s: string, t: string) {
    c.hash(s) == c.hash(t) ==> s == t
  }

  /** Replacing the detail of a faultless row is found, as a detail mismatch, exactly if the row
      is not redacted and the new text stands for another value; no other row is blamed. */
  lemma AlteredDetailIsFoundExactly(c: Codec, rows: seq<Row>, from: int, i: int, text: string)
    requires Lawful(c) && 0 <= i < |rows| && FaultAt(c, rows, from, i) == None
    requires NoCollision(c, Normalize(c, rows[i].detail), Normalize(c, text))
    ensures var altered := rows[i := rows[i].(detail := text)];
            && FaultAt(c, altered, from, i) ==
               (if rows[i].redacted || SameDetail(c, rows[i].detail, text) then None else Some(DetailHashMismatch))
            && forall j :: 0 <= j < |rows| && j != i ==> FaultAt(c, altered, from, j) == FaultAt(c, rows, from, j)
  {
    CanonicalFormsAgreeExactly(c, rows[i].detail, text);
    hide Serialize;
    hide Normalize;
    hide Lawful;
    hide SameDetail;
  }

  /** Rewriting the chained fields of a faultless clean row is found, and named after the first
      check that the new fields fail. */
  lemma AlteredFieldsAreFound(c: Codec, rows: seq<Row>, from: int, i: int, fields: Chained)
    requires Lawful(c) && 0 <= i < |rows| && FaultAt(c, rows, from, i) == None
    requires Clean(rows[i].chained) && fields != rows[i].chained
    requires NoCollision(c, Serialize(c.time, rows[i].chained), Serialize(c.time, fields))
    ensures var was := rows[i].chained;
            FaultAt(c, rows[i := rows[i].(chained := fields)], from, i) == Some(
              if fields.sequence != was.sequence then SequenceGap
              else if fields.prevHash != was.prevHash && (i > 0 || was.sequence == 1) then PrevHashMismatch
              else if fields.detailHash != was.detailHash && !rows[i].redacted then DetailHashMismatch
              else EntryHashMismatch)
  {
    if Serialize(c.time, rows[i].chained) == Serialize(c.time, fields) {
      CleanIsUnique(c.time, rows[i].chained, fields);
    }
    hide Serialize;
    hide Normalize;
    hide Lawful;
    hide Clean;
  }

  /** Replacing the entry hash of a faultless row is found at that row, or, if the row before it
      is the one whose hash was replaced, as a broken link. */
  lemma AlteredHashIsFound(c: Codec, rows: seq<Row>, from: int, i: int, hash: string)
    requires 0 <= i < |rows| && FaultAt(c, rows, from, i) == None && hash != rows[i].entryHash
    ensures var altered := rows[i := rows[i].(entryHash := hash)];
            && FaultAt(c, altered, from, i) == Some(EntryHashMismatch)
            && (i + 1 < |rows| && FaultAt(c, rows, from, i + 1) == None ==>
                  FaultAt(c, altered, from, i + 1) == Some(PrevHashMismatch))
  {
    hide Serialize;
    hide Normalize;
  }

  /** Taking a row out of the middle of a faultless table is found at the row that follows. */
  lemma RemovedRowIsFound(c: Codec, rows: seq<Row>, from: int, i: int)
    requires 0 <= i < |rows| - 1 && FaultAt(c, rows, from, i + 1) == None
    ensures FaultAt(c, rows[..i] + rows[i + 1..], from, i) == Some(SequenceGap)
  {
    hide Serialize;
    hide Normalize;
    assert (rows[..i] + rows[i + 1..])[i] == rows[i + 1];
  }

  // ---- What a redaction leaves ----

  /** Which of its results a redaction has, in terms of the table alone. */
  lemma RedactsExactly(c: Codec, rows: seq<Row>, sequence: int, keys: seq<string>, commits: bool)
    ensures var r, i := RedactOutcome(c, rows, sequence, keys, commits), Find(rows, sequence);
            && (r == NotFound <==> forall j :: 0 <= j < |rows| ==> rows[j].chained.sequence != sequence)
            && (r != NotFound ==>
                  && i < |rows|
                  && (r == NotAnObject <==>
                        c.parse(rows[i].detail) == None ||
                        !(c.parse(rows[i].detail).value.JObj? || c.parse(rows[i].detail).value.JNull?))
                  && ((r == Redacted || r == NotCommitted) <==> Names(c, rows[i].detail, keys))
                  && (r == Redacted ==> commits) && (r == NotCommitted ==> !commits))
  {}

  /** The detail is an object with a member among the keys. */
  ghost predicate Names(c: Codec, detail: string, keys: seq<string>) {
    && c.parse(detail).Some? && c.parse(detail).value.JObj?
    && exists k :: k in keys && k in c.parse(detail).value.members
  }

  /** Two details keep the same members, and agree on all that were not named. */
  ghost predicate AlikeOutside(a: map<string, Json>, b: map<string, Json>, keys: seq<string>) {
    a.Keys == b.Keys && forall k :: k in a && k in b && k !in keys ==> a[k] == b[k]
  }

  /** What a redacted detail still tells: two details look alike after redaction exactly if they
      have the same members and agree on all that were not named. So nothing about a named
      member's value is left, and nothing about any other is lost. */
  lemma RedactionTellsExactly(a: map<string, Json>, b: map<string, Json>, keys: seq<string>)
    ensures RedactKeys(a, keys) == RedactKeys(b, keys) <==> AlikeOutside(a, b, keys)
  {
    var ra, rb := RedactKeys(a, keys), RedactKeys(b, keys);
    if ra == rb {
      assert a.Keys == ra.Keys == rb.Keys == b.Keys;
      forall k | k in a && k in b && k !in keys
        ensures a[k] == b[k]
      {
        assert ra[k] == rb[k];
      }
    }
    if AlikeOutside(a, b, keys) {
      assert forall k :: k in ra ==> ra[k] == rb[k];
    }
  }

  /** The same of the stored tables: two tables that differ at most in the detail of the entry
      become one table by the redaction exactly if the details agree on all that was not named. */
  lemma RedactedTablesTellExactly(c: Codec, rows: seq<Row>, text: string, sequence: int, keys: seq<string>)
    requires Lawful(c) && Find(rows, sequence) < |rows|
    requires Names(c, rows[Find(rows, sequence)].detail, keys) && Names(c, text, keys)
    ensures var i := Find(rows, sequence);
            var other := rows[i := rows[i].(detail := text)];
            && RedactOutcome(c, rows, sequence, keys, true) == Redacted
            && RedactOutcome(c, other, sequence, keys, true) == Redacted
            && (RedactedRows(c, rows, sequence, keys) == RedactedRows(c, other, sequence, keys) <==>
                  AlikeOutside(c.parse(rows[i].detail).value.members, c.parse(text).value.members, keys))
  {
    var i := Find(rows, sequence);
    var other := rows[i := rows[i].(detail := text)];
    SamePlace(rows, other, sequence);
    var a, b := c.parse(rows[i].detail).value.members, c.parse(text).value.members;
    RedactionTellsExactly(a, b, keys);
    hide AlikeOutside;
    RedactedDetail(c, rows, sequence, keys);
    RedactedDetail(c, other, sequence, keys);
    hide RedactKeys;
    hide RedactedRows;
    hide Lawful;
    if RedactKeys(a, keys) == RedactKeys(b, keys) {
      assert RedactedRows(c, rows, sequence, keys) == RedactedRows(c, other, sequence, keys);
    }
  }

  lemma RedactedDetail(c: Codec, rows: seq<Row>, sequence: int, keys: seq<string>)
    requires Lawful(c) && Find(rows, sequence) < |rows| && Names(c, rows[Find(rows, sequence)].detail, keys)
    ensures RedactOutcome(c, rows, sequence, keys, true) == Redacted
    ensures var i, r := Find(rows, sequence), RedactedRows(c, rows, sequence, keys);
            var left := JObj(RedactKeys(c.parse(rows[i].detail).value.members, keys));
            && r == rows[i := rows[i].(detail := c.column(c.marshal(left)), redacted := true)]
            && c.parse(r[i].detail) == Some(left)
  {
    hide RedactKeys;
  }

  lemma SamePlace(rows: seq<Row>, other: seq<Row>, sequence: int)
    requires |rows| == |other|
    requires forall j :: 0 <= j < |rows| ==> rows[j].chained.sequence == other[j].chained.sequence
    ensures Find(rows, sequence) == Find(other, sequence)
  {
    var i, j := Find(rows, sequence), Find(other, sequence);
    assert i < |rows| ==> other[i].chained.sequence == sequence;
    assert j < |rows| ==> rows[j].chained.sequence == sequence;
  }

  /** Redacting in several calls is redacting once with all their keys. */
  lemma RedactionsCompose(members: map<string, Json>, first: seq<string>, second: seq<string>)
    ensures RedactKeys(RedactKeys(members, first), second) == RedactKeys(members, first + second)
  {
    var twice, once := RedactKeys(RedactKeys(members, first), second), RedactKeys(members, first + second);
    forall k | k in members
      ensures twice[k] == once[k]
    {
      assert k in RedactKeys(members, first);
    }
  }
}
