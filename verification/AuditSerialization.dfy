/** The text an audit entry is hashed over, and exactly when that text identifies the entry. */
module AuditSerialization {

  /** The fields of an entry that its hash covers. */
  datatype Chained = Chained(
    sequence: int, createdAt: int, actor: string, action: string, target: string,
    detailHash: string, prevHash: string)

  // ---- Decimal and time formats ----

  function Digit(d: int): char
    requires 0 <= d < 10
  {
    "0123456789"[d]
  }

  function Digits(n: nat): (s: string)
    ensures s != []
  {
    if n < 10 then [Digit(n)] else Digits(n / 10) + [Digit(n % 10)]
  }

  function Decimal(n: int): string {
    if n < 0 then "-" + Digits(-n) else Digits(n)
  }

  /** The number a sequence of decimal digits stands for. */
  ghost function Numeral(s: string): int {
    if s == "" then 0 else 10 * Numeral(s[..|s| - 1]) + (s[|s| - 1] as int - '0' as int)
  }

  lemma {:induction false} DigitsRead(n: nat)
    ensures Numeral(Digits(n)) == n
    ensures forall i :: 0 <= i < |Digits(n)| ==> '0' <= Digits(n)[i] <= '9'
    ensures Digits(n)[0] == '0' ==> n == 0
  {
    if n < 10 {
      assert Digits(n)[..0] == "";
    } else {
      DigitsRead(n / 10);
      assert Digits(n)[..|Digits(n)| - 1] == Digits(n / 10);
    }
  }

  predicate NewlineFree(s: string) {
    forall i :: 0 <= i < |s| ==> s[i] != '\n'
  }

  /** The time format gives different instants different, one-line texts. */
  ghost predicate LawfulTime(fmt: int -> string) {
    && (forall t :: NewlineFree(fmt(t)))
    && (forall t, u :: fmt(t) == fmt(u) ==> t == u)
  }

  lemma DigitInjective(d: int, e: int)
    requires 0 <= d < 10 && 0 <= e < 10
    ensures Digit(d) == Digit(e) ==> d == e
    ensures Digit(d) != '\n' && Digit(d) != '-'
  {}

  lemma {:induction false} DigitsPlain(n: nat)
    ensures NewlineFree(Digits(n)) && Digits(n)[0] != '-'
  {
    DigitInjective(n % 10, 0);
    if n >= 10 {
      DigitsPlain(n / 10);
    }
  }

  lemma {:induction false} DigitsInjective(a: nat, b: nat)
    requires Digits(a) == Digits(b)
    ensures a == b
  {
    DigitInjective(a % 10, b % 10);
    var x, y := Digits(a), Digits(b);
    assert x[|x| - 1] == Digit(a % 10) && y[|y| - 1] == Digit(b % 10);
    if a >= 10 && b >= 10 {
      assert x[..|x| - 1] == Digits(a / 10) && y[..|y| - 1] == Digits(b / 10);
      DigitsInjective(a / 10, b / 10);
    }
  }

  lemma DecimalInjective(a: int, b: int)
    ensures NewlineFree(Decimal(a))
    ensures Decimal(a) == Decimal(b) ==> a == b
  {
    DigitsPlain(if a < 0 then -a else a);
    DigitsPlain(if b < 0 then -b else b);
    if Decimal(a) == Decimal(b) {
      if a < 0 {
        assert Decimal(a)[1..] == Digits(-a) && Decimal(b)[1..] == Digits(-b);
        DigitsInjective(-a, -b);
      } else {
        DigitsInjective(a, b);
      }
    }
  }

  // ---- Fields between tags ----

  /** The tags that separate the free-text fields: field i + 1 follows tag i. */
  function Tags(): (tags: seq<string>)
    ensures |tags| == 4
  {
    ["\nACTION:", "\nTARGET:", "\nDETAIL_HASH:", "\nPREV_HASH:"]
  }

  predicate At(s: string, p: int, t: string) {
    0 <= p && p + |t| <= |s| && s[p..p + |t|] == t
  }

  ghost predicate Contains(s: string, t: string) {
    exists p :: At(s, p, t)
  }

  /** Every tag begins with the only newline it has. */
  lemma TagShape(i: int)
    requires 0 <= i < 4
    ensures var t := Tags()[i]; |t| > 1 && t[0] == '\n' && NewlineFree(t[1..])
  {}

  /** `m` gives the position of each tag in `s`, in order and without overlap. */
  predicate Marks(s: string, m: seq<int>) {
    && |m| == 4
    && (forall i :: 0 <= i < 4 ==> At(s, m[i], Tags()[i]))
    && (forall i :: 0 <= i < 3 ==> m[i] + |Tags()[i]| <= m[i + 1])
  }

  function FieldStart(m: seq<int>, i: int): int
    requires |m| == 4 && 0 <= i <= 4
  {
    if i == 0 then 0 else m[i - 1] + |Tags()[i - 1]|
  }

  function FieldEnd(s: string, m: seq<int>, i: int): int
    requires |m| == 4 && 0 <= i <= 4
  {
    if i == 4 then |s| else m[i]
  }

  function Field(s: string, m: seq<int>, i: int): string
    requires Marks(s, m) && 0 <= i <= 4
  {
    assert i > 0 ==> At(s, m[i - 1], Tags()[i - 1]);
    assert i < 4 ==> At(s, m[i], Tags()[i]);
    s[FieldStart(m, i)..FieldEnd(s, m, i)]
  }

  /** No field contains the tag that opens it or the tag that closes it. */
  ghost predicate CleanMarks(s: string, m: seq<int>)
    requires Marks(s, m)
  {
    && (forall i :: 0 <= i < 4 ==> !Contains(Field(s, m, i), Tags()[i]))
    && (forall i :: 0 <= i < 4 ==> !Contains(Field(s, m, i + 1), Tags()[i]))
  }

  /** Two tags found in one text never overlap. */
  lemma TagsApart(s: string, p: int, i: int, q: int, j: int)
    requires 0 <= i < 4 && 0 <= j < 4
    requires At(s, p, Tags()[i]) && At(s, q, Tags()[j]) && p < q
    ensures p + |Tags()[i]| <= q
  {
    var t := Tags()[i];
    TagShape(i);
    TagShape(j);
    assert s[q] == s[q..q + |Tags()[j]|][0] == '\n';
    assert forall x :: p < x < p + |t| ==> s[x] == s[p..p + |t|][x - p] == t[1..][x - p - 1] != '\n';
  }

  lemma Subslice(s: string, lo: int, hi: int, a: int, b: int)
    requires 0 <= lo <= hi <= |s| && 0 <= a <= b <= hi - lo
    ensures s[lo..hi][a..b] == s[lo + a..lo + b]
  {
    assert forall x :: 0 <= x < b - a ==> s[lo..hi][a..b][x] == s[lo..hi][a + x] == s[lo + a + x];
  }

  lemma Inside(s: string, m: seq<int>, i: int, p: int, t: string)
    requires Marks(s, m) && 0 <= i <= 4 && At(s, p, t)
    requires FieldStart(m, i) <= p && p + |t| <= FieldEnd(s, m, i)
    ensures Contains(Field(s, m, i), t)
  {
    Subslice(s, FieldStart(m, i), FieldEnd(s, m, i), p - FieldStart(m, i), p + |t| - FieldStart(m, i));
    assert At(Field(s, m, i), p - FieldStart(m, i), t);
  }

  /** If another marking puts tag i later, and does not put tag i + 1 later, then tag i
      occurs inside the field it opens. */
  lemma LaterIsInside(s: string, m: seq<int>, k: seq<int>, i: int)
    requires Marks(s, m) && Marks(s, k) && 0 <= i < 4 && m[i] < k[i]
    requires i < 3 ==> k[i + 1] <= m[i + 1]
    ensures Contains(Field(s, m, i + 1), Tags()[i])
  {
    TagShape(i);
    TagsApart(s, m[i], i, k[i], i);
    if i < 3 {
      assert k[i] + |Tags()[i]| <= k[i + 1];
    }
    Inside(s, m, i + 1, k[i], Tags()[i]);
  }

  lemma EarlierIsInside(s: string, m: seq<int>, k: seq<int>, i: int)
    requires Marks(s, m) && Marks(s, k) && 0 <= i < 4 && k[i] < m[i]
    requires i > 0 ==> m[i - 1] <= k[i - 1]
    ensures Contains(Field(s, m, i), Tags()[i])
  {
    TagsApart(s, k[i], i, m[i], i);
    if i > 0 {
      assert k[i - 1] + |Tags()[i - 1]| <= k[i];
    }
    Inside(s, m, i, k[i], Tags()[i]);
  }

  lemma {:induction false} NoneLater(s: string, m: seq<int>, k: seq<int>, i: int)
    requires Marks(s, m) && Marks(s, k) && CleanMarks(s, m) && 0 <= i < 4
    ensures k[i] <= m[i]
    decreases 4 - i
  {
    if i < 3 {
      NoneLater(s, m, k, i + 1);
    }
    if m[i] < k[i] {
      LaterIsInside(s, m, k, i);
    }
  }

  lemma {:induction false} NoneEarlier(s: string, m: seq<int>, k: seq<int>, i: int)
    requires Marks(s, m) && Marks(s, k) && CleanMarks(s, m) && 0 <= i < 4
    ensures m[i] <= k[i]
  {
    if i > 0 {
      NoneEarlier(s, m, k, i - 1);
    }
    if k[i] < m[i] {
      EarlierIsInside(s, m, k, i);
    }
  }

  lemma CleanMarksUnique(s: string, m: seq<int>, k: seq<int>)
    requires Marks(s, m) && Marks(s, k) && CleanMarks(s, m)
    ensures k == m
  {
    forall i | 0 <= i < 4
      ensures k[i] == m[i]
    {
      NoneLater(s, m, k, i);
      NoneEarlier(s, m, k, i);
    }
  }

  lemma OutsideOf(s: string, m: seq<int>, f: int, q: int, t: string)
    requires Marks(s, m) && 0 <= f <= 4 && At(Field(s, m, f), q, t)
    ensures At(s, FieldStart(m, f) + q, t) && FieldStart(m, f) + q + |t| <= FieldEnd(s, m, f)
  {
    assert f > 0 ==> At(s, m[f - 1], Tags()[f - 1]);
    assert f < 4 ==> At(s, m[f], Tags()[f]);
    Subslice(s, FieldStart(m, f), FieldEnd(s, m, f), q, q + |t|);
  }

  lemma MoveMark(s: string, m: seq<int>, i: int, p: int)
    requires Marks(s, m) && 0 <= i < 4 && At(s, p, Tags()[i])
    requires FieldStart(m, i) <= p
    requires i < 3 ==> p + |Tags()[i]| <= m[i + 1]
    ensures Marks(s, m[i := p])
  {
    hide At;
    hide Tags;
  }

  /** A tag found inside a field it borders can be read as the separator instead. */
  lemma OtherMarks(s: string, m: seq<int>, f: int, i: int) returns (k: seq<int>)
    requires Marks(s, m) && 0 <= i < 4 && i <= f <= i + 1
    requires Contains(Field(s, m, f), Tags()[i])
    ensures Marks(s, k) && k[i] != m[i] && (forall j :: 0 <= j < 4 && j != i ==> k[j] == m[j])
  {
    TagShape(i);
    hide Tags;
    var q :| At(Field(s, m, f), q, Tags()[i]);
    OutsideOf(s, m, f, q, Tags()[i]);
    assert q >= 0;
    hide At;
    hide Field;
    var p := FieldStart(m, f) + q;
    MoveMark(s, m, i, p);
    k := m[i := p];
  }

  // ---- The serialization ----

  /** The free-text fields of an entry. */
  function Fields(x: Chained): (f: seq<string>)
    ensures |f| == 5
  {
    [x.actor, x.action, x.target, x.detailHash, x.prevHash]
  }

  /** The fields from number i on, each after its tag. */
  function Tail(f: seq<string>, i: int): string
    requires |f| == 5 && 1 <= i <= 5
    decreases 5 - i
  {
    if i == 5 then "" else Tags()[i - 1] + (f[i] + Tail(f, i + 1))
  }

  function Body(f: seq<string>): string
    requires |f| == 5
  {
    f[0] + Tail(f, 1)
  }

  function Serialize(fmt: int -> string, x: Chained): string {
    "SEQ:" + Decimal(x.sequence) + "\nTS:" + fmt(x.createdAt) + "\nACTOR:" + Body(Fields(x))
  }

  /** The text in full. */
  lemma SerializeSpelledOut(fmt: int -> string, x: Chained)
    ensures Serialize(fmt, x) ==
            "SEQ:" + Decimal(x.sequence) + "\nTS:" + fmt(x.createdAt) + "\nACTOR:" + x.actor +
            "\nACTION:" + x.action + "\nTARGET:" + x.target +
            "\nDETAIL_HASH:" + x.detailHash + "\nPREV_HASH:" + x.prevHash
  {
    hide Decimal;
    var f := Fields(x);
    assert Tail(f, 4) == "\nPREV_HASH:" + x.prevHash;
    assert Tail(f, 3) == "\nDETAIL_HASH:" + x.detailHash + "\nPREV_HASH:" + x.prevHash;
    assert Tail(f, 2) == "\nTARGET:" + x.target + "\nDETAIL_HASH:" + x.detailHash + "\nPREV_HASH:" + x.prevHash;
    assert Tail(f, 1) == "\nACTION:" + x.action + "\nTARGET:" + x.target +
                         "\nDETAIL_HASH:" + x.detailHash + "\nPREV_HASH:" + x.prevHash;
  }

  /** Where tag i of a body stands. */
  function Start(f: seq<string>, i: int): (p: int)
    requires |f| == 5 && 0 <= i < 4
    ensures p >= 0
  {
    if i == 0 then |f[0]| else Start(f, i - 1) + |Tags()[i - 1]| + |f[i]|
  }

  function Starts(f: seq<string>): (m: seq<int>)
    requires |f| == 5
    ensures |m| == 4
  {
    [Start(f, 0), Start(f, 1), Start(f, 2), Start(f, 3)]
  }

  lemma DropSum(s: string, p: int, u: string, v: string)
    requires 0 <= p <= |s| && s[p..] == u + v
    ensures p + |u| <= |s| && s[p..p + |u|] == u && s[p + |u|..] == v
  {
    assert |s| == p + |u| + |v|;
    assert forall x :: 0 <= x < |u| ==> s[p + x] == s[p..][x] == u[x];
    assert forall x :: 0 <= x < |v| ==> s[p + |u| + x] == s[p..][|u| + x] == v[x];
  }

  /** Past tag i - 1 comes field i, and then the rest. */
  lemma TailStep(s: string, f: seq<string>, i: int, p: int)
    requires |f| == 5 && 1 <= i <= 4 && 0 <= p <= |s| && s[p..] == Tail(f, i)
    ensures var q := p + |Tags()[i - 1]|;
            && q + |f[i]| <= |s|
            && s[p..q] == Tags()[i - 1]
            && s[q..q + |f[i]|] == f[i]
            && s[q + |f[i]|..] == Tail(f, i + 1)
  {
    hide Tags;
    DropSum(s, p, Tags()[i - 1], f[i] + Tail(f, i + 1));
    DropSum(s, p + |Tags()[i - 1]|, f[i], Tail(f, i + 1));
  }

  lemma BodyHead(f: seq<string>)
    requires |f| == 5
    ensures |f[0]| <= |Body(f)| && Body(f)[0..|f[0]|] == f[0] && Body(f)[|f[0]|..] == Tail(f, 1)
  {
    hide Tail;
  }

  lemma {:induction false} BodyFrom(f: seq<string>, i: int)
    requires |f| == 5 && 0 <= i < 4
    ensures Start(f, i) <= |Body(f)| && Body(f)[Start(f, i)..] == Tail(f, i + 1)
    ensures i > 0 ==> Body(f)[Start(f, i - 1) + |Tags()[i - 1]|..Start(f, i)] == f[i]
  {
    hide Tags;
    hide Body;
    hide Tail;
    if i == 0 {
      BodyHead(f);
    } else {
      BodyFrom(f, i - 1);
      TailStep(Body(f), f, i, Start(f, i - 1));
    }
  }

  lemma BodyTag(f: seq<string>, i: int)
    requires |f| == 5 && 0 <= i < 4
    ensures At(Body(f), Start(f, i), Tags()[i])
    ensures i == 3 ==> Body(f)[Start(f, 3) + |Tags()[3]|..] == f[4]
  {
    hide Tags;
    hide Body;
    BodyFrom(f, i);
    TailStep(Body(f), f, i + 1, Start(f, i));
    if i == 3 {
      var q := Start(f, 3) + |Tags()[3]|;
      assert Body(f)[q + |f[4]|..] == "";
      assert Body(f)[q..] == Body(f)[q..q + |f[4]|];
    }
  }

  lemma BodyMarked(f: seq<string>)
    requires |f| == 5
    ensures Marks(Body(f), Starts(f))
  {
    hide At;
    forall i | 0 <= i < 4
      ensures At(Body(f), Starts(f)[i], Tags()[i])
    {
      BodyTag(f, i);
    }
  }

  lemma BodyFields(f: seq<string>, i: int)
    requires |f| == 5 && 0 <= i <= 4
    ensures Marks(Body(f), Starts(f)) && Field(Body(f), Starts(f), i) == f[i]
  {
    hide Tags;
    hide Body;
    hide Tail;
    BodyMarked(f);
    hide At;
    if i == 0 {
      BodyHead(f);
    } else if i < 4 {
      BodyFrom(f, i);
    } else {
      BodyTag(f, 3);
    }
  }

  // ---- When the text identifies the entry ----

  /** No free-text field contains the tag that opens it or the tag that closes it. */
  ghost predicate CleanFields(f: seq<string>)
    requires |f| == 5
  {
    && (forall i :: 0 <= i < 4 ==> !Contains(f[i], Tags()[i]))
    && (forall i :: 0 <= i < 4 ==> !Contains(f[i + 1], Tags()[i]))
  }

  ghost predicate Clean(x: Chained) {
    CleanFields(Fields(x))
  }

  lemma CleanMarksOfBody(f: seq<string>)
    requires |f| == 5
    ensures Marks(Body(f), Starts(f))
    ensures CleanMarks(Body(f), Starts(f)) <==> CleanFields(f)
  {
    hide Tags;
    hide Body;
    hide Contains;
    BodyMarked(f);
    forall i | 0 <= i <= 4
      ensures Field(Body(f), Starts(f), i) == f[i]
    {
      BodyFields(f, i);
    }
    hide Field;
  }

  lemma CleanBodyUnique(f: seq<string>, g: seq<string>)
    requires |f| == 5 && |g| == 5 && CleanFields(f) && Body(f) == Body(g)
    ensures f == g
  {
    hide Body;
    hide CleanFields;
    CleanMarksOfBody(f);
    BodyMarked(g);
    CleanMarksUnique(Body(f), Starts(f), Starts(g));
    hide Marks;
    forall i | 0 <= i <= 4
      ensures f[i] == g[i]
    {
      BodyFields(f, i);
      BodyFields(g, i);
    }
  }

  function FieldsAt(s: string, m: seq<int>): (f: seq<string>)
    requires Marks(s, m)
    ensures |f| == 5
  {
    [Field(s, m, 0), Field(s, m, 1), Field(s, m, 2), Field(s, m, 3), Field(s, m, 4)]
  }

  lemma ThreeParts(s: string, p: int, q: int, r: int)
    requires 0 <= p <= q <= r <= |s|
    ensures s[p..] == s[p..q] + (s[q..r] + s[r..])
  {}

  lemma {:induction false} RebuildTail(s: string, m: seq<int>, i: int)
    requires Marks(s, m) && 1 <= i <= 4
    ensures 0 <= m[i - 1] <= |s| && Tail(FieldsAt(s, m), i) == s[m[i - 1]..]
    decreases 4 - i
  {
    hide Tags;
    assert At(s, m[i - 1], Tags()[i - 1]);
    var next := FieldEnd(s, m, i);
    if i < 4 {
      RebuildTail(s, m, i + 1);
    } else {
      assert s[next..] == "";
    }
    assert Tail(FieldsAt(s, m), i + 1) == s[next..];
    assert FieldsAt(s, m)[i] == s[FieldStart(m, i)..next];
    hide FieldsAt;
    hide Marks;
    ThreeParts(s, m[i - 1], FieldStart(m, i), next);
  }

  lemma Rebuild(s: string, m: seq<int>)
    requires Marks(s, m)
    ensures Body(FieldsAt(s, m)) == s
  {
    hide Tags;
    RebuildTail(s, m, 1);
    assert s == s[..m[0]] + s[m[0]..];
  }

  /** Reading a body by other marks gives other fields, and the same last field unless the mark
      before it moved. */
  lemma OtherMarksOtherFields(f: seq<string>, k: seq<int>, i: int)
    requires |f| == 5 && Marks(Body(f), k) && 0 <= i < 4 && k[i] != Start(f, i)
    ensures FieldsAt(Body(f), k) != f && Body(FieldsAt(Body(f), k)) == Body(f)
    ensures k[3] == Start(f, 3) ==> FieldsAt(Body(f), k)[4] == f[4]
  {
    hide Body;
    hide Tags;
    Rebuild(Body(f), k);
    BodyFields(f, 4);
    hide Marks;
    if FieldsAt(Body(f), k) == f {
      MarksFromFields(Body(f), k, f, i);
    }
  }

  /** An unclean body can be read with other fields. If the last two fields are one line each,
      the last one need not change. */
  lemma UncleanBodyShared(f: seq<string>) returns (g: seq<string>)
    requires |f| == 5 && !CleanFields(f)
    ensures |g| == 5 && g != f && Body(g) == Body(f)
    ensures NewlineFree(f[3]) && NewlineFree(f[4]) ==> g[4] == f[4]
  {
    hide Body;
    BodyMarked(f);
    hide Contains;
    var i, c :| 0 <= i < 4 && i <= c <= i + 1 && Contains(f[c], Tags()[i]);
    LastTagsUntouched(f, c, i);
    BodyFields(f, c);
    hide Tags;
    hide NewlineFree;
    hide Marks;
    hide Start;
    var k := OtherMarks(Body(f), Starts(f), c, i);
    OtherMarksOtherFields(f, k, i);
    hide FieldsAt;
    g := FieldsAt(Body(f), k);
  }

  /** Among one-line last fields a stray tag cannot be the one before the last field. */
  lemma LastTagsUntouched(f: seq<string>, c: int, i: int)
    requires |f| == 5 && 0 <= i < 4 && i <= c <= i + 1 && Contains(f[c], Tags()[i])
    ensures NewlineFree(f[3]) && NewlineFree(f[4]) ==> i < 3
  {
    if NewlineFree(f[3]) && NewlineFree(f[4]) && i == 3 {
      NoTagOnOneLine(f[c], i);
    }
  }

  /** Fields of the given texts put their tags where the body has them. */
  lemma {:induction false} MarksFromFields(s: string, k: seq<int>, f: seq<string>, i: int)
    requires |f| == 5 && Marks(s, k) && FieldsAt(s, k) == f && 0 <= i < 4
    ensures k[i] == Start(f, i)
  {
    hide Tags;
    assert At(s, k[i], Tags()[i]);
    assert f[i] == Field(s, k, i);
    if i > 0 {
      MarksFromFields(s, k, f, i - 1);
      assert At(s, k[i - 1], Tags()[i - 1]);
    }
  }

  lemma LineSplit(u: string, s: string, v: string, t: string)
    requires NewlineFree(u) && NewlineFree(v)
    requires u + "\n" + s == v + "\n" + t
    ensures u == v && s == t
  {
    var x, y := u + "\n" + s, v + "\n" + t;
    assert x[|u|] == '\n' && y[|v|] == '\n';
    assert forall k :: 0 <= k < |u| ==> x[k] == u[k];
    assert forall k :: 0 <= k < |v| ==> y[k] == v[k];
    assert u == x[..|u|] && v == y[..|v|];
    assert s == x[|u| + 1..] && t == y[|v| + 1..];
  }

  lemma LabelledLine(tag: string, u: string, s: string, v: string, t: string)
    requires NewlineFree(tag) && NewlineFree(u) && NewlineFree(v)
    requires tag + u + "\n" + s == tag + v + "\n" + t
    ensures u == v && s == t
  {
    LineSplit(tag + u, s, tag + v, t);
    assert (tag + u)[|tag|..] == u && (tag + v)[|tag|..] == v;
  }

  lemma HeaderUnique(fmt: int -> string, x: Chained, y: Chained)
    requires LawfulTime(fmt) && Serialize(fmt, x) == Serialize(fmt, y)
    ensures x.sequence == y.sequence && x.createdAt == y.createdAt && Body(Fields(x)) == Body(Fields(y))
  {
    hide Body;
    hide Decimal;
    var bodyX, bodyY := Body(Fields(x)), Body(Fields(y));
    var restX := "TS:" + fmt(x.createdAt) + "\n" + ("ACTOR:" + bodyX);
    var restY := "TS:" + fmt(y.createdAt) + "\n" + ("ACTOR:" + bodyY);
    DecimalInjective(x.sequence, y.sequence);
    DecimalInjective(y.sequence, x.sequence);
    assert Serialize(fmt, x) == "SEQ:" + Decimal(x.sequence) + "\n" + restX;
    assert Serialize(fmt, y) == "SEQ:" + Decimal(y.sequence) + "\n" + restY;
    LabelledLine("SEQ:", Decimal(x.sequence), restX, Decimal(y.sequence), restY);
    LabelledLine("TS:", fmt(x.createdAt), "ACTOR:" + bodyX, fmt(y.createdAt), "ACTOR:" + bodyY);
    assert ("ACTOR:" + bodyX)[6..] == bodyX && ("ACTOR:" + bodyY)[6..] == bodyY;
  }

  lemma CleanIsUnique(fmt: int -> string, x: Chained, y: Chained)
    requires LawfulTime(fmt) && Clean(x) && Serialize(fmt, x) == Serialize(fmt, y)
    ensures x == y
  {
    HeaderUnique(fmt, x, y);
    CleanBodyUnique(Fields(x), Fields(y));
    assert Fields(x)[0] == Fields(y)[0] && Fields(x)[1] == Fields(y)[1] && Fields(x)[2] == Fields(y)[2];
    assert Fields(x)[3] == Fields(y)[3] && Fields(x)[4] == Fields(y)[4];
  }

  lemma UncleanIsShared(fmt: int -> string, x: Chained) returns (y: Chained)
    requires !Clean(x)
    ensures y != x && Serialize(fmt, y) == Serialize(fmt, x)
    ensures y.sequence == x.sequence
    ensures NewlineFree(x.detailHash) && NewlineFree(x.prevHash) ==> y.prevHash == x.prevHash
  {
    hide Body;
    var g := UncleanBodyShared(Fields(x));
    y := Chained(x.sequence, x.createdAt, g[0], g[1], g[2], g[3], g[4]);
    assert Fields(y) == g;
  }

  /** The text identifies the entry among all entries exactly when no free-text field contains
      the tag that opens it or the tag that closes it. */
  lemma IdentifiesExactlyWhenClean(fmt: int -> string, x: Chained)
    requires LawfulTime(fmt)
    ensures (forall y :: Serialize(fmt, y) == Serialize(fmt, x) ==> y == x) <==> Clean(x)
  {
    hide Serialize;
    if Clean(x) {
      forall y | Serialize(fmt, y) == Serialize(fmt, x)
        ensures y == x
      {
        CleanIsUnique(fmt, x, y);
      }
    } else {
      var y := UncleanIsShared(fmt, x);
    }
  }

  lemma NoTagOnOneLine(s: string, i: int)
    requires NewlineFree(s) && 0 <= i < 4
    ensures !Contains(s, Tags()[i])
  {
    var t := Tags()[i];
    TagShape(i);
    hide Tags;
    forall p
      ensures !At(s, p, t)
    {
      if 0 <= p <= |s| - |t| {
        assert s[p..p + |t|][0] == s[p];
      }
    }
  }

  /** One-line fields are clean. */
  lemma NewlineFreeIsClean(x: Chained)
    requires NewlineFree(x.actor) && NewlineFree(x.action) && NewlineFree(x.target)
    requires NewlineFree(x.detailHash) && NewlineFree(x.prevHash)
    ensures Clean(x)
  {
    hide Contains;
    forall i | 0 <= i < 4
      ensures !Contains(Fields(x)[i], Tags()[i]) && !Contains(Fields(x)[i + 1], Tags()[i])
    {
      NoTagOnOneLine(Fields(x)[i], i);
      NoTagOnOneLine(Fields(x)[i + 1], i);
    }
  }
}
