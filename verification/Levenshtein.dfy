/** The dependency typosquat check: the edit-distance table, and the list of suspects. */
module Levenshtein {
  import opened SortedNames

  // ---- What an edit distance is ----

  datatype Edit = Insert(at: nat, c: char) | Delete(at: nat) | Substitute(at: nat, c: char)

  predicate Fits(e: Edit, s: string) {
    if e.Insert? then e.at <= |s| else e.at < |s|
  }

  function ApplyEdit(e: Edit, s: string): string
    requires Fits(e, s)
  {
    match e
    case Insert(i, c) => s[..i] + [c] + s[i..]
    case Delete(i) => s[..i] + s[i + 1..]
    case Substitute(i, c) => s[..i] + [c] + s[i + 1..]
  }

  /** The edits, made one after the other at any positions, turn `a` into `b`. */
  ghost predicate Turns(script: seq<Edit>, a: string, b: string) {
    if script == [] then a == b
    else Fits(script[0], a) && Turns(script[1..], ApplyEdit(script[0], a), b)
  }

  ghost predicate IsEditDistance(a: string, b: string, d: nat) {
    && (exists script :: Turns(script, a, b) && |script| == d)
    && (forall script :: Turns(script, a, b) ==> d <= |script|)
  }

  // ---- The recurrence of the table ----

  function Min(x: nat, y: nat): nat {
    if x < y then x else y
  }

  function Mismatch(x: char, y: char): nat {
    if x != y then 1 else 0
  }

  function Init(s: string): string
    requires s != []
  {
    s[..|s| - 1]
  }

  function Last(s: string): char
    requires s != []
  {
    s[|s| - 1]
  }

  function Distance(a: string, b: string): nat
    decreases |a| + |b|
  {
    if a == [] then |b|
    else if b == [] then |a|
    else
      Min(Min(Distance(Init(a), b) + 1, Distance(a, Init(b)) + 1),
          Distance(Init(a), Init(b)) + Mismatch(Last(a), Last(b)))
  }

  // ---- It is a metric ----

  lemma {:induction false} Symmetric(a: string, b: string)
    ensures Distance(a, b) == Distance(b, a)
    decreases |a| + |b|
  {
    if a != [] && b != [] {
      Symmetric(Init(a), b);
      Symmetric(a, Init(b));
      Symmetric(Init(a), Init(b));
    }
  }

  lemma {:induction false} Bounded(a: string, b: string)
    ensures |a| - |b| <= Distance(a, b)
    ensures |b| - |a| <= Distance(a, b)
    ensures Distance(a, b) <= |a| || Distance(a, b) <= |b|
    decreases |a| + |b|
  {
    if a != [] && b != [] {
      Bounded(Init(a), b);
      Bounded(a, Init(b));
      Bounded(Init(a), Init(b));
    }
  }

  lemma {:induction false} ZeroOnlyOnEqual(a: string, b: string)
    ensures Distance(a, b) == 0 <==> a == b
    decreases |a|
  {
    if a != [] && b != [] {
      ZeroOnlyOnEqual(Init(a), Init(b));
      assert a == Init(a) + [Last(a)] && b == Init(b) + [Last(b)];
    }
  }

  lemma {:induction false} Triangle(a: string, b: string, c: string)
    ensures Distance(a, c) <= Distance(a, b) + Distance(b, c)
    decreases |a| + |b| + |c|
  {
    if a == [] {
      Bounded(b, c);
    } else if c == [] {
      Bounded(a, b);
    } else if b == [] {
      Bounded(a, c);
    } else if Distance(a, b) == Distance(Init(a), b) + 1 {
      Triangle(Init(a), b, c);
    } else if Distance(b, c) == Distance(b, Init(c)) + 1 {
      Triangle(a, b, Init(c));
    } else if Distance(a, b) == Distance(a, Init(b)) + 1 {
      if Distance(b, c) == Distance(Init(b), c) + 1 {
        Triangle(a, Init(b), c);
      } else {
        Triangle(a, Init(b), Init(c));
      }
    } else if Distance(b, c) == Distance(Init(b), c) + 1 {
      Triangle(Init(a), Init(b), c);
    } else {
      Triangle(Init(a), Init(b), Init(c));
    }
  }

  // ---- It is the least number of edits ----

  lemma {:induction false} CommonSuffix(a: string, b: string, w: string)
    ensures Distance(a + w, b + w) <= Distance(a, b)
    decreases |w|
  {
    if w == [] {
      assert a + w == a && b + w == b;
    } else {
      CommonSuffix(a, b, Init(w));
      assert Init(a + w) == a + Init(w) && Init(b + w) == b + Init(w);
    }
  }

  lemma OneMoreCharacter(head: string, c: char)
    ensures Distance(head, head + [c]) <= 1 && Distance(head + [c], head) <= 1
  {
    ZeroOnlyOnEqual(head, head);
    assert Init(head + [c]) == head;
  }

  lemma OtherLastCharacter(head: string, x: char, y: char)
    ensures Distance(head + [x], head + [y]) <= 1
  {
    ZeroOnlyOnEqual(head, head);
    assert Init(head + [x]) == head && Init(head + [y]) == head;
  }

  lemma OneEdit(e: Edit, s: string)
    requires Fits(e, s)
    ensures Distance(s, ApplyEdit(e, s)) <= 1
  {
    hide Distance;
    var i := e.at;
    var head := s[..i];
    match e {
      case Insert(_, c) =>
        OneMoreCharacter(head, c);
        CommonSuffix(head, head + [c], s[i..]);
        assert s == head + s[i..];
      case Delete(_) =>
        OneMoreCharacter(head, s[i]);
        CommonSuffix(head + [s[i]], head, s[i + 1..]);
        assert s == head + [s[i]] + s[i + 1..];
      case Substitute(_, c) =>
        OtherLastCharacter(head, s[i], c);
        CommonSuffix(head + [s[i]], head + [c], s[i + 1..]);
        assert s == head + [s[i]] + s[i + 1..];
    }
  }

  lemma {:induction false} NoShorterScript(script: seq<Edit>, a: string, b: string)
    requires Turns(script, a, b)
    ensures Distance(a, b) <= |script|
    decreases |script|
  {
    if script == [] {
      ZeroOnlyOnEqual(a, b);
    } else {
      var next := ApplyEdit(script[0], a);
      NoShorterScript(script[1..], next, b);
      OneEdit(script[0], a);
      Triangle(a, next, b);
    }
  }

  lemma {:induction false} TurnsThen(s1: seq<Edit>, s2: seq<Edit>, a: string, b: string, c: string)
    requires Turns(s1, a, b) && Turns(s2, b, c)
    ensures Turns(s1 + s2, a, c)
    decreases |s1|
  {
    hide ApplyEdit;
    hide Fits;
    if s1 == [] {
      assert s1 + s2 == s2;
    } else {
      assert (s1 + s2)[1..] == s1[1..] + s2;
      TurnsThen(s1[1..], s2, ApplyEdit(s1[0], a), b, c);
    }
  }

  lemma EditBefore(e: Edit, a: string, w: string)
    requires Fits(e, a)
    ensures Fits(e, a + w) && ApplyEdit(e, a + w) == ApplyEdit(e, a) + w
  {
    var i := e.at;
    assert (a + w)[..i] == a[..i];
    if e.Insert? {
      assert (a + w)[i..] == a[i..] + w;
    } else {
      assert (a + w)[i + 1..] == a[i + 1..] + w;
    }
  }

  lemma {:induction false} TurnsBefore(script: seq<Edit>, a: string, b: string, w: string)
    requires Turns(script, a, b)
    ensures Turns(script, a + w, b + w)
    decreases |script|
  {
    hide ApplyEdit;
    hide Fits;
    if script != [] {
      TurnsBefore(script[1..], ApplyEdit(script[0], a), b, w);
      EditBefore(script[0], a, w);
    }
  }

  lemma FirstThen(e: Edit, script: seq<Edit>, a: string, b: string)
    requires Fits(e, a) && Turns(script, ApplyEdit(e, a), b)
    ensures Turns([e] + script, a, b)
  {
    assert ([e] + script)[1..] == script;
  }

  lemma ThenLast(script: seq<Edit>, e: Edit, a: string, b: string)
    requires Turns(script, a, b) && Fits(e, b)
    ensures Turns(script + [e], a, ApplyEdit(e, b))
  {
    assert [e][1..] == [];
    TurnsThen(script, [e], a, b, ApplyEdit(e, b));
  }

  /** The three ways the recurrence extends a script. */
  lemma DeleteLast(script: seq<Edit>, a: string, b: string) returns (longer: seq<Edit>)
    requires a != [] && Turns(script, Init(a), b)
    ensures Turns(longer, a, b) && |longer| == |script| + 1
  {
    hide Turns;
    var e := Delete(|a| - 1);
    assert ApplyEdit(e, a) == Init(a);
    FirstThen(e, script, a, b);
    longer := [e] + script;
  }

  lemma InsertLast(script: seq<Edit>, a: string, b: string) returns (longer: seq<Edit>)
    requires b != [] && Turns(script, a, Init(b))
    ensures Turns(longer, a, b) && |longer| == |script| + 1
  {
    hide Turns;
    var e := Insert(|b| - 1, Last(b));
    assert ApplyEdit(e, Init(b)) == b;
    ThenLast(script, e, a, Init(b));
    longer := script + [e];
  }

  lemma MatchLast(script: seq<Edit>, a: string, b: string) returns (longer: seq<Edit>)
    requires a != [] && b != [] && Turns(script, Init(a), Init(b))
    ensures Turns(longer, a, b) && |longer| == |script| + Mismatch(Last(a), Last(b))
  {
    hide Turns;
    TurnsBefore(script, Init(a), Init(b), [Last(b)]);
    assert b == Init(b) + [Last(b)];
    if Last(a) == Last(b) {
      assert a == Init(a) + [Last(b)];
      longer := script;
    } else {
      var e := Substitute(|a| - 1, Last(b));
      assert ApplyEdit(e, a) == Init(a) + [Last(b)];
      FirstThen(e, script, a, b);
      longer := [e] + script;
    }
  }

  lemma {:induction false} Realized(a: string, b: string) returns (script: seq<Edit>)
    ensures Turns(script, a, b) && |script| == Distance(a, b)
    decreases |a| + |b|
  {
    hide Turns;
    if a == [] && b == [] {
      script := [];
      assert Turns(script, a, b) by { NothingToDo(a); }
    } else if a != [] && (b == [] || Distance(a, b) == Distance(Init(a), b) + 1) {
      var rest := Realized(Init(a), b);
      script := DeleteLast(rest, a, b);
    } else if b != [] && (a == [] || Distance(a, b) == Distance(a, Init(b)) + 1) {
      var rest := Realized(a, Init(b));
      script := InsertLast(rest, a, b);
    } else {
      var rest := Realized(Init(a), Init(b));
      script := MatchLast(rest, a, b);
    }
  }

  lemma NothingToDo(a: string)
    ensures Turns([], a, a)
  {}

  /** The recurrence computes the least number of single-character insertions, deletions and
      substitutions, made in any order at any positions. */
  lemma DistanceIsEditDistance(a: string, b: string)
    ensures IsEditDistance(a, b, Distance(a, b))
  {
    var script := Realized(a, b);
    forall other | Turns(other, a, b)
      ensures Distance(a, b) <= |other|
    {
      NoShorterScript(other, a, b);
    }
  }

  // ---- The program ----

  lemma {:induction false} Recurrence(a: string, b: string, r: int, c: int)
    requires 1 <= r <= |a| && 1 <= c <= |b|
    ensures Distance(a[..r], b[..c]) ==
            Min(Min(Distance(a[..r - 1], b[..c]) + 1, Distance(a[..r], b[..c - 1]) + 1),
                Distance(a[..r - 1], b[..c - 1]) + Mismatch(a[r - 1], b[c - 1]))
  {
    assert Init(a[..r]) == a[..r - 1] && Init(b[..c]) == b[..c - 1];
  }

  /** Cell (r, c) should hold the distance between the first r characters of `a` and the
      first c of `b`. */
  function Cell(a: string, b: string, r: int, c: int): nat
    requires 0 <= r <= |a| && 0 <= c <= |b|
  {
    Distance(a[..r], b[..c])
  }

  /** Fills the whole table: every cell is the edit distance of its two prefixes. */
  method FillTable(a: string, b: string) returns (dp: array2<nat>)
    ensures fresh(dp) && dp.Length0 == |a| + 1 && dp.Length1 == |b| + 1
    ensures forall r, c :: 0 <= r <= |a| && 0 <= c <= |b| ==> dp[r, c] == Cell(a, b, r, c)
  {
    hide Distance;
    var m, n := |a|, |b|;
    dp := new nat[m + 1, n + 1]((_, _) => 0);
    for i := 0 to m + 1
      invariant forall r :: 0 <= r < i ==> dp[r, 0] == r
    {
      dp[i, 0] := i;
    }
    for j := 0 to n + 1
      invariant forall r :: 0 <= r <= m ==> dp[r, 0] == r
      invariant forall c :: 0 <= c < j ==> dp[0, c] == c
    {
      dp[0, j] := j;
    }
    Borders(a, b);
    for i := 1 to m + 1
      invariant forall r :: 0 <= r <= m ==> dp[r, 0] == Cell(a, b, r, 0)
      invariant forall r, c :: 0 <= r < i && 0 <= c <= n ==> dp[r, c] == Cell(a, b, r, c)
    {
      for j := 1 to n + 1
        invariant forall r :: 0 <= r <= m ==> dp[r, 0] == Cell(a, b, r, 0)
        invariant forall r, c :: 0 <= r < i && 0 <= c <= n ==> dp[r, c] == Cell(a, b, r, c)
        invariant forall c :: 0 <= c < j ==> dp[i, c] == Cell(a, b, i, c)
      {
        Recurrence(a, b, i, j);
        dp[i, j] := Min(Min(dp[i - 1, j] + 1, dp[i, j - 1] + 1),
                        dp[i - 1, j - 1] + Mismatch(a[i - 1], b[j - 1]));
      }
    }
  }

  lemma Borders(a: string, b: string)
    ensures forall r :: 0 <= r <= |a| ==> Cell(a, b, r, 0) == r
    ensures forall c :: 0 <= c <= |b| ==> Cell(a, b, 0, c) == c
  {}

  method Compute(a: string, b: string) returns (d: nat)
    ensures d == Distance(a, b) && IsEditDistance(a, b, d)
  {
    var dp := FillTable(a, b);
    d := dp[|a|, |b|];
    assert a[..|a|] == a && b[..|b|] == b;
    DistanceIsEditDistance(a, b);
  }

  const MAX_EDIT_DISTANCE: nat := 2

  datatype Suspect = Suspect(dep: string, known: string, distance: nat)

  /** A dependency is suspect of imitating a known package it does not equal when both names
      are longer than three characters and their lower-case forms differ by one or two edits. */
  ghost predicate Suspicious(lower: string -> string, dep: string, known: string) {
    && dep != known
    && |dep| > 3 && |known| > 3
    && 0 < Distance(lower(dep), lower(known)) <= MAX_EDIT_DISTANCE
  }

  ghost predicate Reports(lower: string -> string, s: Suspect, deps: seq<string>, known: seq<string>) {
    && s.dep in deps && s.known in known
    && Suspicious(lower, s.dep, s.known)
    && s.distance == Distance(lower(s.dep), lower(s.known))
  }

  lemma OneEditDistance(a: string, b: string, d: nat)
    ensures IsEditDistance(a, b, d) <==> d == Distance(a, b)
  {
    DistanceIsEditDistance(a, b);
    hide Distance;
    var e := Distance(a, b);
    if IsEditDistance(a, b, d) {
      var s :| Turns(s, a, b) && |s| == d;
      var t :| Turns(t, a, b) && |t| == e;
      assert d <= |t| && e <= |s|;
    }
  }

  /** What is reported, in terms of edit scripts alone. */
  lemma ReportsExactly(lower: string -> string, s: Suspect, deps: seq<string>, known: seq<string>)
    ensures Reports(lower, s, deps, known) <==>
            && s.dep in deps && s.known in known && s.dep != s.known
            && |s.dep| > 3 && |s.known| > 3
            && 1 <= s.distance <= 2 && IsEditDistance(lower(s.dep), lower(s.known), s.distance)
  {
    OneEditDistance(lower(s.dep), lower(s.known), s.distance);
    hide Distance;
    hide IsEditDistance;
  }

  /** The list goes through the dependencies in lexicographic order. */
  ghost predicate OrderedByDep(suspicious: seq<Suspect>) {
    forall i, j :: 0 <= i < j < |suspicious| ==> LexLeq(suspicious[i].dep, suspicious[j].dep)
  }

  lemma AppendInOrder(suspicious: seq<Suspect>, found: seq<Suspect>, deps: seq<string>, i: nat)
    requires Sorted(deps) && i < |deps| && OrderedByDep(suspicious)
    requires forall s :: s in found ==> s.dep == deps[i]
    requires forall s :: s in suspicious ==> s.dep in deps[..i]
    ensures OrderedByDep(suspicious + found)
  {
    LexTotal(deps[i], deps[i]);
    hide LexLeq;
    forall k | 0 <= k < |suspicious|
      ensures LexLeq(suspicious[k].dep, deps[i])
    {
      assert suspicious[k] in suspicious;
      var x :| 0 <= x < |deps[..i]| && deps[..i][x] == suspicious[k].dep;
      assert deps[x] == suspicious[k].dep;
    }
  }

  /** The known packages one dependency might imitate. */
  method SuspectsOf(lower: string -> string, dep: string, known: seq<string>) returns (found: seq<Suspect>)
    requires Distinct(known)
    ensures forall s :: s in found <==> Reports(lower, s, [dep], known)
    ensures Distinct(found)
  {
    hide Distance;
    hide IsEditDistance;
    found := [];
    for j := 0 to |known|
      invariant forall s :: s in found <==> Reports(lower, s, [dep], known[..j])
      invariant Distinct(found)
    {
      assert known[..j + 1] == known[..j] + [known[j]];
      assert known[j] !in known[..j];
      if dep != known[j] && |dep| > 3 && |known[j]| > 3 {
        var distance := Compute(lower(dep), lower(known[j]));
        if 0 < distance <= MAX_EDIT_DISTANCE {
          var suspect := Suspect(dep, known[j], distance);
          assert suspect !in found;
          found := found + [suspect];
        }
      }
    }
    assert known[..|known|] == known;
  }

  /** Lists exactly the suspect pairs, none of them twice, by dependency name in lexicographic
      order. */
  method FindSuspicious(lower: string -> string, newDeps: seq<string>, known: seq<string>)
    returns (suspicious: seq<Suspect>)
    requires Distinct(newDeps) && Distinct(known)
    ensures forall s :: s in suspicious <==> Reports(lower, s, newDeps, known)
    ensures forall s :: s in suspicious <==>
              && s.dep in newDeps && s.known in known && s.dep != s.known
              && |s.dep| > 3 && |s.known| > 3
              && 1 <= s.distance <= 2 && IsEditDistance(lower(s.dep), lower(s.known), s.distance)
    ensures Distinct(suspicious) && OrderedByDep(suspicious)
  {
    SortKeepsDistinct(newDeps);
    var deps := SortNames(newDeps);
    hide Suspicious;
    hide LexLeq;
    hide SortNames;
    hide IsEditDistance;
    suspicious := [];
    for i := 0 to |deps|
      invariant forall s :: s in suspicious <==> Reports(lower, s, deps[..i], known)
      invariant Distinct(suspicious) && OrderedByDep(suspicious)
    {
      var found := SuspectsOf(lower, deps[i], known);
      assert deps[i] !in deps[..i];
      AppendInOrder(suspicious, found, deps, i);
      suspicious := suspicious + found;
      assert deps[..i + 1] == deps[..i] + [deps[i]];
    }
    assert deps[..|deps|] == deps;
    forall s
      ensures Reports(lower, s, newDeps, known) <==>
              && s.dep in newDeps && s.known in known && s.dep != s.known
              && |s.dep| > 3 && |s.known| > 3
              && 1 <= s.distance <= 2 && IsEditDistance(lower(s.dep), lower(s.known), s.distance)
    {
      ReportsExactly(lower, s, newDeps, known);
    }
  }
}
