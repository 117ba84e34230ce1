/** Choosing the breaker that guards an outbound request: longest path prefix on the host. */
module UpstreamRouter {
  import opened Common

  /** A breaker is known here by its name. */
  type Breaker = string

  datatype Url = Url(host: string, path: string)

  datatype Entry = Entry(host: string, prefix: string, breaker: Breaker)

  /** What a registration asks for. The URL is None when it cannot be parsed. */
  datatype Registration = Registration(url: Option<Url>, breaker: Option<Breaker>)

  datatype RegisterResult = Accepted | NoBreaker | BadUrl | NoHost | Collides(with: Breaker)

  function TrimSlash(path: string): string {
    if path != [] && path[|path| - 1] == '/' then path[..|path| - 1] else path
  }

  /** The prefix is the path without its final slash, if it has one. */
  ghost predicate PrefixOf(path: string, prefix: string) {
    path == prefix + "/" || (path == prefix && (path == "" || path[|path| - 1] != '/'))
  }

  lemma TrimmedExactly(path: string, prefix: string)
    ensures TrimSlash(path) == prefix <==> PrefixOf(path, prefix)
  {
    if path != "" && path[|path| - 1] == '/' {
      assert path == path[..|path| - 1] + "/";
    }
  }

  predicate Usable(g: Registration) {
    g.breaker.Some? && g.url.Some? && g.url.value.host != ""
  }

  function EntryOf(lower: string -> string, g: Registration): Entry
    requires Usable(g)
  {
    Entry(lower(g.url.value.host), TrimSlash(g.url.value.path), g.breaker.value)
  }

  predicate SameKey(a: Entry, b: Entry) {
    a.host == b.host && a.prefix == b.prefix
  }

  ghost predicate NoCollisions(entries: seq<Entry>) {
    forall i, j :: 0 <= i < j < |entries| ==> !SameKey(entries[i], entries[j])
  }

  predicate Matches(lower: string -> string, e: Entry, u: Url) {
    e.host == lower(u.host) && e.prefix <= u.path
  }

  /** `e` matches the URL and no matching entry has a longer prefix. */
  ghost predicate LongestMatch(lower: string -> string, entries: seq<Entry>, u: Url, e: Entry) {
    && e in entries && Matches(lower, e, u)
    && forall f :: f in entries && Matches(lower, f, u) ==> |f.prefix| <= |e.prefix|
  }

  /** What looking up a URL must answer. */
  ghost predicate Routes(lower: string -> string, entries: seq<Entry>, u: Url, r: Option<Breaker>) {
    if r.Some? then exists e :: LongestMatch(lower, entries, u, e) && e.breaker == r.value
    else forall e :: e in entries ==> !Matches(lower, e, u)
  }

  // ---- Registration, as a function of the table ----

  function WithRoute(lower: string -> string, entries: seq<Entry>, g: Registration): seq<Entry> {
    if Usable(g) && forall i :: 0 <= i < |entries| ==> !SameKey(entries[i], EntryOf(lower, g))
    then entries + [EntryOf(lower, g)] else entries
  }

  function RegisterAll(lower: string -> string, regs: seq<Registration>): seq<Entry> {
    if regs == [] then []
    else WithRoute(lower, RegisterAll(lower, regs[..|regs| - 1]), regs[|regs| - 1])
  }

  class Router {
    const lower: string -> string
    var entries: seq<Entry>

    ghost predicate Valid()
      reads this
    {
      NoCollisions(entries)
    }

    constructor (lower: string -> string)
      ensures Valid() && entries == [] && this.lower == lower
    {
      this.lower := lower;
      entries := [];
    }

    /** Adds a route, unless one with the same host and prefix is already there. */
    method Register(g: Registration) returns (r: RegisterResult)
      requires Valid()
      modifies this
      ensures Valid()
      ensures entries == WithRoute(lower, old(entries), g)
      ensures r != Accepted ==> entries == old(entries)
      ensures r == Accepted ==>
                && |entries| == |old(entries)| + 1 && entries[..|old(entries)|] == old(entries)
                && var e := entries[|old(entries)|];
                   && e.host == lower(g.url.value.host) && Some(e.breaker) == g.breaker
                   && PrefixOf(g.url.value.path, e.prefix)
      ensures r == NoBreaker <==> g.breaker == None
      ensures r == BadUrl <==> g.breaker.Some? && g.url == None
      ensures r == NoHost <==> g.breaker.Some? && g.url.Some? && g.url.value.host == ""
      ensures r.Collides? <==>
                && g.breaker.Some? && g.url.Some? && g.url.value.host != ""
                && exists e :: e in old(entries) && e.host == lower(g.url.value.host) && PrefixOf(g.url.value.path, e.prefix)
      ensures r.Collides? ==>
                exists e :: && e in entries && e.breaker == r.with
                            && e.host == lower(g.url.value.host) && PrefixOf(g.url.value.path, e.prefix)
    {
      if g.breaker == None {
        return NoBreaker;
      }
      if g.url == None {
        return BadUrl;
      }
      if g.url.value.host == "" {
        return NoHost;
      }
      var entry := Entry(lower(g.url.value.host), TrimSlash(g.url.value.path), g.breaker.value);
      forall prefix
        ensures entry.prefix == prefix <==> PrefixOf(g.url.value.path, prefix)
      {
        TrimmedExactly(g.url.value.path, prefix);
      }
      hide PrefixOf;
      hide TrimSlash;
      for i := 0 to |entries|
        invariant forall j :: 0 <= j < i ==> !SameKey(entries[j], entry)
      {
        if entries[i].host == entry.host && entries[i].prefix == entry.prefix {
          return Collides(entries[i].breaker);
        }
      }
      entries := entries + [entry];
      r := Accepted;
    }

    method For(u: Option<Url>) returns (r: Option<Breaker>)
      ensures u == None ==> r == None
      ensures u.Some? ==> Routes(lower, entries, u.value, r)
      ensures u.Some? && r.Some? ==>
                exists e, rest ::
                  e in entries && e.breaker == r.value && e.host == lower(u.value.host) && u.value.path == e.prefix + rest
      ensures u.Some? && r == None ==>
                forall e, rest :: e in entries && e.host == lower(u.value.host) ==> u.value.path != e.prefix + rest
    {
      if u == None {
        return None;
      }
      var host, path := lower(u.value.host), u.value.path;
      var best: Option<Entry> := None;
      for i := 0 to |entries|
        invariant best.Some? ==> LongestMatch(lower, entries[..i], u.value, best.value)
        invariant best == None ==> forall e :: e in entries[..i] ==> !Matches(lower, e, u.value)
      {
        var entry := entries[i];
        assert entries[..i + 1] == entries[..i] + [entry];
        if entry.host != host {
          continue;
        }
        if entry.prefix != "" && !(entry.prefix <= path) {
          continue;
        }
        if best == None || |entry.prefix| > |best.value.prefix| {
          best := Some(entry);
        }
      }
      assert entries[..|entries|] == entries;
      if best == None {
        UnguardedExactly(lower, entries, u.value);
        return None;
      }
      r := Some(best.value.breaker);
      assert path == best.value.prefix + path[|best.value.prefix|..];
    }
  }

  // ---- What is guarded ----

  /** Every URL below a registered prefix is guarded, by a breaker registered for that host
      with a prefix of the path that is at least as long. */
  lemma UnderAPrefixIsGuarded(
    lower: string -> string, entries: seq<Entry>, e: Entry, host: string, rest: string, r: Option<Breaker>)
    requires e in entries && lower(host) == e.host
    requires Routes(lower, entries, Url(host, e.prefix + rest), r)
    ensures r.Some?
    ensures exists f, tail ::
              && f in entries && f.host == e.host && f.breaker == r.value
              && |e.prefix| <= |f.prefix| && e.prefix + rest == f.prefix + tail
  {
    var u := Url(host, e.prefix + rest);
    assert Matches(lower, e, u);
    var f :| LongestMatch(lower, entries, u, f) && f.breaker == r.value;
    assert u.path == f.prefix + u.path[|f.prefix|..];
  }

  /** A URL is unguarded exactly if its path extends no prefix registered for its host. */
  lemma UnguardedExactly(lower: string -> string, entries: seq<Entry>, u: Url)
    ensures Routes(lower, entries, u, None) <==>
            forall e, rest :: e in entries && e.host == lower(u.host) ==> u.path != e.prefix + rest
  {
    forall e, rest | e in entries && e.host == lower(u.host) && u.path == e.prefix + rest
      ensures Matches(lower, e, u)
    {}
    forall e | e in entries && Matches(lower, e, u)
      ensures e.host == lower(u.host) && u.path == e.prefix + u.path[|e.prefix|..]
    {}
  }

  /** Once a URL was registered, accepted or not, everything below it is guarded. */
  lemma RegisteredIsGuarded(
    lower: string -> string, regs: seq<Registration>, g: Registration, prefix: string, host: string, rest: string,
    r: Option<Breaker>)
    requires g in regs && Usable(g) && PrefixOf(g.url.value.path, prefix) && lower(host) == lower(g.url.value.host)
    requires Routes(lower, RegisterAll(lower, regs), Url(host, prefix + rest), r)
    ensures r.Some?
  {
    TableComplete(lower, regs, g);
    TrimmedExactly(g.url.value.path, prefix);
    hide RegisterAll;
    hide Routes;
    var table := RegisterAll(lower, regs);
    var i :| 0 <= i < |table| && SameKey(table[i], EntryOf(lower, g));
    UnderAPrefixIsGuarded(lower, table, table[i], host, rest, r);
  }

  /** A path with and without its final slash is one route: whichever comes second is refused. */
  lemma FinalSlashIsNoNewRoute(
    lower: string -> string, entries: seq<Entry>, host: string, path: string, b: Breaker, b': Breaker)
    requires host != "" && (path == "" || path[|path| - 1] != '/')
    ensures var plain, slashed := Registration(Some(Url(host, path)), Some(b)),
                                  Registration(Some(Url(host, path + "/")), Some(b'));
            && WithRoute(lower, WithRoute(lower, entries, plain), slashed) == WithRoute(lower, entries, plain)
            && WithRoute(lower, WithRoute(lower, entries, slashed), plain) == WithRoute(lower, entries, slashed)
  {
    var plain, slashed := Registration(Some(Url(host, path)), Some(b)),
                          Registration(Some(Url(host, path + "/")), Some(b'));
    TrimmedExactly(path, path);
    TrimmedExactly(path + "/", path);
    RouteClaims(lower, entries, plain, EntryOf(lower, plain));
    RouteClaims(lower, entries, slashed, EntryOf(lower, slashed));
  }

  // ---- The answer is one, whatever the order ----

  lemma AnswerIsUnique(lower: string -> string, entries: seq<Entry>, u: Url, r1: Option<Breaker>, r2: Option<Breaker>)
    requires NoCollisions(entries)
    requires Routes(lower, entries, u, r1) && Routes(lower, entries, u, r2)
    ensures r1 == r2
  {
    if r1.Some? && r2.Some? {
      var e1 :| LongestMatch(lower, entries, u, e1) && e1.breaker == r1.value;
      var e2 :| LongestMatch(lower, entries, u, e2) && e2.breaker == r2.value;
      assert e1.prefix == u.path[..|e1.prefix|] && e2.prefix == u.path[..|e2.prefix|];
      var i :| 0 <= i < |entries| && entries[i] == e1;
      var j :| 0 <= j < |entries| && entries[j] == e2;
      assert SameKey(entries[i], entries[j]);
    }
  }

  /** Registrations that name the same host and prefix name the same breaker. */
  ghost predicate Consistent(lower: string -> string, regs: seq<Registration>) {
    forall g, h | g in regs && h in regs && Usable(g) && Usable(h) ::
      SameKey(EntryOf(lower, g), EntryOf(lower, h)) ==> g.breaker == h.breaker
  }

  /** Every order of the same registrations answers every URL alike. */
  ghost predicate OrderIndependent(lower: string -> string, regs: seq<Registration>) {
    forall other, u, r :: multiset(other) == multiset(regs) ==>
      (Routes(lower, RegisterAll(lower, regs), u, r) <==> Routes(lower, RegisterAll(lower, other), u, r))
  }

  lemma {:induction false} TableSound(lower: string -> string, regs: seq<Registration>)
    ensures NoCollisions(RegisterAll(lower, regs))
    ensures forall e :: e in RegisterAll(lower, regs) ==> exists g :: g in regs && Usable(g) && e == EntryOf(lower, g)
  {
    if regs != [] {
      var init, last := regs[..|regs| - 1], regs[|regs| - 1];
      TableSound(lower, init);
      assert last in regs && forall g :: g in init ==> g in regs;
      hide EntryOf;
      hide RegisterAll;
      assert RegisterAll(lower, regs) == WithRoute(lower, RegisterAll(lower, init), last) by {
        Unfold(lower, regs);
      }
    }
  }

  lemma Unfold(lower: string -> string, regs: seq<Registration>)
    requires regs != []
    ensures RegisterAll(lower, regs) == WithRoute(lower, RegisterAll(lower, regs[..|regs| - 1]), regs[|regs| - 1])
  {}

  ghost predicate Claimed(entries: seq<Entry>, key: Entry) {
    exists i :: 0 <= i < |entries| && SameKey(entries[i], key)
  }

  lemma RouteClaims(lower: string -> string, entries: seq<Entry>, g: Registration, key: Entry)
    ensures Usable(g) ==> Claimed(WithRoute(lower, entries, g), EntryOf(lower, g))
    ensures Claimed(entries, key) ==> Claimed(WithRoute(lower, entries, g), key)
  {
    hide EntryOf;
    var after := WithRoute(lower, entries, g);
    assert forall i :: 0 <= i < |entries| ==> after[i] == entries[i];
    if after != entries {
      assert SameKey(after[|entries|], EntryOf(lower, g));
    }
  }

  lemma {:induction false} TableComplete(lower: string -> string, regs: seq<Registration>, g: Registration)
    requires g in regs && Usable(g)
    ensures Claimed(RegisterAll(lower, regs), EntryOf(lower, g))
  {
    hide EntryOf;
    hide Claimed;
    hide WithRoute;
    var init, last := regs[..|regs| - 1], regs[|regs| - 1];
    assert regs == init + [last];
    Unfold(lower, regs);
    if g in init {
      TableComplete(lower, init, g);
    }
    RouteClaims(lower, RegisterAll(lower, init), last, EntryOf(lower, g));
  }

  lemma ConsistentTable(lower: string -> string, regs: seq<Registration>, e: Entry)
    requires Consistent(lower, regs)
    ensures e in RegisterAll(lower, regs) <==> exists g :: g in regs && Usable(g) && e == EntryOf(lower, g)
  {
    TableSound(lower, regs);
    hide RegisterAll;
    if g :| g in regs && Usable(g) && e == EntryOf(lower, g) {
      TableComplete(lower, regs, g);
      var i :| 0 <= i < |RegisterAll(lower, regs)| && SameKey(RegisterAll(lower, regs)[i], e);
      var f := RegisterAll(lower, regs)[i];
      assert f in RegisterAll(lower, regs);
      var h :| h in regs && Usable(h) && f == EntryOf(lower, h);
      assert f == e;
    }
  }

  lemma ConsistentIsIndependent(
    lower: string -> string, regs: seq<Registration>, other: seq<Registration>, u: Url, r: Option<Breaker>)
    requires Consistent(lower, regs) && multiset(other) == multiset(regs)
    ensures Routes(lower, RegisterAll(lower, regs), u, r) <==> Routes(lower, RegisterAll(lower, other), u, r)
  {
    hide RegisterAll;
    var a, b := RegisterAll(lower, regs), RegisterAll(lower, other);
    assert forall g :: g in regs <==> g in other by {
      assert forall g :: g in regs <==> g in multiset(regs);
      assert forall g :: g in other <==> g in multiset(other);
    }
    forall e
      ensures e in a <==> e in b
    {
      ConsistentTable(lower, regs, e);
      ConsistentTable(lower, other, e);
    }
    assert forall e :: LongestMatch(lower, a, u, e) <==> LongestMatch(lower, b, u, e);
  }

  lemma {:induction false} FirstStays(lower: string -> string, g: Registration, rest: seq<Registration>)
    requires Usable(g)
    ensures EntryOf(lower, g) in RegisterAll(lower, [g] + rest)
  {
    if rest == [] {
      assert [g] + rest == [g] && [g][..0] == [];
      assert RegisterAll(lower, []) == [];
    } else {
      var all := [g] + rest;
      assert all[..|all| - 1] == [g] + rest[..|rest| - 1];
      FirstStays(lower, g, rest[..|rest| - 1]);
    }
  }

  /** With a registration put first, a URL made of its own host and prefix is answered by it. */
  lemma FirstAnswers(lower: string -> string, g: Registration, rest: seq<Registration>)
    requires Usable(g)
    ensures Routes(lower, RegisterAll(lower, [g] + rest),
                   Url(g.url.value.host, EntryOf(lower, g).prefix), g.breaker)
  {
    FirstStays(lower, g, rest);
    hide RegisterAll;
    var e := EntryOf(lower, g);
    assert LongestMatch(lower, RegisterAll(lower, [g] + rest), Url(g.url.value.host, e.prefix), e);
  }

  function MoveFirst(regs: seq<Registration>, i: int): seq<Registration>
    requires 0 <= i < |regs|
  {
    [regs[i]] + (regs[..i] + regs[i + 1..])
  }

  lemma MoveFirstPermutes(regs: seq<Registration>, i: int)
    requires 0 <= i < |regs|
    ensures multiset(MoveFirst(regs, i)) == multiset(regs)
  {
    assert regs == regs[..i] + ([regs[i]] + regs[i + 1..]);
  }

  lemma InconsistentDepends(lower: string -> string, regs: seq<Registration>, i: int, j: int)
    requires 0 <= i < |regs| && 0 <= j < |regs| && Usable(regs[i]) && Usable(regs[j])
    requires SameKey(EntryOf(lower, regs[i]), EntryOf(lower, regs[j])) && regs[i].breaker != regs[j].breaker
    ensures !OrderIndependent(lower, regs)
  {
    hide RegisterAll;
    hide Routes;
    var table := RegisterAll(lower, regs);
    var a, b := MoveFirst(regs, i), MoveFirst(regs, j);
    MoveFirstPermutes(regs, i);
    MoveFirstPermutes(regs, j);
    FirstAnswers(lower, regs[i], regs[..i] + regs[i + 1..]);
    FirstAnswers(lower, regs[j], regs[..j] + regs[j + 1..]);
    var p := EntryOf(lower, regs[i]).prefix;
    var u, v := Url(regs[i].url.value.host, p), Url(regs[j].url.value.host, p);
    SameLowerSameAnswer(lower, RegisterAll(lower, b), u, v, regs[j].breaker);
    TableSound(lower, regs);
    if OrderIndependent(lower, regs) {
      assert Routes(lower, RegisterAll(lower, a), u, regs[i].breaker);
      AnswerIsUnique(lower, table, u, regs[i].breaker, regs[j].breaker);
    }
  }

  lemma SameLowerSameAnswer(lower: string -> string, entries: seq<Entry>, u: Url, v: Url, r: Option<Breaker>)
    requires lower(u.host) == lower(v.host) && u.path == v.path
    ensures Routes(lower, entries, u, r) <==> Routes(lower, entries, v, r)
  {
    assert forall e :: Matches(lower, e, u) <==> Matches(lower, e, v);
    assert forall e :: LongestMatch(lower, entries, u, e) <==> LongestMatch(lower, entries, v, e);
  }

  /** The order of registration never matters exactly when no host and prefix is claimed for
      two different breakers. */
  lemma OrderNeverMattersExactlyWhenConsistent(lower: string -> string, regs: seq<Registration>)
    ensures OrderIndependent(lower, regs) <==> Consistent(lower, regs)
  {
    hide RegisterAll;
    if Consistent(lower, regs) {
      forall other, u, r | multiset(other) == multiset(regs)
        ensures Routes(lower, RegisterAll(lower, regs), u, r) <==> Routes(lower, RegisterAll(lower, other), u, r)
      {
        ConsistentIsIndependent(lower, regs, other, u, r);
      }
    } else {
      var g, h :| g in regs && h in regs && Usable(g) && Usable(h) &&
                  SameKey(EntryOf(lower, g), EntryOf(lower, h)) && g.breaker != h.breaker;
      var i :| 0 <= i < |regs| && regs[i] == g;
      var j :| 0 <= j < |regs| && regs[j] == h;
      InconsistentDepends(lower, regs, i, j);
    }
  }
}
