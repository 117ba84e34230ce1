/** Names in lexicographic order, as Go's and Python's string sorts leave them. */
module SortedNames {

  predicate LexLeq(a: string, b: string) {
    a == [] || (b != [] && (a[0] < b[0] || (a[0] == b[0] && LexLeq(a[1..], b[1..]))))
  }

  ghost predicate Sorted(files: seq<string>) {
    forall i, j :: 0 <= i < j < |files| ==> LexLeq(files[i], files[j])
  }

  /** One name comes before another if it begins it, or has the smaller character where they
      first differ. */
  lemma {:induction false} LexExactly(a: string, b: string)
    ensures LexLeq(a, b) <==>
            a <= b || exists k :: 0 <= k < |a| && k < |b| && a[..k] == b[..k] && a[k] < b[k]
  {
    if a != [] && b != [] && a[0] == b[0] {
      LexExactly(a[1..], b[1..]);
      assert a == [a[0]] + a[1..] && b == [b[0]] + b[1..];
      if k :| 0 <= k < |a[1..]| && k < |b[1..]| && a[1..][..k] == b[1..][..k] && a[1..][k] < b[1..][k] {
        assert a[..k + 1] == [a[0]] + a[1..][..k] && b[..k + 1] == [b[0]] + b[1..][..k];
        assert a[k + 1] < b[k + 1];
      }
      if k :| 0 <= k < |a| && k < |b| && a[..k] == b[..k] && a[k] < b[k] {
        assert a[1..][..k - 1] == a[..k][1..] && b[1..][..k - 1] == b[..k][1..];
        assert a[1..][k - 1] < b[1..][k - 1];
      }
    } else if a != [] && b != [] && a[0] < b[0] {
      assert a[..0] == b[..0];
    }
  }

  lemma {:induction false} LexTotal(a: string, b: string)
    ensures LexLeq(a, b) || LexLeq(b, a)
    ensures LexLeq(a, b) && LexLeq(b, a) ==> a == b
  {
    if a != [] && b != [] {
      LexTotal(a[1..], b[1..]);
      assert a == [a[0]] + a[1..] && b == [b[0]] + b[1..];
    }
  }

  lemma {:induction false} LexTransitive(a: string, b: string, c: string)
    requires LexLeq(a, b) && LexLeq(b, c)
    ensures LexLeq(a, c)
  {
    if a != [] && a[0] == b[0] == c[0] {
      LexTransitive(a[1..], b[1..], c[1..]);
    }
  }

  function InsertName(name: string, files: seq<string>): seq<string> {
    if files == [] || LexLeq(name, files[0]) then [name] + files
    else [files[0]] + InsertName(name, files[1..])
  }

  function SortNames(files: seq<string>): seq<string> {
    if files == [] then [] else InsertName(files[0], SortNames(files[1..]))
  }

  lemma {:induction false} InsertAdds(name: string, files: seq<string>)
    ensures multiset(InsertName(name, files)) == multiset(files) + multiset{name}
  {
    hide LexLeq;
    if files != [] {
      InsertAdds(name, files[1..]);
      assert files == [files[0]] + files[1..];
    }
  }

  ghost predicate NoneBefore(name: string, files: seq<string>) {
    forall f :: f in files ==> LexLeq(name, f)
  }

  lemma SortedCons(name: string, files: seq<string>)
    ensures Sorted([name] + files) <==> Sorted(files) && NoneBefore(name, files)
  {
    hide LexLeq;
    var all := [name] + files;
    if Sorted(all) {
      assert forall i :: 0 <= i < |files| ==> files[i] == all[i + 1];
      forall f | f in files
        ensures LexLeq(name, f)
      {
        var i :| 0 <= i < |files| && files[i] == f;
        assert LexLeq(all[0], all[i + 1]);
      }
    }
  }

  lemma {:induction false} InsertSorts(name: string, files: seq<string>)
    requires Sorted(files)
    ensures Sorted(InsertName(name, files))
  {
    if files == [] {
      SortedCons(name, files);
    } else {
      var rest := files[1..];
      assert files == [files[0]] + rest;
      SortedCons(files[0], rest);
      LexTotal(name, files[0]);
      if LexLeq(name, files[0]) {
        forall f | f in files
          ensures LexLeq(name, f)
        {
          if f != files[0] {
            LexTransitive(name, files[0], f);
          }
        }
        SortedCons(name, files);
      } else {
        InsertSorts(name, rest);
        InsertAdds(name, rest);
        var inserted := InsertName(name, rest);
        forall f | f in inserted
          ensures LexLeq(files[0], f)
        {
          assert f in multiset(inserted);
        }
        SortedCons(files[0], inserted);
      }
    }
  }

  lemma {:induction false} SortSorts(files: seq<string>)
    ensures Sorted(SortNames(files)) && multiset(SortNames(files)) == multiset(files)
  {
    if files != [] {
      SortSorts(files[1..]);
      InsertSorts(files[0], SortNames(files[1..]));
      InsertAdds(files[0], SortNames(files[1..]));
      hide InsertName;
      hide Sorted;
      hide LexLeq;
      assert SortNames(files) == InsertName(files[0], SortNames(files[1..]));
      hide SortNames;
      assert files == [files[0]] + files[1..];
    }
  }

  // ---- Names without repetition ----

  ghost predicate Distinct<T>(items: seq<T>) {
    forall i, j :: 0 <= i < j < |items| ==> items[i] != items[j]
  }

  lemma {:induction false} DistinctCounts(names: seq<string>)
    ensures Distinct(names) <==> forall x :: multiset(names)[x] <= 1
  {
    if names != [] {
      var init, last := names[..|names| - 1], names[|names| - 1];
      assert names == init + [last];
      DistinctCounts(init);
      assert last in init <==> multiset(init)[last] > 0;
      if Distinct(init) && last in init {
        assert multiset(names)[last] > 1;
        var i :| 0 <= i < |init| && init[i] == last;
        assert names[i] == names[|names| - 1];
      } else if !Distinct(init) {
        var x :| multiset(init)[x] > 1;
        assert multiset(names)[x] > 1;
        var i, j :| 0 <= i < j < |init| && init[i] == init[j];
        assert names[i] == names[j];
      }
    }
  }

  /** Sorting neither loses, adds nor repeats a name. */
  lemma SortKeepsDistinct(files: seq<string>)
    requires Distinct(files)
    ensures Distinct(SortNames(files)) && Sorted(SortNames(files))
    ensures forall f :: f in SortNames(files) <==> f in files
  {
    SortSorts(files);
    SameNames(files, SortNames(files));
  }

  lemma SameNames(a: seq<string>, b: seq<string>)
    requires multiset(a) == multiset(b)
    ensures Distinct(a) <==> Distinct(b)
    ensures forall f :: f in a <==> f in b
  {
    DistinctCounts(a);
    DistinctCounts(b);
    assert forall f :: f in a <==> f in multiset(a);
    assert forall f :: f in b <==> f in multiset(b);
  }
}
