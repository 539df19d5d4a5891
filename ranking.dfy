/** The ranking step of `getTopDangerousAsteroids`: the records sorted by
    average diameter, largest first, with a stable sort (records of equal
    diameter keep the order they were extracted in), and the first three
    kept. The sort is given here as an insertion sort; any stable descending
    sort yields the same list, which `StableSortIsUnique` proves. */
module Ranking {
  import opened ServiceTypes

  /** How many records the ranking keeps (`limit(3)`). */
  const TopCount: nat := 3

  predicate Descending(s: seq<AsteroidResponse>)
  {
    forall i, j :: 0 <= i < j < |s| ==> s[i].diameter >= s[j].diameter
  }

  /** The records of diameter `d`, in the order they appear. */
  function WithDiameter(s: seq<AsteroidResponse>, d: real): seq<AsteroidResponse>
  {
    if s == [] then []
    else (if s[0].diameter == d then [s[0]] else []) + WithDiameter(s[1..], d)
  }

  /** `x` placed in front of the first record that is not larger than it. */
  function Insert(x: AsteroidResponse, l: seq<AsteroidResponse>): (r: seq<AsteroidResponse>)
    ensures multiset(r) == multiset(l) + multiset{x}
  {
    if l == [] then [x]
    else if x.diameter >= l[0].diameter then
      assert l == [l[0]] + l[1..];
      [x] + l
    else
      assert l == [l[0]] + l[1..];
      [l[0]] + Insert(x, l[1..])
  }

  lemma {:induction false} InsertKeepsOrder(x: AsteroidResponse, l: seq<AsteroidResponse>)
    requires Descending(l)
    ensures Descending(Insert(x, l))
    decreases |l|
  {
    if l != [] && x.diameter < l[0].diameter {
      var rest := Insert(x, l[1..]);
      InsertKeepsOrder(x, l[1..]);
      var r := Insert(x, l);
      assert r == [l[0]] + rest;
      forall j | 0 <= j < |rest|
        ensures l[0].diameter >= rest[j].diameter
      {
        assert rest[j] in multiset(rest);
        assert rest[j] == x || rest[j] in multiset(l[1..]);
        if rest[j] != x {
          var k :| 0 <= k < |l[1..]| && l[1..][k] == rest[j];
          assert l[1..][k] == l[k + 1];
        }
      }
      forall i, j | 0 <= i < j < |r|
        ensures r[i].diameter >= r[j].diameter
      {
        assert r[j] == rest[j - 1];
        if i > 0 {
          assert r[i] == rest[i - 1];
        }
      }
    }
  }

  /** The records by decreasing diameter, earlier ones first among equals. */
  function Sort(s: seq<AsteroidResponse>): (r: seq<AsteroidResponse>)
    ensures multiset(r) == multiset(s)
    ensures Descending(r)
  {
    if s == [] then []
    else
      assert s == [s[0]] + s[1..];
      InsertKeepsOrder(s[0], Sort(s[1..]));
      Insert(s[0], Sort(s[1..]))
  }

  /** The three largest records, as `sorted(...reversed()).limit(3)` gives:
      three records, or all of them when there are fewer, largest first, and
      only records it was given. */
  function TopThree(s: seq<AsteroidResponse>): (r: seq<AsteroidResponse>)
    ensures |r| == (if |s| < TopCount then |s| else TopCount)
    ensures Descending(r)
    ensures multiset(r) <= multiset(s)
  {
    var sorted := Sort(s);
    assert |multiset(sorted)| == |s|;
    var n := if |sorted| < TopCount then |sorted| else TopCount;
    assert sorted == sorted[..n] + sorted[n..];
    sorted[..n]
  }

  lemma {:induction false} WithDiameterOfCons(y: AsteroidResponse, s: seq<AsteroidResponse>, d: real)
    ensures WithDiameter([y] + s, d) == (if y.diameter == d then [y] else []) + WithDiameter(s, d)
  {
    assert ([y] + s)[0] == y && ([y] + s)[1..] == s;
  }

  lemma {:induction false} WithDiameterOfInsert(x: AsteroidResponse, l: seq<AsteroidResponse>, d: real)
    ensures WithDiameter(Insert(x, l), d) == (if x.diameter == d then [x] else []) + WithDiameter(l, d)
    decreases |l|
  {
    if l == [] {
      WithDiameterOfCons(x, [], d);
    } else if x.diameter >= l[0].diameter {
      WithDiameterOfCons(x, l, d);
    } else {
      var rest := Insert(x, l[1..]);
      WithDiameterOfInsert(x, l[1..], d);
      WithDiameterOfCons(l[0], rest, d);
      WithDiameterOfCons(l[0], l[1..], d);
      assert [l[0]] + l[1..] == l;
      var w := WithDiameter(l[1..], d);
      if x.diameter == d {
        assert l[0].diameter != d;
        assert [] + ([x] + w) == [x] + ([] + w);
      } else {
        var head := if l[0].diameter == d then [l[0]] else [];
        assert head + ([] + w) == [] + (head + w);
      }
    }
  }

  /** The sort is stable: among records of the same diameter it keeps the
      order of its input. */
  lemma {:induction false} SortIsStable(s: seq<AsteroidResponse>)
    ensures forall d :: WithDiameter(Sort(s), d) == WithDiameter(s, d)
    decreases |s|
  {
    if s != [] {
      SortIsStable(s[1..]);
      forall d
        ensures WithDiameter(Sort(s), d) == WithDiameter(s, d)
      {
        WithDiameterOfInsert(s[0], Sort(s[1..]), d);
      }
    }
  }

  lemma {:induction false} NoneOfDiameter(s: seq<AsteroidResponse>, d: real)
    requires forall i :: 0 <= i < |s| ==> s[i].diameter != d
    ensures WithDiameter(s, d) == []
    decreases |s|
  {
    if s != [] {
      NoneOfDiameter(s[1..], d);
    }
  }

  lemma {:induction false} DiameterOccurs(s: seq<AsteroidResponse>, d: real)
    requires WithDiameter(s, d) != []
    ensures exists i :: 0 <= i < |s| && s[i].diameter == d
    decreases |s|
  {
    if s[0].diameter != d {
      assert WithDiameter(s, d) == [] + WithDiameter(s[1..], d);
      DiameterOccurs(s[1..], d);
      var i :| 0 <= i < |s[1..]| && s[1..][i].diameter == d;
      assert s[i + 1] == s[1..][i];
    }
  }

  /** When two lists agree on the records of every diameter, the first
      record of one has a diameter the other reaches, so a descending other
      starts at least as large. */
  lemma HeadBound(a: seq<AsteroidResponse>, b: seq<AsteroidResponse>)
    requires a != [] && Descending(b)
    requires forall d :: WithDiameter(a, d) == WithDiameter(b, d)
    ensures b != [] && a[0].diameter <= b[0].diameter
  {
    var m := a[0].diameter;
    assert WithDiameter(a, m) == [a[0]] + WithDiameter(a[1..], m);
    assert WithDiameter(b, m) == WithDiameter(a, m);
    DiameterOccurs(b, m);
  }

  /** Any two descending lists that agree on the order of the records of
      every diameter are equal. */
  lemma {:induction false} DescendingDeterminedByDiameters(a: seq<AsteroidResponse>, b: seq<AsteroidResponse>)
    requires Descending(a) && Descending(b)
    requires forall d :: WithDiameter(a, d) == WithDiameter(b, d)
    ensures a == b
    decreases |a|
  {
    if a != [] {
      HeadBound(a, b);
      HeadBound(b, a);
      var m := a[0].diameter;
      assert WithDiameter(a, m) == WithDiameter(b, m);
      assert WithDiameter(a, m)[0] == a[0] && WithDiameter(b, m)[0] == b[0];
      forall d
        ensures WithDiameter(a[1..], d) == WithDiameter(b[1..], d)
      {
        var wa, wb := WithDiameter(a, d), WithDiameter(b, d);
        assert wa == wb;
        if d == m {
          assert wa == [a[0]] + WithDiameter(a[1..], d);
          assert wb == [b[0]] + WithDiameter(b[1..], d);
          assert WithDiameter(a[1..], d) == wa[1..];
          assert WithDiameter(b[1..], d) == wb[1..];
        } else {
          assert wa == [] + WithDiameter(a[1..], d) == WithDiameter(a[1..], d);
          assert wb == [] + WithDiameter(b[1..], d) == WithDiameter(b[1..], d);
        }
      }
      DescendingDeterminedByDiameters(a[1..], b[1..]);
      assert a == [a[0]] + a[1..] && b == [b[0]] + b[1..];
    } else if b != [] {
      HeadBound(b, a);
    }
  }

  /** What the ranking sorts to does not depend on the sorting algorithm:
      every stable descending sort of `s` is `Sort(s)`. */
  lemma StableSortIsUnique(s: seq<AsteroidResponse>, sorted: seq<AsteroidResponse>)
    requires Descending(sorted)
    requires forall d :: WithDiameter(sorted, d) == WithDiameter(s, d)
    ensures sorted == Sort(s)
  {
    SortIsStable(s);
    DescendingDeterminedByDiameters(sorted, Sort(s));
  }

  lemma {:induction false} WithDiameterOfPrefix(s: seq<AsteroidResponse>, n: nat, d: real)
    requires n <= |s|
    ensures WithDiameter(s[..n], d) <= WithDiameter(s, d)
    decreases n
  {
    if n > 0 {
      WithDiameterOfPrefix(s[1..], n - 1, d);
      assert s[..n][1..] == s[1..][..n - 1];
    }
  }

  /** In a descending list nothing after position `n` is larger than
      anything before it. */
  lemma DescendingSplit(sorted: seq<AsteroidResponse>, n: nat)
    requires Descending(sorted) && n <= |sorted|
    ensures forall x, y :: x in sorted[n..] && y in sorted[..n] ==> x.diameter <= y.diameter
  {
    forall x, y | x in sorted[n..] && y in sorted[..n]
      ensures x.diameter <= y.diameter
    {
      var j :| 0 <= j < |sorted[n..]| && sorted[n..][j] == x;
      var i :| 0 <= i < |sorted[..n]| && sorted[..n][i] == y;
      assert sorted[n + j] == x && sorted[i] == y;
    }
  }

  /** Every record the ranking leaves out is no larger than every record it
      keeps. */
  lemma TopThreeKeepsLargest(s: seq<AsteroidResponse>)
    ensures var r := TopThree(s);
      forall x, y :: x in multiset(s) - multiset(r) && y in r ==> x.diameter <= y.diameter
  {
    var sorted := Sort(s);
    var n := if |sorted| < TopCount then |sorted| else TopCount;
    var r := TopThree(s);
    var rest := sorted[n..];
    assert r == sorted[..n];
    assert sorted == r + rest;
    assert multiset(s) - multiset(r) == multiset(rest);
    DescendingSplit(sorted, n);
    forall x, y | x in multiset(s) - multiset(r) && y in r
      ensures x.diameter <= y.diameter
    {
      assert x in rest;
    }
  }

  /** Among records of one diameter the ranking keeps the earliest ones,
      in the order they were extracted. */
  lemma TopThreeKeepsEarliest(s: seq<AsteroidResponse>)
    ensures forall d :: WithDiameter(TopThree(s), d) <= WithDiameter(s, d)
  {
    var sorted := Sort(s);
    var n := if |sorted| < TopCount then |sorted| else TopCount;
    SortIsStable(s);
    forall d
      ensures WithDiameter(TopThree(s), d) <= WithDiameter(s, d)
    {
      WithDiameterOfPrefix(sorted, n, d);
    }
  }

  /** Sorting a list that is already ranked leaves it as it is. */
  lemma {:induction false} SortOfDescending(s: seq<AsteroidResponse>)
    requires Descending(s)
    ensures Sort(s) == s
    decreases |s|
  {
    if s != [] {
      var rest := s[1..];
      assert Descending(rest) by {
        forall i, j | 0 <= i < j < |rest| ensures rest[i].diameter >= rest[j].diameter {
          assert rest[i] == s[i + 1] && rest[j] == s[j + 1];
        }
      }
      SortOfDescending(rest);
      assert [s[0]] + rest == s;
    }
  }

  /** A ranked list of at most three records is its own top three. */
  lemma RankedFewKept(s: seq<AsteroidResponse>)
    requires Descending(s) && |s| <= TopCount
    ensures TopThree(s) == s
  {
    SortOfDescending(s);
    assert s[..|s|] == s;
  }

  lemma FiveFiveThree(a: AsteroidResponse, b: AsteroidResponse, c: AsteroidResponse)
    requires a.diameter == 5.0 && b.diameter == 5.0 && c.diameter == 3.0
    ensures Descending([a, b, c])
  {
  }

  /** Two hazardous records of diameter 5.0 followed by one of 3.0 come
      out in extraction order. */
  lemma TiesKeepExtractionOrder(a: AsteroidResponse, b: AsteroidResponse, c: AsteroidResponse)
    requires a.diameter == 5.0 && b.diameter == 5.0 && c.diameter == 3.0
    ensures TopThree([a, b, c]) == [a, b, c]
  {
    FiveFiveThree(a, b, c);
    RankedFewKept([a, b, c]);
  }

  /** With a single record there is nothing to rank and nothing to drop. */
  lemma SingleRecordKept(c: AsteroidResponse)
    ensures TopThree([c]) == [c]
  {
    RankedFewKept([c]);
  }

  /** Of two records, the larger comes first whichever was extracted first. */
  lemma {:induction false} LargerOfTwoFirst(a: AsteroidResponse, b: AsteroidResponse)
    requires a.diameter < b.diameter
    ensures TopThree([a, b]) == [b, a]
  {
    var s := [a, b];
    assert s[1..] == [b] && [b][1..] == [];
    assert Sort([b]) == [b];
    assert Insert(a, []) == [a];
    assert Insert(a, [b]) == [b] + [a];
    assert Sort(s) == [b, a];
    assert [b, a][..2] == [b, a];
  }
}
