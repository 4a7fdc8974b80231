/** The `Array.prototype.sort` calls of the sources, as a stable insertion
    sort by a caller-supplied "may come first" relation `le`. The relation
    only needs to be a total preorder on the elements actually sorted. */
module Sorting {

  ghost predicate TotalPreorderOn<T>(le: (T, T) -> bool, dom: set<T>) {
    && (forall a, b | a in dom && b in dom :: le(a, b) || le(b, a))
    && (forall a, b, c | a in dom && b in dom && c in dom && le(a, b) && le(b, c) :: le(a, c))
  }

  ghost predicate SortedBy<T>(le: (T, T) -> bool, s: seq<T>) {
    forall i, j | 0 <= i < j < |s| :: le(s[i], s[j])
  }

  /** Places x before the first element it may precede. */
  function Insert<T>(le: (T, T) -> bool, x: T, s: seq<T>): (r: seq<T>)
    ensures multiset(r) == multiset(s) + multiset{x}
  {
    if |s| == 0 then [x]
    else if le(x, s[0]) then [x] + s
    else
      assert s == [s[0]] + s[1..];
      [s[0]] + Insert(le, x, s[1..])
  }

  function Sort<T>(le: (T, T) -> bool, s: seq<T>): (r: seq<T>)
    ensures multiset(r) == multiset(s)
  {
    if |s| == 0 then []
    else
      assert s == [s[0]] + s[1..];
      Insert(le, s[0], Sort(le, s[1..]))
  }

  lemma {:induction false} InsertSorted<T>(le: (T, T) -> bool, x: T, s: seq<T>, dom: set<T>)
    requires TotalPreorderOn(le, dom)
    requires x in dom && forall y | y in s :: y in dom
    requires SortedBy(le, s)
    ensures SortedBy(le, Insert(le, x, s))
  {
    if |s| > 0 && !le(x, s[0]) {
      var t := Insert(le, x, s[1..]);
      forall y | y in s[1..] ensures y in dom {
        assert y in s;
      }
      forall i, j | 0 <= i < j < |s[1..]| ensures le(s[1..][i], s[1..][j]) {
        assert s[1..][i] == s[i + 1] && s[1..][j] == s[j + 1];
      }
      InsertSorted(le, x, s[1..], dom);
      assert s[0] in s;
      assert le(s[0], x);
      forall k | 0 <= k < |t| ensures le(s[0], t[k]) {
        var y := t[k];
        assert y in multiset(t);
        if y != x {
          assert y in multiset(s[1..]);
          var j :| 0 <= j < |s[1..]| && s[1..][j] == y;
          assert s[j + 1] == y;
        }
      }
      var r := [s[0]] + t;
      forall i, j | 0 <= i < j < |r| ensures le(r[i], r[j]) {
        assert r[j] == t[j - 1];
        if i > 0 {
          assert r[i] == t[i - 1];
        }
      }
    }
  }

  /** Sorting yields a permutation of its input that is ordered by le. */
  lemma {:induction false} SortCorrect<T>(le: (T, T) -> bool, s: seq<T>, dom: set<T>)
    requires TotalPreorderOn(le, dom)
    requires forall y | y in s :: y in dom
    ensures multiset(Sort(le, s)) == multiset(s)
    ensures SortedBy(le, Sort(le, s))
  {
    if |s| > 0 {
      SortCorrect(le, s[1..], dom);
      var t := Sort(le, s[1..]);
      forall y | y in t ensures y in dom {
        assert y in multiset(t);
        assert y in multiset(s[1..]);
      }
      InsertSorted(le, s[0], t, dom);
    }
  }

  ghost predicate Distinct<T>(s: seq<T>) {
    forall i, j | 0 <= i < j < |s| :: s[i] != s[j]
  }

  /** A sequence is duplicate-free exactly when no element occurs twice. */
  lemma DistinctCounts<T>(s: seq<T>)
    ensures Distinct(s) <==> forall x :: multiset(s)[x] <= 1
  {
    if Distinct(s) {
      DistinctAtMostOnce(s);
    } else {
      var i, j :| 0 <= i < j < |s| && s[i] == s[j];
      RepeatCounts(s, i, j);
    }
  }

  lemma {:induction false} DistinctAtMostOnce<T>(s: seq<T>)
    requires Distinct(s)
    ensures forall x :: multiset(s)[x] <= 1
  {
    if |s| > 0 {
      var n := |s| - 1;
      var p := s[..n];
      assert s == p + [s[n]];
      forall i, j | 0 <= i < j < |p| ensures p[i] != p[j] {
        assert p[i] == s[i] && p[j] == s[j];
      }
      DistinctAtMostOnce(p);
      forall i | 0 <= i < |p| ensures p[i] != s[n] {
        assert p[i] == s[i];
      }
      assert s[n] !in multiset(p);
    }
  }

  /** An element that occurs at two positions is counted at least twice. */
  lemma RepeatCounts<T>(s: seq<T>, i: nat, j: nat)
    requires i < j < |s| && s[i] == s[j]
    ensures multiset(s)[s[i]] >= 2
  {
    assert s == s[..j] + [s[j]] + s[j + 1..];
    assert s[..j][i] == s[i];
    assert multiset(s[..j])[s[i]] >= 1;
  }


  /** Reordering a duplicate-free sequence keeps it duplicate-free. */
  lemma PermutationKeepsDistinct<T>(a: seq<T>, b: seq<T>)
    requires multiset(a) == multiset(b)
    requires Distinct(a)
    ensures Distinct(b)
  {
    DistinctCounts(a);
    DistinctCounts(b);
  }

  /** A duplicate-free sequence has as many elements as its set. */
  lemma {:induction false} DistinctCardinality<T>(s: seq<T>)
    requires Distinct(s)
    ensures |set x | x in s| == |s|
  {
    if |s| > 0 {
      var n := |s| - 1;
      var p := s[..n];
      assert Distinct(p);
      DistinctCardinality(p);
      forall i | 0 <= i < |p| ensures p[i] != s[n] {
        assert p[i] == s[i];
      }
      assert (set x | x in s) == (set x | x in p) + {s[n]};
    }
  }
}
