/**
 * The order Python's `sorted` uses on (exchange, symbol) tuples of strings:
 * strings compare code point by code point, a proper prefix sorts first, and
 * tuples compare their first components and fall back to the second on a tie.
 */
module Ordering {

  type Pair = (string, string)

  /** Python's `a < b` on two strings. */
  predicate StrLess(a: string, b: string)
    decreases |a|
  {
    if |a| == 0 then |b| > 0
    else if |b| == 0 then false
    else if a[0] != b[0] then a[0] < b[0]
    else StrLess(a[1..], b[1..])
  }

  lemma {:induction false} StrLessIrreflexive(a: string)
    ensures !StrLess(a, a)
    decreases |a|
  {
    if |a| > 0 {
      StrLessIrreflexive(a[1..]);
    }
  }

  lemma {:induction false} StrLessTransitive(a: string, b: string, c: string)
    requires StrLess(a, b) && StrLess(b, c)
    ensures StrLess(a, c)
    decreases |a|
  {
    if |a| > 0 && a[0] == b[0] && b[0] == c[0] {
      StrLessTransitive(a[1..], b[1..], c[1..]);
    }
  }

  lemma {:induction false} StrLessTotal(a: string, b: string)
    ensures a == b || StrLess(a, b) || StrLess(b, a)
    decreases |a|
  {
    if |a| > 0 && |b| > 0 && a[0] == b[0] {
      StrLessTotal(a[1..], b[1..]);
      if a[1..] == b[1..] {
        assert a == [a[0]] + a[1..] && b == [b[0]] + b[1..];
      }
    }
  }

  lemma {:induction false} StrLessAsymmetric(a: string, b: string)
    requires StrLess(a, b)
    ensures !StrLess(b, a)
  {
    if StrLess(b, a) {
      StrLessTransitive(a, b, a);
      StrLessIrreflexive(a);
    }
  }

  /** Python's `p < q` on two (exchange, symbol) tuples. */
  predicate PairLess(p: Pair, q: Pair) {
    StrLess(p.0, q.0) || (p.0 == q.0 && StrLess(p.1, q.1))
  }

  lemma PairLessIrreflexive(p: Pair)
    ensures !PairLess(p, p)
  {
    StrLessIrreflexive(p.0);
    StrLessIrreflexive(p.1);
  }

  lemma PairLessAsymmetric(p: Pair, q: Pair)
    requires PairLess(p, q)
    ensures !PairLess(q, p)
  {
    if StrLess(p.0, q.0) {
      StrLessAsymmetric(p.0, q.0);
      StrLessIrreflexive(q.0);
    } else {
      StrLessAsymmetric(p.1, q.1);
      StrLessIrreflexive(p.0);
    }
  }

  lemma PairLessTransitive(p: Pair, q: Pair, r: Pair)
    requires PairLess(p, q) && PairLess(q, r)
    ensures PairLess(p, r)
  {
    if StrLess(p.0, q.0) && StrLess(q.0, r.0) {
      StrLessTransitive(p.0, q.0, r.0);
    } else if StrLess(p.1, q.1) && StrLess(q.1, r.1) {
      StrLessTransitive(p.1, q.1, r.1);
    }
  }

  lemma PairLessTotal(p: Pair, q: Pair)
    ensures p == q || PairLess(p, q) || PairLess(q, p)
  {
    StrLessTotal(p.0, q.0);
    StrLessTotal(p.1, q.1);
  }

  /** Every element is strictly below every later one: sorted and free of repeats. */
  predicate StrictlyAscending(s: seq<Pair>) {
    forall i, j :: 0 <= i < j < |s| ==> PairLess(s[i], s[j])
  }

  predicate IsLeast(m: Pair, s: set<Pair>) {
    m in s && forall q :: q in s && q != m ==> PairLess(m, q)
  }

  lemma {:induction false} LeastExists(s: set<Pair>)
    requires s != {}
    ensures exists m :: IsLeast(m, s)
    decreases |s|
  {
    var x :| x in s;
    if s == {x} {
      assert IsLeast(x, s);
    } else {
      var rest := s - {x};
      LeastExists(rest);
      var m :| IsLeast(m, rest);
      PairLessTotal(x, m);
      if PairLess(x, m) {
        forall q | q in s && q != x
          ensures PairLess(x, q)
        {
          if q != m {
            PairLessTransitive(x, m, q);
          }
        }
        assert IsLeast(x, s);
      } else {
        assert IsLeast(m, s);
      }
    }
  }

  lemma LeastUnique(m1: Pair, m2: Pair, s: set<Pair>)
    requires IsLeast(m1, s) && IsLeast(m2, s)
    ensures m1 == m2
  {
    if m1 != m2 {
      PairLessAsymmetric(m1, m2);
    }
  }

  /** Python's `sorted(s)` on a set of pairs: its elements, each once, in ascending order. */
  ghost function SortedPairs(s: set<Pair>): (r: seq<Pair>)
    ensures |r| == |s|
    ensures forall p :: p in r <==> p in s
    ensures StrictlyAscending(r)
    decreases |s|
  {
    if s == {} then []
    else
      LeastExists(s);
      var m :| IsLeast(m, s);
      [m] + SortedPairs(s - {m})
  }

  /** Sorting a set starts with its least element, followed by the rest sorted. */
  lemma SortedPairsUnfold(s: set<Pair>, m: Pair)
    requires IsLeast(m, s)
    ensures SortedPairs(s) == [m] + SortedPairs(s - {m})
  {
    var r := SortedPairs(s);
    assert r[0] in s;
    forall q | q in s && q != r[0]
      ensures PairLess(r[0], q)
    {
      var j :| 0 <= j < |r| && r[j] == q;
      assert j != 0;
    }
    LeastUnique(m, r[0], s);
  }

  /** The head of a strictly ascending sequence is below each of its other elements. */
  lemma HeadIsLeast(r: seq<Pair>)
    requires StrictlyAscending(r) && r != []
    ensures forall q :: q in r && q != r[0] ==> PairLess(r[0], q)
  {
    forall q | q in r && q != r[0]
      ensures PairLess(r[0], q)
    {
      var j :| 0 <= j < |r| && r[j] == q;
      assert j != 0;
    }
  }

  lemma SameElementsSameEmptiness(r1: seq<Pair>, r2: seq<Pair>)
    requires forall p :: p in r1 <==> p in r2
    ensures r1 == [] <==> r2 == []
  {
    if r1 != [] {
      assert r1[0] in r2;
    }
    if r2 != [] {
      assert r2[0] in r1;
    }
  }

  /** Two strictly ascending sequences with the same elements are equal. */
  lemma {:induction false} AscendingUnique(r1: seq<Pair>, r2: seq<Pair>)
    requires StrictlyAscending(r1) && StrictlyAscending(r2)
    requires forall p :: p in r1 <==> p in r2
    ensures r1 == r2
    decreases |r1|
  {
    SameElementsSameEmptiness(r1, r2);
    if r1 != [] {
      HeadIsLeast(r1);
      HeadIsLeast(r2);
      if r1[0] != r2[0] {
        PairLessAsymmetric(r1[0], r2[0]);
      }
      forall p
        ensures p in r1[1..] <==> p in r2[1..]
      {
        if p in r1[1..] {
          var j :| 1 <= j < |r1| && r1[j] == p;
          PairLessIrreflexive(p);
          assert p != r2[0] && p in r2;
          var k :| 0 <= k < |r2| && r2[k] == p;
          assert k != 0 && r2[1..][k - 1] == p;
        }
        if p in r2[1..] {
          var j :| 1 <= j < |r2| && r2[j] == p;
          PairLessIrreflexive(p);
          assert p != r1[0] && p in r1;
          var k :| 0 <= k < |r1| && r1[k] == p;
          assert k != 0 && r1[1..][k - 1] == p;
        }
      }
      AscendingUnique(r1[1..], r2[1..]);
      assert r1 == [r1[0]] + r1[1..] && r2 == [r2[0]] + r2[1..];
    }
  }
}
