/**
 The ordering Python uses for `str` values (`<`, `sorted`): lexicographic comparison
 by code point, where a proper prefix is smaller than the longer string. The server
 sorts gent ids with it and gig keys `(date, id)` with it.
 */
module StringOrder {

  /** Python's `a < b` on two strings. */
  predicate Less(a: string, b: string)
    decreases |a|
  {
    if |a| == 0 then |b| > 0
    else if |b| == 0 then false
    else if a[0] == b[0] then Less(a[1..], b[1..])
    else a[0] < b[0]
  }

  lemma {:induction false} LessIrreflexive(a: string)
    ensures !Less(a, a)
    decreases |a|
  {
    if |a| > 0 {
      LessIrreflexive(a[1..]);
    }
  }

  lemma {:induction false} LessAsymmetric(a: string, b: string)
    ensures Less(a, b) ==> !Less(b, a)
    decreases |a|
  {
    if |a| > 0 && |b| > 0 && a[0] == b[0] {
      LessAsymmetric(a[1..], b[1..]);
    }
  }

  lemma {:induction false} LessTransitive(a: string, b: string, c: string)
    requires Less(a, b) && Less(b, c)
    ensures Less(a, c)
    decreases |a|
  {
    if |a| > 0 && a[0] == b[0] && b[0] == c[0] {
      LessTransitive(a[1..], b[1..], c[1..]);
    }
  }

  /** Any two different strings are ordered one way or the other. */
  lemma {:induction false} LessTotal(a: string, b: string)
    ensures a == b || Less(a, b) || Less(b, a)
    decreases |a|
  {
    if |a| > 0 && |b| > 0 && a[0] == b[0] {
      LessTotal(a[1..], b[1..]);
      if a[1..] == b[1..] {
        assert a == [a[0]] + a[1..] && b == [b[0]] + b[1..];
      }
    }
  }

  /** `Less` is a strict total order on strings. */
  lemma LessIsStrictTotalOrder()
    ensures forall a: string :: !Less(a, a)
    ensures forall a: string, b: string :: Less(a, b) ==> !Less(b, a)
    ensures forall a: string, b: string, c: string :: Less(a, b) && Less(b, c) ==> Less(a, c)
    ensures forall a: string, b: string :: a == b || Less(a, b) || Less(b, a)
  {
    forall a: string ensures !Less(a, a) {
      LessIrreflexive(a);
    }
    forall a: string, b: string ensures Less(a, b) ==> !Less(b, a) {
      LessAsymmetric(a, b);
    }
    forall a: string, b: string, c: string | Less(a, b) && Less(b, c) ensures Less(a, c) {
      LessTransitive(a, b, c);
    }
    forall a: string, b: string ensures a == b || Less(a, b) || Less(b, a) {
      LessTotal(a, b);
    }
  }

  /** Every element of `r` is smaller than every later element. */
  predicate StrictlyAscending(r: seq<string>) {
    forall i, j :: 0 <= i < j < |r| ==> Less(r[i], r[j])
  }

  /** `m` is the smallest element of `s`. */
  predicate IsLeast(m: string, s: set<string>) {
    m in s && forall y :: y in s && y != m ==> Less(m, y)
  }

  lemma {:induction false} LeastExists(s: set<string>)
    requires s != {}
    ensures exists m :: IsLeast(m, s)
    decreases |s|
  {
    var x :| x in s;
    if s == {x} {
      assert IsLeast(x, s);
    } else {
      LeastExists(s - {x});
      var m :| IsLeast(m, s - {x});
      LessTotal(x, m);
      if Less(x, m) {
        forall y | y in s && y != x
          ensures Less(x, y)
        {
          if y != m {
            LessTransitive(x, m, y);
          }
        }
        assert IsLeast(x, s);
      } else {
        assert IsLeast(m, s);
      }
    }
  }

  /** The smallest element of a non-empty set. */
  function Least(s: set<string>): (m: string)
    requires s != {}
    ensures IsLeast(m, s)
  {
    LeastExists(s);
    LeastIsUniqueIn(s);
    var m :| IsLeast(m, s);
    m
  }

  /** Python's `sorted(list(s))` for a set of strings: the elements in ascending order. */
  function SortedSet(s: set<string>): (r: seq<string>)
    ensures |r| == |s|
    ensures forall x {:trigger x in r} :: x in r <==> x in s
    ensures StrictlyAscending(r)
    decreases |s|
  {
    if s == {} then []
    else
      var m := Least(s);
      var rest := SortedSet(s - {m});
      var r := [m] + rest;
      forall i, j | 0 <= i < j < |r|
        ensures Less(r[i], r[j])
      {
        assert r[j] == rest[j - 1] && rest[j - 1] in rest;
        if i > 0 {
          assert r[i] == rest[i - 1];
        }
      }
      r
  }

  /** A set has at most one least element. */
  lemma LeastIsUnique(m1: string, m2: string, s: set<string>)
    requires IsLeast(m1, s) && IsLeast(m2, s)
    ensures m1 == m2
  {
    if m1 != m2 {
      LessAsymmetric(m1, m2);
    }
  }

  /** Any two least elements of `s` are the same. */
  lemma LeastIsUniqueIn(s: set<string>)
    ensures forall m1, m2 :: IsLeast(m1, s) && IsLeast(m2, s) ==> m1 == m2
  {
    forall m1, m2 | IsLeast(m1, s) && IsLeast(m2, s)
      ensures m1 == m2
    {
      LeastIsUnique(m1, m2, s);
    }
  }

  /** `SortedSet` starts with the least element and continues with the sorted rest. */
  lemma SortedSetUnfold(s: set<string>)
    requires s != {}
    ensures IsLeast(SortedSet(s)[0], s)
    ensures SortedSet(s)[1..] == SortedSet(s - {SortedSet(s)[0]})
  {
    var q := SortedSet(s);
    assert q[0] in s;
    forall y | y in s && y != q[0]
      ensures Less(q[0], y)
    {
      assert y in q;
      var j :| 0 <= j < |q| && q[j] == y;
    }
  }

  /** Dropping the least element of a strictly ascending `r` leaves the rest of its elements. */
  lemma TailHoldsRest(s: set<string>, r: seq<string>)
    requires r != [] && StrictlyAscending(r)
    requires forall x :: x in r <==> x in s
    ensures forall x :: x in r[1..] <==> x in s - {r[0]}
  {
    forall x
      ensures x in r[1..] <==> x in s - {r[0]}
    {
      if x in r[1..] {
        var j :| 1 <= j < |r| && r[j] == x;
        assert Less(r[0], r[j]);
        LessIrreflexive(x);
      }
      if x in s - {r[0]} {
        var j :| 0 <= j < |r| && r[j] == x;
        assert r[1..][j - 1] == x;
      }
    }
  }

  /**
   The result of `SortedSet` does not depend on how the set happens to be enumerated:
   it is the only strictly ascending sequence holding exactly the elements of `s`.
   */
  lemma {:induction false} SortedSetIsUnique(s: set<string>, r: seq<string>)
    requires StrictlyAscending(r)
    requires forall x :: x in r <==> x in s
    ensures r == SortedSet(s)
    decreases |r|
  {
    if r == [] {
      assert s == {};
    } else {
      assert r[0] in s;
      var q := SortedSet(s);
      SortedSetUnfold(s);
      assert IsLeast(r[0], s) by {
        forall y | y in s && y != r[0]
          ensures Less(r[0], y)
        {
          var j :| 0 <= j < |r| && r[j] == y;
        }
      }
      LeastIsUnique(r[0], q[0], s);
      var rest := s - {r[0]};
      TailHoldsRest(s, r);
      assert StrictlyAscending(r[1..]) by {
        forall i, j | 0 <= i < j < |r| - 1
          ensures Less(r[1..][i], r[1..][j])
        {
          assert r[1..][i] == r[i + 1] && r[1..][j] == r[j + 1];
        }
      }
      SortedSetIsUnique(rest, r[1..]);
      assert r == [r[0]] + r[1..];
      assert q == [q[0]] + q[1..];
    }
  }
}
