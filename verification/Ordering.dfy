/** The order of `std::string`, `std::sort` over it, and the order in which a
    `std::map` with string keys is walked. */
module Ordering {

  predicate LexLe(a: string, b: string) {
    a == "" || (b != "" && (a[0] < b[0] || (a[0] == b[0] && LexLe(a[1..], b[1..]))))
  }

  lemma LexTotal(a: string, b: string)
    ensures LexLe(a, b) || LexLe(b, a)
  {}

  lemma LexAntisymmetric(a: string, b: string)
    requires LexLe(a, b) && LexLe(b, a)
    ensures a == b
  {
    if a != "" {
      LexAntisymmetric(a[1..], b[1..]);
      assert a == [a[0]] + a[1..] && b == [b[0]] + b[1..];
    }
  }

  lemma LexTransitive(a: string, b: string, c: string)
    requires LexLe(a, b) && LexLe(b, c)
    ensures LexLe(a, c)
  {}

  /** The first difference decides, by the codes of the characters; a text comes in front of what it begins. */
  lemma {:induction false} LexExactly(common: string, a: string, b: string)
    ensures a != "" && b != "" && a[0] < b[0] ==> LexLe(common + a, common + b) && !LexLe(common + b, common + a)
    ensures LexLe(common, common + b) && (b != "" ==> !LexLe(common + b, common))
    decreases |common|
  {
    if common == "" {
      assert common + a == a && common + b == b;
    } else {
      assert (common + a)[0] == common[0] == (common + b)[0];
      assert (common + a)[1..] == common[1..] + a && (common + b)[1..] == common[1..] + b;
      LexExactly(common[1..], a, b);
    }
  }

  predicate Sorted(s: seq<string>) {
    forall i, j :: 0 <= i < j < |s| ==> LexLe(s[i], s[j])
  }

  predicate Distinct<T(==)>(s: seq<T>) {
    forall i, j :: 0 <= i < j < |s| ==> s[i] != s[j]
  }

  function Elements<T>(s: seq<T>): set<T> {
    set x | x in s
  }

  /** A set of strings has one sorted enumeration without repetitions. */
  lemma SortedUnique(a: seq<string>, b: seq<string>)
    requires Sorted(a) && Sorted(b) && Distinct(a) && Distinct(b)
    requires Elements(a) == Elements(b)
    ensures a == b
    decreases |a|
  {
    assert forall x :: x in Elements(a) ==> x in Elements(b) && x in b;
    assert forall x :: x in Elements(b) ==> x in Elements(a) && x in a;
    assert a != [] ==> a[0] in Elements(a);
    assert b != [] ==> b[0] in Elements(b);
    if a != [] {
      assert b[0] in Elements(b);
      var i :| 0 <= i < |b| && b[i] == a[0];
      var j :| 0 <= j < |a| && a[j] == b[0];
      if i > 0 && j > 0 {
        LexAntisymmetric(a[0], b[0]);
      }
      assert a[0] == b[0];
      forall x ensures x in Elements(a[1..]) <==> x in Elements(b[1..]) {
        assert x in a[1..] <==> x in Elements(a) && x != a[0];
        assert x in b[1..] <==> x in Elements(b) && x != b[0];
      }
      SortedUnique(a[1..], b[1..]);
      assert a == [a[0]] + a[1..] && b == [b[0]] + b[1..];
    }
  }

  function Insert(x: string, s: seq<string>): (r: seq<string>)
    requires Sorted(s)
    ensures Sorted(r) && multiset(r) == multiset{x} + multiset(s)
  {
    if s == [] then [x]
    else if LexLe(x, s[0]) then
      assert forall k :: 0 < k < |s| ==> LexLe(x, s[k]) by {
        forall k | 0 < k < |s| ensures LexLe(x, s[k]) { LexTransitive(x, s[0], s[k]); }
      }
      [x] + s
    else
      LexTotal(x, s[0]);
      var r := Insert(x, s[1..]);
      assert s == [s[0]] + s[1..];
      assert forall y :: y in r ==> LexLe(s[0], y) by {
        forall y | y in r ensures LexLe(s[0], y) {
          assert y in multiset(r);
          assert y == x || y in s[1..];
        }
      }
      [s[0]] + r
  }

  /** `std::sort`: the sorted permutation. */
  function Sort(s: seq<string>): (r: seq<string>)
    ensures Sorted(r) && multiset(r) == multiset(s)
  {
    if s == [] then []
    else
      assert s == [s[0]] + s[1..];
      Insert(s[0], Sort(s[1..]))
  }

  lemma RepeatCounts(b: seq<string>, i: nat, j: nat)
    requires i < j < |b|
    ensures b[i] == b[j] ==> multiset(b)[b[i]] >= 2
  {
    assert b == b[..i] + [b[i]] + b[i + 1..j] + [b[j]] + b[j + 1..];
  }

  lemma DistinctCounts(a: seq<string>)
    requires Distinct(a)
    ensures forall x :: x in multiset(a) ==> multiset(a)[x] == 1
  {
    if a != [] {
      DistinctCounts(a[1..]);
      assert a == [a[0]] + a[1..];
      assert a[0] !in multiset(a[1..]);
    }
  }

  lemma PermutationFacts(a: seq<string>, b: seq<string>)
    requires multiset(a) == multiset(b)
    ensures Elements(a) == Elements(b)
    ensures Distinct(a) ==> Distinct(b)
  {
    forall x ensures x in a <==> x in b {
      assert x in a <==> x in multiset(a);
      assert x in b <==> x in multiset(b);
    }
    if Distinct(a) {
      DistinctCounts(a);
      forall i, j | 0 <= i < j < |b| ensures b[i] != b[j] {
        RepeatCounts(b, i, j);
      }
    }
  }

  /** Sorting two enumerations of the same set gives the same result. */
  lemma SortOrderIndependent(a: seq<string>, b: seq<string>)
    requires Distinct(a) && Distinct(b) && Elements(a) == Elements(b)
    ensures Sort(a) == Sort(b) && Distinct(Sort(a)) && Elements(Sort(a)) == Elements(a)
  {
    PermutationFacts(a, Sort(a));
    PermutationFacts(b, Sort(b));
    SortedUnique(Sort(a), Sort(b));
  }

  predicate IsLeast(m: string, s: set<string>) {
    m in s && forall y :: y in s ==> LexLe(m, y)
  }

  lemma LeastExists(s: set<string>)
    requires s != {}
    ensures exists m :: IsLeast(m, s)
  {
    var x :| x in s;
    if s == {x} {
      LexTotal(x, x);
      assert IsLeast(x, s);
    } else {
      var t := s - {x};
      LeastExists(t);
      var m :| IsLeast(m, t);
      LexTotal(x, m);
      LexTotal(x, x);
      var least := if LexLe(x, m) then x else m;
      forall y | y in s ensures LexLe(least, y) {
        if y != x && least == x { LexTransitive(x, m, y); }
      }
      assert IsLeast(least, s);
    }
  }

  lemma LeastIsUnique(s: set<string>)
    ensures forall m, m' :: IsLeast(m, s) && IsLeast(m', s) ==> m == m'
  {
    forall m, m' | IsLeast(m, s) && IsLeast(m', s) ensures m == m' {
      LexAntisymmetric(m, m');
    }
  }

  function Least(s: set<string>): (m: string)
    requires s != {}
    ensures m in s && forall y :: y in s ==> LexLe(m, y)
  {
    LeastExists(s);
    LeastIsUnique(s);
    var m :| IsLeast(m, s);
    m
  }

  lemma Prepend(m: string, r: seq<string>, s: set<string>)
    requires m in s && (forall y :: y in s ==> LexLe(m, y))
    requires Sorted(r) && Distinct(r) && Elements(r) == s - {m}
    ensures Sorted([m] + r) && Distinct([m] + r) && Elements([m] + r) == s
  {
    assert forall i :: 0 <= i < |r| ==> r[i] in Elements(r);
    assert forall x :: x in [m] + r <==> x == m || x in Elements(r);
  }

  /** The keys of a `std::map`, in the order a range-for visits them. */
  function SortedKeys(s: set<string>): (r: seq<string>)
    ensures Sorted(r) && Distinct(r) && Elements(r) == s && |r| == |s|
  {
    if s == {} then []
    else
      var m := Least(s);
      Prepend(m, SortedKeys(s - {m}), s);
      [m] + SortedKeys(s - {m})
  }
}
