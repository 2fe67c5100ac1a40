/**
 * Sequence operations that the grouped queries are built from: the distinct
 * keys of a GROUP BY, SUM over a group, ORDER BY ... DESC and LIMIT.
 */
module Grouping {

  /** `LIMIT n`: the first `n` elements, or all of them when there are fewer. */
  function Take<T>(s: seq<T>, n: nat): (r: seq<T>)
    ensures |r| == if n < |s| then n else |s|
    ensures r == s[..|r|]
  {
    if n < |s| then s[..n] else s
  }

  /** `[f(x) for x in s]`. */
  function MapSeq<T, U>(s: seq<T>, f: T -> U): (r: seq<U>)
    ensures |r| == |s|
    ensures forall i :: 0 <= i < |s| ==> r[i] == f(s[i])
  {
    seq(|s|, i requires 0 <= i < |s| => f(s[i]))
  }

  /** `list(reversed(s))`. */
  function Reverse<T>(s: seq<T>): (r: seq<T>)
    ensures |r| == |s|
    ensures forall i :: 0 <= i < |s| ==> r[i] == s[|s| - 1 - i]
  {
    if s == [] then [] else Reverse(s[1..]) + [s[0]]
  }

  ghost predicate NoDuplicates<T>(s: seq<T>) {
    forall i, j :: 0 <= i < j < |s| ==> s[i] != s[j]
  }

  /** The distinct elements of `s`, each where it first occurs. */
  function Distinct<T(==)>(s: seq<T>): seq<T> {
    if s == [] then []
    else
      var d := Distinct(s[..|s| - 1]);
      if s[|s| - 1] in d then d else d + [s[|s| - 1]]
  }

  /** `Distinct` keeps every element of `s`, adds none, and repeats none. */
  lemma {:induction false} DistinctMembers<T>(s: seq<T>)
    ensures forall i :: 0 <= i < |Distinct(s)| ==> Distinct(s)[i] in s
    ensures forall i :: 0 <= i < |s| ==> s[i] in Distinct(s)
    ensures NoDuplicates(Distinct(s))
  {
    if s != [] {
      var init := s[..|s| - 1];
      assert s == init + [s[|s| - 1]];
      DistinctMembers(init);
    }
  }

  /** Summing through a conversion: if `g` of each converted element is `h` of the original, the sums agree. */
  lemma {:induction false} SumValMapSeq<T, U>(s: seq<T>, f: T -> U, g: U -> int, h: T -> int)
    requires forall x :: g(f(x)) == h(x)
    ensures SumVal(MapSeq(s, f), g) == SumVal(s, h)
  {
    if s != [] {
      var init := s[..|s| - 1];
      SumValMapSeq(init, f, g, h);
      assert MapSeq(s, f)[..|s| - 1] == MapSeq(init, f);
    }
  }

  /** `SUM(val(x))` over `s`. */
  function SumVal<T>(s: seq<T>, val: T -> int): int {
    if s == [] then 0 else SumVal(s[..|s| - 1], val) + val(s[|s| - 1])
  }

  lemma {:induction false} SumValAppend<T>(a: seq<T>, b: seq<T>, val: T -> int)
    ensures SumVal(a + b, val) == SumVal(a, val) + SumVal(b, val)
  {
    if b == [] {
      assert a + b == a;
    } else {
      assert (a + b)[..|a + b| - 1] == a + b[..|b| - 1];
      SumValAppend(a, b[..|b| - 1], val);
    }
  }

  lemma SumValCons<T>(x: T, s: seq<T>, val: T -> int)
    ensures SumVal([x] + s, val) == val(x) + SumVal(s, val)
  {
    SumValAppend([x], s, val);
    assert [x][..0] == [];
  }

  lemma {:induction false} SumValNonNegative<T>(s: seq<T>, val: T -> int)
    requires forall i :: 0 <= i < |s| ==> val(s[i]) >= 0
    ensures SumVal(s, val) >= 0
  {
    if s != [] {
      SumValNonNegative(s[..|s| - 1], val);
    }
  }

  /** A sum does not depend on the order of its terms. */
  lemma {:induction false} SumValPermutation<T>(a: seq<T>, b: seq<T>, val: T -> int)
    requires multiset(a) == multiset(b)
    ensures SumVal(a, val) == SumVal(b, val)
    decreases |a|
  {
    if a != [] {
      var x := a[0];
      assert x in multiset(b);
      var k :| 0 <= k < |b| && b[k] == x;
      var rest := b[..k] + b[k + 1..];
      assert b == b[..k] + [x] + b[k + 1..];
      assert a == [x] + a[1..];
      assert multiset(b) == multiset(b[..k]) + multiset{x} + multiset(b[k + 1..]);
      assert multiset(rest) == multiset(b[..k]) + multiset(b[k + 1..]);
      assert multiset(a) == multiset{x} + multiset(a[1..]);
      assert multiset(a[1..]) == multiset(a) - multiset{x};
      assert multiset(rest) == multiset(b) - multiset{x};
      SumValPermutation(a[1..], rest, val);
      SumValCons(x, a[1..], val);
      SumValAppend(b[..k] + [x], b[k + 1..], val);
      SumValAppend(b[..k], [x], val);
      SumValAppend(b[..k], b[k + 1..], val);
      assert [x][..0] == [];
    }
  }

  ghost predicate NonIncreasing<T>(s: seq<T>, val: T -> int) {
    forall i, j :: 0 <= i < j < |s| ==> val(s[i]) >= val(s[j])
  }

  /** Inserts `x` into a non-increasing `s`, before the elements of equal value. */
  function InsertDesc<T>(x: T, s: seq<T>, val: T -> int): (r: seq<T>)
    requires NonIncreasing(s, val)
    ensures |r| == |s| + 1
    ensures NonIncreasing(r, val)
    ensures multiset(r) == multiset(s) + multiset{x}
    ensures r[0] == if s == [] || val(x) >= val(s[0]) then x else s[0]
  {
    if s == [] then [x]
    else if val(x) >= val(s[0]) then [x] + s
    else
      var t := InsertDesc(x, s[1..], val);
      assert s == [s[0]] + s[1..];
      [s[0]] + t
  }

  /** `ORDER BY val DESC`: a non-increasing rearrangement of `s` (stable insertion sort). */
  function SortDesc<T>(s: seq<T>, val: T -> int): (r: seq<T>)
    ensures |r| == |s|
    ensures NonIncreasing(r, val)
    ensures multiset(r) == multiset(s)
  {
    if s == [] then []
    else
      assert s == [s[0]] + s[1..];
      InsertDesc(s[0], SortDesc(s[1..], val), val)
  }

  /** Top-N: an element that a sorted prefix leaves out is worth no more than any element it keeps. */
  lemma TopPrefix<T>(s: seq<T>, val: T -> int, n: nat, x: T)
    requires NonIncreasing(s, val)
    requires x in s && x !in Take(s, n)
    ensures forall y :: y in Take(s, n) ==> val(x) <= val(y)
  {
    var k :| 0 <= k < |s| && s[k] == x;
    var t := Take(s, n);
    assert k >= |t|;
    forall y | y in t ensures val(x) <= val(y) {
      var i :| 0 <= i < |t| && t[i] == y;
      assert s[i] == y;
    }
  }

  lemma {:induction false} CountAtMostOneWithoutDuplicates<T>(s: seq<T>, x: T)
    requires NoDuplicates(s)
    ensures multiset(s)[x] <= 1
  {
    if s != [] {
      var init := s[..|s| - 1];
      assert s == init + [s[|s| - 1]];
      CountAtMostOneWithoutDuplicates(init, x);
      if s[|s| - 1] == x {
        assert x !in init;
      }
    }
  }

  lemma CountAtLeastTwo<T>(s: seq<T>, i: nat, j: nat)
    requires i < j < |s| && s[i] == s[j]
    ensures multiset(s)[s[i]] >= 2
  {
    assert s == s[..j] + [s[j]] + s[j + 1..];
    assert s[i] in s[..j];
  }

  /** A rearrangement of a sequence without repetitions has none either. */
  lemma NoDuplicatesPermutation<T>(a: seq<T>, b: seq<T>)
    requires multiset(a) == multiset(b) && NoDuplicates(a)
    ensures NoDuplicates(b)
  {
    forall i, j | 0 <= i < j < |b| ensures b[i] != b[j] {
      if b[i] == b[j] {
        CountAtLeastTwo(b, i, j);
        CountAtMostOneWithoutDuplicates(a, b[i]);
      }
    }
  }

  /** A rearrangement keeps keys pairwise distinct. */
  lemma KeysDistinctPermutation<T, K>(a: seq<T>, b: seq<T>, key: T -> K)
    requires multiset(a) == multiset(b)
    requires forall i, j :: 0 <= i < j < |a| ==> key(a[i]) != key(a[j])
    ensures forall i, j :: 0 <= i < j < |b| ==> key(b[i]) != key(b[j])
  {
    NoDuplicatesPermutation(a, b);
    forall i, j | 0 <= i < j < |b| ensures key(b[i]) != key(b[j]) {
      assert b[i] in multiset(a) && b[j] in multiset(a);
      var p :| 0 <= p < |a| && a[p] == b[i];
      var q :| 0 <= q < |a| && a[q] == b[j];
      assert p != q;
    }
  }

}
