/**
 * The `Decimal` arithmetic of the goal planner on amounts held as whole
 * cents: division rounded to the cent, and the ceiling of a quotient.
 */
module Decimals {
  function Abs(x: int): nat {
    if x < 0 then -x else x
  }

  /** `r` is n/d to the nearest integer, ties to the even neighbour. */
  predicate RoundsHalfEven(n: int, d: int, r: int) {
    2 * Abs(n - r * d) <= Abs(d) && (2 * Abs(n - r * d) == Abs(d) ==> r % 2 == 0)
  }

  /**
   * `(Decimal(n) / Decimal(d)).quantize(Decimal("0.01"))` for amounts in cents:
   * the integer nearest to n/d, ties to the even neighbour (the default
   * Decimal rounding).
   */
  function RoundHalfEven(n: int, d: int): (r: int)
    requires d != 0
    ensures RoundsHalfEven(n, d, r)
  {
    if d < 0 then
      var r := RoundPositive(-n, -d);
      NegateRight(r, d);
      r
    else RoundPositive(n, d)
  }

  /** Rounding for a positive divisor: the floor of n/d, or the next integer past the half. */
  function RoundPositive(n: int, d: int): (r: int)
    requires d > 0
    ensures 2 * Abs(n - r * d) <= d
    ensures 2 * Abs(n - r * d) == d ==> r % 2 == 0
  {
    var q, rem := n / d, n % d;
    assert n == q * d + rem;
    assert (q + 1) * d == q * d + d;
    if 2 * rem < d then q
    else if 2 * rem > d then q + 1
    else if q % 2 == 0 then q
    else q + 1
  }

  /** Only one integer is that close to n/d with that tie rule: rounding has one answer. */
  lemma RoundHalfEvenUnique(n: int, d: int, r': int)
    requires d != 0
    requires RoundsHalfEven(n, d, r')
    ensures r' == RoundHalfEven(n, d)
  {
    if d < 0 {
      NegateRight(r', d);
      RoundUniquePositive(-n, -d, r');
    } else {
      RoundUniquePositive(n, d, r');
    }
  }

  lemma RoundUniquePositive(n: int, d: int, r': int)
    requires d > 0
    requires 2 * Abs(n - r' * d) <= d
    requires 2 * Abs(n - r' * d) == d ==> r' % 2 == 0
    ensures r' == RoundPositive(n, d)
  {
    var q, rem := n / d, n % d;
    var r := RoundPositive(n, d);
    RoundCandidates(n, d, r);
    RoundCandidates(n, d, r');
    RemainderOf(n, d, r);
    RemainderOf(n, d, r');
    TiesAgree(q, rem, d, r, r', n - r * d, n - r' * d);
  }

  /** The error of the two candidates: the remainder, or the remainder less `d`. */
  lemma RemainderOf(n: int, d: int, r: int)
    requires d > 0
    requires r == n / d || r == n / d + 1
    ensures r == n / d ==> n - r * d == n % d
    ensures r == n / d + 1 ==> n - r * d == n % d - d
  {
    var q := n / d;
    assert n == q * d + n % d;
    assert (q + 1) * d == q * d + d;
  }

  /** Two candidates within half of `d`, ties broken to the even one, coincide. */
  lemma TiesAgree(q: int, rem: int, d: int, r: int, r': int, e: int, e': int)
    requires d > 0 && 0 <= rem < d
    requires (r == q && e == rem) || (r == q + 1 && e == rem - d)
    requires (r' == q && e' == rem) || (r' == q + 1 && e' == rem - d)
    requires 2 * Abs(e) <= d && (2 * Abs(e) == d ==> r % 2 == 0)
    requires 2 * Abs(e') <= d && (2 * Abs(e') == d ==> r' % 2 == 0)
    ensures r == r'
  {
  }

  /** A multiple of `d` within `d/2` of `n` is the floor of n/d or the next one. */
  lemma RoundCandidates(n: int, d: int, r': int)
    requires d > 0
    requires 2 * Abs(n - r' * d) <= d
    ensures r' == n / d || r' == n / d + 1
  {
    var q, rem := n / d, n % d;
    var k := q - r';
    assert n == q * d + rem;
    assert n - r' * d == k * d + rem;
    if k >= 1 {
      MulMonotone(k, 1, d);
    } else if k <= -2 {
      MulMonotone(-k, 2, d);
    }
  }

  lemma NegateRight(a: int, b: int)
    ensures a * -b == -(a * b)
  {
  }

  /** A negative multiple of a positive number is at most its negation. */
  lemma NegativeMultiple(r: int, m: int)
    requires m > 0
    ensures r < 0 ==> r * m <= -m
  {
    if r < 0 {
      MulMonotone(-r, 1, m);
    }
  }

  lemma MulMonotone(a: nat, b: nat, c: nat)
    requires a >= b
    ensures a * c >= b * c
  {
  }

  /** An exact quotient needs no rounding. */
  lemma RoundExact(q: int, d: int)
    requires d != 0
    ensures RoundHalfEven(q * d, d) == q
  {
    assert q * d - q * d == 0;
    RoundHalfEvenUnique(q * d, d, q);
  }

  /** `math.ceil(Decimal(n) / Decimal(d))` for a positive divisor: the least number of `d`s that reach `n`. */
  function CeilDiv(n: int, d: int): (r: int)
    requires d > 0
    ensures d * (r - 1) < n <= d * r
    ensures n > 0 ==> r >= 1
  {
    var q := (-n) / d;
    assert -n == q * d + (-n) % d;
    assert n > 0 ==> q < 0 by {
      if n > 0 && q >= 0 {
        MulMonotone(q, 0, d);
      }
    }
    -q
  }

  /** The least such number: no smaller multiple reaches `n`. */
  lemma CeilDivLeast(n: int, d: int, k: int)
    requires d > 0
    requires n <= d * k
    ensures CeilDiv(n, d) <= k
  {
  }

  /** A positive amount over a positive number of months needs a non-negative saving. */
  lemma RoundNonNegative(target: int, months: int)
    requires target > 0 && months > 0
    ensures RoundHalfEven(target, months) >= 0
  {
    NegativeMultiple(RoundHalfEven(target, months), months);
  }
}
