/**
 * The wrap-around index arithmetic shared by the carousels and sliders:
 * `(i + 1) % n` and `(i - 1 + n) % n` with JavaScript's `%`, whose result
 * takes the sign of the dividend (it truncates toward zero).
 */
module Cycle {

  /** JavaScript's `a % n` for a positive `n`. */
  function JsRem(a: int, n: int): (r: int)
    requires n > 0
    ensures a >= 0 ==> r == a % n
    ensures a < 0 ==> r == -((-a) % n)
    ensures -n < r < n
  {
    if a >= 0 then a % n else -((-a) % n)
  }

  function Next(i: int, n: int): int
    requires n > 0
  {
    JsRem(i + 1, n)
  }

  function Prev(i: int, n: int): int
    requires n > 0
  {
    JsRem(i - 1 + n, n)
  }

  /** A dividend below the divisor is its own remainder. */
  lemma RemBelow(a: int, n: int)
    requires 0 <= a < n
    ensures JsRem(a, n) == a
  {
    assert a % n == a;
  }

  /** A dividend between one and two divisors loses one divisor. */
  lemma RemWrap(a: int, n: int)
    requires n <= a < 2 * n
    ensures JsRem(a, n) == a - n
  {
  }

  /** From any non-negative index, one step either way lands on a valid index. */
  lemma StepsStayInRange(i: int, n: int)
    requires n > 0 && i >= 0
    ensures 0 <= Next(i, n) < n
    ensures 0 <= Prev(i, n) < n
  {
  }

  /** On valid indices, `Next` adds one and wraps the last index to 0; `Prev` subtracts one and wraps 0 to the last. */
  lemma StepsOnValidIndex(i: int, n: int)
    requires 0 <= i < n
    ensures Next(i, n) == if i == n - 1 then 0 else i + 1
    ensures Prev(i, n) == if i == 0 then n - 1 else i - 1
  {
    if i < n - 1 {
      RemBelow(i + 1, n);
    } else {
      RemWrap(i + 1, n);
    }
    if i > 0 {
      RemWrap(i - 1 + n, n);
    } else {
      RemBelow(i - 1 + n, n);
    }
  }

  /** `Next` and `Prev` undo each other on valid indices. */
  lemma NextPrevInverse(i: int, n: int)
    requires 0 <= i < n
    ensures 0 <= Next(i, n) < n && Prev(Next(i, n), n) == i
    ensures 0 <= Prev(i, n) < n && Next(Prev(i, n), n) == i
  {
    StepsOnValidIndex(i, n);
    StepsOnValidIndex(Next(i, n), n);
    StepsOnValidIndex(Prev(i, n), n);
  }
}
