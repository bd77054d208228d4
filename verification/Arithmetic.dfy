/** Products and quotients of integers. */
module Arithmetic {

  function Clamp(x: int, lo: int, hi: int): (r: int)
    ensures lo <= hi ==> lo <= r <= hi
    ensures lo <= x <= hi ==> r == x
    ensures lo <= hi ==> (x < lo ==> r == lo) && (x > hi ==> r == hi)
  {
    if x < lo then lo else if x > hi then hi else x
  }

  /** Division that truncates toward zero. */
  function Quotient(a: int, b: int): int
    requires b != 0
  {
    var q := (if a < 0 then -a else a) / (if b < 0 then -b else b);
    if (a < 0) != (b < 0) then -q else q
  }

  lemma MulMonotone(a: int, b: int, c: int)
    requires a <= b && 0 <= c
    ensures a * c <= b * c
  {
  }

  /** The quotient is the greatest factor that stays at or below. */
  lemma QuotientBounds(a: int, b: int)
    requires 0 < b
    ensures a / b * b <= a < (a / b + 1) * b
  {
  }

  lemma QuotientMonotone(a: int, b: int, c: int)
    requires a <= b && 0 < c
    ensures a / c <= b / c
  {
    var q, r := a / c, b / c;
    QuotientBounds(a, c);
    QuotientBounds(b, c);
    if q >= r + 1 {
      MulMonotone(r + 1, q, c);
    }
  }

  /** A point of a range of length `b`, scaled to a range of length `c`, lies in it. */
  lemma ScaleBelow(a: int, b: int, c: int)
    requires 0 <= a < b && 0 < c
    ensures 0 <= a * c && 0 <= a * c / b < c
  {
    var q := a * c / b;
    MulMonotone(0, a, c);
    MulMonotone(a + 1, b, c);
    QuotientBounds(a * c, b);
    assert (a + 1) * c == a * c + c;
    if q >= c {
      MulMonotone(c, q, b);
    }
  }

  lemma ScaleMonotone(x: int, x': int, c: int, d: int)
    requires 0 <= x <= x' && 0 <= c && 0 < d
    ensures 0 <= x * c <= x' * c && x * c / d <= x' * c / d
  {
    MulMonotone(0, x, c);
    MulMonotone(x, x', c);
    QuotientMonotone(x * c, x' * c, d);
  }

  lemma QuotientOfProduct(n: int, b: int)
    requires 0 < b
    ensures n * b / b == n
  {
    var q := n * b / b;
    QuotientBounds(n * b, b);
    if q < n {
      MulMonotone(q + 1, n, b);
    } else if q > n {
      MulMonotone(n + 1, q, b);
    }
  }

  lemma TruncatedMonotone(a: int, b: int, c: int)
    requires a <= b && c > 0
    ensures Quotient(a, c) <= Quotient(b, c)
  {
    if a >= 0 {
      QuotientMonotone(a, b, c);
    } else if b < 0 {
      QuotientMonotone(-b, -a, c);
    } else {
      QuotientSign(-a, c);
      QuotientSign(b, c);
    }
  }

  lemma QuotientSign(a: nat, c: int)
    requires c > 0
    ensures a / c >= 0
  {
  }

  lemma TruncatedWhole(n: nat, c: int)
    requires c > 0
    ensures Quotient(n * c, c) == n && Quotient(0, c) == 0
  {
    MulMonotone(0, n, c);
    QuotientOfProduct(n, c);
    QuotientOfProduct(0, c);
  }

  lemma QuotientParts(a: int, b: int, x: int, y: int, q: int)
    requires x >= 0 && y > 0 && (a == x || a == -x) && (b == y || b == -y) && q == x / y
    ensures Quotient(a, b) == if (a < 0) != (b < 0) then -q else q
  {
  }

  lemma ZeroQuotient(b: int)
    requires b > 0
    ensures 0 / b == 0
  {
  }

  /** The quotient of numbers that are not negative is the usual one; a change of sign on
      either side changes its sign only. */
  lemma QuotientIs(a: int, b: int)
    requires b != 0
    ensures a >= 0 && b > 0 ==> Quotient(a, b) == a / b
    ensures Quotient(-a, b) == -Quotient(a, b) && Quotient(a, -b) == -Quotient(a, b)
  {
    hide Quotient;
    var x: int, y: int := if a < 0 then -a else a, if b < 0 then -b else b;
    var q := x / y;
    ZeroQuotient(y);
    QuotientParts(a, b, x, y, q);
    QuotientParts(-a, b, x, y, q);
    QuotientParts(a, -b, x, y, q);
  }
}
