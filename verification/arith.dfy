/** Facts about Euclidean division and remainder that the solver does not find alone. */
module Arith {

  /** Division by a positive divisor is unique: any quotient/remainder pair is the one. */
  lemma DivModUnique(n: int, d: int, q: int, r: int)
    requires d > 0 && n == q * d + r && 0 <= r < d
    ensures n / d == q && n % d == r
  {
    var q', r' := n / d, n % d;
    assert (q - q') * d == r' - r;
    if q > q' {
      MulMonotone(q - q', d);
    } else if q < q' {
      MulMonotone(q' - q, d);
    }
  }

  lemma MulMonotone(a: int, d: int)
    requires a >= 1 && d > 0
    ensures a * d >= d
  {
  }

  /** Splitting off the last decimal digit, in terms of any positive block size. */
  lemma ModSplit(n: int, p: int)
    requires n >= 0 && p > 0
    ensures 10 * ((n / 10) % p) + n % 10 == n % (10 * p)
  {
    var q := n / 10;
    var r := n % 10;
    var a := q / p;
    var b := q % p;
    assert q == a * p + b;
    assert n == a * (10 * p) + (10 * b + r);
    DivModUnique(n, 10 * p, a, 10 * b + r);
  }

  /** Shifting a decimal reading by one more digit. */
  lemma ShiftDigit(x: int, p: int, y: int, d: int)
    ensures 10 * (x * p + y) + d == x * (10 * p) + (10 * y + d)
  {
    assert 10 * (x * p) == x * (10 * p);
  }

  /** Subtracting the modulus once does not change the remainder. */
  lemma ModSub(i: int, n: int)
    requires n > 0 && i >= n
    ensures (i - n) % n == i % n
  {
    var q := (i - n) / n;
    var r := (i - n) % n;
    assert i == (q + 1) * n + r;
    DivModUnique(i, n, q + 1, r);
  }

  /** Scaling one factor of a product by ten scales the product by ten. */
  lemma ScaleByTen(a: int, p: int, v: int)
    requires a * p == v
    ensures a * (10 * p) == 10 * v
  {
  }

  /** A number is its quotient times the divisor plus its remainder. */
  lemma DivModSum(n: int, d: int)
    requires d > 0
    ensures (n / d) * d + n % d == n
  {
  }

  /** Dividing by 10 and then by p is dividing by 10 * p. */
  lemma DivDiv(n: int, p: int)
    requires n >= 0 && p > 0
    ensures (n / 10) / p == n / (10 * p)
  {
    var q := n / 10;
    var a := q / p;
    var b := q % p;
    assert n == a * (10 * p) + (10 * b + n % 10);
    DivModUnique(n, 10 * p, a, 10 * b + n % 10);
  }
}
