/** Quotients and remainders from one defining equation, so that proofs need not search for them. */
module Division {

  lemma Unique(x: int, n: int, q: int, r: int)
    requires n > 0 && x == q * n + r && 0 <= r < n
    ensures x / n == q && x % n == r
  {
    var q', r' := x / n, x % n;
    assert (q - q') * n == r' - r;
    Gap(n, q - q');
  }

  lemma Gap(n: int, t: int)
    requires n > 0
    ensures -n < t * n < n ==> t == 0
  {
  }

  // Adding a multiple of the divisor moves only the quotient.
  lemma Shift(x: int, n: int, k: int)
    requires n > 0
    ensures (x + k * n) / n == x / n + k && (x + k * n) % n == x % n
  {
    Unique(x + k * n, n, x / n + k, x % n);
  }

  lemma Step(x: int, n: int)
    requires n > 1
    ensures x / n == (x - 1) / n + if x % n == 0 then 1 else 0
  {
    var q, r := x / n, x % n;
    if r == 0 {
      Unique(x - 1, n, q - 1, n - 1);
    } else {
      Unique(x - 1, n, q, r - 1);
    }
  }

  lemma MulMono(x: int, y: int, p: int)
    requires x <= y && p >= 0
    ensures x * p <= y * p
  {
  }

  // A number in mixed radix is ordered by its leading digit first.
  lemma HeadDecides(x: int, y: int, p: int, r: int, s: int)
    requires 0 <= r < p && 0 <= s < p
    ensures x * p + r < y * p + s <==> x < y || (x == y && r < s)
  {
    if x < y {
      MulMono(x + 1, y, p);
    } else if y < x {
      MulMono(y + 1, x, p);
    }
  }

  // Dividing twice is dividing by the product.
  lemma Twice(x: int, a: int, b: int)
    requires a > 0 && b > 0
    ensures a * b > 0 && x / (a * b) == x / a / b
  {
    var y, t := x / a, x % a;
    var q, r := y / b, y % b;
    MulPositive(a, b);
    Distribute(a, b, q, r);
    DigitsFit(a, b, r, t);
    Unique(x, a * b, q, a * r + t);
  }

  lemma MulPositive(a: int, b: int)
    requires a > 0 && b > 0
    ensures a * b > 0
  {
  }

  lemma Distribute(a: int, b: int, q: int, r: int)
    ensures a * (q * b + r) == q * (a * b) + a * r
  {
  }

  lemma DigitsFit(a: int, b: int, r: int, t: int)
    requires 0 <= t < a && 0 <= r < b
    ensures 0 <= a * r + t < a * b
  {
    MulMono(0, r, a);
    MulMono(r, b - 1, a);
  }
}
