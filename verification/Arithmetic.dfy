/** Facts of division and multiplication that the solver is better told than left to find. */
module Arithmetic {

  lemma Quotient(a: int, b: int)
    requires b > 0
    ensures b * (a / b) <= a < b * (a / b) + b && a == b * (a / b) + a % b && 0 <= a % b < b
    ensures a >= 0 ==> a / b >= 0
  {
  }

  lemma Multiple(m: int, k: int)
    requires -m < m * k < m
    ensures k == 0
  {
  }

  /** Quotient and remainder are determined by what they make up. */
  lemma DivMod(a: int, b: int, q: int, r: int)
    requires a == b * q + r && 0 <= r < b
    ensures a / b == q && a % b == r
  {
    Quotient(a, b);
    Spread(b, a / b, q);
    Multiple(b, a / b - q);
  }

  lemma Spread(m: int, p: int, q: int)
    ensures m * (p - q) == m * p - m * q
  {
  }

  lemma TimesMonotone(a: int, b: int, m: int)
    requires a <= b && m >= 0
    ensures a * m <= b * m && m * a <= m * b
  {
  }
}
