/** Finite sums of reals, and what moving numbers between two index ranges does to them. */
module Sums {

  function Sum(n: nat, f: int -> real): real {
    if n == 0 then 0.0 else Sum(n - 1, f) + f(n - 1)
  }

  /** The sum of `f(i, j)` for fixed `i`. */
  function RowSum(b: nat, f: (int, int) -> real, i: int): real {
    if b == 0 then 0.0 else RowSum(b - 1, f, i) + f(i, b - 1)
  }

  function Sum2(a: nat, b: nat, f: (int, int) -> real): real {
    if a == 0 then 0.0 else Sum2(a - 1, b, f) + RowSum(b, f, a - 1)
  }

  lemma {:induction false} SumEq(n: nat, f: int -> real, g: int -> real)
    requires forall i | 0 <= i < n :: f(i) == g(i)
    ensures Sum(n, f) == Sum(n, g)
  {
    if n > 0 {
      SumEq(n - 1, f, g);
    }
  }

  lemma {:induction false} SumAdd(n: nat, f: int -> real, g: int -> real, h: int -> real)
    requires forall i | 0 <= i < n :: h(i) == f(i) + g(i)
    ensures Sum(n, h) == Sum(n, f) + Sum(n, g)
  {
    if n > 0 {
      SumAdd(n - 1, f, g, h);
    }
  }

  lemma {:induction false} SumZero(n: nat, f: int -> real)
    requires forall i | 0 <= i < n :: f(i) == 0.0
    ensures Sum(n, f) == 0.0
  {
    if n > 0 {
      SumZero(n - 1, f);
    }
  }

  /** All terms but one are zero. */
  lemma {:induction false} SumOnly(n: nat, f: int -> real, at: int)
    requires 0 <= at < n && forall i | 0 <= i < n && i != at :: f(i) == 0.0
    ensures Sum(n, f) == f(at)
  {
    if at == n - 1 {
      SumZero(n - 1, f);
    } else {
      SumOnly(n - 1, f, at);
    }
  }

  /** All terms but those of one block are zero. */
  lemma {:induction false} SumBlock(n: nat, f: int -> real, start: nat, size: nat, g: int -> real)
    requires start + size <= n
    requires forall i | 0 <= i < n && !(start <= i < start + size) :: f(i) == 0.0
    requires forall k | 0 <= k < size :: g(k) == f(start + k)
    ensures Sum(n, f) == Sum(size, g)
    decreases n
  {
    if start + size < n {
      SumBlock(n - 1, f, start, size, g);
    } else if size > 0 {
      assert g(size - 1) == f(start + (size - 1));
      SumBlock(n - 1, f, start, size - 1, g);
    } else {
      SumZero(n, f);
    }
  }

  lemma {:induction false} RowSumIs(b: nat, f: (int, int) -> real, i: int, g: int -> real)
    requires forall j | 0 <= j < b :: g(j) == f(i, j)
    ensures RowSum(b, f, i) == Sum(b, g)
  {
    if b > 0 {
      RowSumIs(b - 1, f, i, g);
    }
  }

  /** Row by row or column by column. */
  lemma {:induction false} SumColumns(a: nat, b: nat, f: (int, int) -> real, column: int -> real)
    requires forall j | 0 <= j < b :: column(j) == Sum(a, i => f(i, j))
    ensures Sum2(a, b, f) == Sum(b, column)
    decreases a
  {
    if a == 0 {
      SumZero(b, column);
    } else {
      var shorter := j => Sum(a - 1, i => f(i, j));
      SumColumns(a - 1, b, f, shorter);
      var last := j => f(a - 1, j);
      RowSumIs(b, f, a - 1, last);
      forall j | 0 <= j < b ensures column(j) == shorter(j) + last(j) {
        assert Sum(a, i => f(i, j)) == Sum(a - 1, i => f(i, j)) + f(a - 1, j);
      }
      SumAdd(b, shorter, last, column);
    }
  }

  lemma {:induction false} RowSumEq(b: nat, f: (int, int) -> real, g: (int, int) -> real, i: int)
    requires forall j | 0 <= j < b :: f(i, j) == g(i, j)
    ensures RowSum(b, f, i) == RowSum(b, g, i)
  {
    if b > 0 {
      RowSumEq(b - 1, f, g, i);
    }
  }

  lemma {:induction false} Sum2Eq(a: nat, b: nat, f: (int, int) -> real, g: (int, int) -> real)
    requires forall i, j | 0 <= i < a && 0 <= j < b :: f(i, j) == g(i, j)
    ensures Sum2(a, b, f) == Sum2(a, b, g)
  {
    if a > 0 {
      RowSumEq(b, f, g, a - 1);
      Sum2Eq(a - 1, b, f, g);
    }
  }

  // ---------- gathering and scattering ----------

  /** The number at the place that `at` gives, or zero for no place. */
  function Gather(at: (int, int) -> int, x: int -> real): (int, int) -> real {
    (r, q) => if at(r, q) < 0 then 0.0 else x(at(r, q))
  }

  function Times(f: (int, int) -> real, m: (int, int) -> real): (int, int) -> real {
    (r, q) => f(r, q) * m(r, q)
  }

  /** The numbers that go to place `u`. */
  function GoesTo(at: (int, int) -> int, m: (int, int) -> real, u: int): (int, int) -> real {
    (r, q) => if at(r, q) == u then m(r, q) else 0.0
  }

  function Weighted(at: (int, int) -> int, m: (int, int) -> real, a: nat, b: nat, x: int -> real): int -> real {
    u => x(u) * Sum2(a, b, GoesTo(at, m, u))
  }

  function WeightedRow(at: (int, int) -> int, m: (int, int) -> real, r: int, b: nat, x: int -> real): int -> real {
    u => x(u) * RowSum(b, GoesTo(at, m, u), r)
  }

  predicate Into(at: (int, int) -> int, a: nat, b: nat, size: nat) {
    forall r, q | 0 <= r < a && 0 <= q < b :: at(r, q) < size
  }

  lemma Distribute(k: real, p: real, q: real)
    ensures k * (p + q) == k * p + k * q
  {
  }

  lemma WeightedRowStep(at: (int, int) -> int, m: (int, int) -> real, r: int, b: nat, x: int -> real, u: int)
    requires b > 0
    ensures WeightedRow(at, m, r, b, x)(u) == WeightedRow(at, m, r, b - 1, x)(u) + x(u) * GoesTo(at, m, u)(r, b - 1)
  {
    hide GoesTo;
    var go := GoesTo(at, m, u);
    Distribute(x(u), RowSum(b - 1, go, r), go(r, b - 1));
  }

  lemma WeightedStep(at: (int, int) -> int, m: (int, int) -> real, a: nat, b: nat, x: int -> real, u: int)
    requires a > 0
    ensures Weighted(at, m, a, b, x)(u) == Weighted(at, m, a - 1, b, x)(u) + WeightedRow(at, m, a - 1, b, x)(u)
  {
    hide GoesTo;
    var go := GoesTo(at, m, u);
    Distribute(x(u), Sum2(a - 1, b, go), RowSum(b, go, a - 1));
  }

  /** What one entry adds on either side. */
  lemma EntryAdjoint(at: (int, int) -> int, m: (int, int) -> real, r: int, q: int, size: nat, x: int -> real)
    requires at(r, q) < size
    ensures Times(Gather(at, x), m)(r, q) == Sum(size, u => x(u) * GoesTo(at, m, u)(r, q))
  {
    var f := (u: int) => x(u) * GoesTo(at, m, u)(r, q);
    if at(r, q) < 0 {
      forall u | 0 <= u < size ensures f(u) == 0.0 {
        TimesZero(x(u));
      }
      SumZero(size, f);
    } else {
      forall u | 0 <= u < size && u != at(r, q) ensures f(u) == 0.0 {
        assert GoesTo(at, m, u)(r, q) == 0.0;
        TimesZero(x(u));
      }
      SumOnly(size, f, at(r, q));
    }
  }

  lemma TimesZero(k: real)
    ensures k * 0.0 == 0.0
  {
  }

  lemma {:induction false} RowAdjoint(at: (int, int) -> int, m: (int, int) -> real, r: int, b: nat, size: nat, x: int -> real)
    requires forall q | 0 <= q < b :: at(r, q) < size
    ensures RowSum(b, Times(Gather(at, x), m), r) == Sum(size, WeightedRow(at, m, r, b, x))
    decreases b
  {
    hide Times, Gather, Sum, GoesTo, WeightedRow;
    var whole := WeightedRow(at, m, r, b, x);
    if b == 0 {
      NoRow(at, m, r, size, x);
    } else {
      RowAdjoint(at, m, r, b - 1, size, x);
      EntryAdjoint(at, m, r, b - 1, size, x);
      forall u | 0 <= u < size
        ensures whole(u) == WeightedRow(at, m, r, b - 1, x)(u) + x(u) * GoesTo(at, m, u)(r, b - 1) {
        WeightedRowStep(at, m, r, b, x, u);
      }
      SumAdd(size, WeightedRow(at, m, r, b - 1, x), u => x(u) * GoesTo(at, m, u)(r, b - 1), whole);
    }
  }

  lemma NoRow(at: (int, int) -> int, m: (int, int) -> real, r: int, size: nat, x: int -> real)
    ensures Sum(size, WeightedRow(at, m, r, 0, x)) == 0.0
  {
    hide GoesTo;
    forall u | 0 <= u < size ensures WeightedRow(at, m, r, 0, x)(u) == 0.0 {
      TimesZero(x(u));
    }
    SumZero(size, WeightedRow(at, m, r, 0, x));
  }

  lemma NoRows(at: (int, int) -> int, m: (int, int) -> real, b: nat, size: nat, x: int -> real)
    ensures Sum(size, Weighted(at, m, 0, b, x)) == 0.0
  {
    hide GoesTo;
    forall u | 0 <= u < size ensures Weighted(at, m, 0, b, x)(u) == 0.0 {
      TimesZero(x(u));
    }
    SumZero(size, Weighted(at, m, 0, b, x));
  }

  /** Gathering and scattering along the same places are transposes of each other. */
  lemma {:induction false} Adjoint(at: (int, int) -> int, m: (int, int) -> real, a: nat, b: nat, size: nat, x: int -> real)
    requires Into(at, a, b, size)
    ensures Sum2(a, b, Times(Gather(at, x), m)) == Sum(size, Weighted(at, m, a, b, x))
    decreases a
  {
    hide Times, Gather, Sum, GoesTo, Weighted, WeightedRow;
    if a == 0 {
      NoRows(at, m, b, size, x);
    } else {
      var whole, rest, last := Weighted(at, m, a, b, x), Weighted(at, m, a - 1, b, x), WeightedRow(at, m, a - 1, b, x);
      Adjoint(at, m, a - 1, b, size, x);
      RowAdjoint(at, m, a - 1, b, size, x);
      forall u | 0 <= u < size ensures whole(u) == rest(u) + last(u) {
        WeightedStep(at, m, a, b, x, u);
      }
      SumAdd(size, rest, last, whole);
    }
  }
}
