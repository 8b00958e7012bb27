/** Finite sums over an initial segment of the naturals, in exact arithmetic. */
module Sums {

  function Sum(n: nat, f: nat -> real): real {
    if n == 0 then 0.0 else Sum(n - 1, f) + f(n - 1)
  }

  lemma {:induction false} SumEqual(n: nat, f: nat -> real, h: nat -> real)
    requires forall i: nat :: i < n ==> f(i) == h(i)
    ensures Sum(n, f) == Sum(n, h)
  {
    if n > 0 { SumEqual(n - 1, f, h); }
  }

  lemma {:induction false} SumZero(n: nat, f: nat -> real)
    requires forall i: nat :: i < n ==> f(i) == 0.0
    ensures Sum(n, f) == 0.0
  {
    if n > 0 { SumZero(n - 1, f); }
  }

  lemma {:induction false} SumPlus(n: nat, f: nat -> real, h: nat -> real, k: nat -> real)
    requires forall i: nat :: i < n ==> k(i) == f(i) + h(i)
    ensures Sum(n, k) == Sum(n, f) + Sum(n, h)
  {
    if n > 0 { SumPlus(n - 1, f, h, k); }
  }

  function Product(a: real, b: real): real {
    a * b
  }

  function Scaled(c: real, f: nat -> real): nat -> real {
    (i: nat) => Product(c, f(i))
  }

  lemma {:induction false} SumScaled(n: nat, c: real, f: nat -> real)
    ensures Sum(n, Scaled(c, f)) == Product(c, Sum(n, f))
  {
    if n > 0 { SumScaled(n - 1, c, f); }
  }

  /** Two functions that differ at one place only have sums that differ by the same amount. */
  lemma {:induction false} SumDiffer(n: nat, f: nat -> real, h: nat -> real, i: nat)
    requires i < n && forall j: nat :: j < n && j != i ==> f(j) == h(j)
    ensures Sum(n, h) == Sum(n, f) + (h(i) - f(i))
  {
    if i == n - 1 {
      SumEqual(n - 1, f, h);
    } else {
      SumDiffer(n - 1, f, h, i);
    }
  }

  lemma {:induction false} SumNonNegative(n: nat, f: nat -> real)
    requires forall i: nat :: i < n ==> f(i) >= 0.0
    ensures Sum(n, f) >= 0.0
    ensures forall i: nat :: i < n ==> Sum(n, f) >= f(i)
  {
    if n > 0 { SumNonNegative(n - 1, f); }
  }

  function RowSums(n: nat, f: (nat, nat) -> real): nat -> real {
    (i: nat) => Sum(n, Row(f, i))
  }

  function ColumnSums(m: nat, f: (nat, nat) -> real): nat -> real {
    (j: nat) => Sum(m, Column(f, j))
  }

  function Row(f: (nat, nat) -> real, i: nat): nat -> real {
    (j: nat) => f(i, j)
  }

  function Column(f: (nat, nat) -> real, j: nat): nat -> real {
    (i: nat) => f(i, j)
  }

  /** Exchanging the order of summation. */
  lemma {:induction false} SumSwap(m: nat, n: nat, f: (nat, nat) -> real)
    ensures Sum(m, RowSums(n, f)) == Sum(n, ColumnSums(m, f))
  {
    if m == 0 {
      SumZero(n, ColumnSums(0, f));
    } else {
      SumSwap(m - 1, n, f);
      SumPlus(n, ColumnSums(m - 1, f), Row(f, m - 1), ColumnSums(m, f));
    }
  }
}
