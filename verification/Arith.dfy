/** Facts about products and quotients by a variable divisor. */
module Arith {
  lemma MulMono(x: nat, y: nat, n: nat)
    requires x <= y
    ensures x * n <= y * n
  {
  }

  lemma MulLess(x: nat, y: nat, n: nat)
    requires x * n < y * n
    ensures x < y
  {
    if y <= x { MulMono(y, x, n); }
  }

  lemma Multiples(a: nat, b: nat, n: nat)
    requires n > 0 && b * n <= a < (b + 1) * n
    ensures a / n == b
  {
    var q := a / n;
    MulLess(q, b + 1, n);
    assert a < (q + 1) * n;
    MulLess(b, q + 1, n);
  }

  lemma DivBounds(x: nat, n: nat)
    requires n > 0
    ensures x / n * n <= x < x / n * n + n
    ensures x % n == 0 ==> x / n * n == x
  {
  }

  lemma MultipleMod(q: nat, n: nat)
    requires n > 0
    ensures q * n % n == 0
  {
    Multiples(q * n, q, n);
  }

  function Div(x: nat, n: nat): nat
    requires n > 0
  {
    x / n
  }

  function Mod(x: nat, n: nat): nat
    requires n > 0
  {
    x % n
  }

  /** The quotient against `i`, in multiples of `n`. */
  lemma DivOrder(x: nat, n: nat, i: nat)
    requires n > 0
    ensures Div(x, n) <= i ==> Div(x, n) * n <= i * n
    ensures i <= Div(x, n) ==> i * n <= Div(x, n) * n
    ensures i < Div(x, n) ==> i * n + n <= Div(x, n) * n
    ensures Div(x, n) < i ==> Div(x, n) * n + n <= i * n
    ensures Div(x, n) * n <= x < Div(x, n) * n + n
    ensures x == Div(x, n) * n + Mod(x, n) && Mod(x, n) < n
  {
    DivBounds(x, n);
    var q := Div(x, n);
    if i < q {
      MulMono(i + 1, q, n);
      assert (i + 1) * n == i * n + n;
    }
    if q < i {
      MulMono(q + 1, i, n);
      assert (q + 1) * n == q * n + n;
    }
  }

  lemma MulRoom(i: nat, m: nat, n: nat)
    requires i < m
    ensures i * n + n <= m * n
  {
    MulMono(i + 1, m, n);
    assert (i + 1) * n == i * n + n;
  }

  lemma DivRoom(x: nat, m: nat, n: nat)
    requires n > 0 && x < m * n
    ensures Div(x, n) < m
  {
    DivBounds(x, n);
    MulLess(x / n, m, n);
  }

  lemma DivMono(x: nat, y: nat, n: nat)
    requires n > 0 && x <= y
    ensures Div(x, n) <= Div(y, n)
  {
    DivBounds(x, n);
    DivBounds(y, n);
    assert (y / n + 1) * n == y / n * n + n;
    MulLess(x / n, y / n + 1, n);
  }

  lemma MulAssoc(a: nat, b: nat, c: nat)
    ensures a * b * c == a * (b * c)
  {
  }

  lemma MulDistr(a: nat, b: nat, c: nat)
    ensures (a + b) * c == a * c + b * c
  {
  }

  lemma DivDivBounds(x: nat, n: nat, m: nat, q: nat, r: nat)
    requires q * n <= x < q * n + n && r * m <= q < r * m + m
    ensures r * (m * n) <= x < (r + 1) * (m * n)
  {
    MulMono(r * m, q, n);
    MulMono(q + 1, r * m + m, n);
    MulAssoc(r, m, n);
    MulDistr(q, 1, n);
    MulDistr(r * m, m, n);
    MulDistr(r, 1, m * n);
  }

  lemma MulPos(m: nat, n: nat)
    requires m > 0 && n > 0
    ensures m * n > 0
  {
  }

  lemma DivDiv(x: nat, n: nat, m: nat)
    requires n > 0 && m > 0
    ensures m * n > 0 && Div(Div(x, n), m) == Div(x, m * n)
  {
    var q, r := Div(x, n), Div(Div(x, n), m);
    MulPos(m, n);
    DivBounds(x, n);
    DivBounds(q, m);
    DivDivBounds(x, n, m, q, r);
    Multiples(x, r, m * n);
  }

  lemma DivZero(x: nat, n: nat)
    requires n > 0
    ensures Div(x, n) == 0 <==> x < n
  {
    DivBounds(x, n);
    if Div(x, n) > 0 { MulMono(1, Div(x, n), n); }
  }
}
