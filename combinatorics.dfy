/** Binomial coefficients, used by the memory estimate that routes a component
    to the cops-and-robber solver. */
module Combinatorics {

  function Fact(n: nat): (r: nat)
    ensures r >= 1
  {
    if n == 0 then 1 else n * Fact(n - 1)
  }

  /** Pascal's rule: the number of k-element subsets of an n-element set. */
  function Choose(n: nat, k: nat): nat
  {
    if k == 0 then 1
    else if n == 0 then 0
    else Choose(n - 1, k - 1) + Choose(n - 1, k)
  }

  /** The value `binom` computes, for every pair of integers: zero above the
      diagonal, C(n, k) inside the triangle, and n - k + 1 for a negative k
      (the loop of `binom` then does not run). */
  function Binomial(n: int, k: int): int
  {
    if k > n then 0 else if k < 0 then n - k + 1 else Choose(n, k)
  }

  /** Inside the triangle the value is n! / (k! (n - k)!), stated without division. */
  lemma BinomialFactorial(n: int, k: int)
    requires 0 <= k <= n
    ensures Binomial(n, k) * (Fact(k) * Fact(n - k)) == Fact(n)
  {
    ChooseFactorial(n, k);
  }

  /** Inside the triangle the value is symmetric. */
  lemma BinomialSymmetric(n: int, k: int)
    requires 0 <= k <= n
    ensures Binomial(n, k) == Binomial(n, n - k)
  {
    ChooseSymmetric(n, k);
  }

  lemma {:induction false} ChooseAbove(n: nat, k: nat)
    requires k > n
    ensures Choose(n, k) == 0
  {
    if n > 0 {
      ChooseAbove(n - 1, k - 1);
      ChooseAbove(n - 1, k);
    }
  }

  lemma {:induction false} ChooseDiagonal(n: nat)
    ensures Choose(n, n) == 1
  {
    if n > 0 {
      ChooseDiagonal(n - 1);
      ChooseAbove(n - 1, n);
    }
  }

  /** C(n, k) == C(n, n - k): the identity behind the shortcut of `binom` for 2k > n. */
  lemma {:induction false} ChooseSymmetric(n: nat, k: nat)
    requires k <= n
    ensures Choose(n, k) == Choose(n, n - k)
  {
    if k == 0 || k == n {
      ChooseDiagonal(n);
    } else {
      ChooseSymmetric(n - 1, k - 1);
      ChooseSymmetric(n - 1, k);
      assert Choose(n, n - k) == Choose(n - 1, n - k - 1) + Choose(n - 1, n - k);
    }
  }

  /** Absorption: k * C(n, k) == n * C(n - 1, k - 1); it makes every division
      in the loop of `binom` exact. */
  lemma {:induction false} ChooseAbsorption(n: nat, k: nat)
    requires n >= 1 && k >= 1
    ensures k * Choose(n, k) == n * Choose(n - 1, k - 1)
  {
    if n == 1 {
      if k > 1 {
        ChooseAbove(0, k - 1);
        ChooseAbove(0, k);
      }
    } else {
      var a, b := Choose(n - 1, k - 1), Choose(n - 1, k);
      var q := Choose(n - 2, k - 1);
      ChooseAbsorption(n - 1, k);
      if k == 1 {
        AbsorptionBase(n, a, b, q);
      } else {
        var p := Choose(n - 2, k - 2);
        ChooseAbsorption(n - 1, k - 1);
        AbsorptionStep(n, k, a, b, p, q);
      }
    }
  }

  lemma AbsorptionBase(n: int, a: int, b: int, q: int)
    requires a == 1 && q == 1 && b == (n - 1) * q
    ensures a + b == n * a
  {
  }

  lemma AbsorptionStep(n: int, k: int, a: int, b: int, p: int, q: int)
    requires a == p + q
    requires k * b == (n - 1) * q
    requires (k - 1) * a == (n - 1) * p
    ensures k * (a + b) == n * a
  {
    calc {
      k * (a + b);
      == { Distribute(k, a, b); }
      k * a + k * b;
      == { Distribute(k - 1, a, 0); }
      a + (k - 1) * a + k * b;
      a + (n - 1) * p + (n - 1) * q;
      == { Distribute(n - 1, p, q); }
      a + (n - 1) * a;
      == { Distribute(a, 1, n - 1); }
      n * a;
    }
  }

  lemma Distribute(x: int, y: int, z: int)
    ensures x * (y + z) == x * y + x * z
    ensures (y + z) * x == y * x + z * x
  {
  }

  /** C(n, k) == n! / (k! (n - k)!), stated without division. */
  lemma {:induction false} ChooseFactorial(n: nat, k: nat)
    requires k <= n
    ensures Choose(n, k) * (Fact(k) * Fact(n - k)) == Fact(n)
  {
    if k == 0 {
    } else if k == n {
      ChooseDiagonal(n);
    } else {
      ChooseFactorial(n - 1, k - 1);
      ChooseFactorial(n - 1, k);
      FactorialStep(n, k, Choose(n - 1, k - 1), Choose(n - 1, k),
                    Fact(k - 1), Fact(n - 1 - k), Fact(n - 1));
    }
  }

  lemma FactorialStep(n: int, k: int, a: int, b: int, fk1: int, fnk1: int, fn1: int)
    requires a * (fk1 * ((n - k) * fnk1)) == fn1
    requires b * ((k * fk1) * fnk1) == fn1
    ensures (a + b) * ((k * fk1) * ((n - k) * fnk1)) == n * fn1
  {
    var x, y := k * fk1, (n - k) * fnk1;
    calc {
      a * (x * y);
      { Associate(k, fk1, y); }
      a * (k * (fk1 * y));
      { Exchange(a, k, fk1 * y); }
      k * fn1;
    }
    calc {
      b * (x * y);
      { Exchange(x, n - k, fnk1); }
      b * ((n - k) * (x * fnk1));
      { Exchange(b, n - k, x * fnk1); }
      (n - k) * fn1;
    }
    Distribute(x * y, a, b);
    Distribute(fn1, k, n - k);
  }

  lemma Associate(x: int, y: int, z: int)
    ensures (x * y) * z == x * (y * z)
  {
  }

  lemma Exchange(x: int, y: int, z: int)
    ensures x * (y * z) == y * (x * z)
  {
  }
}
