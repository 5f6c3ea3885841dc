/** Bitwise operators of C on non-negative integers, defined digit by digit, and powers of two. */
module Bits {

  function Pow2(n: nat): (p: nat)
    ensures p >= 1
  {
    if n == 0 then 1 else 2 * Pow2(n - 1)
  }

  ghost predicate IsPow2(x: int) {
    exists n: nat :: x == Pow2(n)
  }

  /** `a | b` */
  function Or(a: nat, b: nat): nat
    decreases a + b
  {
    if a == 0 && b == 0 then 0
    else 2 * Or(a / 2, b / 2) + (if a % 2 == 1 || b % 2 == 1 then 1 else 0)
  }

  /** `a & b` */
  function And(a: nat, b: nat): nat
    decreases a + b
  {
    if a == 0 && b == 0 then 0
    else 2 * And(a / 2, b / 2) + (if a % 2 == 1 && b % 2 == 1 then 1 else 0)
  }

  /** `x >> n` */
  function Shr(x: nat, n: nat): nat {
    if n == 0 then x else Shr(x / 2, n - 1)
  }

  lemma {:induction false} Pow2Sum(m: nat, n: nat)
    ensures Pow2(m + n) == Pow2(m) * Pow2(n)
  {
    if m > 0 {
      Pow2Sum(m - 1, n);
      assert Pow2(m + n) == 2 * Pow2(m - 1 + n);
    }
  }

  lemma {:induction false} Pow2Mono(m: nat, n: nat)
    requires m <= n
    ensures Pow2(m) <= Pow2(n)
    ensures m < n ==> 2 * Pow2(m) <= Pow2(n)
    decreases n
  {
    if m < n {
      Pow2Mono(m, n - 1);
    }
  }

  /** Distinct powers of two are a factor of two apart. */
  lemma Pow2Gap(a: int, b: int)
    requires IsPow2(a) && IsPow2(b) && a < b
    ensures 2 * a <= b
  {
    var m: nat :| a == Pow2(m);
    var n: nat :| b == Pow2(n);
    if n <= m {
      Pow2Mono(n, m);
    }
    Pow2Mono(m, n);
  }

  /** How a number whose bits below position `t` are `a` and whose other bits are `h` is halved. */
  lemma Halves(t: nat, h: nat, a: nat, x: nat)
    requires t > 0 && a < Pow2(t) && x == Pow2(t) * h + a
    ensures x / 2 == Pow2(t - 1) * h + a / 2 && x % 2 == a % 2 && a / 2 < Pow2(t - 1)
  {
    var q := Pow2(t - 1) * h;
    assert Pow2(t) * h == 2 * q;
  }

  /** The bits below position `t` and those above it are combined separately. */
  lemma {:induction false} OrSplit(t: nat, h: nat, a: nat, k: nat, b: nat, x: nat, y: nat)
    requires a < Pow2(t) && b < Pow2(t)
    requires x == Pow2(t) * h + a && y == Pow2(t) * k + b
    ensures Or(x, y) == Pow2(t) * Or(h, k) + Or(a, b)
  {
    if t > 0 {
      Halves(t, h, a, x);
      Halves(t, k, b, y);
      OrSplit(t - 1, h, a / 2, k, b / 2, x / 2, y / 2);
      Double(t, Or(h, k));
    }
  }

  lemma {:induction false} AndSplit(t: nat, h: nat, a: nat, k: nat, b: nat, x: nat, y: nat)
    requires a < Pow2(t) && b < Pow2(t)
    requires x == Pow2(t) * h + a && y == Pow2(t) * k + b
    ensures And(x, y) == Pow2(t) * And(h, k) + And(a, b)
  {
    if t > 0 {
      Halves(t, h, a, x);
      Halves(t, k, b, y);
      AndSplit(t - 1, h, a / 2, k, b / 2, x / 2, y / 2);
      Double(t, And(h, k));
    }
  }

  lemma Double(t: nat, o: nat)
    requires t > 0
    ensures Pow2(t) * o == 2 * (Pow2(t - 1) * o)
  {
  }

  /** A mask of `t` ones keeps the low `t` bits. */
  lemma {:induction false} AndOnes(a: nat, t: nat)
    requires a < Pow2(t)
    ensures And(a, Pow2(t) - 1) == a
  {
    if t > 0 {
      AndOnes(a / 2, t - 1);
    }
  }
}
