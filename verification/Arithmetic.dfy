/** Integer facts that the solver does not find by itself. */
module Arithmetic {

  lemma MulMonotone(a: int, b: int, n: nat)
    requires a <= b
    ensures a * n <= b * n
  {
    assert (b - a) * n >= 0;
  }

  /** Quotient and remainder are the only way to split x. */
  lemma DivModUnique(x: int, q: int, r: int, n: int)
    requires n > 0 && x == q * n + r && 0 <= r < n
    ensures x / n == q && x % n == r
  {
    var p, m := x / n, x % n;
    assert p * n + m == q * n + r;
    if p < q {
      MulMonotone(p + 1, q, n);
      assert false;
    } else if q < p {
      MulMonotone(q + 1, p, n);
      assert false;
    }
  }

  function Gcd(a: nat, b: nat): nat
    decreases b
  {
    if b == 0 then a else Gcd(b, a % b)
  }

  /** The greatest common divisor divides both numbers. */
  lemma {:induction false} GcdDivides(a: nat, b: nat) returns (x: nat, y: nat)
    ensures a == x * Gcd(a, b) && b == y * Gcd(a, b)
    ensures a > 0 ==> Gcd(a, b) > 0
    decreases b
  {
    if b == 0 {
      x, y := 1, 0;
    } else {
      var g := Gcd(a, b);
      var u, v := GcdDivides(b, a % b);
      Regroup(a / b, u, v, g);
      x, y := a / b * u + v, u;
    }
  }

  lemma Regroup(q: int, u: int, v: int, g: int)
    ensures q * (u * g) + v * g == (q * u + v) * g
  {
  }

  /** It is a sum of multiples of them. */
  lemma {:induction false} Bezout(a: nat, b: nat) returns (x: int, y: int)
    ensures x * a + y * b == Gcd(a, b)
    decreases b
  {
    if b == 0 {
      x, y := 1, 0;
    } else {
      var q, r := a / b, a % b;
      var u, v := Bezout(b, r);
      x, y := v, u - q * v;
      assert r == a - q * b;
      Exchange(u, v, q, a, b);
    }
  }

  lemma Exchange(u: int, v: int, q: int, a: int, b: int)
    ensures u * b + v * (a - q * b) == v * a + (u - q * v) * b
  {
    assert v * (a - q * b) == v * a - v * (q * b);
    assert v * (q * b) == (q * v) * b;
    assert (u - q * v) * b == u * b - (q * v) * b;
  }

  lemma GcdOfDivisor(a: nat, b: nat)
    requires b > 0 && a % b == 0
    ensures Gcd(a, b) == b
  {
    assert Gcd(b, 0) == b;
  }
}
