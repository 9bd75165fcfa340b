/** Euclid's algorithm on Java `int`s, whose `%` truncates toward zero: the remainder takes the
    sign of the dividend. */
module Euclid {

  function Abs(x: int): (y: nat)
    ensures y == x || y == -x
  {
    if x < 0 then -x else x
  }

  /** Java's `a % b` for `b != 0`: the magnitude of `|a| mod |b|` with the sign of `a`. */
  function JavaRem(a: int, b: int): (r: int)
    requires b != 0
    ensures Abs(r) < Abs(b)
    ensures a >= 0 ==> r >= 0
    ensures a <= 0 ==> r <= 0
  {
    if a >= 0 then Abs(a) % Abs(b) else -(Abs(a) % Abs(b))
  }

  /** `k * d`, named so that divisibility has a term to quantify over. */
  function Scale(k: int, d: int): int
  {
    k * d
  }

  /** `d` divides `x`: some integer multiple of `d` is `x`. */
  ghost predicate Divides(d: int, x: int)
  {
    exists k :: Scale(k, d) == x
  }

  /** Java's `a / b` for `b != 0`: the quotient of the magnitudes, negated when the signs
      differ, so it truncates toward zero. */
  function JavaDiv(a: int, b: int): int
    requires b != 0
  {
    if (a >= 0) == (b >= 0) then Abs(a) / Abs(b) else -(Abs(a) / Abs(b))
  }

  /** The remainder differs from the dividend by a multiple of the divisor, as Java's
      `(a / b) * b + a % b == a` promises. */
  lemma RemainderMultiple(a: int, b: int)
    requires b != 0
    ensures a == JavaRem(a, b) + Scale(JavaDiv(a, b), b)
  {
    var m, n := Abs(a), Abs(b);
    var qq := m / n;
    assert m == qq * n + m % n;
    if b < 0 {
      assert qq * n == -qq * b;
    }
  }

  /** A divisor of two numbers divides every sum of multiples of them. */
  lemma DividesCombination(d: int, x: int, y: int, q: int)
    requires Divides(d, x) && Divides(d, y)
    ensures Divides(d, x + Scale(q, y))
  {
    var kx :| Scale(kx, d) == x;
    var ky :| Scale(ky, d) == y;
    assert Scale(kx + q * ky, d) == x + Scale(q, y) by {
      assert (kx + q * ky) * d == kx * d + q * (ky * d);
    }
  }

  /** `gdc(a, b)`: `a` when `b` is zero, otherwise `gdc(b, a % b)`. The divisor shrinks in
      magnitude at every step, and two non-negative arguments give a non-negative answer. */
  function Gcd(a: int, b: int): (r: int)
    ensures a >= 0 && b >= 0 ==> r >= 0
    decreases Abs(b)
  {
    if b == 0 then a else Gcd(b, JavaRem(a, b))
  }

  /** The result divides both arguments. */
  lemma {:induction false} GcdDivides(a: int, b: int)
    ensures Divides(Gcd(a, b), a) && Divides(Gcd(a, b), b)
    decreases Abs(b)
  {
    var g := Gcd(a, b);
    if b == 0 {
      assert Scale(1, a) == a && Scale(0, a) == 0;
    } else {
      var r := JavaRem(a, b);
      GcdDivides(b, r);
      RemainderMultiple(a, b);
      DividesCombination(g, r, b, JavaDiv(a, b));
    }
  }

  /** Every common divisor of the arguments divides the result: it is the greatest. */
  lemma {:induction false} GcdGreatest(a: int, b: int, d: int)
    requires Divides(d, a) && Divides(d, b)
    ensures Divides(d, Gcd(a, b))
    decreases Abs(b)
  {
    if b != 0 {
      var r := JavaRem(a, b);
      var q := JavaDiv(a, b);
      RemainderMultiple(a, b);
      DividesCombination(d, a, b, -q);
      assert a + Scale(-q, b) == r;
      GcdGreatest(b, r, d);
    }
  }
}
