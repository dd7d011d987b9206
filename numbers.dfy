/** Integer helpers the fraction code takes from Python itself: the absolute
    value, floor division `//`, and `math.gcd`, with the divisibility facts
    that normalisation relies on. */
module Numbers {

  function Abs(x: int): nat
  {
    if x < 0 then -x else x
  }

  /** Python's `a // b`: the floor of the rational a/b. Dafny's `/` is
      Euclidean, which agrees with the floor only for a positive divisor. */
  function FloorDiv(a: int, b: int): (q: int)
    requires b != 0
    ensures b > 0 ==> q * b <= a < q * b + b
    ensures b < 0 ==> q * b >= a > q * b + b
  {
    if b > 0 then a / b else (-a) / (-b)
  }

  /** Euclid's algorithm on non-negative integers; Gcd(0, 0) == 0. */
  function Gcd(a: nat, b: nat): nat
    decreases b
  {
    if b == 0 then a else Gcd(b, a % b)
  }

  /** Python's `math.gcd` on two (possibly negative) integers. */
  function MathGcd(a: int, b: int): (g: nat)
    ensures g == Gcd(Abs(a), Abs(b))
    ensures b != 0 ==> g > 0 && a % g == 0 && b % g == 0
  {
    SignedGcdDivides(a, b);
    Gcd(Abs(a), Abs(b))
  }

  lemma SignedGcdDivides(a: int, b: int)
    ensures b != 0 ==> Gcd(Abs(a), Abs(b)) > 0
    ensures b != 0 ==> Divides(Gcd(Abs(a), Abs(b)), a) && Divides(Gcd(Abs(a), Abs(b)), b)
  {
    if b != 0 {
      GcdDivides(Abs(a), Abs(b));
      SignedDivides(a, Gcd(Abs(a), Abs(b)));
      SignedDivides(b, Gcd(Abs(a), Abs(b)));
    }
  }

  lemma AbsMul(x: int, y: int)
    ensures Abs(x * y) == Abs(x) * Abs(y)
  {
    if x < 0 && y >= 0 {
      assert x * y == -((-x) * y);
    } else if x >= 0 && y < 0 {
      assert x * y == -(x * (-y));
    }
  }

  /** Cancel a non-zero factor. */
  lemma MulCancel(x: int, y: int, m: int)
    requires m != 0 && x * m == y * m
    ensures x == y
  {
    assert (x - y) * m == 0;
  }

  /** Two pairs in the same ratio as n/d are in the same ratio as each other. */
  lemma CrossTransfer(a: int, b: int, c: int, e: int, n: int, d: int)
    requires d != 0 && a * d == b * n && c * d == e * n
    ensures a * e == b * c
  {
    calc {
      (a * e) * d;
      (a * d) * e;
      (b * n) * e;
      b * (e * n);
      b * (c * d);
      (b * c) * d;
    }
    MulCancel(a * e, b * c, d);
  }

  /** `c` divides `a` (for a positive `c`). */
  predicate Divides(c: int, a: int)
  {
    c > 0 && a % c == 0
  }

  /** Euclidean division is determined by its defining equation. */
  lemma DivModUnique(x: int, m: int, q: int, r: int)
    requires m > 0 && 0 <= r < m && x == m * q + r
    ensures x / m == q && x % m == r
  {
    var q', r' := x / m, x % m;
    assert x == m * q' + r';
    if q' < q {
      MulMonotone(m, q' + 1, q);
    } else if q < q' {
      MulMonotone(m, q + 1, q');
    }
  }

  lemma MulMonotone(m: int, a: int, b: int)
    requires m >= 0 && a <= b
    ensures m * a <= m * b
  {
    assert m * b - m * a == m * (b - a);
  }

  lemma DivExact(a: int, c: int)
    requires Divides(c, a)
    ensures a == (a / c) * c
  {
  }

  lemma MultipleDivides(c: int, k: int)
    requires c > 0
    ensures Divides(c, c * k) && (c * k) / c == k
  {
    DivModUnique(c * k, c, k, 0);
  }

  /** A divisor of |a| divides a, with the quotient carrying a's sign. */
  lemma SignedDivides(a: int, c: int)
    requires Divides(c, Abs(a))
    ensures Divides(c, a) && Abs(a / c) == Abs(a) / c
  {
    var k := Abs(a) / c;
    assert Abs(a) == c * k;
    if a < 0 {
      DivModUnique(a, c, -k, 0);
    } else {
      DivModUnique(a, c, k, 0);
    }
  }

  lemma DividesLinear(c: int, a: int, b: int, q: int)
    requires Divides(c, a) && Divides(c, b)
    ensures Divides(c, a * q + b) && Divides(c, a - b * q)
  {
    var x, y := a / c, b / c;
    assert a == c * x && b == c * y;
    assert a * q + b == c * (x * q + y);
    assert a - b * q == c * (x - y * q);
    MultipleDivides(c, x * q + y);
    MultipleDivides(c, x - y * q);
  }

  /** A positive multiple of c is at least c. */
  lemma DividesBound(c: int, a: int)
    requires Divides(c, a) && a > 0
    ensures c <= a
  {
    var k := a / c;
    assert a == c * k;
    if k < 1 {
      MulMonotone(c, k, 0);
    }
    MulMonotone(c, 1, k);
  }

  lemma GcdPositive(a: nat, b: nat)
    requires a > 0 || b > 0
    ensures Gcd(a, b) > 0
    decreases b
  {
    if b > 0 {
      GcdPositive(b, a % b);
    }
  }

  /** Gcd is a common divisor. */
  lemma {:induction false} GcdDivides(a: nat, b: nat)
    requires a > 0 || b > 0
    ensures Gcd(a, b) > 0 && Divides(Gcd(a, b), a) && Divides(Gcd(a, b), b)
    decreases b
  {
    if b == 0 {
      MultipleDivides(a, 1);
      MultipleDivides(a, 0);
    } else {
      var g := Gcd(b, a % b);
      GcdDivides(b, a % b);
      assert a == b * (a / b) + a % b;
      DividesLinear(g, b, a % b, a / b);
    }
  }

  /** Every common divisor divides Gcd. */
  lemma {:induction false} GcdGreatest(a: nat, b: nat, c: int)
    requires Divides(c, a) && Divides(c, b)
    ensures Divides(c, Gcd(a, b))
    decreases b
  {
    if b != 0 {
      assert a % b == a - b * (a / b);
      DividesLinear(c, a, b, a / b);
      GcdGreatest(b, a % b, c);
    }
  }

  lemma GcdZero(b: nat)
    ensures Gcd(0, b) == b
  {
    if b != 0 {
      assert 0 % b == 0;
    }
  }

  lemma GcdCommutes(a: nat, b: nat)
    ensures Gcd(a, b) == Gcd(b, a)
  {
    if a < b {
      DivModUnique(a, b, 0, a);
    } else if b < a {
      if a > 0 {
        DivModUnique(b, a, 0, b);
      }
    }
  }

  /** Scaling both arguments scales the gcd. */
  lemma {:induction false} GcdScale(a: nat, b: nat, k: nat)
    requires k > 0
    ensures Gcd(a * k, b * k) == Gcd(a, b) * k
    decreases b
  {
    if b != 0 {
      var q, r := a / b, a % b;
      assert a * k == (b * k) * q + r * k;
      assert r * k < b * k;
      DivModUnique(a * k, b * k, q, r * k);
      GcdScale(b, r, k);
    }
  }

  /** Dividing both arguments by their gcd leaves coprime quotients. */
  lemma CoprimeQuotients(x: nat, y: nat, g: nat)
    requires g > 0 && Gcd(x * g, y * g) == g
    ensures Gcd(x, y) == 1
  {
    GcdScale(x, y, g);
    UnitFactor(Gcd(x, y), g);
  }

  lemma UnitFactor(h: int, g: int)
    requires g > 0 && h * g == g
    ensures h == 1
  {
    if h < 1 {
      MulMonotone(g, h, 0);
    } else if h > 1 {
      MulMonotone(g, 2, h);
    }
  }

  /** Euclid's lemma: if b divides a * d and a is coprime to b, b divides d. */
  lemma CoprimeDivides(a: nat, b: nat, d: nat)
    requires b > 0 && Gcd(a, b) == 1 && Divides(b, a * d)
    ensures Divides(b, d)
  {
    if d == 0 {
      MultipleDivides(b, 0);
    } else {
      GcdScale(a, b, d);
      MultipleDivides(b, d);
      assert Divides(b, b * d);
      GcdGreatest(a * d, b * d, b);
    }
  }

  /** Numbers that divide each other are equal. */
  lemma MutualDivides(a: nat, b: nat)
    requires a > 0 && b > 0 && Divides(a, b) && Divides(b, a)
    ensures a == b
  {
    DividesBound(a, b);
    DividesBound(b, a);
  }
}
