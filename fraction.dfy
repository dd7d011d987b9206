/** The `Fraction` value type of fraction.py: an integer numerator over a
    positive denominator, kept in lowest terms by the constructor, and never
    changed afterwards. */
module Fractions {
  import opened Numbers

  datatype Frac = Frac(num: int, den: int)

  /** The invariant every constructed Fraction satisfies: a positive
      denominator and a numerator coprime to it. */
  predicate Valid(f: Frac)
  {
    f.den > 0 && Gcd(Abs(f.num), f.den) == 1
  }

  /** The rational number a pair denotes. */
  ghost function Value(f: Frac): real
    requires f.den != 0
  {
    f.num as real / f.den as real
  }

  /** The exceptions the code raises, and `Unsupported` for the
      `NotImplemented` sentinel an operator returns for a foreign operand. */
  datatype Error = ValueError | ZeroDivisionError | TypeError | Unsupported

  datatype Result<T> = Ok(value: T) | Err(error: Error)

  /** An argument or operand: a Python int, a Fraction, or any other object.
      Float operands are not part of this model. */
  datatype Operand = IntOp(k: int) | FracOp(f: Frac) | Other

  predicate OperandValid(o: Operand)
  {
    o.FracOp? ==> Valid(o.f)
  }

  ghost function OperandValue(o: Operand): real
    requires !o.Other? && OperandValid(o)
  {
    if o.IntOp? then o.k as real else Value(o.f)
  }

  /** Equal cross products mean equal ratios. */
  lemma SameRatio(p: int, q: int, n: int, d: int)
    requires q != 0 && d != 0 && p * d == q * n
    ensures p as real / q as real == n as real / d as real
  {
    assert (p * d) as real == p as real * d as real;
    assert (q * n) as real == q as real * n as real;
  }

  /** Lines 49-53 of the constructor: divide both parts by `math.gcd` and
      move the sign to the numerator. The result is in canonical form and
      denotes the same rational as n/d. */
  function Normalize(n: int, d: int): (f: Frac)
    requires d != 0
    ensures Valid(f)
    ensures f.num * d == f.den * n
    ensures n == 0 ==> f == Frac(0, 1)
  {
    var g := MathGcd(n, d);
    NormalizeSteps(n, d, g);
    var n1, d1 := FloorDiv(n, g), FloorDiv(d, g);
    SignSwap(n, d, g, n1, d1);
    if d1 < 0 then Frac(-n1, -d1) else Frac(n1, d1)
  }

  /** Moving the sign to the numerator keeps the pair coprime and its ratio. */
  lemma SignSwap(n: int, d: int, g: int, n1: int, d1: int)
    requires g > 0 && n1 * g == n && d1 * g == d && d1 != 0
    requires Gcd(Abs(n1), Abs(d1)) == 1 && (n == 0 ==> Abs(d1) == 1)
    ensures var f := if d1 < 0 then Frac(-n1, -d1) else Frac(n1, d1);
      Valid(f) && f.num * d == f.den * n && (n == 0 ==> f == Frac(0, 1))
  {
    CrossScaled(n1, d1, g);
    if n == 0 {
      assert n1 == 0;
    }
    if d1 < 0 {
      assert Abs(-n1) == Abs(n1) && -d1 == Abs(d1);
      assert (-n1) * d == (-d1) * n;
    }
  }

  lemma CrossScaled(x: int, y: int, g: int)
    ensures x * (y * g) == y * (x * g)
  {
  }

  lemma NormalizeSteps(n: int, d: int, g: nat)
    requires d != 0 && g == MathGcd(n, d)
    ensures g > 0 && d / g != 0
    ensures (n / g) * g == n && (d / g) * g == d
    ensures Gcd(Abs(n / g), Abs(d / g)) == 1
    ensures n == 0 ==> Abs(d / g) == 1
  {
    GcdDivides(Abs(n), Abs(d));
    assert Abs(n / g) == Abs(n) / g && Abs(d / g) == Abs(d) / g by {
      SignedDivides(n, g);
      SignedDivides(d, g);
    }
    assert Gcd(Abs(n) / g, Abs(d) / g) == 1 by {
      DivExact(Abs(n), g);
      DivExact(Abs(d), g);
      CoprimeQuotients(Abs(n) / g, Abs(d) / g, g);
    }
    DivExact(n, g);
    DivExact(d, g);
    if n == 0 {
      GcdZero(Abs(d / g));
    }
  }

  /** A canonical pair is determined by the rational it denotes: two valid
      pairs with equal cross products are identical. */
  lemma Canonical(f: Frac, g: Frac)
    requires Valid(f) && Valid(g) && f.num * g.den == f.den * g.num
    ensures f == g
  {
    var a, b, c, d := Abs(f.num), f.den, Abs(g.num), g.den;
    assert a * d == b * c by {
      AbsMul(f.num, g.den);
      AbsMul(f.den, g.num);
    }
    assert Divides(b, d) by {
      MultipleDivides(b, c);
      CoprimeDivides(a, b, d);
    }
    assert Divides(d, b) by {
      assert c * b == d * a;
      MultipleDivides(d, a);
      CoprimeDivides(c, d, b);
    }
    MutualDivides(b, d);
    MulCancel(f.num, g.num, b);
  }

  /** Normalize depends only on the rational n/d. */
  lemma NormalizeUnique(n: int, d: int, f: Frac)
    requires d != 0 && Valid(f) && f.num * d == f.den * n
    ensures Normalize(n, d) == f
  {
    var h := Normalize(n, d);
    CrossTransfer(h.num, h.den, f.num, f.den, n, d);
    Canonical(h, f);
  }

  /** Normalizing a pair already in canonical form gives it back. */
  lemma NormalizeCanonical(f: Frac)
    requires Valid(f)
    ensures Normalize(f.num, f.den) == f
  {
    NormalizeUnique(f.num, f.den, f);
  }

  lemma NormalizeValue(n: int, d: int)
    requires d != 0
    ensures Value(Normalize(n, d)) == n as real / d as real
  {
    var f := Normalize(n, d);
    SameRatio(f.num, f.den, n, d);
  }

  /** An integer k is stored as k/1. */
  lemma IntegerCanonical(k: int)
    ensures Valid(Frac(k, 1)) && Normalize(k, 1) == Frac(k, 1)
  {
    assert Abs(k) % 1 == 0;
    assert Gcd(Abs(k), 1) == Gcd(1, 0);
    NormalizeUnique(k, 1, Frac(k, 1));
  }

  /** Zero has the single canonical form 0/1. */
  lemma ZeroCanonical(f: Frac)
    requires Valid(f)
    ensures f.num == 0 <==> f == Frac(0, 1)
  {
    if f.num == 0 {
      GcdZero(f.den);
    }
  }

  /** Lines 22-46 of the constructor: the integer pair that the arguments
      resolve to before reduction, `(a/b) / (c/d)` cross-multiplied. */
  function Combine(n: Operand, d: Operand): (int, int)
    requires !n.Other? && !d.Other?
  {
    if n.FracOp? then
      if d.FracOp? then (n.f.num * d.f.den, n.f.den * d.f.num)
      else (n.f.num, n.f.den * d.k)
    else if d.FracOp? then (n.k * d.f.den, d.f.num)
    else (n.k, d.k)
  }

  /** `Fraction(n, d)`: TypeError for a foreign argument, ValueError when the
      resolved denominator is zero, otherwise the normalized quotient. */
  function New(n: Operand, d: Operand): (r: Result<Frac>)
    ensures n.Other? || d.Other? ==> r == Err(TypeError)
    ensures !n.Other? && !d.Other? && r.Err? ==> r.error == ValueError
    ensures r.Ok? ==> Valid(r.value)
  {
    if n.Other? || d.Other? then Err(TypeError)
    else
      var (p, q) := Combine(n, d);
      if q == 0 then Err(ValueError) else Ok(Normalize(p, q))
  }

  /** The constructor divides its first argument by its second: it fails
      exactly when the second is zero-valued, and otherwise yields the
      canonical form of the quotient. */
  lemma NewQuotient(n: Operand, d: Operand)
    requires !n.Other? && !d.Other? && OperandValid(n) && OperandValid(d)
    ensures New(n, d).Err? <==> OperandValue(d) == 0.0
    ensures New(n, d).Ok? ==> Value(New(n, d).value) == OperandValue(n) / OperandValue(d)
  {
    var pq := Combine(n, d);
    CombineRatio(n, d);
    if pq.1 != 0 {
      NormalizeValue(pq.0, pq.1);
    }
  }

  /** The resolved pair is zero-denominated exactly when the second
      argument is zero, and otherwise is the quotient of the two. */
  lemma CombineRatio(n: Operand, d: Operand)
    requires !n.Other? && !d.Other? && OperandValid(n) && OperandValid(d)
    ensures Combine(n, d).1 == 0 <==> OperandValue(d) == 0.0
    ensures Combine(n, d).1 != 0 ==>
      Combine(n, d).0 as real / Combine(n, d).1 as real == OperandValue(n) / OperandValue(d)
  {
    if n.FracOp? && d.FracOp? {
      if d.f.num != 0 {
        QuotientOfRatios(n.f.num, n.f.den, d.f.num, d.f.den);
      }
    } else if n.FracOp? {
      if d.k != 0 {
        QuotientOfRatios(n.f.num, n.f.den, d.k, 1);
      }
    } else if d.FracOp? {
      if d.f.num != 0 {
        QuotientOfRatios(n.k, 1, d.f.num, d.f.den);
      }
    }
  }

  lemma QuotientOfRatios(a: int, b: int, c: int, d: int)
    requires b > 0 && d > 0 && c != 0
    ensures (a * d) as real / (b * c) as real == (a as real / b as real) / (c as real / d as real)
  {
    assert (a * d) as real == a as real * d as real;
    assert (b * c) as real == b as real * c as real;
  }

  /** `Fraction(n, d)` on two ints, as every arithmetic operator calls it. */
  function FromInts(n: int, d: int): (r: Result<Frac>)
    ensures d == 0 <==> r == Err(ValueError)
    ensures d != 0 ==> r == Ok(Normalize(n, d))
  {
    New(IntOp(n), IntOp(d))
  }

  /** The constructor as fraction.py writes it: the slots are assigned
      branch by branch, then divided by their gcd and sign-corrected in
      place. It computes exactly New. */
  method Construct(n: Operand, d: Operand) returns (r: Result<Frac>)
    ensures r == New(n, d)
  {
    if n.Other? || d.Other? {
      return Err(TypeError);
    }
    var num: int, den: int;
    if n.FracOp? {
      if d.FracOp? {
        num := n.f.num * d.f.den;
        den := n.f.den * d.f.num;
      } else {
        num := n.f.num;
        den := n.f.den * d.k;
      }
    } else if d.FracOp? {
      num := n.k * d.f.den;
      den := d.f.num;
    } else {
      num := n.k;
      den := d.k;
    }
    if den == 0 {
      return Err(ValueError);
    }
    var gc := MathGcd(num, den);
    num := FloorDiv(num, gc);
    den := FloorDiv(den, gc);
    if den < 0 {
      num, den := -num, -den;
    }
    return Ok(Frac(num, den));
  }

  function Pow10(e: nat): (p: nat)
    ensures p > 0
  {
    if e == 0 then 1 else 10 * Pow10(e - 1)
  }

  /** `from_float(value, precision)` after rounding: `scaled` stands for the
      rounded integer `value * 10**precision`. The precision must lie in
      [0, 8]; the result is scaled / 10**precision in canonical form. */
  function FromFloatScaled(scaled: int, precision: int): (r: Result<Frac>)
    ensures !(0 <= precision <= 8) <==> r == Err(ValueError)
    ensures 0 <= precision <= 8 ==> r == Ok(Normalize(scaled, Pow10(precision)))
  {
    if !(0 <= precision <= 8) then Err(ValueError)
    else New(IntOp(scaled), IntOp(Pow10(precision)))
  }
}
