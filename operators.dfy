/** The operators and derived operations of fraction.py's `Fraction` on int
    and Fraction operands. Every operation that builds a Fraction goes
    through the constructor, as the source does; on valid operands the
    constructor never fails, so each result is the canonical form of the
    exact rational result. */
module Operators {
  import opened Numbers
  import opened Fractions

  // Rational identities behind the operators' integer formulas.

  lemma RatioSum(p: int, q: int, r: int, s: int)
    requires q != 0 && s != 0
    ensures (p * s + q * r) as real / (q * s) as real == p as real / q as real + r as real / s as real
  {
    assert (p * s + q * r) as real == p as real * s as real + q as real * r as real;
    assert (q * s) as real == q as real * s as real;
  }

  lemma RatioDifference(p: int, q: int, r: int, s: int)
    requires q != 0 && s != 0
    ensures (p * s - q * r) as real / (q * s) as real == p as real / q as real - r as real / s as real
  {
    assert (p * s - q * r) as real == p as real * s as real - q as real * r as real;
    assert (q * s) as real == q as real * s as real;
  }

  lemma RatioProduct(p: int, q: int, r: int, s: int)
    requires q != 0 && s != 0
    ensures (p * r) as real / (q * s) as real == (p as real / q as real) * (r as real / s as real)
  {
    assert (p * r) as real == p as real * r as real;
    assert (q * s) as real == q as real * s as real;
  }

  lemma RatioPlusInt(p: int, q: int, k: int)
    requires q != 0
    ensures (q * k + p) as real / q as real == p as real / q as real + k as real
  {
    assert (q * k + p) as real == q as real * k as real + p as real;
  }

  lemma RatioMinusInt(p: int, q: int, k: int)
    requires q != 0
    ensures (p - q * k) as real / q as real == p as real / q as real - k as real
  {
    assert (p - q * k) as real == p as real - q as real * k as real;
  }

  lemma RatioTimesInt(p: int, q: int, k: int)
    requires q != 0
    ensures (k * p) as real / q as real == (p as real / q as real) * k as real
  {
    assert (k * p) as real == k as real * p as real;
  }

  lemma RatioByInt(p: int, q: int, k: int)
    requires q != 0 && k != 0
    ensures p as real / (k * q) as real == (p as real / q as real) / k as real
  {
    assert (k * q) as real == k as real * q as real;
  }

  lemma IntByRatio(k: int, p: int, q: int)
    requires q != 0 && p != 0
    ensures (k * q) as real / p as real == k as real / (p as real / q as real)
  {
    assert (k * q) as real == k as real * q as real;
  }

  /** For positive denominators, cross products order the ratios. */
  lemma RatioOrder(p: int, q: int, r: int, s: int)
    requires q > 0 && s > 0
    ensures p * s < q * r <==> p as real / q as real < r as real / s as real
    ensures p * s == q * r <==> p as real / q as real == r as real / s as real
  {
    var x, y := p as real / q as real, r as real / s as real;
    assert p as real == x * q as real && r as real == y * s as real;
    assert (p * s) as real == x * (q as real * s as real);
    assert (q * r) as real == y * (q as real * s as real);
  }

  /** The constructor called on (n, d) yields the canonical form of v = n/d. */
  ghost predicate Yields(n: int, d: int, v: real)
  {
    d != 0 && FromInts(n, d).Ok? && Valid(FromInts(n, d).value) && Value(FromInts(n, d).value) == v
  }

  lemma FromIntsValue(n: int, d: int, v: real)
    requires d != 0 && n as real / d as real == v
    ensures Yields(n, d, v)
  {
    NormalizeValue(n, d);
  }

  lemma AddInt(a: Frac, k: int)
    requires Valid(a)
    ensures Yields(a.den * k + a.num, a.den, Value(a) + k as real)
  {
    RatioPlusInt(a.num, a.den, k);
    FromIntsValue(a.den * k + a.num, a.den, Value(a) + k as real);
  }

  lemma AddFrac(a: Frac, b: Frac)
    requires Valid(a) && Valid(b)
    ensures Yields(a.num * b.den + a.den * b.num, a.den * b.den, Value(a) + Value(b))
  {
    RatioSum(a.num, a.den, b.num, b.den);
    FromIntsValue(a.num * b.den + a.den * b.num, a.den * b.den, Value(a) + Value(b));
  }

  lemma SubInt(a: Frac, k: int)
    requires Valid(a)
    ensures Yields(a.num - a.den * k, a.den, Value(a) - k as real)
  {
    RatioMinusInt(a.num, a.den, k);
    FromIntsValue(a.num - a.den * k, a.den, Value(a) - k as real);
  }

  lemma SubFrac(a: Frac, b: Frac)
    requires Valid(a) && Valid(b)
    ensures Yields(a.num * b.den - a.den * b.num, a.den * b.den, Value(a) - Value(b))
  {
    RatioDifference(a.num, a.den, b.num, b.den);
    FromIntsValue(a.num * b.den - a.den * b.num, a.den * b.den, Value(a) - Value(b));
  }

  lemma DivInt(a: Frac, k: int)
    requires Valid(a) && k != 0
    ensures Yields(a.num, k * a.den, Value(a) / k as real)
  {
    RatioByInt(a.num, a.den, k);
    FromIntsValue(a.num, k * a.den, Value(a) / k as real);
  }

  lemma DivFrac(a: Frac, b: Frac)
    requires Valid(a) && Valid(b) && b.num != 0
    ensures Yields(a.num * b.den, a.den * b.num, Value(a) / Value(b))
  {
    QuotientOfRatios(a.num, a.den, b.num, b.den);
    FromIntsValue(a.num * b.den, a.den * b.num, Value(a) / Value(b));
  }

  lemma IntDiv(k: int, a: Frac)
    requires Valid(a) && a.num != 0
    ensures Yields(k * a.den, a.num, k as real / Value(a))
  {
    IntByRatio(k, a.num, a.den);
    FromIntsValue(k * a.den, a.num, k as real / Value(a));
  }

  lemma ZeroValue(f: Frac)
    requires f.den > 0
    ensures Value(f) == 0.0 <==> f.num == 0
  {
  }

  /** `__add__` (and `__radd__`, which returns `self + other`). */
  function Add(a: Frac, o: Operand): (r: Result<Frac>)
    requires Valid(a) && OperandValid(o)
    ensures o.Other? <==> r == Err(Unsupported)
    ensures !o.Other? ==> r.Ok? && Valid(r.value) && Value(r.value) == Value(a) + OperandValue(o)
  {
    match o
    case IntOp(k) =>
      AddInt(a, k);
      FromInts(a.den * k + a.num, a.den)
    case FracOp(b) =>
      AddFrac(a, b);
      FromInts(a.num * b.den + a.den * b.num, a.den * b.den)
    case Other => Err(Unsupported)
  }

  /** `k + f` with the Fraction on the right, or a direct call `f.__radd__(g)`. */
  function RAdd(a: Frac, o: Operand): (r: Result<Frac>)
    requires Valid(a) && OperandValid(o)
    ensures o.Other? <==> r == Err(Unsupported)
    ensures !o.Other? ==> r.Ok? && Valid(r.value) && Value(r.value) == OperandValue(o) + Value(a)
  {
    Add(a, o)
  }

  /** `__sub__`. */
  function Sub(a: Frac, o: Operand): (r: Result<Frac>)
    requires Valid(a) && OperandValid(o)
    ensures o.Other? <==> r == Err(Unsupported)
    ensures !o.Other? ==> r.Ok? && Valid(r.value) && Value(r.value) == Value(a) - OperandValue(o)
  {
    match o
    case IntOp(k) =>
      SubInt(a, k);
      FromInts(a.num - a.den * k, a.den)
    case FracOp(b) =>
      SubFrac(a, b);
      FromInts(a.num * b.den - a.den * b.num, a.den * b.den)
    case Other => Err(Unsupported)
  }

  lemma NegCanonical(f: Frac)
    requires Valid(f)
    ensures Valid(Frac(-f.num, f.den)) && Normalize(-f.num, f.den) == Frac(-f.num, f.den)
    ensures Value(Frac(-f.num, f.den)) == -Value(f)
  {
    var g := Frac(-f.num, f.den);
    assert Abs(g.num) == Abs(f.num);
    assert Valid(g);
    NormalizeUnique(-f.num, f.den, g);
    NegValue(f.num, f.den);
  }

  lemma NegValue(n: int, d: int)
    requires d != 0
    ensures (-n) as real / d as real == -(n as real / d as real)
  {
  }

  /** `__neg__`: the negated numerator is still coprime to the denominator,
      so the constructor returns the pair unchanged. */
  function Neg(f: Frac): (r: Result<Frac>)
    requires Valid(f)
    ensures r == Ok(Frac(-f.num, f.den))
    ensures Valid(r.value) && Value(r.value) == -Value(f)
  {
    NegCanonical(f);
    FromInts(-f.num, f.den)
  }

  /** `__rsub__`: `-(self - other)`. */
  function RSub(a: Frac, o: Operand): (r: Result<Frac>)
    requires Valid(a) && OperandValid(o)
    ensures o.Other? <==> r == Err(Unsupported)
    ensures !o.Other? ==> r.Ok? && Valid(r.value) && Value(r.value) == OperandValue(o) - Value(a)
  {
    match Sub(a, o)
    case Ok(f) => Neg(f)
    case Err(e) => Err(e)
  }

  /** `__mul__` (and `__rmul__`, which returns `self * other`). */
  function Mul(a: Frac, o: Operand): (r: Result<Frac>)
    requires Valid(a) && OperandValid(o)
    ensures o.Other? <==> r == Err(Unsupported)
    ensures !o.Other? ==> r.Ok? && Valid(r.value) && Value(r.value) == Value(a) * OperandValue(o)
  {
    if o.Other? then Err(Unsupported)
    else
      MulValue(a, o);
      FromInts(MulPair(a, o).0, MulPair(a, o).1)
  }

  /** The pair `__mul__` passes to the constructor. */
  function MulPair(a: Frac, o: Operand): (int, int)
    requires !o.Other?
  {
    match o
    case IntOp(k) => (k * a.num, a.den)
    case FracOp(b) => (a.num * b.num, a.den * b.den)
  }

  lemma MulValue(a: Frac, o: Operand)
    requires Valid(a) && OperandValid(o) && !o.Other?
    ensures Yields(MulPair(a, o).0, MulPair(a, o).1, Value(a) * OperandValue(o))
  {
    match o {
      case IntOp(k) => RatioTimesInt(a.num, a.den, k);
      case FracOp(b) => RatioProduct(a.num, a.den, b.num, b.den);
    }
    FromIntsValue(MulPair(a, o).0, MulPair(a, o).1, Value(a) * OperandValue(o));
  }

  /** `k * f` with the Fraction on the right, or a direct call `f.__rmul__(g)`. */
  function RMul(a: Frac, o: Operand): (r: Result<Frac>)
    requires Valid(a) && OperandValid(o)
    ensures o.Other? <==> r == Err(Unsupported)
    ensures !o.Other? ==> r.Ok? && Valid(r.value) && Value(r.value) == OperandValue(o) * Value(a)
  {
    if o.Other? then Mul(a, o)
    else
      MulValue(a, o);
      assert Value(a) * OperandValue(o) == OperandValue(o) * Value(a);
      Mul(a, o)
  }

  /** `__truediv__`: a zero divisor, int or Fraction, raises
      ZeroDivisionError before the constructor is called. */
  function Div(a: Frac, o: Operand): (r: Result<Frac>)
    requires Valid(a) && OperandValid(o)
    ensures o.Other? <==> r == Err(Unsupported)
    ensures !o.Other? && OperandValue(o) == 0.0 <==> r == Err(ZeroDivisionError)
    ensures !o.Other? && OperandValue(o) != 0.0 ==>
      r.Ok? && Valid(r.value) && Value(r.value) == Value(a) / OperandValue(o)
  {
    match o
    case IntOp(k) =>
      if k == 0 then Err(ZeroDivisionError)
      else
        DivInt(a, k);
        FromInts(a.num, k * a.den)
    case FracOp(b) =>
      ZeroValue(b);
      if b.num == 0 then Err(ZeroDivisionError)
      else
        DivFrac(a, b);
        FromInts(a.num * b.den, a.den * b.num)
    case Other => Err(Unsupported)
  }

  /** `__rtruediv__`: `k / f`. A zero Fraction raises ZeroDivisionError
      whatever the other operand is; only an int operand is handled. */
  function RDiv(a: Frac, o: Operand): (r: Result<Frac>)
    requires Valid(a) && OperandValid(o)
    ensures a.num == 0 <==> r == Err(ZeroDivisionError)
    ensures a.num != 0 && !o.IntOp? ==> r == Err(Unsupported)
    ensures a.num != 0 && o.IntOp? ==>
      r.Ok? && Valid(r.value) && Value(r.value) == o.k as real / Value(a)
  {
    if a.num == 0 then Err(ZeroDivisionError)
    else match o
      case IntOp(k) =>
        IntDiv(k, a);
        FromInts(k * a.den, a.num)
      case _ => Err(Unsupported)
  }

  // Comparisons between two Fractions: exact cross-multiplication.

  /** `__lt__`. */
  function Lt(a: Frac, b: Frac): (r: bool)
    requires Valid(a) && Valid(b)
    ensures r <==> Value(a) < Value(b)
  {
    RatioOrder(a.num, a.den, b.num, b.den);
    a.num * b.den < a.den * b.num
  }

  /** `__gt__`. */
  function Gt(a: Frac, b: Frac): (r: bool)
    requires Valid(a) && Valid(b)
    ensures r <==> Value(a) > Value(b)
  {
    RatioOrder(b.num, b.den, a.num, a.den);
    a.num * b.den > a.den * b.num
  }

  /** `__le__`. */
  function Le(a: Frac, b: Frac): (r: bool)
    requires Valid(a) && Valid(b)
    ensures r <==> Value(a) <= Value(b)
  {
    RatioOrder(a.num, a.den, b.num, b.den);
    a.num * b.den <= a.den * b.num
  }

  /** `__ge__`. */
  function Ge(a: Frac, b: Frac): (r: bool)
    requires Valid(a) && Valid(b)
    ensures r <==> Value(a) >= Value(b)
  {
    RatioOrder(b.num, b.den, a.num, a.den);
    a.num * b.den >= a.den * b.num
  }

  /** `__eq__`: on canonical pairs, equal cross products mean identical
      pairs, so numeric equality is structural equality. */
  function Eq(a: Frac, b: Frac): (r: bool)
    requires Valid(a) && Valid(b)
    ensures r <==> a == b
    ensures r <==> Value(a) == Value(b)
  {
    RatioOrder(a.num, a.den, b.num, b.den);
    CrossEqual(a, b);
    a.num * b.den == a.den * b.num
  }

  lemma CrossEqual(a: Frac, b: Frac)
    requires Valid(a) && Valid(b)
    ensures a.num * b.den == a.den * b.num <==> a == b
  {
    if a.num * b.den == a.den * b.num {
      Canonical(a, b);
    }
  }

  /** `__ne__`. */
  function Ne(a: Frac, b: Frac): (r: bool)
    requires Valid(a) && Valid(b)
    ensures r <==> a != b
  {
    CrossEqual(a, b);
    a.num * b.den != a.den * b.num
  }

  /** The six comparisons agree with each other. */
  lemma ComparisonsAgree(a: Frac, b: Frac)
    requires Valid(a) && Valid(b)
    ensures Ne(a, b) == !Eq(a, b)
    ensures Le(a, b) == (Lt(a, b) || Eq(a, b))
    ensures Ge(a, b) == (Gt(a, b) || Eq(a, b))
    ensures Gt(a, b) == Lt(b, a)
    ensures Lt(a, b) || Eq(a, b) || Gt(a, b)
  {
  }

  /** `<=` is antisymmetric on canonical pairs. */
  lemma LeAntisymmetric(a: Frac, b: Frac)
    requires Valid(a) && Valid(b) && Le(a, b) && Le(b, a)
    ensures a == b
  {
    assert Eq(a, b);
  }

  // Unary operations and conversions.

  /** `__pos__`: an equal copy. */
  function Pos(f: Frac): (r: Result<Frac>)
    requires Valid(f)
    ensures r == Ok(f)
  {
    NormalizeCanonical(f);
    FromInts(f.num, f.den)
  }

  /** `__abs__`. */
  function Absolute(f: Frac): (r: Result<Frac>)
    requires Valid(f)
    ensures r == Ok(Frac(Abs(f.num), f.den))
    ensures Valid(r.value) && Value(r.value) >= 0.0
    ensures Value(r.value) == if Value(f) < 0.0 then -Value(f) else Value(f)
  {
    AbsCanonical(f);
    FromInts(Abs(f.num), Abs(f.den))
  }

  lemma AbsCanonical(f: Frac)
    requires Valid(f)
    ensures Valid(Frac(Abs(f.num), f.den)) && Normalize(Abs(f.num), Abs(f.den)) == Frac(Abs(f.num), f.den)
    ensures Value(Frac(Abs(f.num), f.den)) >= 0.0
    ensures Value(Frac(Abs(f.num), f.den)) == if Value(f) < 0.0 then -Value(f) else Value(f)
  {
    var g := Frac(Abs(f.num), f.den);
    assert Abs(g.num) == Abs(f.num) && Abs(f.den) == f.den;
    assert Valid(g);
    NormalizeUnique(Abs(f.num), Abs(f.den), g);
    if f.num < 0 {
      NegValue(f.num, f.den);
    }
  }

  /** `__int__`: truncation toward zero with floor divisions only. */
  function ToInt(f: Frac): (r: int)
    requires Valid(f)
    ensures f.num >= 0 ==> 0 <= r && r * f.den <= f.num < (r + 1) * f.den
    ensures f.num < 0 ==> r <= 0 && (-r) * f.den <= -f.num < (-r + 1) * f.den
  {
    var q := if f.num < 0 then FloorDiv(-f.num, f.den) else FloorDiv(f.num, f.den);
    FloorBounds(Abs(f.num), f.den, q);
    if f.num < 0 then -q else q
  }

  /** The floor of a non-negative ratio is non-negative. */
  lemma FloorBounds(x: int, d: int, q: int)
    requires d > 0 && x >= 0 && q * d <= x < q * d + d
    ensures 0 <= q && q * d <= x < (q + 1) * d
  {
    if q < 0 {
      MulMonotone(d, q + 1, 0);
    }
  }

  /** `__bool__`: only zero, whose canonical form is 0/1, is false. */
  function Truth(f: Frac): (r: bool)
    requires Valid(f)
    ensures r <==> f != Frac(0, 1)
    ensures r <==> Value(f) != 0.0
  {
    ZeroCanonical(f);
    f.num != 0
  }

  /** `reciprocal()`: ValueError for zero, otherwise the swapped pair with
      its sign moved to the numerator. */
  function Reciprocal(f: Frac): (r: Result<Frac>)
    requires Valid(f)
    ensures f.num == 0 <==> r == Err(ValueError)
    ensures f.num > 0 ==> r == Ok(Frac(f.den, f.num))
    ensures f.num < 0 ==> r == Ok(Frac(-f.den, -f.num))
    ensures r.Ok? ==> Valid(r.value) && Value(r.value) * Value(f) == 1.0
  {
    if f.num == 0 then Err(ValueError)
    else
      ReciprocalCanonical(f);
      FromInts(f.den, f.num)
  }

  lemma ReciprocalCanonical(f: Frac)
    requires Valid(f) && f.num != 0
    ensures var g := if f.num > 0 then Frac(f.den, f.num) else Frac(-f.den, -f.num);
      Valid(g) && Normalize(f.den, f.num) == g && Value(g) * Value(f) == 1.0
  {
    var g := if f.num > 0 then Frac(f.den, f.num) else Frac(-f.den, -f.num);
    assert Valid(g) by {
      GcdCommutes(Abs(f.num), f.den);
    }
    assert g.num * f.num == g.den * f.den;
    NormalizeUnique(f.den, f.num, g);
    UnitProduct(g.num, g.den, f.num, f.den);
  }

  lemma UnitProduct(p: int, q: int, r: int, s: int)
    requires q != 0 && s != 0 && p * r == q * s
    ensures (p as real / q as real) * (r as real / s as real) == 1.0
  {
    RatioProduct(p, q, r, s);
    assert (p * r) as real == (q * s) as real;
  }

  /** Taking the reciprocal twice gives the Fraction back. */
  lemma ReciprocalInvolution(f: Frac)
    requires Valid(f) && f.num != 0
    ensures Reciprocal(f).Ok? && Reciprocal(Reciprocal(f).value) == Ok(f)
  {
  }

  /** `to_tuple()`: the canonical pair, which the constructor rebuilds. */
  function ToTuple(f: Frac): (t: (int, int))
    requires Valid(f)
    ensures t == (f.num, f.den)
    ensures t.1 > 0 && FromInts(t.0, t.1) == Ok(f)
  {
    NormalizeCanonical(f);
    (f.num, f.den)
  }

  /** `is_proper()`: the value lies strictly between -1 and 1. */
  function IsProper(f: Frac): (r: bool)
    requires Valid(f)
    ensures r <==> -1.0 < Value(f) < 1.0
  {
    RatioOrder(f.num, f.den, 1, 1);
    RatioOrder(-1, 1, f.num, f.den);
    Abs(f.num) < Abs(f.den)
  }

  /** `is_improper()`: the complement of `is_proper()`. */
  function IsImproper(f: Frac): (r: bool)
    requires Valid(f)
    ensures r <==> Value(f) <= -1.0 || 1.0 <= Value(f)
  {
    RatioOrder(f.num, f.den, 1, 1);
    RatioOrder(-1, 1, f.num, f.den);
    Abs(f.num) >= Abs(f.den)
  }
}
