# A verified model of `fraction.py`

`fraction.py` defines `Fraction`, an exact rational number. It stores an
integer numerator over a positive denominator in lowest terms. The
constructor accepts ints and Fractions (and floats, which are not modelled
here) as numerator and denominator. It cross-multiplies them, divides by
`math.gcd` and moves the sign to the numerator. Arithmetic and unary
operators rebuild their result through that constructor. Comparisons
cross-multiply. `to_string`, `__str__`/`__repr__` and `from_string` convert
between Fractions and text.

The model has five modules:

- `Numbers` (numbers.dfy) holds the pieces of Python the class relies on:
  `abs`, floor division `//`, and `math.gcd` as Euclid's algorithm. It also
  proves the divisibility facts that normalisation needs.
- `Fractions` (fraction.dfy) holds the value type `Frac` and its invariant
  `Valid` (a positive denominator coprime to the numerator). It models the
  constructor twice: as the function `New`, and as the method `Construct`,
  which assigns the slots branch by branch as the source does and is proved
  equal to `New`. The real number `Value(f)` is the reference meaning
  against which every arithmetic operator, comparison and unary operator
  is proved.
- `Operators` (operators.dfy) holds the arithmetic operators, their
  reflected forms, the six comparisons, the unary operators and the
  conversions.
- `TextForm` (text_form.dfy) holds `to_string`, `__str__`/`__repr__` and
  `from_string`. It includes the parts of `str.strip`, `str.split`,
  `int()` and `'{}'.format` they rely on.
- `Examples` (examples.dfy) states the worked cases of test_fraction.py on
  the model, and two cases of how `strip()` and `int()` treat the
  separator character U+001C differently.

Raised exceptions become `Err(ValueError)`, `Err(ZeroDivisionError)` or
`Err(TypeError)`. An operator that returns `NotImplemented` yields
`Err(Unsupported)`. An operand is `IntOp(k)`, `FracOp(f)` or `Other`, the
last standing for any object of another type.

## Model

| member | source | states |
|---|---|---|
| Numbers.FloorDiv | fraction.py:50-51 | `a // b` is the floor of a/b for either sign of b |
| Numbers.MathGcd | fraction.py:49 | `math.gcd(n, d)` is Euclid's gcd of the absolute values; for d ≠ 0 it is positive and divides both |
| Fractions.Normalize | fraction.py:49-53 | dividing by the gcd and moving the sign gives a valid pair with the same ratio as (n, d); zero becomes 0/1 |
| Fractions.Canonical | fraction.py:49-53 | two valid pairs with equal cross products are identical, so the stored form is unique |
| Fractions.NormalizeUnique | fraction.py:49-53 | normalisation depends only on the rational n/d |
| Fractions.NormalizeCanonical | fraction.py:49-53 | normalising a pair already in lowest terms gives it back unchanged |
| Fractions.NormalizeValue | fraction.py:49-53 | the normalised pair denotes n/d |
| Fractions.IntegerCanonical | fraction.py:361 | an integer k is stored as k/1 |
| Fractions.ZeroCanonical | fraction.py:49-53 | a valid pair has numerator 0 exactly when it is 0/1 |
| Fractions.CombineRatio | fraction.py:22-46 | the resolved pair has a zero denominator exactly when the second argument is zero; otherwise its ratio is the quotient of the arguments |
| Fractions.New | fraction.py:13-53 | a non-int, non-Fraction argument raises TypeError; any other failure is ValueError; a result is always valid |
| Fractions.NewQuotient | fraction.py:13-53 | the constructor fails exactly when the denominator argument is zero; otherwise its value is numerator / denominator |
| Fractions.FromInts | fraction.py:44-53 | on two ints, ValueError exactly when d = 0, otherwise the normalised pair |
| Fractions.Construct | fraction.py:13-53 | the step-by-step constructor computes exactly `New` |
| Fractions.FromFloatScaled | fraction.py:379-387 | precision outside [0, 8] is a ValueError; otherwise the result is the rounded integer over 10**precision in lowest terms |
| Operators.Add | fraction.py:76-88 | int and Fraction operands give the canonical form of the exact sum; any other operand gives NotImplemented |
| Operators.RAdd | fraction.py:90-95 | `k + f` is the exact sum with the operands in that order |
| Operators.Sub | fraction.py:97-109 | the canonical form of the exact difference, or NotImplemented |
| Operators.RSub | fraction.py:111-116 | `k - f`, computed as `-(f - k)`, is the exact difference in that order |
| Operators.NegCanonical | fraction.py:247-251 | negating the numerator keeps the pair canonical and negates the value |
| Operators.Neg | fraction.py:247-251 | `-f` is the pair with its numerator negated and value -f |
| Operators.Mul | fraction.py:118-130 | the canonical form of the exact product, or NotImplemented |
| Operators.MulValue | fraction.py:118-130 | the pair `__mul__` hands to the constructor yields the exact product |
| Operators.RMul | fraction.py:132-137 | `k * f` is the exact product with the operands in that order |
| Operators.Div | fraction.py:139-162 | a zero int or Fraction divisor raises ZeroDivisionError (both directions); otherwise the exact quotient; other operands give NotImplemented |
| Operators.RDiv | fraction.py:164-176 | a zero Fraction raises ZeroDivisionError whatever the operand; an int operand gives k / f exactly; anything else gives NotImplemented |
| Operators.Lt | fraction.py:178-188 | the cross-multiplied test holds exactly when the value is smaller |
| Operators.Gt | fraction.py:190-200 | holds exactly when the value is larger |
| Operators.Le | fraction.py:202-212 | holds exactly when the value is at most the other |
| Operators.Ge | fraction.py:214-224 | holds exactly when the value is at least the other |
| Operators.Eq | fraction.py:236-244 | holds exactly when the values are equal, and exactly when the stored pairs are identical |
| Operators.CrossEqual | fraction.py:236-244 | equal cross products on valid pairs means identical pairs, and conversely |
| Operators.Ne | fraction.py:226-234 | holds exactly when the pairs differ |
| Operators.ComparisonsAgree | fraction.py:178-244 | `!=` negates `==`; `<=` is `<` or `==`; `>=` is `>` or `==`; `>` is `<` flipped; the order is total |
| Operators.LeAntisymmetric | fraction.py:202-212 | `a <= b` and `b <= a` force `a == b` |
| Operators.Pos | fraction.py:253-258 | `+f` is an equal Fraction |
| Operators.AbsCanonical | fraction.py:260-264 | `(abs(num), den)` is already canonical, so the constructor returns it, and its value is abs(f) |
| Operators.Absolute | fraction.py:260-264 | `abs(f)` keeps the denominator, takes the numerator's magnitude, and has value abs(f) |
| Operators.ToInt | fraction.py:266-271 | `int(f)` truncates toward zero: its magnitude is the floor of abs(f), with f's sign |
| Operators.Truth | fraction.py:279-285 | `bool(f)` is false exactly for zero |
| Operators.Reciprocal | fraction.py:287-295 | zero raises ValueError; otherwise the swapped pair with the sign on the numerator, a valid pair whose product with f is 1 |
| Operators.ReciprocalCanonical | fraction.py:287-295 | the swapped pair is already canonical once its sign is moved |
| Operators.ReciprocalInvolution | fraction.py:287-295 | the reciprocal of the reciprocal is the original Fraction |
| Operators.ToTuple | fraction.py:297-303 | the tuple is the stored reduced pair (numerator, denominator); its denominator is positive and the constructor rebuilds f from it |
| Operators.IsProper | fraction.py:313-319 | holds exactly when -1 < f < 1 |
| Operators.IsImproper | fraction.py:321-327 | holds exactly when f ≤ -1 or f ≥ 1 |
| TextForm.LeadingSpace | fraction.py:346 | counts the whitespace that `strip()` (or `int()`) removes in front: all of it is whitespace and the next character is not |
| TextForm.TrailingSpace | fraction.py:346 | counts the whitespace removed at the end, in the same sense |
| TextForm.Strip | fraction.py:346 | `s.strip()` (`StrSpaces`: every `isspace()` character) and the stripping inside `int()` (`IntSpaces`: the same set without U+001C..U+001F): the result has no such whitespace at either end and is no longer than s |
| TextForm.StripPadding | fraction.py:346 | stripping removes exactly the surrounding whitespace of a padded, trimmed string, which pins Strip down on every input |
| TextForm.StripIdempotent | fraction.py:346 | stripping again changes nothing |
| TextForm.StripTrimmed | fraction.py:346 | a string with no whitespace at its ends is left unchanged |
| TextForm.Count | fraction.py:348 | no occurrences exactly when the character is absent |
| TextForm.Split | fraction.py:349 | `split('/')` gives one more part than there are slashes; no part holds a slash; the parts join back into the input |
| TextForm.SplitJoin | fraction.py:349 | splitting the join of slash-free parts gives those parts back |
| TextForm.ParseInt | fraction.py:354 | `int(s)` skips the whitespace `int()` skips (not U+001C..U+001F); whatever it accepts is then an optional `+` or `-` followed by well-formed digits (digits with single underscores between two digits, so `+`, `_`, `1_`, `_1` and `1__2` are rejected), a negative result was written with `-`, and the absolute value of the result is the number its digits spell |
| TextForm.ParseStripped | fraction.py:354 | the same four facts for text already stripped |
| TextForm.WellFormedChars | fraction.py:354 | a literal `int()` accepts holds only digits and underscores |
| TextForm.ParseTrimmed | fraction.py:354 | text with no whitespace at its ends is read by `int()` as it stands |
| TextForm.ParseIntAccepts | fraction.py:354 | `int()` accepts every literal made of optional `int()` whitespace, an optional `+` or `-`, digits with single underscores between them, and optional `int()` whitespace, and returns the digits' value with that sign |
| TextForm.NatToString | fraction.py:54-74 | the decimal form of n is nonempty, all digits, has no leading zero (zero is written `0`), and spells n |
| TextForm.IntToString | fraction.py:60-63 | `'{}'.format(k)` is the decimal form of k when k >= 0, and `-` followed by the decimal form of -k when k < 0; so it starts with `-` exactly when k < 0, and its digits spell abs(k) |
| TextForm.IntToStringShape | fraction.py:54-74 | the decimal form of an int has no whitespace at its ends and no slash; a negative int gets a `-` and its magnitude's digits |
| TextForm.ParseIntToString | fraction.py:353-358 | `int()` reads back what `'{}'.format` writes |
| TextForm.ToString | fraction.py:329-334 | `to_string()` is the formatted numerator, `/` and the formatted denominator of the stored pair, with exactly one slash |
| TextForm.Display | fraction.py:54-74 | `str(f)` and `repr(f)` are the formatted numerator when the stored denominator is 1 (zero included) and `to_string()` otherwise; they contain a slash exactly when the denominator is not 1 |
| TextForm.FromString | fraction.py:336-363 | every failure is a ValueError; a result is valid; more than one slash after stripping is always a ValueError |
| TextForm.FromStripped | fraction.py:348-363 | the same three facts for the stripped text |
| TextForm.FromStrippedParts | fraction.py:348-358 | `a/b` with slash-free parts is a ValueError when `int()` rejects either part, and otherwise `Fraction(int(a), int(b))` |
| TextForm.FromStrippedWhole | fraction.py:359-363 | slash-free text is a ValueError when `int()` rejects it, and otherwise the integer over 1 |
| TextForm.FromStringTrimmed | fraction.py:346 | text with no whitespace at its ends is read as it stands |
| TextForm.FromStringPadded | fraction.py:346 | whitespace around a trimmed text is ignored |
| TextForm.FromStringStrips | fraction.py:346 | surrounding whitespace never changes the result |
| TextForm.FromStringPair | fraction.py:336-358 | any `n/d` text, reduced or not, reads as `Fraction(n, d)` |
| TextForm.FromStringToString | fraction.py:329-363 | `from_string(f.to_string()) == f` |
| TextForm.FromStringDisplay | fraction.py:54-74 | `from_string(str(f)) == f` |
| TextForm.DisplayInjective | fraction.py:54-74 | distinct Fractions display differently |
| Examples.ReducesOnConstruction | test_fraction.py:9-31 | 4/8, 6/2, 1/-2 and 0/5 reduce to 1/2, 3, -1/2 and 0, and display so |
| Examples.ZeroDenominatorRejected | test_fraction.py:36-58 | a zero int or Fraction denominator raises ValueError; a foreign argument raises TypeError |
| Examples.FractionOverFraction | test_fraction.py:91-95 | (1/2)/(1/4) is 2 and 3/(1/4) is 12 |
| Examples.SumOfHalfAndThird | test_fraction.py:102-103 | 1/2 + 1/3 is 5/6 |
| Examples.MixedChain | test_fraction.py:203-204 | 1/2 * 2 - 1/4 is 3/4 |
| Examples.DivisionByZero | test_fraction.py:181-195 | division by a zero int or Fraction, and an int over a zero Fraction, raise ZeroDivisionError |
| Examples.TruncatesTowardZero | test_fraction.py:288-295 | int(7/2) is 3, int(-7/2) is -3, int(-1/2) is 0 |
| Examples.LargeTruncation | test_fraction.py:300-301 | `int(Fraction(10**30 + 1, 10**30))` is exactly 1 |
| Examples.ReciprocalOfNegative | test_fraction.py:338-343 | the reciprocal of -1/2 is -2; zero has none |
| Examples.ToStringKeepsDenominator | test_fraction.py:384-388 | to_string keeps a denominator of 1 |
| Examples.FromStringStripsPadding | test_fraction.py:401-402 | `"  2/4  "` reads as 1/2 |
| Examples.TwoQuarters | test_fraction.py:401-402 | the stripped text `"2/4"` reads as 1/2 |
| Examples.FromStringNegative | test_fraction.py:395-396 | `"-3/4"` reads as -3/4 |
| Examples.FromStringTooManyParts | test_fraction.py:411-413 | `"1/2/3"` is a ValueError |
| Examples.FromStringLetters | test_fraction.py:415-417 | `"a/b"` (written as a concatenation) is a ValueError |
| Examples.LettersNotIntegers | test_fraction.py:415-417 | `int("a")` is rejected |
| Examples.MalformedIntegersRejected | fraction.py:348-363 | `from_string("+")` and `from_string("1__2/3")` raise ValueError, because `int()` rejects a lone sign and a doubled underscore |
| Examples.MalformedNotIntegers | fraction.py:354 | `int("+")` and `int("1__2")` are rejected |
| Examples.SeparatorInsideNumber | fraction.py:346-356 | `"1\x1c/2"` is a ValueError: `strip()` leaves it whole and `int()` rejects `"1\x1c"` |
| Examples.SeparatorNotSkipped | fraction.py:354 | `int("1\x1c")` is rejected |
| Examples.SeparatorAroundText | fraction.py:346 | `"\x1c1/2"` reads as 1/2: `strip()` removes the leading U+001C |
| Examples.OneHalf | test_fraction.py:392-393 | the text `"1/2"` reads as 1/2 |
| Examples.FromStringZeroDenominator | test_fraction.py:419-421 | `"1/0"` is a ValueError |
| Examples.FromStringEmpty | test_fraction.py:423-429 | `""` and `"/"` are ValueErrors |
| Examples.FromFloatPrecision | test_fraction.py:449-461 | precision 9 is a ValueError; 0.3 at precision 8 is 3/10 |

## Left out

- Float operands are not modelled: float arguments to the constructor, the float branches of the arithmetic operators, and the int/float comparisons, which go through `float(self)`. Binary floating point is outside the model.
- `__float__` and `__hash__` are not modelled. Both compute the float `num / den`.
- Fractions.FromFloatScaled: takes the rounded integer as a parameter. The float rounding (`math.floor(value * scale + 0.5)`, or `math.ceil` for a negative value) and the TypeError checks on the argument types are not modelled.
- The TypeError that `from_string` raises for a non-string argument is not modelled: the model's input is always a string.
- Python's operator dispatch is not modelled: trying `__radd__` after `NotImplemented`, and raising TypeError when both sides return it. Each operator is modelled on its own, returning `Err(Unsupported)` for `NotImplemented`.
- Comparisons are modelled only between two Fractions. With any other operand they return `NotImplemented` or go through floats.
- TextForm.ParseInt: models `int()` on ASCII digits, with its own whitespace skipping, an optional sign and single underscores between digits. Non-ASCII Unicode decimal digits, which `int()` also accepts, are not modelled.
- TextForm.IntToString: has no length limit. Since Python 3.11, converting an int of more than 4300 decimal digits to or from text raises ValueError by default. So for such numbers `__str__`, `__repr__` and `to_string` raise, and so does `int()` inside `from_string`. The model's ToString and Display are total, ParseInt accepts any length, and ParseIntToString, FromStringPair, FromStringToString and FromStringDisplay therefore claim their round trips without that limit.
- Every operation on a Fraction requires `Valid`, the invariant the constructor establishes. The slots are private and never reassigned after `__init__`, so every Fraction the source can hold satisfies it.
- `__str__` and `__repr__` have the same body and share one model, `TextForm.Display`.
