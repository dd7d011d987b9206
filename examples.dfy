/** Worked cases from test_fraction.py, stated on the model. */
module Examples {
  import opened Fractions
  import opened Operators
  import opened TextForm

  lemma ReducesOnConstruction()
    ensures FromInts(4, 8) == Ok(Frac(1, 2)) && Display(Frac(1, 2)) == "1/2"
    ensures FromInts(6, 2) == Ok(Frac(3, 1)) && Display(Frac(3, 1)) == "3"
    ensures FromInts(1, -2) == Ok(Frac(-1, 2)) && Display(Frac(-1, 2)) == "-1/2"
    ensures FromInts(0, 5) == Ok(Frac(0, 1)) && Display(Frac(0, 1)) == "0"
  {
    NormalizeUnique(4, 8, Frac(1, 2));
    NormalizeUnique(6, 2, Frac(3, 1));
    NormalizeUnique(1, -2, Frac(-1, 2));
  }

  lemma ZeroDenominatorRejected()
    ensures FromInts(1, 0) == Err(ValueError)
    ensures New(IntOp(1), FracOp(Frac(0, 1))) == Err(ValueError)
    ensures New(IntOp(1), Other) == Err(TypeError)
  {
  }

  lemma FractionOverFraction()
    ensures New(FracOp(Frac(1, 2)), FracOp(Frac(1, 4))) == Ok(Frac(2, 1))
    ensures New(IntOp(3), FracOp(Frac(1, 4))) == Ok(Frac(12, 1))
  {
    NormalizeUnique(4, 2, Frac(2, 1));
    NormalizeUnique(12, 1, Frac(12, 1));
  }

  lemma SumOfHalfAndThird()
    ensures Add(Frac(1, 2), FracOp(Frac(1, 3))) == Ok(Frac(5, 6))
  {
    NormalizeUnique(5, 6, Frac(5, 6));
  }

  /** `Fraction(1,2) * 2 - Fraction(1,4) == Fraction(3,4)`. */
  lemma MixedChain()
    ensures Mul(Frac(1, 2), IntOp(2)) == Ok(Frac(1, 1))
    ensures Sub(Frac(1, 1), FracOp(Frac(1, 4))) == Ok(Frac(3, 4))
  {
    NormalizeUnique(2, 2, Frac(1, 1));
    NormalizeUnique(3, 4, Frac(3, 4));
  }

  lemma DivisionByZero()
    ensures Div(Frac(1, 2), IntOp(0)) == Err(ZeroDivisionError)
    ensures Div(Frac(1, 2), FracOp(Frac(0, 1))) == Err(ZeroDivisionError)
    ensures RDiv(Frac(0, 1), IntOp(1)) == Err(ZeroDivisionError)
  {
  }

  lemma TruncatesTowardZero()
    ensures ToInt(Frac(7, 2)) == 3 && ToInt(Frac(-7, 2)) == -3 && ToInt(Frac(-1, 2)) == 0
  {
  }

  /** No floating point is involved, so a huge numerator is exact. */
  lemma LargeTruncation()
    ensures Valid(Frac(1000000000000000000000000000001, 1000000000000000000000000000000))
    ensures ToInt(Frac(1000000000000000000000000000001, 1000000000000000000000000000000)) == 1
  {
  }

  lemma ReciprocalOfNegative()
    ensures Reciprocal(Frac(-1, 2)) == Ok(Frac(-2, 1)) && Display(Frac(-2, 1)) == "-2"
    ensures Reciprocal(Frac(0, 1)) == Err(ValueError)
  {
  }

  lemma ToStringKeepsDenominator()
    ensures ToString(Frac(3, 1)) == "3/1" && ToString(Frac(0, 1)) == "0/1"
  {
  }

  /** `from_string("  2/4  ")`, the padding written as a concatenation. */
  lemma FromStringStripsPadding()
    ensures FromString("  " + "2/4" + "  ") == Ok(Frac(1, 2))
  {
    PaddingAndText();
    TwoQuarters();
    FromStringPadded("  ", "2/4", "  ");
  }

  lemma PaddingAndText()
    ensures AllBlank(StrSpaces, "  ") && Trimmed(StrSpaces, "2/4")
  {
  }

  lemma TwoQuarters()
    ensures FromStripped("2/4") == Ok(Frac(1, 2))
  {
    FromStrippedPair(2, 4);
    assert IntToString(2) + "/" + IntToString(4) == "2/4";
    NormalizeUnique(2, 4, Frac(1, 2));
  }

  lemma FromStringNegative()
    ensures FromString("-3/4") == Ok(Frac(-3, 4))
  {
    assert ToString(Frac(-3, 4)) == "-3/4";
    FromStringToString(Frac(-3, 4));
  }

  lemma FromStringTooManyParts()
    ensures FromString("1/2/3") == Err(ValueError)
  {
    assert Count("1/2/3", '/') == 2;
    FromStringTrimmed("1/2/3");
  }

  /** `from_string("a/b")`, written as a concatenation. */
  lemma FromStringLetters()
    ensures FromString("a" + "/" + "b") == Err(ValueError)
  {
    LettersNotIntegers();
    FromStrippedParts("a", "b");
    FromStringTrimmed("a" + "/" + "b");
  }

  /** A lone sign, and digits with a doubled underscore, are not integers
      to `int()`, so `from_string` rejects them. */
  lemma MalformedIntegersRejected()
    ensures FromString("+") == Err(ValueError)
    ensures FromString("1__2" + "/" + "3") == Err(ValueError)
  {
    MalformedShape();
    MalformedNotIntegers();
    FromStrippedWhole("+");
    FromStrippedParts("1__2", "3");
    FromStringTrimmed("+");
    FromStringTrimmed("1__2" + "/" + "3");
  }

  lemma MalformedNotIntegers()
    ensures ParseInt("+") == None && ParseInt("1__2") == None
  {
    MalformedShape();
    ParseTrimmed("+");
    ParseTrimmed("1__2");
    assert ParseStripped("+") == None;
    assert ParseStripped("1__2") == None;
  }

  lemma MalformedShape()
    ensures Trimmed(IntSpaces, "+") && Trimmed(IntSpaces, "1__2")
    ensures Trimmed(StrSpaces, "+") && Trimmed(StrSpaces, "1__2" + "/" + "3")
    ensures '/' !in "+" && '/' !in "1__2" && '/' !in "3"
  {
  }

  lemma LettersNotIntegers()
    ensures ParseInt("a") == None
  {
    ParseTrimmed("a");
    assert ParseStripped("a") == None;
  }

  lemma FromStringZeroDenominator()
    ensures FromString("1/0") == Err(ValueError)
  {
    OneOverZeroText();
    FromStringPair(1, 0);
  }

  lemma OneOverZeroText()
    ensures IntToString(1) + "/" + IntToString(0) == "1/0"
  {
  }

  lemma FromStringEmpty()
    ensures FromString("") == Err(ValueError) && FromString("/") == Err(ValueError)
  {
    assert "/" == Join(["", ""], '/');
    SplitJoin(["", ""], '/');
    assert FromStripped("/") == Err(ValueError);
    FromStringTrimmed("");
    FromStringTrimmed("/");
  }

  /** `int()` does not skip the separator U+001C inside the text, although
      `strip()` removes it from the ends of the whole text. */
  lemma SeparatorInsideNumber()
    ensures FromString("1\U{1c}" + "/" + "2") == Err(ValueError)
  {
    SeparatorNotSkipped();
    SeparatorTextShape();
    FromStrippedParts("1\U{1c}", "2");
    FromStringTrimmed("1\U{1c}" + "/" + "2");
  }

  lemma SeparatorTextShape()
    ensures '/' !in "1\U{1c}" && '/' !in "2" && Trimmed(StrSpaces, "1\U{1c}" + "/" + "2")
  {
  }

  lemma SeparatorNotSkipped()
    ensures ParseInt("1\U{1c}") == None
  {
    ParseTrimmed("1\U{1c}");
    assert ParseStripped("1\U{1c}") == None;
  }

  lemma SeparatorAroundText()
    ensures FromString("\U{1c}" + "1/2" + "") == Ok(Frac(1, 2))
  {
    SeparatorAndText();
    OneHalf();
    FromStringPadded("\U{1c}", "1/2", "");
  }

  lemma SeparatorAndText()
    ensures AllBlank(StrSpaces, "\U{1c}") && AllBlank(StrSpaces, "") && Trimmed(StrSpaces, "1/2")
  {
  }

  lemma OneHalf()
    ensures FromStripped("1/2") == Ok(Frac(1, 2))
  {
    FromStrippedPair(1, 2);
    assert IntToString(1) + "/" + IntToString(2) == "1/2";
    NormalizeCanonical(Frac(1, 2));
  }

  lemma FromFloatPrecision()
    ensures FromFloatScaled(30000000, 8) == Ok(Frac(3, 10))
    ensures FromFloatScaled(5, 9) == Err(ValueError)
  {
    NormalizeUnique(30000000, 100000000, Frac(3, 10));
  }
}
