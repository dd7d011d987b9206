/** The text forms of a Fraction: `__str__` and `__repr__`, `to_string()`
    and `from_string()`, together with the parts of Python's `str.strip`,
    `str.split` and `int()` that they rely on. */
module TextForm {
  import opened Numbers
  import opened Fractions

  datatype Option<T> = None | Some(value: T)

  // Python's `str.strip()` with no argument, and the whitespace `int()` skips.

  /** `str.isspace()` on one character. */
  predicate IsSpace(c: char)
  {
    ('\U{9}' <= c <= '\U{d}') || ('\U{1c}' <= c <= '\U{20}') || c == '\U{85}' || c == '\U{a0}'
    || c == '\U{1680}' || ('\U{2000}' <= c <= '\U{200a}') || c == '\U{2028}' || c == '\U{2029}'
    || c == '\U{202f}' || c == '\U{205f}' || c == '\U{3000}'
  }

  /** Which whitespace is removed: `str.strip()` removes every `isspace()`
      character; `int()` removes the same ones except the four ASCII
      separators U+001C..U+001F, which it treats as ordinary text. */
  datatype Spaces = StrSpaces | IntSpaces

  predicate Blank(w: Spaces, c: char)
  {
    IsSpace(c) && (w.IntSpaces? ==> !('\U{1c}' <= c <= '\U{1f}'))
  }

  predicate AllBlank(w: Spaces, s: string)
  {
    forall i :: 0 <= i < |s| ==> Blank(w, s[i])
  }

  /** The number of whitespace characters s starts with. */
  function LeadingSpace(w: Spaces, s: string): (n: nat)
    ensures n <= |s|
    ensures forall i :: 0 <= i < n ==> Blank(w, s[i])
    ensures n < |s| ==> !Blank(w, s[n])
  {
    if |s| > 0 && Blank(w, s[0]) then 1 + LeadingSpace(w, s[1..]) else 0
  }

  /** The number of whitespace characters s ends with. */
  function TrailingSpace(w: Spaces, s: string): (n: nat)
    ensures n <= |s|
    ensures forall i :: |s| - n <= i < |s| ==> Blank(w, s[i])
    ensures n < |s| ==> !Blank(w, s[|s| - n - 1])
  {
    if |s| > 0 && Blank(w, s[|s| - 1]) then 1 + TrailingSpace(w, s[..|s| - 1]) else 0
  }

  /** A string whose ends are not whitespace. */
  predicate Trimmed(w: Spaces, t: string)
  {
    t == [] || (!Blank(w, t[0]) && !Blank(w, t[|t| - 1]))
  }

  /** `s.strip()` (or the stripping inside `int()`): s without its leading
      and trailing whitespace. No whitespace is left at either end, and
      nothing else is removed. */
  function Strip(w: Spaces, s: string): (r: string)
    ensures Trimmed(w, r)
    ensures |r| <= |s|
  {
    var t := s[LeadingSpace(w, s)..];
    var r := t[..|t| - TrailingSpace(w, t)];
    assert r != [] ==> r[0] == s[LeadingSpace(w, s)];
    r
  }

  lemma {:induction false} LeadingPadding(w: Spaces, pre: string, u: string)
    requires AllBlank(w, pre) && (u == [] || !Blank(w, u[0]))
    ensures LeadingSpace(w, pre + u) == |pre|
  {
    if pre == [] {
      assert pre + u == u;
    } else {
      assert (pre + u)[1..] == pre[1..] + u;
      LeadingPadding(w, pre[1..], u);
    }
  }

  lemma {:induction false} TrailingPadding(w: Spaces, u: string, post: string)
    requires AllBlank(w, post) && (u == [] || !Blank(w, u[|u| - 1]))
    ensures TrailingSpace(w, u + post) == |post|
  {
    if post == [] {
      assert u + post == u;
    } else {
      var s := u + post;
      assert s[..|s| - 1] == u + post[..|post| - 1];
      TrailingPadding(w, u, post[..|post| - 1]);
    }
  }

  /** Stripping removes exactly the surrounding whitespace: a trimmed string
      padded with whitespace on both sides strips back to itself. */
  lemma StripPadding(w: Spaces, pre: string, t: string, post: string)
    requires AllBlank(w, pre) && AllBlank(w, post) && Trimmed(w, t)
    ensures Strip(w, pre + t + post) == t
  {
    var s := pre + t + post;
    if t == [] {
      assert s == (pre + post) + [];
      LeadingPadding(w, pre + post, []);
    } else {
      assert s == pre + (t + post);
      LeadingPadding(w, pre, t + post);
      assert s[|pre|..] == t + post;
      TrailingPadding(w, t, post);
      assert (t + post)[..|t|] == t;
    }
  }

  /** Stripping twice changes nothing. */
  lemma StripIdempotent(w: Spaces, s: string)
    ensures Strip(w, Strip(w, s)) == Strip(w, s)
  {
    StripTrimmed(w, Strip(w, s));
  }

  lemma StripTrimmed(w: Spaces, s: string)
    requires Trimmed(w, s)
    ensures Strip(w, s) == s
  {
    assert [] + s + [] == s;
    StripPadding(w, [], s, []);
  }

  // Python's `str.split(sep)` on a one-character separator.

  function Count(s: string, c: char): (n: nat)
    ensures n == 0 <==> c !in s
  {
    if |s| == 0 then 0
    else (if s[0] == c then 1 else 0) + Count(s[1..], c)
  }

  /** The parts put back together with the separator between them. */
  function Join(parts: seq<string>, sep: char): string
    requires |parts| > 0
  {
    if |parts| == 1 then parts[0] else parts[0] + [sep] + Join(parts[1..], sep)
  }

  /** `s.split(sep)`: the separator-free pieces between the occurrences of
      sep, one more than there are occurrences, which join back into s. */
  function Split(s: string, sep: char): (parts: seq<string>)
    ensures |parts| == Count(s, sep) + 1
    ensures forall i :: 0 <= i < |parts| ==> sep !in parts[i]
    ensures Join(parts, sep) == s
  {
    if |s| == 0 then [""]
    else
      var rest := Split(s[1..], sep);
      if s[0] == sep then
        assert ([""] + rest)[1..] == rest;
        [""] + rest
      else
        var parts := [[s[0]] + rest[0]] + rest[1..];
        assert parts[1..] == rest[1..];
        assert s == [s[0]] + s[1..];
        parts
  }

  /** One step of splitting: a separator starts a new part, any other
      character extends the first part. */
  lemma SplitCons(c: char, u: string, sep: char)
    ensures c == sep ==> Split([c] + u, sep) == [""] + Split(u, sep)
    ensures c != sep ==>
      Split([c] + u, sep) == [[c] + Split(u, sep)[0]] + Split(u, sep)[1..]
  {
    assert ([c] + u)[1..] == u;
  }

  lemma HeadTail(a: string, u: string)
    requires a != []
    ensures a + u == [a[0]] + (a[1..] + u)
  {
  }

  /** Splitting a string that begins with a separator-free prefix. */
  lemma {:induction false} SplitPrefix(a: string, u: string, sep: char)
    requires sep !in a
    ensures Split(a + u, sep) == [a + Split(u, sep)[0]] + Split(u, sep)[1..]
  {
    var p := Split(u, sep);
    if a != [] {
      var rest := Split(a[1..] + u, sep);
      SplitPrefix(a[1..], u, sep);
      HeadTail(a, u);
      SplitCons(a[0], a[1..] + u, sep);
      HeadTail(a, p[0]);
    } else {
      assert a + u == u;
      assert a + p[0] == p[0];
      assert [p[0]] + p[1..] == p;
    }
  }

  lemma Regroup(parts: seq<string>, sep: char, rest: string)
    requires |parts| > 1
    ensures parts[0] + [sep] + rest == parts[0] + ([sep] + rest)
    ensures [parts[0] + ([""] + parts[1..])[0]] + ([""] + parts[1..])[1..] == parts
  {
    assert parts[0] + "" == parts[0];
    assert ([""] + parts[1..])[1..] == parts[1..];
  }

  /** Splitting undoes joining: separator-free parts joined by the
      separator split back into the same parts. */
  lemma {:induction false} SplitJoin(parts: seq<string>, sep: char)
    requires |parts| > 0 && forall i :: 0 <= i < |parts| ==> sep !in parts[i]
    ensures Split(Join(parts, sep), sep) == parts
  {
    var a := parts[0];
    if |parts| == 1 {
      SplitPrefix(a, [], sep);
      assert a + [] == a;
      assert [a + Split([], sep)[0]] + Split([], sep)[1..] == [a];
    } else {
      var rest := Join(parts[1..], sep);
      SplitJoin(parts[1..], sep);
      SplitCons(sep, rest, sep);
      SplitPrefix(a, [sep] + rest, sep);
      Regroup(parts, sep, rest);
    }
  }

  // Python's `int()` on a string, in base 10.

  predicate IsDigit(c: char)
  {
    '0' <= c <= '9'
  }

  /** The digits of a base-10 literal as `int()` accepts them: ASCII digits,
      with single underscores allowed between two digits. */
  predicate WellFormedDigits(s: string)
  {
    |s| > 0 && IsDigit(s[0])
    && (|s| == 1 || if s[1] == '_' then WellFormedDigits(s[2..]) else WellFormedDigits(s[1..]))
  }

  /** A non-digit in front does not change the number the digits spell. */
  lemma {:induction false} DigitsSkip(c: char, x: string)
    requires !IsDigit(c)
    ensures DigitsValue([c] + x) == DigitsValue(x)
    decreases |x|
  {
    if x != [] {
      var y := [c] + x;
      assert y[..|y| - 1] == [c] + x[..|x| - 1];
      DigitsSkip(c, x[..|x| - 1]);
    }
  }

  /** The number the digits of s spell, underscores skipped. */
  function DigitsValue(s: string): nat
  {
    if |s| == 0 then 0
    else
      var c := s[|s| - 1];
      if IsDigit(c) then DigitsValue(s[..|s| - 1]) * 10 + (c as int - '0' as int)
      else DigitsValue(s[..|s| - 1])
  }

  /** The characters `int()` accepts after an optional sign. */
  predicate DigitOrUnderscore(c: char)
  {
    IsDigit(c) || c == '_'
  }

  /** `int(s)`: surrounding whitespace, an optional sign, then well-formed
      digits; anything else is a ValueError, here None. Whatever `int()`
      accepts is, once stripped, an optional sign followed by well-formed
      digits, and a negative result was written with a minus sign. */
  function ParseInt(s: string): (r: Option<int>)
    ensures var t := Strip(IntSpaces, s);
      r.Some? ==> |t| > 0 && forall i :: 0 <= i < |t| ==>
        DigitOrUnderscore(t[i]) || (i == 0 && (t[i] == '+' || t[i] == '-'))
    ensures r.Some? && r.value < 0 ==> Strip(IntSpaces, s)[0] == '-'
    ensures r.Some? ==> Abs(r.value) == DigitsValue(Strip(IntSpaces, s))
    ensures var t := Strip(IntSpaces, s);
      r.Some? ==> |t| > 0 && WellFormedDigits(if t[0] == '+' || t[0] == '-' then t[1..] else t)
  {
    ParseStripped(Strip(IntSpaces, s))
  }

  /** `int()` once the whitespace is gone. */
  function ParseStripped(t: string): (r: Option<int>)
    ensures r.Some? ==> |t| > 0 && forall i :: 0 <= i < |t| ==>
      DigitOrUnderscore(t[i]) || (i == 0 && (t[i] == '+' || t[i] == '-'))
    ensures r.Some? && r.value < 0 ==> t[0] == '-'
    ensures r.Some? ==> Abs(r.value) == DigitsValue(t)
    ensures r.Some? ==> |t| > 0 && WellFormedDigits(if t[0] == '+' || t[0] == '-' then t[1..] else t)
  {
    if |t| > 0 && (t[0] == '+' || t[0] == '-') then
      if WellFormedDigits(t[1..]) then
        WellFormedChars(t[1..]);
        assert t == [t[0]] + t[1..];
        DigitsSkip(t[0], t[1..]);
        var v: int := DigitsValue(t[1..]);
        Some(if t[0] == '-' then -v else v)
      else None
    else if WellFormedDigits(t) then
      WellFormedChars(t);
      Some(DigitsValue(t))
    else None
  }

  /** Text with no whitespace at its ends is read by `int()` as it stands. */
  lemma ParseTrimmed(s: string)
    requires Trimmed(IntSpaces, s)
    ensures ParseInt(s) == ParseStripped(s)
  {
    StripTrimmed(IntSpaces, s);
  }

  /** `int()` accepts every well-formed literal, with or without a sign and
      with any whitespace it skips around it, and reads its value. */
  lemma ParseIntAccepts(pre: string, sign: string, ds: string, post: string)
    requires AllBlank(IntSpaces, pre) && AllBlank(IntSpaces, post)
    requires sign == "" || sign == "+" || sign == "-"
    requires WellFormedDigits(ds)
    ensures ParseInt(pre + sign + ds + post)
      == Some(if sign == "-" then -(DigitsValue(ds) as int) else DigitsValue(ds))
  {
    var t := sign + ds;
    SignedLiteral(sign, ds);
    StripPadding(IntSpaces, pre, t, post);
    Regrouped(pre, sign, ds, post);
  }

  lemma Regrouped(pre: string, sign: string, ds: string, post: string)
    ensures pre + sign + ds + post == pre + (sign + ds) + post
  {
  }

  /** A well-formed literal after an optional sign is trimmed, and `int()`
      reads it as its digits' value with the sign applied. */
  lemma SignedLiteral(sign: string, ds: string)
    requires sign == "" || sign == "+" || sign == "-"
    requires WellFormedDigits(ds)
    ensures Trimmed(IntSpaces, sign + ds)
    ensures ParseStripped(sign + ds)
      == Some(if sign == "-" then -(DigitsValue(ds) as int) else DigitsValue(ds))
  {
    var t := sign + ds;
    WellFormedEnds(ds);
    assert t[|t| - 1] == ds[|ds| - 1];
    if sign == "" {
      assert t == ds;
    } else {
      assert t[0] == sign[0] && t[1..] == ds;
    }
  }

  /** A well-formed literal starts and ends with a digit. */
  lemma {:induction false} WellFormedEnds(s: string)
    requires WellFormedDigits(s)
    ensures IsDigit(s[0]) && IsDigit(s[|s| - 1])
  {
    if |s| > 1 {
      if s[1] == '_' {
        WellFormedEnds(s[2..]);
        assert s[|s| - 1] == s[2..][|s[2..]| - 1];
      } else {
        WellFormedEnds(s[1..]);
        assert s[|s| - 1] == s[1..][|s[1..]| - 1];
      }
    }
  }

  lemma {:induction false} WellFormedChars(s: string)
    requires WellFormedDigits(s)
    ensures forall i :: 0 <= i < |s| ==> DigitOrUnderscore(s[i])
  {
    if |s| > 1 {
      if s[1] == '_' {
        WellFormedChars(s[2..]);
        assert forall i :: 2 <= i < |s| ==> s[i] == s[2..][i - 2];
      } else {
        WellFormedChars(s[1..]);
        assert forall i :: 1 <= i < |s| ==> s[i] == s[1..][i - 1];
      }
    }
  }

  // `'{}'.format(k)` for an int k.

  function DigitChar(d: int): char
    requires 0 <= d < 10
  {
    ('0' as int + d) as char
  }

  /** The decimal digits of n, most significant first, with no leading
      zero (zero itself is the single digit `0`); they spell n. */
  function NatToString(n: nat): (s: string)
    ensures |s| > 0 && forall i :: 0 <= i < |s| ==> IsDigit(s[i])
    ensures s[0] == '0' ==> s == "0"
    ensures n == 0 ==> s == "0"
    ensures DigitsValue(s) == n
  {
    if n < 10 then [DigitChar(n)]
    else
      var s := NatToString(n / 10) + [DigitChar(n % 10)];
      assert s[..|s| - 1] == NatToString(n / 10);
      s
  }

  /** `'{}'.format(k)`: a minus sign exactly for a negative k, then the
      digits of its magnitude. */
  function IntToString(k: int): (s: string)
    ensures |s| > 0 && (s[0] == '-' <==> k < 0)
    ensures k >= 0 ==> s == NatToString(k)
    ensures k < 0 ==> s[0] == '-' && s[1..] == NatToString(-k)
    ensures DigitsValue(s) == Abs(k)
  {
    if k < 0 then
      DigitsSkip('-', NatToString(-k));
      "-" + NatToString(-k)
    else NatToString(k)
  }

  lemma IntToStringShape(k: int)
    ensures var s := IntToString(k);
      |s| > 0 && Trimmed(StrSpaces, s) && Trimmed(IntSpaces, s) && '/' !in s
      && (k >= 0 ==> IsDigit(s[0]))
      && (k < 0 ==> s[0] == '-' && s[1..] == NatToString(-k))
  {
    var s := IntToString(k);
    assert IsDigit(s[|s| - 1]);
    assert forall i :: 0 <= i < |s| ==> IsDigit(s[i]) || s[i] == '-';
  }

  lemma {:induction false} DigitsWellFormed(s: string)
    requires |s| > 0 && forall i :: 0 <= i < |s| ==> IsDigit(s[i])
    ensures WellFormedDigits(s)
  {
    if |s| > 1 {
      DigitsWellFormed(s[1..]);
    }
  }

  /** `int()` reads back what `'{}'.format` writes. */
  lemma ParseIntToString(k: int)
    ensures ParseInt(IntToString(k)) == Some(k)
  {
    var s := IntToString(k);
    IntToStringShape(k);
    if k < 0 {
      ParseSigned(s, NatToString(-k));
    } else {
      ParseUnsigned(s);
    }
  }

  lemma ParseSigned(s: string, digits: string)
    requires Trimmed(IntSpaces, s) && |s| > 0 && s[0] == '-' && s[1..] == digits
    requires |digits| > 0 && forall i :: 0 <= i < |digits| ==> IsDigit(digits[i])
    ensures ParseInt(s) == Some(-(DigitsValue(digits) as int))
  {
    StripTrimmed(IntSpaces, s);
    DigitsWellFormed(digits);
    assert ParseStripped(s) == Some(-(DigitsValue(digits) as int));
  }

  lemma ParseUnsigned(s: string)
    requires Trimmed(IntSpaces, s) && |s| > 0 && forall i :: 0 <= i < |s| ==> IsDigit(s[i])
    ensures ParseInt(s) == Some(DigitsValue(s) as int)
  {
    DigitsWellFormed(s);
    assert ParseStripped(s) == Some(DigitsValue(s) as int);
    StripTrimmed(IntSpaces, s);
  }

  // The text forms of a Fraction.

  /** `to_string()`: always the numerator, a slash and the denominator, so
      the one slash separates the two parts. */
  function ToString(f: Frac): (s: string)
    ensures s == IntToString(f.num) + "/" + IntToString(f.den)
    ensures Count(s, '/') == 1
  {
    var a, b := IntToString(f.num), IntToString(f.den);
    IntToStringShape(f.num);
    IntToStringShape(f.den);
    CountAppend(a, "/", '/');
    CountAppend(a + "/", b, '/');
    a + "/" + b
  }

  lemma CountAppend(s: string, t: string, c: char)
    ensures Count(s + t, c) == Count(s, c) + Count(t, c)
  {
    if s == [] {
      assert s + t == t;
    } else {
      assert (s + t)[1..] == s[1..] + t;
      CountAppend(s[1..], t, c);
    }
  }

  /** `__str__` and `__repr__`, which have the same body: the bare
      numerator for zero and for a whole number, `p/q` otherwise. On a
      canonical pair, zero has denominator 1, so the two cases are one. */
  function Display(f: Frac): (s: string)
    requires Valid(f)
    ensures s == if f.den == 1 then IntToString(f.num) else ToString(f)
    ensures '/' in s <==> f.den != 1
  {
    ZeroCanonical(f);
    IntToStringShape(f.num);
    if f.num == 0 then IntToString(f.num)
    else if f.den == 1 then IntToString(f.num)
    else ToString(f)
  }

  /** `from_string(s)`: strip, then either `n/d` with both parts read by
      `int()`, or a single integer over 1. Every failure is a ValueError,
      and more than one slash is always one. */
  function FromString(s: string): (r: Result<Frac>)
    ensures r.Err? ==> r.error == ValueError
    ensures r.Ok? ==> Valid(r.value)
    ensures Count(Strip(StrSpaces, s), '/') >= 2 ==> r == Err(ValueError)
  {
    FromStripped(Strip(StrSpaces, s))
  }

  /** `from_string` once the whitespace is gone. */
  function FromStripped(t: string): (r: Result<Frac>)
    ensures r.Err? ==> r.error == ValueError
    ensures r.Ok? ==> Valid(r.value)
    ensures Count(t, '/') >= 2 ==> r == Err(ValueError)
  {
    if '/' in t then
      var parts := Split(t, '/');
      if |parts| != 2 then Err(ValueError)
      else
        var n, d := ParseInt(parts[0]), ParseInt(parts[1]);
        if n.None? || d.None? then Err(ValueError) else FromInts(n.value, d.value)
    else
      var k := ParseInt(t);
      if k.None? then Err(ValueError) else FromInts(k.value, 1)
  }

  /** Text with no slash is the integer `int()` reads from it, over 1, or a
      ValueError when `int()` rejects it. */
  lemma FromStrippedWhole(t: string)
    requires '/' !in t
    ensures ParseInt(t).None? ==> FromStripped(t) == Err(ValueError)
    ensures ParseInt(t).Some? ==> FromStripped(t) == Ok(Frac(ParseInt(t).value, 1))
  {
    if ParseInt(t).Some? {
      IntegerCanonical(ParseInt(t).value);
    }
  }

  /** Text of the form `a/b`, with a slash-free a and b, is a ValueError
      when `int()` rejects either part, and otherwise the constructor's
      result on the two integers. */
  lemma FromStrippedParts(a: string, b: string)
    requires '/' !in a && '/' !in b
    ensures ParseInt(a).None? || ParseInt(b).None? ==> FromStripped(a + "/" + b) == Err(ValueError)
    ensures ParseInt(a).Some? && ParseInt(b).Some? ==>
      FromStripped(a + "/" + b) == FromInts(ParseInt(a).value, ParseInt(b).value)
  {
    assert a + "/" + b == Join([a, b], '/');
    SplitJoin([a, b], '/');
  }

  /** Text with no whitespace at its ends is read as it stands. */
  lemma FromStringTrimmed(s: string)
    requires Trimmed(StrSpaces, s)
    ensures FromString(s) == FromStripped(s)
  {
    StripTrimmed(StrSpaces, s);
  }

  /** Whitespace around a trimmed text is ignored. */
  lemma FromStringPadded(pre: string, t: string, post: string)
    requires AllBlank(StrSpaces, pre) && AllBlank(StrSpaces, post) && Trimmed(StrSpaces, t)
    ensures FromString(pre + t + post) == FromStripped(t)
  {
    StripPadding(StrSpaces, pre, t, post);
  }

  /** Surrounding whitespace never changes the result. */
  lemma FromStringStrips(s: string)
    ensures FromString(s) == FromString(Strip(StrSpaces, s))
  {
    StripIdempotent(StrSpaces, s);
  }

  /** `from_string(f.to_string()) == f`. */
  lemma FromStringToString(f: Frac)
    requires Valid(f)
    ensures FromString(ToString(f)) == Ok(f)
  {
    FromStringPair(f.num, f.den);
    NormalizeCanonical(f);
  }

  /** Any pair written as `n/d`, reduced or not, is read back as the
      constructor's result on (n, d). */
  lemma FromStringPair(n: int, d: int)
    ensures FromString(IntToString(n) + "/" + IntToString(d)) == FromInts(n, d)
  {
    FromStrippedPair(n, d);
    StripTrimmed(StrSpaces, IntToString(n) + "/" + IntToString(d));
  }

  lemma FromStrippedPair(n: int, d: int)
    ensures Trimmed(StrSpaces, IntToString(n) + "/" + IntToString(d))
    ensures FromStripped(IntToString(n) + "/" + IntToString(d)) == FromInts(n, d)
  {
    IntToStringShape(n);
    IntToStringShape(d);
    ParseIntToString(n);
    ParseIntToString(d);
    FromStrippedParts(IntToString(n), IntToString(d));
  }

  /** `from_string(str(f)) == f`: the displayed form is unambiguous. */
  lemma FromStringDisplay(f: Frac)
    requires Valid(f)
    ensures FromString(Display(f)) == Ok(f)
  {
    if f.den != 1 {
      FromStringToString(f);
    } else {
      var s := IntToString(f.num);
      IntToStringShape(f.num);
      ParseIntToString(f.num);
      FromStrippedWhole(s);
      StripTrimmed(StrSpaces, s);
    }
  }

  /** Distinct Fractions display differently. */
  lemma DisplayInjective(f: Frac, g: Frac)
    requires Valid(f) && Valid(g) && Display(f) == Display(g)
    ensures f == g
  {
    FromStringDisplay(f);
    FromStringDisplay(g);
  }
}
