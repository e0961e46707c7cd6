/** The scalar coercer, `transform_primitive_type` (main.py:13-53), and the
    token sets it consults (main.py:6-8). */
module Primitive {
  import opened Text
  import opened Values

  const PrimitiveTypes: set<string> := {"S", "N", "BOOL", "NULL"}
  const BoolTruthValues: set<string> := {"1", "t", "T", "TRUE", "true", "True"}
  const BoolFalseValues: set<string> := {"0", "f", "F", "FALSE", "false", "False"}

  /** The tokens the `NULL` rule accepts, spelled out again at main.py:51;
      they are the same six as `BoolTruthValues`. */
  const NullValues: set<string> := {"1", "t", "T", "TRUE", "true", "True"}

  /** `int(datetime.strptime(t, "%Y-%m-%dT%H:%M:%S%z").timestamp())`, or
      `None` when `strptime` raises. The date library is not modelled: every
      operation takes the parser as a parameter. */
  type TimestampParser = string -> Option<int>

  /** `t` without one leading sign. */
  function Unsigned(t: string): (u: string)
  {
    if |t| > 0 && (t[0] == '-' || t[0] == '+') then t[1..] else t
  }

  /** Digits and at most one `.`, with at least one digit. */
  predicate DecimalText(u: string) {
    AllIn(u, Digits + {'.'}) && Count(u, '.') <= 1 && Count(u, '.') < |u|
  }

  /** The digits before the first `.` of `u` (all of `u` if it has none). */
  function Whole(u: string): (w: string)
    ensures '.' !in w
  {
    u[..IndexOf(u, '.')]
  }

  /** The text after the first `.` of `u` ("" if it has none). */
  function Fraction(u: string): (f: string)
  {
    var dot := IndexOf(u, '.');
    if dot < |u| then u[dot + 1..] else ""
  }

  /** `u` is its whole part, the `.`, and its fraction. */
  lemma SplitAtDot(u: string)
    requires '.' in u
    ensures u == Whole(u) + "." + Fraction(u)
  {
    var dot := IndexOf(u, '.');
    assert u == u[..dot] + [u[dot]] + u[dot + 1..];
  }

  /** The first `.` is the only one exactly when the fraction has none. */
  lemma SplitAtDotCount(u: string)
    requires '.' in u
    ensures Count(u, '.') == 1 + Count(Fraction(u), '.')
  {
    SplitAtDot(u);
    var w, f := Whole(u), Fraction(u);
    CountAppend(w + ".", f, '.');
    CountAppend(w, ".", '.');
    assert Count(".", '.') == 1;
  }

  lemma {:induction false} DecimalTextSplitDot(u: string)
    requires '.' in u
    ensures DecimalText(u) <==>
      AllIn(Whole(u), Digits) && AllIn(Fraction(u), Digits) && |Whole(u)| + |Fraction(u)| > 0
  {
    var w, f := Whole(u), Fraction(u);
    var D := Digits + {'.'};
    SplitAtDot(u);
    SplitAtDotCount(u);
    AllInAppend(w + ".", f, D);
    AllInAppend(w, ".", D);
    if DecimalText(u) {
      AllInNarrow(w, Digits, '.');
      AllInNarrow(f, Digits, '.');
    }
    if AllIn(w, Digits) && AllIn(f, Digits) && |w| + |f| > 0 {
      AllInWiden(w, Digits, D);
      AllInWiden(f, Digits, D);
      assert '.' !in f;
    }
  }

  lemma {:induction false} DecimalTextSplitNoDot(u: string)
    requires '.' !in u
    ensures DecimalText(u) <==>
      AllIn(Whole(u), Digits) && AllIn(Fraction(u), Digits) && |Whole(u)| + |Fraction(u)| > 0
  {
    assert u == Whole(u) && Fraction(u) == "";
    if DecimalText(u) {
      AllInNarrow(u, Digits, '.');
    }
    if AllIn(u, Digits) && |u| > 0 {
      AllInWiden(u, Digits, Digits + {'.'});
    }
  }

  /** Digits with at most one `.` are digits, the `.`, and digits. */
  lemma DecimalTextSplit(u: string)
    ensures DecimalText(u) <==>
      AllIn(Whole(u), Digits) && AllIn(Fraction(u), Digits) && |Whole(u)| + |Fraction(u)| > 0
  {
    if '.' in u {
      DecimalTextSplitDot(u);
    } else {
      DecimalTextSplitNoDot(u);
    }
  }

  lemma AllInWiden(s: string, a: set<char>, b: set<char>)
    requires AllIn(s, a) && a <= b
    ensures AllIn(s, b)
  {
  }

  /** `float(t)` on text made of an optional sign, digits and at most one
      `.`, with at least one digit; `None` where `float` raises. The
      exponents, `inf`/`nan` and `_` separators `float` also reads are left
      out: no text that passes the `N` rule's digit check contains them. */
  function ParseFloat(t: string): (r: Option<Decimal>)
  {
    var body := Unsigned(t);
    DecimalOf(|t| > 0 && t[0] == '-', Whole(body), Fraction(body))
  }

  /** The decimal `[-]whole.frac`, when both sides are digits and at least
      one is not empty. */
  function DecimalOf(negative: bool, whole: string, frac: string): (r: Option<Decimal>)
  {
    if AllIn(whole, Digits) && AllIn(frac, Digits) && |whole| + |frac| > 0 then
      AllInAppend(whole, frac, Digits);
      var magnitude: int := DigitsValue(whole + frac);
      Some(Decimal(if negative then -magnitude else magnitude, |frac|))
    else
      None
  }

  /** The `N` rule on stripped text (main.py:45-46): take out the first `.`
      and then the first `-`; what is left must be a non-empty digit string.
      Then the text is an `int` when it is all digits and a `float`
      otherwise, so a negative whole number becomes a `float`. */
  function CoerceNumber(t: string): (r: Outcome)
    ensures r.Ok? ==> r.value.PInt? || r.value.PFloat?
  {
    if IsDigitString(RemoveFirst(RemoveFirst(t, '.'), '-')) then
      if IsDigitString(t) then Ok(PInt(DigitsValue(t)))
      else match ParseFloat(t)
        case Some(d) => Ok(PFloat(d))
        case None => Fail
    else Fail
  }

  /** `transform_primitive_type(key, val)`: a non-text payload fails;
      otherwise the stripped text is coerced by the rule of the tag. Never an
      `AttributeError`, and a success is a scalar or `None`. */
  function TransformPrimitiveType(ts: TimestampParser, key: string, val: Json): (r: Outcome)
    ensures !val.JStr? ==> r == Fail
    ensures r != Crash
    ensures r.Ok? ==> IsScalar(r.value) || r.value == PNull
  {
    if !val.JStr? then Fail else CoerceText(ts, key, Trim(val.text))
  }

  /** The `match key` of main.py:36-53 on the stripped text `t`: each tag's
      rule, and failure for a tag outside `PrimitiveTypes`. */
  function CoerceText(ts: TimestampParser, key: string, t: string): (r: Outcome)
    ensures key !in PrimitiveTypes ==> r == Fail
    ensures r != Crash
    ensures r.Ok? ==> IsScalar(r.value) || r.value == PNull
  {
    if key == "S" then
      if t == "" then Fail
      else match ts(t)
        case Some(seconds) => Ok(PInt(seconds))
        case None => Ok(PStr(t))
    else if key == "N" then CoerceNumber(t)
    else if key == "BOOL" then
      if t in BoolTruthValues + BoolFalseValues then Ok(PBool(t in BoolTruthValues)) else Fail
    else if key == "NULL" then
      if t in NullValues then Ok(PNull) else Fail
    else Fail
  }

  /** `float` reads exactly the texts of the form `[+-]` digits, at most one
      `.`, at least one digit. */
  lemma ParseFloatAccepts(t: string)
    ensures ParseFloat(t).Some? <==> DecimalText(Unsigned(t))
  {
    DecimalTextSplit(Unsigned(t));
  }

  /** The texts the `N` rule accepts: an optional leading `-`, then digits
      with at most one `.`, with at least one digit. So "5." and ".5" pass,
      "1-2", "123..44" and "" do not. */
  predicate IsNumeral(t: string) {
    DecimalText(if |t| > 0 && t[0] == '-' then t[1..] else t)
  }

  /** The digit check of main.py:45, read character by character: digits,
      at most one `.`, at most one `-`, and at least one digit. */
  lemma {:induction false} DigitCheck(t: string)
    ensures IsDigitString(RemoveFirst(RemoveFirst(t, '.'), '-')) <==>
      && AllIn(t, Digits + {'-', '.'})
      && Count(t, '.') <= 1
      && Count(t, '-') <= 1
      && Count(t, '.') + Count(t, '-') < |t|
  {
    var s1 := RemoveFirst(t, '.');
    var s2 := RemoveFirst(s1, '-');
    RemoveFirstAllIn(s1, '-', Digits);
    RemoveFirstAllIn(t, '.', Digits + {'-'});
    assert Digits + {'-'} + {'.'} == Digits + {'-', '.'};
    RemoveFirstCounts(t, '.', '-');
    RemoveFirstCounts(s1, '-', '-');
  }

  /** The `N` rule on text with a leading `-`: the sign must be the only
      one, and the rest a decimal text; the result is never an `int`. */
  lemma {:induction false} NumberAcceptsNegative(t: string)
    requires |t| > 0 && t[0] == '-'
    ensures CoerceNumber(t).Ok? <==> DecimalText(t[1..])
  {
    var u := t[1..];
    assert t == "-" + u;
    DigitCheck(t);
    CountAppend("-", u, '.');
    CountAppend("-", u, '-');
    assert !IsDigitString(t) by { assert t[0] !in Digits; }
    assert Unsigned(t) == u;
    ParseFloatAccepts(t);
    if DecimalText(u) {
      assert '-' !in u;
      AllInWiden(u, Digits + {'.'}, Digits + {'-', '.'});
      AllInAppend("-", u, Digits + {'-', '.'});
    }
  }

  /** The `N` rule on text without a leading `-`. */
  lemma {:induction false} NumberAcceptsUnsigned(t: string)
    requires |t| == 0 || t[0] != '-'
    ensures CoerceNumber(t).Ok? <==> DecimalText(t)
  {
    DigitCheck(t);
    ParseFloatAccepts(t);
    if DecimalText(t) {
      assert '-' !in t;
      AllInWiden(t, Digits + {'.'}, Digits + {'-', '.'});
      if !IsDigitString(t) {
        assert t[0] in Digits + {'.'};
        assert Unsigned(t) == t;
      }
    }
    if CoerceNumber(t).Ok? {
      if IsDigitString(t) {
        assert '.' !in t;
        AllInWiden(t, Digits, Digits + {'.'});
      } else {
        assert t[0] in Digits + {'-', '.'};
        assert Unsigned(t) == t;
      }
    }
  }

  /** The `N` rule succeeds exactly on numerals. */
  lemma NumberAccepts(t: string)
    ensures CoerceNumber(t).Ok? <==> IsNumeral(t)
  {
    if |t| > 0 && t[0] == '-' {
      NumberAcceptsNegative(t);
    } else {
      NumberAcceptsUnsigned(t);
    }
  }

  /** A number printed by `str` reads back as that `int`. */
  lemma NumberOfShowNat(n: nat)
    ensures CoerceNumber(ShowNat(n)) == Ok(PInt(n))
  {
    var t := ShowNat(n);
    assert '.' !in t && '-' !in t;
    RemoveFirstAbsent(t, '.');
    RemoveFirstAbsent(t, '-');
    DigitsValueShowNat(n);
  }

  /** Leading zeros are consumed: "0123" reads as 123. */
  lemma NumberLeadingZero(s: string)
    requires IsDigitString(s)
    ensures CoerceNumber("0" + s) == CoerceNumber(s)
  {
    var t := "0" + s;
    assert AllIn(t, Digits) by { AllInAppend("0", s, Digits); }
    assert '.' !in t && '-' !in t && '.' !in s && '-' !in s;
    RemoveFirstAbsent(t, '.');
    RemoveFirstAbsent(t, '-');
    RemoveFirstAbsent(s, '.');
    RemoveFirstAbsent(s, '-');
    DigitsValueLeadingZero(s);
  }

  /** A negative whole number is read by `float`, not `int`: "-123" gives
      the float -123.0. */
  lemma NegativeWholeIsFloat(n: nat)
    ensures CoerceNumber("-" + ShowNat(n)) == Ok(PFloat(Decimal(-(n as int), 0)))
  {
    var digits := ShowNat(n);
    var t := "-" + digits;
    assert '.' !in t && '.' !in digits;
    RemoveFirstAbsent(t, '.');
    assert RemoveFirst(t, '-') == digits;
    assert t[0] !in Digits;
    assert Unsigned(t) == digits && Whole(digits) == digits && Fraction(digits) == "";
    assert digits + "" == digits;
    DigitsValueShowNat(n);
  }

  /** The first `.` of `whole + "." + frac` is the one between them. */
  lemma PointTextSplit(whole: string, frac: string)
    requires AllIn(whole, Digits) && AllIn(frac, Digits)
    ensures Whole(whole + "." + frac) == whole && Fraction(whole + "." + frac) == frac
  {
    var u := whole + "." + frac;
    assert u[|whole|] == '.';
    assert '.' !in whole by { AllInNarrow(whole, Digits, '.'); }
    assert u[..|whole|] == whole;
  }

  /** `whole + "." + frac` is a decimal text when at least one side has a
      digit. */
  lemma PointTextIsDecimal(whole: string, frac: string)
    requires AllIn(whole, Digits) && AllIn(frac, Digits) && |whole| + |frac| > 0
    ensures DecimalText(whole + "." + frac)
  {
    assert '.' !in whole by { AllInNarrow(whole, Digits, '.'); }
    assert '.' !in frac by { AllInNarrow(frac, Digits, '.'); }
    AllInAppend(whole + ".", frac, Digits + {'.'});
    AllInAppend(whole, ".", Digits + {'.'});
    AllInWiden(whole, Digits, Digits + {'.'});
    AllInWiden(frac, Digits, Digits + {'.'});
    CountAppend(whole + ".", frac, '.');
    CountAppend(whole, ".", '.');
    assert Count(".", '.') == 1;
  }

  /** `u`, after a `-` when `negative`. */
  function Signed(negative: bool, u: string): (t: string)
  {
    if negative then "-" + u else u
  }

  lemma UnsignedOfPointText(negative: bool, whole: string, frac: string)
    requires AllIn(whole, Digits)
    ensures Unsigned(Signed(negative, whole + "." + frac)) == whole + "." + frac
    ensures var t := Signed(negative, whole + "." + frac); (|t| > 0 && t[0] == '-') == negative
  {
    var u := whole + "." + frac;
    if negative {
      assert ("-" + u)[1..] == u;
    } else if |whole| > 0 {
      assert u[0] == whole[0];
    }
  }

  /** `float` reads `[-]whole.frac` as the digits of both sides over
      `10^|frac|`. */
  lemma ParseFloatOfPointText(negative: bool, whole: string, frac: string)
    requires AllIn(whole, Digits) && AllIn(frac, Digits) && |whole| + |frac| > 0
    ensures var m: int := DigitsValue(whole + frac);
      ParseFloat(Signed(negative, whole + "." + frac)) == Some(Decimal(if negative then -m else m, |frac|))
  {
    PointTextSplit(whole, frac);
    UnsignedOfPointText(negative, whole, frac);
  }

  /** A text with a `.` reads as the exact decimal it spells: the digits on
      both sides of the point, scaled by the number after it, negated under a
      leading `-`. So "-1.50" is -150 / 10^2. */
  lemma NumberOfPointText(negative: bool, whole: string, frac: string)
    requires AllIn(whole, Digits) && AllIn(frac, Digits) && |whole| + |frac| > 0
    ensures var m: int := DigitsValue(whole + frac);
      CoerceNumber(Signed(negative, whole + "." + frac)) == Ok(PFloat(Decimal(if negative then -m else m, |frac|)))
  {
    var t := Signed(negative, whole + "." + frac);
    PointTextIsDecimal(whole, frac);
    UnsignedOfPointText(negative, whole, frac);
    NumberAccepts(t);
    assert t[|t| - |frac| - 1] == '.';
    ParseFloatOfPointText(negative, whole, frac);
  }

  /** What every tag rule inspects is the stripped text: padding the payload
      with whitespace changes nothing. */
  lemma TransformSeesTrimmedText(ts: TimestampParser, key: string, s: string)
    ensures TransformPrimitiveType(ts, key, JStr(s)) == TransformPrimitiveType(ts, key, JStr(Trim(s)))
  {
    TrimIdempotent(s);
  }

  /** `S`: blank text fails; otherwise the result is the timestamp when the
      stripped text parses as one, and exactly the stripped text when it
      does not. */
  lemma StringRule(ts: TimestampParser, s: string)
    ensures var r := TransformPrimitiveType(ts, "S", JStr(s));
      && (r == Fail <==> Trim(s) == "")
      && (r.Ok? ==> r.value == PStr(Trim(s)) || (r.value.PInt? && ts(Trim(s)) == Some(r.value.i)))
      && (r == Ok(PStr(Trim(s))) <==> Trim(s) != "" && ts(Trim(s)).None?)
  {
  }

  /** `N`: success exactly on numerals; an `int` exactly when the stripped
      text is all digits, then its decimal value; otherwise a `float`. */
  lemma NumberRule(ts: TimestampParser, s: string)
    ensures var r := TransformPrimitiveType(ts, "N", JStr(s));
      && (r.Ok? <==> IsNumeral(Trim(s)))
      && (r.Ok? ==> r.value.PInt? || r.value.PFloat?)
      && (r.Ok? ==> (r.value.PInt? <==> IsDigitString(Trim(s))))
      && (r.Ok? && r.value.PInt? ==> r.value.i == DigitsValue(Trim(s)))
  {
    NumberAccepts(Trim(s));
  }

  /** `BOOL`: true exactly on the truthy tokens, false exactly on the falsy
      ones (the two sets are disjoint), failure on any other text. */
  lemma BoolRule(ts: TimestampParser, s: string)
    ensures var r := TransformPrimitiveType(ts, "BOOL", JStr(s));
      && (r == Ok(PBool(true)) <==> Trim(s) in BoolTruthValues)
      && (r == Ok(PBool(false)) <==> Trim(s) in BoolFalseValues)
      && (r.Ok? ==> r.value.PBool?)
  {
    BoolTokensDisjoint(Trim(s));
  }

  /** `NULL`: `None` exactly on the truthy tokens; the falsy ones fail like
      any other text. */
  lemma NullRule(ts: TimestampParser, s: string)
    ensures var r := TransformPrimitiveType(ts, "NULL", JStr(s));
      && (r.Ok? <==> Trim(s) in BoolTruthValues)
      && (r.Ok? ==> r.value == PNull)
      && (Trim(s) in BoolFalseValues ==> r == Fail)
  {
    BoolTokensDisjoint(Trim(s));
  }

  lemma BoolTokensDisjoint(t: string)
    ensures !(t in BoolTruthValues && t in BoolFalseValues)
    ensures t in NullValues <==> t in BoolTruthValues
  {
  }
}
