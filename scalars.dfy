/** Turning an entered value into the scalar stored in a filter or an update:
    the conditional expression repeated in every query loop and in the `=`
    directive, the `int()`/`float()` operand of a `+=` directive, and the
    `int()` parse of the read-many limit. */
module Scalars {
  import opened Outcomes
  import opened Text

  /** A stored value. `Decimal` is a Python float written as digits around
      one point, kept as its two digit strings; `FloatText` is any other text
      Python's `float()` accepts (signs, exponents, `inf`, `nan`), kept as entered. */
  datatype Scalar =
    | Int(value: nat)
    | Decimal(whole: string, fraction: string)
    | FloatText(text: string)
    | Str(text: string)

  /** The longest digit string `int()` converts: from Python 3.11 on (and in
      the 3.10.7 and 3.9.14 releases) a longer base-ten string raises
      `ValueError`. 4300 is the interpreter's default setting. */
  const IntMaxStrDigits := 4300

  /** The shell's value coercion: an all-digit token goes through `int()`;
      otherwise a token that is all digits once its first point is removed
      goes through `float()`; anything else, and any token on which `int()`
      raises, stays the entered text. */
  function Coerce(v: string): (r: Scalar)
    ensures r.Int? <==> IsDigits(v) && |v| <= IntMaxStrDigits
    ensures r.Int? ==> r.value == DigitsValue(v)
    ensures r.Decimal? ==> v == r.whole + "." + r.fraction
    ensures r.Decimal? ==> AllDigits(r.whole) && AllDigits(r.fraction) && |r.whole| + |r.fraction| >= 1
    ensures r.Str? ==> r.text == v
    ensures !r.FloatText?
  {
    if IsDigits(v) then
      if |v| <= IntMaxStrDigits then Int(DigitsValue(v)) else Str(v)
    else if IsDigits(RemoveFirst(v, '.')) then
      FindFirst(v, ".");
      var k := Find(v, ".").value;
      OccursAtChar(v, '.', k);
      assert v == v[..k] + "." + v[k + 1..];
      var t := RemoveFirst(v, '.');
      assert t == v[..k] + v[k + 1..];
      assert v[..k] == t[..k] && v[k + 1..] == t[k..];
      Decimal(v[..k], v[k + 1..])
    else Str(v)
  }

  /** An independent description of the tokens the shell turns into a float:
      exactly one `.`, every other character a digit, and at least one digit. */
  predicate IsDecimalToken(v: string)
  {
    && |v| >= 2
    && CountChar(v, '.') == 1
    && forall i :: 0 <= i < |v| && v[i] != '.' ==> IsDigit(v[i])
  }

  lemma AllDigitsNoPoint(s: string)
    requires AllDigits(s)
    ensures CountChar(s, '.') == 0
  {
    CountCharZero(s, '.');
  }

  /** The "remove the first point, then test isdigit" expression accepts
      exactly the decimal tokens (once the all-digit tokens are taken out). */
  lemma CoerceDecimalIff(v: string)
    ensures Coerce(v).Decimal? <==> IsDecimalToken(v)
  {
    if Coerce(v).Decimal? { CoercedDecimalIsToken(v); }
    if IsDecimalToken(v) { DecimalTokenIsCoerced(v); }
  }

  lemma CoercedDecimalIsToken(v: string)
    requires Coerce(v).Decimal?
    ensures IsDecimalToken(v)
  {
    var r := Coerce(v);
    AllDigitsNoPoint(r.whole);
    AllDigitsNoPoint(r.fraction);
    CountCharConcat(r.whole, ".", '.');
    CountCharConcat(r.whole + ".", r.fraction, '.');
    forall i | 0 <= i < |v| && v[i] != '.' ensures IsDigit(v[i]) {
      if i < |r.whole| { assert v[i] == r.whole[i]; }
      else if i > |r.whole| { assert v[i] == r.fraction[i - |r.whole| - 1]; }
    }
  }

  lemma DecimalTokenIsCoerced(v: string)
    requires IsDecimalToken(v)
    ensures Coerce(v).Decimal?
  {
    DecimalTokenPoint(v);
    FindFirst(v, ".");
    var k := Find(v, ".").value;
    CountCharZero(v[k + 1..], '.');
    var t := RemoveFirst(v, '.');
    assert t == v[..k] + v[k + 1..];
    forall i | 0 <= i < |t| ensures IsDigit(t[i]) {
      if i < k {
        OccursAtChar(v, '.', i);
        assert t[i] == v[i];
      } else {
        assert t[i] == v[k + 1..][i - k];
      }
    }
    assert !IsDigit(v[k]);
  }

  /** `find` stops at the one point of a decimal token, and no point follows it. */
  lemma DecimalTokenPoint(v: string)
    requires IsDecimalToken(v)
    ensures Find(v, ".").Some?
    ensures var k := Find(v, ".").value; k < |v| && v[k] == '.' && CountChar(v[k + 1..], '.') == 0
  {
    assert Find(v, ".").Some? by {
      CountCharZero(v, '.');
      var p :| 0 <= p < |v| && v[p] == '.';
      OccursAtChar(v, '.', p);
      FindFirst(v, ".");
    }
    var k := Find(v, ".").value;
    assert k < |v| && v[k] == '.' by {
      FindFirst(v, ".");
      OccursAtChar(v, '.', k);
    }
    var rest := v[k + 1..];
    assert v == v[..k] + ([v[k]] + rest);
    CountCharConcat(v[..k], [v[k]] + rest, '.');
    CountCharConcat([v[k]], rest, '.');
    assert CountChar([v[k]], '.') == 1;
  }

  /** Typing a number's decimal text gives back that number as an integer. */
  lemma CoerceNatText(n: nat)
    requires |NatToDigits(n)| <= IntMaxStrDigits
    ensures Coerce(NatToDigits(n)) == Int(n)
  {
    NatToDigitsValue(n);
  }

  /** A digit string longer than `int()` accepts makes the conversion raise,
      and the handler keeps the entered text. */
  lemma CoerceTooManyDigits(v: string)
    requires IsDigits(v) && |v| > IntMaxStrDigits
    ensures Coerce(v) == Str(v)
  {
  }

  /** Typing digits around a single point gives back those digit strings as
      a float. */
  lemma CoerceDecimalText(w: string, f: string)
    requires AllDigits(w) && AllDigits(f) && |w| + |f| >= 1
    ensures Coerce(w + "." + f) == Decimal(w, f)
  {
    var v := w + "." + f;
    assert v[|w|] == '.';
    OccursAtChar(v, '.', |w|);
    FindFirst(v, ".");
    var k := Find(v, ".").value;
    OccursAtChar(v, '.', k);
    assert k == |w|;
    assert v[..k] == w && v[k + 1..] == f;
    var t := RemoveFirst(v, '.');
    assert t == w + f;
    assert !IsDigits(v);
  }

  /** The everyday integer cases. */
  lemma CoerceIntExamples()
    ensures Coerce("42") == Int(42)
    ensures Coerce("007") == Int(7)
  {
    CoerceNatText(42);
    assert NatToDigits(42) == "42";
    assert DigitsValue("007") == 7 by {
      assert "007"[..2] == "00" && "00"[..1] == "0" && "0"[..0] == "";
    }
  }

  lemma CoerceDecimalExample()
    ensures Coerce("42.5") == Decimal("42", "5")
  {
    CoerceDecimalText("42", "5");
    assert "42" + "." + "5" == "42.5";
  }

  /** A point with digits on one side only is still a float. */
  lemma CoerceLeadingPointExample()
    ensures Coerce(".5") == Decimal("", "5")
  {
    CoerceDecimalText("", "5");
    assert "" + "." + "5" == ".5";
  }

  lemma CoerceTrailingPointExample()
    ensures Coerce("5.") == Decimal("5", "")
  {
    CoerceDecimalText("5", "");
    assert "5" + "." + "" == "5.";
  }

  lemma CoerceTextExamples()
    ensures Coerce("-5") == Str("-5")
    ensures Coerce("abc") == Str("abc")
    ensures Coerce(" 5") == Str(" 5")
  {
    NotDecimal("-5", 0);
    NotDecimal(" 5", 0);
    NotDecimal("abc", 0);
  }

  lemma CoerceTwoPoints()
    ensures Coerce("1.0.2") == Str("1.0.2")
  {
    CoerceDecimalIff("1.0.2");
    assert CountChar("1.0.2", '.') == 2;
  }

  lemma CoerceNoDigits()
    ensures Coerce(".") == Str(".")
    ensures Coerce("") == Str("")
  {
    CoerceDecimalIff(".");
    CoerceDecimalIff("");
  }

  /** A token with a character that is neither a digit nor a point is kept as text. */
  lemma NotDecimal(v: string, i: nat)
    requires i < |v| && !IsDigit(v[i]) && v[i] != '.'
    ensures Coerce(v) == Str(v)
  {
    CoerceDecimalIff(v);
  }

  /** Python's `digitpart`: a digit, then digits, each optionally preceded
      by one underscore. */
  predicate IsDigitPart(s: string)
    decreases |s|
  {
    && |s| > 0
    && IsDigit(s[0])
    && (|s| == 1 || IsDigitPart(if s[1] == '_' then s[2..] else s[1..]))
  }

  /** Character by character: digits and underscores, a digit at each end,
      and never two underscores in a row. */
  predicate DigitPartChars(s: string)
  {
    && |s| > 0
    && IsDigit(s[0])
    && IsDigit(s[|s| - 1])
    && (forall i :: 0 <= i < |s| ==> IsDigit(s[i]) || s[i] == '_')
    && (forall i :: 0 <= i < |s| - 1 && s[i] == '_' ==> s[i + 1] != '_')
  }

  lemma {:induction false} DigitPartIff(s: string)
    ensures IsDigitPart(s) <==> DigitPartChars(s)
    decreases |s|
  {
    if |s| > 1 {
      var t := if s[1] == '_' then s[2..] else s[1..];
      DigitPartIff(t);
      var d := |s| - |t|;
      assert forall i :: 0 <= i < |t| ==> t[i] == s[i + d];
      if DigitPartChars(s) {
        assert DigitPartChars(t) by {
          if s[1] == '_' { assert s[2] != '_'; }
          forall i | 0 <= i < |t| ensures IsDigit(t[i]) || t[i] == '_' {
            assert t[i] == s[i + d];
          }
        }
      }
      if DigitPartChars(t) && IsDigit(s[0]) {
        forall i | 0 <= i < |s| ensures IsDigit(s[i]) || s[i] == '_' {
          if i >= d { assert s[i] == t[i - d]; }
        }
        forall i | 0 <= i < |s| - 1 && s[i] == '_' ensures s[i + 1] != '_' {
          if i >= d { assert s[i] == t[i - d] && s[i + 1] == t[i + 1 - d]; }
        }
        assert s[|s| - 1] == t[|t| - 1];
      }
    }
  }

  lemma {:induction false} DigitsAreDigitPart(s: string)
    requires IsDigits(s)
    ensures IsDigitPart(s)
    decreases |s|
  {
    if |s| > 1 {
      assert IsDigit(s[1]);
      DigitsAreDigitPart(s[1..]);
    }
  }

  /** `s` without its underscores. */
  function DropUnderscores(s: string): (r: string)
    ensures (forall i :: 0 <= i < |s| ==> IsDigit(s[i]) || s[i] == '_') ==> AllDigits(r)
    ensures AllDigits(s) ==> r == s
    ensures |r| == |s| - CountChar(s, '_') && CountChar(r, '_') == 0
  {
    if s == [] then []
    else if s[0] == '_' then DropUnderscores(s[1..])
    else [s[0]] + DropUnderscores(s[1..])
  }

  /** Removing underscores keeps the order of everything else: it works
      piece by piece. */
  lemma {:induction false} DropUnderscoresConcat(a: string, b: string)
    ensures DropUnderscores(a + b) == DropUnderscores(a) + DropUnderscores(b)
  {
    if a == [] {
      assert a + b == b;
    } else {
      assert (a + b)[0] == a[0] && (a + b)[1..] == a[1..] + b;
      DropUnderscoresConcat(a[1..], b);
      if a[0] != '_' {
        assert [a[0]] + (DropUnderscores(a[1..]) + DropUnderscores(b))
            == ([a[0]] + DropUnderscores(a[1..])) + DropUnderscores(b);
      }
    }
  }

  /** `t` without one leading sign. */
  function Unsigned(t: string): string
  {
    if |t| > 0 && (t[0] == '+' || t[0] == '-') then t[1..] else t
  }

  /** The white space `int()` skips around its number: space, and tab to
      carriage return. Unlike `str.strip()`, it does not skip the separators
      0x1C to 0x1F. */
  predicate IsIntSpace(c: char)
  {
    var k := c as int;
    k == 32 || 9 <= k <= 13
  }

  /** The white space `int()` skips before its number. */
  function IntTrimLeft(s: string): string
  {
    if s != [] && IsIntSpace(s[0]) then IntTrimLeft(s[1..]) else s
  }

  /** The white space `int()` skips after its number. */
  function IntTrimRight(s: string): string
  {
    if s != [] && IsIntSpace(s[|s| - 1]) then IntTrimRight(s[..|s| - 1]) else s
  }

  /** What `int()` parses once it has skipped the white space at both ends. */
  function IntStrip(s: string): string
  {
    IntTrimRight(IntTrimLeft(s))
  }

  /** `int()` skips the longest run of its white space at the front, and no more. */
  lemma {:induction false} IntTrimLeftShape(s: string)
    ensures var r := IntTrimLeft(s);
      && |r| <= |s| && r == s[|s| - |r|..]
      && (forall i :: 0 <= i < |s| - |r| ==> IsIntSpace(s[i]))
      && (r == [] || !IsIntSpace(r[0]))
  {
    if s != [] && IsIntSpace(s[0]) {
      var t := s[1..];
      IntTrimLeftShape(t);
      var r := IntTrimLeft(t);
      assert t[|t| - |r|..] == s[|s| - |r|..];
      forall i | 0 <= i < |s| - |r| ensures IsIntSpace(s[i]) {
        if i > 0 { assert s[i] == t[i - 1]; }
      }
    }
  }

  /** `int()` skips the longest run of its white space at the back, and no more. */
  lemma {:induction false} IntTrimRightShape(s: string)
    ensures var r := IntTrimRight(s);
      && |r| <= |s| && r == s[..|r|]
      && (forall i :: |r| <= i < |s| ==> IsIntSpace(s[i]))
      && (r == [] || !IsIntSpace(r[|r| - 1]))
  {
    if s != [] && IsIntSpace(s[|s| - 1]) {
      var t := s[..|s| - 1];
      IntTrimRightShape(t);
      var r := IntTrimRight(t);
      assert t[..|r|] == s[..|r|];
      forall i | |r| <= i < |s| ensures IsIntSpace(s[i]) {
        if i < |t| { assert s[i] == t[i]; }
      }
    }
  }

  /** Text with none of `int()`'s white space at either end is parsed as it is. */
  lemma IntStripUnspaced(s: string)
    requires s == [] || (!IsIntSpace(s[0]) && !IsIntSpace(s[|s| - 1]))
    ensures IntStrip(s) == s
  {
  }

  /** `int(s)` for base ten: surrounding white space, one optional sign, and a digitpart. */
  function ParseInt(s: string): Option<int>
  {
    var t := IntStrip(s);
    var body := Unsigned(t);
    if !IsDigitPart(body) then None
    else
      DigitPartIff(body);
      var digits := DropUnderscores(body);
      if |digits| > IntMaxStrDigits then None
      else
        var magnitude: int := DigitsValue(digits);
        Some(if |t| > 0 && t[0] == '-' then -magnitude else magnitude)
  }

  /** The decimal text of an integer, with a leading `-` when negative. */
  function IntToText(n: int): string
  {
    if n < 0 then "-" + NatToDigits(-n) else NatToDigits(n)
  }

  /** The read-many limit: the parsed integer, or 5 when `int()` raises. */
  function ParseLimit(s: string): int
  {
    match ParseInt(s)
    case Some(n) => n
    case None => 5
  }

  /** Text with no white space around it, one optional sign and a plain digit
      string of at most 4300 digits parses to the signed value of the digits. */
  lemma ParseUnspacedDigits(t: string, d: string)
    requires IntStrip(t) == t && Unsigned(t) == d
    requires IsDigits(d) && |d| <= IntMaxStrDigits
    ensures var v: int := DigitsValue(d);
      ParseInt(t) == Some(if |t| > 0 && t[0] == '-' then -v else v)
  {
    DigitsAreDigitPart(d);
  }

  /** A digit string, with or without a leading `-`, parses to its value. */
  lemma ParseSignedDigits(d: string, negative: bool)
    requires IsDigits(d) && |d| <= IntMaxStrDigits
    ensures var v: int := DigitsValue(d);
      ParseInt(if negative then "-" + d else d) == Some(if negative then -v else v)
  {
    var t := if negative then "-" + d else d;
    assert IntStrip(t) == t by {
      assert t[|t| - 1] == d[|d| - 1];
      assert !IsIntSpace(t[0]) && !IsIntSpace(t[|t| - 1]);
      IntStripUnspaced(t);
    }
    assert Unsigned(t) == d;
    ParseUnspacedDigits(t, d);
  }

  /** Typing any integer as the limit selects exactly that integer. */
  lemma ParseLimitText(n: int)
    requires |NatToDigits(if n < 0 then -n else n)| <= IntMaxStrDigits
    ensures ParseInt(IntToText(n)) == Some(n)
    ensures ParseLimit(IntToText(n)) == n
  {
    var m: nat := if n < 0 then -n else n;
    NatToDigitsValue(m);
    ParseSignedDigits(NatToDigits(m), n < 0);
  }

  /** A limit line of more digits than `int()` accepts falls back to 5. */
  lemma ParseLimitTooManyDigits(s: string)
    requires IsDigits(s) && |s| > IntMaxStrDigits
    ensures ParseLimit(s) == 5
  {
    assert !IsIntSpace(s[0]) && !IsIntSpace(s[|s| - 1]);
    IntStripUnspaced(s);
    assert Unsigned(s) == s;
    DigitsAreDigitPart(s);
  }

  /** Single underscores between digits are allowed; a doubled one is not. */
  lemma ParseLimitUnderscoreExamples()
    ensures ParseLimit("1_0") == 10
    ensures ParseLimit("1__0") == 5
  {
    var t := "1_0";
    IntStripUnspaced(t);
    assert Unsigned(t) == t;
    assert t[2..] == "0";
    assert IsDigitPart(t);
    assert DropUnderscores(t) == "10" by {
      assert t[1..] == "_0" && t[1..][1..] == "0";
    }
    assert DigitsValue("10") == 10 by { assert "10"[..1] == "1"; }
    var b := "1__0";
    IntStripUnspaced(b);
    assert Unsigned(b) == b;
    assert b[2..] == "_0";
    assert !IsDigitPart(b);
  }

  lemma ParseLimitFallbackExamples()
    ensures ParseLimit("") == 5
    ensures ParseLimit("ten") == 5
  {
    var t := "ten";
    assert IntTrimLeft(t) == t;
    assert IntTrimRight(t) == t;
    assert Unsigned(t) == t;
    assert !IsDigit(t[0]);
  }

  lemma ParseLimitTextExamples()
    ensures ParseLimit("12") == 12
    ensures ParseLimit("-3") == -3
  {
    assert NatToDigits(1) == "1" && NatToDigits(3) == "3";
    assert NatToDigits(12) == NatToDigits(1) + [DigitChar(2)];
    assert NatToDigits(12) == "12";
    ParseLimitText(12);
    assert IntToText(-3) == "-" + NatToDigits(3) == "-3";
    ParseLimitText(-3);
  }

  /** `int()` skips a tab before the number and a vertical tab after it. */
  lemma ParseLimitSpaceExample()
    ensures ParseLimit("\t12\U{0B}") == 12
  {
    var w := "\t12\U{0B}";
    assert IntTrimLeft(w) == "12\U{0B}" by { assert w[1..] == "12\U{0B}"; }
    assert IntTrimRight("12\U{0B}") == "12" by { assert "12\U{0B}"[..2] == "12"; }
    assert NatToDigits(12) == "12" by {
      assert NatToDigits(1) == "1";
      assert NatToDigits(12) == NatToDigits(1) + [DigitChar(2)];
    }
    NatToDigitsValue(12);
    assert IsDigits("12");
    ParseUnspacedDigits("12", "12");
  }

  /** A leading separator 0x1C, which `str.strip()` would remove, makes
      `int()` raise, so the limit falls back to 5. */
  lemma ParseLimitSeparatorExample()
    ensures ParseLimit("\U{1C}12") == 5
  {
    var v := "\U{1C}12";
    assert !IsIntSpace(v[0]) && !IsIntSpace(v[|v| - 1]);
    IntStripUnspaced(v);
    assert Unsigned(v) == v;
    assert !IsDigit(v[0]);
  }

  /** Python's `float()` on an already stripped string: one optional sign,
      then `inf`, `infinity` or `nan` in any case, or a number with an
      optional exponent. */
  predicate IsFloatLiteral(t: string)
  {
    var b := Unsigned(t);
    Lower(b) == "inf" || Lower(b) == "infinity" || Lower(b) == "nan" || IsFloatNumber(b)
  }

  /** A mantissa, optionally followed by `e` or `E`, one optional sign and a digitpart. */
  predicate IsFloatNumber(b: string)
  {
    match Find(Lower(b), "e")
    case None => IsMantissa(b)
    case Some(k) => IsMantissa(b[..k]) && IsDigitPart(Unsigned(b[k + 1..]))
  }

  /** `digitpart`, `digitpart "." [digitpart]` or `"." digitpart`. */
  predicate IsMantissa(m: string)
  {
    match Find(m, ".")
    case None => IsDigitPart(m)
    case Some(k) =>
      && (k > 0 || k + 1 < |m|)
      && (k == 0 || IsDigitPart(m[..k]))
      && (k + 1 == |m| || IsDigitPart(m[k + 1..]))
  }

  /** Every token the coercion turns into a float is a float literal to
      Python too, so the coercion's `float(v)` never raises. */
  lemma DecimalIsFloatLiteral(v: string)
    requires IsDecimalToken(v)
    ensures IsFloatLiteral(v)
  {
    DecimalNoExponent(v);
    DecimalMantissa(v);
  }

  /** A decimal token carries no sign, no letter and so no exponent. */
  lemma DecimalNoExponent(v: string)
    requires IsDecimalToken(v)
    ensures Unsigned(v) == v && Lower(v) == v && Find(v, "e") == None
    ensures v[0] == '.' || IsDigit(v[0])
  {
    forall i | 0 <= i < |v| ensures !('A' <= v[i] <= 'Z') {
      assert IsDigit(v[i]) || v[i] == '.';
    }
    LowerUnchanged(v);
    forall j: nat ensures !OccursAt(v, "e", j) {
      OccursAtChar(v, 'e', j);
      if j < |v| { assert IsDigit(v[j]) || v[j] == '.'; }
    }
    AbsentNotFound(v, "e");
  }

  /** The digits around a decimal token's one point make a mantissa. */
  lemma DecimalMantissa(v: string)
    requires IsDecimalToken(v)
    ensures IsMantissa(v)
  {
    DecimalTokenPoint(v);
    var k := Find(v, ".").value;
    var w, f := v[..k], v[k + 1..];
    FindFirst(v, ".");
    assert AllDigits(w) by {
      forall i | 0 <= i < |w| ensures IsDigit(w[i]) {
        OccursAtChar(v, '.', i);
      }
    }
    CountCharZero(f, '.');
    assert AllDigits(f) by {
      forall i | 0 <= i < |f| ensures IsDigit(f[i]) {
        assert f[i] == v[k + 1 + i];
      }
    }
    if |w| > 0 { DigitsAreDigitPart(w); }
    if |f| > 0 { DigitsAreDigitPart(f); }
  }

  /** The operand of a `+=` directive, stripped: `int()` when all digits,
      otherwise `float()`, and None when `float()` raises. */
  function IncOperand(t: string): Option<Scalar>
  {
    if IsDigits(t) then
      if |t| <= IntMaxStrDigits then Some(Int(DigitsValue(t))) else None
    else if !IsFloatLiteral(t) then None
    else if Coerce(t).Decimal? then Some(Coerce(t))
    else Some(FloatText(t))
  }

  /** Whatever the `=` coercion turns into a number, `+=` accepts as the same number. */
  lemma IncOperandAgrees(t: string)
    requires Coerce(t).Int? || Coerce(t).Decimal?
    ensures IncOperand(t) == Some(Coerce(t))
  {
    if Coerce(t).Decimal? {
      CoerceDecimalIff(t);
      DecimalIsFloatLiteral(t);
    }
  }

  /** A `+=` operand of more digits than `int()` accepts is rejected, since
      the digit test sends it to `int()` and never to `float()`. */
  lemma IncOperandTooManyDigits(t: string)
    requires IsDigits(t) && |t| > IntMaxStrDigits
    ensures IncOperand(t) == None
  {
  }

  lemma IncOperandNumberExamples()
    ensures IncOperand("5") == Some(Int(5))
    ensures IncOperand("2.5") == Some(Decimal("2", "5"))
  {
    CoerceNatText(5);
    assert NatToDigits(5) == "5";
    CoerceDecimalText("2", "5");
    assert "2" + "." + "5" == "2.5";
    IncOperandAgrees("5");
    IncOperandAgrees("2.5");
  }

  /** A signed decimal token: `+=` accepts it through `float()` and keeps it
      as entered, while the `=` coercion stores it as text. */
  lemma IncOperandSigned(t: string)
    requires |t| > 0 && (t[0] == '+' || t[0] == '-') && IsDecimalToken(t[1..])
    ensures IncOperand(t) == Some(FloatText(t))
    ensures Coerce(t) == Str(t)
  {
    var b := t[1..];
    DecimalIsFloatLiteral(b);
    assert Unsigned(b) == b by {
      assert b[0] == '.' || IsDigit(b[0]);
    }
    assert Unsigned(t) == b;
    assert !IsDigit(t[0]);
    NotDecimal(t, 0);
  }

  /** `1e3` is a float literal to Python. */
  lemma ExponentIsFloatLiteral()
    ensures IsFloatLiteral("1e3")
  {
    var t := "1e3";
    assert Unsigned(t) == t;
    assert Lower(t) == t;
    OccursAtChar(t, 'e', 0);
    OccursAtChar(t, 'e', 1);
    assert Find(t, "e") == Some(1);
    assert t[..1] == "1" && t[2..] == "3";
    OccursAtChar("1", '.', 0);
    OccursAtChar("1", '.', 1);
    assert Find("1", ".") == None;
    DigitsAreDigitPart("1");
    DigitsAreDigitPart("3");
  }

  lemma IncOperandExponentExample()
    ensures IncOperand("1e3") == Some(FloatText("1e3"))
  {
    ExponentIsFloatLiteral();
    assert !IsDigit("1e3"[1]);
    NotDecimal("1e3", 1);
  }

  lemma IncOperandRejectExamples()
    ensures IncOperand("abc") == None
    ensures IncOperand("") == None
  {
    var t := "abc";
    assert Unsigned(t) == t;
    assert Lower(t) == t;
    assert !IsDigit(t[0]) && t[0] != '_' && t[0] != '.';
    assert !IsMantissa(t) by {
      if Find(t, ".").Some? {
        var k := Find(t, ".").value;
        OccursAtChar(t, '.', k);
      }
    }
    assert Lower("") == "";
  }
}
