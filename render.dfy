/**
 * Literal text for values, the inverse of the literal evaluator: every value the
 * inferencer can produce from a literal has a text that evaluates back to it.
 */
module Rendering {
  import opened Chars
  import opened Outcomes
  import opened Literals

  /** A float's text: a sign, then `M` followed by `E` zeros and `.0` for a
      nonnegative exponent `E`, or `M.e-K` for the exponent `-K`. */
  function FloatText(d: Decimal): string {
    if d.mantissa < 0 then "-" + MagnitudeText(-d.mantissa, d.exponent)
    else MagnitudeText(d.mantissa, d.exponent)
  }

  function MagnitudeText(m: nat, e: int): string {
    if e >= 0 then NatText(m) + Zeros(e) + ".0" else NatText(m) + ".e-" + NatText(-e)
  }

  /** Python literal text for a value: single-quoted strings, lists, tuples with a
      trailing comma when they have one item. */
  function Render(v: Value): string
    decreases v
  {
    match v
    case Int(n) => IntText(n)
    case Float(d) => FloatText(d)
    case Bool(b) => if b then "True" else "False"
    case NoneValue => "None"
    case Str(t) => "'" + t + "'"
    case List(items) => "[" + RenderItems(items) + "]"
    case Tuple(items) => "(" + RenderItems(items) + (if |items| == 1 then ",)" else ")")
  }

  /** The items of a list or tuple, separated by commas. */
  function RenderItems(items: seq<Value>): string
    decreases items
  {
    if items == [] then ""
    else if |items| == 1 then Render(items[0])
    else Render(items[0]) + "," + RenderItems(items[1..])
  }

  /** Characters a single-quoted rendering can hold unescaped. */
  predicate SafeText(t: string) {
    forall k | 0 <= k < |t| :: t[k] != '\'' && t[k] != '\\' && t[k] != '\n' && t[k] != '\r'
  }

  /** The values `Render` writes so that they read back: canonical decimals and safe strings. */
  ghost predicate Renderable(v: Value)
    decreases v
  {
    match v
    case Float(d) => Canonical(d)
    case Str(t) => SafeText(t)
    case List(items) => forall k | 0 <= k < |items| :: Renderable(items[k])
    case Tuple(items) => forall k | 0 <= k < |items| :: Renderable(items[k])
    case _ => true
  }

  /** Whether the parser flags the rendered value as a bare (unsigned) numeric constant. */
  predicate Numeric(v: Value) {
    match v
    case Int(n) => n >= 0
    case Float(d) => d.mantissa >= 0
    case _ => false
  }

  /** `t` occurs in `s` at `i`. */
  predicate At(s: string, i: nat, t: string) {
    i + |t| <= |s| && forall k | 0 <= k < |t| :: s[i + k] == t[k]
  }

  /** What may follow an expression inside a rendering: its end, a comma or a closing bracket. */
  predicate Delimited(s: string, j: nat) {
    j == |s| || (j < |s| && (s[j] == ',' || s[j] == ']' || s[j] == ')'))
  }

  lemma {:induction false} AtConcat(s: string, i: nat, a: string, b: string)
    requires At(s, i, a + b)
    ensures At(s, i, a) && At(s, i + |a|, b)
  {
    assert forall k | 0 <= k < |a| :: (a + b)[k] == a[k];
    assert forall k | 0 <= k < |b| :: (a + b)[|a| + k] == b[k];
  }

  lemma {:induction false} AtIndex(s: string, i: nat, t: string, k: nat)
    requires At(s, i, t) && k < |t|
    ensures s[i + k] == t[k]
  {
  }

  lemma {:induction false} AtRest(s: string, i: nat, t: string)
    requires At(s, i, t) && |t| > 0
    ensures s[i] == t[0] && At(s, i + 1, t[1..])
  {
    assert s[i + 0] == t[0];
    assert forall k | 0 <= k < |t| - 1 :: t[1..][k] == t[k + 1];
  }

  /** A run of digits followed by neither a digit nor an underscore is one digit part. */
  lemma {:induction false} DigitRun(s: string, i: nat, j: nat)
    requires i < j <= |s| && forall k | i <= k < j :: IsDigit(s[k])
    requires j == |s| || (!IsDigit(s[j]) && s[j] != '_')
    ensures DigitPartEnd(s, i) == j
    decreases j - i
  {
    if i + 1 < j {
      DigitRun(s, i + 1, j);
    }
  }

  /** The characters of a digit string placed at `i` are digits. */
  lemma {:induction false} DigitsChars(s: string, i: nat, t: string)
    requires At(s, i, t) && forall k | 0 <= k < |t| :: IsDigit(t[k])
    ensures forall k | i <= k < i + |t| :: IsDigit(s[k])
  {
    forall k | i <= k < i + |t|
      ensures IsDigit(s[k])
    {
      AtIndex(s, i, t, k - i);
    }
  }

  /** Reading the digits of `t` where `t` occurs in `s` is reading them in `t`. */
  lemma {:induction false} DigitsAt(s: string, i: nat, t: string, p: nat, acc: nat)
    requires At(s, i, t) && p <= |t|
    ensures DigitsFrom(s, i + p, i + |t|, acc) == DigitsFrom(t, p, |t|, acc)
    decreases |t| - p
  {
    if p < |t| {
      AtIndex(s, i, t, p);
      DigitsAt(s, i, t, p + 1, if IsDigit(t[p]) then 10 * acc + DigitValue(t[p]) else acc);
    }
  }

  /** Reading one more character shifts in one more digit. */
  lemma {:induction false} DigitsSnoc(s: string, p: nat, q: nat, acc: nat)
    requires p <= q < |s|
    ensures var v := DigitsFrom(s, p, q, acc);
      DigitsFrom(s, p, q + 1, acc) == if IsDigit(s[q]) then 10 * v + DigitValue(s[q]) else v
    decreases q - p
  {
    if p < q {
      DigitsSnoc(s, p + 1, q, if IsDigit(s[p]) then 10 * acc + DigitValue(s[p]) else acc);
    }
  }

  /** A run of name characters followed by something else is one name. */
  lemma {:induction false} NameRun(s: string, i: nat, t: string)
    requires (forall k | 0 <= k < |t| :: IsIdentChar(t[k])) && At(s, i, t)
    requires i + |t| == |s| || (i + |t| < |s| && !IsIdentChar(s[i + |t|]))
    ensures NameEnd(s, i) == i + |t|
    decreases |t|
  {
    if |t| > 0 {
      AtRest(s, i, t);
      NameRun(s, i + 1, t[1..]);
    }
  }

  /** The digits of `n` denote `n`. */
  lemma {:induction false} NatTextValue(n: nat)
    ensures DigitsValue(NatText(n)) == n
    ensures n >= 10 ==> |NatText(n)| > 1
  {
    var t := NatText(n);
    if n >= 10 {
      var u := NatText(n / 10);
      NatTextValue(n / 10);
      assert t == u + [DigitChar(n % 10)];
      assert At(t, 0, u);
      DigitsAt(t, 0, u, 0, 0);
      DigitsSnoc(t, 0, |u|, 0);
      assert t[|u|] == DigitChar(n % 10);
      assert DigitsFrom(t, 0, |u|, 0) == n / 10;
      assert DigitsValue(t) == 10 * (n / 10) + n % 10;
    } else {
      assert DigitsFrom(t, 1, 1, DigitValue(t[0])) == n;
    }
  }

  /** A safe string followed by a single quote is a string body read unchanged. */
  lemma {:induction false} StringBodyPlain(s: string, j: nat, t: string, acc: string)
    requires SafeText(t) && At(s, j, t + "'")
    ensures StringBody(s, j, '\'', acc) == Some((acc + t, j + |t| + 1))
    decreases |t|
  {
    AtRest(s, j, t + "'");
    if t != [] {
      assert s[j] == t[0] && t[0] != '\'' && t[0] != '\\' && t[0] != '\n' && t[0] != '\r';
      assert (t + "'")[1..] == t[1..] + "'";
      assert acc + [t[0]] + t[1..] == acc + t;
      StringBodyPlain(s, j + 1, t[1..], acc + [t[0]]);
      assert StringBody(s, j, '\'', acc) == StringBody(s, j + 1, '\'', acc + [s[j]]);
    } else {
      assert acc + t == acc;
    }
  }

  /** The digits of `n`, delimited, are the integer `n`. */
  lemma {:induction false} ParseNat(s: string, i: nat, n: nat)
    requires At(s, i, NatText(n)) && Delimited(s, i + |NatText(n)|)
    ensures IsDigit(s[i]) && ParseNumber(s, i) == Some(Parsed(Int(n), true, i + |NatText(n)|))
  {
    var t := NatText(n);
    DigitsChars(s, i, t);
    DigitRun(s, i, i + |t|);
    NatTextValue(n);
    DigitsAt(s, i, t, 0, 0);
    AtIndex(s, i, t, 0);
    if s[i] == '0' {
      assert |t| == 1 && DigitValue(t[0]) == 0;
    }
  }

  /** A digit part followed by `.e-` and a delimited digit part is an exponent float. */
  lemma {:induction false} ParseExponentAt(s: string, i: nat, j: nat, e1: nat)
    requires i < j && j + 3 < e1 <= |s|
    requires IsDigit(s[i]) && DigitPartEnd(s, i) == j
    requires s[j] == '.' && s[j + 1] == 'e' && s[j + 2] == '-'
    requires IsDigit(s[j + 3]) && DigitPartEnd(s, j + 3) == e1
    requires e1 == |s| || !IsIdentChar(s[e1])
    ensures ParseNumber(s, i) == Some(Parsed(Float(Normalize(DigitsFrom(s, i, j, 0), -(DigitsFrom(s, j + 3, e1, 0) as int))), true, e1))
  {
    assert FractionEnd(s, j + 1) == j + 1;
    assert ParseNumber(s, i) == NumberOfParts(s, i, j, true, j + 1);
    assert ExponentAt(s, j + 1) == Some((-(DigitsFrom(s, j + 3, e1, 0) as int), e1));
  }

  /** `t + u + w` at `i` is `t`, then `u`, then `w`. */
  lemma {:induction false} AtThree(s: string, i: nat, t: string, u: string, w: string)
    requires At(s, i, t + u + w)
    ensures At(s, i, t) && At(s, i + |t|, u) && At(s, i + |t| + |u|, w)
  {
    AtConcat(s, i, t + u, w);
    AtConcat(s, i, t, u);
  }

  /** A nonempty string of decimal digits. */
  predicate Digits(t: string) {
    |t| > 0 && forall k | 0 <= k < |t| :: IsDigit(t[k])
  }

  /** Where the parts of `t.e-u` lie in `s`. */
  lemma {:induction false} ExponentLayout(s: string, i: nat, t: string, u: string)
    requires Digits(t) && Digits(u) && At(s, i, t + ".e-" + u)
    requires Delimited(s, i + |t| + 3 + |u|)
    ensures var j, e1 := i + |t|, i + |t| + 3 + |u|;
      && i < j && j + 3 < e1 <= |s|
      && IsDigit(s[i]) && DigitPartEnd(s, i) == j
      && s[j] == '.' && s[j + 1] == 'e' && s[j + 2] == '-'
      && IsDigit(s[j + 3]) && DigitPartEnd(s, j + 3) == e1
      && (e1 == |s| || !IsIdentChar(s[e1]))
      && DigitsFrom(s, i, j, 0) == DigitsValue(t) && DigitsFrom(s, j + 3, e1, 0) == DigitsValue(u)
  {
    AtThree(s, i, t, ".e-", u);
    AtIndex(s, i + |t|, ".e-", 0);
    AtIndex(s, i + |t|, ".e-", 1);
    AtIndex(s, i + |t|, ".e-", 2);
    DigitsChars(s, i, t);
    DigitsChars(s, i + |t| + 3, u);
    DigitRun(s, i, i + |t|);
    DigitRun(s, i + |t| + 3, i + |t| + 3 + |u|);
    DigitsAt(s, i, t, 0, 0);
    DigitsAt(s, i + |t| + 3, u, 0, 0);
  }

  /** Digits `t`, `.e-` and digits `u` read as the float `t * 10^-u`. */
  lemma {:induction false} ParseExponent(s: string, i: nat, t: string, u: string)
    requires Digits(t) && Digits(u) && At(s, i, t + ".e-" + u)
    requires Delimited(s, i + |t| + 3 + |u|)
    ensures IsDigit(s[i]) && ParseNumber(s, i) == Some(Parsed(Float(Normalize(DigitsValue(t), -(DigitsValue(u) as int))), true, i + |t| + 3 + |u|))
  {
    ExponentLayout(s, i, t, u);
    ParseExponentAt(s, i, i + |t|, i + |t| + 3 + |u|);
  }

  /** A digit part followed by `.0` and a delimiter is a point float. */
  lemma {:induction false} ParsePointZeroAt(s: string, i: nat, j: nat)
    requires i < j && j + 2 <= |s|
    requires IsDigit(s[i]) && DigitPartEnd(s, i) == j && s[j] == '.' && s[j + 1] == '0'
    requires Delimited(s, j + 2)
    ensures ParseNumber(s, i) == Some(Parsed(Float(Normalize(10 * DigitsFrom(s, i, j, 0), -1)), true, j + 2))
  {
    assert DigitPartEnd(s, j + 1) == j + 2;
    assert FractionEnd(s, j + 1) == j + 2;
    assert ParseNumber(s, i) == NumberOfParts(s, i, j, true, j + 2);
    assert DigitCount(s, j + 1, j + 2) == 1;
    var w := DigitsFrom(s, i, j, 0);
    assert DigitsFrom(s, j + 1, j + 2, w) == DigitsFrom(s, j + 2, j + 2, 10 * w + DigitValue(s[j + 1]));
  }

  /** `n` zero digits. */
  function Zeros(n: nat): (z: string)
    ensures |z| == n && forall k | 0 <= k < n :: z[k] == '0'
  {
    if n == 0 then "" else Zeros(n - 1) + "0"
  }

  /** `m * 10^n`, written without multiplication by a variable. */
  function Scale(m: nat, n: nat): nat {
    if n == 0 then m else 10 * Scale(m, n - 1)
  }

  /** Zero digits after the digits read so far scale their value. */
  lemma {:induction false} ZerosScale(s: string, p: nat, q: nat, n: nat, acc: nat)
    requires p <= q && q + n <= |s| && forall k | q <= k < q + n :: s[k] == '0'
    ensures DigitsFrom(s, p, q + n, acc) == Scale(DigitsFrom(s, p, q, acc), n)
  {
    if n > 0 {
      ZerosScale(s, p, q, n - 1, acc);
      DigitsSnoc(s, p, q + n - 1, acc);
    }
  }

  /** Scaling a mantissa with no trailing zero by `10^n` normalises back. */
  lemma {:induction false} NormalizeScaled(m: nat, e: int, n: nat)
    requires m % 10 != 0
    ensures Normalize(Scale(m, n), e - n) == Decimal(m, e)
    decreases n
  {
    if n > 0 {
      var q := Scale(m, n - 1);
      assert q > 0 by { ScalePositive(m, n - 1); }
      assert Scale(m, n) == 10 * q && (10 * q) % 10 == 0 && (10 * q) / 10 == q;
      NormalizeScaled(m, e, n - 1);
    }
  }

  lemma {:induction false} ScalePositive(m: nat, n: nat)
    requires m > 0
    ensures Scale(m, n) > 0
  {
    if n > 0 {
      ScalePositive(m, n - 1);
    }
  }

  /** Where the parts of `N 0...0 .0` lie in `s`, for the digits `N` of `m`. */
  lemma {:induction false} IntegralLayout(s: string, i: nat, m: nat, e: nat)
    requires At(s, i, NatText(m) + Zeros(e) + ".0") && Delimited(s, i + |NatText(m)| + e + 2)
    ensures var j := i + |NatText(m)| + e;
      && i < j && j + 2 <= |s|
      && IsDigit(s[i]) && DigitPartEnd(s, i) == j && s[j] == '.' && s[j + 1] == '0'
      && DigitsFrom(s, i, j, 0) == Scale(m, e)
  {
    var t := NatText(m);
    var j0 := i + |t|;
    AtThree(s, i, t, Zeros(e), ".0");
    AtIndex(s, j0 + e, ".0", 0);
    AtIndex(s, j0 + e, ".0", 1);
    DigitsChars(s, i, t);
    forall k | j0 <= k < j0 + e
      ensures s[k] == '0'
    {
      AtIndex(s, j0, Zeros(e), k - j0);
    }
    assert forall k | i <= k < j0 + e :: IsDigit(s[k]);
    DigitRun(s, i, j0 + e);
    NatTextValue(m);
    DigitsAt(s, i, t, 0, 0);
    ZerosScale(s, i, j0, e, 0);
  }

  /** The text of a canonical unsigned decimal reads back as that decimal. */
  lemma {:induction false} ParseMagnitude(s: string, i: nat, m: nat, e: int)
    requires if m == 0 then e == 0 else m % 10 != 0
    requires At(s, i, MagnitudeText(m, e)) && Delimited(s, i + |MagnitudeText(m, e)|)
    ensures IsDigit(s[i]) && ParseNumber(s, i) == Some(Parsed(Float(Decimal(m, e)), true, i + |MagnitudeText(m, e)|))
  {
    if e >= 0 {
      ParseIntegralMagnitude(s, i, m, e);
    } else {
      NatTextValue(m);
      NatTextValue(-e);
      ParseExponent(s, i, NatText(m), NatText(-e));
    }
  }

  lemma {:induction false} ParseIntegralMagnitude(s: string, i: nat, m: nat, e: nat)
    requires if m == 0 then e == 0 else m % 10 != 0
    requires At(s, i, NatText(m) + Zeros(e) + ".0") && Delimited(s, i + |NatText(m)| + e + 2)
    ensures IsDigit(s[i]) && ParseNumber(s, i) == Some(Parsed(Float(Decimal(m, e)), true, i + |NatText(m)| + e + 2))
  {
    IntegralLayout(s, i, m, e);
    PointZeroValue(s, i, i + |NatText(m)| + e, m, e);
  }

  /** Digits worth `m * 10^e` followed by `.0` read back as the decimal `m * 10^e`. */
  lemma {:induction false} PointZeroValue(s: string, i: nat, j: nat, m: nat, e: nat)
    requires if m == 0 then e == 0 else m % 10 != 0
    requires i < j && j + 2 <= |s| && Delimited(s, j + 2)
    requires IsDigit(s[i]) && DigitPartEnd(s, i) == j && s[j] == '.' && s[j + 1] == '0'
    requires DigitsFrom(s, i, j, 0) == Scale(m, e)
    ensures ParseNumber(s, i) == Some(Parsed(Float(Decimal(m, e)), true, j + 2))
  {
    ParsePointZeroAt(s, i, j);
    assert 10 * Scale(m, e) == Scale(m, e + 1);
    if m != 0 {
      NormalizeScaled(m, e, e + 1);
    }
  }

  /** The characters at `i` are those of `t`. */
  lemma {:induction false} SameTextAt(s: string, i: nat, t: string)
    requires At(s, i, t)
    ensures SameText(s, i, i + |t|, t)
    decreases |t|
  {
    if |t| > 0 {
      AtRest(s, i, t);
      SameTextAt(s, i + 1, t[1..]);
    }
  }

  /** A rendering starts with a character that neither the blank skipper, nor a closing
      delimiter, nor the unary plus takes. */
  lemma {:induction false} RenderStart(v: Value)
    ensures |Render(v)| > 0
    ensures var c := Render(v)[0]; !IsBlank(c) && c != ',' && c != ']' && c != ')' && c != '+'
  {
    match v
    case Int(n) =>
      if n >= 0 {
        assert IsDigit(NatText(n)[0]);
      }
    case Float(d) =>
      if d.mantissa >= 0 {
        var t := MagnitudeText(d.mantissa, d.exponent);
        var u := NatText(d.mantissa);
        assert IsDigit(u[0]);
        assert t[0] == u[0];
      }
    case Bool(b) =>
    case NoneValue =>
    case Str(t) =>
    case List(items) =>
    case Tuple(items) =>
  }

  /** A number literal is an expression on its own. */
  lemma {:induction false} GlueNumber(s: string, i: nat, p: Parsed)
    requires i < |s| && IsDigit(s[i]) && ParseNumber(s, i) == Some(p)
    ensures ParseExpr(s, i) == Some(p)
  {
    assert SkipBlanks(s, i) == i;
  }

  /** The digits of a natural number read back as that number, flagged numeric. */
  lemma {:induction false} ParseNatExpr(s: string, i: nat, n: nat)
    requires At(s, i, NatText(n)) && Delimited(s, i + |NatText(n)|)
    ensures ParseExpr(s, i) == Some(Parsed(Int(n), true, i + |NatText(n)|))
  {
    ParseNat(s, i, n);
    GlueNumber(s, i, Parsed(Int(n), true, i + |NatText(n)|));
  }

  /** The text of a canonical nonnegative decimal reads back as that decimal, flagged numeric. */
  lemma {:induction false} ParseMagnitudeExpr(s: string, i: nat, m: nat, e: int)
    requires if m == 0 then e == 0 else m % 10 != 0
    requires At(s, i, MagnitudeText(m, e)) && Delimited(s, i + |MagnitudeText(m, e)|)
    ensures ParseExpr(s, i) == Some(Parsed(Float(Decimal(m, e)), true, i + |MagnitudeText(m, e)|))
  {
    ParseMagnitude(s, i, m, e);
    GlueNumber(s, i, Parsed(Float(Decimal(m, e)), true, i + |MagnitudeText(m, e)|));
  }

  /** A minus sign before a bare numeric constant negates it. */
  lemma {:induction false} GlueSign(s: string, i: nat, u: Value, e: nat)
    requires i < |s| && s[i] == '-' && ParseExpr(s, i + 1) == Some(Parsed(u, true, e))
    ensures ParseExpr(s, i) == Some(Parsed(Negate(u), false, e))
  {
    assert SkipBlanks(s, i) == i;
  }

  /** Where a minus sign and the text after it lie in `s`. */
  lemma {:induction false} SignLayout(s: string, i: nat, t: string)
    requires At(s, i, "-" + t)
    ensures i < |s| && s[i] == '-' && At(s, i + 1, t)
  {
    AtConcat(s, i, "-", t);
    AtIndex(s, i, "-", 0);
  }

  /** A negative integer's text, a minus sign before its digits, reads back as that
      integer; the sign makes it no longer a bare numeric constant. */
  lemma {:induction false} ParseNegativeInt(s: string, i: nat, n: nat)
    requires At(s, i, "-" + NatText(n)) && Delimited(s, i + 1 + |NatText(n)|)
    ensures ParseExpr(s, i) == Some(Parsed(Int(-(n as int)), false, i + 1 + |NatText(n)|))
  {
    SignLayout(s, i, NatText(n));
    ParseNatExpr(s, i + 1, n);
    GlueSign(s, i, Int(n), i + 1 + |NatText(n)|);
  }

  /** A negative float's text, a minus sign before its magnitude, reads back as that float. */
  lemma {:induction false} ParseNegativeFloat(s: string, i: nat, m: nat, e: int)
    requires m % 10 != 0
    requires At(s, i, "-" + MagnitudeText(m, e)) && Delimited(s, i + 1 + |MagnitudeText(m, e)|)
    ensures ParseExpr(s, i) == Some(Parsed(Float(Decimal(-(m as int), e)), false, i + 1 + |MagnitudeText(m, e)|))
  {
    SignLayout(s, i, MagnitudeText(m, e));
    ParseMagnitudeExpr(s, i + 1, m, e);
    GlueSign(s, i, Float(Decimal(m, e)), i + 1 + |MagnitudeText(m, e)|);
  }

  /** `True`, `False` and `None` read back as themselves. */
  lemma {:induction false} ParseWord(s: string, i: nat, v: Value)
    requires v.Bool? || v.NoneValue?
    requires At(s, i, Render(v)) && Delimited(s, i + |Render(v)|)
    ensures ParseExpr(s, i) == Some(Parsed(v, false, i + |Render(v)|))
  {
    var t := Render(v);
    assert forall k | 0 <= k < |t| :: IsAsciiLetter(t[k]);
    NameRun(s, i, t);
    SameTextAt(s, i, t);
    AtIndex(s, i, t, 0);
    AtIndex(s, i, t, 1);
    assert SkipBlanks(s, i) == i;
  }

  /** A safe string in single quotes reads back as that string. */
  lemma {:induction false} ParseString(s: string, i: nat, t: string)
    requires SafeText(t) && At(s, i, Render(Str(t)))
    ensures ParseExpr(s, i) == Some(Parsed(Str(t), false, i + |Render(Str(t))|))
  {
    assert Render(Str(t)) == "'" + (t + "'");
    AtConcat(s, i, "'", t + "'");
    AtIndex(s, i, "'", 0);
    StringBodyPlain(s, i + 1, t, "");
    assert "" + t == t;
    assert SkipBlanks(s, i) == i;
  }

  /** A list display whose items were read. */
  lemma {:induction false} GlueList(s: string, i: nat, v: Value, n: nat)
    requires v.List? && i < |s| && s[i] == '['
    requires ParseItems(s, i + 1, Bracket(']'))
      == Some(Items(v.items, v.items != [] && Numeric(v.items[0]), |v.items| > 1, n))
    ensures ParseExpr(s, i) == Some(Parsed(v, Numeric(v), n))
  {
    assert SkipBlanks(s, i) == i;
  }

  /** A parenthesised sequence of other than one item is a tuple. */
  lemma {:induction false} GlueTuple(s: string, i: nat, v: Value, n: nat)
    requires v.Tuple? && |v.items| != 1 && i < |s| && s[i] == '('
    requires ParseItems(s, i + 1, Bracket(')'))
      == Some(Items(v.items, v.items != [] && Numeric(v.items[0]), |v.items| > 1, n))
    ensures ParseExpr(s, i) == Some(Parsed(v, Numeric(v), n))
  {
    assert SkipBlanks(s, i) == i;
  }

  /** An empty sequence: the closing bracket right away. */
  lemma {:induction false} GlueEmpty(s: string, j: nat, c: char)
    requires (c == ']' || c == ')') && j < |s| && s[j] == c
    ensures ParseItems(s, j, Bracket(c)) == Some(Items([], false, false, j + 1))
  {
    assert SkipBlanks(s, j) == j;
  }

  /** The last item of a sequence, then the closing bracket, with `comma` saying whether a
      trailing comma comes between. */
  lemma {:induction false} GlueLast(s: string, j: nat, c: char, x: Value, nx: bool, e: nat, comma: bool)
    requires c == ']' || c == ')'
    requires j < |s| && !IsBlank(s[j]) && s[j] != c
    requires ParseExpr(s, j) == Some(Parsed(x, nx, e))
    requires if comma then e + 1 < |s| && s[e] == ',' && s[e + 1] == c else e < |s| && s[e] == c
    ensures ParseItems(s, j, Bracket(c)) == Some(Items([x], nx, comma, if comma then e + 2 else e + 1))
  {
    assert SkipBlanks(s, j) == j && SkipBlanks(s, e) == e;
    if comma {
      GlueEmpty(s, e + 1, c);
      assert [x] + [] == [x];
    }
  }

  /** The first item, a comma and the remaining items of a sequence. */
  lemma {:induction false} GlueCons(s: string, i: nat, c: char, items: seq<Value>, e: nat, n: nat)
    requires |items| > 1 && (c == ']' || c == ')')
    requires i < |s| && !IsBlank(s[i]) && s[i] != c
    requires ParseExpr(s, i) == Some(Parsed(items[0], Numeric(items[0]), e))
    requires e < |s| && s[e] == ','
    requires ParseItems(s, e + 1, Bracket(c))
      == Some(Items(items[1..], items[1..] != [] && Numeric(items[1..][0]), |items[1..]| > 1, n))
    ensures ParseItems(s, i, Bracket(c)) == Some(Items(items, Numeric(items[0]), true, n))
  {
    assert SkipBlanks(s, i) == i && SkipBlanks(s, e) == e;
    assert [items[0]] + items[1..] == items;
  }

  /** Every Renderable value's text, followed by a delimiter, reads back as that value. */
  lemma {:induction false} ParseRendered(s: string, i: nat, v: Value)
    requires Renderable(v) && At(s, i, Render(v)) && Delimited(s, i + |Render(v)|)
    ensures ParseExpr(s, i) == Some(Parsed(v, Numeric(v), i + |Render(v)|))
    decreases v, 2
  {
    if v.List? {
      ParseList(s, i, v);
    } else if v.Tuple? {
      if |v.items| == 1 {
        ParseSingleton(s, i, v);
      } else {
        ParseTuple(s, i, v);
      }
    } else {
      ParseScalar(s, i, v);
    }
  }

  /** The round trip for the values that are not sequences. */
  lemma {:induction false} ParseScalar(s: string, i: nat, v: Value)
    requires !v.List? && !v.Tuple?
    requires Renderable(v) && At(s, i, Render(v)) && Delimited(s, i + |Render(v)|)
    ensures ParseExpr(s, i) == Some(Parsed(v, Numeric(v), i + |Render(v)|))
  {
    if v.Int? {
      ParseIntValue(s, i, v);
    } else if v.Float? {
      ParseFloatValue(s, i, v);
    } else if v.Str? {
      ParseStrValue(s, i, v);
    } else {
      ParseWord(s, i, v);
    }
  }

  lemma {:induction false} ParseIntValue(s: string, i: nat, v: Value)
    requires v.Int? && At(s, i, Render(v)) && Delimited(s, i + |Render(v)|)
    ensures ParseExpr(s, i) == Some(Parsed(v, Numeric(v), i + |Render(v)|))
  {
    var n := v.i;
    if n >= 0 {
      assert Render(v) == NatText(n);
      ParseNatExpr(s, i, n);
    } else {
      assert Render(v) == "-" + NatText(-n);
      ParseNegativeInt(s, i, -n);
    }
  }

  lemma {:induction false} ParseFloatValue(s: string, i: nat, v: Value)
    requires v.Float? && Canonical(v.f) && At(s, i, Render(v)) && Delimited(s, i + |Render(v)|)
    ensures ParseExpr(s, i) == Some(Parsed(v, Numeric(v), i + |Render(v)|))
  {
    if v.f.mantissa >= 0 {
      ParseUnsignedFloat(s, i, v);
    } else {
      ParseSignedFloat(s, i, v);
    }
  }

  lemma {:induction false} ParseUnsignedFloat(s: string, i: nat, v: Value)
    requires v.Float? && v.f.mantissa >= 0 && Canonical(v.f)
    requires At(s, i, Render(v)) && Delimited(s, i + |Render(v)|)
    ensures ParseExpr(s, i) == Some(Parsed(v, Numeric(v), i + |Render(v)|))
  {
    var m, e := v.f.mantissa, v.f.exponent;
    assert Render(v) == MagnitudeText(m, e);
    ParseMagnitudeExpr(s, i, m, e);
  }

  lemma {:induction false} ParseSignedFloat(s: string, i: nat, v: Value)
    requires v.Float? && v.f.mantissa < 0 && Canonical(v.f)
    requires At(s, i, Render(v)) && Delimited(s, i + |Render(v)|)
    ensures ParseExpr(s, i) == Some(Parsed(v, Numeric(v), i + |Render(v)|))
  {
    var m, e := v.f.mantissa, v.f.exponent;
    assert Render(v) == "-" + MagnitudeText(-m, e);
    NegatedDigit(m);
    ParseNegativeFloat(s, i, -m, e);
  }

  /** A negative number not divisible by ten has an absolute value not divisible by ten. */
  lemma NegatedDigit(m: int)
    requires m < 0 && m % 10 != 0
    ensures (-m) % 10 != 0
  {
  }

  lemma {:induction false} ParseStrValue(s: string, i: nat, v: Value)
    requires v.Str? && SafeText(v.s) && At(s, i, Render(v))
    ensures ParseExpr(s, i) == Some(Parsed(v, Numeric(v), i + |Render(v)|))
  {
    ParseString(s, i, v.s);
  }

  /** Where the parts of a rendered list or tuple of other than one item lie in `s`:
      the opening bracket `o`, then the items and the closing bracket `c`. */
  lemma {:induction false} BracketLayout(s: string, i: nat, v: Value, o: char, c: char)
    requires (v.List? && o == '[' && c == ']') || (v.Tuple? && |v.items| != 1 && o == '(' && c == ')')
    requires At(s, i, Render(v))
    ensures i < |s| && s[i] == o && At(s, i + 1, RenderItems(v.items) + [c])
    ensures |Render(v)| == |RenderItems(v.items)| + 2
  {
    var body := RenderItems(v.items);
    assert Render(v) == [o] + (body + [c]);
    AtConcat(s, i, [o], body + [c]);
    AtIndex(s, i, [o], 0);
  }

  /** A rendered list reads back as that list. */
  lemma {:induction false} ParseList(s: string, i: nat, v: Value)
    requires v.List?
    requires Renderable(v) && At(s, i, Render(v)) && Delimited(s, i + |Render(v)|)
    ensures ParseExpr(s, i) == Some(Parsed(v, Numeric(v), i + |Render(v)|))
    decreases v, 1
  {
    BracketLayout(s, i, v, '[', ']');
    ItemsAt(s, i + 1, v.items, ']', i + |Render(v)|);
    GlueList(s, i, v, i + |Render(v)|);
  }

  /** A rendered tuple of other than one item reads back as that tuple. */
  lemma {:induction false} ParseTuple(s: string, i: nat, v: Value)
    requires v.Tuple? && |v.items| != 1
    requires Renderable(v) && At(s, i, Render(v)) && Delimited(s, i + |Render(v)|)
    ensures ParseExpr(s, i) == Some(Parsed(v, Numeric(v), i + |Render(v)|))
    decreases v, 1
  {
    BracketLayout(s, i, v, '(', ')');
    ItemsAt(s, i + 1, v.items, ')', i + |Render(v)|);
    GlueTuple(s, i, v, i + |Render(v)|);
  }

  /** Where the parts of a rendered one-item tuple lie in `s`. */
  lemma {:induction false} SingletonLayout(s: string, i: nat, v: Value)
    requires v.Tuple? && |v.items| == 1 && At(s, i, Render(v))
    ensures var t := Render(v.items[0]);
      && |Render(v)| == |t| + 3 && i < |s| && s[i] == '('
      && At(s, i + 1, t) && !IsBlank(s[i + 1]) && s[i + 1] != ')'
      && s[i + 1 + |t|] == ',' && s[i + 2 + |t|] == ')'
  {
    var x := v.items[0];
    var t := Render(x);
    assert RenderItems(v.items) == t;
    assert Render(v) == "(" + t + ",)";
    AtThree(s, i, "(", t, ",)");
    AtIndex(s, i, "(", 0);
    AtIndex(s, i + 1 + |t|, ",)", 0);
    AtIndex(s, i + 1 + |t|, ",)", 1);
    RenderStart(x);
    AtIndex(s, i + 1, t, 0);
  }

  /** A parenthesised expression followed by a trailing comma is a one-item tuple. */
  lemma {:induction false} GlueSingleton(s: string, i: nat, x: Value, nx: bool, e: nat)
    requires i + 1 < |s| && s[i] == '(' && !IsBlank(s[i + 1]) && s[i + 1] != ')'
    requires ParseExpr(s, i + 1) == Some(Parsed(x, nx, e))
    requires e + 1 < |s| && s[e] == ',' && s[e + 1] == ')'
    ensures ParseExpr(s, i) == Some(Parsed(Tuple([x]), false, e + 2))
  {
    GlueLast(s, i + 1, ')', x, nx, e, true);
    assert SkipBlanks(s, i) == i;
  }

  /** A rendered one-item tuple, with its trailing comma, reads back as that tuple. */
  lemma {:induction false} ParseSingleton(s: string, i: nat, v: Value)
    requires v.Tuple? && |v.items| == 1
    requires Renderable(v) && At(s, i, Render(v)) && Delimited(s, i + |Render(v)|)
    ensures ParseExpr(s, i) == Some(Parsed(v, Numeric(v), i + |Render(v)|))
    decreases v, 1
  {
    var x := v.items[0];
    SingletonLayout(s, i, v);
    ParseRendered(s, i + 1, x);
    GlueSingleton(s, i, x, Numeric(x), i + 1 + |Render(x)|);
    assert [x] == v.items;
  }

  /** The rendered items of a sequence, followed by its closing bracket, read back as those items. */
  lemma {:induction false} ParseItemsRendered(s: string, i: nat, items: seq<Value>, c: char)
    requires c == ']' || c == ')'
    requires forall k | 0 <= k < |items| :: Renderable(items[k])
    requires At(s, i, RenderItems(items) + [c])
    ensures ParseItems(s, i, Bracket(c))
      == Some(Items(items, items != [] && Numeric(items[0]), |items| > 1, i + |RenderItems(items)| + 1))
    decreases items, 2
  {
    if items == [] {
      assert RenderItems(items) + [c] == [c];
      AtIndex(s, i, [c], 0);
      GlueEmpty(s, i, c);
    } else if |items| == 1 {
      ItemsLast(s, i, items, c);
    } else {
      ItemsCons(s, i, items, c);
    }
  }

  /** The last item and the closing bracket. */
  lemma {:induction false} ItemsLast(s: string, i: nat, items: seq<Value>, c: char)
    requires |items| == 1 && (c == ']' || c == ')')
    requires forall k | 0 <= k < |items| :: Renderable(items[k])
    requires At(s, i, RenderItems(items) + [c])
    ensures ParseItems(s, i, Bracket(c))
      == Some(Items(items, items != [] && Numeric(items[0]), |items| > 1, i + |RenderItems(items)| + 1))
    decreases items, 0
  {
    var x := items[0];
    var t := Render(x);
    assert RenderItems(items) == t;
    RenderStart(x);
    AtConcat(s, i, t, [c]);
    AtIndex(s, i, t, 0);
    AtIndex(s, i + |t|, [c], 0);
    ParseRendered(s, i, x);
    GlueLast(s, i, c, x, Numeric(x), i + |t|, false);
    assert [x] == items;
  }

  /** Where the first item, its comma and the remaining items lie in `s`. */
  lemma {:induction false} ConsLayout(s: string, i: nat, items: seq<Value>, c: char)
    requires |items| > 1 && (c == ']' || c == ')')
    requires forall k | 0 <= k < |items| :: Renderable(items[k])
    requires At(s, i, RenderItems(items) + [c])
    ensures var t, rest := Render(items[0]), items[1..];
      && |RenderItems(items)| == |t| + 1 + |RenderItems(rest)|
      && At(s, i, t) && i < |s| && !IsBlank(s[i]) && s[i] != c
      && i + |t| < |s| && s[i + |t|] == ','
      && At(s, i + |t| + 1, RenderItems(rest) + [c])
      && forall k | 0 <= k < |rest| :: Renderable(rest[k])
  {
    var x := items[0];
    var t := Render(x);
    var rest := items[1..];
    assert RenderItems(items) + [c] == t + "," + (RenderItems(rest) + [c]);
    RenderStart(x);
    AtThree(s, i, t, ",", RenderItems(rest) + [c]);
    AtIndex(s, i, t, 0);
    AtIndex(s, i + |t|, ",", 0);
    assert forall k | 0 <= k < |rest| :: rest[k] == items[k + 1];
  }

  /** An item, a comma, and the rendered remaining items. */
  lemma {:induction false} ItemsCons(s: string, i: nat, items: seq<Value>, c: char)
    requires |items| > 1 && (c == ']' || c == ')')
    requires forall k | 0 <= k < |items| :: Renderable(items[k])
    requires At(s, i, RenderItems(items) + [c])
    ensures ParseItems(s, i, Bracket(c))
      == Some(Items(items, items != [] && Numeric(items[0]), |items| > 1, i + |RenderItems(items)| + 1))
    decreases items, 1
  {
    ConsLayout(s, i, items, c);
    var e := i + |Render(items[0])|;
    ConsParts(s, i, items, c, e, e + 1 + |RenderItems(items[1..])| + 1);
  }

  /** The round trip for an item, a comma and the remaining items, from where they lie. */
  lemma {:induction false} ConsParts(s: string, i: nat, items: seq<Value>, c: char, e: nat, n: nat)
    requires |items| > 1 && (c == ']' || c == ')')
    requires Renderable(items[0]) && forall k | 0 <= k < |items[1..]| :: Renderable(items[1..][k])
    requires e == i + |Render(items[0])| && n == e + 1 + |RenderItems(items[1..])| + 1
    requires At(s, i, Render(items[0])) && i < |s| && !IsBlank(s[i]) && s[i] != c
    requires e < |s| && s[e] == ',' && At(s, e + 1, RenderItems(items[1..]) + [c])
    ensures ParseItems(s, i, Bracket(c)) == Some(Items(items, Numeric(items[0]), true, n))
    decreases items, 0
  {
    ConsHead(s, i, items[0], e);
    ItemsAt(s, e + 1, items[1..], c, n);
    GlueCons(s, i, c, items, e, n);
  }

  /** The round trip for list or tuple items, restated with the end position `n`. */
  lemma {:induction false} ItemsAt(s: string, j: nat, items: seq<Value>, c: char, n: nat)
    requires c == ']' || c == ')'
    requires forall k | 0 <= k < |items| :: Renderable(items[k])
    requires At(s, j, RenderItems(items) + [c]) && n == j + |RenderItems(items)| + 1
    ensures ParseItems(s, j, Bracket(c)) == Some(Items(items, items != [] && Numeric(items[0]), |items| > 1, n))
    decreases items, 3
  {
    ParseItemsRendered(s, j, items, c);
  }

  lemma {:induction false} ConsHead(s: string, i: nat, v: Value, e: nat)
    requires Renderable(v) && e == i + |Render(v)| && At(s, i, Render(v)) && e < |s| && s[e] == ','
    ensures ParseExpr(s, i) == Some(Parsed(v, Numeric(v), e))
    decreases v, 3
  {
    ParseRendered(s, i, v);
  }

  /** `ast.literal_eval` of a Renderable value's text returns the value. */
  lemma {:induction false} LiteralEvalRendered(v: Value)
    requires Renderable(v)
    ensures LiteralEval(Render(v)) == Returned(v)
  {
    var s := Render(v);
    assert At(s, 0, s);
    RenderStart(v);
    ParseRendered(s, 0, v);
    assert SkipBlanks(s, 0) == 0 && SkipBlanks(s, |s|) == |s|;
    assert AtCloser(s, |s|, EndOfInput);
  }
}
