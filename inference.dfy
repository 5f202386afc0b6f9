/**
 * What the type inferencer makes of the literal text of a value: numbers, lists and
 * tuples of numbers, booleans, None and strings without quotes, backslashes or line
 * breaks read back as themselves. A boolean or None word anywhere in an unquoted value
 * decides its type before any bracket is looked at.
 */
module Inference {
  import opened Chars
  import opened Outcomes
  import opened Literals
  import opened Typing
  import opened Rendering
  import opened Lexing

  /** Numbers, and lists and tuples (nested to any depth) of numbers. */
  predicate Plain(v: Value)
    decreases v
  {
    match v
    case Int(_) => true
    case Float(_) => true
    case List(items) => forall k | 0 <= k < |items| :: Plain(items[k])
    case Tuple(items) => forall k | 0 <= k < |items| :: Plain(items[k])
    case _ => false
  }

  /** The characters the text of a plain value is made of. */
  predicate PlainChar(c: char) {
    IsDigit(c) || c == '-' || c == '.' || c == 'e'
    || c == '[' || c == ']' || c == '(' || c == ')' || c == ','
  }

  predicate PlainText(t: string) {
    forall k | 0 <= k < |t| :: PlainChar(t[k])
  }

  lemma {:induction false} PlainConcat(a: string, b: string)
    requires PlainText(a) && PlainText(b)
    ensures PlainText(a + b)
  {
    forall k | 0 <= k < |a + b| ensures PlainChar((a + b)[k]) {
      if k < |a| {
        assert (a + b)[k] == a[k];
      } else {
        assert (a + b)[k] == b[k - |a|];
      }
    }
  }

  lemma {:induction false} MagnitudePlain(m: nat, e: int)
    ensures PlainText(MagnitudeText(m, e))
  {
    if e >= 0 {
      PlainConcat(NatText(m), Zeros(e));
      PlainConcat(NatText(m) + Zeros(e), ".0");
    } else {
      PlainConcat(NatText(m), ".e-");
      PlainConcat(NatText(m) + ".e-", NatText(-e));
    }
  }

  /** The text of a plain value has no quote and no letter but `e`. */
  lemma {:induction false} RenderPlain(v: Value)
    requires Plain(v)
    ensures PlainText(Render(v))
    decreases v, 0
  {
    match v
    case Int(n) =>
      if n < 0 {
        PlainConcat("-", NatText(-n));
      }
    case Float(d) =>
      if d.mantissa < 0 {
        MagnitudePlain(-d.mantissa, d.exponent);
        PlainConcat("-", MagnitudeText(-d.mantissa, d.exponent));
      } else {
        MagnitudePlain(d.mantissa, d.exponent);
      }
    case List(items) =>
      RenderItemsPlain(items);
      PlainConcat("[", RenderItems(items));
      PlainConcat("[" + RenderItems(items), "]");
    case Tuple(items) =>
      RenderItemsPlain(items);
      PlainConcat("(", RenderItems(items));
      PlainConcat("(" + RenderItems(items), if |items| == 1 then ",)" else ")");
  }

  lemma {:induction false} RenderItemsPlain(items: seq<Value>)
    requires forall k | 0 <= k < |items| :: Plain(items[k])
    ensures PlainText(RenderItems(items))
    decreases items, 1
  {
    if |items| == 1 {
      RenderPlain(items[0]);
    } else if |items| > 1 {
      RenderPlain(items[0]);
      RenderItemsPlain(items[1..]);
      PlainConcat(Render(items[0]), ",");
      PlainConcat(Render(items[0]) + ",", RenderItems(items[1..]));
    }
  }

  /** A character that is not a plain character does not occur in a plain text. */
  lemma NotInPlain(t: string, c: char)
    requires PlainText(t) && !PlainChar(c)
    ensures c !in t
  {
  }

  /** None of the string, boolean and None checks succeed on a plain text. */
  lemma {:induction false} PlainChecks(t: string)
    requires PlainText(t)
    ensures !StringCheck(t) && !BoolCheck(t) && !NoneCheck(t)
  {
    NotInPlain(t, '\'');
    NotInPlain(t, '"');
    NotInPlain(t, 'F');
    NotInPlain(t, 'T');
    NotInPlain(t, 'N');
    NotContainedWithoutFirst(t, "False");
    NotContainedWithoutFirst(t, "FALSE");
    NotContainedWithoutFirst(t, "True");
    NotContainedWithoutFirst(t, "TRUE");
    NotContainedWithoutFirst(t, "None");
  }

  /** The text of a decimal holds a point. */
  lemma {:induction false} MagnitudePoint(m: nat, e: int)
    ensures '.' in MagnitudeText(m, e)
  {
    var u := NatText(m);
    if e >= 0 {
      assert MagnitudeText(m, e)[|u| + e] == '.';
    } else {
      assert MagnitudeText(m, e)[|u|] == '.';
    }
  }

  /** The branch of the inferencer a text without quotes, boolean or None words takes
      when it holds a bracket or a point: the literal evaluator. */
  lemma LiteralPath(t: string)
    requires !StringCheck(t) && !BoolCheck(t) && !NoneCheck(t)
    requires ListCheck(t) || TupleCheck(t) || FloatCheck(t) || FloatRegexMatch(t)
    ensures Typer(t) == LiteralEval(t)
  {
  }

  /** The last branch: the integer conversion. */
  lemma IntegerPath(t: string)
    requires !StringCheck(t) && !BoolCheck(t) && !NoneCheck(t)
    requires !ListCheck(t) && !TupleCheck(t) && !FloatCheck(t) && !FloatRegexMatch(t)
    ensures Typer(t) == PyInt(t)
  {
  }

  /** The boolean branch, taken by any text without quotes holding a boolean word. */
  lemma BooleanPath(t: string)
    requires !StringCheck(t) && BoolCheck(t)
    ensures Typer(t) == Returned(Bool(!BoolFalseCheck(t)))
  {
  }

  /** The None branch, taken by a text without quotes or boolean words holding `None`. */
  lemma NonePath(t: string)
    requires !StringCheck(t) && !BoolCheck(t) && NoneCheck(t)
    ensures Typer(t) == Returned(NoneValue)
  {
  }

  /** A text with a character `c` at `k` holds `c`. */
  lemma CharAt(t: string, k: nat, c: char)
    requires k < |t| && t[k] == c
    ensures c in t
  {
  }

  /** A plain value other than an integer is given to the literal evaluator, which
      reads its text back as the value. */
  lemma {:induction false} TyperPlain(v: Value)
    requires Plain(v) && Renderable(v) && !v.Int?
    ensures Typer(Render(v)) == Returned(v)
  {
    var t := Render(v);
    RenderPlain(v);
    PlainChecks(t);
    LiteralChecks(v);
    LiteralPath(t);
    LiteralEvalRendered(v);
  }

  /** The text of a sequence holds its brackets, and the text of a float its point. */
  lemma {:induction false} LiteralChecks(v: Value)
    requires v.List? || v.Tuple? || v.Float?
    ensures ListCheck(Render(v)) || TupleCheck(Render(v)) || FloatCheck(Render(v))
  {
    var t := Render(v);
    match v
    case List(items) =>
      assert t == "[" + RenderItems(items) + "]";
      CharAt(t, 0, '[');
      CharAt(t, |t| - 1, ']');
    case Tuple(items) =>
      assert t == "(" + RenderItems(items) + (if |items| == 1 then ",)" else ")");
      CharAt(t, 0, '(');
      CharAt(t, |t| - 1, ')');
    case Float(d) =>
      if d.mantissa < 0 {
        MagnitudePoint(-d.mantissa, d.exponent);
        assert t == "-" + MagnitudeText(-d.mantissa, d.exponent);
      } else {
        MagnitudePoint(d.mantissa, d.exponent);
      }
  }

  /** `int()` of an integer's text is that integer. */
  lemma {:induction false} PyIntText(n: int)
    ensures PyInt(IntText(n)) == Returned(Int(n))
  {
    var t := IntText(n);
    var body := NatText(if n < 0 then -n else n);
    if n < 0 {
      assert t[1..] == body;
    }
    assert t[0] == '-' <==> n < 0;
    assert !IsIntSpace(t[0]) && !IsIntSpace(t[|t| - 1]);
    assert TrimIntSpace(t) == t;
    DigitRun(body, 0, |body|);
    NatTextValue(if n < 0 then -n else n);
  }

  /** An integer's text passes every check up to the integer conversion. */
  lemma {:induction false} TyperInt(n: int)
    ensures Typer(IntText(n)) == Returned(Int(n))
  {
    var t := IntText(n);
    assert t == Render(Int(n));
    RenderPlain(Int(n));
    PlainChecks(t);
    assert forall k | 0 <= k < |t| :: IsDigit(t[k]) || t[k] == '-' by {
      if n < 0 {
        forall k | 1 <= k < |t| ensures IsDigit(t[k]) {
          assert t[k] == NatText(-n)[k - 1];
        }
      }
    }
    assert '[' !in t && '(' !in t && '.' !in t;
    assert !FloatRegexMatch(t) by {
      var m := DigitRunEnd(t, 0);
      assert m < |t| ==> t[m] != 'e' && t[m] != 'E';
    }
    IntegerPath(t);
    PyIntText(n);
  }

  /** `True`, `False` and `None` are recognised by their words. */
  lemma {:induction false} TyperWords(t: string)
    requires t == "True" || t == "False" || t == "None"
    ensures t == "True" ==> Typer(t) == Returned(Bool(true))
    ensures t == "False" ==> Typer(t) == Returned(Bool(false))
    ensures t == "None" ==> Typer(t) == Returned(NoneValue)
  {
    assert '\'' !in t && '"' !in t;
    if t == "None" {
      assert OccursAt(t, "None", 0);
      NotContainedWithoutFirst(t, "False");
      NotContainedWithoutFirst(t, "FALSE");
      NotContainedWithoutFirst(t, "True");
      NotContainedWithoutFirst(t, "TRUE");
      NonePath(t);
    } else {
      if t == "True" {
        assert OccursAt(t, "True", 0);
        NotContainedWithoutFirst(t, "False");
        NotContainedWithoutFirst(t, "FALSE");
      } else {
        assert OccursAt(t, "False", 0);
      }
      BooleanPath(t);
    }
  }

  lemma {:induction false} StripUnchanged(s: string, c: char)
    requires s != [] && s[0] != c && s[|s| - 1] != c
    ensures Strip(s, c) == s
  {
    assert StripLeading(s, c) == s;
  }

  /** Removing the quotes around a safe string gives the string back. */
  lemma {:induction false} DequoteQuoted(t: string)
    requires SafeText(t)
    ensures Dequote("'" + t + "'") == t
  {
    var q := "'" + t + "'";
    StripUnchanged(q, '"');
    assert q[1..] == t + "'";
    if t == [] {
      assert StripLeading(q, '\'') == [];
    } else {
      assert t[0] != '\'' && t[|t| - 1] != '\'';
      assert StripLeading(t + "'", '\'') == t + "'";
      assert StripLeading(q, '\'') == t + "'";
      assert (t + "'")[..|t|] == t;
      assert StripTrailing(t + "'", '\'') == StripTrailing(t, '\'');
    }
  }

  /** A quoted safe string becomes that string, whether or not it holds both brackets. */
  lemma {:induction false} TyperString(t: string)
    requires SafeText(t)
    ensures Typer("'" + t + "'") == Returned(Str(t))
  {
    var q := "'" + t + "'";
    assert q[0] == '\'';
    assert StringCheck(q);
    assert Render(Str(t)) == q;
    LiteralEvalRendered(Str(t));
    DequoteQuoted(t);
  }

  /** The inferencer recovers every value it can produce from a literal that holds no
      boolean or None word but where the value is one: numbers and sequences of them,
      booleans, None and safe strings. */
  lemma {:induction false} TyperRendered(v: Value)
    requires Renderable(v) && (Plain(v) || v.Bool? || v.NoneValue? || v.Str?)
    ensures Typer(Render(v)) == Returned(v)
  {
    match v
    case Int(n) => TyperInt(n);
    case Bool(b) => TyperWords(Render(v));
    case NoneValue => TyperWords(Render(v));
    case Str(t) => TyperString(t);
    case _ => TyperPlain(v);
  }

  /** `[1,True]` is the text of a list of an integer and a boolean. */
  lemma {:induction false} ListWithTrue(t: string)
    requires t == "[1,True]"
    ensures LiteralEval(t) == Returned(List([Int(1), Bool(true)]))
  {
    var v := List([Int(1), Bool(true)]);
    assert RenderItems([Bool(true)]) == "True";
    assert RenderItems(v.items) == "1" + "," + "True";
    assert Render(v) == t;
    LiteralEvalRendered(v);
  }

  /** A boolean word inside an unquoted list makes the whole value a boolean, although
      the literal evaluator reads the text as a list. */
  lemma {:induction false} BoolWinsOverList(t: string)
    requires t == "[1,True]"
    ensures LiteralEval(t) == Returned(List([Int(1), Bool(true)]))
    ensures Typer(t) == Returned(Bool(true))
  {
    ListWithTrue(t);
    assert t[3..7] == "True";
    assert OccursAt(t, "True", 3);
    assert '\'' !in t && '"' !in t && 'F' !in t;
    NotContainedWithoutFirst(t, "False");
    NotContainedWithoutFirst(t, "FALSE");
    BooleanPath(t);
  }

  /** An exponent float is recognised when it starts with a digit. */
  lemma {:induction false} ExponentFloat(t: string)
    requires t == "1e5"
    ensures Typer(t) == Returned(Float(Decimal(1, 5)))
  {
    PlainChecks(t);
    assert DigitRunEnd(t, 0) == 1 && RunEnd(t, 2, '-') == 2;
    assert FloatRegexMatch(t);
    LiteralPath(t);
    assert SkipBlanks(t, 0) == 0 && DigitPartEnd(t, 0) == 1;
    assert ExponentAt(t, 1) == Some((5, 3));
    assert ParseNumber(t, 0) == Some(Parsed(Float(Decimal(1, 5)), true, 3));
    assert ParseExpr(t, 0) == Some(Parsed(Float(Decimal(1, 5)), true, 3));
    assert SkipBlanks(t, 3) == 3;
  }

  /** A point with no digit on either side is no number: the Ellipsis literal `...` is
      outside the modelled subset, so `[...]` does not evaluate. */
  lemma {:induction false} EllipsisMalformed(t: string)
    requires t == "[...]"
    ensures LiteralEval(t) == Raised(MalformedLiteral)
  {
    assert t[1] == '.' && t[2] == '.';
    assert ParseNumber(t, 1).None?;
    assert SkipBlanks(t, 1) == 1;
    assert ParseExpr(t, 1).None?;
    assert ParseItems(t, 1, Bracket(']')).None?;
    assert SkipBlanks(t, 0) == 0;
    assert ParseExpr(t, 0).None?;
  }

  /** `[...]` holds both square brackets, so `_typer` sends it to the literal evaluator,
      which raises. */
  lemma {:induction false} EllipsisRejected(t: string)
    requires t == "[...]"
    ensures Typer(t) == Raised(MalformedLiteral)
  {
    PlainChecks(t);
    assert '[' in t && ']' in t;
    LiteralPath(t);
    EllipsisMalformed(t);
  }

  /** `int` rejects an exponent. */
  lemma {:induction false} IntRejectsExponent(t: string)
    requires t == "-1e5"
    ensures PyInt(t) == Raised(InvalidInteger)
  {
    assert TrimIntSpace(t) == t;
    assert !IsDigitPart(t[1..]) by {
      assert DigitPartEnd(t[1..], 0) == 1;
    }
  }

  /** With a leading minus sign the same text goes to the integer conversion, which fails. */
  lemma {:induction false} SignedExponentFloat(t: string)
    requires t == "-1e5"
    ensures Typer(t) == Raised(InvalidInteger)
  {
    PlainChecks(t);
    assert '[' !in t && '(' !in t && '.' !in t;
    assert DigitRunEnd(t, 0) == 0;
    assert !FloatRegexMatch(t);
    IntegerPath(t);
    IntRejectsExponent(t);
  }

  /** `FALSE` is a boolean word too. */
  lemma {:induction false} TyperCapitalFalse(t: string)
    requires t == "FALSE"
    ensures Typer(t) == Returned(Bool(false))
  {
    assert '\'' !in t && '"' !in t;
    assert OccursAt(t, "FALSE", 0);
    BooleanPath(t);
  }

  /** The value tokens of the test inlist and the values the test expects for them:
      `8` and `8.0`. */
  lemma {:induction false} TestNumbers(t: string)
    requires t == "8" || t == "8.0"
    ensures t == "8" ==> Typer(t) == Returned(Int(8))
    ensures t == "8.0" ==> Typer(t) == Returned(Float(Decimal(8, 0)))
  {
    if t == "8" {
      TyperInt(8);
    } else {
      var v := Float(Decimal(8, 0));
      assert Render(v) == t;
      TyperRendered(v);
    }
  }

  /** `[2,1,1,1,2]`: a list of integers. */
  lemma {:induction false} TestIntegerList(t: string)
    requires t == "[2,1,1,1,2]"
    ensures Typer(t) == Returned(List([Int(2), Int(1), Int(1), Int(1), Int(2)]))
  {
    var v := List([Int(2), Int(1), Int(1), Int(1), Int(2)]);
    assert RenderItems(v.items[4..]) == "2";
    assert RenderItems(v.items[3..]) == "1,2";
    assert RenderItems(v.items[2..]) == "1,1,2";
    assert RenderItems(v.items[1..]) == "1,1,1,2";
    assert Render(v) == t;
    TyperRendered(v);
  }

  /** `[8.0,7.0,6.0]`: a list of floats. */
  lemma {:induction false} TestFloatList(t: string)
    requires t == "[8.0,7.0,6.0]"
    ensures Typer(t) == Returned(List([Float(Decimal(8, 0)), Float(Decimal(7, 0)), Float(Decimal(6, 0))]))
  {
    var v := List([Float(Decimal(8, 0)), Float(Decimal(7, 0)), Float(Decimal(6, 0))]);
    assert RenderItems(v.items[2..]) == "6.0";
    assert RenderItems(v.items[1..]) == "7.0,6.0";
    assert Render(v) == t;
    TyperRendered(v);
  }

  /** The two quoted strings of the test inlist lose their quotes. */
  lemma {:induction false} TestStrings(u: string)
    requires u == "this is a string" || u == "/path/to/somewhere"
    ensures Typer("'" + u + "'") == Returned(Str(u))
  {
    assert SafeText(u);
    TyperString(u);
  }

  /** `my_comment_load = 8%7%6` at the end of a line of joined text: the value token is
      `8`, which becomes the integer 8. */
  lemma {:induction false} TestCommentValue(p: string, rest: string, w: string, comment: string)
    requires w == "8" && comment == "7%6"
    ensures |p| <= |p + w + "%" + comment + "\n\n" + rest|
    ensures NextToken(p + w + "%" + comment + "\n\n" + rest, |p|) == Returned((w, |p| + 7))
    ensures Typer(w) == Returned(Int(8))
  {
    assert IsWordChar(w[0]);
    CommentEndsWord(p, w, comment, rest);
    TyperInt(8);
  }
}
