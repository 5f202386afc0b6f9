/**
 * The type inferencer of the custom inlist format: an ordered chain of substring
 * tests that decides how a raw value token is converted.
 */
module Typing {
  import opened Chars
  import opened Outcomes
  import opened Literals

  /** Python's `any(c in value for c in checks)`. */
  function AnyContained(value: string, checks: seq<string>): (r: bool)
    ensures r <==> exists i :: 0 <= i < |checks| && Contains(value, checks[i])
  {
    if checks == [] then false
    else
      var rest := AnyContained(value, checks[1..]);
      assert forall i :: 1 <= i < |checks| ==> checks[i] == checks[1..][i - 1];
      Contains(value, checks[0]) || rest
  }

  /** Python's `all(c in value for c in checks)`. */
  function AllContained(value: string, checks: seq<string>): (r: bool)
    ensures r <==> forall i :: 0 <= i < |checks| ==> Contains(value, checks[i])
  {
    if checks == [] then true
    else
      var rest := AllContained(value, checks[1..]);
      assert forall i :: 1 <= i < |checks| ==> checks[i] == checks[1..][i - 1];
      Contains(value, checks[0]) && rest
  }

  /** `_multi_check_method`: an any-check or an all-check of substrings; with neither
      flag set the program exits, which is None here. The any-check wins when both are set. */
  function MultiCheck(value: string, checkValues: seq<string>, anyCheck: bool, allCheck: bool): (r: Option<bool>)
    ensures anyCheck ==> r == Some(exists i :: 0 <= i < |checkValues| && Contains(value, checkValues[i]))
    ensures !anyCheck && allCheck ==> r == Some(forall i :: 0 <= i < |checkValues| ==> Contains(value, checkValues[i]))
    ensures !anyCheck && !allCheck ==> r == None
  {
    if anyCheck then Some(AnyContained(value, checkValues))
    else if allCheck then Some(AllContained(value, checkValues))
    else None
  }

  /** `string_check`: the token holds a single or a double quote. */
  function StringCheck(value: string): (r: bool)
    ensures r <==> '\'' in value || '"' in value
  {
    ContainsChar(value, '\'');
    ContainsChar(value, '"');
    var checks := ["'", "\""];
    assert checks[0] == ['\''] && checks[1] == ['"'];
    MultiCheck(value, checks, true, false).value
  }

  /** `bool_check`: one of the four boolean words occurs in the token. */
  function BoolCheck(value: string): (r: bool)
    ensures r <==> Contains(value, "False") || Contains(value, "FALSE")
                   || Contains(value, "True") || Contains(value, "TRUE")
  {
    var checks := ["False", "FALSE", "True", "TRUE"];
    assert checks[0] == "False" && checks[1] == "FALSE" && checks[2] == "True" && checks[3] == "TRUE";
    MultiCheck(value, checks, true, false).value
  }

  /** `bool_false_check`: `False` or `FALSE` occurs in the token. */
  function BoolFalseCheck(value: string): (r: bool)
    ensures r <==> Contains(value, "False") || Contains(value, "FALSE")
  {
    var checks := ["False", "FALSE"];
    assert checks[0] == "False" && checks[1] == "FALSE";
    MultiCheck(value, checks, true, false).value
  }

  /** `list_check`: both square brackets occur. */
  function ListCheck(value: string): (r: bool)
    ensures r <==> '[' in value && ']' in value
  {
    ContainsChar(value, '[');
    ContainsChar(value, ']');
    var checks := ["[", "]"];
    assert checks[0] == ['['] && checks[1] == [']'];
    MultiCheck(value, checks, false, true).value
  }

  /** `tuple_check`: both round brackets occur; the source gives it the same shape as
      `list_check`, with round brackets for square ones. */
  function TupleCheck(value: string): (r: bool)
    ensures r <==> '(' in value && ')' in value
  {
    ContainsChar(value, '(');
    ContainsChar(value, ')');
    var checks := ["(", ")"];
    assert checks[0] == ['('] && checks[1] == [')'];
    MultiCheck(value, checks, false, true).value
  }

  /** `none_check`: an all-check on the single word `None`, so a substring test. */
  function NoneCheck(value: string): (r: bool)
    ensures r <==> Contains(value, "None")
  {
    var checks := ["None"];
    assert checks[0] == "None";
    MultiCheck(value, checks, false, true).value
  }

  /** `float_check`: a decimal point occurs. */
  function FloatCheck(value: string): (r: bool)
    ensures r <==> '.' in value
  {
    ContainsChar(value, '.');
    var checks := ["."];
    assert checks[0] == ['.'];
    MultiCheck(value, checks, false, true).value
  }

  function RunEnd(s: string, i: nat, c: char): (j: nat)
    requires i <= |s|
    ensures i <= j <= |s| && (j < |s| ==> s[j] != c)
    ensures forall k | i <= k < j :: s[k] == c
    decreases |s| - i
  {
    if i < |s| && s[i] == c then RunEnd(s, i + 1, c) else i
  }

  function DigitRunEnd(s: string, i: nat): (j: nat)
    requires i <= |s|
    ensures i <= j <= |s| && (j < |s| ==> !IsDigit(s[j]))
    ensures forall k | i <= k < j :: IsDigit(s[k])
    decreases |s| - i
  {
    if i < |s| && IsDigit(s[i]) then DigitRunEnd(s, i + 1) else i
  }

  /** `re.match(r'\d+[eE]-*\d+', value)` succeeds: a prefix of digits, `e` or `E`,
      any number of minus signs, and a digit (the match needs no more of the token). */
  function FloatRegexMatch(value: string): (r: bool)
    ensures r ==> |value| >= 3 && IsDigit(value[0]) && ('e' in value || 'E' in value)
  {
    var n := DigitRunEnd(value, 0);
    && 0 < n < |value| && (value[n] == 'e' || value[n] == 'E')
    && var m := RunEnd(value, n + 1, '-');
       m < |value| && IsDigit(value[m])
  }

  /** The text the exponent regex asks for at the start of the token: digits up to `n`,
      `e` or `E` at `n`, minus signs strictly between `n` and `m`, and a digit at `m`. */
  ghost predicate ExponentPrefix(value: string, n: int, m: int) {
    && 0 < n < m < |value|
    && (forall k | 0 <= k < n :: IsDigit(value[k]))
    && (value[n] == 'e' || value[n] == 'E')
    && (forall k | n < k < m :: value[k] == '-')
    && IsDigit(value[m])
  }

  /** The regex matches exactly the tokens that start with such a prefix; what follows
      it does not matter. */
  lemma FloatRegexPrefix(value: string)
    ensures FloatRegexMatch(value) <==> exists n, m :: ExponentPrefix(value, n, m)
  {
    if FloatRegexMatch(value) {
      var n := DigitRunEnd(value, 0);
      var m := RunEnd(value, n + 1, '-');
      assert ExponentPrefix(value, n, m);
    }
    if exists n, m :: ExponentPrefix(value, n, m) {
      var n, m :| ExponentPrefix(value, n, m);
      assert DigitRunEnd(value, 0) == n;
      assert RunEnd(value, n + 1, '-') == m;
    }
  }

  /** `_typer`: the first test that succeeds decides the conversion. */
  function Typer(value: string): (r: Outcome<Value>)
    ensures r.Raised? ==> r.exc == MalformedLiteral || r.exc == InvalidInteger
  {
    if StringCheck(value) then
      if ListCheck(value) then LiteralEval(value)
      else Returned(Str(Dequote(value)))
    else if BoolCheck(value) then Returned(Bool(!BoolFalseCheck(value)))
    else if NoneCheck(value) then Returned(NoneValue)
    else if ListCheck(value) then LiteralEval(value)
    else if TupleCheck(value) then LiteralEval(value)
    else if FloatCheck(value) || FloatRegexMatch(value) then LiteralEval(value)
    else PyInt(value)
  }

  /** `value.strip('"').strip("'")`. */
  function Dequote(value: string): (r: string)
    ensures |r| <= |value|
    ensures r == [] || (r[0] != '\'' && r[|r| - 1] != '\'')
  {
    Strip(Strip(value, '"'), '\'')
  }

  /** The first test of `_typer`: a quote decides for a string, or, with both square
      brackets, for a literal list. */
  lemma QuotedOrder(value: string)
    requires '\'' in value || '"' in value
    ensures '[' in value && ']' in value ==> Typer(value) == LiteralEval(value)
    ensures !('[' in value && ']' in value) ==> Typer(value) == Returned(Str(Dequote(value)))
  {
  }

  /** Without a quote, a boolean word decides next, and `False`/`FALSE` beats `True`/`TRUE`
      wherever they stand. */
  lemma BooleanOrder(value: string)
    requires '\'' !in value && '"' !in value
    requires Contains(value, "False") || Contains(value, "FALSE")
             || Contains(value, "True") || Contains(value, "TRUE")
    ensures Contains(value, "False") || Contains(value, "FALSE") ==> Typer(value) == Returned(Bool(false))
    ensures !(Contains(value, "False") || Contains(value, "FALSE")) ==> Typer(value) == Returned(Bool(true))
  {
  }

  /** Without a quote or a boolean word: `None` anywhere gives None; then both square
      brackets, both round brackets, a decimal point or an exponent prefix send the
      token to the literal evaluator; `int` takes the rest. */
  lemma LiteralOrder(value: string)
    requires '\'' !in value && '"' !in value
    requires !(Contains(value, "False") || Contains(value, "FALSE")
               || Contains(value, "True") || Contains(value, "TRUE"))
    ensures Contains(value, "None") ==> Typer(value) == Returned(NoneValue)
    ensures !Contains(value, "None") && (('[' in value && ']' in value) || ('(' in value && ')' in value))
      ==> Typer(value) == LiteralEval(value)
    ensures !Contains(value, "None") && !('[' in value && ']' in value) && !('(' in value && ')' in value)
      ==> Typer(value) == (if '.' in value || exists n, m :: ExponentPrefix(value, n, m)
                           then LiteralEval(value) else PyInt(value))
  {
    FloatRegexPrefix(value);
  }

  /** A string result never starts or ends with a single quote. */
  lemma DequotedHasNoOuterQuote(value: string)
    requires '\'' in value || '"' in value
    requires !('[' in value && ']' in value)
    ensures var r := Typer(value);
      r.Returned? && r.value.Str? && (r.value.s == [] || (r.value.s[0] != '\'' && r.value.s[|r.value.s| - 1] != '\''))
  {
  }
}
