/**
 * Python values produced by the inlist type inferencer, and the two conversions
 * it hands tokens to: `ast.literal_eval` (for the subset of literal syntax the
 * inlists use) and the built-in `int()` in base 10.
 */
module Literals {
  import opened Chars
  import opened Outcomes

  /** An exact decimal number, `mantissa * 10^exponent`; stands for a Python float. */
  datatype Decimal = Decimal(mantissa: int, exponent: int)

  /** A typed inlist value. */
  datatype Value =
    | Str(s: string)
    | Bool(b: bool)
    | NoneValue
    | List(items: seq<Value>)
    | Tuple(items: seq<Value>)
    | Float(f: Decimal)
    | Int(i: int)

  /** The one representation of each decimal number: no trailing zero digit in the mantissa. */
  ghost predicate Canonical(d: Decimal) {
    if d.mantissa == 0 then d.exponent == 0 else d.mantissa % 10 != 0
  }

  function Pow10(n: nat): (p: nat)
    ensures p >= 1
  {
    if n == 0 then 1 else 10 * Pow10(n - 1)
  }

  /** The canonical decimal equal to `m * 10^e` (NormalizeValue states the equality). */
  function Normalize(m: nat, e: int): (d: Decimal)
    ensures Canonical(d) && d.mantissa >= 0
    ensures m == 0 ==> d == Decimal(0, 0)
    ensures m != 0 ==> d.exponent >= e
    decreases m
  {
    if m == 0 then Decimal(0, 0)
    else if m % 10 == 0 then Normalize(m / 10, e + 1)
    else Decimal(m, e)
  }

  /** Normalising keeps the number: `m * 10^e` equals the result's mantissa times its
      power of ten. */
  lemma {:induction false} NormalizeValue(m: nat, e: int)
    ensures var d := Normalize(m, e); m != 0 ==> m == d.mantissa * Pow10(d.exponent - e)
    decreases m
  {
    if m != 0 && m % 10 == 0 {
      NormalizeValue(m / 10, e + 1);
      var d := Normalize(m / 10, e + 1);
      assert Pow10(d.exponent - e) == 10 * Pow10(d.exponent - (e + 1));
    }
  }

  /** Whitespace that may separate the parts of a literal. */
  predicate IsBlank(c: char) {
    c == ' ' || c == '\t' || c == '\n' || c == '\r' || c == '\U{C}'
  }

  /** Characters that continue a Python name or number. */
  predicate IsIdentChar(c: char) { IsAsciiLetter(c) || IsDigit(c) || c == '_' }

  function SkipBlanks(s: string, i: nat): (j: nat)
    requires i <= |s|
    ensures i <= j <= |s| && (j < |s| ==> !IsBlank(s[j]))
    decreases |s| - i
  {
    if i < |s| && IsBlank(s[i]) then SkipBlanks(s, i + 1) else i
  }

  /** End of the Python digit part `digit (["_"] digit)*` that starts at `i`. */
  function DigitPartEnd(s: string, i: nat): (j: nat)
    requires i < |s| && IsDigit(s[i])
    ensures i < j <= |s| && IsDigit(s[j - 1])
    decreases |s| - i
  {
    if i + 1 < |s| && IsDigit(s[i + 1]) then DigitPartEnd(s, i + 1)
    else if i + 2 < |s| && s[i + 1] == '_' && IsDigit(s[i + 2]) then DigitPartEnd(s, i + 2)
    else i + 1
  }

  /** The number written by the digits of `s[p..q]`, read after the number `acc`:
      each digit shifts in, anything else (the underscores of a digit part) is skipped. */
  function DigitsFrom(s: string, p: nat, q: nat, acc: nat): nat
    requires p <= q <= |s|
    decreases q - p
  {
    if p == q then acc
    else DigitsFrom(s, p + 1, q, if IsDigit(s[p]) then 10 * acc + DigitValue(s[p]) else acc)
  }

  /** The number written by the digits of `t`, underscores ignored. */
  function DigitsValue(t: string): nat {
    DigitsFrom(t, 0, |t|, 0)
  }

  /** How many digits `s[p..q]` holds, underscores not counted. */
  function DigitCount(s: string, p: nat, q: nat): nat
    requires p <= q <= |s|
    decreases q - p
  {
    if p == q then 0 else (if IsDigit(s[p]) then 1 else 0) + DigitCount(s, p + 1, q)
  }

  /** A parsed expression: its value, whether it is a bare numeric constant, and where it ends. */
  datatype Parsed = Parsed(v: Value, numeric: bool, next: nat)

  /** A parsed comma-separated sequence: the values, whether the first is a numeric
      constant, whether a comma was seen, and the position after the closing delimiter. */
  datatype Items = Items(values: seq<Value>, firstNumeric: bool, comma: bool, next: nat)

  /** What ends a sequence: a closing bracket or the end of the text. */
  datatype Closer = Bracket(c: char) | EndOfInput

  predicate AtCloser(s: string, j: nat, closer: Closer) {
    match closer
    case Bracket(c) => j < |s| && s[j] == c
    case EndOfInput => j == |s|
  }

  function Negate(v: Value): Value {
    match v
    case Int(n) => Int(-n)
    case Float(d) => Float(Decimal(-d.mantissa, d.exponent))
    case _ => v
  }

  /** A Python number literal starting at `i`: a decimal integer (no leading zeros
      unless it is zero), a point float or an exponent float. */
  function ParseNumber(s: string, i: nat): (r: Option<Parsed>)
    requires i < |s| && (IsDigit(s[i]) || s[i] == '.')
    ensures r.Some? ==> i < r.value.next <= |s| && r.value.numeric
  {
    var j := if IsDigit(s[i]) then DigitPartEnd(s, i) else i;
    var dot := j < |s| && s[j] == '.';
    var k := if dot then FractionEnd(s, j + 1) else j;
    if j == i && k == j + 1 then None
    else NumberOfParts(s, i, j, dot, k)
  }

  /** The end of the digits after a decimal point that ends just before `p`. */
  function FractionEnd(s: string, p: nat): (k: nat)
    requires p <= |s|
    ensures p <= k <= |s|
  {
    if p < |s| && IsDigit(s[p]) then DigitPartEnd(s, p) else p
  }

  /** The number whose integer digits are `s[i..j]` and, after a point when `dot`,
      whose fraction digits run up to `k`, followed by an optional exponent. */
  function NumberOfParts(s: string, i: nat, j: nat, dot: bool, k: nat): (r: Option<Parsed>)
    requires i <= j <= k <= |s| && (dot ==> j < k && s[j] == '.') && (!dot ==> j == k)
    requires i < k
    ensures r.Some? ==> i < r.value.next <= |s| && r.value.numeric
  {
    var whole := DigitsFrom(s, i, j, 0);
    var mantissa := if dot then DigitsFrom(s, j + 1, k, whole) else whole;
    var shift := if dot then DigitCount(s, j + 1, k) else 0;
    if k < |s| && (s[k] == 'e' || s[k] == 'E') then
      match ExponentAt(s, k)
      case None => None
      case Some((exponent, e1)) => Some(Parsed(Float(Normalize(mantissa, exponent - shift)), true, e1))
    else if k < |s| && IsIdentChar(s[k]) then None
    else if dot then Some(Parsed(Float(Normalize(mantissa, 0 - shift)), true, k))
    else if s[i] == '0' && whole != 0 then None
    else Some(Parsed(Int(whole), true, k))
  }

  /** The exponent `e`/`E`, optional sign, digit part at `k`, and where it ends; None when
      no digit follows or a name character is glued to it. */
  function ExponentAt(s: string, k: nat): (r: Option<(int, nat)>)
    requires k < |s|
    ensures r.Some? ==> k < r.value.1 <= |s|
  {
    var signed := k + 1 < |s| && (s[k + 1] == '-' || s[k + 1] == '+');
    var d0 := if signed then k + 2 else k + 1;
    if d0 < |s| && IsDigit(s[d0]) then
      var e1 := DigitPartEnd(s, d0);
      if e1 < |s| && IsIdentChar(s[e1]) then None
      else
        var magnitude: int := DigitsFrom(s, d0, e1, 0);
        Some((if signed && s[k + 1] == '-' then -magnitude else magnitude, e1))
    else None
  }

  /** The characters a backslash escape stands for inside a string literal;
      None for the escapes this model does not support. */
  function EscapeText(c: char): Option<string> {
    if c == '\n' then Some("")
    else if c == '\\' || c == '\'' || c == '"' then Some([c])
    else if c == 'a' then Some("\U{7}")
    else if c == 'b' then Some("\U{8}")
    else if c == 'f' then Some("\U{C}")
    else if c == 'n' then Some("\n")
    else if c == 'r' then Some("\r")
    else if c == 't' then Some("\t")
    else if c == 'v' then Some("\U{B}")
    else if '0' <= c <= '7' || c == 'x' || c == 'N' || c == 'u' || c == 'U' || c == '\r' then None
    else Some(['\\', c])
  }

  /** The body of a string literal opened by `quote`, from `j` up to and including the closing quote. */
  function StringBody(s: string, j: nat, quote: char, acc: string): (r: Option<(string, nat)>)
    requires j <= |s|
    ensures r.Some? ==> j < r.value.1 <= |s|
    decreases |s| - j
  {
    if j == |s| then None
    else if s[j] == quote then Some((acc, j + 1))
    else if s[j] == '\n' || s[j] == '\r' then None
    else if s[j] == '\\' then
      if j + 1 == |s| then None
      else match EscapeText(s[j + 1])
        case None => None
        case Some(t) => StringBody(s, j + 2, quote, acc + t)
    else StringBody(s, j + 1, quote, acc + [s[j]])
  }

  function NameEnd(s: string, i: nat): (j: nat)
    requires i <= |s|
    ensures i <= j <= |s| && (j < |s| ==> !IsIdentChar(s[j]))
    decreases |s| - i
  {
    if i < |s| && IsIdentChar(s[i]) then NameEnd(s, i + 1) else i
  }

  /** A name: only `True`, `False` and `None` are literals. */
  function ParseName(s: string, i: nat): (r: Option<Parsed>)
    requires i < |s| && IsIdentChar(s[i])
    ensures r.Some? ==> i < r.value.next <= |s| && !r.value.numeric
  {
    var j := NameEnd(s, i);
    if SameText(s, i, j, "True") then Some(Parsed(Bool(true), false, j))
    else if SameText(s, i, j, "False") then Some(Parsed(Bool(false), false, j))
    else if SameText(s, i, j, "None") then Some(Parsed(NoneValue, false, j))
    else None
  }

  /** `s[i..j] == w`, compared character by character (SameTextIsSlice). */
  function SameText(s: string, i: nat, j: nat, w: string): bool
    requires i <= j <= |s|
    decreases j - i
  {
    if j - i != |w| then false
    else if i == j then true
    else s[i] == w[0] && SameText(s, i + 1, j, w[1..])
  }

  lemma {:induction false} SameTextIsSlice(s: string, i: nat, j: nat, w: string)
    requires i <= j <= |s|
    ensures SameText(s, i, j, w) <==> s[i..j] == w
    decreases j - i
  {
    if j - i == |w| && i < j {
      SameTextIsSlice(s, i + 1, j, w[1..]);
      assert s[i..j] == [s[i]] + s[i + 1..j];
      assert w == [w[0]] + w[1..];
    }
  }

  /** One expression at `i`: an atom, or a sign applied to a numeric constant
      (ast.literal_eval accepts exactly one unary `+`/`-` on a number). */
  function ParseExpr(s: string, i: nat): (r: Option<Parsed>)
    requires i <= |s|
    ensures r.Some? ==> i < r.value.next <= |s|
    decreases |s| - i, 2
  {
    var j := SkipBlanks(s, i);
    if j < |s| && (s[j] == '-' || s[j] == '+') then
      match ParseExpr(s, j + 1)
      case None => None
      case Some(p) =>
        if p.numeric then Some(Parsed(if s[j] == '-' then Negate(p.v) else p.v, false, p.next))
        else None
    else ParseAtom(s, j)
  }

  /** A list display, a parenthesised expression or tuple, a string, a number or a name at `i`. */
  function ParseAtom(s: string, i: nat): (r: Option<Parsed>)
    requires i <= |s|
    ensures r.Some? ==> i < r.value.next <= |s|
    decreases |s| - i, 1
  {
    if i == |s| then None
    else if s[i] == '[' then
      match ParseItems(s, i + 1, Bracket(']'))
      case None => None
      case Some(items) => Some(Parsed(List(items.values), false, items.next))
    else if s[i] == '(' then
      match ParseItems(s, i + 1, Bracket(')'))
      case None => None
      case Some(items) =>
        if |items.values| == 1 && !items.comma then
          Some(Parsed(items.values[0], items.firstNumeric, items.next))
        else Some(Parsed(Tuple(items.values), false, items.next))
    else if IsQuote(s[i]) then
      match StringBody(s, i + 1, s[i], "")
      case None => None
      case Some((t, j)) => Some(Parsed(Str(t), false, j))
    else if IsDigit(s[i]) || s[i] == '.' then ParseNumber(s, i)
    else if IsIdentChar(s[i]) then ParseName(s, i)
    else None
  }

  /** Comma-separated expressions from `i` up to `closer`; a trailing comma is allowed. */
  function ParseItems(s: string, i: nat, closer: Closer): (r: Option<Items>)
    requires i <= |s|
    ensures r.Some? ==> i <= r.value.next <= |s|
    ensures r.Some? && closer.EndOfInput? ==> r.value.next == |s|
    decreases |s| - i, 3
  {
    var j := SkipBlanks(s, i);
    if AtCloser(s, j, closer) then
      Some(Items([], false, false, if closer.EndOfInput? then j else j + 1))
    else
      match ParseExpr(s, j)
      case None => None
      case Some(e) =>
        var k := SkipBlanks(s, e.next);
        if AtCloser(s, k, closer) then
          Some(Items([e.v], e.numeric, false, if closer.EndOfInput? then k else k + 1))
        else if k < |s| && s[k] == ',' then
          match ParseItems(s, k + 1, closer)
          case None => None
          case Some(rest) => Some(Items([e.v] + rest.values, e.numeric, true, rest.next))
        else None
  }

  /** `ast.literal_eval(s)` on the literal subset: a bare comma-separated sequence is a tuple. */
  function LiteralEval(s: string): (r: Outcome<Value>)
    ensures r.Raised? ==> r.exc == MalformedLiteral
  {
    match ParseItems(s, 0, EndOfInput)
    case None => Raised(MalformedLiteral)
    case Some(items) =>
      if |items.values| == 0 then Raised(MalformedLiteral)
      else if |items.values| == 1 && !items.comma then Returned(items.values[0])
      else Returned(Tuple(items.values))
  }

  /** Whitespace `int()` ignores around its argument. */
  predicate IsIntSpace(c: char) {
    c == ' ' || c == '\t' || c == '\n' || c == '\r' || c == '\U{B}' || c == '\U{C}'
    || c == '\U{1C}' || c == '\U{1D}' || c == '\U{1E}' || c == '\U{1F}'
  }

  function TrimIntSpace(s: string): (t: string)
    ensures |t| <= |s|
    ensures t == [] || (!IsIntSpace(t[0]) && !IsIntSpace(t[|t| - 1]))
  {
    if s != [] && IsIntSpace(s[0]) then TrimIntSpace(s[1..])
    else if s != [] && IsIntSpace(s[|s| - 1]) then TrimIntSpace(s[..|s| - 1])
    else s
  }

  /** A Python digit part: digits, single underscores between them. */
  predicate IsDigitPart(t: string) {
    |t| > 0 && IsDigit(t[0]) && DigitPartEnd(t, 0) == |t|
  }

  /** `int(s)`: optional surrounding whitespace, an optional sign and a digit part
      (leading zeros allowed); anything else raises ValueError. */
  function PyInt(s: string): (r: Outcome<Value>)
    ensures r.Raised? ==> r.exc == InvalidInteger
    ensures r.Returned? ==> r.value.Int?
  {
    var t := TrimIntSpace(s);
    var signed := |t| > 0 && (t[0] == '-' || t[0] == '+');
    var body := if signed then t[1..] else t;
    if IsDigitPart(body) then
      var n: int := DigitsValue(body);
      Returned(Int(if signed && t[0] == '-' then -n else n))
    else Raised(InvalidInteger)
  }
}
