/**
 * The lexer of the custom inlist format: Python's `shlex.shlex` in its default
 * non-POSIX mode with the configuration set by the inlist parser (comment
 * character `%`, extra word characters `.-[],()`, quotes `'` and `"`; the
 * escape setting only matters in POSIX mode).
 */
module Lexing {
  import opened Chars
  import opened Outcomes

  /** shlex's default whitespace. */
  predicate IsWhitespace(c: char) { c == ' ' || c == '\t' || c == '\r' || c == '\n' }

  /** shlex's default (non-POSIX) word characters plus `.-[],()`. */
  predicate IsWordChar(c: char) {
    IsAsciiLetter(c) || IsDigit(c) || c == '_'
    || c == '.' || c == '-' || c == '[' || c == ']' || c == ',' || c == '(' || c == ')'
  }

  const Commenter: char := '%'

  /** The lexer's state inside one `read_token` call. */
  datatype LexState = Between | InWord | InQuote(quote: char)

  /** Where `readline` stops: just after the next newline, or at the end. */
  function LineEnd(text: string, i: nat): (j: nat)
    requires i <= |text|
    ensures i <= j <= |text|
    ensures j < |text| ==> i < j && text[j - 1] == '\n'
    ensures forall k | i <= k < j - 1 :: text[k] != '\n'
    decreases |text| - i
  {
    if i == |text| then i
    else if text[i] == '\n' then i + 1
    else LineEnd(text, i + 1)
  }

  /**
   * `read_token` continued from position `i` in state `st` with the token read so far:
   * the token and the position after it, or ValueError at the end of input inside quotes.
   * The empty token means the end of input. A character that ends a word without being
   * whitespace is left unread, so that the next call returns it as a one-character token;
   * that is what shlex's push-back does.
   */
  function Scan(text: string, i: nat, st: LexState, token: string): (r: Outcome<(string, nat)>)
    requires i <= |text|
    ensures r.Returned? ==> i <= r.value.1 <= |text|
    ensures r.Raised? ==> r.exc == NoClosingQuotation
    decreases |text| - i
  {
    if i == |text| then
      match st
      case Between => Returned(("", i))
      case InWord => Returned((token, i))
      case InQuote(_) => Raised(NoClosingQuotation)
    else
      var c := text[i];
      match st
      case Between =>
        if IsWhitespace(c) then Scan(text, i + 1, Between, token)
        else if c == Commenter then Scan(text, LineEnd(text, i + 1), Between, token)
        else if IsWordChar(c) then Scan(text, i + 1, InWord, [c])
        else if IsQuote(c) then Scan(text, i + 1, InQuote(c), [c])
        else Returned(([c], i + 1))
      case InWord =>
        if IsWhitespace(c) then Returned((token, i + 1))
        else if c == Commenter then Scan(text, LineEnd(text, i + 1), InWord, token)
        else if IsWordChar(c) || IsQuote(c) then Scan(text, i + 1, InWord, token + [c])
        else Returned((token, i))
      case InQuote(q) =>
        if c == q then Returned((token + [c], i + 1))
        else Scan(text, i + 1, st, token + [c])
  }

  /** The next token from position `i` (`get_token`). */
  function NextToken(text: string, i: nat): (r: Outcome<(string, nat)>)
    requires i <= |text|
    ensures r.Raised? ==> r.exc == NoClosingQuotation
    ensures r.Returned? ==> i <= r.value.1 <= |text|
    ensures r.Returned? && r.value.0 == [] ==> r.value.1 == |text|
    ensures r.Returned? && r.value.0 != [] ==> i < r.value.1
  {
    ScanBetween(text, i);
    Scan(text, i, Between, "")
  }

  /** Scanning from the between-tokens state returns the empty token only at the end
      of input, and consumes at least one character otherwise. */
  lemma {:induction false} ScanBetween(text: string, i: nat)
    requires i <= |text|
    ensures var r := Scan(text, i, Between, "");
      r.Returned? ==> (r.value.0 == [] ==> r.value.1 == |text|) && (r.value.0 != [] ==> i < r.value.1)
    decreases |text| - i
  {
    if i < |text| {
      var c := text[i];
      if IsWhitespace(c) {
        ScanBetween(text, i + 1);
      } else if c == Commenter {
        ScanBetween(text, LineEnd(text, i + 1));
      } else if IsWordChar(c) {
        ScanWord(text, i + 1, [c]);
      } else if IsQuote(c) {
        ScanQuote(text, i + 1, c, [c]);
      }
    }
  }

  /** A word being read keeps its characters: the token returned extends it. */
  lemma {:induction false} ScanWord(text: string, i: nat, token: string)
    requires i <= |text| && token != []
    ensures var r := Scan(text, i, InWord, token);
      r.Returned? && token <= r.value.0
    decreases |text| - i
  {
    if i < |text| {
      var c := text[i];
      if c == Commenter {
        ScanWord(text, LineEnd(text, i + 1), token);
      } else if IsWordChar(c) || IsQuote(c) {
        ScanWord(text, i + 1, token + [c]);
      }
    }
  }

  /** A quoted token being read keeps its characters and ends with its closing quote. */
  lemma {:induction false} ScanQuote(text: string, i: nat, q: char, token: string)
    requires i <= |text| && token != []
    ensures var r := Scan(text, i, InQuote(q), token);
      r.Returned? ==> token < r.value.0 && r.value.0[|r.value.0| - 1] == q
    decreases |text| - i
  {
    if i < |text| && text[i] != q {
      ScanQuote(text, i + 1, q, token + [text[i]]);
    }
  }

  /** A run of word characters extends the word being read. */
  lemma {:induction false} WordRun(text: string, i: nat, j: nat, token: string)
    requires i <= j <= |text|
    requires forall k | i <= k < j :: IsWordChar(text[k])
    ensures Scan(text, i, InWord, token) == Scan(text, j, InWord, token + text[i..j])
    decreases j - i
  {
    if i < j {
      WordRun(text, i + 1, j, token + [text[i]]);
      assert token + [text[i]] + text[i + 1..j] == token + text[i..j];
    } else {
      assert token + text[i..j] == token;
    }
  }

  /** A line that ends at the newline at `j` is read up to just after it. */
  lemma {:induction false} LineEndAt(text: string, i: nat, j: nat)
    requires i <= j < |text| && text[j] == '\n'
    requires forall k | i <= k < j :: text[k] != '\n'
    ensures LineEnd(text, i) == j + 1
    decreases j - i
  {
    if i < j {
      LineEndAt(text, i + 1, j);
    }
  }

  /**
   * A word followed by a comment does not end at the `%`: the rest of the line is
   * skipped and the word goes on. It ends at the next whitespace, which in text joined
   * with `'\n'.join(readlines())` is the newline added after the line's own newline.
   */
  lemma {:induction false} CommentEndsWord(p: string, w: string, comment: string, rest: string)
    requires w != [] && forall k | 0 <= k < |w| :: IsWordChar(w[k])
    requires '\n' !in comment
    ensures |p| <= |p + w + "%" + comment + "\n\n" + rest|
    ensures NextToken(p + w + "%" + comment + "\n\n" + rest, |p|)
         == Returned((w, |p| + |w| + |comment| + 3))
  {
    var text := p + w + "%" + comment + "\n\n" + rest;
    var i, n := |p|, |p| + |w|;
    var e := n + 1 + |comment|;
    assert text[i] == w[0];
    forall k | i + 1 <= k < n ensures IsWordChar(text[k]) {
      assert text[k] == w[k - i];
    }
    WordRun(text, i + 1, n, [w[0]]);
    assert text[i + 1..n] == w[1..];
    assert [w[0]] + w[1..] == w;
    assert text[n] == '%';
    forall k | n + 1 <= k < e ensures text[k] != '\n' {
      assert text[k] == comment[k - n - 1];
    }
    assert text[e] == '\n' && text[e + 1] == '\n';
    LineEndAt(text, n + 1, e);
  }

  /** The `shlex` object: the text and how far it has been read. */
  class Lexer {
    const text: string
    var pos: nat

    ghost predicate Valid()
      reads this
    {
      pos <= |text|
    }

    constructor (text: string)
      ensures Valid() && this.text == text && pos == 0
    {
      this.text := text;
      pos := 0;
    }

    /** `get_token`: the next token, or "" at the end of input (and on every later call). */
    method GetToken() returns (r: Outcome<string>)
      requires Valid()
      modifies this
      ensures Valid()
      ensures match NextToken(text, old(pos))
        case Returned((token, next)) => r == Returned(token) && pos == next
        case Raised(e) => r == Raised(e)
    {
      var state := Between;
      var token := "";
      var i := pos;
      while true
        invariant i <= |text|
        invariant Scan(text, i, state, token) == Scan(text, old(pos), Between, "")
        decreases |text| - i
      {
        if i == |text| {
          match state
          case InQuote(_) =>
            return Raised(NoClosingQuotation);
          case _ =>
            pos := i;
            return Returned(if state.Between? then "" else token);
        }
        var c := text[i];
        match state
        case Between =>
          if IsWhitespace(c) {
            i := i + 1;
          } else if c == Commenter {
            i := LineEnd(text, i + 1);
          } else if IsWordChar(c) {
            token, state, i := [c], InWord, i + 1;
          } else if IsQuote(c) {
            token, state, i := [c], InQuote(c), i + 1;
          } else {
            pos := i + 1;
            return Returned([c]);
          }
        case InWord =>
          if IsWhitespace(c) {
            pos := i + 1;
            return Returned(token);
          } else if c == Commenter {
            i := LineEnd(text, i + 1);
          } else if IsWordChar(c) || IsQuote(c) {
            token, i := token + [c], i + 1;
          } else {
            pos := i;
            return Returned(token);
          }
        case InQuote(q) =>
          token, i := token + [c], i + 1;
          if c == q {
            pos := i;
            return Returned(token);
          }
      }
    }
  }
}
