# Inlist loaders

A Dafny model of the two inlist loaders of the `util_tools.inlist_handler` package. Both read
the input parameters of a run into a dictionary.

- **`InlistHandler`** handles the custom format: `keyword = value` lines with `%` comments.
  - The file is read and joined with `'\n'.join(readlines())`.
  - A lexer (`shlex`, non-POSIX mode) with extra word characters `.-[],()` cuts the text into tokens.
  - The tokens are taken three at a time: keyword, a discarded token and a value.
  - `_typer` converts each value token. It runs an ordered chain of substring tests and hands
    the token to `ast.literal_eval`, to `int`, or to quote stripping.
  - `get_inlist_values` first parses the companion defaults file. The regex
    `(.*)\/.*\/(.*)\..*` derives its path from the run path. The run file is then parsed into
    the same dictionary, so the run file's values overwrite the defaults.
- **`TomlInlistHandler`** takes the `tomllib` tree and replaces every empty table by `None`, in
  place, at every depth reached through tables. Tables inside arrays are not entered.

## Modules

| file | module | models |
|---|---|---|
| `outcomes.dfy` | `Outcomes` | Python exceptions as values: `Outcome<T> = Returned(v) \| Raised(e)`, and `Option` |
| `chars.dfy` | `Chars` | substring tests (`in`), `str.strip` with one character, `str(int)` |
| `literals.dfy` | `Literals` | five items, listed below |
| `typer.dfy` | `Typing` | `_multi_check_method`, the seven check predicates, the float regex, `_typer` |
| `render.dfy` | `Rendering` | literal text for values, proved to evaluate back to the value |
| `inference.dfy` | `Inference` | three kinds of lemma, listed below |
| `lexer.dfy` | `Lexing` | the configured `shlex` lexer: a pure scanner, and the `Lexer` class with `get_token` |
| `inlist.dfy` | `Inlist` | file reading, the `_parse_inlist` token loop, the defaults path, `get_inlist_values` |
| `toml.dfy` | `TomlInlist` | two parts, listed below |

`Literals` models:
- the typed `Value`s;
- floats, as exact decimals;
- `ast.literal_eval` on the literal subset, as a recursive-descent parser;
- base-10 `int()`.

`Inference` proves three kinds of lemma:
- what `_typer` makes of the literal text of each value;
- how the order of the tests shadows later branches;
- the values of the test inlist.

`TomlInlist` models:
- `_adjust_for_none` as a function on trees, with its properties;
- the same method as a class of mutable dictionaries, proved to compute that function in place.

**How closely the code is followed.** The model follows the code's exact behaviour:
- Quote stripping removes every leading and trailing `"` and then every leading and trailing `'`, not just one pair.
- `None` is detected as a substring of the token, not as an exact match.
- No dedicated error exists for a malformed entry. A file that ends right after its keyword
  makes `_typer` convert the end-of-input token `""`, and `int('')` raises `ValueError`.
- In non-POSIX mode, a `%` inside a word does not end the word. The lexer skips the rest of the
  line and the word goes on. The word ends only at the newline that `'\n'.join(readlines())`
  adds after the line's own newline. That is how `8%7%6` gives the value `8`.

## Model

| member | source | states |
|---|---|---|
| Typing.MultiCheck | util_tools/inlist_handler/inlist_handler.py:26-60 | with `any_check` the result is whether some check value is a substring of the token; otherwise, with `all_check`, whether every one is; with neither flag the program exits (None) |
| Typing.StringCheck | util_tools/inlist_handler/inlist_handler.py:66-68 | true exactly when the token holds `'` or `"` |
| Typing.BoolCheck | util_tools/inlist_handler/inlist_handler.py:69-73 | true exactly when `False`, `FALSE`, `True` or `TRUE` occurs in the token |
| Typing.BoolFalseCheck | util_tools/inlist_handler/inlist_handler.py:74-76 | true exactly when `False` or `FALSE` occurs |
| Typing.ListCheck | util_tools/inlist_handler/inlist_handler.py:77-79 | true exactly when both `[` and `]` occur |
| Typing.TupleCheck | util_tools/inlist_handler/inlist_handler.py:80-82 | true exactly when both `(` and `)` occur |
| Typing.NoneCheck | util_tools/inlist_handler/inlist_handler.py:83-85 | true exactly when `None` occurs anywhere in the token (a substring test) |
| Typing.FloatCheck | util_tools/inlist_handler/inlist_handler.py:86-88 | true exactly when the token holds a decimal point |
| Typing.FloatRegexMatch | util_tools/inlist_handler/inlist_handler.py:96 | a token the exponent regex matches has at least three characters, starts with a digit and holds `e` or `E`; `FloatRegexPrefix` gives the exact match condition |
| Typing.FloatRegexPrefix | util_tools/inlist_handler/inlist_handler.py:96 | `re.match(r'\d+[eE]-*\d+')` succeeds exactly when the token starts with digits, `e`/`E`, any number of `-` and a digit; the rest of the token is free |
| Typing.Typer | util_tools/inlist_handler/inlist_handler.py:102-156 | the only exceptions `_typer` raises are the literal evaluator's and `int`'s ValueError |
| Typing.QuotedOrder | util_tools/inlist_handler/inlist_handler.py:116-126 | a token with a quote is literal-evaluated when it holds both `[` and `]`, and becomes the stripped string otherwise, whatever else it holds |
| Typing.BooleanOrder | util_tools/inlist_handler/inlist_handler.py:128-133 | a quote-free token with a boolean word is False when `False` or `FALSE` occurs, even beside `True`, and True otherwise |
| Typing.LiteralOrder | util_tools/inlist_handler/inlist_handler.py:135-155 | past the quote and boolean tests: `None` anywhere gives None; then both square or both round brackets send the token to the literal evaluator; then a point or an exponent prefix does; `int` takes the rest |
| Chars.Strip | util_tools/inlist_handler/inlist_handler.py:121 | `str.strip(c)` leaves a string that neither starts nor ends with `c`, and that is the original with leading and trailing runs of `c` removed |
| Typing.Dequote | util_tools/inlist_handler/inlist_handler.py:121 | `strip('"').strip("'")` never lengthens the text, and its result neither starts nor ends with `'` |
| Typing.DequotedHasNoOuterQuote | util_tools/inlist_handler/inlist_handler.py:116-126 | a quoted token without both square brackets becomes a string that neither starts nor ends with `'` |
| Literals.LiteralEval | util_tools/inlist_handler/inlist_handler.py:139-151 | `ast.literal_eval` raises only its malformed-literal error; its exact meaning is fixed by `Rendering.LiteralEvalRendered` |
| Literals.PyInt | util_tools/inlist_handler/inlist_handler.py:152-155 | `int(value)` either returns an integer or raises ValueError |
| Literals.NormalizeValue | util_tools/inlist_handler/inlist_handler.py:147-151 | the canonical decimal a float literal is stored as equals the mantissa and exponent read from its text |
| Rendering.LiteralEvalRendered | util_tools/inlist_handler/inlist_handler.py:139-151 | for every value with a canonical text (numbers, safe strings, booleans, None, lists and tuples of them, nested), `ast.literal_eval` of that text returns the value |
| Inference.TyperRendered | util_tools/inlist_handler/inlist_handler.py:102-156 | `_typer` of the text of an int, a float, a list or tuple of numbers, a boolean, None or a safe quoted string returns that value |
| Inference.TyperPlain | util_tools/inlist_handler/inlist_handler.py:139-151 | floats and lists and tuples of numbers go through the list, tuple or float branch and come back unchanged |
| Inference.TyperInt | util_tools/inlist_handler/inlist_handler.py:152-155 | `_typer(str(n))` is `n` for every integer `n`, negative ones included |
| Inference.PyIntText | util_tools/inlist_handler/inlist_handler.py:155 | `int(str(n)) == n` for every integer |
| Inference.TyperWords | util_tools/inlist_handler/inlist_handler.py:128-137 | `True` gives True, `False` gives False, `None` gives None |
| Inference.TyperCapitalFalse | util_tools/tests/inlist_handler/test_inlist_handler.py:30 | `FALSE` gives False |
| Inference.TyperString | util_tools/inlist_handler/inlist_handler.py:116-126 | a single-quoted safe string loses its quotes and nothing else |
| Inference.DequoteQuoted | util_tools/inlist_handler/inlist_handler.py:121 | `strip('"').strip("'")` of `'t'` is `t` when `t` has no single quote, backslash or line break |
| Inference.BoolWinsOverList | util_tools/inlist_handler/inlist_handler.py:128-141 | `[1,True]` is a list literal, yet `_typer` returns True: the boolean test shadows the list test |
| Inference.ExponentFloat | util_tools/inlist_handler/inlist_handler.py:147-151 | `1e5` has no point but matches the exponent regex and becomes the float 100000.0 |
| Inference.SignedExponentFloat | util_tools/inlist_handler/inlist_handler.py:147-155 | `-1e5` has no point and does not match the regex (it starts with `-`), so `int` raises ValueError |
| Inference.EllipsisMalformed | util_tools/inlist_handler/inlist_handler.py:141 | the modelled `ast.literal_eval` raises the malformed-literal error on `[...]`, where Python returns `[Ellipsis]` (a gap named under Left out) |
| Inference.EllipsisRejected | util_tools/inlist_handler/inlist_handler.py:139-141 | `[...]` takes the list branch of `_typer` and, in the model, raises the malformed-literal error |
| Inference.TestNumbers | util_tools/tests/inlist_handler/test_inlist_handler.py:32-40 | `8` gives the int 8 and `8.0` the float 8.0 |
| Inference.TestIntegerList | util_tools/tests/inlist_handler/test_inlist_handler.py:34 | `[2,1,1,1,2]` gives the list of ints |
| Inference.TestFloatList | util_tools/tests/inlist_handler/test_inlist_handler.py:35 | `[8.0,7.0,6.0]` gives the list of floats |
| Inference.TestStrings | util_tools/tests/inlist_handler/test_inlist_handler.py:37-38 | `'this is a string'` and `'/path/to/somewhere'` give the unquoted strings |
| Inference.TestCommentValue | util_tools/tests/inlist_handler/test_inlist_handler.py:42 | in the joined text, `8%7%6` at the end of a line lexes as the token `8`, which becomes the int 8 |
| Lexing.LineEnd | util_tools/inlist_handler/inlist_handler.py:187 | the `readline` that skips a `%` comment stops just after the next newline, or at the end of the text, and passes no newline before it |
| Lexing.Scan | util_tools/inlist_handler/inlist_handler.py:185-206 | a token read stays within the text; the only error is the missing closing quote |
| Lexing.NextToken | util_tools/inlist_handler/inlist_handler.py:208-211 | `get_token` returns the empty end-of-input token only at the end of the text, and otherwise consumes input |
| Lexing.ScanWord | util_tools/inlist_handler/inlist_handler.py:190-202 | a word being read is never cut short: the token returned extends it |
| Lexing.ScanQuote | util_tools/inlist_handler/inlist_handler.py:204 | a quoted token keeps its opening quote and ends with the closing one |
| Lexing.CommentEndsWord | util_tools/inlist_handler/inlist_handler.py:185-187 | a word followed by `%` and a comment is returned whole, ending at the newline added by the join |
| Lexing.Lexer.GetToken | util_tools/inlist_handler/inlist_handler.py:208-211 | the stateful `get_token` returns the scanner's token and leaves the lexer just after it |
| Inlist.UniversalNewlines | util_tools/inlist_handler/inlist_handler.py:182 | text-mode reading leaves no carriage return |
| Inlist.ReadLines | util_tools/inlist_handler/inlist_handler.py:185 | `readlines` cuts the text into non-empty lines that concatenate back to it, each ending at its only newline |
| Inlist.JoinLines | util_tools/inlist_handler/inlist_handler.py:185 | `'\n'.join(lines)` starts with the first line and is one character longer than the lines together for each gap between two lines |
| Inlist.TypedEntries | util_tools/inlist_handler/inlist_handler.py:208-214 | the token loop raises only the lexer's, `literal_eval`'s and `int`'s errors |
| Inlist.ParseInlist | util_tools/inlist_handler/inlist_handler.py:162-220 | the token loop over a `Lexer`, updating the dictionary entry by entry, ends in the dictionary overlaid with the file's entries, or in the exception, with NameError and TypeError turned into None |
| Inlist.EntriesFromTokens | util_tools/inlist_handler/inlist_handler.py:208-211 | the loop takes the tokens three at a time (keyword, discarded token, value): its entries are the grouped token sequence |
| Inlist.Overlay | util_tools/inlist_handler/inlist_handler.py:214 | assigning the entries in order keeps every key already present, and the last entry's keyword holds the last entry's value |
| Inlist.Handle | util_tools/inlist_handler/inlist_handler.py:215-220 | NameError and TypeError, and only those, become the result None; any other exception propagates unchanged; a dictionary is returned as it is |
| Inlist.OverlayKeys | util_tools/inlist_handler/inlist_handler.py:214 | the parse adds exactly the file's keywords to the dictionary's keys |
| Inlist.OverlayUnmentioned | util_tools/inlist_handler/inlist_handler.py:214 | a key the file does not mention keeps its value, or stays absent |
| Inlist.OverlayLastWins | util_tools/inlist_handler/inlist_handler.py:208-214 | the last entry for a keyword decides its value |
| Inlist.OverlayLookup | util_tools/inlist_handler/inlist_handler.py:208-214 | every key's value after the parse: its last entry's if mentioned, else its earlier value |
| Inlist.OverlayAppend | util_tools/inlist_handler/inlist_handler.py:276-283 | parsing one file and then another into a dictionary is parsing their entries concatenated |
| Inlist.OverlayTwice | util_tools/inlist_handler/inlist_handler.py:208-214 | parsing the same entries a second time changes nothing |
| Inlist.OverlayExample | util_tools/inlist_handler/inlist_handler.py:214 | `{a: 1, b: 2}` overlaid with `b = 3, c = 4` is `{a: 1, b: 3, c: 4}` |
| Inlist.MatchDefaults | util_tools/inlist_handler/inlist_handler.py:94 | the regex matches a line exactly when it holds two `/` followed later by a `.`; the name built from a match ends in `.defaults` and has no newline when the line has none |
| Inlist.DefaultsPath | util_tools/inlist_handler/inlist_handler.py:245-256 | the defaults path derived from a run path, when there is one, is a single line ending in `.defaults` |
| Inlist.DefaultsPathOfConventional | util_tools/inlist_handler/inlist_handler.py:245-256 | a run path `<D>/<S>/<N>.<E>` (S, N without `/`, E without `.`, one line) has the defaults path `<D>/defaults/<N>.defaults` |
| Inlist.DefaultsPathIsConventional | util_tools/inlist_handler/inlist_handler.py:94 | every regex match comes from such a split, with that defaults path |
| Inlist.DefaultsPathMatches | util_tools/inlist_handler/inlist_handler.py:94 | the regex matches exactly the conventional run paths |
| Inlist.DefaultsPathExample | util_tools/tests/inlist_handler/test_inlist_handler.py:16-19 | `<base>/my_data0/test.in` has its defaults in `<base>/defaults/test.defaults` |
| Inlist.GetDefaultInlistValues | util_tools/inlist_handler/inlist_handler.py:226-256 | NameError for a path without a match, else the defaults file parsed into an empty dictionary |
| Inlist.GetInlistValues | util_tools/inlist_handler/inlist_handler.py:262-287 | the defaults, then the run file parsed on top of them; a NameError of the second parse gives None |
| Inlist.ParseNeverCaught | util_tools/inlist_handler/inlist_handler.py:215-220 | no error the loop raises is one the handlers catch: the parse returns a dictionary or raises a load error or the file's OSError |
| Inlist.DefaultsThenRun | util_tools/inlist_handler/inlist_handler.py:276-283 | with both files present and well formed, the result is the defaults' entries and then the run file's, overlaid on an empty dictionary |
| Inlist.InlistValuesOutcome | util_tools/inlist_handler/inlist_handler.py:245-287 | `get_inlist_values` never returns None; NameError comes only from a path without the conventional naming; every other failure is an OSError or a load error |
| TomlInlist.Normalized | util_tools/inlist_handler/toml_inlist_handler.py:50-56 | the loop over the items keeps exactly the dictionary's keys; the value under each is given by `NormalizedValue` |
| TomlInlist.NormalizedValue | util_tools/inlist_handler/toml_inlist_handler.py:52-56 | a table in the result was a table with the same keys; a None was a None or an empty table; a value that is not a table, an array included, is unchanged |
| TomlInlist.NormalizedAt | util_tools/inlist_handler/toml_inlist_handler.py:50-56 | under each key: an empty table becomes None, a non-empty table is normalised in turn, any other value is kept |
| TomlInlist.AdjustCases | util_tools/inlist_handler/toml_inlist_handler.py:50-56 | the keys are kept; empty tables become None; non-empty tables keep their keys; non-tables, arrays included, are unchanged |
| TomlInlist.AdjustKeepsPaths | util_tools/inlist_handler/toml_inlist_handler.py:50-56 | no key is added or removed at any depth reached through tables |
| TomlInlist.AdjustLeavesNoEmptyTable | util_tools/inlist_handler/toml_inlist_handler.py:52-56 | no empty table is left at any depth reached through tables; tables inside arrays are not entered |
| TomlInlist.ArrayNotEntered | util_tools/inlist_handler/toml_inlist_handler.py:52-56 | `list = [{}]` keeps its empty table: an array is neither `{}` nor a mapping, so the loop leaves it alone |
| TomlInlist.NullsComeFromEmptyTables | util_tools/inlist_handler/toml_inlist_handler.py:52-53 | a None in the result was a None or an empty table |
| TomlInlist.AdjustIdempotent | util_tools/inlist_handler/toml_inlist_handler.py:50-56 | normalising twice gives the tree of normalising once |
| TomlInlist.AdjustExample | util_tools/tests/inlist_handler/test_toml_inlist_handler.py:18-40 | the test document: the strings stay strings and `my-none = {}` becomes None |
| TomlInlist.TomlTable.AdjustForNone | util_tools/inlist_handler/toml_inlist_handler.py:42-56 | the in-place loop leaves the object structure intact and the tree it holds equal to the normalised old tree |
| TomlInlist.TomlTable.AdjustItem | util_tools/inlist_handler/toml_inlist_handler.py:52-56 | one loop step changes only the value under its key, to that value normalised |
| TomlInlist.TomlTable.AdjustNested | util_tools/inlist_handler/toml_inlist_handler.py:55-56 | the recursive call normalises the nested dictionary in place and leaves its siblings alone |
| TomlInlist.GetInlistValues | util_tools/inlist_handler/toml_inlist_handler.py:74-78 | the result is the parsed dictionary itself, normalised exactly once |

## Left out

- File I/O. The files are a `FileSystem` parameter, a map from path to contents. A missing path is `open`'s OSError. Encodings, permissions and other OSErrors are not modelled.
- `_parse_toml_inlist` (`tomllib.load`). `TomlInlist.GetInlistValues` starts from the parsed tree, built as a `TomlTable`. TOML floats and date-times are kept as their text.
- Logging. A call to `sys.exit` in `_multi_check_method` is the result None; no partial method reaches it.
- `ast.literal_eval` is modelled only for the literal subset the inlists use:
  - decimal ints;
  - point and exponent floats;
  - single- and double-quoted strings with the simple escapes;
  - `True`, `False` and `None`;
  - lists, tuples and parenthesised expressions;
  - unary signs on numbers.

  These are left out: hex, octal and binary ints; complex numbers; sets and dicts; string prefixes; triple-quoted strings (such as `['''it's''']`, which the lexer passes as one word); octal, hex and named escapes; implicit string concatenation; the Ellipsis literal `...`, so `[...]` also fails (`Inference.EllipsisRejected`), where `ast.literal_eval` returns `[Ellipsis]`. All of them raise the malformed-literal error in the model.
- Literals.LiteralEval: whitespace is accepted between any two parts of a literal, line breaks included. Python's rule against line breaks outside brackets is not modelled, though lexer tokens hold whitespace only inside quotes.
- Python's size limits (version 3.11 and later, which `tomllib` requires) are not modelled. `int()` raises ValueError on decimal text of more than 4300 digits; `ast.literal_eval` raises SyntaxError on an integer literal that long and on brackets nested 200 deep. The members below promise their results without these bounds:
- LiteralEval: returns an integer for a literal of more than 4300 digits and a value for brackets nested 200 or more deep, where Python raises SyntaxError.
- PyInt: returns an integer for text of more than 4300 digits, where `int()` raises ValueError.
- LiteralEvalRendered: the round trip is proved for every renderable value; Python holds it only for integers of at most 4300 digits and nesting below 200 levels.
- TyperRendered: the same bounds apply; past them `_typer` raises where the lemma returns the value.
- TyperPlain: the same bounds apply to nested numbers, lists and tuples.
- TyperInt: holds in Python only when `str(n)` has at most 4300 digits; past that `int()` raises ValueError.
- PyIntText: `int(str(n)) == n` holds in Python only up to 4300 digits.
- Python floats are exact decimals (mantissa times a power of ten). The model has no IEEE rounding, no overflow to infinity and no float arithmetic. `8.0` and `8` stay different values, where Python's `==` would equate them.
- Characters are ASCII only: `int`'s Unicode digits and Unicode whitespace are not modelled. (The configured lexer's whitespace and word characters are ASCII in Python too.)
- `shlex` is modelled only in the behaviour the configuration selects: non-POSIX mode, whitespace, comments, word characters and quotes. Its `escape` setting matters only in POSIX mode. The model leaves out `source` inclusion, `lineno`, debug output and a caller-driven `push_token`.
- Inlist.ParseInlist: the dictionary is a value. A caller's dictionary updated in place by the entries read before an exception is not modelled; no caller of `_parse_inlist` reads it after a failure.
- Python dictionaries keep insertion order; maps do not. The model has no key order.
- The whole test inlist through `get_inlist_values` is not proved in one lemma. Each of its values is proved on its own, and so are the lexing of the comment line and the defaults path.
- TomlInlist.TomlTable.AdjustForNone visits the keys in any order, where Python uses insertion order; the result does not depend on the order.
- `util_tools/inlist_handler/__init__.py` only re-exports the two classes and is not part of this model.
