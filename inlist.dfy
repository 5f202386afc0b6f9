/**
 * The loader of the custom inlist format: a file of `keyword = value` entries, read
 * with the configured lexer, typed entry by entry and written into a dictionary
 * that starts out as the values of the companion defaults file.
 */
module Inlist {
  import opened Chars
  import opened Outcomes
  import opened Literals
  import opened Typing
  import opened Lexing

  /** The dictionary of input parameters. */
  type Dict = map<string, Value>

  /** The files the loader can open: path to raw contents. */
  type FileSystem = map<string, string>

  /** One typed entry of an inlist: keyword and value. */
  type Entry = (string, Value)

  // ---------------------------------------------------------------------------
  // Reading a file
  // ---------------------------------------------------------------------------

  /** Text-mode reading with universal newlines: `\r\n` and a lone `\r` become `\n`. */
  function UniversalNewlines(raw: string): (t: string)
    ensures '\r' !in t
    ensures |t| <= |raw|
    decreases |raw|
  {
    if raw == [] then []
    else if raw[0] == '\r' then
      "\n" + UniversalNewlines(if |raw| > 1 && raw[1] == '\n' then raw[2..] else raw[1..])
    else [raw[0]] + UniversalNewlines(raw[1..])
  }

  /** Concatenation of a sequence of strings. */
  function Flatten(lines: seq<string>): string {
    if lines == [] then [] else lines[0] + Flatten(lines[1..])
  }

  /** `readlines`: the text cut just after every newline. */
  function ReadLines(t: string): (lines: seq<string>)
    ensures Flatten(lines) == t
    ensures forall k | 0 <= k < |lines| :: lines[k] != []
    ensures forall k | 0 <= k < |lines| - 1 :: lines[k][|lines[k]| - 1] == '\n'
    ensures forall k | 0 <= k < |lines| :: '\n' !in lines[k][..|lines[k]| - 1]
    decreases |t|
  {
    if t == [] then []
    else
      var j := LineEnd(t, 0);
      assert t[..j] + t[j..] == t;
      [t[..j]] + ReadLines(t[j..])
  }

  /** `'\n'.join(lines)`: the lines in order, a newline between each two. */
  function JoinLines(lines: seq<string>): (r: string)
    ensures lines != [] ==> lines[0] <= r && |r| == |Flatten(lines)| + |lines| - 1
  {
    if lines == [] then []
    else if |lines| == 1 then lines[0]
    else lines[0] + "\n" + JoinLines(lines[1..])
  }

  /** What the lexer of `_parse_inlist` is given for a file with contents `raw`. */
  function LexedText(raw: string): string {
    JoinLines(ReadLines(UniversalNewlines(raw)))
  }

  // ---------------------------------------------------------------------------
  // The token loop
  // ---------------------------------------------------------------------------

  /** The errors the token loop can raise: the lexer's, `ast.literal_eval`'s and `int`'s. */
  predicate IsLoadError(e: Exception) {
    e == NoClosingQuotation || e == MalformedLiteral || e == InvalidInteger
  }

  /**
   * The entries read from position `i` on: a keyword token, a token that is discarded
   * whatever it is, and a value token typed by `Typer`, until the keyword is the
   * end-of-input token. The first exception raised ends the loop.
   */
  function TypedEntries(text: string, i: nat): (r: Outcome<seq<Entry>>)
    requires i <= |text|
    ensures r.Raised? ==> IsLoadError(r.exc)
    decreases |text| - i
  {
    match NextToken(text, i)
    case Raised(e) => Raised(e)
    case Returned((keyword, j)) =>
      if keyword == "" then Returned([])
      else
        match NextToken(text, j)
        case Raised(e) => Raised(e)
        case Returned((_, k)) =>
          match NextToken(text, k)
          case Raised(e) => Raised(e)
          case Returned((token, l)) =>
            match Typer(token)
            case Raised(e) => Raised(e)
            case Returned(v) =>
              assert i < j <= k <= l;
              match TypedEntries(text, l)
              case Raised(e) => Raised(e)
              case Returned(rest) => Returned([(keyword, v)] + rest)
  }

  /** `dictionary_inlist[keyword] = value` for every entry, in order. */
  function Overlay(d: Dict, entries: seq<Entry>): (r: Dict)
    ensures d.Keys <= r.Keys
    ensures entries != [] ==>
      entries[|entries| - 1].0 in r && r[entries[|entries| - 1].0] == entries[|entries| - 1].1
    decreases |entries|
  {
    if entries == [] then d else Overlay(d[entries[0].0 := entries[0].1], entries[1..])
  }

  /** The dictionary after the loop over `entries`, or the exception that ended it. */
  function Apply(d: Dict, entries: Outcome<seq<Entry>>): Outcome<Dict> {
    match entries
    case Returned(es) => Returned(Overlay(d, es))
    case Raised(e) => Raised(e)
  }

  /** The `except NameError` and `except TypeError` clauses of `_parse_inlist`: the
      exception is logged and the method returns None. Other exceptions propagate. */
  function Handle(o: Outcome<Dict>): (r: Outcome<Option<Dict>>)
    ensures r.Raised? <==> o.Raised? && o.exc != NameError && o.exc != TypeError
    ensures r.Raised? ==> r.exc == o.exc
    ensures r == Returned(None) <==> o.Raised? && (o.exc == NameError || o.exc == TypeError)
    ensures o.Returned? ==> r == Returned(Some(o.value))
  {
    match o
    case Returned(d) => Returned(Some(d))
    case Raised(e) => if e == NameError || e == TypeError then Returned(None) else Raised(e)
  }

  /** `_parse_inlist(path, dictionary)`. */
  function ParseInlistSpec(fs: FileSystem, path: string, dictionary: Option<Dict>): Outcome<Option<Dict>> {
    var d := dictionary.GetOr(map[]);
    if path !in fs then Handle(Raised(FileNotFound(path)))
    else Handle(Apply(d, TypedEntries(LexedText(fs[path]), 0)))
  }

  /** `_parse_inlist`: the token loop over a lexer, updating the dictionary entry by entry. */
  method ParseInlist(fs: FileSystem, path: string, dictionary: Option<Dict>) returns (r: Outcome<Option<Dict>>)
    ensures r == ParseInlistSpec(fs, path, dictionary)
  {
    var d := dictionary.GetOr(map[]);
    if path !in fs {
      return Handle(Raised(FileNotFound(path)));
    }
    var text := LexedText(fs[path]);
    ghost var goal := Apply(d, TypedEntries(text, 0));
    var lex := new Lexer(text);
    while true
      invariant lex.Valid() && lex.text == text
      invariant Apply(d, TypedEntries(text, lex.pos)) == goal
      decreases |text| - lex.pos
    {
      var keyword := lex.GetToken();
      if keyword.Raised? {
        return Handle(Raised(keyword.exc));
      }
      if keyword.value == "" {
        break;
      }
      var separator := lex.GetToken();
      if separator.Raised? {
        return Handle(Raised(separator.exc));
      }
      var token := lex.GetToken();
      if token.Raised? {
        return Handle(Raised(token.exc));
      }
      var value := Typer(token.value);
      if value.Raised? {
        return Handle(Raised(value.exc));
      }
      OverlayCons(d, (keyword.value, value.value));
      d := d[keyword.value := value.value];
    }
    return Handle(Returned(d));
  }

  lemma OverlayCons(d: Dict, e: Entry)
    ensures forall rest :: Overlay(d, [e] + rest) == Overlay(d[e.0 := e.1], rest)
  {
    forall rest ensures Overlay(d, [e] + rest) == Overlay(d[e.0 := e.1], rest) {
      assert ([e] + rest)[1..] == rest;
    }
  }

  // ---------------------------------------------------------------------------
  // The defaults file
  // ---------------------------------------------------------------------------

  /** The index of the last `c` in `s`, or -1. */
  function LastIndex(s: string, c: char): (k: int)
    ensures -1 <= k < |s|
    ensures k >= 0 ==> s[k] == c
    ensures forall j | k < j < |s| :: s[j] != c
  {
    if s == [] then -1
    else if s[|s| - 1] == c then |s| - 1
    else LastIndex(s[..|s| - 1], c)
  }

  /** The part of `path` before its first newline: where a regex `.` can match. */
  function FirstLine(path: string): (line: string)
    ensures line <= path && '\n' !in line
    ensures |line| < |path| ==> path[|line|] == '\n'
  {
    if path == [] || path[0] == '\n' then [] else [path[0]] + FirstLine(path[1..])
  }

  /**
   * The defaults path derived with `re.match(r'(.*)\/.*\/(.*)\..*', path)`, which can only
   * match within the first line; None when there is no match.
   */
  function DefaultsPath(path: string): (r: Option<string>)
    ensures r.Some? ==> '\n' !in r.value && IsDefaultsName(r.value)
  {
    MatchDefaults(FirstLine(path))
  }

  /** A file name that ends in `.defaults`, long enough to hold `/defaults/` before it. */
  predicate IsDefaultsName(p: string) {
    |p| >= 19 && p[|p| - 9..] == ".defaults"
  }

  /** The regex on one line: the greedy groups make group 2 what lies between the last
      `/` before the last `.` and that `.`, and group 1 what precedes the `/` before that. */
  function MatchDefaults(line: string): (r: Option<string>)
    ensures r.Some? ==> IsDefaultsName(r.value)
    ensures r.Some? && '\n' !in line ==> '\n' !in r.value
    ensures r.Some? <==>
      (exists a, b, dot :: 0 <= a < b < dot < |line| && line[a] == '/' && line[b] == '/' && line[dot] == '.')
  {
    var dot := LastIndex(line, '.');
    if dot < 0 then None
    else
      var b := LastIndex(line[..dot], '/');
      if b < 0 then None
      else
        var a := LastIndex(line[..b], '/');
        if a < 0 then None
        else Some(line[..a] + "/defaults/" + line[b + 1..dot] + ".defaults")
  }

  /** A run path `<dir>/<sub>/<name>.<ext><rest>` split into its parts: none of the parts
      before `rest` holds a newline, `sub` and `name` hold no `/`, `ext` holds no `.`,
      and `rest` is empty or starts a new line. */
  predicate Conventional(dir: string, sub: string, name: string, ext: string, rest: string) {
    && '\n' !in dir && '\n' !in sub && '\n' !in name && '\n' !in ext
    && '/' !in sub && '/' !in name && '.' !in ext
    && (rest == [] || rest[0] == '\n')
  }

  function Assemble(dir: string, sub: string, name: string, ext: string, rest: string): string {
    dir + "/" + sub + "/" + name + "." + ext + rest
  }

  /** The defaults file of a run path: `<dir>/defaults/<name>.defaults`. */
  function DefaultsOf(dir: string, name: string): string {
    dir + "/defaults/" + name + ".defaults"
  }

  lemma NoneAfter(x: string, c: char, y: string)
    requires c !in y
    ensures forall j | |x| < j < |x| + 1 + |y| :: (x + [c] + y)[j] != c
  {
    var s := x + [c] + y;
    forall j | |x| < j < |s| ensures s[j] != c {
      assert s[j] == y[j - |x| - 1];
    }
  }

  /** The last `c` of `x + [c] + y` is the one after `x` when `y` holds none. */
  lemma LastIndexAfter(x: string, c: char, y: string)
    requires c !in y
    ensures LastIndex(x + [c] + y, c) == |x|
  {
    NoneAfter(x, c, y);
    LastIndexIs(x + [c] + y, c, |x|);
  }

  lemma LastIndexIs(s: string, c: char, k: nat)
    requires k < |s| && s[k] == c && forall j | k < j < |s| :: s[j] != c
    ensures LastIndex(s, c) == k
  {
  }

  /** `s` cut around its character at `k`. */
  lemma CutAt(s: string, k: nat)
    requires k < |s|
    ensures s == s[..k] + [s[k]] + s[k + 1..]
  {
  }

  lemma NotInFrom(s: string, c: char, i: nat)
    requires i <= |s| && forall j | i <= j < |s| :: s[j] != c
    ensures c !in s[i..]
  {
    forall k | 0 <= k < |s| - i ensures s[i..][k] != c {
      assert s[i..][k] == s[i + k];
    }
  }

  lemma {:induction false} FirstLineOf(line: string, rest: string)
    requires '\n' !in line && (rest == [] || rest[0] == '\n')
    ensures FirstLine(line + rest) == line
    decreases |line|
  {
    if line == [] {
      assert line + rest == rest;
    } else {
      assert (line + rest)[0] == line[0];
      assert (line + rest)[1..] == line[1..] + rest;
      FirstLineOf(line[1..], rest);
      assert [line[0]] + line[1..] == line;
    }
  }

  lemma MatchOfParts(dir: string, sub: string, name: string, ext: string)
    requires '/' !in sub && '/' !in name && '.' !in ext
    ensures MatchDefaults(dir + "/" + sub + "/" + name + "." + ext) == Some(DefaultsOf(dir, name))
  {
    var p1 := dir + ['/'] + sub;
    var p2 := p1 + ['/'] + name;
    var line := p2 + ['.'] + ext;
    assert line == dir + "/" + sub + "/" + name + "." + ext;
    LastIndexAfter(p2, '.', ext);
    assert line[..|p2|] == p2;
    LastIndexAfter(p1, '/', name);
    assert line[..|p1|] == p1;
    LastIndexAfter(dir, '/', sub);
    assert line[..|dir|] == dir;
    assert line[|p1| + 1..|p2|] == name;
  }

  lemma PartsOfMatch(line: string) returns (dir: string, sub: string, name: string, ext: string)
    requires MatchDefaults(line).Some?
    ensures '/' !in sub && '/' !in name && '.' !in ext
    ensures line == dir + "/" + sub + "/" + name + "." + ext
    ensures MatchDefaults(line) == Some(DefaultsOf(dir, name))
  {
    var dot := LastIndex(line, '.');
    var p2 := line[..dot];
    var b := LastIndex(p2, '/');
    var p1 := line[..b];
    assert p2[..b] == p1;
    var a := LastIndex(p1, '/');
    dir, sub, name, ext := p1[..a], p1[a + 1..], p2[b + 1..], line[dot + 1..];
    CutAt(line, dot);
    CutAt(p2, b);
    CutAt(p1, a);
    NotInFrom(line, '.', dot + 1);
    NotInFrom(p2, '/', b + 1);
    NotInFrom(p1, '/', a + 1);
    assert line[b + 1..dot] == name;
    assert line[..a] == dir;
    assert line == p2 + "." + ext;
    assert p2 == p1 + "/" + name;
    assert p1 == dir + "/" + sub;
  }

  /** A conventional run path has its defaults file in the `defaults` directory beside
      the run file's directory, with the run file's name. */
  lemma DefaultsPathOfConventional(dir: string, sub: string, name: string, ext: string, rest: string)
    requires Conventional(dir, sub, name, ext, rest)
    ensures DefaultsPath(Assemble(dir, sub, name, ext, rest)) == Some(DefaultsOf(dir, name))
  {
    var line := dir + "/" + sub + "/" + name + "." + ext;
    assert Assemble(dir, sub, name, ext, rest) == line + rest;
    FirstLineOf(line, rest);
    MatchOfParts(dir, sub, name, ext);
  }

  /** Every match comes from a conventional split of the run path. */
  lemma DefaultsPathIsConventional(path: string)
    requires DefaultsPath(path).Some?
    ensures exists dir, sub, name, ext, rest :: (Conventional(dir, sub, name, ext, rest)
      && path == Assemble(dir, sub, name, ext, rest)
      && DefaultsPath(path) == Some(DefaultsOf(dir, name)))
  {
    var line := FirstLine(path);
    var dir, sub, name, ext := PartsOfMatch(line);
    var rest := path[|line|..];
    assert path == line + rest;
    assert Conventional(dir, sub, name, ext, rest);
    assert path == Assemble(dir, sub, name, ext, rest);
  }

  /** The regex matches exactly the conventional run paths. */
  lemma DefaultsPathMatches(path: string)
    ensures DefaultsPath(path).Some? <==>
      exists dir, sub, name, ext, rest :: (Conventional(dir, sub, name, ext, rest)
        && path == Assemble(dir, sub, name, ext, rest))
  {
    if DefaultsPath(path).Some? {
      DefaultsPathIsConventional(path);
    }
    if exists dir, sub, name, ext, rest :: (Conventional(dir, sub, name, ext, rest)
        && path == Assemble(dir, sub, name, ext, rest)) {
      var dir, sub, name, ext, rest :| Conventional(dir, sub, name, ext, rest)
        && path == Assemble(dir, sub, name, ext, rest);
      DefaultsPathOfConventional(dir, sub, name, ext, rest);
    }
  }

  /** The run file `<base>/my_data0/test.in` has its defaults in `<base>/defaults/test.defaults`. */
  lemma DefaultsPathExample(base: string)
    requires '\n' !in base
    ensures DefaultsPath(base + "/my_data0/test.in") == Some(base + "/defaults/test.defaults")
  {
    var sub, name, ext := "my_data0", "test", "in";
    assert '\n' !in sub && '/' !in sub;
    assert '\n' !in name && '/' !in name;
    assert '\n' !in ext && '.' !in ext;
    assert "/" + sub + "/" + name + "." + ext == "/my_data0/test.in";
    assert Assemble(base, sub, name, ext, []) == base + "/my_data0/test.in";
    assert "/defaults/" + name + ".defaults" == "/defaults/test.defaults";
    assert DefaultsOf(base, name) == base + "/defaults/test.defaults";
    DefaultsPathOfConventional(base, sub, name, ext, []);
  }

  /** `_get_default_inlist_values(path)`. */
  function DefaultInlistValuesSpec(fs: FileSystem, path: string): Outcome<Option<Dict>> {
    match DefaultsPath(path)
    case None => Raised(NameError)
    case Some(defaults) => ParseInlistSpec(fs, defaults, None)
  }

  /** `_get_default_inlist_values`: NameError for a run path without the conventional
      naming, else the defaults file parsed into an empty dictionary. */
  method GetDefaultInlistValues(fs: FileSystem, path: string) returns (r: Outcome<Option<Dict>>)
    ensures r == DefaultInlistValuesSpec(fs, path)
  {
    var defaults := DefaultsPath(path);
    if defaults.None? {
      return Raised(NameError);
    }
    r := ParseInlist(fs, defaults.value, None);
  }

  /** `get_inlist_values(path)`: the defaults, then the run file parsed on top of them;
      a NameError of that second parse is logged and gives None. */
  function InlistValuesSpec(fs: FileSystem, path: string): Outcome<Option<Dict>> {
    match DefaultInlistValuesSpec(fs, path)
    case Raised(e) => Raised(e)
    case Returned(defaults) =>
      var r := ParseInlistSpec(fs, path, defaults);
      if r == Raised(NameError) then Returned(None) else r
  }

  /** `get_inlist_values`. */
  method GetInlistValues(fs: FileSystem, path: string) returns (r: Outcome<Option<Dict>>)
    ensures r == InlistValuesSpec(fs, path)
  {
    var defaults := GetDefaultInlistValues(fs, path);
    if defaults.Raised? {
      return Raised(defaults.exc);
    }
    r := ParseInlist(fs, path, defaults.value);
    if r == Raised(NameError) {
      r := Returned(None);
    }
  }

  // ---------------------------------------------------------------------------
  // Properties of the token loop and the overlay
  // ---------------------------------------------------------------------------

  /** All tokens from position `i` up to the end-of-input token. */
  function Tokens(text: string, i: nat): Outcome<seq<string>>
    requires i <= |text|
    decreases |text| - i
  {
    match NextToken(text, i)
    case Raised(e) => Raised(e)
    case Returned((token, j)) =>
      if token == "" then Returned([])
      else
        match Tokens(text, j)
        case Raised(e) => Raised(e)
        case Returned(rest) => Returned([token] + rest)
  }

  /** The entries of a token sequence, three tokens an entry: the keyword, a token that
      is ignored, and the value. A value missing at the end is the end-of-input token. */
  function Group(tokens: seq<string>): Outcome<seq<Entry>>
    decreases |tokens|
  {
    if tokens == [] then Returned([])
    else
      var value := if |tokens| >= 3 then tokens[2] else "";
      match Typer(value)
      case Raised(e) => Raised(e)
      case Returned(v) =>
        match Group(tokens[if |tokens| >= 3 then 3 else |tokens|..])
        case Raised(e) => Raised(e)
        case Returned(rest) => Returned([(tokens[0], v)] + rest)
  }

  /** Three tokens in a row followed by the tokens from `l`. */
  lemma TokensOfThree(text: string, i: nat, a: string, j: nat, b: string, k: nat, c: string, l: nat)
    requires i <= j <= k <= l <= |text|
    requires NextToken(text, i) == Returned((a, j)) && a != ""
    requires NextToken(text, j) == Returned((b, k)) && b != ""
    requires NextToken(text, k) == Returned((c, l)) && c != ""
    ensures Tokens(text, l).Raised? ==> Tokens(text, i).Raised?
    ensures Tokens(text, l).Returned? ==> Tokens(text, i) == Returned([a, b, c] + Tokens(text, l).value)
  {
    if Tokens(text, l).Returned? {
      var rest := Tokens(text, l).value;
      assert Tokens(text, k) == Returned([c] + rest);
      assert Tokens(text, j) == Returned([b] + ([c] + rest));
      assert [a] + ([b] + ([c] + rest)) == [a, b, c] + rest;
    } else {
      assert Tokens(text, k).Raised?;
      assert Tokens(text, j).Raised?;
    }
  }

  /** The loop takes the tokens three at a time: when the text lexes, its entries are the
      grouped tokens, and the entries are read only from a text that lexes. */
  lemma {:induction false} EntriesFromTokens(text: string, i: nat)
    requires i <= |text|
    ensures TypedEntries(text, i).Returned? ==> Tokens(text, i).Returned?
    ensures Tokens(text, i).Returned? ==> TypedEntries(text, i) == Group(Tokens(text, i).value)
    decreases |text| - i
  {
    match NextToken(text, i)
    case Raised(_) =>
    case Returned((keyword, j)) =>
      if keyword != "" {
        match NextToken(text, j)
        case Raised(_) =>
        case Returned((separator, k)) =>
          if separator == "" {
            ShortTail(text, i, keyword, j);
          } else {
            match NextToken(text, k)
            case Raised(_) =>
              assert Tokens(text, j).Raised?;
            case Returned((token, l)) =>
              if token == "" {
                ShortTailTwo(text, i, keyword, j, separator, k);
              } else {
                EntriesFromTokens(text, l);
                TokensOfThree(text, i, keyword, j, separator, k, token, l);
                if Tokens(text, l).Returned? {
                  var ts := [keyword, separator, token] + Tokens(text, l).value;
                  assert ts[3..] == Tokens(text, l).value;
                  GroupThree(ts);
                }
              }
          }
      }
  }

  /** A file that ends after its keyword: the value is the end-of-input token. */
  lemma ShortTail(text: string, i: nat, a: string, j: nat)
    requires i <= j <= |text|
    requires NextToken(text, i) == Returned((a, j)) && a != ""
    requires NextToken(text, j).Returned? && NextToken(text, j).value.0 == ""
    ensures Tokens(text, i) == Returned([a])
    ensures TypedEntries(text, i) == Group([a])
  {
    assert NextToken(text, |text|) == Returned(("", |text|));
    assert TypedEntries(text, |text|) == Returned([]);
    assert [a] + [] == [a];
  }

  /** A file that ends after its keyword and one more token. */
  lemma ShortTailTwo(text: string, i: nat, a: string, j: nat, b: string, k: nat)
    requires i <= j <= k <= |text|
    requires NextToken(text, i) == Returned((a, j)) && a != ""
    requires NextToken(text, j) == Returned((b, k)) && b != ""
    requires NextToken(text, k).Returned? && NextToken(text, k).value.0 == ""
    ensures Tokens(text, i) == Returned([a, b])
    ensures TypedEntries(text, i) == Group([a, b])
  {
    assert NextToken(text, |text|) == Returned(("", |text|));
    assert TypedEntries(text, |text|) == Returned([]);
    assert Tokens(text, k) == Returned([]);
    assert [b] + [] == [b];
    assert Tokens(text, j) == Returned([b]);
    assert [a] + [b] == [a, b];
    assert [a, b][2..] == [];
  }

  /** Grouping takes the first three tokens as one entry. */
  lemma GroupThree(ts: seq<string>)
    requires |ts| >= 3
    ensures Group(ts) == match Typer(ts[2])
      case Raised(e) => Raised(e)
      case Returned(v) =>
        match Group(ts[3..])
        case Raised(e) => Raised(e)
        case Returned(rest) => Returned([(ts[0], v)] + rest)
  {
  }

  /** The keywords of a sequence of entries. */
  function Keywords(es: seq<Entry>): set<string> {
    set k | 0 <= k < |es| :: es[k].0
  }

  /** The index of the last entry for `key`, or -1. */
  function LastEntry(es: seq<Entry>, key: string): (i: int)
    ensures -1 <= i < |es|
    ensures i >= 0 ==> es[i].0 == key
    ensures forall j | i < j < |es| :: es[j].0 != key
  {
    if es == [] then -1
    else if es[|es| - 1].0 == key then |es| - 1
    else LastEntry(es[..|es| - 1], key)
  }

  /** The parse adds exactly the keywords of the file to the keys of the dictionary. */
  lemma {:induction false} OverlayKeys(d: Dict, es: seq<Entry>)
    ensures Overlay(d, es).Keys == d.Keys + Keywords(es)
    decreases |es|
  {
    if es != [] {
      OverlayKeys(d[es[0].0 := es[0].1], es[1..]);
      forall x | x in Keywords(es) ensures x == es[0].0 || x in Keywords(es[1..]) {
        var k :| 0 <= k < |es| && es[k].0 == x;
        if k > 0 {
          assert es[1..][k - 1].0 == x;
        }
      }
      forall x | x in Keywords(es[1..]) ensures x in Keywords(es) {
        var k :| 0 <= k < |es[1..]| && es[1..][k].0 == x;
        assert es[k + 1].0 == x;
      }
    }
  }

  /** A key the entries do not mention keeps its value, or stays absent. */
  lemma {:induction false} OverlayUnmentioned(d: Dict, es: seq<Entry>, key: string)
    requires forall k | 0 <= k < |es| :: es[k].0 != key
    ensures key in Overlay(d, es) <==> key in d
    ensures key in d ==> Overlay(d, es)[key] == d[key]
    decreases |es|
  {
    if es != [] {
      assert es[0].0 != key;
      forall k | 0 <= k < |es| - 1 ensures es[1..][k].0 != key {
        assert es[1..][k] == es[k + 1];
      }
      OverlayUnmentioned(d[es[0].0 := es[0].1], es[1..], key);
    }
  }

  /** The last entry for a keyword decides its value, whatever the dictionary held. */
  lemma {:induction false} OverlayLastWins(d: Dict, es: seq<Entry>, i: nat)
    requires i < |es|
    requires forall j | i < j < |es| :: es[j].0 != es[i].0
    ensures es[i].0 in Overlay(d, es) && Overlay(d, es)[es[i].0] == es[i].1
    decreases |es|
  {
    var d' := d[es[0].0 := es[0].1];
    if i == 0 {
      forall k | 0 <= k < |es| - 1 ensures es[1..][k].0 != es[0].0 {
        assert es[1..][k] == es[k + 1];
      }
      OverlayUnmentioned(d', es[1..], es[0].0);
    } else {
      assert es[1..][i - 1] == es[i];
      forall j | i - 1 < j < |es| - 1 ensures es[1..][j].0 != es[i].0 {
        assert es[1..][j] == es[j + 1];
      }
      OverlayLastWins(d', es[1..], i - 1);
    }
  }

  /** The value of any key after the parse: its last entry's value if the entries
      mention it, else its value before the parse. */
  lemma OverlayLookup(d: Dict, es: seq<Entry>, key: string)
    ensures var i := LastEntry(es, key);
      && (i >= 0 ==> key in Overlay(d, es) && Overlay(d, es)[key] == es[i].1)
      && (i < 0 ==> (key in Overlay(d, es) <==> key in d))
      && (i < 0 && key in d ==> Overlay(d, es)[key] == d[key])
  {
    var i := LastEntry(es, key);
    if i >= 0 {
      OverlayLastWins(d, es, i);
    } else {
      OverlayUnmentioned(d, es, key);
    }
  }

  /** Parsing `a` and then `b` into a dictionary is parsing `a + b` into it. */
  lemma {:induction false} OverlayAppend(d: Dict, a: seq<Entry>, b: seq<Entry>)
    ensures Overlay(Overlay(d, a), b) == Overlay(d, a + b)
    decreases |a|
  {
    if a == [] {
      assert a + b == b;
    } else {
      OverlayAppend(d[a[0].0 := a[0].1], a[1..], b);
      assert (a + b)[0] == a[0];
      assert (a + b)[1..] == a[1..] + b;
    }
  }

  /** Parsing the same entries a second time changes nothing. */
  lemma OverlayTwice(d: Dict, es: seq<Entry>)
    ensures Overlay(Overlay(d, es), es) == Overlay(d, es)
  {
    var once := Overlay(d, es);
    OverlayKeys(d, es);
    OverlayKeys(once, es);
    forall key | key in once ensures Overlay(once, es)[key] == once[key] {
      OverlayLookup(d, es, key);
      OverlayLookup(once, es, key);
    }
  }

  /** The key-value pairs `{a: 1, b: 2}` overlaid with `b = 3, c = 4` give `{a: 1, b: 3, c: 4}`. */
  lemma OverlayExample()
    ensures Overlay(map["a" := Int(1), "b" := Int(2)], [("b", Int(3)), ("c", Int(4))])
         == map["a" := Int(1), "b" := Int(3), "c" := Int(4)]
  {
    var es := [("b", Int(3)), ("c", Int(4))];
    var d := map["a" := Int(1), "b" := Int(2)];
    assert es[1..] == [("c", Int(4))];
    assert es[1..][1..] == [];
    assert Overlay(d, es) == d["b" := Int(3)]["c" := Int(4)];
  }

  /** No exception the modelled code raises is one `_parse_inlist` catches, so the parse
      never returns None: it returns the dictionary or raises a load error or an OSError. */
  lemma ParseNeverCaught(fs: FileSystem, path: string, dictionary: Option<Dict>)
    ensures var r := ParseInlistSpec(fs, path, dictionary);
      && (r.Returned? ==> r.value.Some?)
      && (r.Raised? ==> IsLoadError(r.exc) || r.exc == FileNotFound(path))
  {
  }

  /** `get_inlist_values` with both files present and well formed: the defaults' entries
      first, then the run file's, into an empty dictionary. */
  lemma DefaultsThenRun(fs: FileSystem, path: string, defaults: string, de: seq<Entry>, re: seq<Entry>)
    requires DefaultsPath(path) == Some(defaults) && defaults in fs && path in fs
    requires TypedEntries(LexedText(fs[defaults]), 0) == Returned(de)
    requires TypedEntries(LexedText(fs[path]), 0) == Returned(re)
    ensures InlistValuesSpec(fs, path) == Returned(Some(Overlay(map[], de + re)))
  {
    OverlayAppend(map[], de, re);
  }

  /** What `get_inlist_values` can end in: a dictionary (never None), NameError only for a
      run path without the conventional naming, otherwise an OSError or a load error. */
  lemma InlistValuesOutcome(fs: FileSystem, path: string)
    ensures var r := InlistValuesSpec(fs, path);
      && (r.Returned? ==> r.value.Some?)
      && (r.Raised? && r.exc == NameError ==> DefaultsPath(path).None?)
      && (r.Raised? ==> r.exc == NameError || r.exc.FileNotFound? || IsLoadError(r.exc))
  {
    match DefaultsPath(path)
    case None =>
    case Some(defaults) =>
      ParseNeverCaught(fs, defaults, None);
      var dflt := ParseInlistSpec(fs, defaults, None);
      if dflt.Returned? {
        ParseNeverCaught(fs, path, dflt.value);
      }
  }
}
