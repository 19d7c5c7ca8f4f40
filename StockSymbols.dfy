/**
  Stock-symbol resolution of the bot: turning what a user typed into a market
  symbol, looking up the Chinese name of a Taiwan listing, folding the Taiwan
  name table into the name map at start-up, and the argument bounds of the
  `compare` and `history` commands.

  The name tables are parameters (their contents are data, not logic), and the
  online search is an oracle `search` from query to an optional symbol.
  Character classes and case mapping are the ASCII ones.
*/
module StockSymbols {
  import opened Wrappers

  // ------------------------------------------------------------ characters

  /** The characters Python's `str.strip()` removes (`str.isspace`). */
  predicate IsSpace(c: char) {
    var n := c as int;
    (9 <= n <= 13) || (28 <= n <= 32) || n == 0x85 || n == 0xA0 || n == 0x1680
    || (0x2000 <= n <= 0x200A) || n == 0x2028 || n == 0x2029 || n == 0x202F
    || n == 0x205F || n == 0x3000
  }

  predicate IsDigit(c: char) { '0' <= c <= '9' }

  predicate IsUpperLetter(c: char) { 'A' <= c <= 'Z' }

  predicate IsLowerLetter(c: char) { 'a' <= c <= 'z' }

  predicate IsLetter(c: char) { IsUpperLetter(c) || IsLowerLetter(c) }

  /** `[\w\-\.]`: a word character, a hyphen or a dot. */
  predicate IsSymbolChar(c: char) { IsLetter(c) || IsDigit(c) || c == '_' || c == '-' || c == '.' }

  function LowerChar(c: char): char {
    if IsUpperLetter(c) then (c as int + 32) as char else c
  }

  function UpperChar(c: char): char {
    if IsLowerLetter(c) then (c as int - 32) as char else c
  }

  function Lower(s: string): (r: string)
    ensures |r| == |s| && forall i :: 0 <= i < |s| ==> r[i] == LowerChar(s[i])
  {
    seq(|s|, i requires 0 <= i < |s| => LowerChar(s[i]))
  }

  function Upper(s: string): (r: string)
    ensures |r| == |s| && forall i :: 0 <= i < |s| ==> r[i] == UpperChar(s[i])
  {
    seq(|s|, i requires 0 <= i < |s| => UpperChar(s[i]))
  }

  /** Two characters with the same lower case agree on everything the resolver looks at. */
  lemma SameLowerChar(a: char, b: char)
    requires LowerChar(a) == LowerChar(b)
    ensures UpperChar(a) == UpperChar(b)
    ensures IsDigit(a) <==> IsDigit(b)
    ensures IsDigit(a) ==> a == b
    ensures IsLetter(a) <==> IsLetter(b)
    ensures IsSymbolChar(a) <==> IsSymbolChar(b)
  {
  }

  lemma CaseMapsKeepClass(c: char)
    ensures LowerChar(UpperChar(c)) == LowerChar(c)
    ensures UpperChar(UpperChar(c)) == UpperChar(c)
    ensures LowerChar(LowerChar(c)) == LowerChar(c)
    ensures !IsSpace(c) ==> !IsSpace(UpperChar(c))
    ensures IsLetter(UpperChar(c)) <==> IsLetter(c)
    ensures IsDigit(UpperChar(c)) <==> IsDigit(c)
    ensures UpperChar(c) == '.' <==> c == '.'
    ensures !IsLowerLetter(c) ==> UpperChar(c) == c
  {
  }

  // ------------------------------------------------------------- stripping

  /** The number of leading whitespace characters. */
  function LeadingSpaces(s: string): (k: nat)
    ensures k <= |s|
    ensures forall j :: 0 <= j < k ==> IsSpace(s[j])
    ensures k == |s| || !IsSpace(s[k])
  {
    if s == [] || !IsSpace(s[0]) then 0 else 1 + LeadingSpaces(s[1..])
  }

  /** The length of `s` without its trailing whitespace. */
  function TrailingStart(s: string): (k: nat)
    ensures k <= |s|
    ensures forall j :: k <= j < |s| ==> IsSpace(s[j])
    ensures k == 0 || !IsSpace(s[k - 1])
  {
    if s == [] || !IsSpace(s[|s| - 1]) then |s| else TrailingStart(s[..|s| - 1])
  }

  /** Python's `str.strip()`: the input without leading and trailing whitespace. */
  function Strip(s: string): (r: string)
    ensures |r| <= |s|
    ensures r == [] || (!IsSpace(r[0]) && !IsSpace(r[|r| - 1]))
    ensures LeadingSpaces(s) + |r| <= |s| && r == s[LeadingSpaces(s)..LeadingSpaces(s) + |r|]
    ensures forall j :: LeadingSpaces(s) + |r| <= j < |s| ==> IsSpace(s[j])
  {
    var t := s[LeadingSpaces(s)..];
    t[..TrailingStart(t)]
  }

  /** A string with no whitespace at either end is its own stripped form. */
  lemma StripUnchanged(s: string)
    requires s == [] || (!IsSpace(s[0]) && !IsSpace(s[|s| - 1]))
    ensures Strip(s) == s
  {
    assert LeadingSpaces(s) == 0;
    assert s[0..] == s;
  }

  // ----------------------------------------------------------- the patterns

  /** `^\d{4,6}$`: a Taiwan stock code. */
  predicate IsTaiwanCode(t: string) {
    4 <= |t| <= 6 && forall i :: 0 <= i < |t| ==> IsDigit(t[i])
  }

  /** `^[A-Za-z]{1,5}$`: what looks like a US ticker. */
  predicate IsTicker(t: string) {
    1 <= |t| <= 5 && forall i :: 0 <= i < |t| ==> IsLetter(t[i])
  }

  /** The exchange suffixes the resolver accepts as already complete. */
  const MarketSuffixes: set<string> := {"TW", "HK", "T", "L", "PA", "DE", "SS", "SZ"}

  /**
    `^[\w\-\.]+\.(TW|HK|T|L|PA|DE|SS|SZ)$` read as the regular expression
    reads it: some dot, after at least one symbol character, followed by a
    listed suffix.
  */
  predicate IsSuffixedCode(u: string)
    ensures IsSuffixedCode(u) ==> 3 <= |u| && IsUpperLetter(u[|u| - 1]) && exists d :: 0 <= d < |u| && u[d] == '.'
  {
    exists d | 1 <= d < |u| ::
      u[d] == '.' && (forall j | 0 <= j < d :: IsSymbolChar(u[j])) && u[d + 1..] in MarketSuffixes
  }

  /** The position of the last dot of `s`, if any. */
  function LastDot(s: string): (r: Option<nat>)
    ensures r.None? ==> forall j :: 0 <= j < |s| ==> s[j] != '.'
    ensures r.Some? ==> r.value < |s| && s[r.value] == '.'
    ensures r.Some? ==> forall j :: r.value < j < |s| ==> s[j] != '.'
  {
    if s == [] then None
    else if s[|s| - 1] == '.' then Some(|s| - 1)
    else LastDot(s[..|s| - 1])
  }

  lemma SuffixesAreLetters(x: string)
    requires x in MarketSuffixes
    ensures 1 <= |x| <= 2
    ensures forall k :: 0 <= k < |x| ==> IsUpperLetter(x[k])
  {
  }

  /**
    The suffix pattern holds exactly when every character is a symbol
    character, the last dot is not the first character, and what follows the
    last dot is a listed suffix: the backtracking match can only split at the
    last dot.
  */
  lemma {:induction false} SuffixedCodeIffLastDot(u: string)
    ensures IsSuffixedCode(u) <==>
              && (forall j :: 0 <= j < |u| ==> IsSymbolChar(u[j]))
              && LastDot(u).Some? && LastDot(u).value >= 1
              && u[LastDot(u).value + 1..] in MarketSuffixes
  {
    if IsSuffixedCode(u) {
      var d :| 1 <= d < |u| && u[d] == '.' && (forall j | 0 <= j < d :: IsSymbolChar(u[j]))
               && u[d + 1..] in MarketSuffixes;
      var x := u[d + 1..];
      SuffixesAreLetters(x);
      forall j | d < j < |u|
        ensures IsUpperLetter(u[j])
      {
        assert u[j] == x[j - d - 1];
      }
      var e := LastDot(u);
      assert e.Some? && e.value == d;
    }
    var e := LastDot(u);
    if (forall j :: 0 <= j < |u| ==> IsSymbolChar(u[j])) && e.Some? && e.value >= 1
       && u[e.value + 1..] in MarketSuffixes {
      var d := e.value;
      assert u[d] == '.' && (forall j | 0 <= j < d :: IsSymbolChar(u[j])) && u[d + 1..] in MarketSuffixes;
    }
  }

  // ------------------------------------------------------------ resolution

  /** The step of the resolution cascade that decides a stripped input. */
  datatype Rule = TaiwanCode | SuffixedCode | NameMap | Ticker | Searched

  /** The first step of the cascade whose pattern `t` matches; the search only when none does. */
  function RuleFor(t: string, names: map<string, string>): (r: Rule)
    ensures r == TaiwanCode <==> IsTaiwanCode(t)
    ensures r == SuffixedCode <==> !IsTaiwanCode(t) && IsSuffixedCode(Upper(t))
    ensures r == NameMap ==> Lower(t) in names && !IsSuffixedCode(Upper(t))
    ensures r == Ticker ==> IsTicker(t) && Lower(t) !in names
    ensures r == Searched <==>
              !IsTaiwanCode(t) && !IsSuffixedCode(Upper(t)) && Lower(t) !in names && !IsTicker(t)
  {
    if IsTaiwanCode(t) then TaiwanCode
    else if IsSuffixedCode(Upper(t)) then SuffixedCode
    else if Lower(t) in names then NameMap
    else if IsTicker(t) then Ticker
    else Searched
  }

  /**
    `resolve_stock_symbol`: strip the input, then in order: a Taiwan code gets
    `.TW`; an already suffixed code is upper-cased; a name-map key (matched in
    lower case) gives its symbol; a ticker-like input is upper-cased; only
    then is the search consulted, its non-empty answer used, and otherwise
    the upper-cased input. The explanation component is always absent.
  */
  function ResolveStockSymbol(input: string, names: map<string, string>, search: string -> Option<string>)
    : (r: (string, Option<string>))
    ensures r.1 == None
    ensures var t := Strip(input); IsTaiwanCode(t) ==> r.0 == t + ".TW"
    ensures var t := Strip(input); !IsTaiwanCode(t) && IsSuffixedCode(Upper(t)) ==> r.0 == Upper(t)
    ensures var t := Strip(input);
            !IsTaiwanCode(t) && !IsSuffixedCode(Upper(t)) && Lower(t) in names ==> r.0 == names[Lower(t)]
    ensures var t := Strip(input);
            !IsTaiwanCode(t) && !IsSuffixedCode(Upper(t)) && Lower(t) !in names && IsTicker(t) ==> r.0 == Upper(t)
    ensures RuleFor(Strip(input), names) == Searched && (search(Strip(input)).None? || search(Strip(input)) == Some("")) ==>
              r.0 == Upper(Strip(input))
    ensures RuleFor(Strip(input), names) == Searched && search(Strip(input)).Some? && search(Strip(input)) != Some("") ==>
              r.0 == search(Strip(input)).value
  {
    var t := Strip(input);
    match RuleFor(t, names)
    case TaiwanCode => (t + ".TW", None)
    case SuffixedCode => (Upper(t), None)
    case NameMap => (names[Lower(t)], None)
    case Ticker => (Upper(t), None)
    case Searched =>
      match search(t)
      case Some(found) => if found != "" then (found, None) else (Upper(t), None)
      case None => (Upper(t), None)
  }

  /** The search is consulted only when no local rule decides the input. */
  lemma SearchIsLastResort(input: string, names: map<string, string>, s1: string -> Option<string>, s2: string -> Option<string>)
    requires RuleFor(Strip(input), names) != Searched
    ensures ResolveStockSymbol(input, names, s1) == ResolveStockSymbol(input, names, s2)
  {
  }

  /** Resolution ignores case and surrounding whitespace, apart from the query handed to the search. */
  lemma {:induction false} ResolveIgnoresCase(x: string, y: string, names: map<string, string>, search: string -> Option<string>)
    requires Lower(Strip(x)) == Lower(Strip(y))
    requires search(Strip(x)) == search(Strip(y))
    ensures ResolveStockSymbol(x, names, search) == ResolveStockSymbol(y, names, search)
  {
    SameLowerSameRule(Strip(x), Strip(y), names);
  }

  /** Strings with the same lower case are decided by the same rule, with the same local outcome. */
  lemma {:induction false} SameLowerSameRule(tx: string, ty: string, names: map<string, string>)
    requires Lower(tx) == Lower(ty)
    ensures Upper(tx) == Upper(ty)
    ensures RuleFor(tx, names) == RuleFor(ty, names)
    ensures IsTaiwanCode(tx) ==> tx == ty
  {
    assert |tx| == |ty|;
    forall i | 0 <= i < |tx|
      ensures UpperChar(tx[i]) == UpperChar(ty[i])
      ensures IsDigit(tx[i]) <==> IsDigit(ty[i])
      ensures IsDigit(tx[i]) ==> tx[i] == ty[i]
      ensures IsLetter(tx[i]) <==> IsLetter(ty[i])
    {
      assert Lower(tx)[i] == Lower(ty)[i];
      SameLowerChar(tx[i], ty[i]);
    }
    assert Upper(tx) == Upper(ty);
    assert IsTaiwanCode(tx) <==> IsTaiwanCode(ty);
    if IsTaiwanCode(tx) {
      assert tx == ty;
    }
    assert IsTicker(tx) <==> IsTicker(ty);
  }

  /** A name-map key with an upper-case letter is never looked up: removing it changes no resolution. */
  lemma MixedCaseKeyUnreachable(input: string, names: map<string, string>, key: string, search: string -> Option<string>)
    requires Lower(key) != key
    ensures ResolveStockSymbol(input, names, search) == ResolveStockSymbol(input, names - {key}, search)
  {
    var t := Strip(input);
    forall i | 0 <= i < |t|
      ensures Lower(Lower(t))[i] == Lower(t)[i]
    {
      CaseMapsKeepClass(t[i]);
    }
    assert Lower(Lower(t)) == Lower(t);
    assert Lower(t) != key;
  }

  /** A stripped, upper-case, suffixed code that is not a Taiwan code resolves to itself. */
  lemma SuffixedResolvesToItself(sym: string, names: map<string, string>, search: string -> Option<string>)
    requires Strip(sym) == sym && Upper(sym) == sym
    requires !IsTaiwanCode(sym) && IsSuffixedCode(sym)
    ensures ResolveStockSymbol(sym, names, search) == (sym, None)
  {
  }

  /** Every character of `t + ".TW"` is kept by upper-casing when `t` is a Taiwan code. */
  lemma {:induction false} TaiwanSymbolIsUpper(t: string)
    requires IsTaiwanCode(t)
    ensures Upper(t + ".TW") == t + ".TW"
  {
    var sym := t + ".TW";
    forall i | 0 <= i < |sym|
      ensures Upper(sym)[i] == sym[i]
    {
      CaseMapsKeepClass(sym[i]);
    }
  }

  lemma {:induction false} TaiwanCodeIsFixedPoint(t: string, names: map<string, string>, search: string -> Option<string>)
    requires IsTaiwanCode(t)
    ensures ResolveStockSymbol(t + ".TW", names, search) == (t + ".TW", None)
  {
    var sym := t + ".TW";
    StripUnchanged(sym);
    assert sym[|t|] == '.';
    assert !IsTaiwanCode(sym);
    TaiwanSymbolIsUpper(t);
    assert sym[|t| + 1..] == "TW";
    assert forall j | 0 <= j < |t| :: IsSymbolChar(sym[j]);
    assert IsSuffixedCode(sym);
    SuffixedResolvesToItself(sym, names, search);
  }

  /** Upper-casing is idempotent and does not change the lower-case form. */
  lemma {:induction false} UpperIdempotent(t: string)
    ensures Upper(Upper(t)) == Upper(t)
    ensures Lower(Upper(t)) == Lower(t)
  {
    var u := Upper(t);
    forall i | 0 <= i < |u|
      ensures Upper(u)[i] == u[i] && Lower(u)[i] == Lower(t)[i]
    {
      CaseMapsKeepClass(t[i]);
    }
  }

  /** Upper-casing a stripped string leaves it stripped. */
  lemma {:induction false} UpperStaysStripped(t: string)
    requires t != [] && Strip(t) == t
    ensures Strip(Upper(t)) == Upper(t)
  {
    CaseMapsKeepClass(t[0]);
    CaseMapsKeepClass(t[|t| - 1]);
    StripUnchanged(Upper(t));
  }

  /** Upper-casing keeps letters letters, digits digits and dots dots. */
  lemma {:induction false} UpperKeepsClasses(t: string)
    ensures forall i :: 0 <= i < |t| ==> (IsLetter(Upper(t)[i]) <==> IsLetter(t[i]))
    ensures forall i :: 0 <= i < |t| ==> (IsDigit(Upper(t)[i]) <==> IsDigit(t[i]))
    ensures forall i :: 0 <= i < |t| ==> (Upper(t)[i] == '.' <==> t[i] == '.')
  {
    forall i | 0 <= i < |t|
      ensures IsLetter(Upper(t)[i]) <==> IsLetter(t[i])
      ensures IsDigit(Upper(t)[i]) <==> IsDigit(t[i])
      ensures Upper(t)[i] == '.' <==> t[i] == '.'
    {
      CaseMapsKeepClass(t[i]);
    }
  }

  /** Without a dot there is no suffixed code. */
  lemma NotSuffixedWithoutDot(u: string)
    requires forall i :: 0 <= i < |u| ==> u[i] != '.'
    ensures !IsSuffixedCode(u)
  {
  }

  lemma {:induction false} SuffixedCodeIsFixedPoint(t: string, names: map<string, string>, search: string -> Option<string>)
    requires Strip(t) == t && IsSuffixedCode(Upper(t))
    ensures ResolveStockSymbol(Upper(t), names, search) == (Upper(t), None)
  {
    var u := Upper(t);
    SuffixedCodeIffLastDot(u);
    UpperStaysStripped(t);
    UpperIdempotent(t);
    var d := LastDot(u).value;
    assert !IsDigit(u[d]);
    assert !IsTaiwanCode(u);
    SuffixedResolvesToItself(u, names, search);
  }

  /** An upper-cased ticker is decided by the ticker rule again. */
  lemma {:induction false} UpperTickerRule(t: string, names: map<string, string>)
    requires IsTicker(t) && Lower(t) !in names
    ensures RuleFor(Upper(t), names) == Ticker
  {
    var u := Upper(t);
    UpperIdempotent(t);
    UpperKeepsClasses(t);
    assert IsTicker(u);
    assert !IsDigit(u[0]);
    NotSuffixedWithoutDot(u);
  }

  lemma {:induction false} TickerIsFixedPoint(t: string, names: map<string, string>, search: string -> Option<string>)
    requires Strip(t) == t && IsTicker(t) && Lower(t) !in names
    ensures ResolveStockSymbol(Upper(t), names, search) == (Upper(t), None)
  {
    UpperStaysStripped(t);
    UpperIdempotent(t);
    UpperTickerRule(t, names);
  }

  /**
    A symbol produced by the Taiwan-code, suffix or ticker rule resolves to
    itself again, whatever the search would answer.
  */
  lemma {:induction false} LocalResolutionIsFixedPoint(input: string, names: map<string, string>,
                                                      search: string -> Option<string>, search2: string -> Option<string>)
    requires RuleFor(Strip(input), names) in {TaiwanCode, SuffixedCode, Ticker}
    ensures var sym := ResolveStockSymbol(input, names, search).0;
            ResolveStockSymbol(sym, names, search2) == (sym, None)
  {
    var t := Strip(input);
    StripUnchanged(t);
    match RuleFor(t, names)
    case TaiwanCode => TaiwanCodeIsFixedPoint(t, names, search2);
    case SuffixedCode => SuffixedCodeIsFixedPoint(t, names, search2);
    case Ticker => TickerIsFixedPoint(t, names, search2);
  }

  /** A bare Taiwan code with surrounding blanks gets the `.TW` suffix. */
  lemma TaiwanCodeExample(names: map<string, string>, search: string -> Option<string>)
    ensures ResolveStockSymbol(" 2330 ", names, search) == ("2330.TW", None)
  {
    assert IsSpace(' ') && !IsSpace('2') && !IsSpace('0');
    assert LeadingSpaces("2330 ") == 0;
    assert LeadingSpaces(" 2330 ") == 1;
    assert " 2330 "[1..] == "2330 ";
    assert "2330 "[..4] == "2330";
    assert TrailingStart("2330") == 4;
    assert TrailingStart("2330 ") == 4;
    assert "2330 "[..TrailingStart("2330 ")] == "2330";
    assert Strip(" 2330 ") == "2330";
    assert IsTaiwanCode("2330");
    assert RuleFor("2330", names) == TaiwanCode;
    assert "2330" + ".TW" == "2330.TW";
  }

  /** A word without dots or digits is neither a Taiwan code nor a suffixed code. */
  lemma DotlessNotSuffixed(t: string)
    requires forall i :: 0 <= i < |t| ==> t[i] != '.' && !IsDigit(t[i])
    requires t != []
    ensures !IsTaiwanCode(t) && !IsSuffixedCode(Upper(t))
  {
    assert !IsDigit(t[0]);
    UpperKeepsClasses(t);
    NotSuffixedWithoutDot(Upper(t));
  }

  /** A name in the map resolves to its symbol, in any case. */
  lemma NameMapExample(search: string -> Option<string>)
    ensures ResolveStockSymbol("NVIDIA", map["nvidia" := "NVDA"], search) == ("NVDA", None)
  {
    StripUnchanged("NVIDIA");
    DotlessNotSuffixed("NVIDIA");
    assert Lower("NVIDIA") == "nvidia";
  }

  /** A ticker-like word not in the map is upper-cased. */
  lemma TickerExample(search: string -> Option<string>)
    ensures ResolveStockSymbol("aapl", map["nvidia" := "NVDA"], search) == ("AAPL", None)
  {
    StripUnchanged("aapl");
    DotlessNotSuffixed("aapl");
    assert Lower("aapl") == "aapl";
    assert IsTicker("aapl");
    assert Upper("aapl") == "AAPL";
  }

  // ------------------------------------------------------ Chinese names

  /** Python's `s.replace(p, '')`: every non-overlapping occurrence of `p`, scanned left to right, removed. */
  function RemoveAll(s: string, p: string): (r: string)
    requires p != []
    ensures |r| <= |s|
  {
    if |s| < |p| then s
    else if s[..|p|] == p then RemoveAll(s[|p|..], p)
    else [s[0]] + RemoveAll(s[1..], p)
  }

  /** Removing a dot-led pattern leaves a dot-free prefix alone. */
  lemma {:induction false} RemoveAllKeepsDotFreePrefix(a: string, b: string, p: string)
    requires p != [] && p[0] == '.'
    requires forall i :: 0 <= i < |a| ==> a[i] != '.'
    ensures RemoveAll(a + b, p) == a + RemoveAll(b, p)
  {
    if a == [] {
      assert a + b == b;
    } else {
      var rest := a[1..];
      assert a + b == [a[0]] + (rest + b);
      RemoveAllKeepsDotFreePrefix(rest, b, p);
      RemoveAllSkipsChar(a[0], rest + b, p);
      calc {
        RemoveAll(a + b, p);
        RemoveAll([a[0]] + (rest + b), p);
        [a[0]] + RemoveAll(rest + b, p);
        [a[0]] + (rest + RemoveAll(b, p));
        { assert a == [a[0]] + rest; }
        a + RemoveAll(b, p);
      }
    }
  }

  /** A leading character other than a dot is kept when removing a dot-led pattern. */
  lemma RemoveAllSkipsChar(c: char, rest: string, p: string)
    requires p != [] && p[0] == '.' && c != '.'
    ensures RemoveAll([c] + rest, p) == [c] + RemoveAll(rest, p)
  {
    var s := [c] + rest;
    assert s[0] == c && s[1..] == rest;
    if |s| < |p| {
      assert |rest| < |p|;
    } else {
      assert s[..|p|][0] != p[0];
    }
  }

  /** A string in which the pattern's first character never occurs is left unchanged. */
  lemma {:induction false} RemoveAllUnchanged(s: string, p: string)
    requires p != []
    ensures (forall i :: 0 <= i < |s| ==> s[i] != p[0]) ==> RemoveAll(s, p) == s
  {
    if (forall i :: 0 <= i < |s| ==> s[i] != p[0]) && |s| >= |p| {
      assert s[..|p|][0] != p[0];
      RemoveAllUnchanged(s[1..], p);
      assert [s[0]] + s[1..] == s;
    }
  }

  function Get(names: map<string, string>, code: string): Option<string> {
    if code in names then Some(names[code]) else None
  }

  /** `get_tw_stock_chinese_name` as written: `.TW` is removed before `.TWO`. */
  function ChineseName(symbol: string, names: map<string, string>): (r: Option<string>)
    ensures r.Some? ==> r.value in names.Values
    ensures (forall i :: 0 <= i < |symbol| ==> symbol[i] != '.') ==> r == Get(names, symbol)
  {
    RemoveAllUnchanged(symbol, ".TW");
    RemoveAllUnchanged(RemoveAll(symbol, ".TW"), ".TWO");
    Get(names, RemoveAll(RemoveAll(symbol, ".TW"), ".TWO"))
  }

  /** The same lookup with `.TWO` removed first, so both Taiwan suffixes leave the bare code. */
  function ChineseNameCorrected(symbol: string, names: map<string, string>): (r: Option<string>)
    ensures r.Some? ==> r.value in names.Values
    ensures (forall i :: 0 <= i < |symbol| ==> symbol[i] != '.') ==> r == Get(names, symbol)
  {
    RemoveAllUnchanged(symbol, ".TWO");
    RemoveAllUnchanged(RemoveAll(symbol, ".TWO"), ".TW");
    Get(names, RemoveAll(RemoveAll(symbol, ".TWO"), ".TW"))
  }

  /** A code followed by `.TW` finds its name as written. */
  lemma ChineseNameOfListedCode(code: string, names: map<string, string>)
    requires forall i :: 0 <= i < |code| ==> code[i] != '.'
    ensures ChineseName(code + ".TW", names) == Get(names, code)
  {
    RemoveAllKeepsDotFreePrefix(code, ".TW", ".TW");
    assert RemoveAll(".TW", ".TW") == [];
    assert code + [] == code;
    RemoveAllKeepsDotFreePrefix(code, [], ".TWO");
  }

  /**
    As written, a code followed by `.TWO` is looked up as the code followed by
    `O`, which no table of digit codes contains.
  */
  lemma ChineseNameMissesTwo(code: string, names: map<string, string>)
    requires forall i :: 0 <= i < |code| ==> code[i] != '.'
    requires forall k :: k in names ==> forall i :: 0 <= i < |k| ==> IsDigit(k[i])
    ensures ChineseName(code + ".TWO", names) == None
  {
    RemoveAllKeepsDotFreePrefix(code, ".TWO", ".TW");
    assert ".TWO"[..3] == ".TW" && ".TWO"[3..] == "O";
    assert RemoveAll(".TWO", ".TW") == "O";
    RemoveAllKeepsDotFreePrefix(code, "O", ".TWO");
    assert RemoveAll("O", ".TWO") == "O";
    var key := code + "O";
    assert !IsDigit(key[|code|]);
  }

  /** The Taiwan table's entry for an over-the-counter listing (6488) is missed with `.TWO` and found by the correction. */
  lemma ChineseNameTwoCounterexample()
    ensures var names := map["6488" := "環球晶"];
            ChineseName("6488.TWO", names) == None
            && ChineseNameCorrected("6488.TWO", names) == Some("環球晶")
  {
    var names := map["6488" := "環球晶"];
    assert "6488.TWO" == "6488" + ".TWO";
    ChineseNameMissesTwo("6488", names);
    ChineseNameCorrectedFindsCode("6488", names);
  }

  /** With `.TWO` removed first, both Taiwan suffixes look up the bare code. */
  lemma ChineseNameCorrectedFindsCode(code: string, names: map<string, string>)
    requires forall i :: 0 <= i < |code| ==> code[i] != '.'
    ensures ChineseNameCorrected(code + ".TW", names) == Get(names, code)
    ensures ChineseNameCorrected(code + ".TWO", names) == Get(names, code)
  {
    RemoveAllKeepsDotFreePrefix(code, ".TWO", ".TWO");
    assert RemoveAll(".TWO", ".TWO") == [];
    assert code + [] == code;
    RemoveAllKeepsDotFreePrefix(code, [], ".TW");
    RemoveAllKeepsDotFreePrefix(code, ".TW", ".TWO");
    assert RemoveAll(".TW", ".TWO") == ".TW";
    RemoveAllKeepsDotFreePrefix(code, ".TW", ".TW");
    assert RemoveAll(".TW", ".TW") == [];
  }

  // ------------------------------------------------------- name-map merge

  /** The name map after `STOCK_NAME_MAP[name] = code + ".TW"` for each (code, name), in order. */
  function MergedNames(base: map<string, string>, items: seq<(string, string)>): map<string, string> {
    if items == [] then base
    else
      var last := items[|items| - 1];
      MergedNames(base, items[..|items| - 1])[last.1 := last.0 + ".TW"]
  }

  function NamesOf(items: seq<(string, string)>): set<string> {
    set i | 0 <= i < |items| :: items[i].1
  }

  /** The start-up merge loop over the Taiwan table's entries. */
  method MergeTaiwanNames(base: map<string, string>, items: seq<(string, string)>) returns (merged: map<string, string>)
    ensures merged == MergedNames(base, items)
  {
    merged := base;
    for i := 0 to |items|
      invariant merged == MergedNames(base, items[..i])
    {
      var (code, name) := items[i];
      assert items[..i + 1][..i] == items[..i];
      merged := merged[name := code + ".TW"];
    }
    assert items[..|items|] == items;
  }

  /** The merge adds exactly the Taiwan names as keys and keeps every other entry. */
  lemma {:induction false} MergeKeepsOthers(base: map<string, string>, items: seq<(string, string)>, name: string)
    requires name !in NamesOf(items)
    ensures name in MergedNames(base, items) <==> name in base
    ensures name in base ==> MergedNames(base, items)[name] == base[name]
  {
    if items != [] {
      var front := items[..|items| - 1];
      assert items[|items| - 1].1 in NamesOf(items);
      assert forall i :: 0 <= i < |front| ==> front[i] == items[i];
      assert NamesOf(front) <= NamesOf(items);
      MergeKeepsOthers(base, front, name);
    }
  }

  /** Every Taiwan name maps to its code with `.TW`, overriding the earlier entry, unless a later entry shares the name. */
  lemma {:induction false} MergeLastWins(base: map<string, string>, items: seq<(string, string)>, i: int)
    requires 0 <= i < |items|
    requires forall j :: i < j < |items| ==> items[j].1 != items[i].1
    ensures items[i].1 in MergedNames(base, items)
    ensures MergedNames(base, items)[items[i].1] == items[i].0 + ".TW"
  {
    if i < |items| - 1 {
      var front := items[..|items| - 1];
      assert front[i] == items[i];
      MergeLastWins(base, front, i);
    }
  }

  // ------------------------------------------------- command argument bounds

  datatype CompareReply = TooFew | TooMany | Symbols(symbols: seq<string>)

  /** `compare`: fewer than two or more than five queries are refused before any lookup; otherwise each query is resolved. */
  method CompareSymbols(queries: seq<string>, names: map<string, string>, search: string -> Option<string>)
    returns (reply: CompareReply)
    ensures reply == TooFew <==> |queries| < 2
    ensures reply == TooMany <==> |queries| > 5
    ensures 2 <= |queries| <= 5 ==>
              reply.Symbols? && |reply.symbols| == |queries|
              && forall i :: 0 <= i < |queries| ==> reply.symbols[i] == ResolveStockSymbol(queries[i], names, search).0
  {
    if |queries| < 2 {
      return TooFew;
    }
    if |queries| > 5 {
      return TooMany;
    }
    var symbols: seq<string> := [];
    for i := 0 to |queries|
      invariant |symbols| == i
      invariant forall k :: 0 <= k < i ==> symbols[k] == ResolveStockSymbol(queries[k], names, search).0
    {
      var resolved := ResolveStockSymbol(queries[i], names, search);
      symbols := symbols + [resolved.0];
    }
    reply := Symbols(symbols);
  }

  /** `history`: more than 30 days is cut to 30, with a warning; fewer are kept as asked. */
  function HistoryDays(days: int): (r: (int, bool))
    ensures r.0 <= 30
    ensures r.1 <==> days > 30
    ensures days <= 30 ==> r.0 == days
    ensures days > 30 ==> r.0 == 30
  {
    if days > 30 then (30, true) else (days, false)
  }
}
