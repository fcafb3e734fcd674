/** format_currency: for each currency symbol in turn, every amount written
    `SYMBOL ?NUMBER` and then every amount written `NUMBER ?SYMBOL` is rewritten
    as `SYMBOL NUMBER`, where NUMBER is the first amount found, given the suffix
    `.-` when it has no decimal point. */
module Currency {
  import opened Chars

  /** A symbol for which the patterns built from it never need to backtrack:
      non-empty, not starting with a digit, `.` or a space (so that the greedy
      number and the optional space are the only ones `re` can use), and free of
      backslashes (so that the replacement template stands for itself). */
  predicate ValidSymbol(sym: string) {
    && |sym| > 0
    && '\\' !in sym
    && !IsDigit(sym[0]) && sym[0] != '.' && sym[0] != ' '
  }

  predicate ValidSymbols(symbols: seq<string>) {
    forall i :: 0 <= i < |symbols| ==> ValidSymbol(symbols[i])
  }

  /** The default symbols, in one of the orders in which the set literal of
      format_currency may be iterated. */
  const DefaultSymbols: seq<string> := ["EUR", "USD", "\U{20AC}", "$", "CHF"]

  /** A text that `\d+\.?\d*` matches entirely: a digit, then digits with at
      most one `.` among them. */
  predicate IsNumber(t: string) {
    && |t| > 0 && IsDigit(t[0])
    && (forall i :: 0 <= i < |t| ==> IsDigit(t[i]) || t[i] == '.')
    && (forall i, j :: 0 <= i < j < |t| && t[i] == '.' ==> t[j] != '.')
  }

  /** The length of the greedy match of `\d+\.?\d*` at the start of `s`, 0 when
      there is none: the longest prefix that is a number. */
  function NumberLen(s: string): (n: nat)
    ensures n <= |s|
    ensures n == 0 <==> s == [] || !IsDigit(s[0])
    ensures n > 0 ==> IsNumber(s[..n])
    ensures 0 < n < |s| ==> !IsNumber(s[..n + 1])
  {
    var a := LeadingDigits(s);
    if a == 0 then 0
    else if a < |s| && s[a] == '.' then
      var b := LeadingDigits(s[a + 1..]);
      assert s[..a + 1 + b] == s[..a] + ['.'] + s[a + 1..][..b];
      assert 0 < a + 1 + b < |s| ==> s[a + 1 + b] == s[a + 1..][b];
      a + 1 + b
    else
      a
  }

  /** `( ?)`: the length of the optional space at the start of `s`. */
  function SpaceLen(s: string): nat {
    if |s| > 0 && s[0] == ' ' then 1 else 0
  }

  /** The two patterns built for each symbol:
      SymbolFirst is `SYMBOL( ?)(\d+\.?\d*)`, NumberFirst is `(\d+\.?\d*)( ?)SYMBOL`. */
  datatype Order = SymbolFirst | NumberFirst

  /** A match: its length and its number group. */
  datatype Match = Match(len: nat, number: string)

  /** The pattern of `order` tried at the start of `s`. */
  function MatchAt(s: string, sym: string, order: Order): (m: Option<Match>)
    ensures m.Some? ==> 0 < m.value.len <= |s| && IsNumber(m.value.number)
  {
    match order
    case SymbolFirst =>
      if |sym| <= |s| && s[..|sym|] == sym then
        var rest := s[|sym|..];
        var sp := SpaceLen(rest);
        var n := NumberLen(rest[sp..]);
        if n > 0 then Some(Match(|sym| + sp + n, rest[sp..][..n])) else None
      else None
    case NumberFirst =>
      var n := NumberLen(s);
      var sp := SpaceLen(s[n..]);
      if n > 0 && n + sp + |sym| <= |s| && s[n + sp..n + sp + |sym|] == sym then
        Some(Match(n + sp + |sym|, s[..n]))
      else None
  }

  /** `re.search`: the leftmost position at which the pattern matches. */
  function FirstMatch(s: string, sym: string, order: Order): (r: Option<nat>)
    ensures r.Some? ==> r.value < |s| && MatchAt(s[r.value..], sym, order).Some?
    ensures r.Some? ==> forall j :: 0 <= j < r.value ==> MatchAt(s[j..], sym, order).None?
    ensures r.None? ==> forall j :: 0 <= j < |s| ==> MatchAt(s[j..], sym, order).None?
    decreases |s|
  {
    if s == [] then None
    else if MatchAt(s, sym, order).Some? then Some(0)
    else
      var r := FirstMatch(s[1..], sym, order);
      assert forall j :: 1 <= j <= |s| ==> s[j..] == s[1..][j - 1..];
      if r.Some? then Some(r.value + 1) else None
  }

  /** `re.sub` with a fixed replacement text: every leftmost, non-overlapping
      match is replaced by `repl`. */
  function SubAll(s: string, sym: string, order: Order, repl: string): string
    decreases |s|
  {
    if s == [] then []
    else
      match MatchAt(s, sym, order)
      case Some(m) => repl + SubAll(s[m.len..], sym, order, repl)
      case None => [s[0]] + SubAll(s[1..], sym, order, repl)
  }

  /** The amount as it is written back: `.-` is appended when it has no
      decimal point. */
  function Canonical(number: string): string {
    if '.' in number then number else number + ".-"
  }

  /** One half of the loop body: search, then substitute every match by the
      symbol and the first match's canonical number. */
  function Rewrite(s: string, sym: string, order: Order): string {
    match FirstMatch(s, sym, order)
    case None => s
    case Some(i) =>
      SubAll(s, sym, order, sym + " " + Canonical(MatchAt(s[i..], sym, order).value.number))
  }

  /** One iteration of the loop of format_currency. */
  function FormatSymbol(s: string, sym: string): string {
    Rewrite(Rewrite(s, sym, SymbolFirst), sym, NumberFirst)
  }

  /** The whole loop, one symbol after the other. */
  function FormatAll(s: string, symbols: seq<string>): string
    decreases |symbols|
  {
    if symbols == [] then s
    else FormatSymbol(FormatAll(s, symbols[..|symbols| - 1]), symbols[|symbols| - 1])
  }

  /** The loop after k + 1 symbols is the loop after k symbols followed by
      symbol k. */
  lemma FormatAllStep(s: string, symbols: seq<string>, k: nat)
    requires k < |symbols|
    ensures FormatAll(s, symbols[..k + 1]) == FormatSymbol(FormatAll(s, symbols[..k]), symbols[k])
  {
    assert symbols[..k + 1][..k] == symbols[..k];
  }

  /** format_currency. */
  method FormatCurrency(text: string, symbols: seq<string>) returns (r: string)
    requires ValidSymbols(symbols)
    ensures r == FormatAll(text, symbols)
  {
    r := text;
    for k := 0 to |symbols|
      invariant r == FormatAll(text, symbols[..k])
    {
      var symbol := symbols[k];
      var after := FirstMatch(r, symbol, SymbolFirst);
      if after.Some? {
        var number := MatchAt(r[after.value..], symbol, SymbolFirst).value.number;
        if '.' !in number {
          number := number + ".-";
        }
        r := SubAll(r, symbol, SymbolFirst, symbol + " " + number);
      }
      var before := FirstMatch(r, symbol, NumberFirst);
      if before.Some? {
        var number := MatchAt(r[before.value..], symbol, NumberFirst).value.number;
        if '.' !in number {
          number := number + ".-";
        }
        r := SubAll(r, symbol, NumberFirst, symbol + " " + number);
      }
      FormatAllStep(text, symbols, k);
    }
    assert symbols[..|symbols|] == symbols;
  }

  /** Some amount of `sym`, in either order, occurs in `s`. */
  predicate HasAmount(s: string, sym: string) {
    exists j, order :: 0 <= j < |s| && MatchAt(s[j..], sym, order).Some?
  }

  /** With no match in the text, `re.sub` returns it unchanged. */
  lemma {:induction false} SubAllWithoutMatch(s: string, sym: string, order: Order, repl: string)
    requires forall j :: 0 <= j < |s| ==> MatchAt(s[j..], sym, order).None?
    ensures SubAll(s, sym, order, repl) == s
    decreases |s|
  {
    if s != [] {
      assert s[0..] == s;
      SubAllCopy(s, sym, order, repl);
      NoMatchInTail(s, sym, order);
      SubAllWithoutMatch(s[1..], sym, order, repl);
      assert s == [s[0]] + s[1..];
    }
  }

  lemma NoMatchInTail(s: string, sym: string, order: Order)
    requires s != [] && forall j :: 0 <= j < |s| ==> MatchAt(s[j..], sym, order).None?
    ensures forall j :: 0 <= j < |s| - 1 ==> MatchAt(s[1..][j..], sym, order).None?
  {
    forall j | 0 <= j < |s| - 1
      ensures MatchAt(s[1..][j..], sym, order).None?
    {
      assert s[1..][j..] == s[j + 1..];
    }
  }

  /** A symbol with no amount next to it leaves the text as it is. */
  lemma FormatSymbolWithoutAmount(s: string, sym: string)
    requires !HasAmount(s, sym)
    ensures FormatSymbol(s, sym) == s
  {
    assert FirstMatch(s, sym, SymbolFirst).None?;
    assert FirstMatch(s, sym, NumberFirst).None?;
  }

  /** format_currency returns its input unchanged when none of the symbols has
      a number right before or after it (one space allowed in between). */
  lemma {:induction false} FormatAllWithoutAmounts(s: string, symbols: seq<string>)
    requires forall i :: 0 <= i < |symbols| ==> !HasAmount(s, symbols[i])
    ensures FormatAll(s, symbols) == s
    decreases |symbols|
  {
    if symbols != [] {
      FormatAllWithoutAmounts(s, symbols[..|symbols| - 1]);
      FormatSymbolWithoutAmount(s, symbols[|symbols| - 1]);
    }
  }

  /** Every match holds, within its own extent, a digit and an occurrence of
      the symbol's first character. */
  lemma MatchNeedsDigitAndSymbol(s: string, j: nat, sym: string, order: Order)
    requires j < |s| && |sym| > 0
    ensures MatchAt(s[j..], sym, order).Some? ==>
              var m := MatchAt(s[j..], sym, order).value;
              && (exists k :: j <= k < j + m.len && IsDigit(s[k]))
              && (exists k :: j <= k < j + m.len && s[k] == sym[0])
  {
    var t := s[j..];
    if MatchAt(t, sym, order).Some? {
      var m := MatchAt(t, sym, order).value;
      match order
      case SymbolFirst =>
        var sp := SpaceLen(t[|sym|..]);
        assert IsDigit(s[j + |sym| + sp]) by {
          assert t[|sym|..][sp..][0] == t[|sym| + sp];
        }
        assert j + |sym| + sp < j + m.len;
        assert t[..|sym|][0] == s[j];
      case NumberFirst =>
        var n := NumberLen(t);
        var sp := SpaceLen(t[n..]);
        assert IsDigit(s[j]);
        assert t[n + sp..n + sp + |sym|][0] == s[j + n + sp];
    }
  }

  /** A text without digits is a fixed point of format_currency. */
  lemma FormatAllWithoutDigits(s: string, symbols: seq<string>)
    requires forall k :: 0 <= k < |s| ==> !IsDigit(s[k])
    requires ValidSymbols(symbols)
    ensures FormatAll(s, symbols) == s
  {
    forall i, j, order | 0 <= i < |symbols| && 0 <= j < |s|
      ensures MatchAt(s[j..], symbols[i], order).None?
    {
      MatchNeedsDigitAndSymbol(s, j, symbols[i], order);
    }
    FormatAllWithoutAmounts(s, symbols);
  }

  /** A symbol whose first character does not occur in the text changes
      nothing. */
  lemma FormatSymbolAbsent(s: string, sym: string)
    requires |sym| > 0 && sym[0] !in s
    ensures FormatSymbol(s, sym) == s
  {
    forall j, order | 0 <= j < |s|
      ensures MatchAt(s[j..], sym, order).None?
    {
      MatchNeedsDigitAndSymbol(s, j, sym, order);
    }
    FormatSymbolWithoutAmount(s, sym);
  }

  /** The written-back amount always carries exactly one decimal point: `.-`
      is added to a number without one, and a number that has one is kept as
      it is, so it never receives a second suffix. */
  lemma CanonicalOneDecimalPoint(number: string)
    requires IsNumber(number)
    ensures Count(Canonical(number), '.') == 1
    ensures number <= Canonical(number)
    ensures '.' in number ==> Canonical(number) == number
    ensures '.' !in number ==> Canonical(number) == number + ".-"
  {
    if '.' in number {
      var i :| 0 <= i < |number| && number[i] == '.';
      assert number == number[..i] + ['.'] + number[i + 1..];
      CountAppend(number[..i] + ['.'], number[i + 1..], '.');
      CountAppend(number[..i], ['.'], '.');
      assert '.' !in number[..i];
      assert '.' !in number[i + 1..];
      CountAbsent(number[..i], '.');
      CountAbsent(number[i + 1..], '.');
    } else {
      CountAppend(number, ".-", '.');
      CountAbsent(number, '.');
    }
  }

  /** A symbol made of characters that never occur in a number, a space or the
      `.-` suffix, as all the default symbols are. */
  predicate PlainSymbol(sym: string) {
    && ValidSymbol(sym)
    && forall i :: 0 <= i < |sym| ==> !IsDigit(sym[i]) && sym[i] !in " .-"
  }

  /** The greedy number stops where the number ends when no digit or `.`
      follows it. */
  lemma NumberLenOfNumber(num: string, t: string)
    requires IsNumber(num)
    requires t == [] || (!IsDigit(t[0]) && t[0] != '.')
    ensures NumberLen(num + t) == |num|
  {
    var s := num + t;
    assert s[..|num|] == num;
  }

  /** A pattern that matches the whole text makes the rewrite produce just the
      symbol and the canonical number. */
  lemma RewriteWhole(s: string, sym: string, order: Order, num: string)
    requires MatchAt(s, sym, order) == Some(Match(|s|, num))
    ensures Rewrite(s, sym, order) == sym + " " + Canonical(num)
  {
    var repl := sym + " " + Canonical(num);
    assert s[0..] == s;
    assert FirstMatch(s, sym, order) == Some(0);
    assert s[|s|..] == [];
    assert SubAll(s, sym, order, repl) == repl + SubAll([], sym, order, repl);
  }

  /** The pattern `SYMBOL( ?)(\d+\.?\d*)` read off its three parts. */
  lemma SymbolFirstParts(s: string, sym: string, sp: nat, n: nat)
    requires |sym| + sp + n <= |s| && s[..|sym|] == sym
    requires SpaceLen(s[|sym|..]) == sp
    requires NumberLen(s[|sym| + sp..]) == n > 0
    ensures MatchAt(s, sym, SymbolFirst) == Some(Match(|sym| + sp + n, s[|sym| + sp..][..n]))
    ensures |sym| + sp + n == |s| ==> s[|sym| + sp..][..n] == s[|sym| + sp..]
  {
    assert s[|sym|..][sp..] == s[|sym| + sp..];
  }

  /** The three parts of `SYMBOL ?NUMBER`, as the pattern reads them. */
  lemma SymbolFirstSlices(sym: string, sp: string, num: string)
    requires (sp == "" || sp == " ") && |num| > 0 && num[0] != ' '
    ensures (sym + sp + num)[..|sym|] == sym
    ensures SpaceLen((sym + sp + num)[|sym|..]) == |sp|
    ensures (sym + sp + num)[|sym| + |sp|..] == num
  {
    var s := sym + sp + num;
    assert s[|sym|..] == sp + num;
  }

  lemma SymbolFirstWhole(sym: string, sp: string, num: string)
    requires PlainSymbol(sym) && IsNumber(num) && (sp == "" || sp == " ")
    ensures MatchAt(sym + sp + num, sym, SymbolFirst) == Some(Match(|sym + sp + num|, num))
  {
    SymbolFirstSlices(sym, sp, num);
    NumberLenOfNumber(num, []);
    assert num + [] == num;
    SymbolFirstParts(sym + sp + num, sym, |sp|, |num|);
  }

  /** Every character of a canonical number is a digit, `.` or `-`. */
  lemma CanonicalChars(num: string)
    requires IsNumber(num)
    ensures forall k :: 0 <= k < |Canonical(num)| ==> IsDigit(Canonical(num)[k]) || Canonical(num)[k] in ".-"
  {
  }

  /** No number is followed by the symbol in `SYMBOL CANONICAL`. */
  lemma NoNumberFirstInCanonical(sym: string, num: string, j: nat)
    requires PlainSymbol(sym) && IsNumber(num)
    requires j < |sym + " " + Canonical(num)|
    ensures MatchAt((sym + " " + Canonical(num))[j..], sym, NumberFirst).None?
  {
    var c := Canonical(num);
    var r := sym + " " + c;
    CanonicalChars(num);
  }

  /** The form `SYMBOL ?NUMBER` is written `SYMBOL NUMBER` with the canonical
      number. */
  lemma SymbolFirstCanonical(sym: string, sp: string, num: string)
    requires PlainSymbol(sym) && IsNumber(num) && (sp == "" || sp == " ")
    ensures FormatSymbol(sym + sp + num, sym) == sym + " " + Canonical(num)
  {
    var s := sym + sp + num;
    var r := sym + " " + Canonical(num);
    SymbolFirstWhole(sym, sp, num);
    RewriteWhole(s, sym, SymbolFirst, num);
    forall j | 0 <= j < |r|
      ensures MatchAt(r[j..], sym, NumberFirst).None?
    {
      NoNumberFirstInCanonical(sym, num, j);
    }
  }

  /** No symbol is followed by a number in `NUMBER ?SYMBOL`. */
  lemma NoSymbolFirstAfterNumber(sym: string, sp: string, num: string, j: nat)
    requires PlainSymbol(sym) && IsNumber(num) && (sp == "" || sp == " ")
    requires j < |num + sp + sym|
    ensures MatchAt((num + sp + sym)[j..], sym, SymbolFirst).None?
  {
    var s := num + sp + sym;
    var t := s[j..];
    if |sym| <= |t| && t[..|sym|] == sym {
      assert t[..|sym|][0] == s[j];
      assert j >= |num| + |sp|;
      assert t[|sym|..] == [];
    }
  }

  /** The pattern `(\d+\.?\d*)( ?)SYMBOL` read off its three parts. */
  lemma NumberFirstParts(s: string, sym: string, n: nat, sp: nat)
    requires NumberLen(s) == n > 0
    requires SpaceLen(s[n..]) == sp
    requires n + sp + |sym| <= |s| && s[n + sp..n + sp + |sym|] == sym
    ensures MatchAt(s, sym, NumberFirst) == Some(Match(n + sp + |sym|, s[..n]))
  {
  }

  /** In `NUMBER ?SYMBOL` the greedy number stops at the end of the number. */
  lemma NumberLenBeforeSymbol(sym: string, sp: string, num: string)
    requires PlainSymbol(sym) && IsNumber(num) && (sp == "" || sp == " ")
    ensures NumberLen(num + sp + sym) == |num|
  {
    assert num + sp + sym == num + (sp + sym);
    NumberLenOfNumber(num, sp + sym);
  }

  /** The three parts of `NUMBER ?SYMBOL`, as the pattern reads them. */
  lemma NumberFirstSlices(sym: string, sp: string, num: string)
    requires PlainSymbol(sym) && (sp == "" || sp == " ")
    ensures SpaceLen((num + sp + sym)[|num|..]) == |sp|
    ensures (num + sp + sym)[|num| + |sp|..|num + sp + sym|] == sym
    ensures (num + sp + sym)[..|num|] == num
  {
    var s := num + sp + sym;
    assert s[|num|..] == sp + sym;
    if sp == "" {
      assert sp + sym == sym;
      assert sym[0] != ' ';
    } else {
      assert (sp + sym)[0] == ' ';
    }
    assert s[|num| + |sp|..|s|] == sym;
    assert s[..|num|] == num;
  }

  lemma NumberFirstWhole(sym: string, sp: string, num: string)
    requires PlainSymbol(sym) && IsNumber(num) && (sp == "" || sp == " ")
    ensures MatchAt(num + sp + sym, sym, NumberFirst) == Some(Match(|num + sp + sym|, num))
  {
    NumberLenBeforeSymbol(sym, sp, num);
    NumberFirstSlices(sym, sp, num);
    NumberFirstParts(num + sp + sym, sym, |num|, |sp|);
  }

  /** The form `NUMBER ?SYMBOL` is written `SYMBOL NUMBER` with the canonical
      number. */
  lemma NumberFirstCanonical(sym: string, sp: string, num: string)
    requires PlainSymbol(sym) && IsNumber(num) && (sp == "" || sp == " ")
    ensures FormatSymbol(num + sp + sym, sym) == sym + " " + Canonical(num)
  {
    var s := num + sp + sym;
    forall j | 0 <= j < |s|
      ensures MatchAt(s[j..], sym, SymbolFirst).None?
    {
      NoSymbolFirstAfterNumber(sym, sp, num, j);
    }
    NumberFirstWhole(sym, sp, num);
    RewriteWhole(s, sym, NumberFirst, num);
  }

  /** Both orders of an amount, with or without the space, come out the same. */
  lemma BothOrdersAgree(sym: string, sp1: string, sp2: string, num: string)
    requires PlainSymbol(sym) && IsNumber(num)
    requires (sp1 == "" || sp1 == " ") && (sp2 == "" || sp2 == " ")
    ensures FormatSymbol(sym + sp1 + num, sym) == FormatSymbol(num + sp2 + sym, sym)
  {
    SymbolFirstCanonical(sym, sp1, num);
    NumberFirstCanonical(sym, sp2, num);
  }

  lemma DefaultSymbolsArePlain()
    ensures forall i :: 0 <= i < |DefaultSymbols| ==> PlainSymbol(DefaultSymbols[i])
  {
  }

  /** The loop over a concatenation of symbol lists is the loop over the
      first list followed by the loop over the second. */
  lemma {:induction false} FormatAllAppend(s: string, a: seq<string>, b: seq<string>)
    ensures FormatAll(s, a + b) == FormatAll(FormatAll(s, a), b)
    decreases |b|
  {
    if b == [] {
      assert a + b == a;
    } else {
      var ab := a + b;
      var last := b[|b| - 1];
      assert ab[..|ab| - 1] == a + b[..|b| - 1];
      assert ab[|ab| - 1] == last;
      FormatAllAppend(s, a, b[..|b| - 1]);
      calc {
        FormatAll(s, ab);
        FormatSymbol(FormatAll(s, a + b[..|b| - 1]), last);
        FormatSymbol(FormatAll(FormatAll(s, a), b[..|b| - 1]), last);
        FormatAll(FormatAll(s, a), b);
      }
    }
  }

  /** Symbols whose first characters do not occur in the text change
      nothing. */
  lemma {:induction false} FormatAllAbsent(s: string, symbols: seq<string>)
    requires forall i :: 0 <= i < |symbols| ==> |symbols[i]| > 0 && symbols[i][0] !in s
    ensures FormatAll(s, symbols) == s
    decreases |symbols|
  {
    if symbols != [] {
      FormatAllAbsent(s, symbols[..|symbols| - 1]);
      FormatSymbolAbsent(s, symbols[|symbols| - 1]);
    }
  }

  /** When the symbols before the k-th do not occur, the first k+1 iterations
      do what the k-th symbol's iteration does. */
  lemma FormatAllPrefixActs(s: string, symbols: seq<string>, k: nat)
    requires k < |symbols|
    requires forall i :: 0 <= i < k ==> |symbols[i]| > 0 && symbols[i][0] !in s
    ensures FormatAll(s, symbols[..k + 1]) == FormatSymbol(s, symbols[k])
  {
    var pre, pre1 := symbols[..k], symbols[..k + 1];
    FormatAllAbsent(s, pre);
    assert pre1[..|pre1| - 1] == pre;
    assert pre1[|pre1| - 1] == symbols[k];
    calc {
      FormatAll(s, pre1);
      FormatSymbol(FormatAll(s, pre), symbols[k]);
      FormatSymbol(s, symbols[k]);
    }
  }

  /** Iterations after the k-th whose symbols do not occur change nothing. */
  lemma FormatAllSuffixAbsent(s: string, symbols: seq<string>, k: nat, t: string)
    requires k < |symbols|
    requires FormatAll(s, symbols[..k + 1]) == t
    requires forall i :: k < i < |symbols| ==> |symbols[i]| > 0 && symbols[i][0] !in t
    ensures FormatAll(s, symbols) == t
  {
    var pre1, post := symbols[..k + 1], symbols[k + 1..];
    forall i | 0 <= i < |post|
      ensures |post[i]| > 0 && post[i][0] !in t
    {
      assert post[i] == symbols[k + 1 + i];
    }
    FormatAllAbsent(t, post);
    FormatAllAppend(s, pre1, post);
    assert pre1 + post == symbols;
  }

  /** SymbolFirstCanonical, with the texts named. */
  lemma SymbolFirstInstance(sym: string, num: string, s: string, r: string)
    requires PlainSymbol(sym) && IsNumber(num)
    requires s == sym + " " + num && r == sym + " " + Canonical(num)
    ensures FormatSymbol(s, sym) == r
  {
    SymbolFirstCanonical(sym, " ", num);
  }

  /** NumberFirstCanonical, with the texts named. */
  lemma NumberFirstInstance(sym: string, num: string, s: string, r: string)
    requires PlainSymbol(sym) && IsNumber(num)
    requires s == num + " " + sym && r == sym + " " + Canonical(num)
    ensures FormatSymbol(s, sym) == r
  {
    NumberFirstCanonical(sym, " ", num);
  }

  /** When only the k-th symbol occurs in the text, and the later ones do not
      occur in its rewrite, the whole loop is that symbol's iteration. */
  lemma FormatAllOnlyOne(s: string, symbols: seq<string>, k: nat, t: string)
    requires k < |symbols|
    requires forall i :: 0 <= i < k ==> |symbols[i]| > 0 && symbols[i][0] !in s
    requires FormatSymbol(s, symbols[k]) == t
    requires forall i :: k < i < |symbols| ==> |symbols[i]| > 0 && symbols[i][0] !in t
    ensures FormatAll(s, symbols) == t
  {
    FormatAllPrefixActs(s, symbols, k);
    FormatAllSuffixAbsent(s, symbols, k, t);
  }

  /** The first characters of the default symbols. */
  lemma DefaultInitials()
    ensures |DefaultSymbols| == 5 && DefaultSymbols[1] == "USD"
    ensures forall i :: 0 <= i < 5 ==> |DefaultSymbols[i]| > 0
    ensures DefaultSymbols[0][0] == 'E' && DefaultSymbols[2][0] == '\U{20AC}'
    ensures DefaultSymbols[3][0] == '$' && DefaultSymbols[4][0] == 'C'
  {
  }

  /** With the default symbols, a text in which only the dollar code can
      match is rewritten by the dollar iteration alone. */
  lemma UsdDefaults(s: string, t: string)
    requires 'E' !in s && FormatSymbol(s, "USD") == t
    requires '\U{20AC}' !in t && '$' !in t && 'C' !in t
    ensures FormatAll(s, DefaultSymbols) == t
  {
    DefaultInitials();
    OnlySecondActs(s, t, DefaultSymbols);
  }

  /** Five symbols of which only the second can match. */
  lemma OnlySecondActs(s: string, t: string, symbols: seq<string>)
    requires |symbols| == 5 && forall i :: 0 <= i < 5 ==> |symbols[i]| > 0
    requires symbols[0][0] !in s && FormatSymbol(s, symbols[1]) == t
    requires symbols[2][0] !in t && symbols[3][0] !in t && symbols[4][0] !in t
    ensures FormatAll(s, symbols) == t
  {
    FirstAbsent(s, symbols);
    LastThreeAbsent(t, symbols);
    FormatAllOnlyOne(s, symbols, 1, t);
  }

  lemma FirstAbsent(s: string, symbols: seq<string>)
    requires |symbols| > 0 && |symbols[0]| > 0 && symbols[0][0] !in s
    ensures forall i :: 0 <= i < 1 ==> |symbols[i]| > 0 && symbols[i][0] !in s
  {
  }

  lemma LastThreeAbsent(t: string, symbols: seq<string>)
    requires |symbols| == 5 && |symbols[2]| > 0 && |symbols[3]| > 0 && |symbols[4]| > 0
    requires symbols[2][0] !in t && symbols[3][0] !in t && symbols[4][0] !in t
    ensures forall i :: 1 < i < |symbols| ==> |symbols[i]| > 0 && symbols[i][0] !in t
  {
    forall i | 1 < i < |symbols|
      ensures |symbols[i]| > 0 && symbols[i][0] !in t
    {
      if i == 2 {
      } else if i == 3 {
      } else {
        assert i == 4;
      }
    }
  }

  /** `USD 10` becomes `USD 10.-` with the default symbols. */
  lemma UsdBeforeExample()
    ensures FormatAll("USD 10", DefaultSymbols) == "USD 10.-"
  {
    var s, t := "USD 10", "USD 10.-";
    assert 'E' !in s;
    assert '\U{20AC}' !in t && '$' !in t && 'C' !in t;
    assert PlainSymbol("USD") && IsNumber("10");
    assert s == "USD" + " " + "10";
    assert t == "USD" + " " + Canonical("10");
    SymbolFirstInstance("USD", "10", s, t);
    UsdDefaults(s, t);
  }

  /** `10 USD` becomes `USD 10.-` with the default symbols. */
  lemma UsdAfterExample()
    ensures FormatAll("10 USD", DefaultSymbols) == "USD 10.-"
  {
    var s, t := "10 USD", "USD 10.-";
    assert 'E' !in s;
    assert '\U{20AC}' !in t && '$' !in t && 'C' !in t;
    assert PlainSymbol("USD") && IsNumber("10");
    assert s == "10" + " " + "USD";
    assert t == "USD" + " " + Canonical("10");
    NumberFirstInstance("USD", "10", s, t);
    UsdDefaults(s, t);
  }

  /** A digit or a `.`: a character that can continue a number. */
  predicate NumberChar(c: char) {
    IsDigit(c) || c == '.'
  }

  /** The text before an amount does not run into it: it ends neither in a
      digit or `.`, nor in one of them followed by a space. */
  predicate ApartBefore(pre: string) {
    pre == [] ||
      (&& !NumberChar(pre[|pre| - 1])
       && (pre[|pre| - 1] == ' ' && |pre| >= 2 ==> !NumberChar(pre[|pre| - 2])))
  }

  /** The text after an amount does not run into it: it starts neither with a
      digit or `.`, nor with a space and a digit. */
  predicate ApartAfter(post: string) {
    post == [] ||
      (&& !NumberChar(post[0])
       && (post[0] == ' ' && |post| >= 2 ==> !IsDigit(post[1])))
  }

  /** What a match of `SYMBOL( ?)(\d+\.?\d*)` looks like: the symbol, then a
      digit, directly or after one space. */
  lemma SymbolFirstAt(t: string, sym: string)
    requires |sym| > 0
    ensures MatchAt(t, sym, SymbolFirst).Some? ==>
              && |sym| < |t| && t[..|sym|] == sym && t[0] == sym[0]
              && (IsDigit(t[|sym|]) || (t[|sym|] == ' ' && |sym| + 1 < |t| && IsDigit(t[|sym| + 1])))
  {
    if MatchAt(t, sym, SymbolFirst).Some? {
      var rest := t[|sym|..];
      var sp := SpaceLen(rest);
      assert rest[sp..][0] == t[|sym| + sp];
      assert t[..|sym|][0] == t[0];
    }
  }

  /** What a match of `(\d+\.?\d*)( ?)SYMBOL` looks like: number characters,
      at most one space, then the symbol. */
  lemma NumberFirstAt(t: string, sym: string)
    requires |sym| > 0
    ensures MatchAt(t, sym, NumberFirst).Some? ==>
              var n := NumberLen(t);
              var sp := SpaceLen(t[n..]);
              && 0 < n && n + sp < |t| && t[n + sp] == sym[0] && sp <= 1
              && (forall k :: 0 <= k < n ==> NumberChar(t[k]))
              && (sp == 1 ==> t[n] == ' ')
  {
    if MatchAt(t, sym, NumberFirst).Some? {
      var n := NumberLen(t);
      var sp := SpaceLen(t[n..]);
      assert t[n + sp..n + sp + |sym|][0] == t[n + sp];
      assert forall k :: 0 <= k < n ==> t[..n][k] == t[k];
    }
  }

  /** With no match anywhere, the rewrite leaves the text as it is. */
  lemma RewriteNone(s: string, sym: string, order: Order)
    requires forall j :: 0 <= j < |s| ==> MatchAt(s[j..], sym, order).None?
    ensures Rewrite(s, sym, order) == s
  {
  }

  /** Where no match starts, `re.sub` copies one character and goes on. */
  lemma SubAllCopy(s: string, sym: string, order: Order, repl: string)
    requires s != [] && MatchAt(s, sym, order).None?
    ensures SubAll(s, sym, order, repl) == [s[0]] + SubAll(s[1..], sym, order, repl)
  {
  }

  /** `re.sub` copies a prefix in which no match starts. */
  lemma {:induction false} SubAllSkip(a: string, b: string, sym: string, order: Order, repl: string)
    requires forall j {:trigger MatchAt((a + b)[j..], sym, order)} :: 0 <= j < |a| ==> MatchAt((a + b)[j..], sym, order).None?
    ensures SubAll(a + b, sym, order, repl) == a + SubAll(b, sym, order, repl)
    decreases |a|
  {
    if a == [] {
      assert a + b == b;
    } else {
      SubAllCopyFirst(a, b, sym, order, repl);
      NoMatchInRest(a, b, sym, order);
      SubAllSkip(a[1..], b, sym, order, repl);
      ConsRegroup(a, SubAll(b, sym, order, repl));
    }
  }

  lemma SubAllCopyFirst(a: string, b: string, sym: string, order: Order, repl: string)
    requires a != []
    requires forall j {:trigger MatchAt((a + b)[j..], sym, order)} :: 0 <= j < |a| ==> MatchAt((a + b)[j..], sym, order).None?
    ensures SubAll(a + b, sym, order, repl) == [a[0]] + SubAll(a[1..] + b, sym, order, repl)
  {
    var ab := a + b;
    assert ab[0..] == ab;
    SubAllCopy(ab, sym, order, repl);
    assert ab[1..] == a[1..] + b;
  }

  lemma ConsRegroup(a: string, r: string)
    requires a != []
    ensures [a[0]] + (a[1..] + r) == a + r
  {
    assert a == [a[0]] + a[1..];
    Regroup([a[0]], a[1..], r);
  }

  lemma NoMatchInRest(a: string, b: string, sym: string, order: Order)
    requires a != []
    requires forall j {:trigger MatchAt((a + b)[j..], sym, order)} :: 0 <= j < |a| ==> MatchAt((a + b)[j..], sym, order).None?
    ensures forall j {:trigger MatchAt((a[1..] + b)[j..], sym, order)} :: 0 <= j < |a| - 1 ==> MatchAt((a[1..] + b)[j..], sym, order).None?
  {
    forall j | 0 <= j < |a| - 1
      ensures MatchAt((a[1..] + b)[j..], sym, order).None?
    {
      assert (a[1..] + b)[j..] == (a + b)[j + 1..];
    }
  }

  /** `re.search` finds the first match after a prefix in which none starts. */
  lemma FirstMatchAfter(a: string, b: string, sym: string, order: Order)
    requires forall j {:trigger MatchAt((a + b)[j..], sym, order)} :: 0 <= j < |a| ==> MatchAt((a + b)[j..], sym, order).None?
    requires MatchAt(b, sym, order).Some?
    ensures FirstMatch(a + b, sym, order) == Some(|a|)
  {
    assert (a + b)[|a|..] == b;
  }

  /** Where a match starts, `re.sub` writes the replacement and goes on after
      the match. */
  lemma SubAllReplace(s: string, sym: string, order: Order, repl: string)
    requires MatchAt(s, sym, order).Some?
    ensures SubAll(s, sym, order, repl)
         == repl + SubAll(s[MatchAt(s, sym, order).value.len..], sym, order, repl)
  {
  }

  /** An amount matched whole after a prefix without matches, and followed by
      a text without matches, is the only thing the rewrite changes. */
  lemma RewriteOne(pre: string, amount: string, post: string, sym: string, order: Order, num: string)
    requires MatchAt(amount + post, sym, order) == Some(Match(|amount|, num))
    requires forall j {:trigger MatchAt((pre + amount + post)[j..], sym, order)} :: 0 <= j < |pre| ==> MatchAt((pre + amount + post)[j..], sym, order).None?
    requires forall j :: 0 <= j < |post| ==> MatchAt(post[j..], sym, order).None?
    ensures Rewrite(pre + amount + post, sym, order) == pre + (sym + " " + Canonical(num)) + post
  {
    var rest := amount + post;
    var s := pre + rest;
    var repl := sym + " " + Canonical(num);
    assert pre + amount + post == s;
    FirstMatchAfter(pre, rest, sym, order);
    assert s[|pre|..] == rest;
    assert Rewrite(s, sym, order) == SubAll(s, sym, order, repl);
    SubAllSkip(pre, rest, sym, order, repl);
    SubAllReplace(rest, sym, order, repl);
    assert rest[|amount|..] == post;
    SubAllWithoutMatch(post, sym, order, repl);
    Regroup(pre, repl, post);
  }

  /** `SYMBOL ?NUMBER` followed by text that cannot continue the number is
      matched up to the end of the number. */
  lemma SymbolFirstWithTail(sym: string, sp: string, num: string, post: string)
    requires PlainSymbol(sym) && IsNumber(num) && (sp == "" || sp == " ")
    requires ApartAfter(post)
    ensures MatchAt(sym + sp + num + post, sym, SymbolFirst) == Some(Match(|sym + sp + num|, num))
  {
    Regroup(sym + sp, num, post);
    NumberLenOfNumber(num, post);
    SymbolFirstTail(sym + sp + num + post, sym, sp, num, num + post, |sym + sp + num|);
  }

  lemma SymbolFirstTail(s: string, sym: string, sp: string, num: string, tail: string, len: nat)
    requires PlainSymbol(sym) && IsNumber(num) && (sp == "" || sp == " ")
    requires num <= tail && NumberLen(tail) == |num|
    requires s == sym + sp + tail && len == |sym| + |sp| + |num|
    ensures MatchAt(s, sym, SymbolFirst) == Some(Match(len, num))
  {
    SymbolFirstSlices(sym, sp, tail);
    SymbolFirstParts(s, sym, |sp|, |num|);
    assert tail[..|num|] == num;
  }

  /** `NUMBER ?SYMBOL` is matched whole, whatever follows it. */
  lemma NumberFirstWithTail(sym: string, sp: string, num: string, post: string)
    requires PlainSymbol(sym) && IsNumber(num) && (sp == "" || sp == " ")
    ensures MatchAt(num + sp + sym + post, sym, NumberFirst) == Some(Match(|num + sp + sym|, num))
  {
    var u := sp + sym + post;
    Regroup(num, sp + sym, post);
    Regroup(num, sp, sym);
    TailAfterNumber(sym, sp, post);
    NumberThenTail(num + sp + sym + post, num, u, sym, |sp|, |num + sp + sym|);
  }

  /** `NUMBER ?SYMBOL` read off a number followed by text that does not go on
      with the number and holds the symbol after its optional space. */
  lemma NumberThenTail(s: string, num: string, u: string, sym: string, q: nat, len: nat)
    requires s == num + u && len == |num| + q + |sym|
    requires IsNumber(num) && u != [] && !IsDigit(u[0]) && u[0] != '.'
    requires SpaceLen(u) == q && q + |sym| <= |u| && u[q..q + |sym|] == sym
    ensures MatchAt(s, sym, NumberFirst) == Some(Match(len, num))
  {
    NumberLenOfNumber(num, u);
    assert s[|num|..] == u;
    assert s[..|num|] == num;
    assert s[|num| + q..|num| + q + |sym|] == u[q..q + |sym|];
    NumberFirstParts(s, sym, |num|, q);
  }

  /** What follows the number in `NUMBER ?SYMBOL...`: it starts with neither a
      digit nor a `.`, its leading space is the optional one, and the symbol
      comes after it. */
  lemma TailAfterNumber(sym: string, sp: string, post: string)
    requires PlainSymbol(sym) && (sp == "" || sp == " ")
    ensures var u := sp + sym + post;
      && !IsDigit(u[0]) && u[0] != '.'
      && SpaceLen(u) == |sp|
      && u[|sp|..|sp| + |sym|] == sym
  {
    var u := sp + sym + post;
    assert u[|sp|..] == sym + post;
    assert (sym + post)[..|sym|] == sym;
    if sp == "" {
      assert u[0] == sym[0];
    } else {
      assert u[0] == ' ';
    }
  }

  /** No occurrence of the symbol's first character follows a number
      character, directly or after one space. */
  predicate SymbolStartsApart(s: string, sym: string)
    requires |sym| > 0
  {
    forall p :: 1 <= p < |s| && s[p] == sym[0] ==>
      !NumberChar(s[p - 1]) && (s[p - 1] == ' ' && p >= 2 ==> !NumberChar(s[p - 2]))
  }

  /** Where no symbol follows a number, `NUMBER ?SYMBOL` matches nowhere. */
  lemma NoNumberFirstWhenApart(s: string, sym: string, j: nat)
    requires |sym| > 0 && SymbolStartsApart(s, sym) && j < |s|
    ensures MatchAt(s[j..], sym, NumberFirst).None?
  {
    var t := s[j..];
    NumberFirstAt(t, sym);
    var n := NumberLen(t);
    var q := SpaceLen(t[n..]);
    if n > 0 && n + q < |t| {
      ApartAt(s, sym, j + n + q);
      assert s[j + n + q] == t[n + q];
      assert s[j + n - 1] == t[n - 1];
      assert q == 1 ==> s[j + n] == t[n];
    }
  }

  /** SymbolStartsApart at one position. */
  lemma ApartAt(s: string, sym: string, p: nat)
    requires |sym| > 0 && SymbolStartsApart(s, sym) && 1 <= p < |s|
    ensures s[p] == sym[0] ==>
      !NumberChar(s[p - 1]) && (s[p - 1] == ' ' && p >= 2 ==> !NumberChar(s[p - 2]))
  {
  }

  /** After `SYMBOL CANONICAL` is written into text that does not run into it,
      no symbol follows a number. */
  lemma RewrittenApart(pre: string, sym: string, num: string, post: string)
    requires PlainSymbol(sym) && IsNumber(num)
    requires sym[0] !in pre && sym[0] !in post && ApartBefore(pre)
    ensures SymbolStartsApart(pre + (sym + " " + Canonical(num)) + post, sym)
  {
    var c := Canonical(num);
    var s := pre + (sym + " " + c) + post;
    CanonicalChars(num);
    forall p | 1 <= p < |s|
      ensures s[p] == sym[0] ==>
        !NumberChar(s[p - 1]) && (s[p - 1] == ' ' && p >= 2 ==> !NumberChar(s[p - 2]))
    {
      RewrittenApartAt(pre, sym, c, post, p);
    }
  }

  /** RewrittenApart at one position, for any canonical text `c`. */
  lemma RewrittenApartAt(pre: string, sym: string, c: string, post: string, p: nat)
    requires PlainSymbol(sym) && sym[0] !in pre && sym[0] !in post && ApartBefore(pre)
    requires forall k :: 0 <= k < |c| ==> IsDigit(c[k]) || c[k] in ".-"
    requires 1 <= p < |pre + (sym + " " + c) + post|
    ensures var s := pre + (sym + " " + c) + post;
      s[p] == sym[0] ==>
        !NumberChar(s[p - 1]) && (s[p - 1] == ' ' && p >= 2 ==> !NumberChar(s[p - 2]))
  {
    var s := pre + (sym + " " + c) + post;
    var a, b := |pre|, |pre| + |sym|;
    var e := b + 1 + |c|;
    if p < a {
      assert s[p] == pre[p];
    } else if p == a {
      assert s[p - 1] == pre[a - 1];
      if p >= 2 {
        assert s[p - 2] == pre[a - 2];
      }
    } else if p < b {
      assert s[p - 1] == sym[p - 1 - a];
    } else if p == b {
      assert s[p] == ' ';
    } else if p < e {
      assert s[p] == c[p - b - 1];
    } else {
      assert s[p] == post[p - e];
    }
  }

  /** An amount `SYMBOL ?NUMBER` inside running text is written
      `SYMBOL CANONICAL`, and the text around it is kept. */
  lemma SymbolFirstInText(pre: string, sp: string, num: string, post: string, sym: string)
    requires PlainSymbol(sym) && IsNumber(num) && (sp == "" || sp == " ")
    requires sym[0] !in pre && sym[0] !in post
    requires ApartBefore(pre) && ApartAfter(post)
    ensures FormatSymbol(pre + (sym + sp + num) + post, sym)
         == pre + (sym + " " + Canonical(num)) + post
  {
    var amount := sym + sp + num;
    var s := pre + amount + post;
    var r := pre + (sym + " " + Canonical(num)) + post;
    SymbolFirstWithTail(sym, sp, num, post);
    forall j | 0 <= j < |pre|
      ensures MatchAt(s[j..], sym, SymbolFirst).None?
    {
      SymbolFirstAt(s[j..], sym);
      assert s[j..][0] == pre[j];
    }
    forall j | 0 <= j < |post|
      ensures MatchAt(post[j..], sym, SymbolFirst).None?
    {
      SymbolFirstAt(post[j..], sym);
      assert post[j..][0] == post[j];
    }
    RewriteOne(pre, amount, post, sym, SymbolFirst, num);
    RewrittenApart(pre, sym, num, post);
    forall j | 0 <= j < |r|
      ensures MatchAt(r[j..], sym, NumberFirst).None?
    {
      NoNumberFirstWhenApart(r, sym, j);
    }
    RewriteNone(r, sym, NumberFirst);
  }

  /** Two occurrences of `sym` less than its length apart put its first
      character into the part the second one adds. */
  lemma {:induction false} OverlapReach(s: string, b: nat, o: nat, sym: string, k: nat)
    requires 0 < o < |sym| && b + o + |sym| <= |s|
    requires s[b..b + |sym|] == sym && s[b + o..b + o + |sym|] == sym
    requires k < |sym| && sym[k] == sym[0]
    ensures exists i :: b + |sym| <= i < b + o + |sym| && s[i] == sym[0]
    decreases |sym| - k
  {
    assert s[b + o + k] == s[b + o..b + o + |sym|][k];
    if k + o < |sym| {
      assert s[b + k + o] == s[b..b + |sym|][k + o];
      OverlapReach(s, b, o, sym, k + o);
    }
  }

  lemma Overlap(s: string, b: nat, o: nat, sym: string)
    requires 0 < o < |sym| && b + o + |sym| <= |s|
    requires s[b..b + |sym|] == sym
    ensures s[b + o..b + o + |sym|] == sym ==>
              exists i :: b + |sym| <= i < b + o + |sym| && s[i] == sym[0]
  {
    if s[b + o..b + o + |sym|] == sym {
      OverlapReach(s, b, o, sym, 0);
    }
  }

  /** In `pre NUMBER ?SYMBOL post`, the symbol's first character occurs only
      inside the symbol, and no character of the symbol but the first is
      preceded by a number character or a space. */
  lemma AmountChars(pre: string, sp: string, num: string, post: string, sym: string, p: nat)
    requires PlainSymbol(sym) && IsNumber(num) && (sp == "" || sp == " ")
    requires sym[0] !in pre && sym[0] !in post
    requires p < |pre + (num + sp + sym) + post|
    ensures var s := pre + (num + sp + sym) + post;
            var b := |pre| + |num| + |sp|;
            && (s[p] == sym[0] ==> b <= p < b + |sym|)
            && (b < p < b + |sym| ==> !NumberChar(s[p - 1]) && s[p - 1] != ' ')
  {
    var s := pre + (num + sp + sym) + post;
    var a := |pre|;
    var b := a + |num| + |sp|;
    var e := b + |sym|;
    if p < a {
      assert s[p] == pre[p];
    } else if p < a + |num| {
      assert s[p] == num[p - a];
    } else if p < b {
      assert s[p] == ' ';
    } else if p < e {
      if b < p {
        assert s[p - 1] == sym[p - 1 - b];
      }
    } else {
      assert s[p] == post[p - e];
    }
  }

  /** In `pre NUMBER ?SYMBOL post`, the symbol is never followed by a number. */
  lemma NoSymbolFirstAroundAmount(pre: string, sp: string, num: string, post: string, sym: string, j: nat)
    requires PlainSymbol(sym) && IsNumber(num) && (sp == "" || sp == " ")
    requires sym[0] !in pre && sym[0] !in post && ApartAfter(post)
    requires j < |pre + (num + sp + sym) + post|
    ensures MatchAt((pre + (num + sp + sym) + post)[j..], sym, SymbolFirst).None?
  {
    var s := pre + (num + sp + sym) + post;
    var b := |pre| + |num| + |sp|;
    var e := b + |sym|;
    assert s[b..e] == sym;
    assert s[e..] == post;
    if j == b {
      SymbolEndsAmount(s, b, sym, post);
    } else if b < j < e {
      SymbolInsideAmount(s, b, j, sym, post);
    } else {
      AmountChars(pre, sp, num, post, sym, j);
      SymbolFirstAt(s[j..], sym);
      assert s[j..][0] == s[j];
    }
  }

  /** The symbol that ends an amount is followed by text that does not start
      with a number. */
  lemma SymbolEndsAmount(s: string, b: nat, sym: string, post: string)
    requires PlainSymbol(sym) && ApartAfter(post)
    requires b + |sym| + |post| == |s| && s[b..b + |sym|] == sym && s[b + |sym|..] == post
    ensures MatchAt(s[b..], sym, SymbolFirst).None?
  {
    var t := s[b..];
    SymbolFirstAt(t, sym);
    if |post| > 0 {
      assert t[|sym|] == post[0];
      if |post| > 1 {
        assert t[|sym| + 1] == post[1];
      }
    }
  }

  /** A symbol never starts inside the symbol that ends an amount: it would
      reach into the text after it, where the symbol's first character does
      not occur. */
  lemma SymbolInsideAmount(s: string, b: nat, j: nat, sym: string, post: string)
    requires |sym| > 0 && b < j < b + |sym| && b + |sym| + |post| == |s|
    requires s[b..b + |sym|] == sym && s[b + |sym|..] == post && sym[0] !in post
    ensures MatchAt(s[j..], sym, SymbolFirst).None?
  {
    SymbolFirstAt(s[j..], sym);
    if j + |sym| <= |s| {
      NoSymbolInsideAmount(s, b, j, sym, post);
    }
  }

  lemma NoSymbolInsideAmount(s: string, b: nat, j: nat, sym: string, post: string)
    requires |sym| > 0 && b < j < b + |sym| && j + |sym| <= |s| && b + |sym| + |post| == |s|
    requires s[b..b + |sym|] == sym && s[b + |sym|..] == post && sym[0] !in post
    ensures s[j..][..|sym|] != sym
  {
    Overlap(s, b, j - b, sym);
    InitialNotAfter(s, b + |sym|, sym, post);
    assert s[j..j + |sym|] != sym;
    assert s[j..][..|sym|] == s[j..j + |sym|];
  }

  /** The symbol's first character does not occur in the text after e. */
  lemma InitialNotAfter(s: string, e: nat, sym: string, post: string)
    requires |sym| > 0 && e <= |s| && s[e..] == post && sym[0] !in post
    ensures forall i :: e <= i < |s| ==> s[i] != sym[0]
  {
    forall i | e <= i < |s|
      ensures s[i] != sym[0]
    {
      assert s[i] == post[i - e];
    }
  }

  /** In `pre NUMBER ?SYMBOL`, no match of `NUMBER ?SYMBOL` starts inside a
      prefix that does not run into the number. */
  lemma NumberFirstNotInPre(pre: string, sp: string, num: string, post: string, sym: string, j: nat)
    requires PlainSymbol(sym) && IsNumber(num) && (sp == "" || sp == " ")
    requires sym[0] !in pre && sym[0] !in post && ApartBefore(pre)
    requires j < |pre + (num + sp + sym) + post|
    ensures MatchAt((pre + (num + sp + sym) + post)[j..], sym, NumberFirst).Some? ==> j >= |pre|
  {
    var s := pre + (num + sp + sym) + post;
    var t := s[j..];
    NumberFirstAt(t, sym);
    if MatchAt(t, sym, NumberFirst).Some? {
      var n := NumberLen(t);
      var q := SpaceLen(t[n..]);
      forall k | j <= k < j + n
        ensures NumberChar(s[k])
      {
        assert s[k] == t[k - j];
      }
      assert s[j + n + q] == t[n + q];
      assert q == 1 ==> s[j + n] == t[n];
      NumberRunInAmount(pre, sp, num, post, sym, j, n, q);
    }
  }

  /** A run of number characters followed, after at most one space, by the
      symbol's first character starts inside the amount. */
  lemma NumberRunInAmount(pre: string, sp: string, num: string, post: string, sym: string, j: nat, n: nat, q: nat)
    requires PlainSymbol(sym) && IsNumber(num) && (sp == "" || sp == " ")
    requires sym[0] !in pre && sym[0] !in post && ApartBefore(pre)
    requires var s := pre + (num + sp + sym) + post;
      && 0 < n && q <= 1 && j + n + q < |s| && s[j + n + q] == sym[0]
      && (forall k :: j <= k < j + n ==> NumberChar(s[k]))
      && (q == 1 ==> s[j + n] == ' ')
    ensures j >= |pre|
  {
    var s := pre + (num + sp + sym) + post;
    var a := |pre|;
    AmountChars(pre, sp, num, post, sym, j + n + q);
    assert s[a + |num| - 1] == num[|num| - 1];
    assert a >= 1 ==> s[a - 1] == pre[a - 1];
  }

  /** An amount `NUMBER ?SYMBOL` inside running text is written
      `SYMBOL CANONICAL`, and the text around it is kept. */
  lemma NumberFirstInText(pre: string, sp: string, num: string, post: string, sym: string)
    requires PlainSymbol(sym) && IsNumber(num) && (sp == "" || sp == " ")
    requires sym[0] !in pre && sym[0] !in post
    requires ApartBefore(pre) && ApartAfter(post)
    ensures FormatSymbol(pre + (num + sp + sym) + post, sym)
         == pre + (sym + " " + Canonical(num)) + post
  {
    var amount := num + sp + sym;
    var s := pre + amount + post;
    forall j | 0 <= j < |s|
      ensures MatchAt(s[j..], sym, SymbolFirst).None?
    {
      NoSymbolFirstAroundAmount(pre, sp, num, post, sym, j);
    }
    RewriteNone(s, sym, SymbolFirst);
    NumberFirstWithTail(sym, sp, num, post);
    assert amount + post == num + sp + sym + post;
    forall j | 0 <= j < |pre|
      ensures MatchAt(s[j..], sym, NumberFirst).None?
    {
      NumberFirstNotInPre(pre, sp, num, post, sym, j);
    }
    forall j | 0 <= j < |post|
      ensures MatchAt(post[j..], sym, NumberFirst).None?
    {
      MatchNeedsDigitAndSymbol(post, j, sym, NumberFirst);
    }
    RewriteOne(pre, amount, post, sym, NumberFirst, num);
  }

  /** Inside running text too, both orders of an amount, with or without the
      space, come out the same. */
  lemma BothOrdersAgreeInText(pre: string, sp1: string, sp2: string, num: string, post: string, sym: string)
    requires PlainSymbol(sym) && IsNumber(num)
    requires (sp1 == "" || sp1 == " ") && (sp2 == "" || sp2 == " ")
    requires sym[0] !in pre && sym[0] !in post
    requires ApartBefore(pre) && ApartAfter(post)
    ensures FormatSymbol(pre + (sym + sp1 + num) + post, sym)
         == FormatSymbol(pre + (num + sp2 + sym) + post, sym)
  {
    SymbolFirstInText(pre, sp1, num, post, sym);
    NumberFirstInText(pre, sp2, num, post, sym);
  }

  /** `Preis 10 USD heute` becomes `Preis USD 10.- heute` with the default
      symbols. */
  lemma UsdInTextExample()
    ensures FormatAll("Preis 10 USD heute", DefaultSymbols) == "Preis USD 10.- heute"
  {
    var s, t := "Preis 10 USD heute", "Preis USD 10.- heute";
    assert 'E' !in s;
    assert '\U{20AC}' !in t && '$' !in t && 'C' !in t;
    UsdInTextStep(s, t);
    UsdDefaults(s, t);
  }

  lemma UsdInTextStep(s: string, t: string)
    requires s == "Preis 10 USD heute" && t == "Preis USD 10.- heute"
    ensures FormatSymbol(s, "USD") == t
  {
    var pre, num, sym, post := "Preis ", "10", "USD", " heute";
    assert PlainSymbol(sym) && IsNumber(num);
    assert ApartBefore(pre) && ApartAfter(post);
    assert sym[0] !in pre && sym[0] !in post;
    assert Canonical(num) == "10.-";
    assert s == pre + (num + " " + sym) + post;
    assert t == pre + (sym + " " + Canonical(num)) + post;
    NumberFirstInTextInstance(pre, num, sym, post, s, t);
  }

  /** NumberFirstInText, with the texts named. */
  lemma NumberFirstInTextInstance(pre: string, num: string, sym: string, post: string, s: string, t: string)
    requires PlainSymbol(sym) && IsNumber(num)
    requires sym[0] !in pre && sym[0] !in post
    requires ApartBefore(pre) && ApartAfter(post)
    requires s == pre + (num + " " + sym) + post && t == pre + (sym + " " + Canonical(num)) + post
    ensures FormatSymbol(s, sym) == t
  {
    NumberFirstInText(pre, " ", num, post, sym);
  }
}
