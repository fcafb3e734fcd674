/** standardize_number_in_text: three `re.sub` passes that remove digit-group
    separators and turn a decimal comma into a decimal point. */
module Numbers {
  import opened Chars

  /** The three substitutions, in the order in which they run:
      - GroupSeparator:  `(\d)[\s.](?=\d)`  becomes `\1`
      - ThousandsComma:  `(\d),(?=\d{3})`   becomes `\1`
      - DecimalComma:    `(\d),(?=\d)`      becomes `\1.` */
  datatype Rule = GroupSeparator | ThousandsComma | DecimalComma

  /** The character class that follows the first digit. */
  predicate IsRuleSeparator(rule: Rule, c: char) {
    if rule == GroupSeparator then IsSpace(c) || c == '.' else c == ','
  }

  /** How many digits the lookahead demands after the separator. */
  function Ahead(rule: Rule): nat {
    if rule == ThousandsComma then 3 else 1
  }

  /** What the separator becomes. */
  function Replacement(rule: Rule): string {
    if rule == DecimalComma then "." else ""
  }

  /** The pattern of `rule` matches at the start of `s`. */
  predicate MatchesAt(rule: Rule, s: string) {
    && |s| >= 2 + Ahead(rule)
    && IsDigit(s[0])
    && IsRuleSeparator(rule, s[1])
    && AllDigits(s[2..2 + Ahead(rule)])
  }

  predicate HasMatch(rule: Rule, s: string) {
    exists i :: 0 <= i < |s| && MatchesAt(rule, s[i..])
  }

  /** `re.sub` of one rule: leftmost, non-overlapping matches of two characters,
      the lookahead digits left for the next attempt. */
  function Apply(rule: Rule, s: string): string
    decreases |s|
  {
    if MatchesAt(rule, s) then [s[0]] + Replacement(rule) + Apply(rule, s[2..])
    else if s == [] then []
    else [s[0]] + Apply(rule, s[1..])
  }

  /** standardize_number_in_text. */
  function Standardize(text: string): string {
    Apply(DecimalComma, Apply(ThousandsComma, Apply(GroupSeparator, text)))
  }

  /** Any character one of the rules may remove or rewrite. */
  predicate IsSeparator(c: char) {
    IsSpace(c) || c == '.' || c == ','
  }

  /** `s` with every separator character dropped. */
  function NonSeparators(s: string): string {
    if s == [] then []
    else (if IsSeparator(s[0]) then [] else [s[0]]) + NonSeparators(s[1..])
  }

  /** A separator character with a digit on each side, at index i. */
  predicate SeparatorBetweenDigits(s: string, i: int) {
    0 < i < |s| - 1 && IsDigit(s[i - 1]) && IsSeparator(s[i]) && IsDigit(s[i + 1])
  }

  lemma {:induction false} NonSeparatorsAppend(a: string, b: string)
    ensures NonSeparators(a + b) == NonSeparators(a) + NonSeparators(b)
  {
    if a == [] {
      assert a + b == b;
    } else {
      assert (a + b)[1..] == a[1..] + b;
      NonSeparatorsAppend(a[1..], b);
    }
  }

  /** A rule only ever removes a separator or turns one into another one:
      every other character survives, in order. */
  lemma {:induction false} ApplyKeepsNonSeparators(rule: Rule, s: string)
    ensures NonSeparators(Apply(rule, s)) == NonSeparators(s)
    decreases |s|
  {
    if MatchesAt(rule, s) {
      ApplyKeepsNonSeparators(rule, s[2..]);
      assert s == [s[0]] + [s[1]] + s[2..];
      NonSeparatorsAppend([s[0]] + Replacement(rule), Apply(rule, s[2..]));
      NonSeparatorsAppend([s[0]] + [s[1]], s[2..]);
      NonSeparatorsAppend([s[0]], Replacement(rule));
      NonSeparatorsAppend([s[0]], [s[1]]);
    } else if s != [] {
      ApplyKeepsNonSeparators(rule, s[1..]);
      NonSeparatorsAppend([s[0]], Apply(rule, s[1..]));
      assert s == [s[0]] + s[1..];
      NonSeparatorsAppend([s[0]], s[1..]);
    }
  }

  /** The rules that delete shrink the text exactly when they match;
      the decimal-comma rule keeps the length. */
  lemma {:induction false} ApplyLength(rule: Rule, s: string)
    ensures rule == DecimalComma ==> |Apply(rule, s)| == |s|
    ensures rule != DecimalComma ==> |Apply(rule, s)| <= |s|
    ensures rule != DecimalComma && HasMatch(rule, s) ==> |Apply(rule, s)| < |s|
    decreases |s|
  {
    if MatchesAt(rule, s) {
      ApplyLength(rule, s[2..]);
    } else if s != [] {
      ApplyLength(rule, s[1..]);
      if HasMatch(rule, s) {
        var i :| 0 <= i < |s| && MatchesAt(rule, s[i..]);
        assert i != 0;
        assert s[1..][i - 1..] == s[i..];
      }
    }
  }

  /** A match occurs in a non-empty text when it starts at the first
      character or occurs in the rest. */
  lemma HasMatchCons(rule: Rule, s: string)
    requires s != []
    ensures HasMatch(rule, s) <==> MatchesAt(rule, s) || HasMatch(rule, s[1..])
  {
    if HasMatch(rule, s) && !MatchesAt(rule, s) {
      var i :| 0 <= i < |s| && MatchesAt(rule, s[i..]);
      assert s[1..][i - 1..] == s[i..];
    }
    if HasMatch(rule, s[1..]) {
      var i :| 0 <= i < |s[1..]| && MatchesAt(rule, s[1..][i..]);
      assert s[1..][i..] == s[i + 1..];
    }
    if MatchesAt(rule, s) {
      assert s[0..] == s;
    }
  }

  /** A rule leaves the text unchanged if and only if its pattern matches
      nowhere in it. */
  lemma {:induction false} ApplyFixedIff(rule: Rule, s: string)
    ensures Apply(rule, s) == s <==> !HasMatch(rule, s)
    decreases |s|
  {
    if s != [] {
      HasMatchCons(rule, s);
      if MatchesAt(rule, s) {
        ApplyLength(rule, s[2..]);
        if rule == DecimalComma {
          assert Apply(rule, s)[1] == '.' != s[1];
        }
      } else {
        ApplyFixedIff(rule, s[1..]);
        var r := Apply(rule, s[1..]);
        assert Apply(rule, s) == [s[0]] + r;
        assert s == [s[0]] + s[1..];
        assert Apply(rule, s) == s <==> r == s[1..];
      }
    }
  }

  /** Each match of a rule sits on a separator between two digits. */
  lemma MatchIsBetweenDigits(rule: Rule, s: string, i: int)
    requires 0 <= i < |s| && MatchesAt(rule, s[i..])
    ensures SeparatorBetweenDigits(s, i + 1)
    ensures rule != GroupSeparator ==> s[i + 1] == ','
  {
    assert s[i..][2..2 + Ahead(rule)][0] == s[i + 2];
  }

  /** Position k of `s` is the separator of a match: the pattern matches at
      k - 1. A match starts with a digit, which no pass consumes as a
      separator, so the leftmost scan reaches every such position. */
  predicate Replaced(rule: Rule, s: string, k: int) {
    0 < k < |s| && MatchesAt(rule, s[k - 1..])
  }

  /** The reference rewriting of `s` from position i on, read position by
      position: the separator of each match becomes the rule's replacement,
      every other character is copied. */
  function Rewritten(rule: Rule, s: string, i: nat): string
    decreases |s| - i
  {
    if i >= |s| then []
    else (if Replaced(rule, s, i) then Replacement(rule) else [s[i]]) + Rewritten(rule, s, i + 1)
  }

  /** How far the scan moves past the start of `s`. */
  function Stride(rule: Rule, s: string): nat {
    if MatchesAt(rule, s) then 2 else 1
  }

  /** Past the part the scan steps over, the positions of `s` and of the rest
      of `s` are replaced alike. */
  lemma ReplacedShift(rule: Rule, s: string, k: int)
    requires s != [] && Stride(rule, s) <= k
    ensures Replaced(rule, s, k) <==> Replaced(rule, s[Stride(rule, s)..], k - Stride(rule, s))
  {
    var d := Stride(rule, s);
    if k == d {
      if d == 2 {
        assert !IsDigit(s[1]);
      }
    } else if k < |s| {
      assert s[d..][k - d - 1..] == s[k - 1..];
    }
  }

  lemma {:induction false} RewrittenShift(rule: Rule, s: string, i: nat)
    requires s != [] && Stride(rule, s) <= i <= |s|
    ensures Rewritten(rule, s, i) == Rewritten(rule, s[Stride(rule, s)..], i - Stride(rule, s))
    decreases |s| - i
  {
    var d := Stride(rule, s);
    if i < |s| {
      var t, j := s[d..], i - d;
      RewrittenShift(rule, s, i + 1);
      assert i + 1 - d == j + 1;
      ReplacedShift(rule, s, i);
      assert t[j] == s[i];
      RewrittenCons(rule, s, i);
      RewrittenCons(rule, t, j);
    }
  }

  /** One position of the reference rewriting. */
  lemma RewrittenCons(rule: Rule, s: string, i: nat)
    requires i < |s|
    ensures Rewritten(rule, s, i)
         == (if Replaced(rule, s, i) then Replacement(rule) else [s[i]]) + Rewritten(rule, s, i + 1)
  {
  }

  /** Each pass is the reference rewriting: exactly the separators its
      pattern matches around are replaced (deleted, or turned into `.`), and
      every other character is copied in place. */
  lemma {:induction false} ApplyIsRewritten(rule: Rule, s: string)
    ensures Apply(rule, s) == Rewritten(rule, s, 0)
    decreases |s|
  {
    if s != [] {
      var d := Stride(rule, s);
      ApplyIsRewritten(rule, s[d..]);
      RewrittenShift(rule, s, d);
      assert s[0..] == s;
      assert !Replaced(rule, s, 0);
      if d == 2 {
        assert Replaced(rule, s, 1) by {
          assert s[0..] == s;
        }
        assert Rewritten(rule, s, 0) == [s[0]] + (Replacement(rule) + Rewritten(rule, s, 2));
      }
    }
  }

  /** A replaced position is a separator with a digit on each side; the comma
      passes replace only commas. */
  lemma ReplacedIsBetweenDigits(rule: Rule, s: string, k: int)
    requires Replaced(rule, s, k)
    ensures SeparatorBetweenDigits(s, k)
    ensures rule != GroupSeparator ==> s[k] == ','
  {
    MatchIsBetweenDigits(rule, s, k - 1);
  }

  lemma {:induction false} RewrittenDecimalAt(s: string, i: nat)
    requires i <= |s|
    ensures |Rewritten(DecimalComma, s, i)| == |s| - i
    ensures forall k :: i <= k < |s| ==>
      Rewritten(DecimalComma, s, i)[k - i] == if Replaced(DecimalComma, s, k) then '.' else s[k]
    decreases |s| - i
  {
    if i < |s| {
      RewrittenDecimalAt(s, i + 1);
    }
  }

  /** The decimal-comma pass keeps the length and turns exactly the commas it
      matches into `.`, position by position. */
  lemma ApplyDecimalCommaAt(s: string)
    ensures |Apply(DecimalComma, s)| == |s|
    ensures forall k :: 0 <= k < |s| ==>
      Apply(DecimalComma, s)[k] == if Replaced(DecimalComma, s, k) then '.' else s[k]
  {
    ApplyIsRewritten(DecimalComma, s);
    RewrittenDecimalAt(s, 0);
  }

  /** The standardiser changes the text if and only if some whitespace, `.` or
      `,` lies between two digits. */
  lemma StandardizeFixedIff(s: string)
    ensures Standardize(s) == s <==> !exists i :: SeparatorBetweenDigits(s, i)
  {
    var s1 := Apply(GroupSeparator, s);
    var s2 := Apply(ThousandsComma, s1);
    ApplyLength(GroupSeparator, s);
    ApplyLength(ThousandsComma, s1);
    ApplyLength(DecimalComma, s2);
    ApplyFixedIff(GroupSeparator, s);
    if exists i :: SeparatorBetweenDigits(s, i) {
      var i :| SeparatorBetweenDigits(s, i);
      if s[i] != ',' {
        assert MatchesAt(GroupSeparator, s[i - 1..]);
      } else if s1 == s {
        ApplyFixedIff(ThousandsComma, s);
        if s2 == s {
          assert MatchesAt(DecimalComma, s[i - 1..]);
          ApplyFixedIff(DecimalComma, s);
        }
      }
    } else {
      forall rule: Rule, i | 0 <= i < |s| && MatchesAt(rule, s[i..])
        ensures false
      {
        MatchIsBetweenDigits(rule, s, i);
      }
      ApplyFixedIff(ThousandsComma, s);
      ApplyFixedIff(DecimalComma, s);
    }
  }

  /** The standardiser never alters, adds or reorders anything but separators;
      in particular the digits come out exactly as they went in. */
  lemma StandardizeKeepsNonSeparators(s: string)
    ensures NonSeparators(Standardize(s)) == NonSeparators(s)
    ensures Digits(Standardize(s)) == Digits(s)
  {
    var s1 := Apply(GroupSeparator, s);
    var s2 := Apply(ThousandsComma, s1);
    ApplyKeepsNonSeparators(GroupSeparator, s);
    ApplyKeepsNonSeparators(ThousandsComma, s1);
    ApplyKeepsNonSeparators(DecimalComma, s2);
    DigitsOfNonSeparators(s);
    DigitsOfNonSeparators(Standardize(s));
  }

  lemma {:induction false} DigitsOfNonSeparators(s: string)
    ensures Digits(NonSeparators(s)) == Digits(s)
  {
    if s != [] {
      DigitsOfNonSeparators(s[1..]);
      DigitsAppend(if IsSeparator(s[0]) then [] else [s[0]], NonSeparators(s[1..]));
    }
  }

  /** A string of digits alone, or of no digits at all, is left as it is. */
  lemma StandardizeFixesDigitsOrLetters(s: string)
    requires AllDigits(s) || forall i :: 0 <= i < |s| ==> !IsDigit(s[i])
    ensures Standardize(s) == s
  {
    StandardizeFixedIff(s);
  }

  /** A string of digits alone is left as it is. */
  lemma StandardizeDigitsExample()
    ensures Standardize("1234567890") == "1234567890"
  {
    assert AllDigits("1234567890");
    StandardizeFixesDigitsOrLetters("1234567890");
  }

  /** A string of letters alone is left as it is. */
  lemma StandardizeLettersExample()
    ensures Standardize("abcdefghij") == "abcdefghij"
  {
    StandardizeFixesDigitsOrLetters("abcdefghij");
  }

  /** Digit groups joined by one separator character. */
  function Join(groups: seq<string>, sep: char): string
    requires |groups| > 0
  {
    if |groups| == 1 then groups[0] else groups[0] + [sep] + Join(groups[1..], sep)
  }

  function Concat(groups: seq<string>): string {
    if groups == [] then [] else groups[0] + Concat(groups[1..])
  }

  predicate DigitGroups(groups: seq<string>) {
    forall i :: 0 <= i < |groups| ==> |groups[i]| > 0 && AllDigits(groups[i])
  }

  /** A separator is never a digit, so no rule matches where a digit follows
      the first character. */
  lemma NoMatchBeforeDigit(rule: Rule, s: string)
    requires |s| >= 2 && IsDigit(s[1])
    ensures !MatchesAt(rule, s)
  {
    assert !IsRuleSeparator(rule, s[1]);
  }

  /** No rule changes a run of digits. */
  lemma ApplyFixesDigits(rule: Rule, d: string)
    requires AllDigits(d)
    ensures Apply(rule, d) == d
  {
    forall i | 0 <= i < |d|
      ensures !MatchesAt(rule, d[i..])
    {
      if |d[i..]| >= 2 {
        NoMatchBeforeDigit(rule, d[i..]);
      }
    }
    ApplyFixedIff(rule, d);
  }

  lemma {:induction false} ConcatDigits(groups: seq<string>)
    requires DigitGroups(groups)
    ensures AllDigits(Concat(groups)) && (|groups| > 0 ==> |Concat(groups)| > 0)
  {
    if groups != [] {
      ConcatDigits(groups[1..]);
      var c := Concat(groups);
      assert c == groups[0] + Concat(groups[1..]);
      forall i | 0 <= i < |c| ensures IsDigit(c[i]) {
        if i >= |groups[0]| {
          assert c[i] == Concat(groups[1..])[i - |groups[0]|];
        }
      }
    }
  }

  /** The first pass joins digit groups separated by single whitespace or `.`
      characters into one run. */
  lemma {:induction false} GroupSeparatorJoins(groups: seq<string>, sep: char)
    requires |groups| > 0 && DigitGroups(groups)
    requires IsSpace(sep) || sep == '.'
    ensures Apply(GroupSeparator, Join(groups, sep)) == Concat(groups)
    ensures |Join(groups, sep)| > 0 && IsDigit(Join(groups, sep)[0])
  {
    var g := groups[0];
    if |groups| == 1 {
      assert Concat(groups) == g + Concat([]);
      ApplyFixesDigits(GroupSeparator, g);
    } else {
      var rest := Join(groups[1..], sep);
      GroupSeparatorJoins(groups[1..], sep);
      assert Join(groups, sep) == g + [sep] + rest;
      assert Concat(groups) == g + Concat(groups[1..]);
      SeparatorJoins(g, sep, rest);
    }
  }

  /** One separator between two runs of digits is removed. */
  lemma {:induction false} SeparatorJoins(g: string, sep: char, rest: string)
    requires |g| > 0 && AllDigits(g)
    requires IsSpace(sep) || sep == '.'
    requires |rest| > 0 && IsDigit(rest[0])
    ensures Apply(GroupSeparator, g + [sep] + rest) == g + Apply(GroupSeparator, rest)
    decreases |g|
  {
    var s := g + [sep] + rest;
    if |g| == 1 {
      assert MatchesAt(GroupSeparator, s);
      assert s[2..] == rest;
    } else {
      assert s[1] == g[1];
      NoMatchBeforeDigit(GroupSeparator, s);
      assert s[1..] == g[1..] + [sep] + rest;
      SeparatorJoins(g[1..], sep, rest);
      assert g == [g[0]] + g[1..];
    }
  }

  /** Digit groups separated by single whitespace or `.` characters come out as
      one run of digits: `12 345 67890` becomes `1234567890`, and an existing
      decimal point is collapsed too, `10.50` becoming `1050`. */
  lemma StandardizeJoinsGroups(groups: seq<string>, sep: char)
    requires |groups| > 0 && DigitGroups(groups)
    requires IsSpace(sep) || sep == '.'
    ensures Standardize(Join(groups, sep)) == Concat(groups)
  {
    GroupSeparatorJoins(groups, sep);
    var c := Concat(groups);
    ConcatDigits(groups);
    ApplyFixesDigits(ThousandsComma, c);
    ApplyFixesDigits(DecimalComma, c);
  }

  lemma StandardizeSpacedExample(s: string)
    requires s == "12 345 67890"
    ensures Standardize(s) == "1234567890"
  {
    var groups := ["12", "345", "67890"];
    assert DigitGroups(groups);
    assert Join(groups, ' ') == s;
    assert Concat(groups) == "1234567890";
    StandardizeJoinsGroups(groups, ' ');
  }

  lemma StandardizeDecimalPointExample()
    ensures Standardize("10.50") == "1050"
  {
    var groups := ["10", "50"];
    assert DigitGroups(groups);
    StandardizeJoinsGroups(groups, '.');
    assert Join(groups, '.') == "10.50";
    assert Concat(groups) == "1050";
  }
}
