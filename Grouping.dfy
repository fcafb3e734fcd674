/** swiss_number_format: one `re.sub` that follows every digit whose run goes
    on for a positive multiple of three digits with the replacement template's
    separator. */
module Grouping {
  import opened Chars

  /** The separator the template `\1\'` writes. Python's template parser
      expands only `\1`; the unknown escape `\'` is kept as it is, so the
      separator is two characters: a backslash, then an apostrophe. */
  const Mark: string := "\\'"

  /** The lookahead `(?=(\d{3})+(?!\d))` holds at the start of `t`: the run of
      digits that starts there has a positive length divisible by three. */
  predicate GroupBoundary(t: string) {
    var n := LeadingDigits(t);
    n > 0 && n % 3 == 0
  }

  /** The substitution. Each match is a single digit, so scanning moves one
      character at a time; the separator follows every digit whose remaining
      run is a positive multiple of three digits long. */
  function Group(s: string): string {
    if s == [] then []
    else [s[0]] + (if IsDigit(s[0]) && GroupBoundary(s[1..]) then Mark else "") + Group(s[1..])
  }

  /** The reference grouping of one number: chunks of three digits counted from
      the right, joined by the separator. */
  function GroupNumber(d: string): string
    decreases |d|
  {
    if |d| <= 3 then d else GroupNumber(d[..|d| - 3]) + Mark + d[|d| - 3..]
  }

  /** The reference grouping of a whole text: each maximal run of digits is
      replaced by its grouping, everything else is kept. */
  function GroupRuns(s: string): string
    decreases |s|
  {
    if s == [] then []
    else if IsDigit(s[0]) then
      var n := LeadingDigits(s);
      GroupNumber(s[..n]) + GroupRuns(s[n..])
    else [s[0]] + GroupRuns(s[1..])
  }

  /** GroupNumber, peeled from the left: the first digit is followed by the
      separator exactly when the digits after it are a positive multiple of
      three. */
  lemma {:induction false} GroupNumberCons(d: string)
    requires |d| > 0
    ensures GroupNumber(d)
         == [d[0]] + (if |d| > 1 && (|d| - 1) % 3 == 0 then Mark else "") + GroupNumber(d[1..])
    decreases |d|
  {
    var n := |d|;
    if n <= 3 {
      assert d == [d[0]] + d[1..];
    } else if n == 4 {
      assert d[..1] == [d[0]];
      assert d[1..][..0] == [] && d[1..][0..] == d[1..];
      assert d[n - 3..] == d[1..];
    } else {
      var front := d[..n - 3];
      var m := if (n - 1) % 3 == 0 then Mark else "";
      var g := GroupNumber(front[1..]);
      assert GroupNumber(front) == [d[0]] + m + g by {
        GroupNumberCons(front);
        assert (n - 4) % 3 == (n - 1) % 3;
      }
      assert GroupNumber(d[1..]) == g + Mark + d[n - 3..] by {
        assert front[1..] == d[1..][..n - 4];
        assert d[1..][n - 4..] == d[n - 3..];
      }
      RegroupMark([d[0]] + m, g, d[n - 3..]);
    }
  }

  lemma RegroupMark(x: string, g: string, last: string)
    ensures x + g + Mark + last == x + (g + Mark + last)
  {
  }

  /** On a run of digits followed by a non-digit, the substitution produces the
      reference grouping of the run. */
  lemma {:induction false} GroupOfRun(d: string, t: string)
    requires AllDigits(d)
    requires t == [] || !IsDigit(t[0])
    ensures Group(d + t) == GroupNumber(d) + Group(t)
    decreases |d|
  {
    if d == [] {
      assert d + t == t;
    } else {
      var m := if |d| > 1 && (|d| - 1) % 3 == 0 then Mark else "";
      GroupRunStep(d, t);
      GroupOfRun(d[1..], t);
      GroupNumberCons(d);
      Regroup([d[0]] + m, GroupNumber(d[1..]), Group(t));
    }
  }

  /** The first digit of a run gets the separator exactly when the rest of the
      run is a positive multiple of three digits long. */
  lemma GroupRunStep(d: string, t: string)
    requires d != [] && AllDigits(d)
    requires t == [] || !IsDigit(t[0])
    ensures Group(d + t)
         == [d[0]] + (if |d| > 1 && (|d| - 1) % 3 == 0 then Mark else "") + Group(d[1..] + t)
  {
    assert (d + t)[1..] == d[1..] + t;
    LeadingDigitsOfRun(d[1..], t);
  }

  /** The substitution agrees with the reference on every text. */
  lemma {:induction false} GroupIsGroupRuns(s: string)
    ensures Group(s) == GroupRuns(s)
    decreases |s|
  {
    if s != [] {
      if IsDigit(s[0]) {
        var n := LeadingDigits(s);
        assert s == s[..n] + s[n..];
        GroupOfRun(s[..n], s[n..]);
        GroupIsGroupRuns(s[n..]);
      } else {
        GroupIsGroupRuns(s[1..]);
      }
    }
  }

  /** A plain number is grouped by threes from the right. */
  lemma GroupPlainNumber(d: string)
    requires AllDigits(d)
    ensures Group(d) == GroupNumber(d)
  {
    GroupOfRun(d, []);
    assert d + [] == d;
  }

  /** Every run of digits in `s` has at most three digits. */
  predicate ShortRuns(s: string)
    decreases |s|
  {
    s == [] || (LeadingDigits(s) <= 3 && ShortRuns(s[1..]))
  }

  /** The run at the start of the output is the last, possibly short, group of
      the run at the start of the input. */
  lemma {:induction false} LeadingDigitsOfGroup(s: string)
    ensures LeadingDigits(Group(s)) == LastGroupSize(LeadingDigits(s))
    decreases |s|
  {
    if s != [] {
      GroupLead(s);
      if IsDigit(s[0]) && !GroupBoundary(s[1..]) {
        LeadingDigitsOfGroup(s[1..]);
        LastGroupSizeStep(LeadingDigits(s[1..]));
      }
    }
  }

  /** The run at the start of the output, one step of the substitution at a
      time: a non-digit ends it, the separator ends it after one digit. */
  lemma GroupLead(s: string)
    requires s != []
    ensures LeadingDigits(Group(s))
         == if !IsDigit(s[0]) then 0
            else if GroupBoundary(s[1..]) then 1
            else 1 + LeadingDigits(Group(s[1..]))
  {
    var g := Group(s[1..]);
    if IsDigit(s[0]) && GroupBoundary(s[1..]) {
      assert Group(s) == [s[0]] + (['\\'] + ("'" + g));
      LeadingDigitsCons(s[0], ['\\'] + ("'" + g));
      LeadingDigitsCons('\\', "'" + g);
    } else {
      assert Group(s) == [s[0]] + g;
      LeadingDigitsCons(s[0], g);
    }
  }

  /** The size of the leftmost group when a run of n digits is grouped. */
  function LastGroupSize(n: nat): nat {
    if n == 0 then 0 else (n - 1) % 3 + 1
  }

  lemma LastGroupSizeStep(k: nat)
    requires !(k > 0 && k % 3 == 0)
    ensures LastGroupSize(k + 1) == 1 + LastGroupSize(k)
  {
  }

  lemma LeadingDigitsCons(c: char, t: string)
    ensures LeadingDigits([c] + t) == if IsDigit(c) then 1 + LeadingDigits(t) else 0
  {
    assert ([c] + t)[1..] == t;
  }

  /** No run of digits in the output is longer than three. */
  lemma {:induction false} GroupHasShortRuns(s: string)
    ensures ShortRuns(Group(s))
    decreases |s|
  {
    if s != [] {
      var m := if IsDigit(s[0]) && GroupBoundary(s[1..]) then Mark else "";
      GroupHasShortRuns(s[1..]);
      LeadingDigitsOfGroup(s);
      GroupTail(s);
      if m != "" {
        ShortRunsAfterMark(Group(s[1..]));
      }
    }
  }

  /** The output after its first character: the separator, if any, and the
      output for the rest. */
  lemma GroupTail(s: string)
    requires s != []
    ensures Group(s)[1..] == (if IsDigit(s[0]) && GroupBoundary(s[1..]) then Mark else "") + Group(s[1..])
  {
  }

  lemma ShortRunsAfterMark(g: string)
    requires ShortRuns(g)
    ensures ShortRuns(Mark + g)
  {
    assert (Mark + g)[1..] == "'" + g;
    assert ("'" + g)[1..] == g;
  }

  /** A text whose runs are at most three digits long is left as it is. */
  lemma {:induction false} GroupFixesShortRuns(s: string)
    requires ShortRuns(s)
    ensures Group(s) == s
    decreases |s|
  {
    if s != [] {
      GroupFixesShortRuns(s[1..]);
      assert s == [s[0]] + s[1..];
    }
  }

  /** Grouping twice is grouping once. */
  lemma GroupIdempotent(s: string)
    ensures Group(Group(s)) == Group(s)
  {
    GroupHasShortRuns(s);
    GroupFixesShortRuns(Group(s));
  }

  /** `s` with every backslash-apostrophe pair dropped, read from the left. */
  function Unmarked(s: string): string
    decreases |s|
  {
    if |s| >= 2 && s[0] == '\\' && s[1] == '\'' then Unmarked(s[2..])
    else if s == [] then []
    else [s[0]] + Unmarked(s[1..])
  }

  /** Grouping only inserts separators: dropping the backslash-apostrophe
      pairs gives back the input with its own pairs dropped, and the input
      itself when it had no backslash. */
  lemma {:induction false} GroupOnlyInsertsMarks(s: string)
    ensures Unmarked(Group(s)) == Unmarked(s)
    ensures '\\' !in s ==> Unmarked(Group(s)) == s
    decreases |s|
  {
    if s != [] {
      var m := if IsDigit(s[0]) && GroupBoundary(s[1..]) then Mark else "";
      var g := Group(s[1..]);
      assert Group(s) == [s[0]] + (m + g);
      if |s| >= 2 && s[0] == '\\' && s[1] == '\'' {
        GroupOnlyInsertsMarks(s[2..]);
        GroupTail(s[1..]);
        GroupHead(s[1..]);
        assert Group(s)[2..] == Group(s[2..]);
      } else {
        GroupOnlyInsertsMarks(s[1..]);
        if m == "" && |s| >= 2 {
          GroupHead(s[1..]);
        }
        assert Unmarked(Group(s)) == [s[0]] + Unmarked(m + g);
        assert Unmarked(m + g) == Unmarked(g);
        if '\\' !in s {
          assert '\\' !in s[1..];
          assert s == [s[0]] + s[1..];
        }
      }
    }
  }

  /** The output starts with the input's first character. */
  lemma GroupHead(s: string)
    requires s != []
    ensures |Group(s)| > 0 && Group(s)[0] == s[0]
  {
  }

  lemma GroupShortNumberExample()
    ensures Group("123") == "123"
  {
    assert ShortRuns("123");
    GroupFixesShortRuns("123");
  }

  lemma GroupGroupedNumberExample()
    ensures Group("1'234") == "1'234"
  {
    assert ShortRuns("1'234");
    GroupFixesShortRuns("1'234");
  }

  lemma GroupNumberExample()
    ensures GroupNumber("1234567890") == "1\\'234\\'567\\'890"
  {
    var d := "1234567890";
    assert d[..4] == "1234";
    assert d[..4][..1] == "1";
    assert d[..4][1..] == "234";
    assert GroupNumber(d[..4]) == "1\\'234";
    assert d[..7][..4] == d[..4];
    assert d[..7][4..] == "567";
    assert GroupNumber(d[..7]) == "1\\'234\\'567";
    assert d[..7] == d[..|d| - 3];
    assert d[7..] == "890";
  }

  lemma GroupLongNumberExample()
    ensures Group("1234567890") == "1\\'234\\'567\\'890"
  {
    assert AllDigits("1234567890");
    GroupPlainNumber("1234567890");
    GroupNumberExample();
  }
}
