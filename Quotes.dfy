/** replace_quotes: `re.sub(r'“(.+?)”', r'«\1»', text)`. */
module Quotes {
  import opened Chars

  const Open: char := '\U{201C}'
  const Close: char := '\U{201D}'
  const OpenGuillemet: char := '\U{AB}'
  const CloseGuillemet: char := '\U{BB}'

  /** Where the non-greedy `.+?` followed by `”` stops, searching `t` (the text
      after the first enclosed character): the first `”` with no line feed
      before it, since `.` matches anything but a line feed. */
  function CloseAt(t: string): (r: Option<nat>)
    ensures r.Some? ==> r.value < |t| && t[r.value] == Close
    ensures r.Some? ==> forall k :: 0 <= k < r.value ==> t[k] != Close && t[k] != '\n'
    ensures r.None? ==> forall j :: 0 <= j < |t| && t[j] == Close ==> '\n' in t[..j]
  {
    if t == [] || t[0] == '\n' then None
    else if t[0] == Close then Some(0)
    else match CloseAt(t[1..])
      case None => (NewlineBeforeClose(t); None)
      case Some(j) => Some(j + 1)
  }

  /** A line feed before every closing quote of `t[1..]` is one before every
      closing quote of `t` after its first character. */
  lemma NewlineBeforeClose(t: string)
    requires t != []
    requires forall j :: 0 <= j < |t[1..]| && t[1..][j] == Close ==> '\n' in t[1..][..j]
    ensures forall j :: 1 <= j < |t| && t[j] == Close ==> '\n' in t[..j]
  {
    forall j | 1 <= j < |t| && t[j] == Close
      ensures '\n' in t[..j]
    {
      assert t[1..][j - 1] == Close;
      var k :| 0 <= k < j - 1 && t[1..][..j - 1][k] == '\n';
      assert t[..j][k + 1] == '\n';
    }
  }

  /** A match of the pattern starts at the beginning of `s`: an opening quote,
      one enclosed character that is not a line feed, and a closing quote later
      on the same line. */
  predicate PairAt(s: string) {
    |s| >= 2 && s[0] == Open && s[1] != '\n' && CloseAt(s[2..]).Some?
  }

  /** The index of the closing quote of the match at the start of `s`. */
  function PairEnd(s: string): (j: nat)
    requires PairAt(s)
    ensures 2 <= j < |s| && s[j] == Close
  {
    2 + CloseAt(s[2..]).value
  }

  /** The substitution: the scan moves one character at a time until a match,
      writes the guillemets around the enclosed text and resumes after the
      closing quote. */
  function Quote(s: string): string
    decreases |s|
  {
    if s == [] then []
    else if PairAt(s) then
      var j := PairEnd(s);
      [OpenGuillemet] + s[1..j] + [CloseGuillemet] + Quote(s[j + 1..])
    else [s[0]] + Quote(s[1..])
  }

  /** The change at one position: a quote turned into the guillemet of the same
      side, or nothing. */
  predicate Kept(c: char, d: char) {
    d == c || (c == Open && d == OpenGuillemet) || (c == Close && d == CloseGuillemet)
  }

  /** The substitution keeps the length and changes a character only by turning
      a curly quote into the matching guillemet. */
  lemma {:induction false} QuoteKeepsText(s: string)
    ensures |Quote(s)| == |s|
    ensures forall k :: 0 <= k < |s| ==> Kept(s[k], Quote(s)[k])
    decreases |s|
  {
    if s != [] {
      if PairAt(s) {
        QuoteKeepsText(s[PairEnd(s) + 1..]);
        PairKept(s);
      } else {
        QuoteKeepsText(s[1..]);
        CopyKept(s);
      }
    }
  }

  /** `r` is `s` with at most some quotes turned into guillemets. */
  predicate KeptAll(s: string, r: string) {
    |r| == |s| && forall k :: 0 <= k < |s| ==> Kept(s[k], r[k])
  }

  /** A converted pair keeps the text when the rest of the conversion does. */
  lemma PairKept(s: string)
    requires PairAt(s)
    requires KeptAll(s[PairEnd(s) + 1..], Quote(s[PairEnd(s) + 1..]))
    ensures KeptAll(s, Quote(s))
  {
    var j := PairEnd(s);
    SegmentsKept(s, j, Quote(s[j + 1..]));
  }

  /** Guillemets in place of the quotes at 0 and j, the text between them
      copied, and a kept rest. */
  lemma SegmentsKept(s: string, j: nat, q: string)
    requires 2 <= j < |s| && s[0] == Open && s[j] == Close
    requires KeptAll(s[j + 1..], q)
    ensures KeptAll(s, [OpenGuillemet] + s[1..j] + [CloseGuillemet] + q)
  {
    var r := [OpenGuillemet] + s[1..j] + [CloseGuillemet] + q;
    forall k | 0 <= k < |s|
      ensures Kept(s[k], r[k])
    {
      if k == 0 {
      } else if k < j {
        assert r[k] == s[1..j][k - 1];
      } else if k == j {
      } else {
        assert r[k] == q[k - j - 1];
        assert s[k] == s[j + 1..][k - j - 1];
      }
    }
  }

  /** A copied character keeps the text when the rest of the conversion
      does. */
  lemma CopyKept(s: string)
    requires s != [] && !PairAt(s)
    requires KeptAll(s[1..], Quote(s[1..]))
    ensures KeptAll(s, Quote(s))
  {
    var r := Quote(s);
    assert r == [s[0]] + Quote(s[1..]);
    forall k | 0 <= k < |s|
      ensures Kept(s[k], r[k])
    {
      if k > 0 {
        assert r[k] == Quote(s[1..])[k - 1];
        assert s[k] == s[1..][k - 1];
      }
    }
  }

  /** Undoes the substitution character by character. */
  function Unguillemet(s: string): (r: string)
    ensures |r| == |s|
  {
    if s == [] then []
    else
      var c := if s[0] == OpenGuillemet then Open else if s[0] == CloseGuillemet then Close else s[0];
      [c] + Unguillemet(s[1..])
  }

  lemma {:induction false} UnguillemetAt(s: string, k: nat)
    requires k < |s|
    ensures Unguillemet(s)[k]
         == if s[k] == OpenGuillemet then Open else if s[k] == CloseGuillemet then Close else s[k]
    decreases k
  {
    if k > 0 {
      UnguillemetAt(s[1..], k - 1);
    }
  }

  /** On a text without guillemets, turning the guillemets back into quotes
      recovers the input: the substitution loses nothing. */
  lemma QuoteRoundTrip(s: string)
    requires OpenGuillemet !in s && CloseGuillemet !in s
    ensures Unguillemet(Quote(s)) == s
  {
    var r := Quote(s);
    QuoteKeepsText(s);
    forall k | 0 <= k < |s|
      ensures Unguillemet(r)[k] == s[k]
    {
      UnguillemetAt(r, k);
    }
  }

  /** A pair that can be matched somewhere in `s`. */
  predicate HasPair(s: string) {
    exists i :: 0 <= i < |s| && PairAt(s[i..])
  }

  /** A pair occurs in a non-empty text when it starts at its first character
      or occurs in the rest. */
  lemma HasPairCons(s: string)
    requires s != []
    ensures HasPair(s) <==> PairAt(s) || HasPair(s[1..])
  {
    if HasPair(s) && !PairAt(s) {
      var i :| 0 <= i < |s| && PairAt(s[i..]);
      assert s[1..][i - 1..] == s[i..];
    }
    if HasPair(s[1..]) {
      var i :| 0 <= i < |s[1..]| && PairAt(s[1..][i..]);
      assert s[1..][i..] == s[i + 1..];
    }
    if PairAt(s) {
      assert s[0..] == s;
    }
  }

  /** The substitution changes the text exactly when some pair can be
      matched. */
  lemma {:induction false} QuoteFixedIff(s: string)
    ensures Quote(s) == s <==> !HasPair(s)
    decreases |s|
  {
    if s != [] {
      HasPairCons(s);
      if PairAt(s) {
        assert Quote(s)[0] == OpenGuillemet;
      } else {
        QuoteFixedIff(s[1..]);
        var r := Quote(s[1..]);
        assert Quote(s) == [s[0]] + r;
        assert s == [s[0]] + s[1..];
        assert Quote(s) == s <==> r == s[1..];
      }
    }
  }

  /** Every guillemet the substitution adds has a partner: it adds as many
      opening as closing guillemets. */
  lemma {:induction false} QuoteBalanced(s: string)
    ensures Count(Quote(s), OpenGuillemet) - Count(s, OpenGuillemet)
         == Count(Quote(s), CloseGuillemet) - Count(s, CloseGuillemet)
    decreases |s|
  {
    if s != [] {
      if PairAt(s) {
        QuoteBalanced(s[PairEnd(s) + 1..]);
        SingleCount(OpenGuillemet);
        SingleCount(CloseGuillemet);
        SingleCount(s[0]);
        SingleCount(s[PairEnd(s)]);
        PairCounts(s, OpenGuillemet);
        PairCounts(s, CloseGuillemet);
      } else {
        QuoteBalanced(s[1..]);
        assert s == [s[0]] + s[1..];
        CountAppend([s[0]], s[1..], OpenGuillemet);
        CountAppend([s[0]], s[1..], CloseGuillemet);
        CountAppend([s[0]], Quote(s[1..]), OpenGuillemet);
        CountAppend([s[0]], Quote(s[1..]), CloseGuillemet);
      }
    }
  }

  /** The counts of one character across a rewritten pair and the rest. */
  lemma PairCounts(s: string, c: char)
    requires s != [] && PairAt(s)
    ensures var j := PairEnd(s);
      && Count(Quote(s), c)
         == Count([OpenGuillemet], c) + Count(s[1..j], c) + Count([CloseGuillemet], c) + Count(Quote(s[j + 1..]), c)
      && Count(s, c) == Count([s[0]], c) + Count(s[1..j], c) + Count([s[j]], c) + Count(s[j + 1..], c)
  {
    var j := PairEnd(s);
    var mid, rest := s[1..j], s[j + 1..];
    assert s[..j] == [s[0]] + mid;
    assert s[..j + 1] == s[..j] + [s[j]];
    assert s == s[..j + 1] + rest;
    assert Quote(s) == [OpenGuillemet] + mid + [CloseGuillemet] + Quote(rest);
    CountAppend([OpenGuillemet] + mid + [CloseGuillemet], Quote(rest), c);
    CountAppend([OpenGuillemet] + mid, [CloseGuillemet], c);
    CountAppend([OpenGuillemet], mid, c);
    CountAppend([s[0]] + mid + [s[j]], rest, c);
    CountAppend([s[0]] + mid, [s[j]], c);
    CountAppend([s[0]], mid, c);
  }

  lemma SingleCount(c: char)
    ensures forall d :: Count([c], d) == if c == d then 1 else 0
  {
    forall d
      ensures Count([c], d) == if c == d then 1 else 0
    {
      assert [c][1..] == [];
    }
  }

  /** Non-greedy matching converts successive spans independently: a quoted
      span followed by the rest of the text becomes its guillemet form followed
      by the conversion of the rest. */
  lemma QuoteSpan(body: string, rest: string)
    requires Span(body)
    ensures Quote([Open] + body + [Close] + rest) == [OpenGuillemet] + body + [CloseGuillemet] + Quote(rest)
  {
    var s := [Open] + body + [Close] + rest;
    var t := s[2..];
    assert t == body[1..] + [Close] + rest;
    CloseOfSpan(body[1..], rest);
    assert PairAt(s);
    assert PairEnd(s) == |body| + 1;
    assert s[1..|body| + 1] == body;
    assert s[|body| + 2..] == rest;
  }

  lemma {:induction false} CloseOfSpan(u: string, rest: string)
    requires forall k :: 0 <= k < |u| ==> u[k] != Close && u[k] != '\n'
    ensures CloseAt(u + [Close] + rest) == Some(|u|)
    decreases |u|
  {
    if u != [] {
      assert (u + [Close] + rest)[1..] == u[1..] + [Close] + rest;
      CloseOfSpan(u[1..], rest);
    }
  }

  /** A text with no curly opening quote is left as it is. */
  lemma {:induction false} QuoteWithoutOpen(s: string)
    requires Open !in s
    ensures Quote(s) == s
    decreases |s|
  {
    if s != [] {
      QuoteWithoutOpen(s[1..]);
      assert s == [s[0]] + s[1..];
    }
  }

  /** A span enclosed by curly quotes, as the non-greedy pattern reads it. */
  predicate Span(body: string) {
    && body != [] && body[0] != '\n'
    && forall k :: 1 <= k < |body| ==> body[k] != Close && body[k] != '\n'
  }

  /** Two quoted spans separated by unquoted text are converted independently. */
  lemma TwoSpans(a: string, plain: string, b: string)
    requires Span(a) && Span(b) && Open !in plain
    ensures Quote([Open] + a + [Close] + plain + [Open] + b + [Close])
         == [OpenGuillemet] + a + [CloseGuillemet] + plain + [OpenGuillemet] + b + [CloseGuillemet]
  {
    var tail := plain + [Open] + b + [Close];
    QuoteSpan(b, []);
    assert [Open] + b + [Close] + [] == [Open] + b + [Close];
    QuoteSpanAfter(plain, b);
    QuoteSpan(a, tail);
    assert [Open] + a + [Close] + tail == [Open] + a + [Close] + plain + [Open] + b + [Close];
    assert [OpenGuillemet] + a + [CloseGuillemet] + (plain + [OpenGuillemet] + b + [CloseGuillemet])
        == [OpenGuillemet] + a + [CloseGuillemet] + plain + [OpenGuillemet] + b + [CloseGuillemet];
  }

  /** Two quoted words on one line become two guillemet spans. */
  lemma TwoSpansExample()
    ensures Quote("\U{201C}a\U{201D} und \U{201C}b\U{201D}") == "\U{AB}a\U{BB} und \U{AB}b\U{BB}"
  {
    var a, plain, b := "a", " und ", "b";
    assert Quote([Open] + a + [Close] + plain + [Open] + b + [Close])
        == [OpenGuillemet] + a + [CloseGuillemet] + plain + [OpenGuillemet] + b + [CloseGuillemet] by {
      assert Span(a) && Span(b) && Open !in plain;
      TwoSpans(a, plain, b);
    }
    assert [Open] + a + [Close] + plain + [Open] + b + [Close] == "\U{201C}a\U{201D} und \U{201C}b\U{201D}";
    assert [OpenGuillemet] + a + [CloseGuillemet] + plain + [OpenGuillemet] + b + [CloseGuillemet]
        == "\U{AB}a\U{BB} und \U{AB}b\U{BB}";
  }

  lemma {:induction false} QuoteSpanAfter(plain: string, body: string)
    requires Open !in plain
    requires Quote([Open] + body + [Close]) == [OpenGuillemet] + body + [CloseGuillemet]
    ensures Quote(plain + [Open] + body + [Close]) == plain + [OpenGuillemet] + body + [CloseGuillemet]
    decreases |plain|
  {
    if plain != [] {
      var s := plain + [Open] + body + [Close];
      assert s[1..] == plain[1..] + [Open] + body + [Close];
      QuoteSpanAfter(plain[1..], body);
      assert s[0] == plain[0] != Open;
    } else {
      assert plain + [Open] + body + [Close] == [Open] + body + [Close];
    }
  }

  /** A quote left open on its line is not converted. */
  lemma UnclosedExample()
    ensures Quote("\U{201C}a\n\U{201D}") == "\U{201C}a\n\U{201D}"
  {
    var s := "\U{201C}a\n\U{201D}";
    assert CloseAt(s[2..]) == None;
    assert !PairAt(s);
    assert s[1..] == "a\n\U{201D}";
    QuoteWithoutOpen(s[1..]);
  }
}
