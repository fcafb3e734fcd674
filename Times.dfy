/** format_time: `re.sub(r'(\b\d{2}):(\d{2}\b)', r'\1.\2', text)`. */
module Times {
  import opened Chars

  /** A match of the pattern starts at index i of `s`: two digits, a colon and
      two digits, with a word boundary before the first digit and after the
      last. Since the digits are word characters, each boundary means that the
      neighbouring character is missing or not a word character. No range of
      hours or minutes is checked. */
  predicate TimeAt(s: string, i: nat) {
    && i + 5 <= |s|
    && (i == 0 || !IsWordChar(s[i - 1]))
    && IsDigit(s[i]) && IsDigit(s[i + 1])
    && s[i + 2] == ':'
    && IsDigit(s[i + 3]) && IsDigit(s[i + 4])
    && (i + 5 == |s| || !IsWordChar(s[i + 5]))
  }

  /** The substitution applied to `s[i..]`: the scan moves one character at a
      time and, after a match, resumes after its last digit. The boundary
      before a match looks at `s[i - 1]`, so the whole text is kept. */
  function FormatTimeFrom(s: string, i: nat): (r: string)
    requires i <= |s|
    ensures |r| == |s| - i
    decreases |s| - i
  {
    if i == |s| then []
    else if TimeAt(s, i) then s[i..i + 2] + "." + s[i + 3..i + 5] + FormatTimeFrom(s, i + 5)
    else [s[i]] + FormatTimeFrom(s, i + 1)
  }

  function FormatTime(s: string): (r: string) {
    FormatTimeFrom(s, 0)
  }

  /** The colon at index k is converted: a match starts two characters before
      it, and that match does not overlap the one taken for the colon three
      characters earlier (as in `12:34:56`, where only the first colon is
      converted). */
  predicate Hit(s: string, k: nat)
    decreases k
  {
    k >= 2 && TimeAt(s, k - 2) && (k < 3 || !Hit(s, k - 3))
  }

  /** The scan at index i has not started a match that covers i. */
  predicate InStep(s: string, i: nat) {
    (i < 1 || !Hit(s, i - 1)) && !Hit(s, i) && !Hit(s, i + 1)
  }

  /** `r` is the output of the scan from i: a point at each converted colon,
      the text itself elsewhere. */
  predicate Marks(s: string, i: nat, r: string) {
    i <= |s| && |r| == |s| - i
    && forall k :: i <= k < |s| ==> r[k - i] == if Hit(s, k) then '.' else s[k]
  }

  lemma {:induction false} FormatTimeFromAt(s: string, i: nat)
    requires i <= |s| && InStep(s, i)
    ensures Marks(s, i, FormatTimeFrom(s, i))
    decreases |s| - i
  {
    if i < |s| {
      if TimeAt(s, i) {
        assert Hit(s, i + 2);
        assert !TimeAt(s, i + 1) && !TimeAt(s, i + 2) && !TimeAt(s, i + 4);
        assert !Hit(s, i + 3) && !Hit(s, i + 4) && !Hit(s, i + 5) && !Hit(s, i + 6);
        FormatTimeFromAt(s, i + 5);
        TimeMarks(s, i, FormatTimeFrom(s, i + 5));
      } else {
        assert !Hit(s, i + 2);
        FormatTimeFromAt(s, i + 1);
        CopyMarks(s, i, FormatTimeFrom(s, i + 1));
      }
    }
  }

  /** A converted time followed by the marks of the rest. */
  lemma TimeMarks(s: string, i: nat, rest: string)
    requires TimeAt(s, i) && Hit(s, i + 2)
    requires !Hit(s, i) && !Hit(s, i + 1) && !Hit(s, i + 3) && !Hit(s, i + 4)
    requires Marks(s, i + 5, rest)
    ensures Marks(s, i, s[i..i + 2] + "." + s[i + 3..i + 5] + rest)
  {
    var r := s[i..i + 2] + "." + s[i + 3..i + 5] + rest;
    forall k | i <= k < |s|
      ensures r[k - i] == if Hit(s, k) then '.' else s[k]
    {
      TimeMarksAt(s, i, rest, k);
    }
  }

  lemma TimeMarksAt(s: string, i: nat, rest: string, k: nat)
    requires TimeAt(s, i) && Hit(s, i + 2)
    requires !Hit(s, i) && !Hit(s, i + 1) && !Hit(s, i + 3) && !Hit(s, i + 4)
    requires Marks(s, i + 5, rest) && i <= k < |s|
    ensures (s[i..i + 2] + "." + s[i + 3..i + 5] + rest)[k - i] == if Hit(s, k) then '.' else s[k]
  {
    if k < i + 5 {
      assert Hit(s, k) == (k == i + 2);
      TimeMarksInside(s, i, rest, k);
    } else {
      TimeMarksAfter(s, i, rest, k);
    }
  }

  lemma TimeMarksAfter(s: string, i: nat, rest: string, k: nat)
    requires i + 5 <= k < |s| && Marks(s, i + 5, rest)
    ensures (s[i..i + 2] + "." + s[i + 3..i + 5] + rest)[k - i] == if Hit(s, k) then '.' else s[k]
  {
    MarksAt(s, i + 5, rest, k);
    assert (s[i..i + 2] + "." + s[i + 3..i + 5] + rest)[k - i] == rest[k - (i + 5)];
  }

  lemma TimeMarksInside(s: string, i: nat, rest: string, k: nat)
    requires i + 5 <= |s| && i <= k < i + 5
    ensures (s[i..i + 2] + "." + s[i + 3..i + 5] + rest)[k - i] == if k == i + 2 then '.' else s[k]
  {
    var r := s[i..i + 2] + "." + s[i + 3..i + 5] + rest;
    if k < i + 2 {
      assert r[k - i] == s[i..i + 2][k - i];
    } else if k > i + 2 {
      assert r[k - i] == s[i + 3..i + 5][k - i - 3];
    }
  }

  /** A copied character followed by the marks of the rest. */
  lemma CopyMarks(s: string, i: nat, rest: string)
    requires i < |s| && !Hit(s, i)
    requires Marks(s, i + 1, rest)
    ensures Marks(s, i, [s[i]] + rest)
  {
    forall k | i <= k < |s|
      ensures ([s[i]] + rest)[k - i] == if Hit(s, k) then '.' else s[k]
    {
      CopyMarksAt(s, i, rest, k);
    }
  }

  lemma CopyMarksAt(s: string, i: nat, rest: string, k: nat)
    requires i < |s| && !Hit(s, i)
    requires Marks(s, i + 1, rest) && i <= k < |s|
    ensures ([s[i]] + rest)[k - i] == if Hit(s, k) then '.' else s[k]
  {
    if k > i {
      MarksAt(s, i + 1, rest, k);
      assert ([s[i]] + rest)[k - i] == rest[k - (i + 1)];
    }
  }

  /** Marks at one index. */
  lemma MarksAt(s: string, i: nat, r: string, k: nat)
    requires Marks(s, i, r) && i <= k < |s|
    ensures r[k - i] == if Hit(s, k) then '.' else s[k]
  {
  }

  /** The substitution keeps the length and turns exactly the converted colons
      into points; every other character is unchanged. */
  lemma FormatTimeAt(s: string)
    ensures |FormatTime(s)| == |s|
    ensures forall k :: 0 <= k < |s| ==> FormatTime(s)[k] == if Hit(s, k) then '.' else s[k]
  {
    FormatTimeFromAt(s, 0);
  }

  /** Only colons of times are converted. */
  lemma HitIsTimeColon(s: string, k: nat)
    requires Hit(s, k)
    ensures k < |s| && s[k] == ':' && TimeAt(s, k - 2)
  {
  }

  /** A time whose colon is left alone overlaps a converted one: each time in
      the text has its own colon converted or shares its first digits with the
      last digits of a converted time just before it. */
  lemma TimeConvertedOrShadowed(s: string, i: nat)
    requires TimeAt(s, i)
    ensures Hit(s, i + 2) || (i >= 1 && Hit(s, i - 1))
  {
  }

  /** The substitution changes the text exactly when it contains a time. */
  lemma FormatTimeFixedIff(s: string)
    ensures FormatTime(s) == s <==> forall i: nat :: !TimeAt(s, i)
  {
    FormatTimeAt(s);
    if exists i: nat :: TimeAt(s, i) {
      var i: nat :| TimeAt(s, i);
      var k: nat := if Hit(s, i + 2) then i + 2 else i - 1;
      assert Hit(s, k) && s[k] == ':';
      assert FormatTime(s)[k] != s[k];
    } else {
      forall k | 0 <= k < |s|
        ensures !Hit(s, k)
      {
        if k >= 2 {
          assert !TimeAt(s, k - 2);
        }
      }
      assert FormatTime(s) == s;
    }
  }

  /** A stretch of the text where no time starts is copied as it is. */
  lemma {:induction false} FormatTimeSkip(s: string, i: nat, e: nat)
    requires i <= e <= |s|
    requires forall j :: i <= j < e ==> !TimeAt(s, j)
    ensures FormatTimeFrom(s, i) == s[i..e] + FormatTimeFrom(s, e)
    decreases e - i
  {
    if i < e {
      FormatTimeSkip(s, i + 1, e);
      assert !TimeAt(s, i);
      assert FormatTimeFrom(s, i) == [s[i]] + FormatTimeFrom(s, i + 1);
      assert s[i..e] == [s[i]] + s[i + 1..e];
    }
  }

  /** A text with no colon is copied as it is. */
  lemma NoColonNoTime(s: string)
    requires ':' !in s
    ensures forall i: nat :: !TimeAt(s, i)
  {
    forall i: nat | i + 5 <= |s|
      ensures !TimeAt(s, i)
    {
      assert s[i + 2] in s;
    }
  }

  /** The scan from index |a| + i of `a + b` is the scan from index i of `b`,
      unless a time at the start of `b` is glued to a word character at the
      end of `a`. */
  lemma {:induction false} FormatTimeFromSuffix(a: string, b: string, i: nat)
    requires i <= |b|
    requires i > 0 || a == [] || b == [] || !IsDigit(b[0]) || !IsWordChar(a[|a| - 1])
    ensures FormatTimeFrom(a + b, |a| + i) == FormatTimeFrom(b, i)
    decreases |b| - i
  {
    if i < |b| {
      if TimeAt(b, i) {
        FormatTimeFromSuffix(a, b, i + 5);
        SuffixStepAtTime(a, b, i);
      } else {
        FormatTimeFromSuffix(a, b, i + 1);
        SuffixStepElsewhere(a, b, i);
      }
    } else {
      assert |a| + i == |a + b|;
    }
  }

  /** One step of the scan of `a + b` at a time in `b`. */
  lemma SuffixStepAtTime(a: string, b: string, i: nat)
    requires i < |b| && TimeAt(b, i)
    requires i > 0 || a == [] || !IsDigit(b[0]) || !IsWordChar(a[|a| - 1])
    requires FormatTimeFrom(a + b, |a| + (i + 5)) == FormatTimeFrom(b, i + 5)
    ensures FormatTimeFrom(a + b, |a| + i) == FormatTimeFrom(b, i)
  {
    TimeAtSuffix(a, b, i);
    SuffixWindow(a, b, i, 5);
    SameStepAtTime(a + b, b, |a| + i, i, |a| + (i + 5));
  }

  /** One step of the scan of `a + b` away from any time in `b`. */
  lemma SuffixStepElsewhere(a: string, b: string, i: nat)
    requires i < |b| && !TimeAt(b, i)
    requires i > 0 || a == [] || !IsDigit(b[0]) || !IsWordChar(a[|a| - 1])
    requires FormatTimeFrom(a + b, |a| + (i + 1)) == FormatTimeFrom(b, i + 1)
    ensures FormatTimeFrom(a + b, |a| + i) == FormatTimeFrom(b, i)
  {
    TimeAtSuffix(a, b, i);
    SameStepElsewhere(a + b, b, |a| + i, i, |a| + (i + 1));
  }

  /** The n characters at index i of `b` are those at index |a| + i of
      `a + b`. */
  lemma SuffixWindow(a: string, b: string, i: nat, n: nat)
    requires i + n <= |b|
    ensures (a + b)[|a| + i..|a| + i + n] == b[i..i + n]
  {
  }

  /** Two scans that both find a time, with the same five characters, write
      the same converted time. */
  lemma SameStepAtTime(s: string, b: string, j: nat, i: nat, next: nat)
    requires TimeAt(s, j) && TimeAt(b, i) && s[j..j + 5] == b[i..i + 5]
    requires next == j + 5 && FormatTimeFrom(s, next) == FormatTimeFrom(b, i + 5)
    ensures FormatTimeFrom(s, j) == FormatTimeFrom(b, i)
  {
    assert s[j..j + 2] == s[j..j + 5][..2];
    assert b[i..i + 2] == b[i..i + 5][..2];
    assert s[j + 3..j + 5] == s[j..j + 5][3..];
    assert b[i + 3..i + 5] == b[i..i + 5][3..];
  }

  /** Two scans that both find no time, with the same character ahead, copy
      the same character. */
  lemma SameStepElsewhere(s: string, b: string, j: nat, i: nat, next: nat)
    requires j < |s| && i < |b| && s[j] == b[i]
    requires !TimeAt(s, j) && !TimeAt(b, i)
    requires next == j + 1 && FormatTimeFrom(s, next) == FormatTimeFrom(b, i + 1)
    ensures FormatTimeFrom(s, j) == FormatTimeFrom(b, i)
  {
  }

  lemma TimeAtSuffix(a: string, b: string, i: nat)
    requires i < |b|
    requires i > 0 || a == [] || b == [] || !IsDigit(b[0]) || !IsWordChar(a[|a| - 1])
    ensures TimeAt(a + b, |a| + i) == TimeAt(b, i)
  {
    var s := a + b;
    assert forall k :: 0 <= k < |b| ==> s[|a| + k] == b[k];
  }

  /** Five characters of the form `dd:dd`. */
  predicate IsTime(time: string) {
    && |time| == 5
    && IsDigit(time[0]) && IsDigit(time[1]) && time[2] == ':'
    && IsDigit(time[3]) && IsDigit(time[4])
  }

  /** A text without digits holds no time. */
  lemma NoColonOrDigitNoTime(s: string)
    requires forall k :: 0 <= k < |s| ==> !IsDigit(s[k])
    ensures forall i: nat :: !TimeAt(s, i)
  {
  }

  /** No time starts inside a colon-free prefix of `prefix + time + rest`
      when `time` starts with a digit. */
  lemma NoTimeInPrefix(prefix: string, time: string, rest: string)
    requires ':' !in prefix
    requires IsTime(time)
    ensures forall j :: 0 <= j < |prefix| ==> !TimeAt(prefix + time + rest, j)
  {
    var s := prefix + time + rest;
    var n := |prefix|;
    forall j: nat | j < n
      ensures !TimeAt(s, j)
    {
      if j + 5 <= |s| {
        if j + 2 < n {
          assert s[j + 2] == prefix[j + 2];
          assert prefix[j + 2] in prefix;
        } else {
          assert s[j + 2] == time[j + 2 - n];
        }
      }
    }
  }

  /** A time standing apart at index n is written with a point, and the scan
      resumes after it. */
  lemma TimeStep(s: string, n: nat, time: string)
    requires n + 5 <= |s| && s[n..n + 5] == time && IsTime(time)
    requires n == 0 || !IsWordChar(s[n - 1])
    requires n + 5 == |s| || !IsWordChar(s[n + 5])
    ensures FormatTimeFrom(s, n) == time[..2] + "." + time[3..] + FormatTimeFrom(s, n + 5)
  {
    assert s[n] == time[0] && s[n + 1] == time[1] && s[n + 2] == time[2];
    assert s[n + 3] == time[3] && s[n + 4] == time[4];
    assert TimeAt(s, n);
    assert s[n..n + 2] == time[..2];
    assert s[n + 3..n + 5] == time[3..];
  }

  /** The scan copies a colon-free prefix that a time follows. */
  lemma SkipPrefix(prefix: string, time: string, rest: string)
    requires ':' !in prefix
    requires IsTime(time)
    ensures FormatTime(prefix + time + rest) == prefix + FormatTimeFrom(prefix + time + rest, |prefix|)
  {
    var s := prefix + time + rest;
    NoTimeInPrefix(prefix, time, rest);
    FormatTimeSkip(s, 0, |prefix|);
    assert s[0..|prefix|] == prefix;
  }

  /** The scan converts a time standing apart after its prefix. */
  lemma TimeAfterPrefix(prefix: string, time: string, rest: string)
    requires prefix == [] || !IsWordChar(prefix[|prefix| - 1])
    requires IsTime(time)
    requires rest == [] || !IsWordChar(rest[0])
    ensures FormatTimeFrom(prefix + time + rest, |prefix|)
         == time[..2] + "." + time[3..] + FormatTimeFrom(prefix + time + rest, |prefix| + 5)
  {
    var s := prefix + time + rest;
    var n := |prefix|;
    assert s[n..n + 5] == time;
    assert n == 0 || s[n - 1] == prefix[n - 1];
    assert n + 5 == |s| || s[n + 5] == rest[0];
    TimeStep(s, n, time);
  }

  /** After the time, the scan is the scan of the rest on its own. */
  lemma RestAfterTime(prefix: string, time: string, rest: string)
    requires |time| == 5
    requires rest == [] || !IsWordChar(rest[0])
    ensures FormatTimeFrom(prefix + time + rest, |prefix| + 5) == FormatTime(rest)
  {
    FormatTimeFromSuffix(prefix + time, rest, 0);
  }

  /** A time standing apart from the words around it, after text without
      colons, is converted and the scan goes on with the rest of the text. */
  lemma TimeInText(prefix: string, time: string, rest: string)
    requires ':' !in prefix
    requires prefix == [] || !IsWordChar(prefix[|prefix| - 1])
    requires IsTime(time)
    requires rest == [] || !IsWordChar(rest[0])
    ensures FormatTime(prefix + time + rest) == prefix + time[..2] + "." + time[3..] + FormatTime(rest)
  {
    SkipPrefix(prefix, time, rest);
    TimeAfterPrefix(prefix, time, rest);
    RestAfterTime(prefix, time, rest);
  }

  /** The one time of a sentence is converted. */
  lemma MeetingExample(s: string)
    requires s == "The meeting is scheduled at 10:30"
    ensures FormatTime(s) == "The meeting is scheduled at 10.30"
  {
    var p, t := "The meeting is scheduled at ", "10:30";
    assert s == p + t;
    assert ':' !in p && !IsWordChar(p[|p| - 1]);
    assert IsTime(t);
    TimeAtEnd(p, t);
    assert t[..2] + "." + t[3..] == "10.30";
  }

  /** A time that ends the text, after colon-free text that does not run
      into it, is converted. */
  lemma TimeAtEnd(prefix: string, time: string)
    requires ':' !in prefix
    requires prefix == [] || !IsWordChar(prefix[|prefix| - 1])
    requires IsTime(time)
    ensures FormatTime(prefix + time) == prefix + time[..2] + "." + time[3..]
  {
    TimeInText(prefix, time, []);
    assert prefix + time + [] == prefix + time;
  }

  /** Two times standing apart from the words around them are both
      converted. */
  lemma TwoTimesInText(p1: string, t1: string, p2: string, t2: string)
    requires ':' !in p1 && ':' !in p2
    requires p1 == [] || !IsWordChar(p1[|p1| - 1])
    requires p2 != [] && !IsWordChar(p2[0]) && !IsWordChar(p2[|p2| - 1])
    requires IsTime(t1) && IsTime(t2)
    ensures FormatTime(p1 + t1 + p2 + t2)
         == p1 + t1[..2] + "." + t1[3..] + p2 + t2[..2] + "." + t2[3..]
  {
    TimeInText(p2, t2, []);
    assert p2 + t2 + [] == p2 + t2;
    TimeInText(p1, t1, p2 + t2);
    assert p1 + t1 + p2 + t2 == p1 + t1 + (p2 + t2);
  }

  /** Both times of a sentence are converted. */
  lemma TwoTimesExample(s: string)
    requires s == "at 09:45 and 14:30"
    ensures FormatTime(s) == "at 09.45 and 14.30"
  {
    var p1, t1, p2, t2 := "at ", "09:45", " and ", "14:30";
    assert s == p1 + t1 + p2 + t2;
    assert ':' !in p1 && ':' !in p2;
    assert IsTime(t1) && IsTime(t2);
    assert t1[..2] + "." + t1[3..] == "09.45";
    assert t2[..2] + "." + t2[3..] == "14.30";
    assert p1 + "09.45" + p2 + "14.30" == "at 09.45 and 14.30";
    TwoTimesInText(p1, t1, p2, t2);
  }

  /** No range check: an hour of 25 is converted like any other pair of
      digits. */
  lemma NoRangeCheckExample(s: string)
    requires s == "The time is 25:30"
    ensures FormatTime(s) == "The time is 25.30"
  {
    var p, t := "The time is ", "25:30";
    assert s == p + t;
    assert ':' !in p && !IsWordChar(p[|p| - 1]);
    assert IsTime(t);
    TimeAtEnd(p, t);
    assert t[..2] + "." + t[3..] == "25.30";
  }

  /** Of two overlapping times only the first colon is converted. */
  lemma OverlapExample()
    ensures FormatTime("12:34:56") == "12.34:56"
  {
    assert forall i: nat :: !TimeAt(":56", i);
    FormatTimeFixedIff(":56");
    TimeInText([], "12:34", ":56");
    assert [] + "12:34" + ":56" == "12:34:56";
    assert "12:34"[..2] + "." + "12:34"[3..] == "12.34";
  }
}
