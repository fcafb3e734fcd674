/** convert_esszett (`re.sub(r'ß', 'ss', text)`) and the character translation
    of convert_words (`text.translate(str.maketrans(vocab))`). */
module Letters {
  import opened Chars

  const Esszett: char := '\U{DF}'

  /** Each esszett becomes `ss`; every other character is copied. */
  function ConvertEsszett(s: string): string {
    if s == [] then []
    else (if s[0] == Esszett then "ss" else [s[0]]) + ConvertEsszett(s[1..])
  }

  /** The conversion works character by character: it distributes over
      concatenation. */
  lemma {:induction false} ConvertEsszettAppend(a: string, b: string)
    ensures ConvertEsszett(a + b) == ConvertEsszett(a) + ConvertEsszett(b)
  {
    if a == [] {
      assert a + b == b;
    } else {
      assert (a + b)[1..] == a[1..] + b;
      ConvertEsszettAppend(a[1..], b);
    }
  }

  /** No esszett is left. */
  lemma {:induction false} ConvertEsszettRemovesAll(s: string)
    ensures Esszett !in ConvertEsszett(s)
  {
    if s != [] {
      ConvertEsszettRemovesAll(s[1..]);
    }
  }

  /** Each esszett adds one character. */
  lemma {:induction false} ConvertEsszettLength(s: string)
    ensures |ConvertEsszett(s)| == |s| + Count(s, Esszett)
  {
    if s != [] {
      ConvertEsszettLength(s[1..]);
    }
  }

  /** A text without esszett is left as it is, and only such a text. */
  lemma ConvertEsszettFixedIff(s: string)
    ensures ConvertEsszett(s) == s <==> Esszett !in s
  {
    ConvertEsszettLength(s);
    CountAbsent(s, Esszett);
    if Esszett !in s {
      ConvertEsszettWithout(s);
    }
  }

  lemma {:induction false} ConvertEsszettWithout(s: string)
    requires Esszett !in s
    ensures ConvertEsszett(s) == s
  {
    if s != [] {
      ConvertEsszettWithout(s[1..]);
      assert s == [s[0]] + s[1..];
    }
  }

  /** Converting twice is converting once. */
  lemma ConvertEsszettIdempotent(s: string)
    ensures ConvertEsszett(ConvertEsszett(s)) == ConvertEsszett(s)
  {
    ConvertEsszettRemovesAll(s);
    ConvertEsszettWithout(ConvertEsszett(s));
  }

  /** `str.translate` with a table from characters to replacement strings:
      a character with an entry is replaced by it, every other character is
      copied. */
  function Translate(s: string, table: map<char, string>): string {
    if s == [] then []
    else (if s[0] in table then table[s[0]] else [s[0]]) + Translate(s[1..], table)
  }

  /** The translation works character by character. */
  lemma {:induction false} TranslateAppend(a: string, b: string, table: map<char, string>)
    ensures Translate(a + b, table) == Translate(a, table) + Translate(b, table)
  {
    if a == [] {
      assert a + b == b;
    } else {
      assert (a + b)[1..] == a[1..] + b;
      TranslateAppend(a[1..], b, table);
    }
  }

  /** A text with no character in the table is left as it is. */
  lemma {:induction false} TranslateWithoutKeys(s: string, table: map<char, string>)
    requires forall i :: 0 <= i < |s| ==> s[i] !in table
    ensures Translate(s, table) == s
  {
    if s != [] {
      TranslateWithoutKeys(s[1..], table);
      assert s == [s[0]] + s[1..];
    }
  }

  /** A table whose entries are single characters keeps the length and maps
      each position on its own. */
  lemma {:induction false} TranslateOneForOne(s: string, table: map<char, string>)
    requires forall c :: c in table ==> |table[c]| == 1
    ensures |Translate(s, table)| == |s|
    ensures forall i :: 0 <= i < |s| ==>
      Translate(s, table)[i] == if s[i] in table then table[s[i]][0] else s[i]
  {
    if s != [] {
      TranslateOneForOne(s[1..], table);
      var r := Translate(s, table);
      forall i | 0 <= i < |s|
        ensures r[i] == if s[i] in table then table[s[i]][0] else s[i]
      {
        if i > 0 {
          assert r[i] == Translate(s[1..], table)[i - 1];
          assert s[i] == s[1..][i - 1];
        }
      }
    }
  }

  /** A character that is neither in the text nor in any replacement is not
      in the translation. */
  lemma {:induction false} TranslateKeepsAbsent(s: string, table: map<char, string>, c: char)
    requires c !in s
    requires forall k :: k in table ==> c !in table[k]
    ensures c !in Translate(s, table)
  {
    if s != [] {
      TranslateKeepsAbsent(s[1..], table, c);
      assert s[0] in s;
    }
  }

  /** The esszett conversion is the translation by the one-entry table
      `ß -> ss`. */
  lemma {:induction false} ConvertEsszettIsTranslate(s: string)
    ensures ConvertEsszett(s) == Translate(s, map[Esszett := "ss"])
  {
    if s != [] {
      ConvertEsszettIsTranslate(s[1..]);
    }
  }

  lemma StrasseExample()
    ensures ConvertEsszett("Stra\U{DF}e") == "Strasse"
  {
    ConvertEsszettAppend("Stra", "\U{DF}e");
    assert "Stra" + "\U{DF}e" == "Stra\U{DF}e";
    ConvertEsszettWithout("Stra");
    assert "\U{DF}e"[1..] == "e";
    ConvertEsszettWithout("e");
  }
}
