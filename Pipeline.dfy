/** format_currency_handler and adapt_text_handler: the rewritings chained in
    the order the source applies them. */
module Pipeline {
  import opened Chars
  import Numbers
  import Grouping
  import Currency
  import Quotes
  import Times
  import Letters

  /** Standardise the numbers, format the currency amounts, then group the
      digits by threes. The symbols stand for the default set of
      format_currency, in its iteration order. */
  function CurrencyHandler(text: string, symbols: seq<string>): string {
    Grouping.Group(Currency.FormatAll(Numbers.Standardize(text), symbols))
  }

  /** Quotes, then times, then the currency handler, then the esszett, then
      the vocabulary table. */
  function AdaptText(text: string, symbols: seq<string>, table: map<char, string>): string {
    var quoted := Quotes.Quote(text);
    var timed := Times.FormatTime(quoted);
    var amounts := CurrencyHandler(timed, symbols);
    var swiss := Letters.ConvertEsszett(amounts);
    Letters.Translate(swiss, table)
  }

  /** The handler's output is grouped: no run of digits is longer than three,
      and grouping it again changes nothing. */
  lemma CurrencyHandlerGrouped(text: string, symbols: seq<string>)
    ensures Grouping.ShortRuns(CurrencyHandler(text, symbols))
    ensures Grouping.Group(CurrencyHandler(text, symbols)) == CurrencyHandler(text, symbols)
  {
    var t := Currency.FormatAll(Numbers.Standardize(text), symbols);
    Grouping.GroupHasShortRuns(t);
    Grouping.GroupIdempotent(t);
  }

  /** Text without digits goes through the handler unchanged. */
  lemma CurrencyHandlerWithoutDigits(text: string, symbols: seq<string>)
    requires forall k :: 0 <= k < |text| ==> !IsDigit(text[k])
    requires Currency.ValidSymbols(symbols)
    ensures CurrencyHandler(text, symbols) == text
  {
    Numbers.StandardizeFixesDigitsOrLetters(text);
    Currency.FormatAllWithoutDigits(text, symbols);
    NoDigitsShortRuns(text);
    Grouping.GroupFixesShortRuns(text);
  }

  lemma {:induction false} NoDigitsShortRuns(s: string)
    requires forall k :: 0 <= k < |s| ==> !IsDigit(s[k])
    ensures Grouping.ShortRuns(s)
  {
    if s != [] {
      NoDigitsShortRuns(s[1..]);
    }
  }

  /** Text with no digit, no curly opening quote, no esszett and no character
      of the table goes through the whole chain unchanged. */
  lemma AdaptWithoutTriggers(text: string, symbols: seq<string>, table: map<char, string>)
    requires forall k :: 0 <= k < |text| ==> !IsDigit(text[k]) && text[k] !in table
    requires Quotes.Open !in text && Letters.Esszett !in text
    requires Currency.ValidSymbols(symbols)
    ensures AdaptText(text, symbols, table) == text
  {
    Quotes.QuoteWithoutOpen(text);
    Times.NoColonOrDigitNoTime(text);
    Times.FormatTimeFixedIff(text);
    CurrencyHandlerWithoutDigits(text, symbols);
    Letters.ConvertEsszettWithout(text);
    Letters.TranslateWithoutKeys(text, table);
  }

  /** No esszett survives the chain unless the vocabulary table writes one. */
  lemma AdaptRemovesEsszett(text: string, symbols: seq<string>, table: map<char, string>)
    requires forall k :: k in table ==> Letters.Esszett !in table[k]
    ensures Letters.Esszett !in AdaptText(text, symbols, table)
  {
    var amounts := CurrencyHandler(Times.FormatTime(Quotes.Quote(text)), symbols);
    Letters.ConvertEsszettRemovesAll(amounts);
    Letters.TranslateKeepsAbsent(Letters.ConvertEsszett(amounts), table, Letters.Esszett);
  }

  /** Because the time is formatted before the numbers are standardised, a
      time ends up as a grouped number: `10:30` becomes `10.30`, then `1030`,
      then `1\'030`, with the backslash the grouping template writes. */
  lemma TimeBecomesNumber(symbols: seq<string>, table: map<char, string>)
    requires Currency.ValidSymbols(symbols)
    requires '0' !in table && '1' !in table && '3' !in table
    requires '\\' !in table && '\'' !in table
    ensures AdaptText("10:30", symbols, table) == "1\\'030"
  {
    QuoteStep();
    TimeOfExample();
    StandardizeStep();
    CurrencyStep(symbols);
    GroupStep();
    EsszettStep();
    TranslateStep(table);
  }

  lemma QuoteStep()
    ensures Quotes.Quote("10:30") == "10:30"
  {
    assert Quotes.Open !in "10:30";
    Quotes.QuoteWithoutOpen("10:30");
  }

  lemma CurrencyStep(symbols: seq<string>)
    requires Currency.ValidSymbols(symbols)
    ensures Currency.FormatAll("1030", symbols) == "1030"
  {
    forall i | 0 <= i < |symbols|
      ensures |symbols[i]| > 0 && symbols[i][0] !in "1030"
    {
      assert Currency.ValidSymbol(symbols[i]);
    }
    Currency.FormatAllAbsent("1030", symbols);
  }

  lemma EsszettStep()
    ensures Letters.ConvertEsszett("1\\'030") == "1\\'030"
  {
    assert Letters.Esszett !in "1\\'030";
    Letters.ConvertEsszettWithout("1\\'030");
  }

  lemma TranslateStep(table: map<char, string>)
    requires '0' !in table && '1' !in table && '3' !in table
    requires '\\' !in table && '\'' !in table
    ensures Letters.Translate("1\\'030", table) == "1\\'030"
  {
    Letters.TranslateWithoutKeys("1\\'030", table);
  }

  lemma TimeOfExample()
    ensures Times.FormatTime("10:30") == "10.30"
  {
    Times.TimeInText([], "10:30", []);
    assert [] + "10:30" + [] == "10:30";
    assert "10:30"[..2] + "." + "10:30"[3..] == "10.30";
  }

  lemma StandardizeStep()
    ensures Numbers.Standardize("10.30") == "1030"
  {
    var groups := ["10", "30"];
    assert Numbers.DigitGroups(groups);
    Numbers.StandardizeJoinsGroups(groups, '.');
    assert Numbers.Join(groups, '.') == "10.30";
    assert Numbers.Concat(groups) == "1030";
  }

  lemma GroupStep()
    ensures Grouping.Group("1030") == "1\\'030"
  {
    assert AllDigits("1030");
    Grouping.GroupPlainNumber("1030");
    assert "1030"[..1] == "1" && "1030"[1..] == "030";
    assert "1" + Grouping.Mark + "030" == "1\\'030";
  }

  /** The handler puts an amount written after its number into the form
      `SYMBOL number.-`. */
  lemma CurrencyHandlerUsdExample()
    ensures CurrencyHandler("10 USD", Currency.DefaultSymbols) == "USD 10.-"
  {
    StandardizeUsdStep("10 USD");
    Currency.UsdAfterExample();
    GroupUsdStep();
  }

  lemma StandardizeUsdStep(s: string)
    requires s == "10 USD"
    ensures Numbers.Standardize(s) == s
  {
    assert forall i :: !Numbers.SeparatorBetweenDigits(s, i);
    Numbers.StandardizeFixedIff(s);
  }

  lemma GroupUsdStep()
    ensures Grouping.Group("USD 10.-") == "USD 10.-"
  {
    assert Grouping.ShortRuns("USD 10.-");
    Grouping.GroupFixesShortRuns("USD 10.-");
  }
}
