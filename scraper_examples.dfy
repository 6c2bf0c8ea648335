/** Worked inputs for the scraper's three number parsers. Each one is split into facts
    about short literals (what a filter keeps, how a literal splits at its point, the
    value of a digit run) and a combining step over variables pinned to those literals. */
module ScraperExamples {
  import opened Wrappers
  import opened Text
  import opened Decimal
  import opened Scraper

  // ---- currency ----

  /** "$1,234.50" reads as 1234.5: the symbol and the group separator are dropped. */
  lemma CurrencyGrouped(s: string)
    requires s == "$1,234.50"
    ensures ParseCurrency(Some(s)) == Some(1234.5)
  {
    assert s[0] == '$';
    GroupedSplit(s);
    GroupedStrip(s, "$1,", "234.50");
    assert "1234.50" == "1234" + "." + "50";
    GroupedValue("1234", "50");
  }

  lemma GroupedSplit(s: string)
    requires s == "$1,234.50"
    ensures s == "$1," + "234.50"
  {
  }

  lemma GroupedStrip(s: string, x: string, y: string)
    requires x == "$1," && y == "234.50" && s == x + y
    ensures StripNonNumeric(s) == "1234.50"
  {
    FilterAppend(x, y, IsNumeric);
    assert Filter("$1,", IsNumeric) == "1";
    GroupedTailKept(y);
    GroupedJoin(y);
  }

  lemma GroupedTailKept(y: string)
    requires y == "234.50"
    ensures Filter(y, IsNumeric) == y
  {
    FilterAll(y, IsNumeric);
  }

  lemma GroupedJoin(y: string)
    requires y == "234.50"
    ensures "1" + y == "1234.50"
  {
  }

  lemma GroupedValue(a: string, b: string)
    requires a == "1234" && b == "50"
    ensures ParseDecimal(a + "." + b) == Some(1234.5)
  {
    Digits1234();
    Digits50();
    assert AllDigits(a) && AllDigits(b);
    assert |b| == 2;
    assert Pow10(|b|) == 100;
    assert LiteralValue(a, b) == 1234.5;
    ParsePointLiteral(a, b);
  }

  lemma Digits1234()
    ensures DigitsValue("1234") == 1234
  {
    assert "1234"[..3] == "123" && "123"[..2] == "12" && "12"[..1] == "1" && "1"[..0] == "";
  }

  lemma Digits50()
    ensures DigitsValue("50") == 50
  {
    assert "50"[..1] == "5" && "5"[..0] == "";
  }

  /** The minus sign is one of the deleted characters: "-5" reads as 5. */
  lemma CurrencySignDropped(s: string)
    requires s == "-5"
    ensures ParseCurrency(Some(s)) == Some(5.0)
  {
    assert s[0] == '-';
    assert Filter("-5", IsNumeric) == "5";
    OneDigit("5");
  }

  /** A lone point has no digit to read. */
  lemma CurrencyRejectsPoint(s: string)
    requires s == "."
    ensures ParseCurrency(Some(s)) == None
  {
    CurrencyAcceptsIff(s);
    assert !IsDigit(s[0]);
  }

  /** Two points make the literal malformed. */
  lemma CurrencyRejectsTwoPoints(s: string)
    requires s == "1.2.3"
    ensures ParseCurrency(Some(s)) == None
  {
    CurrencyAcceptsIff(s);
    assert Count("1.2.3", '.') == 2;
  }

  // ---- percentage ----

  /** "-2.5%" reads as -2.5: the percent sign goes, the minus sign stays. */
  lemma PercentageSigned(s: string)
    requires s == "-2.5%"
    ensures ParsePercentage(Some(s)) == Some(-2.5)
  {
    SignedSteps(s, "2.5", "2", "5");
  }

  lemma SignedSteps(s: string, u: string, a: string, b: string)
    requires s == "-2.5%" && u == "2.5" && a == "2" && b == "5"
    ensures ParsePercentage(Some(s)) == Some(-2.5)
  {
    assert s == "-" + u + "%" && u == a + "." + b;
    assert Presentable(u) && '%' !in u && !IsSign(u[0]) && !IsSign(u[|u| - 1]);
    OneDigitPoint(a, b);
    PercentageOfLiteral(u);
    PercentageSign(u);
    NegatedOption(ParsePercentage(Some(u)), ParsePercentage(Some(s)), 2.5);
  }

  /** A sign after the number counts as well: "5-%" reads as -5. */
  lemma PercentageTrailingMinus(s: string)
    requires s == "5-%"
    ensures ParsePercentage(Some(s)) == Some(-5.0)
  {
    TrailingSteps(s, "5");
  }

  lemma TrailingSteps(s: string, u: string)
    requires s == "5-%" && u == "5"
    ensures ParsePercentage(Some(s)) == Some(-5.0)
  {
    assert s == u + "-%";
    assert NatToDigits(5) == u;
    assert Presentable(u) && '%' !in u && !IsSign(u[0]);
    PercentageTrailingSign(u);
    PercentagePrinted(5);
  }

  /** "d.e" for single digits d and e. */
  lemma OneDigitPoint(a: string, b: string)
    requires |a| == 1 && |b| == 1 && IsDigit(a[0]) && IsDigit(b[0])
    ensures ParseDecimal(a + "." + b) == Some(DigitValue(a[0]) as real + DigitValue(b[0]) as real / 10.0)
    ensures (a + "." + b)[0] == a[0]
    ensures (a + "." + b)[|a + "." + b| - 1] == b[0]
  {
    SingleDigit(a);
    SingleDigit(b);
    assert Pow10(|b|) == 10;
    ParsePointLiteral(a, b);
  }

  /** A single digit d. */
  lemma OneDigit(a: string)
    requires |a| == 1 && IsDigit(a[0])
    ensures ParseDecimal(a) == Some(DigitValue(a[0]) as real)
  {
    SingleDigit(a);
    ParseDigitRun(a);
  }

  lemma SingleDigit(a: string)
    requires |a| == 1 && IsDigit(a[0])
    ensures AllDigits(a) && DigitsValue(a) == DigitValue(a[0])
  {
    assert a[..0] == [];
    assert a[|a| - 1] == a[0];
  }

  // ---- abbreviated amounts ----

  /** "1.5M" reads as 1.5 million. */
  lemma AbbreviatedMillion(s: string)
    requires s == "1.5M"
    ensures ParseAbbreviatedNumber(Some(s)) == Some(1500000.0)
  {
    assert s[0] == '1' && s[|s| - 1] == 'M';
    PresentableIsTrimmed(s);
    CurrencyOnePointFive(s);
    CurrencyAcceptsIff(s);
    AbbreviatedAcceptsIff(s);
  }

  /** The kept characters of "1.5M" and "1.5m" read as 1.5. */
  lemma CurrencyOnePointFive(s: string)
    requires s == "1.5M" || s == "1.5m"
    ensures ParseCurrency(Some(s)) == Some(1.5)
  {
    assert s[0] == '1';
    StripOnePointFive(s);
    OnePointFiveValue("1", "5");
  }

  lemma StripOnePointFive(s: string)
    requires s == "1.5M" || s == "1.5m"
    ensures StripNonNumeric(s) == "1" + "." + "5"
  {
    assert Filter("1.5M", IsNumeric) == "1.5";
    assert Filter("1.5m", IsNumeric) == "1.5";
    assert "1.5" == "1" + "." + "5";
  }

  lemma OnePointFiveValue(a: string, b: string)
    requires a == "1" && b == "5"
    ensures ParseDecimal(a + "." + b) == Some(1.5)
  {
    OneDigitPoint(a, b);
  }

  /** "2B" reads as two billion. */
  lemma AbbreviatedBillion(s: string)
    requires s == "2B"
    ensures ParseAbbreviatedNumber(Some(s)) == Some(2000000000.0)
  {
    assert s[0] == '2' && s[|s| - 1] == 'B';
    PresentableIsTrimmed(s);
    assert Filter("2B", IsNumeric) == "2";
    OneDigit("2");
    CurrencyAcceptsIff(s);
    AbbreviatedAcceptsIff(s);
  }

  /** "3K" reads as three thousand. */
  lemma AbbreviatedThousand(s: string)
    requires s == "3K"
    ensures ParseAbbreviatedNumber(Some(s)) == Some(3000.0)
  {
    assert s[0] == '3' && s[|s| - 1] == 'K';
    PresentableIsTrimmed(s);
    assert Filter("3K", IsNumeric) == "3";
    OneDigit("3");
    CurrencyAcceptsIff(s);
    AbbreviatedAcceptsIff(s);
  }

  /** The suffix test is case-sensitive: "1.5m" reads as 1.5. */
  lemma AbbreviatedLowerCase(s: string)
    requires s == "1.5m"
    ensures ParseAbbreviatedNumber(Some(s)) == Some(1.5)
  {
    assert s[0] == '1' && s[|s| - 1] == 'm';
    PresentableIsTrimmed(s);
    CurrencyOnePointFive(s);
    CurrencyAcceptsIff(s);
    AbbreviatedAcceptsIff(s);
    MultiplierCaseSensitive(s);
  }

  /** A bare suffix, or nothing at all, leaves no number to read. */
  lemma AbbreviatedSuffixOnly(s: string)
    requires s == "M" || s == ""
    ensures ParseAbbreviatedNumber(Some(s)) == None
  {
    if s == "M" {
      assert !IsWhiteSpace(s[0]);
      PresentableIsTrimmed(s);
      assert Filter("M", IsNumeric) == "";
    }
  }

  // ---- icons ----

  /** A relative icon path becomes an address on the site. */
  lemma IconRelative()
    ensures RewriteIcon(Some("./coins/btc.png")) == Some("https://www.coinspot.com.au/coins/btc.png")
  {
    IconRelativeSteps("./coins/btc.png", "coins/btc.png", "https://www.coinspot.com.au/coins/btc.png");
  }

  lemma IconRelativeSteps(src: string, rest: string, url: string)
    requires src == "./coins/btc.png" && rest == "coins/btc.png"
    requires url == "https://www.coinspot.com.au/coins/btc.png"
    ensures RewriteIcon(Some(src)) == Some(url)
  {
    IconSplit(src, rest, url);
    RewriteIconRelative(rest);
    IconPathKept("coins/btc", ".png", "png");
  }

  lemma IconSplit(src: string, rest: string, url: string)
    requires src == "./coins/btc.png" && rest == "coins/btc.png"
    requires url == "https://www.coinspot.com.au/coins/btc.png"
    ensures src == "./" + rest && rest == "coins/btc" + ".png" && url == SiteOrigin + "/" + rest
  {
  }

  lemma IconPathKept(dir: string, ext: string, tail: string)
    requires dir == "coins/btc" && ext == ".png" && tail == "png"
    ensures ReplaceAll(dir + ext, "./", "/") == dir + ext
  {
    ReplaceSkipFree(dir, ext, "./", "/");
    assert ext[..2] != "./" && ext[1..] == tail;
    assert ReplaceAll(ext, "./", "/") == "." + ReplaceAll(tail, "./", "/");
    ReplaceSkipFree(tail, [], "./", "/");
    assert tail + [] == tail;
  }

  /** The rewrite is a single pass: "../x" keeps the "./" that its first replacement
      would have exposed. */
  lemma IconSinglePass()
    ensures RewriteIcon(Some("../x")) == Some("https://www.coinspot.com.au./x")
  {
    var s, t := "../x", "./x";
    assert s[..2] != "./" && s[1..] == t;
    assert t[..2] == "./" && t[2..] == "x";
    assert ReplaceAll("x", "./", "/") == "x";
    assert ReplaceAll(t, "./", "/") == "/x";
    assert ReplaceAll(s, "./", "/") == "./x";
    assert SiteOrigin + "./x" == "https://www.coinspot.com.au./x";
  }
}
