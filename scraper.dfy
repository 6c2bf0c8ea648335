/** The market-listing scraper: defensive number parsing, the per-row rules that turn
    a table row into a `CoinInfo`, and the scraper object that caches the last list. */
module Scraper {
  import opened Wrappers
  import opened Text
  import opened Decimal

  /** One coin quote as scraped; every numeric field may be missing. */
  datatype CoinInfo = CoinInfo(
    code: string,
    name: string,
    price: Option<real>,
    priceAud: Option<real>,
    marketCap: Option<real>,
    volume: Option<real>,
    change: Option<real>,
    icon: Option<string>)

  /** What the HTML library yields for one `td`: its inner text, the `src` of its first
      `img`, the text of its first `div`, and the text of its first `grey-500` div. */
  datatype Cell = Cell(
    innerText: string,
    imgSrc: Option<string>,
    firstDivText: Option<string>,
    codeDivText: Option<string>)

  /** The `td` cells of one coin row; `None` when the row has no cell list. */
  type Row = Option<seq<Cell>>

  /** The listing page: either the request failed, or the document was loaded and the
      coin-row query returned its rows (`None` when it matched nothing). */
  datatype Page = Unreachable | Loaded(rows: Option<seq<Row>>)

  datatype FetchError =
    | RequestFailed   // the HTTP request threw
    | NoCoinRows      // the row query returned null and the loop over it threw

  const SiteOrigin: string := "https://www.coinspot.com.au"
  const Billion: real := 1000000000.0
  const Million: real := 1000000.0
  const Thousand: real := 1000.0

  /** The characters `[0-9.]` that the parsers' regular expression keeps. */
  predicate IsNumeric(c: char) {
    IsDigit(c) || c == '.'
  }

  /** `Regex.Replace(s, "[^0-9.]", "")`. */
  function StripNonNumeric(s: string): (r: string)
    ensures forall i :: 0 <= i < |r| ==> IsNumeric(r[i])
  {
    Filter(s, IsNumeric)
  }

  predicate HasDigit(s: string) {
    exists i :: 0 <= i < |s| && IsDigit(s[i])
  }

  /** Currency text such as "$1,234.50": everything but digits and points is deleted,
      so the sign is lost and the result is never negative. */
  function ParseCurrency(input: Option<string>): (r: Option<real>)
    ensures IsNullOrWhiteSpace(input) ==> r.None?
    ensures r.Some? ==> r.value >= 0.0
  {
    if IsNullOrWhiteSpace(input) then None
    else
      var t := StripNonNumeric(input.value);
      UnsignedOnly(t);
      UnsignedNonNegative(t);
      ParseDecimal(t)
  }

  /** Percentage text such as "-2.5%": every '%' is removed and the rest trimmed;
      the sign is kept. */
  function ParsePercentage(input: Option<string>): (r: Option<real>)
    ensures IsNullOrWhiteSpace(input) ==> r.None?
  {
    if IsNullOrWhiteSpace(input) then None
    else ParseDecimal(Trim(Filter(input.value, NotPercent)))
  }

  predicate NotPercent(c: char) {
    c != '%'
  }

  /** The magnitude named by the last character: B, M, K (upper case only) or none. */
  function Multiplier(t: string): (m: real)
    ensures m == 1.0 || m == Thousand || m == Million || m == Billion
    ensures m >= 1.0
  {
    if |t| > 0 && t[|t| - 1] == 'B' then Billion
    else if |t| > 0 && t[|t| - 1] == 'M' then Million
    else if |t| > 0 && t[|t| - 1] == 'K' then Thousand
    else 1.0
  }

  /** Abbreviated amounts such as "1.5M": the trimmed text's last character picks the
      multiplier, and the digits and points of the text give the number. */
  function ParseAbbreviatedNumber(input: Option<string>): (r: Option<real>)
    ensures IsNullOrWhiteSpace(input) ==> r.None?
    ensures r.Some? ==> r.value >= 0.0
  {
    if IsNullOrWhiteSpace(input) then None
    else
      var t := Trim(input.value);
      var digits := StripNonNumeric(t);
      UnsignedOnly(digits);
      UnsignedNonNegative(digits);
      match ParseDecimal(digits)
      case None => None
      case Some(n) => Scale(n, Multiplier(t))
  }

  function Scale(n: real, m: real): (r: Option<real>)
    requires n >= 0.0 && m >= 1.0
    ensures r.Some? && r.value >= 0.0
  {
    Some(n * m)
  }

  /** Currency parsing succeeds exactly when the text holds a digit and at most one point. */
  lemma CurrencyAcceptsIff(s: string)
    ensures ParseCurrency(Some(s)).Some? <==> HasDigit(s) && Count(s, '.') <= 1
  {
    var t := StripNonNumeric(s);
    UnsignedAcceptsIff(t);
    NumericCounts(s);
    if AllWhiteSpace(s) {
      if HasDigit(s) {
        var i :| 0 <= i < |s| && IsDigit(s[i]);
        assert IsWhiteSpace(s[i]);
      }
    } else {
      CurrencyIsUnsigned(s);
    }
  }

  /** The kept characters hold every point of `s`, and something besides points
      exactly when `s` holds a digit. */
  lemma NumericCounts(s: string)
    ensures Count(StripNonNumeric(s), '.') == Count(s, '.')
    ensures Count(s, '.') < |StripNonNumeric(s)| <==> HasDigit(s)
  {
    FilterCount(s, IsNumeric, '.');
    NumericLength(s);
    FilterNonEmptyIff(s, IsDigit);
    if HasDigit(s) {
      var i :| 0 <= i < |s| && IsDigit(s[i]);
      assert IsDigit(s[i]);
    }
  }

  /** On text that is not blank, currency parsing reads the kept characters as an
      unsigned literal. */
  lemma CurrencyIsUnsigned(s: string)
    requires !AllWhiteSpace(s)
    ensures ParseCurrency(Some(s)) == ParseUnsigned(StripNonNumeric(s))
  {
    UnsignedOnly(StripNonNumeric(s));
  }

  lemma {:induction false} NumericLength(s: string)
    ensures |StripNonNumeric(s)| == Count(s, '.') + |Filter(s, IsDigit)|
  {
    if s != [] {
      NumericLength(s[1..]);
    }
  }

  /** The magnitude test is case-sensitive: a lower-case 'b', 'm' or 'k' multiplies by one. */
  lemma MultiplierCaseSensitive(t: string)
    requires |t| > 0 && (t[|t| - 1] == 'b' || t[|t| - 1] == 'm' || t[|t| - 1] == 'k')
    ensures Multiplier(t) == 1.0
  {
  }

  /** Abbreviated parsing succeeds exactly when the trimmed text holds a digit and at
      most one point, and then it is the number times the suffix's magnitude. */
  lemma AbbreviatedAcceptsIff(s: string)
    ensures ParseAbbreviatedNumber(Some(s)).Some? <==> HasDigit(s) && Count(s, '.') <= 1
    ensures ParseAbbreviatedNumber(Some(s)).Some? ==>
      ParseAbbreviatedNumber(Some(s)).value
        == ParseCurrency(Some(Trim(s))).value * Multiplier(Trim(s))
  {
    var t := Trim(s);
    TrimKeepsNonWhite(s);
    CurrencyAcceptsIff(t);
    if !AllWhiteSpace(s) {
      TrimEmptyIffBlank(s);
      var a, b := TrimSlice(s);
      assert !AllWhiteSpace(t) by {
        assert !IsWhiteSpace(t[0]);
      }
      assert ParseCurrency(Some(t)) == ParseDecimal(StripNonNumeric(t));
    }
  }

  /** Trimming removes white space only: digits and points are all still there. */
  lemma TrimKeepsNonWhite(s: string)
    ensures HasDigit(Trim(s)) <==> HasDigit(s)
    ensures Count(Trim(s), '.') == Count(s, '.')
  {
    var a, b := TrimSlice(s);
    SliceKeepsNonWhite(s, a, b);
  }

  lemma SliceKeepsNonWhite(s: string, a: nat, b: nat)
    requires a <= b <= |s| && AllWhiteSpace(s[..a]) && AllWhiteSpace(s[b..])
    ensures HasDigit(s[a..b]) <==> HasDigit(s)
    ensures Count(s[a..b], '.') == Count(s, '.')
  {
    SliceKeepsDigits(s, a, b);
    SliceKeepsPoints(s, a, b);
  }

  lemma SliceKeepsDigits(s: string, a: nat, b: nat)
    requires a <= b <= |s| && AllWhiteSpace(s[..a]) && AllWhiteSpace(s[b..])
    ensures HasDigit(s[a..b]) <==> HasDigit(s)
  {
    var mid := s[a..b];
    assert forall j :: 0 <= j < a ==> s[..a][j] == s[j];
    assert forall j :: b <= j < |s| ==> s[b..][j - b] == s[j];
    if HasDigit(s) {
      var i :| 0 <= i < |s| && IsDigit(s[i]);
      assert mid[i - a] == s[i];
    }
    if HasDigit(mid) {
      var i :| 0 <= i < |mid| && IsDigit(mid[i]);
      assert s[a + i] == mid[i];
    }
  }

  lemma SliceKeepsPoints(s: string, a: nat, b: nat)
    requires a <= b <= |s| && AllWhiteSpace(s[..a]) && AllWhiteSpace(s[b..])
    ensures Count(s[a..b], '.') == Count(s, '.')
  {
    var pre, mid, post := s[..a], s[a..b], s[b..];
    assert s == pre + mid + post;
    CountAppend(pre + mid, post, '.');
    CountAppend(pre, mid, '.');
    WhiteHasNoPoint(pre);
    WhiteHasNoPoint(post);
  }

  lemma WhiteHasNoPoint(s: string)
    requires AllWhiteSpace(s)
    ensures Count(s, '.') == 0
  {
    CountZeroIffAbsent(s, '.');
  }

  // ---- percentages ----

  /** A '%' anywhere in the text makes no difference to the percentage read. */
  lemma PercentRemovedAnywhere(a: string, b: string)
    ensures ParsePercentage(Some(a + "%" + b)) == ParsePercentage(Some(a + b))
  {
    PercentDropped(a, b);
    assert !AllWhiteSpace(a + "%" + b) by {
      assert (a + "%" + b)[|a|] == '%';
    }
    if AllWhiteSpace(a + b) {
      BlankFiltered(a + b);
    }
  }

  lemma PercentDropped(a: string, b: string)
    ensures Filter(a + "%" + b, NotPercent) == Filter(a + b, NotPercent)
  {
    FilterAppend(a + "%", b, NotPercent);
    FilterAppend(a, "%", NotPercent);
    FilterAppend(a, b, NotPercent);
    assert Filter("%", NotPercent) == [];
  }

  /** Dropping the '%' signs from blank text leaves blank text, which trims to nothing. */
  lemma BlankFiltered(s: string)
    requires AllWhiteSpace(s)
    ensures Trim(Filter(s, NotPercent)) == []
  {
    var f := Filter(s, NotPercent);
    forall i | 0 <= i < |f|
      ensures IsWhiteSpace(f[i])
    {
      assert f[i] in f;
      FilterMember(s, NotPercent, f[i]);
      var j :| 0 <= j < |s| && s[j] == f[i];
    }
    TrimEmptyIffBlank(f);
  }

  /** A presentable literal reads the same with or without a '%' after it. */
  lemma PercentageOfLiteral(u: string)
    requires Presentable(u) && '%' !in u
    ensures ParsePercentage(Some(u)) == ParseDecimal(u)
    ensures ParsePercentage(Some(u + "%")) == ParseDecimal(u)
  {
    PercentRemovedAnywhere(u, []);
    assert u + "%" + [] == u + "%" && u + [] == u;
    forall i | 0 <= i < |u|
      ensures NotPercent(u[i])
    {
      assert u[i] in u;
    }
    FilterAll(u, NotPercent);
    PresentableIsTrimmed(u);
  }

  /** A leading minus sign is kept: it negates the percentage and accepts exactly
      what the unsigned text accepts. */
  lemma PercentageSign(u: string)
    requires Presentable(u) && '%' !in u && !IsSign(u[0]) && !IsSign(u[|u| - 1])
    ensures ParsePercentage(Some("-" + u + "%")).Some? <==> ParsePercentage(Some(u)).Some?
    ensures ParsePercentage(Some(u)).Some? ==>
      ParsePercentage(Some("-" + u + "%")).value == -ParsePercentage(Some(u)).value
  {
    var v := "-" + u;
    assert v[0] == '-' && v[|v| - 1] == u[|u| - 1];
    assert v[1..] == u;
    assert '%' !in v;
    PercentageOfLiteral(u);
    PercentageOfLiteral(v);
    ParseNegated(u);
  }

  /** A trailing minus sign reads like a leading one: "5-%" is -5. */
  lemma PercentageTrailingSign(u: string)
    requires Presentable(u) && '%' !in u && !IsSign(u[0])
    ensures ParsePercentage(Some(u + "-%")) == ParsePercentage(Some("-" + u + "%"))
  {
    var v, w := "-" + u, u + "-";
    assert v[0] == '-' && v[|v| - 1] == u[|u| - 1] && v[1..] == u;
    assert w[0] == u[0] && w[|w| - 1] == '-' && w[..|u|] == u;
    assert '%' !in v && '%' !in w;
    assert u + "-%" == w + "%";
    PercentageOfLiteral(v);
    PercentageOfLiteral(w);
    TrailingSign(u, '-');
  }

  /** A printed natural followed by '%' reads back as that natural, and with a leading
      minus sign as its negation. */
  lemma PercentagePrinted(n: nat)
    ensures ParsePercentage(Some(NatToDigits(n) + "%")) == Some(n as real)
    ensures ParsePercentage(Some("-" + NatToDigits(n) + "%")) == Some(-(n as real))
  {
    var u := NatToDigits(n);
    ParseNat(n);
    PercentageOfValue(u, n as real);
  }

  lemma PercentageOfValue(u: string, v: real)
    requires |u| >= 1 && AllDigits(u) && ParseDecimal(u) == Some(v)
    ensures ParsePercentage(Some(u + "%")) == Some(v)
    ensures ParsePercentage(Some("-" + u + "%")) == Some(-v)
  {
    DigitsArePlain(u);
    PercentageOfLiteral(u);
    PercentageSign(u);
    assert ParsePercentage(Some(u)) == Some(v);
    NegatedOption(ParsePercentage(Some(u)), ParsePercentage(Some("-" + u + "%")), v);
  }

  lemma NegatedOption(p: Option<real>, q: Option<real>, v: real)
    requires p == Some(v) && (q.Some? <==> p.Some?) && (p.Some? ==> q.value == -p.value)
    ensures q == Some(-v)
  {
  }

  /** A digit run is presentable, holds no '%' and carries no sign. */
  lemma DigitsArePlain(u: string)
    requires |u| >= 1 && AllDigits(u)
    ensures Presentable(u) && '%' !in u && !IsSign(u[0]) && !IsSign(u[|u| - 1])
  {
    assert IsDigit(u[0]) && IsDigit(u[|u| - 1]);
    assert forall k :: 0 <= k < |u| ==> u[k] != '%';
  }

  /** On text made of digits, points and '%' signs, a percentage is read exactly when
      the text holds a digit and at most one point. */
  lemma PercentageAcceptsIff(s: string)
    requires forall i :: 0 <= i < |s| ==> IsNumeric(s[i]) || s[i] == '%'
    ensures ParsePercentage(Some(s)).Some? <==> HasDigit(s) && Count(s, '.') <= 1
  {
    if |s| > 0 {
      var f := Filter(s, NotPercent);
      PercentageIsUnsigned(s);
      PercentKeepsNumeric(s);
      UnsignedAcceptsIff(f);
      PercentFilteredCounts(s);
    }
  }

  /** Text made of digits, points and '%' signs is read as the unsigned literal left
      once its '%' signs are dropped. */
  lemma PercentageIsUnsigned(s: string)
    requires |s| > 0
    requires forall i :: 0 <= i < |s| ==> IsNumeric(s[i]) || s[i] == '%'
    ensures ParsePercentage(Some(s)) == ParseUnsigned(Filter(s, NotPercent))
  {
    assert !IsWhiteSpace(s[0]);
    var f := Filter(s, NotPercent);
    PercentKeepsNumeric(s);
    UnsignedOnly(f);
    TrimNoWhite(f);
  }

  lemma PercentFilteredCounts(s: string)
    requires forall i :: 0 <= i < |s| ==> IsNumeric(s[i]) || s[i] == '%'
    ensures var f := Filter(s, NotPercent);
      Count(f, '.') <= 1 && Count(f, '.') < |f| <==> HasDigit(s) && Count(s, '.') <= 1
  {
    var f := Filter(s, NotPercent);
    PercentKeepsNumeric(s);
    FilterAll(f, IsNumeric);
    NumericCounts(f);
    FilterCount(s, NotPercent, '.');
    PercentKeepsDigit(s);
  }

  lemma PercentKeepsNumeric(s: string)
    requires forall i :: 0 <= i < |s| ==> IsNumeric(s[i]) || s[i] == '%'
    ensures forall i :: 0 <= i < |Filter(s, NotPercent)| ==> IsNumeric(Filter(s, NotPercent)[i])
  {
    var f := Filter(s, NotPercent);
    forall i | 0 <= i < |f|
      ensures IsNumeric(f[i])
    {
      assert f[i] in f;
      FilterMember(s, NotPercent, f[i]);
      var j :| 0 <= j < |s| && s[j] == f[i];
    }
  }

  lemma PercentKeepsDigit(s: string)
    ensures HasDigit(Filter(s, NotPercent)) <==> HasDigit(s)
  {
    var f := Filter(s, NotPercent);
    if HasDigit(s) {
      var j :| 0 <= j < |s| && IsDigit(s[j]);
      assert s[j] in s;
      FilterMember(s, NotPercent, s[j]);
      var k :| 0 <= k < |f| && f[k] == s[j];
    }
    if HasDigit(f) {
      var k :| 0 <= k < |f| && IsDigit(f[k]);
      assert f[k] in f;
      FilterMember(s, NotPercent, f[k]);
      var j :| 0 <= j < |s| && s[j] == f[k];
    }
  }

  // ---- one table row ----

  /** `x?.Trim()`. */
  function TrimOpt(x: Option<string>): Option<string> {
    match x
    case None => None
    case Some(v) => Some(Trim(v))
  }

  /** `pieces.ElementAtOrDefault(i)`. */
  function ElementAtOrDefault(pieces: seq<string>, i: nat): (r: Option<string>)
    ensures r.Some? <==> i < |pieces|
  {
    if i < |pieces| then Some(pieces[i]) else None
  }

  /** An image path made absolute: the site origin followed by the path with every
      "./" replaced by "/"; a missing image stays missing. */
  function RewriteIcon(src: Option<string>): (r: Option<string>)
    ensures r.Some? <==> src.Some?
    ensures r.Some? ==> |r.value| >= |SiteOrigin| && r.value[..|SiteOrigin|] == SiteOrigin
  {
    match src
    case None => None
    case Some(path) =>
      var url := SiteOrigin + ReplaceAll(path, "./", "/");
      assert url[..|SiteOrigin|] == SiteOrigin;
      Some(url)
  }

  /** A path holding no "./" is only prefixed with the site origin. */
  lemma RewriteIconPlain(path: string)
    requires !Occurs("./", path)
    ensures RewriteIcon(Some(path)) == Some(SiteOrigin + path)
  {
    ReplaceAbsent(path, "./", "/");
  }

  /** A path starting with "./" loses its dot, and the rest of the path is rewritten
      on its own. */
  lemma RewriteIconRelative(rest: string)
    ensures RewriteIcon(Some("./" + rest)) == Some(SiteOrigin + "/" + ReplaceAll(rest, "./", "/"))
  {
    ReplacePrefix("./", rest, "/");
    AppendAssoc(SiteOrigin, "/", ReplaceAll(rest, "./", "/"));
  }

  /** The price cell split into its non-empty lines: price first, change second. */
  function PriceLines(cell: Cell): seq<string> {
    SplitRemoveEmpty(Trim(cell.innerText), '\n')
  }

  /** The body of the row loop: a row with fewer than six cells, or whose trimmed code
      or name is missing or blank, yields nothing; otherwise one quote whose numeric
      fields are each parsed independently and may be missing. */
  function RowToCoin(row: Row): (r: Option<CoinInfo>)
    ensures r.Some? ==> row.Some? && |row.value| >= 6 && ValidQuote(r.value)
  {
    if row.None? || |row.value| < 6 then None else CellsToCoin(row.value)
  }

  /** The rules for a row with at least six cells. */
  function CellsToCoin(tds: seq<Cell>): (r: Option<CoinInfo>)
    requires |tds| >= 6
    ensures r.Some? ==> ValidQuote(r.value)
  {
      var icon := TrimOpt(tds[0].imgSrc);
      var name := TrimOpt(tds[1].firstDivText);
      var code := TrimOpt(tds[1].codeDivText);
      var lines := PriceLines(tds[2]);
      var price := ParseCurrency(ElementAtOrDefault(lines, 0));
      var change := ParsePercentage(ElementAtOrDefault(lines, 1));
      var priceAud := ParseCurrency(Some(Trim(tds[3].innerText)));
      var marketCap := ParseAbbreviatedNumber(Some(Trim(tds[4].innerText)));
      var volume := ParseAbbreviatedNumber(Some(Trim(tds[5].innerText)));
      if !IsNullOrWhiteSpace(code) && !IsNullOrWhiteSpace(name) then
        PresentableTrim(tds[1].codeDivText.value);
        PresentableTrim(tds[1].firstDivText.value);
        Some(CoinInfo(code.value, name.value, price, priceAud, marketCap, volume, change,
                      RewriteIcon(icon)))
      else
        None
  }

  /** A non-empty text that neither starts nor ends with white space: one that
      trimming leaves as it is and that is not blank (see `PresentableIsTrimmed`). */
  predicate Presentable(s: string) {
    s != [] && !IsWhiteSpace(s[0]) && !IsWhiteSpace(s[|s| - 1])
  }

  lemma PresentableIsTrimmed(s: string)
    requires Presentable(s)
    ensures Trim(s) == s && !AllWhiteSpace(s)
  {
  }

  /** What every emitted quote satisfies: a presentable code and name. */
  predicate ValidQuote(c: CoinInfo) {
    Presentable(c.code) && Presentable(c.name)
  }

  /** A row is kept exactly when it has at least six cells and both its code and its
      name text are present and not blank; the numeric cells play no part. */
  lemma RowKeptIff(row: Row)
    ensures RowToCoin(row).Some? <==>
      && row.Some? && |row.value| >= 6
      && row.value[1].codeDivText.Some? && !AllWhiteSpace(row.value[1].codeDivText.value)
      && row.value[1].firstDivText.Some? && !AllWhiteSpace(row.value[1].firstDivText.value)
  {
    if row.Some? && |row.value| >= 6 {
      var cell := row.value[1];
      if cell.codeDivText.Some? {
        TrimBlankIff(cell.codeDivText.value);
      }
      if cell.firstDivText.Some? {
        TrimBlankIff(cell.firstDivText.value);
      }
    }
  }

  lemma TrimBlankIff(s: string)
    ensures AllWhiteSpace(Trim(s)) <==> AllWhiteSpace(s)
  {
    TrimEmptyIffBlank(s);
    var a, b := TrimSlice(s);
    if Trim(s) != [] {
      assert !IsWhiteSpace(Trim(s)[0]);
    }
  }

  /** A kept row's quote has its code and name trimmed and non-blank, takes them from
      the code and name cells, reads price and change from the first two lines of the
      price cell (missing when the line is), the Australian-dollar price from the fourth
      cell, market cap and volume from the fifth and sixth, and has an absolute icon URL
      built from the trimmed image path exactly when the row has an image. */
  lemma RowQuoteShape(row: Row)
    requires RowToCoin(row).Some?
    ensures var c := RowToCoin(row).value;
      && Presentable(c.code) && Presentable(c.name)
      && c.code == Trim(row.value[1].codeDivText.value)
      && c.name == Trim(row.value[1].firstDivText.value)
    ensures var c, lines := RowToCoin(row).value, PriceLines(row.value[2]);
      && (|lines| < 1 ==> c.price.None?)
      && (|lines| >= 1 ==> c.price == ParseCurrency(Some(lines[0])))
      && (|lines| < 2 ==> c.change.None?)
      && (|lines| >= 2 ==> c.change == ParsePercentage(Some(lines[1])))
    ensures var c := RowToCoin(row).value;
      && c.priceAud == ParseCurrency(Some(Trim(row.value[3].innerText)))
      && c.marketCap == ParseAbbreviatedNumber(Some(Trim(row.value[4].innerText)))
      && c.volume == ParseAbbreviatedNumber(Some(Trim(row.value[5].innerText)))
    ensures var c := RowToCoin(row).value;
      && c.icon == RewriteIcon(TrimOpt(row.value[0].imgSrc))
      && (c.icon.Some? <==> row.value[0].imgSrc.Some?)
  {
    var c := RowToCoin(row).value;
    PresentableTrim(row.value[1].codeDivText.value);
    PresentableTrim(row.value[1].firstDivText.value);
  }

  lemma PresentableTrim(s: string)
    requires !AllWhiteSpace(Trim(s))
    ensures Presentable(Trim(s))
  {
    var a, b := TrimSlice(s);
  }

  // ---- the whole listing ----

  /** `[o.value]` when there is a value, `[]` otherwise. */
  function OptionSeq<B>(o: Option<B>): seq<B> {
    if o.Some? then [o.value] else []
  }

  /** What `convert` yields for each element of `xs`, in order, skipping the elements it
      rejects. */
  function KeepConverted<A, B>(convert: A -> Option<B>, xs: seq<A>): (r: seq<B>)
    ensures |r| <= |xs|
  {
    if xs == [] then []
    else KeepConverted(convert, xs[..|xs| - 1]) + OptionSeq(convert(xs[|xs| - 1]))
  }

  lemma KeepConvertedSnoc<A, B>(convert: A -> Option<B>, xs: seq<A>, x: A)
    ensures KeepConverted(convert, xs + [x]) == KeepConverted(convert, xs) + OptionSeq(convert(x))
  {
    assert (xs + [x])[..|xs|] == xs;
  }

  lemma {:induction false} KeepConvertedAppend<A, B>(convert: A -> Option<B>, a: seq<A>, b: seq<A>)
    ensures KeepConverted(convert, a + b) == KeepConverted(convert, a) + KeepConverted(convert, b)
  {
    if b == [] {
      assert a + b == a;
    } else {
      var b', last := b[..|b| - 1], b[|b| - 1];
      assert a + b == (a + b') + [last];
      assert b == b' + [last];
      KeepConvertedAppend(convert, a, b');
      KeepConvertedSnoc(convert, a + b', last);
      KeepConvertedSnoc(convert, b', last);
    }
  }

  /** A property of every value `convert` yields holds of every kept value. */
  lemma {:induction false} KeepConvertedAll<A, B>(convert: A -> Option<B>, xs: seq<A>, p: B -> bool)
    requires forall x :: convert(x).Some? ==> p(convert(x).value)
    ensures forall i :: 0 <= i < |KeepConverted(convert, xs)| ==> p(KeepConverted(convert, xs)[i])
  {
    if xs != [] {
      KeepConvertedAll(convert, xs[..|xs| - 1], p);
    }
  }

  /** The `foreach` over the coin rows, appending what each row yields; written once for
      any conversion, and used with `RowToCoin`. */
  method CollectConverted<A, B>(convert: A -> Option<B>, xs: seq<A>) returns (ys: seq<B>)
    ensures ys == KeepConverted(convert, xs)
  {
    ys := [];
    var i := 0;
    while i < |xs|
      invariant 0 <= i <= |xs|
      invariant ys == KeepConverted(convert, xs[..i])
    {
      assert xs[..i + 1][..i] == xs[..i];
      var y := convert(xs[i]);
      if y.Some? {
        ys := ys + [y.value];
      }
      i := i + 1;
    }
    assert xs[..|xs|] == xs;
  }

  /** The quotes of the rows, in row order; at most one per row. */
  function Quotes(rows: seq<Row>): (r: seq<CoinInfo>)
    ensures |r| <= |rows|
  {
    KeepConverted(RowToCoin, rows)
  }

  /** The quotes of two runs of rows are the quotes of each, in order. */
  lemma QuotesAppend(a: seq<Row>, b: seq<Row>)
    ensures Quotes(a + b) == Quotes(a) + Quotes(b)
  {
    KeepConvertedAppend(RowToCoin, a, b);
  }

  /** Every emitted quote has a presentable code and name. */
  lemma QuotesValid(rows: seq<Row>)
    ensures forall i :: 0 <= i < |Quotes(rows)| ==> ValidQuote(Quotes(rows)[i])
  {
    KeepConvertedAll(RowToCoin, rows, ValidQuote);
  }

  /** A single row contributes its quote, or nothing. */
  lemma QuotesOfRow(row: Row)
    ensures Quotes([row]) == OptionSeq(RowToCoin(row))
  {
    KeepConvertedSnoc(RowToCoin, [], row);
  }

  /** The scraper: fetches the listing and keeps the last successfully parsed list. */
  class CoinspotScraper {
    var cachedCoinList: seq<CoinInfo>

    constructor ()
      ensures cachedCoinList == []
    {
      cachedCoinList := [];
    }

    /** Loads the page and walks its coin rows. A failed request, or a document with no
        coin rows (the loop then throws), leaves the cache as it was; otherwise the cache
        becomes the returned list. */
    method FetchCoinList(page: Page) returns (r: Result<seq<CoinInfo>, FetchError>)
      modifies this
      ensures page.Unreachable? ==> r == Err(RequestFailed)
      ensures page.Loaded? && page.rows.None? ==> r == Err(NoCoinRows)
      ensures page.Loaded? && page.rows.Some? ==> r == Ok(Quotes(page.rows.value))
      ensures r.Ok? ==> cachedCoinList == r.value
      ensures r.Err? ==> cachedCoinList == old(cachedCoinList)
    {
      if page.Unreachable? {
        return Err(RequestFailed);
      }
      if page.rows.None? {
        return Err(NoCoinRows);
      }
      var coins := CollectConverted(RowToCoin, page.rows.value);
      cachedCoinList := coins;
      return Ok(coins);
    }

    /** The list of the last successful fetch. */
    function GetCachedCoinList(): (r: seq<CoinInfo>)
      reads this
      ensures r == cachedCoinList
    {
      cachedCoinList
    }
  }
}
