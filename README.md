# Coin market scraper, snapshot collector and strength analyzer: a Dafny model

This project models the core of a small market-data service. The service scrapes a
coin listing page, stores point-in-time quotes, and derives trading indicators from
the stored history. The model covers three pieces:

- **The scraper** (`CoinspotScraper`). It walks the coin rows of the listing page and
  turns each row into a `CoinInfo` quote. Currency, percentage and abbreviated ("1.5M")
  amounts are parsed defensively: bad input gives a missing value, not an error. The
  last successfully parsed list is cached.
- **The collector** (`CoinSnapshotCollector`). Its loop runs until cancellation. Each
  cycle fetches the listing, maps every quote to a stored `CoinInfoSnapshot` row (a
  missing number is stored as 0), appends the rows and saves them. A failure in any
  step is caught, and the loop goes on.
- **The analyzer** (`CoinStrengthAnalyzer`). It reads the newest 50 snapshots of a coin
  as candles and computes:
  - momentum, variance (the square of the volatility) and average bid-ask spread;
  - EMA, MACD and the simplified RSI;
  - a clamped composite strength score;
  - an ordered list of strategy hints.

Modules:

| module | file | contents |
|---|---|---|
| `Wrappers` | `wrappers.dfy` | `Option` and `Result` |
| `Text` | `text.dfy` | white space, `Trim`, character filters, `Split`/`Join`, `Replace` |
| `Decimal` | `decimal.dfy` | the accepted grammar of `decimal.TryParse` and literal values |
| `Scraper` | `scraper.dfy` | `CoinInfo`, the three parsers, the row rules, the row loop, the scraper class |
| `ScraperExamples` | `scraper_examples.dfy` | the parsers on concrete inputs |
| `Store` | `store.dfy` | the snapshot record and the history query |
| `Analyzer` | `analyzer.dfy` | the candle window and every indicator |
| `Collector` | `collector.dfy` | the quote-to-row mapping and the collector class with its loop |

Decimals and doubles are modelled as `real`. Timestamps are integer tick counts.

The HTML page is given to the model already parsed. A `Page` is either unreachable, or
a loaded document whose coin-row query returned its rows or nothing. A row is its list
of `td` cells. Each cell is its inner text plus what three sub-queries return: the
`img` source, the first `div` text and the `grey-500` div text.

The clock is a parameter. The collector's endless loop is modelled over a finite
sequence of `Cycle` inputs. Each `Cycle` says:

- whether cancellation was requested;
- the page that the fetch found;
- whether the save succeeded;
- the clock readings.

Behaviour of the source worth noting:

- **Percentage parsing** removes every '%' anywhere in the text, not only a trailing
  one, and then trims. The sign survives, before or after the number: "-2.5%" and
  "2.5-%" both read as -2.5.
- **Icon paths.** The site origin is prepended to the path, and every "./" in it becomes
  "/". A leading marker is not replaced by the origin. The replacement is one pass from
  left to right, so "../x" becomes "./x" after the origin.
- **Magnitude suffixes** are recognised in upper case only, so "1.5m" reads as 1.5.
- **A page without coin rows** makes the row loop throw. The model's `FetchCoinList`
  returns `NoCoinRows` and leaves the cache alone. The collector catches the error like
  any other.
- **The RSI is 0** exactly when no visited newer price is below its older neighbour,
  that is, when the gains are 0. Its range is [0, 100): it never reaches 100.

## Model

| member | source | states |
|---|---|---|
| `Scraper.CoinspotScraper.FetchCoinList` | coinspot-api/Services/CoinspotScraper.cs:16-62 | A failed request gives `RequestFailed`. A document without coin rows gives `NoCoinRows`. Both leave the cache unchanged. Otherwise the result is the quotes of the rows, in row order, and the cache becomes that list. |
| `Scraper.CoinspotScraper.GetCachedCoinList` | coinspot-api/Services/CoinspotScraper.cs:64 | The cached list is returned as it is. |
| `Scraper.CoinspotScraper.constructor` | coinspot-api/Services/CoinspotScraper.cs:8-14 | A new scraper's cache is empty. |
| `Scraper.CollectConverted` | coinspot-api/Services/CoinspotScraper.cs:25-58 | The row loop appends, in row order, the quote of every row that yields one and skips the others. |
| `Scraper.KeepConvertedAppend` | coinspot-api/Services/CoinspotScraper.cs:27-58 | The rows are processed independently: the quotes of two runs of rows are the quotes of each, in order. |
| `Scraper.KeepConvertedAll` | coinspot-api/Services/CoinspotScraper.cs:27-58 | A property of every quote a single row can yield holds of every quote in the list. |
| `Scraper.Quotes` | coinspot-api/Services/CoinspotScraper.cs:27-58 | The list has at most one quote per row. |
| `Scraper.QuotesAppend` | coinspot-api/Services/CoinspotScraper.cs:27-58 | The quotes of concatenated rows are the concatenated quotes. |
| `Scraper.QuotesValid` | coinspot-api/Services/CoinspotScraper.cs:44-57 | Every emitted quote has a non-empty code and name that neither start nor end with white space. |
| `Scraper.QuotesOfRow` | coinspot-api/Services/CoinspotScraper.cs:27-58 | A single row contributes exactly its own quote, or nothing. |
| `Scraper.RowKeptIff` | coinspot-api/Services/CoinspotScraper.cs:29-57 | A row is kept exactly when it has at least six cells and its code and name texts are both present and not blank. The numeric cells play no part. |
| `Scraper.RowToCoin` | coinspot-api/Services/CoinspotScraper.cs:29-57 | A row yields a quote only when it has at least six cells, and the quote's code and name are presentable: non-empty, with no white space at either end. |
| `Scraper.CellsToCoin` | coinspot-api/Services/CoinspotScraper.cs:31-57 | Every quote built from six cells has a presentable code and name. |
| `Scraper.RowQuoteShape` | coinspot-api/Services/CoinspotScraper.cs:29-57 | In a kept row's quote: the code and name are the trimmed texts of the code and name divs. Price is the currency reading of the first non-empty line of the price cell and change the percentage reading of the second; each is missing when its line is. The Australian-dollar price is the currency reading of the trimmed fourth cell. Market cap and volume are the abbreviated readings of the trimmed fifth and sixth cells. The icon is the rewritten trimmed image path, present exactly when the row has an image. |
| `Scraper.PresentableIsTrimmed` | coinspot-api/Services/CoinspotScraper.cs:33-34 | A presentable text is left as it is by `Trim` and is not blank. |
| `Scraper.PresentableTrim` | coinspot-api/Services/CoinspotScraper.cs:33-44 | The trim of a text that is not blank after trimming is presentable. |
| `Scraper.TrimBlankIff` | coinspot-api/Services/CoinspotScraper.cs:33-44 | A trimmed text is blank exactly when the original text is blank. |
| `Scraper.ElementAtOrDefault` | coinspot-api/Services/CoinspotScraper.cs:37-38 | A line is present exactly when its index is within the split. |
| `Scraper.RewriteIcon` | coinspot-api/Services/CoinspotScraper.cs:55 | An icon URL exists exactly when the row has an image source, and it always starts with the site origin. |
| `Scraper.RewriteIconPlain` | coinspot-api/Services/CoinspotScraper.cs:55 | A path holding no "./" only gains the site origin in front. |
| `Scraper.RewriteIconRelative` | coinspot-api/Services/CoinspotScraper.cs:55 | A path starting with "./" becomes the origin, "/", and the rewritten rest of the path. |
| `ScraperExamples.IconRelative` | coinspot-api/Services/CoinspotScraper.cs:55 | "./coins/btc.png" becomes "https://www.coinspot.com.au/coins/btc.png". |
| `ScraperExamples.IconSinglePass` | coinspot-api/Services/CoinspotScraper.cs:55 | "../x" becomes the origin followed by "./x": a "./" exposed by a replacement is not replaced again. |
| `Scraper.StripNonNumeric` | coinspot-api/Services/CoinspotScraper.cs:69 | Only digits and points remain. |
| `Scraper.ParseCurrency` | coinspot-api/Services/CoinspotScraper.cs:66-71 | Missing or blank input gives no value. A value is never negative, because the sign is among the deleted characters. |
| `Scraper.CurrencyAcceptsIff` | coinspot-api/Services/CoinspotScraper.cs:66-71 | Currency parsing succeeds exactly when the text holds a digit and at most one point. |
| `Scraper.NumericCounts` | coinspot-api/Services/CoinspotScraper.cs:69 | The regular expression keeps every point. The kept text holds more than the points exactly when the input holds a digit. |
| `Scraper.CurrencyIsUnsigned` | coinspot-api/Services/CoinspotScraper.cs:68-70 | On non-blank text, currency parsing is `TryParse` of the kept characters, which hold no sign. |
| `Scraper.NumericLength` | coinspot-api/Services/CoinspotScraper.cs:69 | The kept text is as long as the points and the digits of the input together. |
| `Scraper.ParsePercentage` | coinspot-api/Services/CoinspotScraper.cs:73-78 | Missing or blank input gives no value. |
| `Scraper.PercentRemovedAnywhere` | coinspot-api/Services/CoinspotScraper.cs:76 | A '%' anywhere in the text makes no difference to the reading. |
| `Scraper.PercentageOfLiteral` | coinspot-api/Services/CoinspotScraper.cs:73-78 | A literal with no white space at its ends and no '%' reads as `TryParse` reads it, with or without a '%' after it. |
| `Scraper.PercentageSign` | coinspot-api/Services/CoinspotScraper.cs:73-78 | A leading minus sign keeps a reading exactly when the unsigned text has one, and negates it. |
| `Scraper.PercentageTrailingSign` | coinspot-api/Services/CoinspotScraper.cs:73-78 | A minus sign after the number reads like one before it: "5-%" is -5. |
| `Scraper.PercentagePrinted` | coinspot-api/Services/CoinspotScraper.cs:73-78 | The printed digits of a natural followed by '%' read as that natural, and as its negation with a leading minus sign. |
| `Scraper.PercentageAcceptsIff` | coinspot-api/Services/CoinspotScraper.cs:73-78 | On text of digits, points and '%' signs, a reading exists exactly when the text holds a digit and at most one point. |
| `Scraper.PercentageIsUnsigned` | coinspot-api/Services/CoinspotScraper.cs:76-77 | Non-empty text of digits, points and '%' signs reads as the unsigned literal left once the '%' signs are gone. |
| `Scraper.PercentDropped` | coinspot-api/Services/CoinspotScraper.cs:76 | Removing '%' signs ignores a '%' wherever it stands. |
| `Scraper.BlankFiltered` | coinspot-api/Services/CoinspotScraper.cs:75-76 | Blank text stays blank once its '%' signs are removed, and trims to nothing. |
| `Scraper.Multiplier` | coinspot-api/Services/CoinspotScraper.cs:85-88 | The magnitude is 1, a thousand, a million or a billion, and never below 1. |
| `Scraper.MultiplierCaseSensitive` | coinspot-api/Services/CoinspotScraper.cs:86-88 | A lower-case 'b', 'm' or 'k' at the end multiplies by 1: `EndsWith` is case-sensitive. |
| `Scraper.ParseAbbreviatedNumber` | coinspot-api/Services/CoinspotScraper.cs:80-92 | Missing or blank input gives no value. A value is never negative. |
| `Scraper.AbbreviatedAcceptsIff` | coinspot-api/Services/CoinspotScraper.cs:80-92 | Parsing succeeds exactly when the text holds a digit and at most one point. The value is then the currency reading of the trimmed text times the magnitude of its last character. |
| `Scraper.Scale` | coinspot-api/Services/CoinspotScraper.cs:91 | Multiplying a parsed non-negative amount by a magnitude always gives a non-negative value. |
| `Scraper.TrimKeepsNonWhite` | coinspot-api/Services/CoinspotScraper.cs:83 | Trimming keeps every digit and every point. |
| `Scraper.SliceKeepsNonWhite` | coinspot-api/Services/CoinspotScraper.cs:83 | Cutting white space off either end keeps the digits and the points. |
| `Scraper.SliceKeepsDigits` | coinspot-api/Services/CoinspotScraper.cs:83 | Cutting white space off either end keeps whether the text holds a digit. |
| `Scraper.SliceKeepsPoints` | coinspot-api/Services/CoinspotScraper.cs:83 | Cutting white space off either end keeps the number of points. |
| `Scraper.WhiteHasNoPoint` | coinspot-api/Services/CoinspotScraper.cs:83 | Blank text holds no point. |
| `ScraperExamples.CurrencyGrouped` | coinspot-api/Services/CoinspotScraper.cs:66-71 | "$1,234.50" reads as 1234.5. |
| `ScraperExamples.CurrencySignDropped` | coinspot-api/Services/CoinspotScraper.cs:69-70 | "-5" reads as 5, because the regular expression deletes the minus sign. |
| `ScraperExamples.CurrencyRejectsPoint` | coinspot-api/Services/CoinspotScraper.cs:69-70 | "." has no value. |
| `ScraperExamples.CurrencyRejectsTwoPoints` | coinspot-api/Services/CoinspotScraper.cs:69-70 | "1.2.3" has no value. |
| `ScraperExamples.PercentageSigned` | coinspot-api/Services/CoinspotScraper.cs:73-78 | "-2.5%" reads as -2.5: the percent sign goes and the minus sign stays. |
| `ScraperExamples.PercentageTrailingMinus` | coinspot-api/Services/CoinspotScraper.cs:73-78 | "5-%" reads as -5. |
| `ScraperExamples.AbbreviatedMillion` | coinspot-api/Services/CoinspotScraper.cs:80-92 | "1.5M" reads as 1500000. |
| `ScraperExamples.AbbreviatedBillion` | coinspot-api/Services/CoinspotScraper.cs:80-92 | "2B" reads as 2000000000. |
| `ScraperExamples.AbbreviatedThousand` | coinspot-api/Services/CoinspotScraper.cs:80-92 | "3K" reads as 3000. |
| `ScraperExamples.AbbreviatedLowerCase` | coinspot-api/Services/CoinspotScraper.cs:86-91 | "1.5m" reads as 1.5. |
| `ScraperExamples.AbbreviatedSuffixOnly` | coinspot-api/Services/CoinspotScraper.cs:80-92 | "M" and "" have no value. |
| `ScraperExamples.CurrencyOnePointFive` | coinspot-api/Services/CoinspotScraper.cs:90-91 | The kept characters of "1.5M" and "1.5m" read as 1.5. |
| `ScraperExamples.OneDigitPoint` | coinspot-api/Services/CoinspotScraper.cs:77 | `TryParse` of "d.e", for single digits d and e, is d + e/10. |
| `ScraperExamples.OneDigit` | coinspot-api/Services/CoinspotScraper.cs:70 | `TryParse` of a single digit is its value. |
| `Decimal.UnsignedNonNegative` | coinspot-api/Services/CoinspotScraper.cs:70 | An unsigned literal never denotes a negative number. |
| `Decimal.UnsignedAcceptsIff` | coinspot-api/Services/CoinspotScraper.cs:70 | Over digits and points, a literal is accepted exactly when it has at most one point and at least one digit. |
| `Decimal.ParseNat` | coinspot-api/Services/CoinspotScraper.cs:70 | `TryParse` of the decimal numeral of a natural number gives that number. |
| `Decimal.ParseFraction` | coinspot-api/Services/CoinspotScraper.cs:70 | `TryParse` of "w.f" gives w + f / 10^(digits of f). |
| `Decimal.ParsePointLiteral` | coinspot-api/Services/CoinspotScraper.cs:70 | `TryParse` of "a.b", for digit runs a and b that are not both empty, gives the literal's value. |
| `Decimal.ParseDigitRun` | coinspot-api/Services/CoinspotScraper.cs:70 | `TryParse` of a non-empty digit run gives its value. |
| `Decimal.ParseDecimal` | coinspot-api/Services/CoinspotScraper.cs:70 | `TryParse` rejects empty text. Its accepted grammar (one optional sign, before or after an unsigned literal) is stated by the lemmas below. |
| `Decimal.UnsignedOnly` | coinspot-api/Services/CoinspotScraper.cs:70 | On digits and points only, `TryParse` reads the unsigned literal. |
| `Decimal.ParseNegated` | coinspot-api/Services/CoinspotScraper.cs:77 | A leading '-' accepts exactly what the unsigned text accepts, and negates its value. |
| `Decimal.TrailingSign` | coinspot-api/Services/CoinspotScraper.cs:77 | A sign after the literal reads the same as that sign before it. |
| `Decimal.TwoSigns` | coinspot-api/Services/CoinspotScraper.cs:77 | A sign on both sides is rejected. |
| `Decimal.UnsignedRejectsSign` | coinspot-api/Services/CoinspotScraper.cs:77 | An unsigned literal never ends in a sign. |
| `Decimal.DigitsValueOfNat` | coinspot-api/Services/CoinspotScraper.cs:70 | Reading back the printed digits of a natural number gives that number. |
| `Decimal.IndexOf` | coinspot-api/Services/CoinspotScraper.cs:70 | The position of the first point, or the length when there is none. |
| `Text.Trim` | coinspot-api/Services/CoinspotScraper.cs:32-34 | Trimming never lengthens the text. |
| `Text.TrimSlice` | coinspot-api/Services/CoinspotScraper.cs:32-34 | `Trim` cuts only white space from either end, and its result neither starts nor ends with white space. |
| `Text.TrimEmptyIffBlank` | coinspot-api/Services/CoinspotScraper.cs:44 | Trimming leaves nothing exactly when the text is blank. |
| `Text.TrimIdempotent` | coinspot-api/Services/CoinspotScraper.cs:76 | Trimming twice is trimming once. |
| `Text.JoinSplit` | coinspot-api/Services/CoinspotScraper.cs:36 | Joining the pieces of `Split('\n')` with the separator gives back the text. |
| `Text.SplitJoin` | coinspot-api/Services/CoinspotScraper.cs:36 | Splitting a join of separator-free pieces gives back the pieces. |
| `Text.SplitPiecesFree` | coinspot-api/Services/CoinspotScraper.cs:36 | No piece of a split holds the separator. |
| `Text.SplitRemoveEmptySpec` | coinspot-api/Services/CoinspotScraper.cs:36 | With `RemoveEmptyEntries`, no piece is empty or holds the separator, and the pieces concatenate to the text with the separators removed. |
| `Text.JoinFilter` | coinspot-api/Services/CoinspotScraper.cs:36 | Removing the separators from a join of separator-free pieces gives the pieces' concatenation. |
| `Text.ReplaceAll` | coinspot-api/Services/CoinspotScraper.cs:55 | Replacing a pattern by one no longer never lengthens the text, and by one of the same length keeps its length. |
| `Text.ReplaceAbsent` | coinspot-api/Services/CoinspotScraper.cs:55 | A path without "./" is left unchanged by `Replace`. |
| `Text.ReplacePrefix` | coinspot-api/Services/CoinspotScraper.cs:55 | The pattern at the front is replaced, and the scan goes on after it. |
| `Text.ReplaceSkip` | coinspot-api/Services/CoinspotScraper.cs:55 | A prefix in which the pattern does not start is kept as it is, and the rest is rewritten. |
| `Text.ReplaceSkipFree` | coinspot-api/Services/CoinspotScraper.cs:55 | A prefix without the pattern's first character is kept as it is. |
| `Text.FilterMember` | coinspot-api/Services/CoinspotScraper.cs:69 | A character survives a filter exactly when the filter keeps it and it occurs in the text. |
| `Text.TrimNoWhite` | coinspot-api/Services/CoinspotScraper.cs:76 | Text without white space is left as it is by `Trim`. |
| `Text.FilterCount` | coinspot-api/Services/CoinspotScraper.cs:69 | A character the filter keeps occurs as often after filtering as before. A character it rejects no longer occurs. |
| `Text.FilterNonEmptyIff` | coinspot-api/Services/CoinspotScraper.cs:69 | A filter keeps something exactly when some character passes it. |
| `Text.CountZeroIffAbsent` | coinspot-api/Services/CoinspotScraper.cs:69-70 | A character occurs 0 times exactly when it is absent. |
| `Store.RecentSnapshots` | coinspot-api/Services/CoinStrengthAnalyzer.cs:48-51 | The history query returns at most the limit. |
| `Store.RecentSnapshotsSpec` | coinspot-api/Services/CoinStrengthAnalyzer.cs:48-51 | The history query returns at most the limit of the coin's rows, and all of them when there are fewer. Every row has the requested code and is stored. The result is newest first and is a sub-multiset of the coin's rows. No row it leaves out is newer than one it returns. |
| `Store.MatchingCount` | coinspot-api/Services/CoinStrengthAnalyzer.cs:49 | The code filter keeps every row of that code, as often as it is stored, and no other row. |
| `Store.MatchingCodes` | coinspot-api/Services/CoinStrengthAnalyzer.cs:49 | Every kept row has the requested code. |
| `Store.SortDescendingSpec` | coinspot-api/Services/CoinStrengthAnalyzer.cs:50 | Ordering by descending timestamp gives a newest-first permutation of its input. |
| `Store.InsertSorted` | coinspot-api/Services/CoinStrengthAnalyzer.cs:50 | Inserting one row into a newest-first list keeps it newest-first. |
| `Store.InsertPermutes` | coinspot-api/Services/CoinStrengthAnalyzer.cs:50 | Insertion adds exactly the one row. |
| `Store.NewestPrefix` | coinspot-api/Services/CoinStrengthAnalyzer.cs:51 | `Take` of a newest-first list is newest-first, and nothing it drops is newer than anything it keeps. |
| `Analyzer.Window` | coinspot-api/Services/CoinStrengthAnalyzer.cs:46-59 | The candle window holds at most 50 candles. |
| `Analyzer.WindowSpec` | coinspot-api/Services/CoinStrengthAnalyzer.cs:46-59 | The window has one candle per selected snapshot, newest first, and at most 50 of them. Each candle's last price is the snapshot's price, with the bid 0.5% below and the ask 0.5% above. |
| `Analyzer.Momentum` | coinspot-api/Services/CoinStrengthAnalyzer.cs:61-67 | Momentum is 0 for fewer than two candles. |
| `Analyzer.MomentumSpec` | coinspot-api/Services/CoinStrengthAnalyzer.cs:61-67 | Momentum is 0 for fewer than two candles. Otherwise it is the percentage growth from the oldest candle to the newest. |
| `Analyzer.MomentumSign` | coinspot-api/Services/CoinStrengthAnalyzer.cs:61-67 | With a positive oldest price, momentum is positive exactly when the price rose, and 0 exactly when it is unchanged. |
| `Analyzer.AverageConstant` | coinspot-api/Services/CoinStrengthAnalyzer.cs:71 | The average of a constant sequence is that constant. |
| `Analyzer.AverageBounds` | coinspot-api/Services/CoinStrengthAnalyzer.cs:71 | The average lies between the least and the greatest value. |
| `Analyzer.SumBounds` | coinspot-api/Services/CoinStrengthAnalyzer.cs:71 | A sum of n values in [lo, hi] lies in [n·lo, n·hi]. |
| `Analyzer.Variance` | coinspot-api/Services/CoinStrengthAnalyzer.cs:69-74 | The variance under the square root is never negative. |
| `Analyzer.DeviationsNonNegative` | coinspot-api/Services/CoinStrengthAnalyzer.cs:72 | The squared deviations from any mean sum to a non-negative number. |
| `Analyzer.AverageSpread` | coinspot-api/Services/CoinStrengthAnalyzer.cs:76-80 | With positive bids and no ask below its bid, the average spread is never negative. |
| `Analyzer.SpreadsNonNegative` | coinspot-api/Services/CoinStrengthAnalyzer.cs:78 | With positive bids and no ask below its bid, the spreads sum to a non-negative number. |
| `Analyzer.VarianceConstant` | coinspot-api/Services/CoinStrengthAnalyzer.cs:69-74 | A constant price has itself as mean and variance 0. |
| `Analyzer.CandleSpread` | coinspot-api/Services/CoinStrengthAnalyzer.cs:55-56 | A synthesised candle of a non-zero price has a non-zero bid and the spread 200/199 percent. |
| `Analyzer.WindowSpread` | coinspot-api/Services/CoinStrengthAnalyzer.cs:76-80 | Over a non-empty window of non-zero prices, the average spread is the constant 200/199. |
| `Analyzer.CalculateEma` | coinspot-api/Services/CoinStrengthAnalyzer.cs:82-94 | The loop computes the EMA fold that starts at index 0, the newest candle. |
| `Analyzer.Ema` | coinspot-api/Services/CoinStrengthAnalyzer.cs:82-94 | The EMA is 0 without candles and the price itself with one candle. |
| `Analyzer.EmaSpec` | coinspot-api/Services/CoinStrengthAnalyzer.cs:82-94 | The EMA is 0 with no candles, the price with one candle, and the constant for a constant series. For a period of at least 1, it stays within the range of the prices. |
| `Analyzer.EmaPrefixBounds` | coinspot-api/Services/CoinStrengthAnalyzer.cs:88-91 | Every step with a factor in [0, 1] stays within the range of the prices folded so far. |
| `Analyzer.EmaPrefixConstant` | coinspot-api/Services/CoinStrengthAnalyzer.cs:88-91 | Folding a constant series gives that constant. |
| `Analyzer.EmaPeriodOne` | coinspot-api/Services/CoinStrengthAnalyzer.cs:82-94 | With period 1 the EMA is the oldest price, because the fold starts at the newest candle. |
| `Analyzer.Macd` | coinspot-api/Services/CoinStrengthAnalyzer.cs:96-107 | The signal is an EMA of a series that repeats the MACD value, so, in exact arithmetic, it always equals the MACD. Both are 0 without candles. |
| `Analyzer.MacdNewest26` | coinspot-api/Services/CoinStrengthAnalyzer.cs:98-100 | Only the newest 26 candles affect the MACD. |
| `Analyzer.CalculateRsi` | coinspot-api/Services/CoinStrengthAnalyzer.cs:109-121 | The loop computes the RSI from the accumulated gains and losses of the visited pairs. |
| `Analyzer.Rsi` | coinspot-api/Services/CoinStrengthAnalyzer.cs:109-121 | The RSI is 0 for fewer than two candles or a period below 1, because no pair is visited. |
| `Analyzer.RsiSpec` | coinspot-api/Services/CoinStrengthAnalyzer.cs:109-121 | The RSI lies in [0, 100). It is 0 exactly when no visited newer price is below its older neighbour, and in particular for fewer than two candles or a period below 1. |
| `Analyzer.GainsZeroIff` | coinspot-api/Services/CoinStrengthAnalyzer.cs:112-117 | The gains are 0 exactly when no visited newer price is below the older one. |
| `Analyzer.LossesMinusGains` | coinspot-api/Services/CoinStrengthAnalyzer.cs:112-117 | The visited changes telescope: losses minus gains is the newest visited price minus the oldest. |
| `Analyzer.Visited` | coinspot-api/Services/CoinStrengthAnalyzer.cs:112 | The loop visits fewer pairs than there are candles. |
| `Analyzer.Clamp` | coinspot-api/Services/CoinStrengthAnalyzer.cs:125-127 | The result lies within the bounds and equals the input when the input does. |
| `Analyzer.StrengthScore` | coinspot-api/Services/CoinStrengthAnalyzer.cs:123-129 | The score lies in [0, 100]. |
| `Analyzer.StrengthScoreMonotone` | coinspot-api/Services/CoinStrengthAnalyzer.cs:123-129 | The score rises weakly with momentum, and falls weakly with volatility and with spread. |
| `Analyzer.StrengthScoreTop` | coinspot-api/Services/CoinStrengthAnalyzer.cs:123-129 | The score is 100 exactly when momentum is at least 20 and volatility and spread are at most 0. |
| `Analyzer.ClampMonotone` | coinspot-api/Services/CoinStrengthAnalyzer.cs:125-127 | Clamping is monotone. |
| `Analyzer.DeriveAltcoinStrategy` | coinspot-api/Services/CoinStrengthAnalyzer.cs:131-145 | The method appends the hints of the five tests in order, then the fallback when the list is still empty. |
| `Analyzer.Strategy` | coinspot-api/Services/CoinStrengthAnalyzer.cs:131-145 | The strategy always holds at least one hint. |
| `Analyzer.StrategySpec` | coinspot-api/Services/CoinStrengthAnalyzer.cs:131-145 | The strategy is never empty. Each hint appears exactly when its condition holds, in table order. The fallback appears exactly when no condition holds, and then alone. The two strength hints never appear together. |
| `Analyzer.FiredMembers` | coinspot-api/Services/CoinStrengthAnalyzer.cs:135-139 | A hint is among the fired ones exactly when its test ran and held. The fallback is never among them. |
| `Analyzer.FiredOrdered` | coinspot-api/Services/CoinStrengthAnalyzer.cs:135-139 | The fired hints come out in the order of the tests. |
| `Analyzer.FiredEmptyIff` | coinspot-api/Services/CoinStrengthAnalyzer.cs:141-142 | Nothing fires exactly when no test held. |
| `Analyzer.HintsDistinct` | coinspot-api/Services/CoinStrengthAnalyzer.cs:135-142 | The five hint texts are pairwise different, and none is the fallback. |
| `Analyzer.NoMacdCrossover` | coinspot-api/Services/CoinStrengthAnalyzer.cs:96-107 | With the MACD and signal computed from the same candles, the MACD-crossover hint never appears in exact arithmetic. |
| `Collector.ToSnapshot` | coinspot-api/Services/CoinSnapshotCollector.cs:26-37 | The row copies code, name and icon, keeps every present number, stores 0 for every missing one, and carries the clock reading. |
| `Collector.SnapshotRoundTrip` | coinspot-api/Services/MarketDbContext.cs:17-33 | A quote with every number present survives the trip through a row. A fresh row (id 0) survives the trip through a quote. |
| `Collector.ToSnapshots` | coinspot-api/Services/CoinSnapshotCollector.cs:26-37 | One row per quote. |
| `Collector.CycleBatch` | coinspot-api/Services/CoinSnapshotCollector.cs:21-43 | A cycle adds at most one row per fetched table row, and nothing when the fetch fails. |
| `Collector.CycleBatchSpec` | coinspot-api/Services/CoinSnapshotCollector.cs:21-43 | A cycle whose fetch or save fails adds nothing. A successful one adds one row per quote, in quote order, with the quote's presentable code and name. |
| `Collector.Started` | coinspot-api/Services/CoinSnapshotCollector.cs:17 | The cycles that start are exactly those before the first one that finds cancellation requested. |
| `Collector.CollectedStep` | coinspot-api/Services/CoinSnapshotCollector.cs:17-50 | One more cycle appends its batch and updates the scraper's cache. |
| `Collector.FailedCycleSkipped` | coinspot-api/Services/CoinSnapshotCollector.cs:44-47 | A failing cycle drops out: the other cycles add exactly what they would add without it. |
| `Collector.RecoversAfterFailures` | coinspot-api/Services/CoinSnapshotCollector.cs:17-50 | After two failing cycles the loop goes on, and the table gains exactly the batch of the next successful cycle. |
| `Collector.FlatMapAppend` | coinspot-api/Services/CoinSnapshotCollector.cs:17-50 | The rows of two runs of cycles are the rows of each, in order. |
| `Collector.CoinSnapshotCollector.constructor` | coinspot-api/Services/CoinSnapshotCollector.cs:9-13 | The collector holds the given scraper and starts with an empty table. |
| `Collector.CoinSnapshotCollector.RunCycle` | coinspot-api/Services/CoinSnapshotCollector.cs:19-47 | One pass appends the cycle's batch to the table and updates the scraper's cache as the fetch did. |
| `Collector.CoinSnapshotCollector.Execute` | coinspot-api/Services/CoinSnapshotCollector.cs:15-51 | The table gains the batches of all started cycles, in order, and the cache is what those cycles left. |

## Left out

- HTTP and HTML are not modelled. The request, the XPath queries, `InnerText` and
  `GetAttributeValue` are replaced by the already-parsed `Page`, `Row` and `Cell` values.
  The `User-Agent` header is not modelled either.
- `Decimal.ParseDecimal`: models what `decimal.TryParse` accepts with its default number
  style: one sign, before or after the number, digits and at most one point. It leaves
  out:
  - group separators: the number style accepts "1,234", so `ParsePercentage` of
    "1,234%" gives 1234 in the source and nothing in the model (the two other parsers
    delete commas before parsing, so only percentages are affected);
  - culture settings (the current culture's decimal point, group separator and signs)
    and white space between a sign and the digits;
  - trailing U+0000 (NUL) characters, which `TryParse` ignores for compatibility:
    `ParsePercentage` of "5" followed by a NUL and "%" gives 5 in the source, because
    `Trim` keeps the NUL, which is not white space. It gives nothing in the model. The
    two other parsers delete the NUL before parsing, so only percentages are affected;
  - the 28-digit precision and the overflow range of `decimal`.
  Values are exact reals.
- `Scraper.ParseAbbreviatedNumber`: a product beyond the `decimal` range, which would
  throw, is not modelled; the product is exact.
- HTML entity decoding of `InnerText` is not modelled.
- `Analyzer.Variance`: the volatility is `Math.Sqrt` of the variance. The square root is
  left out, and the properties are stated on the variance.
- `Math.Pow` squares are written as products.
- Doubles are modelled as reals. IEEE rounding, infinities and NaN are not modelled, and
  the score is computed in exact arithmetic.
- `Analyzer.Momentum`: requires a non-zero oldest price. The source divides by it and
  would give an infinity or NaN.
- `Analyzer.Smoothing`: requires a period other than -1, which the source would divide
  by zero. The model's period is an unbounded integer. In the source, `period + 1` is
  unchecked 32-bit `int` arithmetic (coinspot-api/Services/CoinStrengthAnalyzer.cs:85).
  At `int.MaxValue` (2147483647) it wraps to -2147483648, so the factor is negative and
  the EMA can leave the range of the prices. The public `GetEMA`
  (coinspot-api/Services/CoinStrengthAnalyzer.cs:17) accepts any period. `EmaSpec`'s
  range bound for a period of at least 1 therefore holds in the model, but not in the
  source at that one period.
- `Scraper.Multiplier`: the model tests the last character ordinally. The source's
  `EndsWith("B")`, `EndsWith("M")` and `EndsWith("K")`
  (coinspot-api/Services/CoinspotScraper.cs:86-88) compare culture-sensitively, and
  that comparison skips trailing characters the collation ignores: a soft hyphen
  (U+00AD), a zero-width joiner (U+200D), and U+0000 under ICU. So "1.5M" followed by
  a soft hyphen reads as 1500000 in the source and as 1.5 in the model.
- `Analyzer.AverageSpread`: requires non-zero bids, and `Average` requires a non-empty
  list. `Average` throws on an empty list, and a zero bid gives NaN.
- `Math.Round` to two decimals, the `CoinAnalysisResult` record and the composition in
  `EvaluateAsync` are not modelled. Each indicator is modelled on its own.
- The thin `Get…` wrappers on the analyzer and the HTTP controllers are outside the
  modelled core.
- The persistence engine, SQLite and transactions are not modelled. The table is a
  sequence that only grows.
- Identity assignment on save is not modelled: new rows carry id 0.
- The order among rows with equal timestamps is not modelled. The query is modelled as
  a stable descending sort, while the database may return such rows in any order.
- The collector's `Task.Delay` of five minutes, the cancellation token's timing,
  logging, and the dependency-injection scope are not modelled. Cancellation is one
  flag per cycle.
- A save that fails part-way is not modelled: a failed save is all-or-nothing.
- `DateTime.UtcNow` is a clock parameter.
- `Collector.CoinSnapshotCollector.Execute`: the scraper is one shared instance
  (registered as a singleton at coinspot-api/Program.cs:25), and the listing endpoint at
  coinspot-api/Controllers/CoinspotController.cs:19 also calls `FetchCoinListAsync`.
  Such requests can replace the cache between or during collector cycles. The model's
  statement about the final cache holds only when nothing else fetches.
- The endless collector loop is modelled over finite sequences of cycles. Each finite
  prefix of a run is covered.
- `Scraper.CollectConverted`: written once for any row conversion and used with
  `RowToCoin`. It has no separate list object that is mutated in place: the loop builds
  the list as a value.
