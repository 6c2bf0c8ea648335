/** The indicator engine: the candle window read from the snapshot table, momentum,
    volatility (as its variance), spread, EMA, MACD, RSI, the composite strength score
    and the list of strategy hints. Doubles are exact reals here. */
module Analyzer {
  import opened Store

  /** A price point; bid and ask are synthesised from the stored price. */
  datatype Candle = Candle(last: real, bid: real, ask: real)

  const WindowSize: nat := 50
  const BidFactor: real := 0.995
  const AskFactor: real := 1.005

  // ---- the window ----

  function ToCandle(s: CoinInfoSnapshot): Candle {
    Candle(s.price, s.price * BidFactor, s.price * AskFactor)
  }

  /** The candles of the newest (at most 50) snapshots of `coin`, newest first. */
  function Window(store: seq<CoinInfoSnapshot>, coin: string): (w: seq<Candle>)
    ensures |w| <= WindowSize
  {
    var recent := RecentSnapshots(store, coin, WindowSize);
    seq(|recent|, i requires 0 <= i < |recent| => ToCandle(recent[i]))
  }

  /** The window holds one candle per selected snapshot, in the query's newest-first
      order; it is as long as the coin's history allows, up to 50; each candle's last
      price is the snapshot's price, with the bid 0.5% below and the ask 0.5% above. */
  lemma WindowSpec(store: seq<CoinInfoSnapshot>, coin: string)
    ensures var w := Window(store, coin);
      var recent := RecentSnapshots(store, coin, WindowSize);
      && |w| == |recent| == Min(WindowSize, |Matching(store, coin)|) <= WindowSize
      && Descending(recent)
      && (forall i :: 0 <= i < |w| ==>
            recent[i].code == coin && recent[i] in store &&
            w[i].last == recent[i].price &&
            w[i].bid == recent[i].price * 0.995 &&
            w[i].ask == recent[i].price * 1.005)
  {
    var recent := RecentSnapshots(store, coin, WindowSize);
    RecentSnapshotsSpec(store, coin, WindowSize);
    assert forall i :: 0 <= i < |recent| ==> recent[i] in recent;
  }

  // ---- momentum ----

  /** Percentage change from the oldest candle (last index) to the newest (index 0). */
  function Momentum(data: seq<Candle>): (m: real)
    requires |data| < 2 || data[|data| - 1].last != 0.0
    ensures |data| < 2 ==> m == 0.0
  {
    if |data| < 2 then 0.0
    else (data[0].last - data[|data| - 1].last) / data[|data| - 1].last * 100.0
  }

  /** Momentum is the growth that turns the oldest price into the newest one; it is 0
      for fewer than two candles. */
  lemma MomentumSpec(data: seq<Candle>)
    requires |data| < 2 || data[|data| - 1].last != 0.0
    ensures |data| < 2 ==> Momentum(data) == 0.0
    ensures |data| >= 2 ==>
      data[|data| - 1].last * (1.0 + Momentum(data) / 100.0) == data[0].last
  {
    if |data| >= 2 {
      var oldest, latest := data[|data| - 1].last, data[0].last;
      var q := (latest - oldest) / oldest;
      assert Momentum(data) / 100.0 == q;
      assert oldest * q == latest - oldest;
    }
  }

  /** With a positive oldest price, momentum is positive exactly when the price rose and
      zero exactly when it is unchanged. */
  lemma MomentumSign(data: seq<Candle>)
    requires |data| >= 2 && data[|data| - 1].last > 0.0
    ensures Momentum(data) > 0.0 <==> data[0].last > data[|data| - 1].last
    ensures Momentum(data) == 0.0 <==> data[0].last == data[|data| - 1].last
  {
    MomentumSpec(data);
    var oldest := data[|data| - 1].last;
    var g := 1.0 + Momentum(data) / 100.0;
    assert oldest * g == data[0].last;
    if Momentum(data) > 0.0 {
      assert g > 1.0;
      assert oldest * g > oldest * 1.0;
    }
    if data[0].last > oldest {
      assert oldest * g > oldest * 1.0;
      assert g > 1.0;
    }
  }

  // ---- averages: volatility and spread ----

  function Sum(xs: seq<real>): real {
    if xs == [] then 0.0 else xs[0] + Sum(xs[1..])
  }

  /** LINQ `Average`, which throws on an empty sequence. */
  function Average(xs: seq<real>): real
    requires |xs| > 0
  {
    Sum(xs) / |xs| as real
  }

  lemma {:induction false} SumConstant(xs: seq<real>, c: real)
    requires forall i :: 0 <= i < |xs| ==> xs[i] == c
    ensures Sum(xs) == |xs| as real * c
  {
    if xs != [] {
      SumConstant(xs[1..], c);
    }
  }

  lemma {:induction false} SumBounds(xs: seq<real>, lo: real, hi: real)
    requires forall i :: 0 <= i < |xs| ==> lo <= xs[i] <= hi
    ensures |xs| as real * lo <= Sum(xs) <= |xs| as real * hi
  {
    if xs != [] {
      SumBounds(xs[1..], lo, hi);
    }
  }

  /** The average of a constant sequence is that constant. */
  lemma AverageConstant(xs: seq<real>, c: real)
    requires |xs| > 0
    requires forall i :: 0 <= i < |xs| ==> xs[i] == c
    ensures Average(xs) == c
  {
    SumConstant(xs, c);
  }

  /** The average lies between the least and the greatest value. */
  lemma AverageBounds(xs: seq<real>, lo: real, hi: real)
    requires |xs| > 0
    requires forall i :: 0 <= i < |xs| ==> lo <= xs[i] <= hi
    ensures lo <= Average(xs) <= hi
  {
    SumBounds(xs, lo, hi);
    var n := |xs| as real;
    assert Average(xs) * n == Sum(xs);
  }

  function Lasts(data: seq<Candle>): seq<real> {
    seq(|data|, i requires 0 <= i < |data| => data[i].last)
  }

  function Mean(data: seq<Candle>): real
    requires |data| > 0
  {
    Average(Lasts(data))
  }

  function SquaredDeviations(data: seq<Candle>, mean: real): seq<real> {
    seq(|data|, i requires 0 <= i < |data| => (data[i].last - mean) * (data[i].last - mean))
  }

  /** The variance under the volatility's square root: the mean squared deviation of the
      last prices from their mean. It is never negative. */
  function Variance(data: seq<Candle>): (v: real)
    requires |data| > 0
    ensures v >= 0.0
  {
    DeviationsNonNegative(data, Mean(data));
    Average(SquaredDeviations(data, Mean(data)))
  }

  /** Squared deviations are never negative, so neither is their sum. */
  lemma DeviationsNonNegative(data: seq<Candle>, mean: real)
    ensures Sum(SquaredDeviations(data, mean)) >= 0.0
  {
    var sq := SquaredDeviations(data, mean);
    forall i | 0 <= i < |sq|
      ensures sq[i] >= 0.0
    {
      var d := data[i].last - mean;
      assert sq[i] == d * d;
      if d < 0.0 {
        assert d * d == (-d) * (-d);
      }
    }
    SumNonNegative(sq);
  }

  /** A constant price has mean equal to that price and variance 0. */
  lemma VarianceConstant(data: seq<Candle>)
    requires |data| > 0
    requires forall i :: 0 <= i < |data| ==> data[i].last == data[0].last
    ensures Mean(data) == data[0].last
    ensures Variance(data) == 0.0
  {
    AverageConstant(Lasts(data), data[0].last);
    var sq := SquaredDeviations(data, Mean(data));
    assert forall i :: 0 <= i < |sq| ==> sq[i] == 0.0;
    AverageConstant(sq, 0.0);
  }

  lemma {:induction false} SumNonNegative(xs: seq<real>)
    requires forall i :: 0 <= i < |xs| ==> xs[i] >= 0.0
    ensures Sum(xs) >= 0.0
  {
    if xs != [] {
      SumNonNegative(xs[1..]);
    }
  }

  /** The relative bid-ask spread of one candle, in percent. */
  function Spread(c: Candle): real
    requires c.bid != 0.0
  {
    (c.ask - c.bid) / c.bid * 100.0
  }

  function Spreads(data: seq<Candle>): seq<real>
    requires forall i :: 0 <= i < |data| ==> data[i].bid != 0.0
  {
    seq(|data|, i requires 0 <= i < |data| => Spread(data[i]))
  }

  /** The mean relative spread, in percent; never negative when every bid is positive and
      no ask is below its bid. */
  function AverageSpread(data: seq<Candle>): (r: real)
    requires |data| > 0
    requires forall i :: 0 <= i < |data| ==> data[i].bid != 0.0
    ensures (forall i :: 0 <= i < |data| ==> 0.0 < data[i].bid <= data[i].ask) ==> r >= 0.0
  {
    SpreadsNonNegative(data);
    Average(Spreads(data))
  }

  lemma SpreadsNonNegative(data: seq<Candle>)
    requires forall i :: 0 <= i < |data| ==> data[i].bid != 0.0
    ensures (forall i :: 0 <= i < |data| ==> 0.0 < data[i].bid <= data[i].ask) ==> Sum(Spreads(data)) >= 0.0
  {
    if forall i :: 0 <= i < |data| ==> 0.0 < data[i].bid <= data[i].ask {
      var sp := Spreads(data);
      forall i | 0 <= i < |sp|
        ensures sp[i] >= 0.0
      {
        assert sp[i] == Spread(data[i]);
      }
      SumNonNegative(sp);
    }
  }

  /** A synthesised candle of a non-zero price always has the spread 0.01 / 0.995 * 100,
      that is 200/199 percent. */
  lemma CandleSpread(s: CoinInfoSnapshot)
    requires s.price != 0.0
    ensures ToCandle(s).bid != 0.0
    ensures Spread(ToCandle(s)) == 200.0 / 199.0
  {
    var p := s.price;
    var c := ToCandle(s);
    assert c.ask - c.bid == p * 0.01;
    assert (p * 0.01) / (p * 0.995) == 0.01 / 0.995;
  }

  /** Over a non-empty window of non-zero prices the average spread is that constant. */
  lemma WindowSpread(store: seq<CoinInfoSnapshot>, coin: string)
    requires |Matching(store, coin)| > 0
    requires forall x :: x in store && x.code == coin ==> x.price != 0.0
    ensures |Window(store, coin)| > 0
    ensures forall i :: 0 <= i < |Window(store, coin)| ==> Window(store, coin)[i].bid != 0.0
    ensures AverageSpread(Window(store, coin)) == 200.0 / 199.0
  {
    var w := Window(store, coin);
    var recent := RecentSnapshots(store, coin, WindowSize);
    WindowSpec(store, coin);
    forall i | 0 <= i < |w|
      ensures w[i].bid != 0.0 && Spread(w[i]) == 200.0 / 199.0
    {
      CandleSpread(recent[i]);
    }
    AverageConstant(Spreads(w), 200.0 / 199.0);
  }

  // ---- EMA ----

  /** The smoothing factor 2 / (period + 1); the division by zero at period -1 is excluded. */
  function Smoothing(period: int): real
    requires period != -1
  {
    2.0 / (period + 1) as real
  }

  /** The EMA after folding the first `n` candles, starting from the newest one. */
  function EmaPrefix(data: seq<Candle>, k: real, n: nat): real
    requires 1 <= n <= |data|
  {
    if n == 1 then data[0].last else data[n - 1].last * k + EmaPrefix(data, k, n - 1) * (1.0 - k)
  }

  function Ema(data: seq<Candle>, period: int): (r: real)
    requires period != -1
    ensures |data| == 0 ==> r == 0.0
    ensures |data| == 1 ==> r == data[0].last
  {
    if |data| == 0 then 0.0 else EmaPrefix(data, Smoothing(period), |data|)
  }

  /** The EMA loop, walking from index 0 (the newest candle) towards the oldest. */
  method CalculateEma(data: seq<Candle>, period: int) returns (ema: real)
    requires period != -1
    ensures ema == Ema(data, period)
  {
    if |data| == 0 {
      return 0.0;
    }
    var k := Smoothing(period);
    ema := data[0].last;
    var i := 1;
    while i < |data|
      invariant 1 <= i <= |data|
      invariant ema == EmaPrefix(data, k, i)
    {
      ema := data[i].last * k + ema * (1.0 - k);
      i := i + 1;
    }
  }

  /** An EMA of a constant price is that price, whatever the period. */
  lemma {:induction false} EmaPrefixConstant(data: seq<Candle>, k: real, n: nat, c: real)
    requires 1 <= n <= |data|
    requires forall i :: 0 <= i < |data| ==> data[i].last == c
    ensures EmaPrefix(data, k, n) == c
  {
    if n > 1 {
      EmaPrefixConstant(data, k, n - 1, c);
      assert c * k + c * (1.0 - k) == c;
    }
  }

  /** Every EMA step with 0 <= k <= 1 stays within the range of the prices folded. */
  lemma {:induction false} EmaPrefixBounds(data: seq<Candle>, k: real, n: nat, lo: real, hi: real)
    requires 1 <= n <= |data| && 0.0 <= k <= 1.0
    requires forall i :: 0 <= i < |data| ==> lo <= data[i].last <= hi
    ensures lo <= EmaPrefix(data, k, n) <= hi
  {
    if n > 1 {
      EmaPrefixBounds(data, k, n - 1, lo, hi);
      ConvexBounds(data[n - 1].last, EmaPrefix(data, k, n - 1), k, lo, hi);
    }
  }

  lemma ConvexBounds(a: real, b: real, k: real, lo: real, hi: real)
    requires lo <= a <= hi && lo <= b <= hi && 0.0 <= k <= 1.0
    ensures lo <= a * k + b * (1.0 - k) <= hi
  {
    assert (a - lo) * k >= 0.0;
    assert (b - lo) * (1.0 - k) >= 0.0;
    assert (hi - a) * k >= 0.0;
    assert (hi - b) * (1.0 - k) >= 0.0;
  }

  /** The EMA of no candles is 0, of one candle is its price, of a constant series is
      that constant; for a period of at least 1 it lies within the prices' range. */
  lemma EmaSpec(data: seq<Candle>, period: int, lo: real, hi: real)
    requires period != -1
    ensures |data| == 0 ==> Ema(data, period) == 0.0
    ensures |data| == 1 ==> Ema(data, period) == data[0].last
    ensures |data| > 0 && (forall i :: 0 <= i < |data| ==> data[i].last == data[0].last) ==>
      Ema(data, period) == data[0].last
    ensures period >= 1 && (forall i :: 0 <= i < |data| ==> lo <= data[i].last <= hi) && |data| > 0 ==>
      lo <= Ema(data, period) <= hi
  {
    if |data| > 0 {
      var k := Smoothing(period);
      if forall i :: 0 <= i < |data| ==> data[i].last == data[0].last {
        EmaPrefixConstant(data, k, |data|, data[0].last);
      }
      if period >= 1 && forall i :: 0 <= i < |data| ==> lo <= data[i].last <= hi {
        assert 0.0 < k <= 1.0;
        EmaPrefixBounds(data, k, |data|, lo, hi);
      }
    }
  }

  /** Because the fold starts at the newest candle, the period-1 EMA (k = 1) is the
      price of the oldest candle, not of the newest. */
  lemma EmaPeriodOne(data: seq<Candle>)
    requires |data| > 0
    ensures Ema(data, 1) == data[|data| - 1].last
  {
    if |data| > 1 {
      assert Smoothing(1) == 1.0;
    }
  }

  // ---- MACD ----

  datatype MacdLine = MacdLine(macd: real, signal: real)

  function Take<T>(s: seq<T>, n: nat): (r: seq<T>)
  {
    if |s| <= n then s else s[..n]
  }

  /** MACD over the first 26 of the newest 35 candles, with the signal taken as the
      9-period EMA of a series that repeats the MACD once per candle of the slice. So
      the signal always equals the MACD (both 0 without candles), and the MACD never
      crosses above its signal. */
  function Macd(data: seq<Candle>): (r: MacdLine)
    ensures r.signal == r.macd
    ensures |data| == 0 ==> r == MacdLine(0.0, 0.0)
  {
    var slice := Take(data, 35);
    var head := Take(slice, 26);
    var macd := Ema(head, 12) - Ema(head, 26);
    var signalInput := seq(|slice|, _ => Candle(macd, 0.0, 0.0));
    EmaSpec(signalInput, 9, macd, macd);
    MacdLine(macd, Ema(signalInput, 9))
  }

  /** Only the newest 26 candles matter. */
  lemma MacdNewest26(data: seq<Candle>)
    ensures Macd(data) == Macd(Take(data, 26))
  {
    var a, b := Take(data, 35), Take(Take(data, 26), 35);
    assert Take(a, 26) == Take(b, 26);
  }

  // ---- RSI ----

  /** How many neighbouring pairs the loop visits: i = 1 .. min(period, |data| - 1). */
  function Visited(data: seq<Candle>, period: int): (n: nat)
    ensures n < |data| || n == 0
  {
    if period <= 0 || |data| < 2 then 0 else Min(period, |data| - 1)
  }

  /** The newer price minus the older one at pair `i`. */
  function Change(data: seq<Candle>, i: nat): real
    requires 1 <= i < |data|
  {
    data[i - 1].last - data[i].last
  }

  /** The loop's `gains`: it grows by the drop whenever the newer price is not higher. */
  function Gains(data: seq<Candle>, n: nat): (g: real)
    requires n < |data| || n == 0
    ensures g >= 0.0
  {
    if n == 0 then 0.0
    else Gains(data, n - 1) + (if Change(data, n) > 0.0 then 0.0 else -Change(data, n))
  }

  /** The loop's `losses`: it grows by the rise whenever the newer price is higher. */
  function Losses(data: seq<Candle>, n: nat): (l: real)
    requires n < |data| || n == 0
    ensures l >= 0.0
  {
    if n == 0 then 0.0
    else Losses(data, n - 1) + (if Change(data, n) > 0.0 then Change(data, n) else 0.0)
  }

  function Rsi(data: seq<Candle>, period: int): (r: real)
    ensures |data| < 2 || period < 1 ==> r == 0.0
  {
    var n := Visited(data, period);
    var gains, losses := Gains(data, n), Losses(data, n);
    var rs := gains / (if losses != 0.0 then losses else 1.0);
    100.0 - 100.0 / (1.0 + rs)
  }

  method CalculateRsi(data: seq<Candle>, period: int) returns (rsi: real)
    ensures rsi == Rsi(data, period)
  {
    var gains, losses := 0.0, 0.0;
    var i := 1;
    while i <= period && i < |data|
      invariant 1 <= i && i - 1 <= Visited(data, period)
      invariant gains == Gains(data, i - 1) && losses == Losses(data, i - 1)
      decreases |data| - i
    {
      var diff := data[i - 1].last - data[i].last;
      if diff > 0.0 {
        losses := losses + diff;
      } else {
        gains := gains - diff;
      }
      i := i + 1;
    }
    var rs := gains / (if losses != 0.0 then losses else 1.0);
    rsi := 100.0 - 100.0 / (1.0 + rs);
  }

  /** The gains are 0 exactly when no visited newer price is below its older one. */
  lemma {:induction false} GainsZeroIff(data: seq<Candle>, n: nat)
    requires n < |data| || n == 0
    ensures Gains(data, n) == 0.0 <==> forall i :: 1 <= i <= n ==> data[i - 1].last >= data[i].last
  {
    if n > 0 {
      GainsZeroIff(data, n - 1);
    }
  }

  /** The visited changes telescope: losses minus gains is the newest price minus the
      price `n` steps older. */
  lemma {:induction false} LossesMinusGains(data: seq<Candle>, n: nat)
    requires n < |data|
    ensures Losses(data, n) - Gains(data, n) == data[0].last - data[n].last
  {
    if n > 0 {
      LossesMinusGains(data, n - 1);
    }
  }

  /** The RSI lies in [0, 100); it is 0 exactly when no visited newer price is below its
      older neighbour, in particular for fewer than two candles or a period below 1. */
  lemma RsiSpec(data: seq<Candle>, period: int)
    ensures 0.0 <= Rsi(data, period) < 100.0
    ensures Rsi(data, period) == 0.0 <==>
      forall i :: 1 <= i <= Visited(data, period) ==> data[i - 1].last >= data[i].last
    ensures |data| < 2 || period < 1 ==> Rsi(data, period) == 0.0
  {
    var n := Visited(data, period);
    var gains, losses := Gains(data, n), Losses(data, n);
    var d := if losses != 0.0 then losses else 1.0;
    var rs := gains / d;
    assert rs >= 0.0;
    assert rs == 0.0 <==> gains == 0.0;
    var q := 100.0 / (1.0 + rs);
    assert q * (1.0 + rs) == 100.0;
    assert 0.0 < q <= 100.0;
    assert q == 100.0 <==> rs == 0.0;
    GainsZeroIff(data, n);
  }

  // ---- strength score ----

  /** `Math.Clamp`, which throws when the bounds are crossed. */
  function Clamp(x: real, lo: real, hi: real): (r: real)
    requires lo <= hi
    ensures lo <= r <= hi
    ensures lo <= x <= hi ==> r == x
  {
    if x < lo then lo else if x > hi then hi else x
  }

  /** Half momentum, three tenths calm, one fifth tightness, each term clamped to
      [0, 100]; the weights sum to 1, so the score stays within [0, 100]. */
  function StrengthScore(momentum: real, volatility: real, spread: real): (r: real)
    ensures 0.0 <= r <= 100.0
  {
    var m := Clamp(momentum * 5.0, 0.0, 100.0);
    var v := Clamp(100.0 - volatility, 0.0, 100.0);
    var s := Clamp(100.0 - spread * 10.0, 0.0, 100.0);
    m * 0.5 + v * 0.3 + s * 0.2
  }

  lemma ClampMonotone(x: real, y: real, lo: real, hi: real)
    requires lo <= hi && x <= y
    ensures Clamp(x, lo, hi) <= Clamp(y, lo, hi)
  {
  }

  /** The score rises (weakly) with momentum and falls (weakly) with volatility and
      with spread. */
  lemma StrengthScoreMonotone(m1: real, m2: real, v1: real, v2: real, s1: real, s2: real)
    requires m1 <= m2 && v2 <= v1 && s2 <= s1
    ensures StrengthScore(m1, v1, s1) <= StrengthScore(m2, v2, s2)
  {
    ClampMonotone(m1 * 5.0, m2 * 5.0, 0.0, 100.0);
    ClampMonotone(100.0 - v1, 100.0 - v2, 0.0, 100.0);
    ClampMonotone(100.0 - s1 * 10.0, 100.0 - s2 * 10.0, 0.0, 100.0);
  }

  /** The top score needs momentum of at least 20, no volatility and no spread. */
  lemma StrengthScoreTop(momentum: real, volatility: real, spread: real)
    ensures StrengthScore(momentum, volatility, spread) == 100.0 <==>
      momentum >= 20.0 && volatility <= 0.0 && spread <= 0.0
  {
  }

  // ---- strategy ----

  const FreezeBuys: string := "Freeze buys, exit alts if weak"
  const AggressiveEntry: string := "Aggressive alt entry (momentum play)"
  const HighBeta: string := "Buy high-beta altcoins (e.g., SOL, AVAX)"
  const AvoidEntries: string := "Avoid all new entries (RSI < 30)"
  const TradingWindow: string := "Enable alt trading window (MACD crossover)"
  const NoSignal: string := "No strong BTC signal \U{2014} rely on altcoin-specific momentum"

  /** The conditional hints, in the order they are tried. */
  const Hints: seq<string> := [FreezeBuys, AggressiveEntry, HighBeta, AvoidEntries, TradingWindow]

  /** Which hints fire, in the same order. */
  function Conditions(strength: real, momentum: real, rsi: real, macd: real, signal: real): (c: seq<bool>)
    ensures |c| == |Hints|
  {
    [strength < 30.0, strength > 70.0, momentum > 0.5, rsi < 30.0, macd > signal]
  }

  /** The hints among the first `n` whose condition holds, in table order. */
  function Fired(conds: seq<bool>, n: nat): (r: seq<string>)
    requires n <= |conds| <= |Hints|
    ensures |r| <= n
  {
    if n == 0 then []
    else Fired(conds, n - 1) + (if conds[n - 1] then [Hints[n - 1]] else [])
  }

  function Strategy(strength: real, momentum: real, rsi: real, macd: real, signal: real): (r: seq<string>)
    ensures |r| >= 1
  {
    var fired := Fired(Conditions(strength, momentum, rsi, macd, signal), |Hints|);
    if fired == [] then [NoSignal] else fired
  }

  method DeriveAltcoinStrategy(strength: real, momentum: real, rsi: real, macd: real, signal: real)
    returns (strategy: seq<string>)
    ensures strategy == Strategy(strength, momentum, rsi, macd, signal)
  {
    ghost var conds := Conditions(strength, momentum, rsi, macd, signal);
    strategy := [];
    if strength < 30.0 {
      strategy := strategy + [FreezeBuys];
    }
    assert strategy == Fired(conds, 1);
    if strength > 70.0 {
      strategy := strategy + [AggressiveEntry];
    }
    assert strategy == Fired(conds, 2);
    if momentum > 0.5 {
      strategy := strategy + [HighBeta];
    }
    assert strategy == Fired(conds, 3);
    if rsi < 30.0 {
      strategy := strategy + [AvoidEntries];
    }
    assert strategy == Fired(conds, 4);
    if macd > signal {
      strategy := strategy + [TradingWindow];
    }
    assert strategy == Fired(conds, 5);
    if |strategy| == 0 {
      strategy := strategy + [NoSignal];
    }
  }

  /** The position of a hint in the table; 5 for anything else. */
  function Rank(s: string): nat {
    if s == FreezeBuys then 0
    else if s == AggressiveEntry then 1
    else if s == HighBeta then 2
    else if s == AvoidEntries then 3
    else if s == TradingWindow then 4
    else 5
  }

  lemma RankOfHint(i: nat)
    requires i < |Hints|
    ensures Rank(Hints[i]) == i
  {
  }

  /** A hint is among the fired ones exactly when its condition holds; the fallback
      never is. */
  lemma {:induction false} FiredMembers(conds: seq<bool>, n: nat)
    requires n <= |conds| <= |Hints|
    ensures forall i :: 0 <= i < |Hints| ==> (Hints[i] in Fired(conds, n) <==> i < n && conds[i])
    ensures NoSignal !in Fired(conds, n)
  {
    if n > 0 {
      FiredMembers(conds, n - 1);
      HintsDistinct();
      var last := if conds[n - 1] then [Hints[n - 1]] else [];
      assert Fired(conds, n) == Fired(conds, n - 1) + last;
      forall i | 0 <= i < |Hints|
        ensures Hints[i] in Fired(conds, n) <==> i < n && conds[i]
      {
        assert Hints[i] in last <==> i == n - 1 && conds[n - 1];
      }
    }
  }

  /** The hints are pairwise different, and none is the fallback. */
  lemma HintsDistinct()
    ensures forall i, j :: 0 <= i < |Hints| && 0 <= j < |Hints| && i != j ==> Hints[i] != Hints[j]
    ensures forall i :: 0 <= i < |Hints| ==> Hints[i] != NoSignal
  {
    forall i, j | 0 <= i < |Hints| && 0 <= j < |Hints| && i != j
      ensures Hints[i] != Hints[j]
    {
      RankOfHint(i);
      RankOfHint(j);
    }
    forall i | 0 <= i < |Hints|
      ensures Hints[i] != NoSignal
    {
      assert |Hints[i]| < |NoSignal|;
    }
  }

  /** The fired hints come out in table order. */
  lemma {:induction false} FiredOrdered(conds: seq<bool>, n: nat)
    requires n <= |conds| <= |Hints|
    ensures forall j :: 0 <= j < |Fired(conds, n)| ==> Rank(Fired(conds, n)[j]) < n
    ensures forall a, b :: 0 <= a < b < |Fired(conds, n)| ==>
      Rank(Fired(conds, n)[a]) < Rank(Fired(conds, n)[b])
  {
    if n > 0 {
      FiredOrdered(conds, n - 1);
      RankOfHint(n - 1);
    }
  }

  lemma {:induction false} FiredEmptyIff(conds: seq<bool>, n: nat)
    requires n <= |conds| <= |Hints|
    ensures Fired(conds, n) == [] <==> forall i :: 0 <= i < n ==> !conds[i]
  {
    if n > 0 {
      FiredEmptyIff(conds, n - 1);
    }
  }

  /** The strategy is never empty; each hint appears exactly when its condition holds, in
      table order; the fallback appears exactly when no condition holds, and then alone;
      the two strength hints never appear together. */
  lemma StrategySpec(strength: real, momentum: real, rsi: real, macd: real, signal: real)
    ensures Strategy(strength, momentum, rsi, macd, signal) != []
    ensures forall i :: 0 <= i < |Hints| ==>
      (Hints[i] in Strategy(strength, momentum, rsi, macd, signal) <==>
       Conditions(strength, momentum, rsi, macd, signal)[i])
    ensures forall a, b :: 0 <= a < b < |Strategy(strength, momentum, rsi, macd, signal)| ==>
      Rank(Strategy(strength, momentum, rsi, macd, signal)[a]) <
      Rank(Strategy(strength, momentum, rsi, macd, signal)[b])
    ensures NoSignal in Strategy(strength, momentum, rsi, macd, signal) <==>
      forall i :: 0 <= i < |Hints| ==> !Conditions(strength, momentum, rsi, macd, signal)[i]
    ensures NoSignal in Strategy(strength, momentum, rsi, macd, signal) ==>
      Strategy(strength, momentum, rsi, macd, signal) == [NoSignal]
    ensures !(FreezeBuys in Strategy(strength, momentum, rsi, macd, signal) &&
              AggressiveEntry in Strategy(strength, momentum, rsi, macd, signal))
  {
    var c := Conditions(strength, momentum, rsi, macd, signal);
    FiredMembers(c, |Hints|);
    FiredOrdered(c, |Hints|);
    FiredEmptyIff(c, |Hints|);
    if Fired(c, |Hints|) == [] {
      forall i | 0 <= i < |Hints|
        ensures Hints[i] != NoSignal
      {
        RankOfHint(i);
      }
    }
    assert Hints[0] == FreezeBuys && Hints[1] == AggressiveEntry;
  }

  /** With the signal computed from the same candles, the MACD-crossover hint never
      appears. */
  lemma NoMacdCrossover(data: seq<Candle>, strength: real, momentum: real, rsi: real)
    ensures TradingWindow !in Strategy(strength, momentum, rsi, Macd(data).macd, Macd(data).signal)
  {
    StrategySpec(strength, momentum, rsi, Macd(data).macd, Macd(data).signal);
    assert Hints[4] == TradingWindow;
  }
}
