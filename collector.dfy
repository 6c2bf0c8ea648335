/** The background collector: every cycle fetches the listing, maps each quote to a
    snapshot row and appends the batch to the table; a cycle that fails adds nothing and
    the next cycle runs as usual, until cancellation is requested. */
module Collector {
  import opened Wrappers
  import opened Text
  import opened Scraper
  import opened Store

  /** The row stored for one quote: missing numbers become 0, code, name and icon are
      copied. The id is assigned by the database on insert and is 0 before that. */
  function ToSnapshot(c: CoinInfo, timestamp: int): (s: CoinInfoSnapshot)
    ensures s.code == c.code && s.name == c.name && s.icon == c.icon && s.timestamp == timestamp
    ensures StoredAs(c.price, s.price) && StoredAs(c.priceAud, s.priceAud)
    ensures StoredAs(c.marketCap, s.marketCap) && StoredAs(c.volume, s.volume)
    ensures StoredAs(c.change, s.change)
  {
    CoinInfoSnapshot(
      0, c.code, c.name,
      c.price.GetOr(0.0), c.priceAud.GetOr(0.0), c.marketCap.GetOr(0.0),
      c.volume.GetOr(0.0), c.change.GetOr(0.0),
      c.icon, timestamp)
  }

  /** Reads a stored row back as a quote whose numbers are all present. */
  function FromSnapshot(s: CoinInfoSnapshot): CoinInfo {
    CoinInfo(s.code, s.name, Some(s.price), Some(s.priceAud), Some(s.marketCap),
             Some(s.volume), Some(s.change), s.icon)
  }

  /** A stored field is the quote's value when there is one and 0 otherwise. */
  predicate StoredAs(x: Option<real>, stored: real) {
    if x.Some? then stored == x.value else stored == 0.0
  }

  /** A quote with every number present survives the trip through the table, and a
      fresh row (id 0) survives the trip through a quote. */
  lemma SnapshotRoundTrip(c: CoinInfo, s: CoinInfoSnapshot)
    ensures c.price.Some? && c.priceAud.Some? && c.marketCap.Some? && c.volume.Some? && c.change.Some? ==>
      FromSnapshot(ToSnapshot(c, 0)) == c
    ensures s.id == 0 ==> ToSnapshot(FromSnapshot(s), s.timestamp) == s
  {
  }

  /** One row per quote, in quote order; `clock(i)` is the time read for the i-th row. */
  function ToSnapshots(coins: seq<CoinInfo>, clock: nat -> int): (r: seq<CoinInfoSnapshot>)
    ensures |r| == |coins|
  {
    seq(|coins|, i requires 0 <= i < |coins| => ToSnapshot(coins[i], clock(i)))
  }

  /** The inputs of one pass of the loop: whether cancellation was requested before it,
      the page the fetch sees, whether saving succeeds, and the clock. */
  datatype Cycle = Cycle(cancelRequested: bool, page: Page, saveSucceeds: bool, clock: nat -> int)

  predicate Fetched(c: Cycle) {
    c.page.Loaded? && c.page.rows.Some?
  }

  /** The rows a cycle adds: the mapped quotes when both the fetch and the save succeed,
      nothing otherwise (the exception is caught and logged). */
  function CycleBatch(c: Cycle): (r: seq<CoinInfoSnapshot>)
    ensures |r| <= if Fetched(c) then |c.page.rows.value| else 0
  {
    if Fetched(c) && c.saveSucceeds then ToSnapshots(Quotes(c.page.rows.value), c.clock) else []
  }

  /** The scraper's cache after a cycle: replaced by a successful fetch, even when the
      save then fails. */
  function CacheAfter(c: Cycle, cache: seq<CoinInfo>): seq<CoinInfo> {
    if Fetched(c) then Quotes(c.page.rows.value) else cache
  }

  /** How many cycles start: all of them up to the first one that finds cancellation
      requested. */
  function Started(cycles: seq<Cycle>): (n: nat)
    ensures n <= |cycles|
    ensures forall j :: 0 <= j < n ==> !cycles[j].cancelRequested
    ensures n < |cycles| ==> cycles[n].cancelRequested
  {
    if cycles == [] || cycles[0].cancelRequested then 0 else 1 + Started(cycles[1..])
  }

  /** The concatenation of `f` over `xs`, in order. */
  function FlatMap<A, B>(f: A -> seq<B>, xs: seq<A>): seq<B> {
    if xs == [] then [] else FlatMap(f, xs[..|xs| - 1]) + f(xs[|xs| - 1])
  }

  lemma {:induction false} FlatMapAppend<A, B>(f: A -> seq<B>, a: seq<A>, b: seq<A>)
    ensures FlatMap(f, a + b) == FlatMap(f, a) + FlatMap(f, b)
  {
    if b == [] {
      assert a + b == a;
    } else {
      var b' := b[..|b| - 1];
      assert (a + b)[..|a + b| - 1] == a + b';
      FlatMapAppend(f, a, b');
    }
  }

  /** An element that maps to nothing can be dropped. */
  lemma FlatMapSkip<A, B>(f: A -> seq<B>, before: seq<A>, x: A, after: seq<A>)
    requires f(x) == []
    ensures FlatMap(f, before + [x] + after) == FlatMap(f, before + after)
  {
    FlatMapAppend(f, before + [x], after);
    FlatMapAppend(f, before, after);
    assert (before + [x])[..|before|] == before;
  }

  /** The rows added by a run of cycles, in order. */
  function Collected(cycles: seq<Cycle>): seq<CoinInfoSnapshot> {
    FlatMap(CycleBatch, cycles)
  }

  function CacheAfterAll(cycles: seq<Cycle>, cache: seq<CoinInfo>): seq<CoinInfo> {
    if cycles == [] then cache
    else CacheAfter(cycles[|cycles| - 1], CacheAfterAll(cycles[..|cycles| - 1], cache))
  }

  /** A cycle whose fetch or save fails adds nothing; a successful one adds one row per
      quote, each with the quote's (presentable) code and name, in quote order. */
  lemma CycleBatchSpec(c: Cycle)
    ensures !Fetched(c) || !c.saveSucceeds ==> CycleBatch(c) == []
    ensures Fetched(c) && c.saveSucceeds ==>
      var quotes := Quotes(c.page.rows.value);
      && |CycleBatch(c)| == |quotes|
      && forall i :: 0 <= i < |quotes| ==>
           CycleBatch(c)[i].code == quotes[i].code && CycleBatch(c)[i].name == quotes[i].name &&
           Presentable(CycleBatch(c)[i].code) && Presentable(CycleBatch(c)[i].name)
  {
    if Fetched(c) && c.saveSucceeds {
      var quotes := Quotes(c.page.rows.value);
      QuotesValid(c.page.rows.value);
      var batch := ToSnapshots(quotes, c.clock);
      assert CycleBatch(c) == batch;
      forall i | 0 <= i < |quotes|
        ensures batch[i].code == quotes[i].code && batch[i].name == quotes[i].name
      {
        assert batch[i] == ToSnapshot(quotes[i], c.clock(i));
      }
    }
  }

  /** One more cycle appends its batch and updates the cache. */
  lemma CollectedStep(cycles: seq<Cycle>, i: nat, cache: seq<CoinInfo>)
    requires i < |cycles|
    ensures Collected(cycles[..i + 1]) == Collected(cycles[..i]) + CycleBatch(cycles[i])
    ensures CacheAfterAll(cycles[..i + 1], cache) == CacheAfter(cycles[i], CacheAfterAll(cycles[..i], cache))
  {
    assert cycles[..i + 1][..i] == cycles[..i];
  }

  /** A failing cycle drops out: the cycles after it contribute exactly what they would
      have contributed without it. */
  lemma FailedCycleSkipped(before: seq<Cycle>, failed: Cycle, after: seq<Cycle>)
    requires !Fetched(failed) || !failed.saveSucceeds
    ensures Collected(before + [failed] + after) == Collected(before + after)
  {
    FlatMapSkip(CycleBatch, before, failed, after);
  }

  /** Two failing cycles, then a successful one, then cancellation: the loop keeps
      going after the failures and the table gains exactly the successful batch. */
  lemma RecoversAfterFailures(f1: Cycle, f2: Cycle, ok: Cycle, stop: Cycle)
    requires !f1.cancelRequested && !f2.cancelRequested && !ok.cancelRequested
    requires stop.cancelRequested
    requires !Fetched(f1) && Fetched(f2) && !f2.saveSucceeds
    ensures var cycles := [f1, f2, ok, stop];
      Started(cycles) == 3 && Collected(cycles[..Started(cycles)]) == CycleBatch(ok)
  {
    var cycles := [f1, f2, ok, stop];
    assert Started([stop]) == 0;
    assert [ok, stop][1..] == [stop];
    assert Started([ok, stop]) == 1;
    assert [f2, ok, stop][1..] == [ok, stop];
    assert Started([f2, ok, stop]) == 2;
    assert cycles[1..] == [f2, ok, stop];
    assert cycles[..3] == [] + [f1] + [f2, ok];
    FlatMapSkip(CycleBatch, [], f1, [f2, ok]);
    assert [f2, ok] == [] + [f2] + [ok];
    FlatMapSkip(CycleBatch, [], f2, [ok]);
    assert [] + [ok] == [ok] && [ok][..0] == [];
    assert Collected([ok]) == CycleBatch(ok);
  }

  class CoinSnapshotCollector {
    const scraper: CoinspotScraper
    /** The snapshot table. */
    var store: seq<CoinInfoSnapshot>

    constructor (scraper: CoinspotScraper)
      ensures this.scraper == scraper && store == []
    {
      this.scraper := scraper;
      store := [];
    }

    /** One pass of the loop body: fetch, map, add, save; any exception is caught. */
    method RunCycle(c: Cycle)
      modifies this, scraper
      ensures store == old(store) + CycleBatch(c)
      ensures scraper.cachedCoinList == CacheAfter(c, old(scraper.cachedCoinList))
    {
      var fetched := scraper.FetchCoinList(c.page);
      if fetched.Err? {
        return;
      }
      var batch := ToSnapshots(fetched.value, c.clock);
      if !c.saveSucceeds {
        // the save threw: the rows added to the scope's context are discarded with it
        return;
      }
      store := store + batch;
    }

    /** The loop: a new cycle starts while cancellation has not been requested. An
        endless run is represented by its finite prefixes. */
    method Execute(cycles: seq<Cycle>)
      modifies this, scraper
      ensures store == old(store) + Collected(cycles[..Started(cycles)])
      ensures scraper.cachedCoinList ==
        CacheAfterAll(cycles[..Started(cycles)], old(scraper.cachedCoinList))
    {
      var i := 0;
      while i < |cycles| && !cycles[i].cancelRequested
        invariant 0 <= i <= Started(cycles)
        invariant store == old(store) + Collected(cycles[..i])
        invariant scraper.cachedCoinList == CacheAfterAll(cycles[..i], old(scraper.cachedCoinList))
      {
        CollectedStep(cycles, i, old(scraper.cachedCoinList));
        RunCycle(cycles[i]);
        AppendAssoc(old(store), Collected(cycles[..i]), CycleBatch(cycles[i]));
        i := i + 1;
      }
    }
  }
}
