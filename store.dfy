/** The snapshot table: one stored row per coin per collection, and the history query
    that reads the newest rows of one coin back. */
module Store {
  import opened Wrappers

  /** One persisted quote. Missing numbers were stored as 0; the timestamp is a tick count. */
  datatype CoinInfoSnapshot = CoinInfoSnapshot(
    id: int,
    code: string,
    name: string,
    price: real,
    priceAud: real,
    marketCap: real,
    volume: real,
    change: real,
    icon: Option<string>,
    timestamp: int)

  /** The rows whose code equals `coin` exactly, in table order. */
  function Matching(store: seq<CoinInfoSnapshot>, coin: string): seq<CoinInfoSnapshot> {
    if store == [] then []
    else if store[0].code == coin then [store[0]] + Matching(store[1..], coin)
    else Matching(store[1..], coin)
  }

  /** The filter keeps every row of the requested code, as often as it is stored, and
      nothing else. */
  lemma {:induction false} MatchingCount(store: seq<CoinInfoSnapshot>, coin: string, x: CoinInfoSnapshot)
    ensures multiset(Matching(store, coin))[x] == if x.code == coin then multiset(store)[x] else 0
  {
    if store != [] {
      MatchingCount(store[1..], coin, x);
      assert store == [store[0]] + store[1..];
    }
  }

  lemma {:induction false} MatchingCodes(store: seq<CoinInfoSnapshot>, coin: string)
    ensures forall i :: 0 <= i < |Matching(store, coin)| ==> Matching(store, coin)[i].code == coin
  {
    if store != [] {
      MatchingCodes(store[1..], coin);
    }
  }

  predicate Descending(s: seq<CoinInfoSnapshot>) {
    forall i, j :: 0 <= i < j < |s| ==> s[i].timestamp >= s[j].timestamp
  }

  /** Places `x` in front of the first row that is not newer than it. */
  function Insert(x: CoinInfoSnapshot, s: seq<CoinInfoSnapshot>): seq<CoinInfoSnapshot> {
    if s == [] || s[0].timestamp <= x.timestamp then [x] + s
    else [s[0]] + Insert(x, s[1..])
  }

  /** Newest first; rows with equal timestamps keep their table order. */
  function SortDescending(s: seq<CoinInfoSnapshot>): seq<CoinInfoSnapshot> {
    if s == [] then [] else Insert(s[0], SortDescending(s[1..]))
  }

  lemma {:induction false} InsertSorted(x: CoinInfoSnapshot, s: seq<CoinInfoSnapshot>)
    requires Descending(s)
    ensures Descending(Insert(x, s))
  {
    if s != [] && s[0].timestamp > x.timestamp {
      InsertSorted(x, s[1..]);
      assert forall k :: 0 <= k < |s[1..]| ==> s[1..][k].timestamp <= s[0].timestamp by {
        forall k | 0 <= k < |s[1..]| ensures s[1..][k].timestamp <= s[0].timestamp {
          assert s[1..][k] == s[k + 1];
        }
      }
      InsertBounded(x, s[1..], s[0].timestamp);
      DescendingCons(s[0], Insert(x, s[1..]));
    }
  }

  /** Inserting keeps every timestamp at or below a common bound. */
  lemma {:induction false} InsertBounded(x: CoinInfoSnapshot, s: seq<CoinInfoSnapshot>, t: int)
    requires x.timestamp <= t
    requires forall k :: 0 <= k < |s| ==> s[k].timestamp <= t
    ensures forall k :: 0 <= k < |Insert(x, s)| ==> Insert(x, s)[k].timestamp <= t
  {
    if s != [] && s[0].timestamp > x.timestamp {
      assert forall k :: 0 <= k < |s[1..]| ==> s[1..][k].timestamp <= t by {
        forall k | 0 <= k < |s[1..]| ensures s[1..][k].timestamp <= t {
          assert s[1..][k] == s[k + 1];
        }
      }
      InsertBounded(x, s[1..], t);
    }
  }

  lemma DescendingCons(y: CoinInfoSnapshot, r: seq<CoinInfoSnapshot>)
    requires Descending(r)
    requires forall k :: 0 <= k < |r| ==> r[k].timestamp <= y.timestamp
    ensures Descending([y] + r)
  {
    var t := [y] + r;
    forall i, j | 0 <= i < j < |t|
      ensures t[i].timestamp >= t[j].timestamp
    {
      assert t[j] == r[j - 1];
      if i > 0 {
        assert t[i] == r[i - 1];
      }
    }
  }

  lemma {:induction false} InsertPermutes(x: CoinInfoSnapshot, s: seq<CoinInfoSnapshot>)
    ensures multiset(Insert(x, s)) == multiset(s) + multiset{x}
  {
    if s != [] && s[0].timestamp > x.timestamp {
      InsertPermutes(x, s[1..]);
      assert s == [s[0]] + s[1..];
    }
  }

  /** Sorting yields a newest-first permutation of its input. */
  lemma SortDescendingSpec(s: seq<CoinInfoSnapshot>)
    ensures Descending(SortDescending(s))
    ensures multiset(SortDescending(s)) == multiset(s)
  {
    SortDescendingSorted(s);
    SortDescendingPermutes(s);
  }

  lemma {:induction false} SortDescendingSorted(s: seq<CoinInfoSnapshot>)
    ensures Descending(SortDescending(s))
  {
    if s != [] {
      SortDescendingSorted(s[1..]);
      InsertSorted(s[0], SortDescending(s[1..]));
    }
  }

  lemma {:induction false} SortDescendingPermutes(s: seq<CoinInfoSnapshot>)
    ensures multiset(SortDescending(s)) == multiset(s)
  {
    if s != [] {
      var rest := SortDescending(s[1..]);
      SortDescendingPermutes(s[1..]);
      InsertPermutes(s[0], rest);
      assert multiset(s) == multiset(s[1..]) + multiset{s[0]} by {
        assert s == [s[0]] + s[1..];
      }
    }
  }

  function Min(a: nat, b: nat): nat {
    if a <= b then a else b
  }

  /** The history query: rows of `coin`, newest first, at most `limit` of them. */
  function RecentSnapshots(store: seq<CoinInfoSnapshot>, coin: string, limit: nat): (r: seq<CoinInfoSnapshot>)
    ensures |r| <= limit
  {
    var sorted := SortDescending(Matching(store, coin));
    sorted[..Min(limit, |sorted|)]
  }

  /** The query returns only rows of the requested code, newest first, as many as the
      limit allows, each one stored in the table, and no row it leaves out is newer than
      a row it returns. */
  lemma RecentSnapshotsSpec(store: seq<CoinInfoSnapshot>, coin: string, limit: nat)
    ensures |RecentSnapshots(store, coin, limit)| == Min(limit, |Matching(store, coin)|)
    ensures Descending(RecentSnapshots(store, coin, limit))
    ensures forall y :: y in RecentSnapshots(store, coin, limit) ==> y.code == coin && y in store
    ensures multiset(RecentSnapshots(store, coin, limit)) <= multiset(Matching(store, coin))
    ensures forall x, y ::
              (x in multiset(Matching(store, coin)) - multiset(RecentSnapshots(store, coin, limit)) &&
               y in RecentSnapshots(store, coin, limit)) ==> x.timestamp <= y.timestamp
  {
    var m := Matching(store, coin);
    var sorted := SortDescending(m);
    SortDescendingSpec(m);
    var k := Min(limit, |sorted|);
    NewestPrefix(sorted, k);
    assert |sorted| == |m| by {
      assert |multiset(sorted)| == |multiset(m)|;
    }
    forall y | y in sorted[..k]
      ensures y.code == coin && y in store
    {
      assert y in multiset(m);
      MatchingCount(store, coin, y);
    }
  }

  /** A prefix of a newest-first list is newest-first, and nothing after it is newer than
      anything in it. */
  lemma NewestPrefix(sorted: seq<CoinInfoSnapshot>, k: nat)
    requires Descending(sorted) && k <= |sorted|
    ensures Descending(sorted[..k])
    ensures multiset(sorted) - multiset(sorted[..k]) == multiset(sorted[k..])
    ensures multiset(sorted[..k]) <= multiset(sorted)
    ensures forall x, y :: x in multiset(sorted[k..]) && y in sorted[..k] ==> x.timestamp <= y.timestamp
  {
    assert sorted == sorted[..k] + sorted[k..];
    forall x, y | x in multiset(sorted[k..]) && y in sorted[..k]
      ensures x.timestamp <= y.timestamp
    {
      PrefixNotOlder(sorted, k, x, y);
    }
  }

  lemma PrefixNotOlder(sorted: seq<CoinInfoSnapshot>, k: nat, x: CoinInfoSnapshot, y: CoinInfoSnapshot)
    requires Descending(sorted) && k <= |sorted|
    requires x in sorted[k..] && y in sorted[..k]
    ensures x.timestamp <= y.timestamp
  {
    var j :| k <= j < |sorted| && sorted[j] == x;
    var i :| 0 <= i < k && sorted[i] == y;
  }
}
