/** The bounded trade history of src/trading.rs: Redis lists and sets as sequences and sets,
    the records a consumer stores one after another, and the price change read from them. */
module TradeHistory {
  import opened Wrappers

  /** `price` is a floating-point number in the program. */
  datatype Record = Record(mint: string, tokenAmount: nat, solAmount: nat, price: real,
                           blocktimeUs: int, isBuy: bool, signature: string)

  /** `LRANGE` and `LTRIM`: both ends included, a negative one counted from the end. */
  function Range(list: seq<Record>, start: int, stop: int): seq<Record> {
    var n := |list|;
    var from := if start < 0 then (if start + n < 0 then 0 else start + n) else start;
    var to := if stop < 0 then stop + n else if stop >= n then n - 1 else stop;
    if from > to then [] else list[from..to + 1]
  }

  /** What Redis holds for one mint: the list, newest first, and every signature seen. */
  datatype Stored = Stored(trades: seq<Record>, signatures: set<string>)

  /** `store_trade` */
  function Store(max: nat, s: Stored, r: Record): Stored {
    if r.signature in s.signatures then s
    else Stored(Range([r] + s.trades, 0, max - 1), s.signatures + {r.signature})
  }

  function StoreAll(max: nat, history: seq<Record>): Stored {
    if history == [] then Stored([], {})
    else Store(max, StoreAll(max, history[..|history| - 1]), history[|history| - 1])
  }

  function Signatures(history: seq<Record>): set<string> {
    set i | 0 <= i < |history| :: history[i].signature
  }

  /** The history with every repeated signature dropped. */
  function Distinct(history: seq<Record>): seq<Record> {
    if history == [] then []
    else
      var before, last := history[..|history| - 1], history[|history| - 1];
      if last.signature in Signatures(before) then Distinct(before)
      else Distinct(before) + [last]
  }

  function Reversed(s: seq<Record>): (r: seq<Record>)
    ensures |r| == |s|
    ensures forall i :: 0 <= i < |s| ==> r[i] == s[|s| - 1 - i]
  {
    if s == [] then [] else [s[|s| - 1]] + Reversed(s[..|s| - 1])
  }

  function Take(s: seq<Record>, n: nat): (r: seq<Record>)
    ensures r <= s && |r| == if |s| < n then |s| else n
  {
    if |s| <= n then s else s[..n]
  }

  lemma SignaturesGrow(history: seq<Record>)
    requires history != []
    ensures Signatures(history)
            == Signatures(history[..|history| - 1]) + {history[|history| - 1].signature}
  {
    var n := |history| - 1;
    forall sig ensures sig in Signatures(history)
                  <==> sig in Signatures(history[..n]) + {history[n].signature}
    {
      if sig in Signatures(history) {
        var i :| 0 <= i < |history| && history[i].signature == sig;
        assert i < n ==> history[..n][i].signature == sig;
      }
      if sig in Signatures(history[..n]) {
        var i :| 0 <= i < n && history[..n][i].signature == sig;
        assert history[i].signature == sig;
      }
    }
  }

  lemma TrimKeepsNewest(max: nat, r: Record, list: seq<Record>)
    ensures Range([r] + (if max == 0 then list else Take(list, max)), 0, max - 1)
            == if max == 0 then [r] + list else Take([r] + list, max)
  {}

  lemma ReversedAppends(s: seq<Record>, r: Record)
    ensures Reversed(s + [r]) == [r] + Reversed(s)
  {
    assert (s + [r])[..|s|] == s;
  }

  /** The list is always the newest `max` entries of the history without repeats, newest
      first, and the set is every signature seen. With `max` zero the trim keeps everything. */
  lemma {:induction false} StoredIsNewestDistinct(max: nat, history: seq<Record>)
    ensures StoreAll(max, history).signatures == Signatures(history)
    ensures StoreAll(max, history).trades
            == if max == 0 then Reversed(Distinct(history))
               else Take(Reversed(Distinct(history)), max)
  {
    if history != [] {
      var before, last := history[..|history| - 1], history[|history| - 1];
      StoredIsNewestDistinct(max, before);
      SignaturesGrow(history);
      assert StoreAll(max, history) == Store(max, StoreAll(max, before), last);
      if last.signature in Signatures(before) {
        assert Distinct(history) == Distinct(before);
      } else {
        assert Distinct(history) == Distinct(before) + [last];
        ReversedAppends(Distinct(before), last);
        TrimKeepsNewest(max, last, Reversed(Distinct(before)));
      }
    }
  }

  /** The list stays within its bound for every history exactly when the bound is positive. */
  lemma ListIsBoundedIff(max: nat)
    ensures max >= 1 <==> forall history :: |StoreAll(max, history).trades| <= max
  {
    if max >= 1 {
      forall history ensures |StoreAll(max, history).trades| <= max {
        StoredIsNewestDistinct(max, history);
      }
    } else {
      var history := [Record("", 0, 0, 0.0, 0, true, "")];
      assert history[..0] == [];
      assert StoreAll(0, history) == Store(0, Stored([], {}), history[0]);
      assert |StoreAll(0, history).trades| == 1;
    }
  }

  lemma {:induction false} DistinctHasOnlySeen(history: seq<Record>)
    ensures Signatures(Distinct(history)) == Signatures(history)
    ensures forall i, j :: 0 <= i < j < |Distinct(history)| ==>
              Distinct(history)[i].signature != Distinct(history)[j].signature
  {
    if history != [] {
      var before, last := history[..|history| - 1], history[|history| - 1];
      DistinctHasOnlySeen(before);
      SignaturesGrow(history);
      if last.signature !in Signatures(before) {
        var d := Distinct(before);
        SignaturesGrow(d + [last]);
        assert (d + [last])[..|d|] == d;
        forall i | 0 <= i < |d| ensures d[i].signature in Signatures(d) {}
      }
    }
  }

  /** Later records only add to the end, and only with signatures not seen before. */
  lemma {:induction false} DistinctExtends(history: seq<Record>, more: seq<Record>)
    ensures Distinct(history) <= Distinct(history + more)
    ensures forall i :: |Distinct(history)| <= i < |Distinct(history + more)| ==>
              Distinct(history + more)[i].signature !in Signatures(history)
    decreases |more|
  {
    if more == [] {
      assert history + more == history;
    } else {
      var n := |more| - 1;
      var all := history + more;
      assert all[..|all| - 1] == history + more[..n];
      DistinctExtends(history, more[..n]);
      forall sig | sig in Signatures(history) ensures sig in Signatures(history + more[..n]) {
        var i :| 0 <= i < |history| && history[i].signature == sig;
        assert (history + more[..n])[i].signature == sig;
      }
    }
  }

  /** Entry `i` of a bounded list is entry `i` from the end of the history without repeats. */
  lemma ListEntry(max: nat, history: seq<Record>, i: nat)
    requires max >= 1
    ensures
      var list, d := StoreAll(max, history).trades, Distinct(history);
      && (i < |list| <==> i < |d| && i < max)
      && (i < |list| ==> list[i] == d[|d| - 1 - i])
  {
    StoredIsNewestDistinct(max, history);
  }

  lemma InSignatures(s: seq<Record>, i: nat)
    requires i < |s|
    ensures s[i].signature in Signatures(s)
  {}

  /** A signature that was seen and is no longer in the list never comes back. */
  lemma EvictedStaysOut(max: nat, history: seq<Record>, more: seq<Record>, sig: string)
    requires max >= 1 && sig in Signatures(history)
    requires sig !in Signatures(StoreAll(max, history).trades)
    ensures sig !in Signatures(StoreAll(max, history + more).trades)
  {
    var list := StoreAll(max, history + more).trades;
    forall i | 0 <= i < |list| ensures list[i].signature != sig {
      EntryIsNotEvicted(max, history, more, sig, i);
    }
  }

  lemma EntryIsNotEvicted(max: nat, history: seq<Record>, more: seq<Record>, sig: string, i: nat)
    requires max >= 1 && sig in Signatures(history)
    requires sig !in Signatures(StoreAll(max, history).trades)
    requires i < |StoreAll(max, history + more).trades|
    ensures StoreAll(max, history + more).trades[i].signature != sig
  {
    var d, e := Distinct(history), Distinct(history + more);
    var at := |e| - 1 - i;
    ListEntry(max, history + more, i);
    DistinctExtends(history, more);
    if at < |d| {
      ListEntry(max, history, |d| - 1 - at);
      InSignatures(StoreAll(max, history).trades, |d| - 1 - at);
    }
  }

  /** `sort_by` with newer block times first: a stable insertion sort. */
  function SortNewest(s: seq<Record>): seq<Record> {
    if s == [] then [] else InsertNewest(s[0], SortNewest(s[1..]))
  }

  function InsertNewest(r: Record, s: seq<Record>): seq<Record> {
    if s == [] || s[0].blocktimeUs <= r.blocktimeUs then [r] + s
    else [s[0]] + InsertNewest(r, s[1..])
  }

  predicate NewestFirst(s: seq<Record>) {
    forall i, j :: 0 <= i < j < |s| ==> s[i].blocktimeUs >= s[j].blocktimeUs
  }

  /** The records with block time `t`, in order. */
  function AtTime(s: seq<Record>, t: int): seq<Record> {
    if s == [] then []
    else (if s[0].blocktimeUs == t then [s[0]] else []) + AtTime(s[1..], t)
  }

  lemma {:induction false} InsertKeepsOrder(r: Record, s: seq<Record>)
    requires NewestFirst(s)
    ensures InsertNewest(r, s) != [] && NewestFirst(InsertNewest(r, s))
    ensures InsertNewest(r, s)[0] == r || (s != [] && InsertNewest(r, s)[0] == s[0])
  {
    if s != [] && s[0].blocktimeUs > r.blocktimeUs {
      var rest := InsertNewest(r, s[1..]);
      InsertKeepsOrder(r, s[1..]);
      forall j | 0 <= j < |rest| ensures s[0].blocktimeUs >= rest[j].blocktimeUs {
        assert rest[0].blocktimeUs >= rest[j].blocktimeUs;
      }
    }
  }

  lemma {:induction false} InsertAdds(r: Record, s: seq<Record>)
    ensures multiset(InsertNewest(r, s)) == multiset{r} + multiset(s)
  {
    if s != [] && s[0].blocktimeUs > r.blocktimeUs {
      InsertAdds(r, s[1..]);
      assert s == [s[0]] + s[1..];
    }
  }

  lemma AtTimeFirst(r: Record, s: seq<Record>, t: int)
    ensures AtTime([r] + s, t) == (if r.blocktimeUs == t then [r] else []) + AtTime(s, t)
  {
    assert ([r] + s)[1..] == s;
  }

  /** Inserting puts a record before those of its own block time. */
  lemma {:induction false} InsertIsStable(r: Record, s: seq<Record>, t: int)
    ensures AtTime(InsertNewest(r, s), t) == AtTime([r] + s, t)
  {
    AtTimeFirst(r, s, t);
    if s != [] && s[0].blocktimeUs > r.blocktimeUs {
      InsertIsStable(r, s[1..], t);
      AtTimeFirst(r, s[1..], t);
      AtTimeFirst(s[0], InsertNewest(r, s[1..]), t);
    }
  }

  /** The result is the same records, newest block time first, and records of the same block
      time keep the order they had. */
  lemma {:induction false} SortIsStable(s: seq<Record>, t: int)
    ensures NewestFirst(SortNewest(s))
    ensures multiset(SortNewest(s)) == multiset(s)
    ensures AtTime(SortNewest(s), t) == AtTime(s, t)
  {
    if s != [] {
      SortIsStable(s[1..], t);
      InsertKeepsOrder(s[0], SortNewest(s[1..]));
      InsertAdds(s[0], SortNewest(s[1..]));
      InsertIsStable(s[0], SortNewest(s[1..]), t);
      AtTimeFirst(s[0], SortNewest(s[1..]), t);
      assert s == [s[0]] + s[1..];
    }
  }

  lemma {:induction false} AtTimeHas(s: seq<Record>, i: nat)
    requires i < |s|
    ensures s[i] in AtTime(s, s[i].blocktimeUs)
  {
    if i > 0 {
      AtTimeHas(s[1..], i - 1);
    }
  }

  lemma {:induction false} AtTimeIsFrom(s: seq<Record>, t: int, r: Record)
    requires r in AtTime(s, t)
    ensures r in s && r.blocktimeUs == t
  {
    if s[0].blocktimeUs != t || r != s[0] {
      AtTimeIsFrom(s[1..], t, r);
    }
  }

  lemma AtTimeTail(s: seq<Record>, t: int)
    requires s != []
    ensures AtTime(s[1..], t)
            == if s[0].blocktimeUs == t then AtTime(s, t)[1..] else AtTime(s, t)
  {}

  /** Nothing else is: that describes one list only. */
  lemma {:induction false} StableSortIsUnique(a: seq<Record>, b: seq<Record>)
    requires NewestFirst(a) && NewestFirst(b)
    requires forall t :: AtTime(a, t) == AtTime(b, t)
    ensures a == b
    decreases |a|
  {
    if a != [] {
      AtTimeHas(a, 0);
      AtTimeIsFrom(b, a[0].blocktimeUs, a[0]);
      AtTimeHas(b, 0);
      AtTimeIsFrom(a, b[0].blocktimeUs, b[0]);
      var t := a[0].blocktimeUs;
      assert b[0].blocktimeUs == t;
      assert AtTime(a, t)[0] == a[0] && AtTime(b, t)[0] == b[0];
      forall u ensures AtTime(a[1..], u) == AtTime(b[1..], u) {
        assert AtTime(a, u) == AtTime(b, u);
        AtTimeTail(a, u);
        AtTimeTail(b, u);
      }
      StableSortIsUnique(a[1..], b[1..]);
    }
  }

  /** `get_recent_trades` */
  function RecentTrades(s: Stored, limit: nat): seq<Record> {
    SortNewest(Range(s.trades, 0, limit - 1))
  }

  /** A positive limit sorts that many of the newest stored records; limit zero all of them. */
  lemma RecentTradesSorted(s: Stored, limit: nat, t: int)
    ensures
      var taken := if limit == 0 then s.trades else Take(s.trades, limit);
      var result := RecentTrades(s, limit);
      && NewestFirst(result) && multiset(result) == multiset(taken)
      && AtTime(result, t) == AtTime(taken, t)
  {
    var taken := if limit == 0 then s.trades else Take(s.trades, limit);
    assert Range(s.trades, 0, limit - 1) == taken;
    SortIsStable(taken, t);
  }

  /** The percentage of `calculate_price_change_from_records`, on the trades it reads. */
  function PriceChange(trades: seq<Record>): Option<real> {
    if |trades| < 2 then None
    else
      var oldest, newest := trades[|trades| - 1].price, trades[0].price;
      if oldest == 0.0 then None else Some((newest - oldest) / oldest * 100.0)
  }

  /** The change compares a record of the latest block time, the one stored last among equals,
      with one of the earliest, stored first among equals. */
  lemma PriceChangeSpansWindow(s: Stored, limit: nat)
    requires |RecentTrades(s, limit)| >= 2
    ensures
      var taken := if limit == 0 then s.trades else Take(s.trades, limit);
      var result := RecentTrades(s, limit);
      var newest, oldest := result[0], result[|result| - 1];
      && newest in taken && oldest in taken
      && (forall r :: r in taken ==> oldest.blocktimeUs <= r.blocktimeUs <= newest.blocktimeUs)
      && var latest, earliest :=
           AtTime(taken, newest.blocktimeUs), AtTime(taken, oldest.blocktimeUs);
         && latest != [] && latest[0] == newest
         && earliest != [] && earliest[|earliest| - 1] == oldest
  {
    var taken := if limit == 0 then s.trades else Take(s.trades, limit);
    var result := RecentTrades(s, limit);
    var newest, oldest := result[0], result[|result| - 1];
    RecentTradesSorted(s, limit, newest.blocktimeUs);
    RecentTradesSorted(s, limit, oldest.blocktimeUs);
    SameMembers(result, taken);
    EndsBound(result);
    LastAtTime(result);
    FirstOfTime(result, 0);
  }

  lemma SameMembers(a: seq<Record>, b: seq<Record>)
    requires multiset(a) == multiset(b)
    ensures forall r :: r in a <==> r in b
  {
    forall r ensures r in a <==> r in b {
      assert r in multiset(a) <==> r in multiset(b);
    }
  }

  lemma EndsBound(s: seq<Record>)
    requires NewestFirst(s) && s != []
    ensures forall r :: r in s ==>
              s[|s| - 1].blocktimeUs <= r.blocktimeUs <= s[0].blocktimeUs
  {}

  /** Record `i` is the one stored last among those of the latest block time. */
  ghost predicate Latest(taken: seq<Record>, i: nat) {
    && i < |taken|
    && (forall j :: 0 <= j < |taken| ==> taken[j].blocktimeUs <= taken[i].blocktimeUs)
    && (forall j :: 0 <= j < i ==> taken[j].blocktimeUs < taken[i].blocktimeUs)
  }

  /** Record `i` is the one stored first among those of the earliest block time. */
  ghost predicate Earliest(taken: seq<Record>, i: nat) {
    && i < |taken|
    && (forall j :: 0 <= j < |taken| ==> taken[j].blocktimeUs >= taken[i].blocktimeUs)
    && (forall j :: i < j < |taken| ==> taken[j].blocktimeUs > taken[i].blocktimeUs)
  }

  /** The change from the price of the earliest record to that of the latest, in percent. */
  ghost predicate ChangeOver(taken: seq<Record>, change: Option<real>) {
    && (|taken| < 2 ==> change.None?)
    && (|taken| >= 2 ==> forall i: nat, j: nat :: Latest(taken, i) && Earliest(taken, j) ==>
          ChangeFrom(taken[j].price, taken[i].price, change))
  }

  predicate ChangeFrom(p: real, q: real, change: Option<real>) {
    && (change.None? <==> p == 0.0)
    && (change.Some? ==> p * (100.0 + change.value) == 100.0 * q)
  }

  lemma {:induction false} FirstOfTime(s: seq<Record>, i: nat)
    requires i < |s| && forall j :: 0 <= j < i ==> s[j].blocktimeUs != s[i].blocktimeUs
    ensures AtTime(s, s[i].blocktimeUs) != [] && AtTime(s, s[i].blocktimeUs)[0] == s[i]
  {
    if i > 0 { FirstOfTime(s[1..], i - 1); }
  }

  lemma {:induction false} NoneOfTime(s: seq<Record>, t: int)
    requires forall j :: 0 <= j < |s| ==> s[j].blocktimeUs != t
    ensures AtTime(s, t) == []
  {
    if s != [] { NoneOfTime(s[1..], t); }
  }

  lemma {:induction false} LastOfTime(s: seq<Record>, i: nat)
    requires i < |s| && forall j :: i < j < |s| ==> s[j].blocktimeUs != s[i].blocktimeUs
    ensures
      var same := AtTime(s, s[i].blocktimeUs);
      same != [] && same[|same| - 1] == s[i]
  {
    if i > 0 {
      LastOfTime(s[1..], i - 1);
    } else {
      NoneOfTime(s[1..], s[0].blocktimeUs);
    }
  }

  lemma Percentage(p: real, q: real)
    requires p != 0.0
    ensures p * (100.0 + (q - p) / p * 100.0) == 100.0 * q
  {
    var d := (q - p) / p;
    assert d * p == q - p;
    assert p * (100.0 + d * 100.0) == 100.0 * p + 100.0 * (d * p);
  }

  lemma LatestIs(taken: seq<Record>, i: nat, newest: Record)
    requires Latest(taken, i) && newest in taken
    requires forall r :: r in taken ==> r.blocktimeUs <= newest.blocktimeUs
    requires AtTime(taken, newest.blocktimeUs) != []
    requires AtTime(taken, newest.blocktimeUs)[0] == newest
    ensures newest == taken[i]
  {
    assert taken[i] in taken;
    FirstOfTime(taken, i);
  }

  lemma EarliestIs(taken: seq<Record>, j: nat, oldest: Record)
    requires Earliest(taken, j) && oldest in taken
    requires forall r :: r in taken ==> oldest.blocktimeUs <= r.blocktimeUs
    requires
      var same := AtTime(taken, oldest.blocktimeUs);
      same != [] && same[|same| - 1] == oldest
    ensures oldest == taken[j]
  {
    assert taken[j] in taken;
    LastOfTime(taken, j);
  }

  /** The ends of the sorted list are the latest and the earliest of the stored records. */
  lemma EndsAreExtremes(s: Stored, limit: nat, taken: seq<Record>, i: nat, j: nat)
    requires |RecentTrades(s, limit)| >= 2
    requires taken == if limit == 0 then s.trades else Take(s.trades, limit)
    requires Latest(taken, i) && Earliest(taken, j)
    ensures
      var result := RecentTrades(s, limit);
      result[0] == taken[i] && result[|result| - 1] == taken[j]
  {
    var result := RecentTrades(s, limit);
    PriceChangeSpansWindow(s, limit);
    LatestIs(taken, i, result[0]);
    EarliestIs(taken, j, result[|result| - 1]);
  }

  lemma ChangeOfEnds(trades: seq<Record>)
    requires |trades| >= 2
    ensures ChangeFrom(trades[|trades| - 1].price, trades[0].price, PriceChange(trades))
  {
    var p := trades[|trades| - 1].price;
    if p != 0.0 { Percentage(p, trades[0].price); }
  }

  /** The answer is the change over the newest `limit` stored records, or over all for 0. */
  lemma PriceChangeIsChange(s: Stored, limit: nat)
    ensures ChangeOver(if limit == 0 then s.trades else Take(s.trades, limit),
                       PriceChange(RecentTrades(s, limit)))
  {
    var taken := if limit == 0 then s.trades else Take(s.trades, limit);
    var result := RecentTrades(s, limit);
    RecentTradesSorted(s, limit, 0);
    assert |result| == |multiset(result)| == |multiset(taken)| == |taken|;
    if |taken| >= 2 {
      ChangeOfEnds(result);
      forall i: nat, j: nat | Latest(taken, i) && Earliest(taken, j)
        ensures ChangeFrom(taken[j].price, taken[i].price, PriceChange(result))
      {
        EndsAreExtremes(s, limit, taken, i, j);
      }
    }
  }

  lemma {:induction false} LastAtTime(s: seq<Record>)
    requires s != []
    ensures
      var last := AtTime(s, s[|s| - 1].blocktimeUs);
      last != [] && last[|last| - 1] == s[|s| - 1]
  {
    if |s| > 1 {
      LastAtTime(s[1..]);
    }
  }

  class RedisStore {
    const maxTradesPerToken: nat
    var lists: map<string, seq<Record>>
    var sets: map<string, set<string>>

    /** An absent key is an empty list or set. */
    function At(mint: string): Stored
      reads this
    {
      Stored(if mint in lists then lists[mint] else [], if mint in sets then sets[mint] else {})
    }

    constructor (maxTradesPerToken: nat)
      ensures this.maxTradesPerToken == maxTradesPerToken
      ensures forall mint :: At(mint) == Stored([], {})
    {
      this.maxTradesPerToken := maxTradesPerToken;
      lists, sets := map[], map[];
    }

    method IsSignatureExists(mint: string, signature: string) returns (exists': bool)
      ensures exists' <==> signature in At(mint).signatures
    {
      exists' := mint in sets && signature in sets[mint];
    }

    /** The list, its trim and the set change together; other mints are untouched. */
    method StoreTrade(mint: string, record: Record)
      modifies this
      ensures At(mint) == Store(maxTradesPerToken, old(At(mint)), record)
      ensures forall other :: other != mint ==> At(other) == old(At(other))
    {
      var seen := IsSignatureExists(mint, record.signature);
      if seen {
        return;
      }
      var pushed := [record] + At(mint).trades;
      var signatures := At(mint).signatures + {record.signature};
      lists := lists[mint := Range(pushed, 0, maxTradesPerToken - 1)];
      sets := sets[mint := signatures];
    }

    method GetRecentTrades(mint: string, limit: nat) returns (result: seq<Record>)
      ensures result == RecentTrades(At(mint), limit)
    {
      result := SortNewest(Range(At(mint).trades, 0, limit - 1));
    }

    method CalculatePriceChangeFromRecords(mint: string, recordCount: nat)
      returns (change: Option<real>)
      ensures change == PriceChange(RecentTrades(At(mint), recordCount))
      ensures ChangeOver(if recordCount == 0 then At(mint).trades
                         else Take(At(mint).trades, recordCount), change)
    {
      PriceChangeIsChange(At(mint), recordCount);
      var trades := GetRecentTrades(mint, recordCount);
      change := PriceChange(trades);
    }
  }
}
