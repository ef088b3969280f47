/** Account-trade catch-up in bounded steps and all-or-nothing offer snapshots (dex_service.py). */
module Dex {
  import opened Models
  import opened Arithmetic
  import opened RemoteLogs
  import opened HorizonServer
  import opened DataStores
  import TradeSegments

  const OFFER_PAGE_LIMIT: nat := 200
  const ACCOUNT_TRADE_PAGE_LIMIT: nat := 200
  const ACCOUNT_TRADE_MAX_INCREMENTAL_PAGES: nat := 5

  /** The most trades one refresh brings in after its cursor. */
  const REFRESH_REACH: nat := 1000

  /** `AccountTradeSegmentSnapshot`. */
  datatype Snapshot = Snapshot(segments: seq<TradeSegments.Segment>, caughtUp: bool)

  function TradesOf(records: Log, address: string, parse: (Record, string) -> TradeSegments.Trade): seq<TradeSegments.Trade> {
    seq(|records|, i requires 0 <= i < |records| => parse(records[i], address))
  }

  /**
   * What one refresh makes of a cache that held the records lo up to hi of a log: from up to
   * to, at the head of the log exactly when it says it has caught up or there was nothing.
   */
  predicate Refreshed(caughtUp: bool, lo: nat, hi: nat, from: nat, to: nat, head: nat, limit: nat) {
    && (caughtUp ==> to == head)
    && (lo < hi ==> from == lo && hi <= to <= hi + REFRESH_REACH && (caughtUp <==> to < hi + REFRESH_REACH))
    && (lo == hi ==> caughtUp && from == Max(to - Min(200, Max(limit, 1)), 0))
  }

  lemma RefreshedKnown(caughtUp: bool, lo: nat, hi: nat, to: nat, head: nat, limit: nat)
    requires lo < hi <= to && (if caughtUp then to == head && to < hi + REFRESH_REACH else to == hi + REFRESH_REACH)
    ensures Refreshed(caughtUp, lo, hi, lo, to, head, limit)
  {
  }

  lemma RefreshedEmpty(at: nat, to: nat, limit: nat)
    ensures Refreshed(true, at, at, Max(to - Min(ACCOUNT_TRADE_PAGE_LIMIT, Max(limit, 1)), 0), to, to, limit)
  {
  }

  // ---------- what a snapshot shows ----------

  function BaseIn(records: Log, address: string, parse: (Record, string) -> TradeSegments.Trade): int {
    if records == [] then 0
    else BaseIn(records[..|records| - 1], address, parse) + parse(records[|records| - 1], address).baseAmount
  }

  function CounterIn(records: Log, address: string, parse: (Record, string) -> TradeSegments.Trade): int {
    if records == [] then 0
    else CounterIn(records[..|records| - 1], address, parse) + parse(records[|records| - 1], address).counterAmount
  }

  /** The segments account for exactly these records: their number, their raw texts in order, their amounts in sum. */
  predicate AccountsFor(
    segments: seq<TradeSegments.Segment>, records: Log, address: string, parse: (Record, string) -> TradeSegments.Trade)
  {
    var totals := TradeSegments.TotalsOf(segments);
    && totals.count == |records| == |totals.raw|
    && (forall i :: 0 <= i < |records| ==> totals.raw[i] == parse(records[i], address).raw)
    && totals.base == BaseIn(records, address, parse) && totals.counter == CounterIn(records, address, parse)
  }

  /** The segments are those of the very trades the records read as. */
  predicate ShowsTrades(
    segments: seq<TradeSegments.Segment>, records: Log, address: string, parse: (Record, string) -> TradeSegments.Trade)
  {
    segments == TradeSegments.Compress(seq(|records|, i requires 0 <= i < |records| => parse(records[i], address)), address)
  }

  lemma {:induction false} SumsOfTrades(records: Log, address: string, parse: (Record, string) -> TradeSegments.Trade)
    ensures TradeSegments.BaseOf(TradesOf(records, address, parse)) == BaseIn(records, address, parse)
    ensures TradeSegments.CounterOf(TradesOf(records, address, parse)) == CounterIn(records, address, parse)
  {
    if records != [] {
      var n := |records| - 1;
      SumsOfTrades(records[..n], address, parse);
      assert TradesOf(records, address, parse)[..n] == TradesOf(records[..n], address, parse);
    }
  }

  lemma CompressedShow(records: Log, address: string, parse: (Record, string) -> TradeSegments.Trade)
    ensures var segments := TradeSegments.Compress(TradesOf(records, address, parse), address);
      AccountsFor(segments, records, address, parse) && ShowsTrades(segments, records, address, parse)
  {
    hide TradeSegments.Compress;
    TradeSegments.CompressionConserves(TradesOf(records, address, parse), address);
    SumsOfTrades(records, address, parse);
    assert TradesOf(records, address, parse) == seq(|records|, i requires 0 <= i < |records| => parse(records[i], address));
  }

  class DexService {
    /** `account_trade_from_horizon`, on records it does not refuse. */
    const parse: (Record, string) -> TradeSegments.Trade
    const horizon: Horizon
    const store: MemoryDataStore
    const network: string
    var caughtUp: map<string, bool>

    constructor (
      horizon: Horizon, store: MemoryDataStore, network: string, parse: (Record, string) -> TradeSegments.Trade)
      requires horizon.Valid() && store.Valid()
      ensures Valid() && this.horizon == horizon && this.store == store && this.network == network && this.parse == parse
    {
      this.horizon, this.store, this.network, this.parse := horizon, store, network, parse;
      caughtUp := map[];
    }

    predicate Valid()
      reads this, horizon, store
    {
      horizon.Valid() && store.Valid()
    }

    function CacheKey(address: string): Key {
      Key(network, "account:" + address)
    }

    function CacheOf(address: string): Bucket
      reads this, store
    {
      BucketAt(store.trades, CacheKey(address))
    }

    function LogOf(address: string): Log
      reads this, horizon
    {
      horizon.LogOf(Trades(address))
    }

    ghost predicate GapFree(address: string)
      reads this, horizon, store
    {
      exists lo: nat, hi: nat :: IsBlock(CacheOf(address), LogOf(address), lo, hi)
    }

    /** Every account has a bucket of its own, so a change under one key is a change for one account. */
    lemma OthersKept(before: map<Key, Bucket>, after: map<Key, Bucket>, address: string)
      requires OnlyAt(before, after, CacheKey(address))
      ensures forall other :: other != address ==> BucketAt(after, CacheKey(other)) == BucketAt(before, CacheKey(other))
    {
      forall other | other != address ensures BucketAt(after, CacheKey(other)) == BucketAt(before, CacheKey(other)) {
        assert ("account:" + other)[8..] == other && ("account:" + address)[8..] == address;
      }
    }

    lemma LogIncreasing(address: string)
      requires Valid()
      ensures Increasing(LogOf(address))
    {
    }

    /** One page of trades after the newest cached one, fetched and stored. */
    method PullTrades(address: string, cursor: nat, ghost lo: nat, ghost hi: nat)
      returns (page: Result<Log>, ghost to: nat)
      requires Valid() && IsBlock(CacheOf(address), LogOf(address), lo, hi)
      requires lo < hi <= |LogOf(address)| && LogOf(address)[hi - 1].token == cursor
      modifies horizon`logs, horizon`traffic, store`trades
      ensures Valid() && Extends(old(horizon.logs), horizon.logs)
      ensures OnlyAt(old(store.trades), store.trades, CacheKey(address))
      ensures horizon.steady ==> page.Success? && horizon.logs == old(horizon.logs)
      ensures IsBlock(CacheOf(address), LogOf(address), lo, to) && hi <= to <= |LogOf(address)|
      ensures page.Failure? ==> to == hi
      ensures page.Success? ==> to == Min(hi + ACCOUNT_TRADE_PAGE_LIMIT, |LogOf(address)|) && |page.value| == to - hi
      ensures page.Success? && page.value != [] ==>
        page.value[|page.value| - 1].token == LogOf(address)[to - 1].token != cursor
      ensures horizon.traffic == old(horizon.traffic).Counting(page)
    {
      hide IsBlock, Saved, PageAfter, Increasing, OnlyAt, Extends, Horizon.Valid, MemoryDataStore.Valid;
      to := hi;
      OnlyAtItself(store.trades, CacheKey(address));
      page := horizon.Fetch(Trades(address), ACCOUNT_TRADE_PAGE_LIMIT, Some(cursor), false);
      ghost var log := LogOf(address);
      ExtendsLog(old(horizon.logs), horizon.logs, Trades(address));
      BlockInLongerLog(CacheOf(address), old(LogOf(address)), log, lo, hi);
      LogIncreasing(address);
      if page.Success? {
        ForwardPage(CacheOf(address), log, lo, hi, ACCOUNT_TRADE_PAGE_LIMIT);
        to := Min(hi + ACCOUNT_TRADE_PAGE_LIMIT, |log|);
        if page.value != [] {
          store.SaveTrades(CacheKey(address), page.value);
        }
      }
    }

    /**
     * `_sync_account_trade_increment`: at most five pages forwards. The answer is True only
     * when every trade after the cursor is cached, and False only after five full pages.
     */
    method SyncAccountTradeIncrement(address: string, cursor: nat, ghost lo: nat, ghost hi: nat)
      returns (r: Result<bool>, ghost to: nat)
      requires Valid() && IsBlock(CacheOf(address), LogOf(address), lo, hi)
      requires lo < hi <= |LogOf(address)| && LogOf(address)[hi - 1].token == cursor
      modifies horizon`logs, horizon`traffic, store`trades
      ensures Valid() && Extends(old(horizon.logs), horizon.logs)
      ensures OnlyAt(old(store.trades), store.trades, CacheKey(address))
      ensures horizon.steady ==> r.Success? && horizon.logs == old(horizon.logs)
      ensures IsBlock(CacheOf(address), LogOf(address), lo, to) && hi <= to <= |LogOf(address)|
      ensures r == Success(true) ==> to == |LogOf(address)| && to < hi + REFRESH_REACH
      ensures r == Success(false) ==> to == hi + REFRESH_REACH
      ensures r.Success? <==> horizon.traffic.failed == old(horizon.traffic.failed)
    {
      hide IsBlock, Saved, PageAfter, Increasing, OnlyAt, Extends, Horizon.Valid, MemoryDataStore.Valid;
      var nextCursor := cursor;
      to := hi;
      ExtendsItself(horizon.logs);
      OnlyAtItself(store.trades, CacheKey(address));
      r := Success(false);

      for pages := 0 to ACCOUNT_TRADE_MAX_INCREMENTAL_PAGES
        invariant Valid() && Extends(old(horizon.logs), horizon.logs)
        invariant OnlyAt(old(store.trades), store.trades, CacheKey(address))
        invariant horizon.steady ==> horizon.logs == old(horizon.logs)
        invariant IsBlock(CacheOf(address), LogOf(address), lo, to)
        invariant to == hi + pages * ACCOUNT_TRADE_PAGE_LIMIT && to <= |LogOf(address)|
        invariant LogOf(address)[to - 1].token == nextCursor
        invariant r == Success(false) && horizon.traffic.failed == old(horizon.traffic.failed)
      {
        ghost var logs, trades := horizon.logs, store.trades;
        var page;
        page, to := PullTrades(address, nextCursor, lo, to);
        ExtendsTransitive(old(horizon.logs), logs, horizon.logs);
        OnlyAtTransitive(old(store.trades), trades, store.trades, CacheKey(address));
        if page.Failure? {
          r := Failure(page.error);
          break;
        }
        var records := page.value;
        if records == [] {
          r := Success(true);
          break;
        }
        var lastCursor := records[|records| - 1].token;
        if lastCursor == nextCursor {
          break;
        }
        nextCursor := lastCursor;
        if |records| < ACCOUNT_TRADE_PAGE_LIMIT {
          r := Success(true);
          break;
        }
      }
    }

    /** The newest page of trades, for a cache that holds none. */
    method PullNewestTrades(address: string, limit: nat, ghost lo: nat, ghost hi: nat)
      returns (r: Result<bool>, ghost from: nat, ghost to: nat)
      requires Valid() && CacheOf(address) == map[] && IsBlock(map[], LogOf(address), lo, hi)
      modifies horizon`logs, horizon`traffic, store`trades
      ensures Valid() && Extends(old(horizon.logs), horizon.logs)
      ensures OnlyAt(old(store.trades), store.trades, CacheKey(address))
      ensures horizon.steady ==> r.Success? && horizon.logs == old(horizon.logs)
      ensures IsBlock(CacheOf(address), LogOf(address), from, to)
      ensures r.Success? ==> r.value && to == |LogOf(address)| && from == Max(to - limit, 0)
      ensures r.Success? <==> horizon.traffic.failed == old(horizon.traffic.failed)
    {
      hide IsBlock, Saved, PageBefore, Increasing, OnlyAt, Extends, Horizon.Valid, MemoryDataStore.Valid;
      from, to := lo, hi;
      OnlyAtItself(store.trades, CacheKey(address));
      var page := horizon.Fetch(Trades(address), limit, None, true);
      ExtendsLog(old(horizon.logs), horizon.logs, Trades(address));
      BlockInLongerLog(CacheOf(address), old(LogOf(address)), LogOf(address), lo, hi);
      if page.Failure? {
        return Failure(page.error), from, to;
      }
      LogIncreasing(address);
      FirstPage(LogOf(address), limit);
      store.SaveTrades(CacheKey(address), page.value);
      from, to := Max(|LogOf(address)| - limit, 0), |LogOf(address)|;
      r := Success(true);
    }

    /** The refresh half of `get_account_trade_segment_snapshot`. */
    method RefreshAccountTrades(address: string, limit: nat) returns (r: Result<bool>)
      requires Valid() && GapFree(address)
      modifies this`caughtUp, horizon`logs, horizon`traffic, store`trades
      ensures Valid() && GapFree(address)
      ensures Extends(old(horizon.logs), horizon.logs)
      ensures OnlyAt(old(store.trades), store.trades, CacheKey(address))
      ensures horizon.steady ==> r.Success? && horizon.logs == old(horizon.logs)
      ensures r.Success? ==> caughtUp == old(caughtUp)[address := r.value]
      ensures r.Failure? ==> caughtUp == old(caughtUp)
      ensures r.Success? ==>
        exists lo: nat, hi: nat, from: nat, to: nat ::
          && old(IsBlock(CacheOf(address), LogOf(address), lo, hi))
          && IsBlock(CacheOf(address), LogOf(address), from, to)
          && Refreshed(r.value, lo, hi, from, to, |LogOf(address)|, limit)
      ensures r.Success? <==> horizon.traffic.failed == old(horizon.traffic.failed)
    {
      hide IsBlock, Increasing, OnlyAt, Extends, Listing, NewestOf, CountUpTo, Refreshed, Horizon.Valid, MemoryDataStore.Valid;
      ghost var lo: nat, hi: nat :| IsBlock(CacheOf(address), LogOf(address), lo, hi);
      LogIncreasing(address);
      ListingEnds(CacheOf(address), LogOf(address), lo, hi, true, Some(1));
      ExtendsItself(horizon.logs);
      OnlyAtItself(store.trades, CacheKey(address));
      var latest := store.GetTrades(CacheKey(address), 1);
      ghost var from, to := lo, hi;
      if latest != [] {
        r, to := SyncAccountTradeIncrement(address, latest[0].token, lo, hi);
        if r.Failure? {
          assert IsBlock(CacheOf(address), LogOf(address), lo, to);
          return;
        }
        RefreshedKnown(r.value, lo, hi, to, |LogOf(address)|, limit);
      } else {
        r, from, to := PullNewestTrades(address, Min(ACCOUNT_TRADE_PAGE_LIMIT, Max(limit, 1)), lo, hi);
        if r.Failure? {
          return;
        }
        RefreshedEmpty(lo, to, limit);
      }
      caughtUp := caughtUp[address := r.value];
      assert IsBlock(CacheOf(address), LogOf(address), from, to);
    }

    /**
     * `get_account_trade_segment_snapshot`: the compression of the newest `limit` cached trades,
     * newest first. Of a refresh that says it has caught up these are the newest of the log.
     */
    method GetAccountTradeSegmentSnapshot(address: string, limit: nat, refresh: bool) returns (r: Result<Snapshot>)
      requires Valid() && GapFree(address)
      modifies this`caughtUp, horizon`logs, horizon`traffic, store`trades
      ensures Valid() && GapFree(address)
      ensures Extends(old(horizon.logs), horizon.logs)
      ensures OnlyAt(old(store.trades), store.trades, CacheKey(address))
      ensures forall other :: other != address ==> CacheOf(other) == old(CacheOf(other))
      ensures horizon.steady ==> r.Success? && horizon.logs == old(horizon.logs)
      ensures !refresh ==> r.Success? && store.trades == old(store.trades) && horizon.logs == old(horizon.logs)
      ensures !refresh ==> r.value.caughtUp == (address in old(caughtUp) && old(caughtUp)[address])
      ensures caughtUp == if refresh && r.Success? then old(caughtUp)[address := r.value.caughtUp] else old(caughtUp)
      ensures r.Success? ==>
        exists lo: nat, hi: nat, from: nat, to: nat ::
          && old(IsBlock(CacheOf(address), LogOf(address), lo, hi))
          && IsBlock(CacheOf(address), LogOf(address), from, to)
          && (if refresh then Refreshed(r.value.caughtUp, lo, hi, from, to, |LogOf(address)|, limit) else (from, to) == (lo, hi))
          && from <= to <= |LogOf(address)|
          && Shows(r.value.segments, address, from, to, limit)
      ensures r.Success? <==> horizon.traffic.failed == old(horizon.traffic.failed)
    {
      hide IsBlock, Increasing, OnlyAt, Extends, Listing, NewestOf, Shows, TradesOf, TradeSegments.Compress;
      hide Refreshed, CountUpTo, Horizon.Valid, MemoryDataStore.Valid;
      ExtendsItself(horizon.logs);
      OnlyAtItself(store.trades, CacheKey(address));
      ghost var lo: nat, hi: nat :| IsBlock(CacheOf(address), LogOf(address), lo, hi);
      ghost var from, to := lo, hi;
      if refresh {
        ghost var cache, log := CacheOf(address), LogOf(address);
        var refreshed := RefreshAccountTrades(address, limit);
        OthersKept(old(store.trades), store.trades, address);
        if refreshed.Failure? {
          return Failure(refreshed.error);
        }
        lo, hi, from, to :| IsBlock(cache, log, lo, hi) && IsBlock(CacheOf(address), LogOf(address), from, to)
          && Refreshed(refreshed.value, lo, hi, from, to, |LogOf(address)|, limit);
      }
      var caught := address in caughtUp && caughtUp[address];
      var raw := store.GetTrades(CacheKey(address), limit);
      LogIncreasing(address);
      NewestSegments(address, from, to, limit);
      var segments := TradeSegments.CompressAccountTrades(TradesOf(raw, address, parse), address);
      r := Success(Snapshot(segments, caught));
    }

    /** The newest `limit` records of a stretch of the log, newest first. */
    function Newest(address: string, from: nat, to: nat, limit: nat): Log
      requires from <= to <= |LogOf(address)|
      reads this, horizon
    {
      Reverse(LogOf(address)[Max(from, to - limit)..to])
    }

    /** The segments show exactly those records. */
    ghost predicate Shows(segments: seq<TradeSegments.Segment>, address: string, from: nat, to: nat, limit: nat)
      requires from <= to <= |LogOf(address)|
      reads this, horizon
    {
      && AccountsFor(segments, Newest(address, from, to, limit), address, parse)
      && ShowsTrades(segments, Newest(address, from, to, limit), address, parse)
    }

    lemma NewestSegments(address: string, from: nat, to: nat, limit: nat)
      requires Increasing(LogOf(address)) && IsBlock(CacheOf(address), LogOf(address), from, to)
      ensures from <= to <= |LogOf(address)| && Keyed(CacheOf(address))
      ensures Shows(TradeSegments.Compress(TradesOf(Listing(CacheOf(address), true, Some(limit)), address, parse), address),
                    address, from, to, limit)
    {
      hide IsBlock, Increasing, Listing, AccountsFor, ShowsTrades;
      BlockListing(CacheOf(address), LogOf(address), from, to, true, Some(limit));
      CompressedShow(Listing(CacheOf(address), true, Some(limit)), address, parse);
    }

    /** One call for offers beyond the cursor; a page that does not stall continues what came before. */
    method PullOffers(address: string, cursor: Option<nat>, ghost records: seq<OfferRecord>)
      returns (page: Result<seq<OfferRecord>>)
      requires Valid() && Listed(records) && EndsOn(records, cursor)
      modifies horizon`offers, horizon`answers
      ensures Valid()
      ensures horizon.answers == old(horizon.answers) + [page]
      ensures horizon.steady ==> page.Success? && horizon.offers == old(horizon.offers)
      ensures page.Success? ==> |page.value| <= OFFER_PAGE_LIMIT
      ensures page.Success? && !StalledPage(page.value, cursor, OFFER_PAGE_LIMIT) ==>
        && Listed(records + page.value)
        && (|page.value| == OFFER_PAGE_LIMIT ==> MovesOn(cursor, page.value[OFFER_PAGE_LIMIT - 1].token))
      ensures page.Success? && horizon.steady ==>
        && !StalledPage(page.value, cursor, OFFER_PAGE_LIMIT)
        && (records == ListedUpTo(horizon.OffersOf(address), cursor) ==>
              records + page.value == if |page.value| == OFFER_PAGE_LIMIT
                then ListedUpTo(horizon.OffersOf(address), page.value[OFFER_PAGE_LIMIT - 1].token)
                else horizon.OffersOf(address))
    {
      hide Listed, ListedUpTo, OfferPage, Passed, Horizon.Valid;
      page := horizon.FetchOffers(address, OFFER_PAGE_LIMIT, cursor);
      OffersListed(address);
      HonestPage(horizon.OffersOf(address), cursor, OFFER_PAGE_LIMIT, records);
    }

    /**
     * `_sync_offers_snapshot`: every page or nothing. It succeeds exactly when the calls were
     * answered with full pages, each moving on, and a short one at the end, and then stores
     * those pages end to end; otherwise nothing. Whatever the pages hold, a stored snapshot has
     * no duplicates; of a list that stands still it is the whole list.
     */
    method SyncOffersSnapshot(address: string) returns (r: Result<nat>)
      requires Valid()
      modifies horizon`offers, horizon`answers, store`offers
      ensures Valid()
      ensures horizon.steady ==> r.Success? && horizon.offers == old(horizon.offers)
      ensures old(horizon.answers) <= horizon.answers
      ensures var given := horizon.answers[|old(horizon.answers)|..];
        && (r.Success? <==> CompletePages(given))
        && (r.Failure? <==> BrokenOff(given))
        && (r.Failure? ==> r.error == BreakOf(given))
        && store.offers == (if r.Success? then old(store.offers)[Key(network, address) := AllRecords(given)] else old(store.offers))
        && (r.Success? ==> r.value == |AllRecords(given)| && Listed(AllRecords(given)))
        && (horizon.steady ==> AllRecords(given) == horizon.OffersOf(address))
    {
      hide Listed, ListedUpTo, FullPages, AllRecords, Horizon.Valid, MemoryDataStore.Valid;
      var records: seq<OfferRecord> := [];
      var cursor: Option<nat> := None;
      ghost var start := |horizon.answers|;
      ghost var given: seq<Result<seq<OfferRecord>>> := [];
      NothingListed(horizon.OffersOf(address));
      NothingGiven();

      while true
        invariant Valid() && store.offers == old(store.offers)
        invariant horizon.steady ==> horizon.offers == old(horizon.offers)
        invariant horizon.answers == old(horizon.answers) + given
        invariant FullPages(given) && records == AllRecords(given) && cursor == CursorAfter(given)
        invariant Listed(records)
        invariant EndsOn(records, cursor)
        invariant horizon.steady ==> records == ListedUpTo(horizon.OffersOf(address), cursor)
        decreases if cursor.None? then 1 else 0, if cursor.Some? then cursor.value else 0
      {
        var response := PullOffers(address, cursor, records);
        ghost var before := given;
        given := given + [response];
        assert horizon.answers[start..] == given;
        OneMoreAnswer(before, response);
        if response.Failure? {
          return Failure(response.error);
        }
        var page := response.value;
        if |page| < OFFER_PAGE_LIMIT {
          records := records + page;
          break;
        }
        var nextCursor := page[|page| - 1].token;
        if nextCursor.None? || nextCursor == cursor {
          return Failure(PaginationStalled);
        }
        records := records + page;
        cursor := nextCursor;
      }
      store.SaveOffers(Key(network, address), records);
      r := Success(|records|);
    }

    lemma OffersListed(address: string)
      requires Valid()
      ensures Listed(horizon.OffersOf(address))
    {
    }
  }

  // ---------- what the answers to a run of offer calls amount to ----------

  /** The cursor for the next call: the token the last page ended on. */
  function CursorAfter(given: seq<Result<seq<OfferRecord>>>): Option<nat> {
    if given == [] then None
    else
      match given[|given| - 1]
      case Success(page) => if page == [] then None else page[|page| - 1].token
      case Failure(_) => None
  }

  /** A full page that moves the cursor on. */
  predicate FullPage(answer: Result<seq<OfferRecord>>, cursor: Option<nat>) {
    && answer.Success? && |answer.value| == 200 && answer.value[199].token.Some? && answer.value[199].token != cursor
  }

  /** Nothing but such pages so far. */
  predicate FullPages(given: seq<Result<seq<OfferRecord>>>) {
    given == [] || (var k := |given| - 1; FullPages(given[..k]) && FullPage(given[k], CursorAfter(given[..k])))
  }

  /** The listing is complete: full pages closed by a short one. */
  predicate CompletePages(given: seq<Result<seq<OfferRecord>>>) {
    given != [] && var k := |given| - 1;
      FullPages(given[..k]) && given[k].Success? && |given[k].value| < 200
  }

  /** The listing broke off: after full pages, a failed call or a page that stalls. */
  predicate BrokenOff(given: seq<Result<seq<OfferRecord>>>) {
    given != [] && var k := |given| - 1;
      FullPages(given[..k]) && (given[k].Failure? || StalledPage(given[k].value, CursorAfter(given[..k]), 200))
  }

  function BreakOf(given: seq<Result<seq<OfferRecord>>>): Error {
    if given != [] && given[|given| - 1].Failure? then given[|given| - 1].error else PaginationStalled
  }

  /** The pages end to end. */
  function AllRecords(given: seq<Result<seq<OfferRecord>>>): seq<OfferRecord> {
    if given == [] then []
    else AllRecords(given[..|given| - 1]) + match given[|given| - 1] case Success(page) => page case Failure(_) => []
  }

  lemma NothingGiven()
    ensures FullPages([]) && AllRecords([]) == [] && CursorAfter([]) == None
  {
  }

  lemma OneMoreAnswer(given: seq<Result<seq<OfferRecord>>>, answer: Result<seq<OfferRecord>>)
    requires FullPages(given)
    ensures var more := given + [answer];
      && more[..|given|] == given && more[|given|] == answer
      && (FullPages(more) <==> FullPage(answer, CursorAfter(given)))
      && (answer.Success? ==> AllRecords(more) == AllRecords(given) + answer.value)
      && (answer.Failure? ==> AllRecords(more) == AllRecords(given))
  {
    hide FullPage, CursorAfter;
    var more := given + [answer];
    assert more[..|given|] == given && |more| - 1 == |given|;
    assert more[..|more| - 1] == given && more[|more| - 1] == answer;
  }

  /** The records end on the cursor, or are none and there is none. */
  predicate EndsOn(records: seq<OfferRecord>, cursor: Option<nat>) {
    if cursor.None? then records == [] else records != [] && records[|records| - 1].token == cursor
  }

  /** The next cursor is there, and strictly below the one before. */
  predicate MovesOn(cursor: Option<nat>, next: Option<nat>) {
    next.Some? && (cursor.Some? ==> next.value < cursor.value)
  }

  /** The part of a listing down to and including a cursor. */
  function ListedUpTo(listing: seq<OfferRecord>, cursor: Option<nat>): seq<OfferRecord> {
    listing[..Min(Passed(listing, cursor), |listing|)]
  }

  lemma NothingListed(listing: seq<OfferRecord>)
    ensures Listed([]) && ListedUpTo(listing, None) == []
  {
  }

  lemma PassedAt(offers: seq<OfferRecord>, i: nat)
    requires Listed(offers) && i < |offers|
    ensures Passed(offers, offers[i].token) == i + 1
  {
    PassedSplits(offers, offers[i].token);
    assert offers[i].token.Some?;
    if i + 1 < |offers| { assert offers[i].token.value > offers[i + 1].token.value; }
  }

  /** What a page of a listing holds: the records between two passed counts, all below the cursor. */
  lemma PageOfListing(listing: seq<OfferRecord>, cursor: Option<nat>, limit: nat)
    requires Listed(listing)
    ensures var page, done := OfferPage(listing, cursor, limit), Passed(listing, cursor);
      && done + |page| <= |listing| && |page| == Min(limit, |listing| - done)
      && (forall k :: 0 <= k < |page| ==> page[k] == listing[done + k] && page[k].token.Some?)
      && (cursor.Some? ==> forall k :: 0 <= k < |page| ==> page[k].token.value < cursor.value)
  {
    PassedSplits(listing, cursor);
    hide Passed;
    var page, done := OfferPage(listing, cursor, limit), Passed(listing, cursor);
    forall k | 0 <= k < |page| ensures page[k] == listing[done + k] {
      assert page == listing[done..][..|page|];
    }
    if cursor.Some? {
      forall k | 0 <= k < |page| ensures page[k].token.value < cursor.value {
        assert !(done + k < done);
      }
    }
  }

  /** A page of a listing continues whatever ended on the cursor, in order and without overlap. */
  lemma PageContinues(listing: seq<OfferRecord>, cursor: Option<nat>, limit: nat, records: seq<OfferRecord>)
    requires Listed(listing) && Listed(records)
    requires EndsOn(records, cursor)
    ensures Listed(records + OfferPage(listing, cursor, limit))
  {
    hide OfferPage, Passed;
    PageOfListing(listing, cursor, limit);
    var page, done := OfferPage(listing, cursor, limit), Passed(listing, cursor);
    var all, n := records + page, |records|;
    forall i, j | 0 <= i < j < |all| ensures all[i].token.Some? && all[j].token.Some? && all[i].token.value > all[j].token.value {
      if n <= i {
        assert all[i] == page[i - n] == listing[done + (i - n)] && all[j] == page[j - n] == listing[done + (j - n)];
      } else if n <= j {
        assert all[i] == records[i] && all[j] == page[j - n];
        assert records[i].token.value >= records[n - 1].token.value == cursor.value;
      } else {
        assert all[i] == records[i] && all[j] == records[j];
      }
    }
    assert |all| == 1 ==> all[0].token.Some?;
  }

  /** A full page ends on a token, strictly below the cursor it was asked for. */
  lemma FullPageMovesOn(listing: seq<OfferRecord>, cursor: Option<nat>, limit: nat)
    requires Listed(listing) && 0 < limit
    ensures var page := OfferPage(listing, cursor, limit);
      && |page| <= limit
      && (|page| == limit ==> MovesOn(cursor, page[limit - 1].token))
  {
    hide OfferPage, Passed, Listed;
    PageOfListing(listing, cursor, limit);
  }

  /** A page appended to everything down to its cursor is everything down to its own last record. */
  lemma PageExtendsPrefix(listing: seq<OfferRecord>, cursor: Option<nat>, limit: nat)
    requires Listed(listing) && 0 < limit
    ensures var page := OfferPage(listing, cursor, limit);
      ListedUpTo(listing, cursor) + page ==
        if |page| == limit && page[limit - 1].token.Some? then ListedUpTo(listing, page[limit - 1].token) else listing
  {
    hide OfferPage, Passed, Listed;
    PageOfListing(listing, cursor, limit);
    var page, done := OfferPage(listing, cursor, limit), Passed(listing, cursor);
    assert page == listing[done..done + |page|];
    if |page| == limit {
      PassedAt(listing, done + limit - 1);
    }
  }

  lemma HonestPage(listing: seq<OfferRecord>, cursor: Option<nat>, limit: nat, records: seq<OfferRecord>)
    requires Listed(listing) && Listed(records) && 0 < limit
    requires EndsOn(records, cursor)
    ensures var page := OfferPage(listing, cursor, limit);
      && Listed(records + page) && |page| <= limit
      && (|page| == limit ==> MovesOn(cursor, page[limit - 1].token))
      && (records == ListedUpTo(listing, cursor) ==>
            records + page == if |page| == limit then ListedUpTo(listing, page[limit - 1].token) else listing)
  {
    hide OfferPage, Passed, Listed, ListedUpTo;
    FullPageMovesOn(listing, cursor, limit);
    PageContinues(listing, cursor, limit, records);
    PageExtendsPrefix(listing, cursor, limit);
  }

  /** One refresh of a catch-up that has made `refreshes` of them since the cache reached up to hi. */
  lemma OneRefresh(caughtUp: bool, lo: nat, top: nat, from: nat, to: nat, head: nat, limit: nat, hi: nat, refreshes: nat)
    requires Refreshed(caughtUp, lo, top, from, to, head, limit) && lo < top && to <= head
    requires top == hi + refreshes * REFRESH_REACH
    ensures from == lo && top <= to
    ensures if caughtUp then to == head && refreshes == (head - hi) / REFRESH_REACH
            else to == hi + (refreshes + 1) * REFRESH_REACH
  {
  }

  /**
   * Refreshing a standing log until it says it has caught up takes one refresh for every
   * thousand missing trades and one more, ends with all of them cached, and shows the newest.
   */
  method CatchUp(service: DexService, address: string, limit: nat, ghost lo: nat, ghost hi: nat)
    returns (refreshes: nat, snapshot: Snapshot)
    requires service.Valid() && service.horizon.steady
    requires IsBlock(service.CacheOf(address), service.LogOf(address), lo, hi) && lo < hi
    modifies service`caughtUp, service.horizon`logs, service.horizon`traffic, service.store`trades
    ensures service.Valid() && service.LogOf(address) == old(service.LogOf(address))
    ensures refreshes == (|service.LogOf(address)| - hi) / REFRESH_REACH + 1
    ensures IsBlock(service.CacheOf(address), service.LogOf(address), lo, |service.LogOf(address)|)
    ensures address in service.caughtUp && service.caughtUp[address] && snapshot.caughtUp
    ensures forall other :: other != address ==> service.CacheOf(other) == old(service.CacheOf(other))
    ensures lo <= |service.LogOf(address)|
      && service.Shows(snapshot.segments, address, lo, |service.LogOf(address)|, limit)
  {
    hide IsBlock, OnlyAt, Extends, Increasing, DexService.Shows, Horizon.Valid, MemoryDataStore.Valid;
    hide Refreshed;
    refreshes, snapshot := 0, Snapshot([], false);
    var done := false;
    ghost var top: nat := hi;
    ghost var log := service.LogOf(address);
    BlockInRange(service.CacheOf(address), log, lo, hi);
    while !done
      invariant service.Valid() && service.horizon.steady && service.LogOf(address) == log
      invariant IsBlock(service.CacheOf(address), log, lo, top) && lo < top <= |log|
      invariant forall other :: other != address ==> service.CacheOf(other) == old(service.CacheOf(other))
      invariant !done ==> top == hi + refreshes * REFRESH_REACH
      invariant done ==> top == |log| && refreshes == (|log| - hi) / REFRESH_REACH + 1
      invariant done ==> address in service.caughtUp && service.caughtUp[address] && snapshot.caughtUp
      invariant done ==> service.Shows(snapshot.segments, address, lo, top, limit)
      decreases !done, |log| - top
    {
      ghost var cache := service.CacheOf(address);
      service.LogIncreasing(address);
      assert IsBlock(cache, service.LogOf(address), lo, top);
      var r := service.GetAccountTradeSegmentSnapshot(address, limit, true);
      snapshot := r.value;
      ghost var l: nat, h: nat, from: nat, to: nat :| IsBlock(cache, log, l, h)
        && IsBlock(service.CacheOf(address), service.LogOf(address), from, to)
        && Refreshed(r.value.caughtUp, l, h, from, to, |service.LogOf(address)|, limit)
        && from <= to <= |service.LogOf(address)|
        && service.Shows(r.value.segments, address, from, to, limit);
      BlockUnique(cache, log, lo, top, l, h);
      BlockInRange(service.CacheOf(address), log, from, to);
      OneRefresh(snapshot.caughtUp, lo, top, from, to, |log|, limit, hi, refreshes);
      done := snapshot.caughtUp;
      refreshes := refreshes + 1;
      top := to;
    }
  }
}
