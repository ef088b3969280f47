/** Account history kept as one contiguous stretch of the Horizon log (history_service.py). */
module History {
  import opened Models
  import opened Arithmetic
  import opened RemoteLogs
  import opened HorizonServer
  import opened DataStores

  /** Where a completed sync leaves the old end of the cache: the whole log, or a window of it. */
  function SyncedFrom(full: bool, limit: nat, lo: nat, hi: nat, top: nat): nat {
    if full then 0 else if lo == hi then Max(top - limit, 0) else Max(lo, top - limit)
  }

  class HistoryService {
    const horizon: Horizon
    const store: MemoryDataStore
    const network: string
    const cacheLimit: nat
    var keepFullHistory: bool

    constructor (horizon: Horizon, store: MemoryDataStore, network: string, cacheLimit: nat, keepFullHistory: bool)
      requires horizon.Valid() && store.Valid() && 0 < cacheLimit
      ensures Valid() && this.horizon == horizon && this.store == store && this.network == network
      ensures this.cacheLimit == cacheLimit && this.keepFullHistory == keepFullHistory
    {
      this.horizon, this.store, this.network := horizon, store, network;
      this.cacheLimit, this.keepFullHistory := cacheLimit, keepFullHistory;
    }

    predicate Valid()
      reads this, horizon, store
    {
      0 < cacheLimit && horizon.Valid() && store.Valid()
    }

    function CacheKey(address: string): Key {
      Key(network, address)
    }

    function CacheOf(address: string): Bucket
      reads this, store
    {
      BucketAt(store.operations, CacheKey(address))
    }

    function LogOf(address: string): Log
      reads this, horizon
    {
      horizon.LogOf(Operations(address))
    }

    /** Every account has a bucket of its own, so a change under one key is a change for one account. */
    lemma OthersKept(before: map<Key, Bucket>, after: map<Key, Bucket>, address: string)
      requires OnlyAt(before, after, CacheKey(address))
      ensures forall other :: other != address ==> BucketAt(after, CacheKey(other)) == BucketAt(before, CacheKey(other))
    {
    }

    lemma LogIncreasing(address: string)
      requires Valid()
      ensures Increasing(LogOf(address))
    {
    }

    /** The cached operations are one contiguous stretch of the account's log. */
    ghost predicate GapFree(address: string)
      reads this, horizon, store
    {
      exists lo, hi :: IsBlock(CacheOf(address), LogOf(address), lo, hi)
    }

    method SetKeepFullHistory(enabled: bool)
      modifies this`keepFullHistory
      ensures keepFullHistory == enabled
    {
      keepFullHistory := enabled;
    }

    /** One call of the adapter: the log may have grown, the cache is where it was. */
    method FetchPage(address: string, limit: nat, cursor: Option<nat>, desc: bool, ghost lo: nat, ghost hi: nat)
      returns (page: Result<Log>)
      requires Valid() && IsBlock(CacheOf(address), LogOf(address), lo, hi)
      modifies horizon`logs, horizon`traffic
      ensures Valid() && Extends(old(horizon.logs), horizon.logs)
      ensures horizon.steady ==> page.Success? && horizon.logs == old(horizon.logs)
      ensures IsBlock(CacheOf(address), LogOf(address), lo, hi) && Increasing(LogOf(address))
      ensures old(LogOf(address)) <= LogOf(address) <= horizon.ArchiveOf(Operations(address))
      ensures page.Success? ==> page.value == Page(LogOf(address), cursor, limit, desc)
      ensures horizon.traffic == old(horizon.traffic).Counting(page)
    {
      hide Page, IsBlock;
      page := horizon.Fetch(Operations(address), limit, cursor, desc);
      ExtendsLog(old(horizon.logs), horizon.logs, Operations(address));
      BlockInLongerLog(CacheOf(address), old(LogOf(address)), LogOf(address), lo, hi);
    }

    /** In windowed mode, trim: the block loses its old end at most. */
    method TrimToWindow(address: string, ghost lo: nat, ghost hi: nat)
      requires Valid() && IsBlock(CacheOf(address), LogOf(address), lo, hi)
      modifies store`operations
      ensures Valid() && OnlyAt(old(store.operations), store.operations, CacheKey(address))
      ensures IsBlock(CacheOf(address), LogOf(address), if keepFullHistory then lo else Max(lo, hi - cacheLimit), hi)
      ensures keepFullHistory ==> store.operations == old(store.operations)
    {
      hide KeepNewest, IsBlock, Increasing, OnlyAt, Horizon.Valid, MemoryDataStore.Valid;
      OnlyAtItself(store.operations, CacheKey(address));
      if !keepFullHistory {
        LogIncreasing(address);
        TrimmedBlock(CacheOf(address), LogOf(address), lo, hi, cacheLimit);
        var _ := store.TrimOperations(CacheKey(address), cacheLimit);
      }
    }

    /** Store a page and, in windowed mode, trim. */
    method StorePage(address: string, records: Log, ghost lo: nat, ghost hi: nat)
      requires Valid() && IsBlock(Saved(CacheOf(address), records), LogOf(address), lo, hi) && Increasing(LogOf(address))
      modifies store`operations
      ensures Valid() && OnlyAt(old(store.operations), store.operations, CacheKey(address))
      ensures IsBlock(CacheOf(address), LogOf(address), if keepFullHistory then lo else Max(lo, hi - cacheLimit), hi)
    {
      hide Saved, IsBlock, Increasing, OnlyAt, Horizon.Valid, MemoryDataStore.Valid;
      store.SaveOperations(CacheKey(address), records);
      ghost var saved := store.operations;
      TrimToWindow(address, lo, hi);
      OnlyAtTransitive(old(store.operations), saved, store.operations, CacheKey(address));
    }

    /** One round of a loop that pages backwards: call the adapter, store the page, trim. */
    method PullOlder(address: string, limit: nat, cursor: Option<nat>, ghost lo: nat, ghost hi: nat)
      returns (page: Result<Log>, ghost from: nat, ghost top: nat)
      requires Valid() && IsBlock(CacheOf(address), LogOf(address), lo, hi)
      requires if cursor.None? then CacheOf(address) == map[] else lo < hi <= |LogOf(address)| && LogOf(address)[lo].token == cursor.value
      modifies horizon`logs, horizon`traffic, store`operations
      ensures Valid() && Extends(old(horizon.logs), horizon.logs)
      ensures OnlyAt(old(store.operations), store.operations, CacheKey(address))
      ensures horizon.steady ==> page.Success? && horizon.logs == old(horizon.logs)
      ensures |old(LogOf(address))| <= |LogOf(address)|
      ensures top == if page.Success? && cursor.None? then |LogOf(address)| else hi
      ensures page.Failure? || page.value == [] ==>
        IsBlock(CacheOf(address), LogOf(address), if page.Success? && cursor.None? then top else lo, top)
        && CacheOf(address) == old(CacheOf(address))
      ensures page.Success? ==> from == Max((if cursor.None? then top else lo) - limit, 0)
      ensures page.Success? ==> |page.value| == (if cursor.None? then top else lo) - from
      ensures page.Success? && page.value != [] ==>
        && from < top <= |LogOf(address)|
        && page.value[|page.value| - 1].token == LogOf(address)[from].token
        && cursor != Some(LogOf(address)[from].token)
        && IsBlock(CacheOf(address), LogOf(address), if keepFullHistory then from else Max(from, top - cacheLimit), top)
      ensures horizon.traffic == old(horizon.traffic).Counting(page)
    {
      hide IsBlock, Saved, KeepNewest, PageBefore, Increasing, OnlyAt, Extends, Horizon.Valid, MemoryDataStore.Valid;
      from, top := lo, hi;
      OnlyAtItself(store.operations, CacheKey(address));
      page := FetchPage(address, limit, cursor, true, lo, hi);
      if page.Success? {
        ghost var log := LogOf(address);
        if cursor.None? {
          top := |log|;
          from := Max(top - limit, 0);
          EmptyBlock(log, top);
          FirstPage(log, limit);
        } else {
          from := Max(lo - limit, 0);
          BackwardPage(CacheOf(address), log, lo, hi, limit);
          BlockInRange(CacheOf(address), log, lo, hi);
        }
        if page.value != [] {
          StorePage(address, page.value, from, top);
        }
      }
    }

    /** One round of the loop that pages forwards. */
    method PullNewer(address: string, limit: nat, cursor: nat, ghost lo: nat, ghost hi: nat)
      returns (page: Result<Log>, ghost from: nat, ghost to: nat)
      requires Valid() && IsBlock(CacheOf(address), LogOf(address), lo, hi)
      requires lo < hi <= |LogOf(address)| && LogOf(address)[hi - 1].token == cursor
      modifies horizon`logs, horizon`traffic, store`operations
      ensures Valid() && Extends(old(horizon.logs), horizon.logs)
      ensures OnlyAt(old(store.operations), store.operations, CacheKey(address))
      ensures horizon.steady ==> page.Success? && horizon.logs == old(horizon.logs)
      ensures |old(LogOf(address))| <= |LogOf(address)| <= |horizon.ArchiveOf(Operations(address))|
      ensures IsBlock(CacheOf(address), LogOf(address), from, to) && from < to <= |LogOf(address)|
      ensures page.Success? ==> to == Min(hi + limit, |LogOf(address)|) && |page.value| == to - hi
      ensures page.Failure? ==> to == hi
      ensures from == if keepFullHistory || to == hi then lo else Max(lo, to - cacheLimit)
      ensures page.Success? && page.value != [] ==>
        page.value[|page.value| - 1].token == LogOf(address)[to - 1].token != cursor
      ensures horizon.traffic == old(horizon.traffic).Counting(page)
    {
      hide IsBlock, Saved, KeepNewest, PageAfter, Increasing, OnlyAt, Extends, Horizon.Valid, MemoryDataStore.Valid;
      from, to := lo, hi;
      OnlyAtItself(store.operations, CacheKey(address));
      page := FetchPage(address, limit, Some(cursor), false, lo, hi);
      if page.Success? {
        ghost var log := LogOf(address);
        ForwardPage(CacheOf(address), log, lo, hi, limit);
        to := Min(hi + limit, |log|);
        if page.value != [] {
          StorePage(address, page.value, lo, to);
          from := if keepFullHistory then lo else Max(lo, to - cacheLimit);
        }
      }
    }

    /** `_bootstrap_from_head`: an empty cache is filled from the newest record backwards. */
    method BootstrapFromHead(address: string, limit: nat) returns (r: Result<nat>, ghost lo: nat, ghost hi: nat)
      requires Valid() && CacheOf(address) == map[]
      modifies horizon`logs, horizon`traffic, store`operations
      ensures Valid()
      ensures Extends(old(horizon.logs), horizon.logs)
      ensures horizon.steady ==> r.Success? && horizon.logs == old(horizon.logs)
      ensures OnlyAt(old(store.operations), store.operations, CacheKey(address))
      ensures IsBlock(CacheOf(address), LogOf(address), lo, hi)
      ensures r.Success? && 0 < limit ==>
        |old(LogOf(address))| <= hi && lo == if keepFullHistory then 0 else Max(hi - cacheLimit, 0)
      ensures r.Success? && !keepFullHistory ==> r.value < cacheLimit + limit
      ensures r.Success? ==> hi - lo == if keepFullHistory then r.value else Min(r.value, cacheLimit)
      ensures r.Success? <==> horizon.traffic.failed == old(horizon.traffic.failed)
      ensures r.Success? ==> r.value == horizon.traffic.served - old(horizon.traffic.served)
    {
      hide IsBlock, Saved, KeepNewest, PageBefore, PageAfter, Increasing, OnlyAt, Extends, Listing, NewestOf, Horizon.Valid, MemoryDataStore.Valid;
      var fetched: nat := 0;
      var cursor: Option<nat> := None;
      ghost var k: nat := |LogOf(address)|;
      lo, hi := k, k;
      EmptyBlock(LogOf(address), k);
      ExtendsItself(horizon.logs);
      OnlyAtItself(store.operations, CacheKey(address));

      while keepFullHistory || fetched < cacheLimit
        invariant Valid() && Extends(old(horizon.logs), horizon.logs)
        invariant OnlyAt(old(store.operations), store.operations, CacheKey(address))
        invariant horizon.steady ==> horizon.logs == old(horizon.logs)
        invariant |old(LogOf(address))| <= |LogOf(address)|
        invariant horizon.traffic == Traffic(old(horizon.traffic.served) + fetched, old(horizon.traffic.failed))
        invariant IsBlock(CacheOf(address), LogOf(address), lo, hi) && hi <= |LogOf(address)|
        invariant lo == if keepFullHistory then k else Max(k, hi - cacheLimit)
        invariant fetched == hi - k && (!keepFullHistory ==> fetched < cacheLimit + limit)
        invariant cursor.None? ==> CacheOf(address) == map[] && lo == hi == k
        invariant cursor.Some? ==> k < hi && |old(LogOf(address))| <= hi && LogOf(address)[k].token == cursor.value
        decreases if cursor.None? then 1 else 0, k
      {
        ghost var logs, operations := horizon.logs, store.operations;
        var page;
        ghost var from, top;
        page, from, top := PullOlder(address, limit, cursor, lo, hi);
        ExtendsTransitive(old(horizon.logs), logs, horizon.logs);
        OnlyAtTransitive(old(store.operations), operations, store.operations, CacheKey(address));
        if page.Failure? {
          return Failure(page.error), lo, hi;
        }
        var records := page.value;
        if cursor.None? {
          k, lo := top, top;
        }
        hi := top;
        if records == [] {
          break;
        }
        fetched := fetched + |records|;
        lo := if keepFullHistory then from else Max(from, top - cacheLimit);
        k := from;
        var nextCursor := records[|records| - 1].token;
        if cursor == Some(nextCursor) || |records| < limit {
          break;
        }
        cursor := Some(nextCursor);
      }
      r := Success(fetched);
    }

    /** `_sync_newer`: from the newest cached record forwards to the head. */
    method SyncNewer(address: string, cursor: nat, limit: nat, ghost lo0: nat, ghost hi0: nat)
      returns (r: Result<nat>, ghost lo: nat, ghost hi: nat)
      requires Valid() && IsBlock(CacheOf(address), LogOf(address), lo0, hi0)
      requires lo0 < hi0 <= |LogOf(address)| && cursor == LogOf(address)[hi0 - 1].token
      modifies horizon`logs, horizon`traffic, store`operations
      ensures Valid()
      ensures Extends(old(horizon.logs), horizon.logs)
      ensures horizon.steady ==> r.Success? && horizon.logs == old(horizon.logs)
      ensures OnlyAt(old(store.operations), store.operations, CacheKey(address))
      ensures IsBlock(CacheOf(address), LogOf(address), lo, hi) && lo < hi
      ensures lo == lo0 || (!keepFullHistory && lo == Max(lo0, hi - cacheLimit))
      ensures r.Success? && 0 < limit ==> hi == |LogOf(address)|
      ensures r.Success? ==> r.value == hi - hi0
      ensures r.Success? <==> horizon.traffic.failed == old(horizon.traffic.failed)
      ensures r.Success? ==> r.value == horizon.traffic.served - old(horizon.traffic.served)
    {
      hide IsBlock, Saved, KeepNewest, PageBefore, PageAfter, Increasing, OnlyAt, Extends, Listing, NewestOf, Horizon.Valid, MemoryDataStore.Valid;
      var fetched: nat := 0;
      var nextCursor := cursor;
      lo, hi := lo0, hi0;
      ExtendsItself(horizon.logs);
      OnlyAtItself(store.operations, CacheKey(address));

      while true
        invariant Valid() && Extends(old(horizon.logs), horizon.logs)
        invariant OnlyAt(old(store.operations), store.operations, CacheKey(address))
        invariant horizon.steady ==> horizon.logs == old(horizon.logs)
        invariant IsBlock(CacheOf(address), LogOf(address), lo, hi)
        invariant lo < hi <= |LogOf(address)| && LogOf(address)[hi - 1].token == nextCursor
        invariant lo == lo0 || (!keepFullHistory && lo == Max(lo0, hi - cacheLimit))
        invariant fetched == hi - hi0
        invariant horizon.traffic == Traffic(old(horizon.traffic.served) + fetched, old(horizon.traffic.failed))
        decreases |horizon.ArchiveOf(Operations(address))| - hi
      {
        ghost var logs, operations := horizon.logs, store.operations;
        var page;
        page, lo, hi := PullNewer(address, limit, nextCursor, lo, hi);
        ExtendsTransitive(old(horizon.logs), logs, horizon.logs);
        OnlyAtTransitive(old(store.operations), operations, store.operations, CacheKey(address));
        if page.Failure? {
          return Failure(page.error), lo, hi;
        }
        var records := page.value;
        if records == [] {
          break;
        }
        fetched := fetched + |records|;
        var cursorAfterPage := records[|records| - 1].token;
        if cursorAfterPage == nextCursor || |records| < limit {
          break;
        }
        nextCursor := cursorAfterPage;
      }
      r := Success(fetched);
    }

    /** `_backfill_older`: in full mode, from the oldest cached record back to the start. */
    method BackfillOlder(address: string, limit: nat, ghost lo0: nat, ghost hi0: nat)
      returns (r: Result<nat>, ghost lo: nat, ghost hi: nat)
      requires Valid() && keepFullHistory
      requires IsBlock(CacheOf(address), LogOf(address), lo0, hi0)
      modifies horizon`logs, horizon`traffic, store`operations
      ensures Valid()
      ensures Extends(old(horizon.logs), horizon.logs)
      ensures horizon.steady ==> r.Success? && horizon.logs == old(horizon.logs)
      ensures OnlyAt(old(store.operations), store.operations, CacheKey(address))
      ensures IsBlock(CacheOf(address), LogOf(address), lo, hi) && (lo0 < hi0 ==> hi == hi0)
      ensures r.Success? && 0 < limit ==> lo == 0 && (lo0 == hi0 ==> |old(LogOf(address))| <= hi)
      ensures r.Success? && lo0 < hi0 ==> r.value == lo0 - lo
      ensures r.Success? <==> horizon.traffic.failed == old(horizon.traffic.failed)
      ensures r.Success? ==> r.value == horizon.traffic.served - old(horizon.traffic.served)
    {
      hide IsBlock, Saved, KeepNewest, PageBefore, Increasing, OnlyAt, Extends, Listing, NewestOf, Horizon.Valid, MemoryDataStore.Valid;
      LogIncreasing(address);
      ListingEnds(CacheOf(address), LogOf(address), lo0, hi0, false, None);
      var cached := store.GetOperations(CacheKey(address), None);
      if cached == [] {
        r, lo, hi := BootstrapFromHead(address, limit);
        return;
      }
      var fetched: nat := 0;
      var cursor := cached[|cached| - 1].token;
      lo, hi := lo0, hi0;
      ExtendsItself(horizon.logs);
      OnlyAtItself(store.operations, CacheKey(address));

      while true
        invariant Valid() && Extends(old(horizon.logs), horizon.logs)
        invariant OnlyAt(old(store.operations), store.operations, CacheKey(address))
        invariant horizon.steady ==> horizon.logs == old(horizon.logs)
        invariant IsBlock(CacheOf(address), LogOf(address), lo, hi)
        invariant lo < hi == hi0 && hi <= |LogOf(address)| && LogOf(address)[lo].token == cursor
        invariant fetched == lo0 - lo
        invariant horizon.traffic == Traffic(old(horizon.traffic.served) + fetched, old(horizon.traffic.failed))
        decreases lo
      {
        ghost var logs, operations := horizon.logs, store.operations;
        var page;
        ghost var from, top;
        page, from, top := PullOlder(address, limit, Some(cursor), lo, hi);
        ExtendsTransitive(old(horizon.logs), logs, horizon.logs);
        OnlyAtTransitive(old(store.operations), operations, store.operations, CacheKey(address));
        if page.Failure? {
          return Failure(page.error), lo, hi;
        }
        var records := page.value;
        if records == [] {
          break;
        }
        fetched := fetched + |records|;
        lo := from;
        var nextCursor := records[|records| - 1].token;
        if nextCursor == cursor || |records| < limit {
          break;
        }
        cursor := nextCursor;
      }
      r := Success(fetched);
    }

    /** The half of `sync_recent` that starts from a cached record: forwards, and in full mode backwards too. */
    method SyncKnown(address: string, cursor: nat, limit: nat, ghost lo0: nat, ghost hi0: nat)
      returns (r: Result<nat>, ghost lo: nat, ghost hi: nat)
      requires Valid() && IsBlock(CacheOf(address), LogOf(address), lo0, hi0)
      requires lo0 < hi0 <= |LogOf(address)| && cursor == LogOf(address)[hi0 - 1].token
      modifies horizon`logs, horizon`traffic, store`operations
      ensures Valid()
      ensures Extends(old(horizon.logs), horizon.logs)
      ensures horizon.steady ==> r.Success? && horizon.logs == old(horizon.logs)
      ensures OnlyAt(old(store.operations), store.operations, CacheKey(address))
      ensures IsBlock(CacheOf(address), LogOf(address), lo, hi)
      ensures r.Success? && 0 < limit ==>
        && |old(LogOf(address))| <= hi && r.value == hi - hi0 + (if keepFullHistory then lo0 else 0)
        && if keepFullHistory then lo == 0 else lo == lo0 || lo == Max(lo0, hi - cacheLimit)
      ensures r.Success? <==> horizon.traffic.failed == old(horizon.traffic.failed)
      ensures r.Success? ==> r.value == horizon.traffic.served - old(horizon.traffic.served)
    {
      hide IsBlock, OnlyAt, Extends, Horizon.Valid, MemoryDataStore.Valid;
      r, lo, hi := SyncNewer(address, cursor, limit, lo0, hi0);
      ExtendsLength(old(horizon.logs), horizon.logs, Operations(address));
      if r.Failure? || !keepFullHistory {
        return;
      }
      ghost var logs, operations := horizon.logs, store.operations;
      var older;
      older, lo, hi := BackfillOlder(address, limit, lo, hi);
      ExtendsTransitive(old(horizon.logs), logs, horizon.logs);
      OnlyAtTransitive(old(store.operations), operations, store.operations, CacheKey(address));
      r := if older.Failure? then older else Success(r.value + older.value);
    }

    /**
     * `sync_recent`. Whatever happens on the way the cache stays gap-free; a completed sync
     * reaches at least the head it started from, back to where its mode says.
     */
    method SyncRecent(address: string, limit: nat) returns (r: Result<nat>)
      requires Valid() && GapFree(address)
      modifies horizon`logs, horizon`traffic, store`operations
      ensures Valid() && GapFree(address)
      ensures Extends(old(horizon.logs), horizon.logs)
      ensures horizon.steady ==> r.Success? && horizon.logs == old(horizon.logs)
      ensures OnlyAt(old(store.operations), store.operations, CacheKey(address))
      ensures forall other :: other != address ==> CacheOf(other) == old(CacheOf(other))
      ensures r.Success? && 0 < limit ==>
        exists lo: nat, hi: nat, top: nat ::
          && old(IsBlock(CacheOf(address), LogOf(address), lo, hi))
          && |old(LogOf(address))| <= top
          && IsBlock(CacheOf(address), LogOf(address), SyncedFrom(keepFullHistory, cacheLimit, lo, hi, top), top)
          && (lo < hi ==> r.value == top - hi + if keepFullHistory then lo else 0)
      ensures r.Success? <==> horizon.traffic.failed == old(horizon.traffic.failed)
      ensures r.Success? ==> r.value == horizon.traffic.served - old(horizon.traffic.served)
    {
      hide IsBlock, KeepNewest, Increasing, OnlyAt, Extends, Listing, NewestOf, Horizon.Valid, MemoryDataStore.Valid;
      ghost var lo0: nat, hi0: nat :| IsBlock(CacheOf(address), LogOf(address), lo0, hi0);
      ghost var lo, hi := lo0, hi0;
      ghost var cache0, log0 := CacheOf(address), LogOf(address);
      LogIncreasing(address);
      ListingEnds(cache0, log0, lo0, hi0, false, Some(1));
      var cached := store.GetOperations(CacheKey(address), Some(1));
      if cached == [] {
        r, lo, hi := BootstrapFromHead(address, limit);
        OthersKept(old(store.operations), store.operations, address);
        if r.Failure? {
          return;
        }
      } else {
        r, lo, hi := SyncKnown(address, cached[0].token, limit, lo0, hi0);
        OthersKept(old(store.operations), store.operations, address);
        if r.Failure? {
          return;
        }
      }
      ghost var operations := store.operations;
      TrimToWindow(address, lo, hi);
      OnlyAtTransitive(old(store.operations), operations, store.operations, CacheKey(address));
      OthersKept(old(store.operations), store.operations, address);
      lo := if keepFullHistory then lo else Max(lo, hi - cacheLimit);
      assert IsBlock(CacheOf(address), LogOf(address), lo, hi);
      assert 0 < limit ==> lo == SyncedFrom(keepFullHistory, cacheLimit, lo0, hi0, hi);
      assert 0 < limit && lo0 < hi0 ==> r.value == hi - hi0 + if keepFullHistory then lo0 else 0;
    }

    /** `load_older`: in full mode one more page backwards. */
    method LoadOlder(address: string, limit: nat) returns (r: Result<nat>)
      requires Valid() && GapFree(address)
      modifies horizon`logs, horizon`traffic, store`operations
      ensures Valid() && GapFree(address)
      ensures Extends(old(horizon.logs), horizon.logs)
      ensures horizon.steady ==> r.Success? && horizon.logs == old(horizon.logs)
      ensures OnlyAt(old(store.operations), store.operations, CacheKey(address))
      ensures forall other :: other != address ==> CacheOf(other) == old(CacheOf(other))
      ensures !keepFullHistory ==>
        r == Success(0) && store.operations == old(store.operations) && horizon.logs == old(horizon.logs)
      ensures keepFullHistory && r.Success? && 0 < limit ==>
        exists lo: nat, hi: nat, from: nat, to: nat ::
          && old(IsBlock(CacheOf(address), LogOf(address), lo, hi))
          && IsBlock(CacheOf(address), LogOf(address), from, to)
          && (if lo < hi then to == hi && from == Max(lo - limit, 0) else from == 0 && |old(LogOf(address))| <= to)
          && r.value == if lo < hi then lo - from else to - from
      ensures r.Success? <==> horizon.traffic.failed == old(horizon.traffic.failed)
      ensures r.Success? ==> r.value == horizon.traffic.served - old(horizon.traffic.served)
    {
      hide IsBlock, KeepNewest, Increasing, OnlyAt, Extends, Listing, NewestOf, Horizon.Valid, MemoryDataStore.Valid;
      ExtendsItself(horizon.logs);
      OnlyAtItself(store.operations, CacheKey(address));
      if !keepFullHistory {
        return Success(0);
      }
      ghost var lo0: nat, hi0: nat :| IsBlock(CacheOf(address), LogOf(address), lo0, hi0);
      LogIncreasing(address);
      ListingEnds(CacheOf(address), LogOf(address), lo0, hi0, false, None);
      var cached := store.GetOperations(CacheKey(address), None);
      ghost var from, to;
      if cached == [] {
        r, from, to := BootstrapFromHead(address, limit);
      } else {
        var page;
        page, from, to := PullOlder(address, limit, Some(cached[|cached| - 1].token), lo0, hi0);
        OthersKept(old(store.operations), store.operations, address);
        if page.Failure? {
          return Failure(page.error);
        }
        r := Success(|page.value|);
      }
      OthersKept(old(store.operations), store.operations, address);
      assert IsBlock(CacheOf(address), LogOf(address), from, to);
    }

    // ---------- whole runs ----------

    /** Nothing but the start of the log, or a full window, separates the cache from being complete. */
    ghost predicate Seeded(address: string)
      reads this, horizon, store
    {
      exists lo: nat, hi: nat ::
        IsBlock(CacheOf(address), LogOf(address), lo, hi) && (lo == hi || lo == 0 || cacheLimit <= hi - lo)
    }

    /** The cache is empty or reaches back to where the window over the present log begins. */
    ghost predicate ReachesWindow(address: string)
      reads this, horizon, store
    {
      exists lo: nat, hi: nat ::
        IsBlock(CacheOf(address), LogOf(address), lo, hi) && (lo == hi || lo <= Max(|LogOf(address)| - cacheLimit, 0))
    }

    /** The cache is the whole log in full mode, its newest `cacheLimit` records otherwise. */
    ghost predicate Complete(address: string)
      reads this, horizon, store
    {
      var n := |LogOf(address)|;
      IsBlock(CacheOf(address), LogOf(address), if keepFullHistory then 0 else Max(n - cacheLimit, 0), n)
    }
  }

  /** What can happen to one account's history. */
  datatype Event = Sync(limit: nat) | Older(limit: nat) | SetFull(enabled: bool) | Arrivals

  /**
   * Any sequence of syncs, older-page loads, mode changes and arrivals, with calls failing
   * and records arriving at any point: the cache never has a gap. Where no call fails and
   * the log stands still during each call, every sync leaves the cache complete.
   */
  method RunHistory(service: HistoryService, address: string, events: seq<Event>)
    requires service.Valid() && service.GapFree(address)
    requires forall i :: 0 <= i < |events| ==> (events[i].Sync? || events[i].Older?) ==> 0 < events[i].limit
    modifies service`keepFullHistory, service.horizon`logs, service.horizon`traffic, service.store`operations
    ensures service.Valid() && service.GapFree(address)
    ensures forall other :: other != address ==> service.CacheOf(other) == old(service.CacheOf(other))
    ensures service.horizon.steady && old(service.Seeded(address)) ==>
      service.Seeded(address) && (events != [] && events[|events| - 1].Sync? ==> service.Complete(address))
  {
    hide *;
    for i := 0 to |events|
      invariant service.Valid() && service.GapFree(address)
      invariant forall other :: other != address ==> service.CacheOf(other) == old(service.CacheOf(other))
      invariant service.horizon.steady && old(service.Seeded(address)) ==> service.Seeded(address)
      invariant service.horizon.steady && old(service.Seeded(address)) && 0 < i && events[i - 1].Sync? ==>
        service.Complete(address)
    {
      match events[i]
      case Sync(limit) => OneSync(service, address, limit);
      case Older(limit) => OneOlder(service, address, limit);
      case SetFull(enabled) => OneToggle(service, address, enabled);
      case Arrivals => OneArrival(service, address);
    }
  }

  /**
   * One sync on a log that stands still: in full mode it always completes the cache, in
   * windowed mode exactly when the cache was empty or already reached back to the window.
   */
  method OneSync(service: HistoryService, address: string, limit: nat)
    requires service.Valid() && service.GapFree(address) && 0 < limit
    modifies service.horizon`logs, service.horizon`traffic, service.store`operations
    ensures service.Valid() && service.GapFree(address)
    ensures forall other :: other != address ==> service.CacheOf(other) == old(service.CacheOf(other))
    ensures service.horizon.steady ==> service.horizon.logs == old(service.horizon.logs)
    ensures service.horizon.steady ==>
      (service.Complete(address) <==> service.keepFullHistory || old(service.ReachesWindow(address)))
    ensures service.horizon.steady && old(service.Seeded(address)) ==>
      service.Seeded(address) && service.Complete(address)
  {
    hide IsBlock, OnlyAt, Extends, Horizon.Valid, MemoryDataStore.Valid;
    ghost var cache, log := service.CacheOf(address), service.LogOf(address);
    ghost var seeded, reaches := service.Seeded(address), service.ReachesWindow(address);
    service.LogIncreasing(address);
    var r := service.SyncRecent(address, limit);
    if service.horizon.steady {
      ghost var lo: nat, hi: nat, top: nat :| IsBlock(cache, log, lo, hi) && |log| <= top
        && IsBlock(service.CacheOf(address), log,
             SyncedFrom(service.keepFullHistory, service.cacheLimit, lo, hi, top), top);
      SyncOutcome(service, address, cache, log, lo, hi, top);
      if seeded { SeededReaches(cache, log, service.cacheLimit); }
    }
  }

  /** The old end of a block that is seeded lies at or before the window. */
  lemma SeededReaches(cache: Bucket, log: Log, limit: nat)
    requires exists lo: nat, hi: nat :: IsBlock(cache, log, lo, hi) && (lo == hi || lo == 0 || limit <= hi - lo)
    ensures exists lo: nat, hi: nat :: IsBlock(cache, log, lo, hi) && (lo == hi || lo <= Max(|log| - limit, 0))
  {
    hide IsBlock;
    var lo: nat, hi: nat :| IsBlock(cache, log, lo, hi) && (lo == hi || lo == 0 || limit <= hi - lo);
    BlockInRange(cache, log, lo, hi);
  }

  lemma SyncOutcome(service: HistoryService, address: string, cache: Bucket, log: Log, lo: nat, hi: nat, top: nat)
    requires Increasing(log) && service.LogOf(address) == log && 0 < service.cacheLimit
    requires IsBlock(cache, log, lo, hi) && |log| <= top
    requires IsBlock(service.CacheOf(address), log,
               SyncedFrom(service.keepFullHistory, service.cacheLimit, lo, hi, top), top)
    ensures service.Complete(address) <==> (service.keepFullHistory
      || exists l: nat, h: nat :: IsBlock(cache, log, l, h) && (l == h || l <= Max(|log| - service.cacheLimit, 0)))
    ensures service.Complete(address) ==> service.Seeded(address)
  {
    hide IsBlock, Increasing;
    var limit, full := service.cacheLimit, service.keepFullHistory;
    var from := SyncedFrom(full, limit, lo, hi, top);
    BlockInRange(cache, log, lo, hi);
    BlockInRange(service.CacheOf(address), log, from, top);
    if service.Complete(address) {
      BlockUnique(service.CacheOf(address), log, from, top, if full then 0 else Max(top - limit, 0), top);
    }
    if l: nat, h: nat :| IsBlock(cache, log, l, h) && (l == h || l <= Max(|log| - limit, 0)) {
      BlockUnique(cache, log, lo, hi, l, h);
    }
  }

  method OneOlder(service: HistoryService, address: string, limit: nat)
    requires service.Valid() && service.GapFree(address) && 0 < limit
    modifies service.horizon`logs, service.horizon`traffic, service.store`operations
    ensures service.Valid() && service.GapFree(address)
    ensures forall other :: other != address ==> service.CacheOf(other) == old(service.CacheOf(other))
    ensures service.horizon.steady && old(service.Seeded(address)) ==> service.Seeded(address)
  {
    hide IsBlock, OnlyAt, Extends, Horizon.Valid, MemoryDataStore.Valid;
    ghost var cache, log := service.CacheOf(address), service.LogOf(address);
    ghost var seeded := service.Seeded(address);
    service.LogIncreasing(address);
    var r := service.LoadOlder(address, limit);
    if service.horizon.steady && seeded && service.keepFullHistory {
      ghost var lo: nat, hi: nat, from: nat, to: nat :| IsBlock(cache, log, lo, hi)
        && IsBlock(service.CacheOf(address), service.LogOf(address), from, to)
        && if lo < hi then to == hi && from == Max(lo - limit, 0) else from == 0 && |log| <= to;
      ghost var lo1: nat, hi1: nat :| IsBlock(cache, log, lo1, hi1) && (lo1 == hi1 || lo1 == 0 || service.cacheLimit <= hi1 - lo1);
      BlockUnique(cache, log, lo, hi, lo1, hi1);
      BlockInRange(cache, log, lo, hi);
    }
  }

  method OneToggle(service: HistoryService, address: string, enabled: bool)
    requires service.Valid() && service.GapFree(address)
    modifies service`keepFullHistory
    ensures service.Valid() && service.GapFree(address)
    ensures forall other :: other != address ==> service.CacheOf(other) == old(service.CacheOf(other))
    ensures old(service.Seeded(address)) ==> service.Seeded(address)
  {
    ghost var cache, log := service.CacheOf(address), service.LogOf(address);
    ghost var seeded := service.Seeded(address);
    ghost var lo: nat, hi: nat :| IsBlock(cache, log, lo, hi)
      && (seeded ==> (lo == hi || lo == 0 || service.cacheLimit <= hi - lo));
    service.SetKeepFullHistory(enabled);
    assert IsBlock(service.CacheOf(address), service.LogOf(address), lo, hi);
  }

  method OneArrival(service: HistoryService, address: string)
    requires service.Valid() && service.GapFree(address)
    modifies service.horizon`logs
    ensures service.Valid() && service.GapFree(address)
    ensures forall other :: other != address ==> service.CacheOf(other) == old(service.CacheOf(other))
    ensures old(service.Seeded(address)) ==> service.Seeded(address)
  {
    hide IsBlock, Extends;
    ghost var cache, log := service.CacheOf(address), service.LogOf(address);
    ghost var seeded := service.Seeded(address);
    ghost var lo: nat, hi: nat :| IsBlock(cache, log, lo, hi)
      && (seeded ==> (lo == hi || lo == 0 || service.cacheLimit <= hi - lo));
    ghost var logs := service.horizon.logs;
    service.horizon.Tick();
    ExtendsLog(logs, service.horizon.logs, Operations(address));
    BlockInLongerLog(cache, log, service.LogOf(address), lo, hi);
    assert IsBlock(service.CacheOf(address), service.LogOf(address), lo, hi);
  }

  const OLDER: Record := Record(1, 0, "older")
  const NEWER: Record := Record(2, 0, "newer")

  /** What an interrupted first load leaves: two records in the log, a window of two, and only the newer one cached. */
  method InterruptedLoad() returns (service: HistoryService)
    ensures service.Valid() && service.horizon.steady && !service.keepFullHistory && service.cacheLimit == 2
    ensures service.LogOf("A") == [OLDER, NEWER] && service.CacheOf("A") == map[2 := NEWER]
    ensures fresh(service) && fresh(service.horizon) && fresh(service.store)
  {
    var log := [OLDER, NEWER];
    var horizon := new Horizon(map[Operations("A") := log], true);
    horizon.logs := map[Operations("A") := log];
    var store := new MemoryDataStore();
    store.operations := map[Key("net", "A") := map[2 := NEWER]];
    service := new HistoryService(horizon, store, "net", 2, false);
  }

  /** From there no sync brings in the older record: the cache is gap-free and stays short of its window. */
  method InterruptedLoadStaysShort(limit: nat) returns (service: HistoryService)
    requires 0 < limit
    ensures service.Valid() && service.GapFree("A") && service.horizon.steady && service.LogOf("A") == [OLDER, NEWER]
    ensures !service.Complete("A")
  {
    hide IsBlock, Increasing, HistoryService.Complete, HistoryService.Seeded, HistoryService.ReachesWindow;
    service := InterruptedLoad();
    NewerHalf();
    ShortOfWindow(service, "A", [OLDER, NEWER]);
    OneSync(service, "A", limit);
  }

  lemma NewerHalf()
    ensures Increasing([OLDER, NEWER]) && IsBlock(map[2 := NEWER], [OLDER, NEWER], 1, 2)
  {
    assert At([OLDER, NEWER], 1, 2, [OLDER, NEWER][1], 2);
  }

  lemma ShortOfWindow(service: HistoryService, address: string, log: Log)
    requires Increasing(log) && |log| == 2 == service.cacheLimit && service.LogOf(address) == log
    requires IsBlock(service.CacheOf(address), log, 1, 2)
    ensures service.GapFree(address) && !service.ReachesWindow(address)
  {
    hide IsBlock;
    forall lo: nat, hi: nat | IsBlock(service.CacheOf(address), log, lo, hi) ensures lo == 1 && hi == 2 {
      BlockUnique(service.CacheOf(address), log, 1, 2, lo, hi);
    }
  }
}
