/** The in-memory cache of chain-derived records (datastore.py). */
module DataStores {
  import opened Models
  import opened RemoteLogs
  import opened Trimming
  import opened HorizonServer

  /** Every cache key includes the network. */
  datatype Key = Key(network: string, name: string)

  function BucketAt(buckets: map<Key, Bucket>, key: Key): Bucket {
    if key in buckets then buckets[key] else map[]
  }

  predicate AllKeyed(buckets: map<Key, Bucket>) {
    forall k :: k in buckets ==> Keyed(buckets[k])
  }

  /** Two states of a table that may differ under one key only. */
  ghost predicate OnlyAt(before: map<Key, Bucket>, after: map<Key, Bucket>, key: Key) {
    forall k :: (k in before || k in after) && k != key ==> BucketAt(after, k) == BucketAt(before, k)
  }

  lemma OnlyAtItself(a: map<Key, Bucket>, key: Key)
    ensures OnlyAt(a, a, key)
  {
  }

  lemma OnlyAtTransitive(a: map<Key, Bucket>, b: map<Key, Bucket>, c: map<Key, Bucket>, key: Key)
    requires OnlyAt(a, b, key) && OnlyAt(b, c, key)
    ensures OnlyAt(a, c, key)
  {
  }

  class MemoryDataStore {
    var operations: map<Key, Bucket>
    var trades: map<Key, Bucket>
    var offers: map<Key, seq<OfferRecord>>

    constructor ()
      ensures Valid() && operations == map[] && trades == map[] && offers == map[]
    {
      operations, trades, offers := map[], map[], map[];
    }

    predicate Valid()
      reads this
    {
      AllKeyed(operations) && AllKeyed(trades)
    }

    method SaveOperations(key: Key, page: Log)
      requires Valid()
      modifies this`operations
      ensures Valid() && OnlyAt(old(operations), operations, key)
      ensures BucketAt(operations, key) == Saved(old(BucketAt(operations, key)), page)
    {
      SavedHolds(BucketAt(operations, key), page);
      var bucket := SaveInto(BucketAt(operations, key), page);
      operations := operations[key := bucket];
    }

    method SaveTrades(key: Key, page: Log)
      requires Valid()
      modifies this`trades
      ensures Valid() && OnlyAt(old(trades), trades, key)
      ensures BucketAt(trades, key) == Saved(old(BucketAt(trades, key)), page)
    {
      SavedHolds(BucketAt(trades, key), page);
      var bucket := SaveInto(BucketAt(trades, key), page);
      trades := trades[key := bucket];
    }

    method GetOperations(key: Key, limit: Option<nat>) returns (items: Log)
      requires Valid()
      ensures items == Listing(BucketAt(operations, key), false, limit)
      ensures NewestOf(items, BucketAt(operations, key), false, CountUpTo(BucketAt(operations, key), limit))
      ensures forall i, j :: 0 <= i < j < |items| ==> items[i].token > items[j].token
    {
      ListingIsNewest(BucketAt(operations, key), false, limit);
      items := Listing(BucketAt(operations, key), false, limit);
    }

    method GetTrades(key: Key, limit: nat) returns (items: Log)
      requires Valid()
      ensures items == Listing(BucketAt(trades, key), true, Some(limit))
      ensures NewestOf(items, BucketAt(trades, key), true, CountUpTo(BucketAt(trades, key), Some(limit)))
      ensures forall i, j :: 0 <= i < j < |items| ==>
        items[i].time > items[j].time || (items[i].time == items[j].time && items[i].token > items[j].token)
    {
      ListingIsNewest(BucketAt(trades, key), true, Some(limit));
      items := Listing(BucketAt(trades, key), true, Some(limit));
    }

    method TrimOperations(key: Key, limit: nat) returns (removed: nat)
      requires Valid()
      modifies this`operations
      ensures Valid() && OnlyAt(old(operations), operations, key)
      ensures BucketAt(operations, key) == KeepNewest(old(BucketAt(operations, key)), limit)
      ensures removed == |old(BucketAt(operations, key))| - |BucketAt(operations, key)|
    {
      var bucket := BucketAt(operations, key);
      if |bucket| <= limit {
        return 0;
      }
      KeepNewestKeyed(bucket, limit);
      SubsetSize(KeepNewest(bucket, limit).Keys, bucket.Keys);
      var kept := KeepNewest(bucket, limit);
      removed := |bucket| - |kept|;
      operations := operations[key := kept];
    }

    method SaveOffers(key: Key, records: seq<OfferRecord>)
      requires Valid()
      modifies this`offers
      ensures Valid()
      ensures offers == old(offers)[key := records]
    {
      offers := offers[key := records];
    }
  }

  /** The loop both save methods share: each record under its paging token. */
  method SaveInto(bucket: Bucket, page: Log) returns (saved: Bucket)
    ensures saved == Saved(bucket, page)
  {
    saved := bucket;
    for i := 0 to |page|
      invariant saved == Saved(bucket, page[..i])
    {
      assert page[..i + 1][..i] == page[..i];
      saved := saved[page[i].token := page[i]];
    }
    assert page[..|page|] == page;
  }
}
