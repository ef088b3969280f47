/**
 * Horizon's append-only record logs, the pages it serves, and the token-keyed buckets
 * the local cache keeps of them (history_service.py, datastore.py).
 */
module RemoteLogs {
  import opened Models
  import opened Arithmetic

  /** A Horizon record: its paging token as a number, its close time, and the rest of it. */
  datatype Record = Record(token: nat, time: nat, body: string)

  type Log = seq<Record>

  /** A cache bucket: records by paging token. */
  type Bucket = map<nat, Record>

  predicate Increasing(log: Log) {
    && (forall i :: 0 <= i < |log| ==> 0 < log[i].token)
    && (forall i, j :: 0 <= i < j < |log| ==> log[i].token < log[j].token && log[i].time <= log[j].time)
  }

  /** How many records of an increasing log have a token up to `t`. */
  function Upto(log: Log, t: int): nat {
    if log == [] then 0
    else if log[|log| - 1].token <= t then |log|
    else Upto(log[..|log| - 1], t)
  }

  lemma {:induction false} UptoSplits(log: Log, t: int)
    requires Increasing(log)
    ensures Upto(log, t) <= |log|
    ensures forall i :: 0 <= i < |log| ==> (i < Upto(log, t) <==> log[i].token <= t)
  {
    if log != [] && log[|log| - 1].token > t { UptoSplits(log[..|log| - 1], t); }
  }

  lemma UptoAt(log: Log, i: nat)
    requires Increasing(log) && i < |log|
    ensures Upto(log, log[i].token) == i + 1 && Upto(log, log[i].token - 1) == i
  {
    UptoSplits(log, log[i].token);
    UptoSplits(log, log[i].token - 1);
    if i + 1 < |log| { assert log[i].token < log[i + 1].token; }
    if 0 < i { assert log[i - 1].token < log[i].token; }
  }

  function Reverse(s: Log): Log {
    seq(|s|, i requires 0 <= i < |s| => s[|s| - 1 - i])
  }

  /** An ascending page: the oldest `limit` records after the cursor. */
  function PageAfter(log: Log, cursor: nat, limit: nat): Log {
    var from := Min(Upto(log, cursor), |log|);
    log[from..Min(from + limit, |log|)]
  }

  /** A descending page: the newest `limit` records before the cursor, or of all. */
  function PageBefore(log: Log, cursor: Option<nat>, limit: nat): Log {
    var to := Min(if cursor.Some? then Upto(log, cursor.value - 1) else |log|, |log|);
    Reverse(log[Max(to - limit, 0)..to])
  }

  function Page(log: Log, cursor: Option<nat>, limit: nat, desc: bool): Log {
    if desc then PageBefore(log, cursor, limit)
    else PageAfter(log, if cursor.Some? then cursor.value else 0, limit)
  }

  // ---------- buckets ----------

  predicate Keyed(bucket: Bucket) {
    forall t :: t in bucket ==> bucket[t].token == t
  }

  /** `save_operations` and `save_trades`: every record of the page under its token. */
  function Saved(bucket: Bucket, page: Log): Bucket {
    if page == [] then bucket
    else Saved(bucket, page[..|page| - 1])[page[|page| - 1].token := page[|page| - 1]]
  }

  lemma {:induction false} SavedHolds(bucket: Bucket, page: Log)
    requires Keyed(bucket)
    ensures Keyed(Saved(bucket, page))
    ensures forall t :: t in Saved(bucket, page) <==> t in bucket || exists i :: 0 <= i < |page| && page[i].token == t
    ensures forall t :: t in Saved(bucket, page) ==>
      Saved(bucket, page)[t] in page || (t in bucket && Saved(bucket, page)[t] == bucket[t])
  {
    if page != [] {
      var n := |page| - 1;
      SavedHolds(bucket, page[..n]);
      forall t | t in Saved(bucket, page)
        ensures t in bucket || exists i :: 0 <= i < |page| && page[i].token == t
      {
        if t in Saved(bucket, page[..n]) {
          if t !in bucket {
            var i :| 0 <= i < n && page[..n][i].token == t;
            assert page[i].token == t;
          }
        } else {
          assert page[n].token == t;
        }
      }
      forall t | t in bucket || exists i :: 0 <= i < |page| && page[i].token == t
        ensures t in Saved(bucket, page)
      {
        if t !in bucket {
          var i :| 0 <= i < |page| && page[i].token == t;
          if i < n { assert page[..n][i].token == t; }
        }
      }
    }
  }

  predicate NoneWith(page: Log, from: nat, t: nat) {
    forall j :: from <= j < |page| ==> page[j].token != t
  }

  /** The last record of a page under a token is the one kept, whatever was there before. */
  lemma {:induction false} SavedReplaces(bucket: Bucket, page: Log, i: nat)
    requires i < |page| && NoneWith(page, i + 1, page[i].token)
    ensures page[i].token in Saved(bucket, page) && Saved(bucket, page)[page[i].token] == page[i]
  {
    var n := |page| - 1;
    if i < n {
      assert page[n].token != page[i].token;
      SavedReplaces(bucket, page[..n], i);
    }
  }

  /** Under a token no record of the page has, nothing changes. */
  lemma {:induction false} SavedLeaves(bucket: Bucket, page: Log, t: nat)
    requires NoneWith(page, 0, t)
    ensures t in Saved(bucket, page) <==> t in bucket
    ensures t in bucket ==> Saved(bucket, page)[t] == bucket[t]
  {
    if page != [] {
      var n := |page| - 1;
      assert page[n].token != t;
      SavedLeaves(bucket, page[..n], t);
    }
  }

  /** The bucket holds exactly the records lo up to hi of the log. */
  ghost predicate IsBlock(bucket: Bucket, log: Log, lo: nat, hi: nat) {
    && lo <= hi <= |log|
    && (forall i :: lo <= i < hi ==> log[i].token in bucket)
    && (forall t :: t in bucket ==> At(log, lo, hi, bucket[t], t))
  }

  /** The record stands in the log between lo and hi under token t. */
  ghost predicate At(log: Log, lo: nat, hi: nat, r: Record, t: nat)
    requires hi <= |log|
  {
    exists i :: lo <= i < hi && log[i] == r && r.token == t
  }

  lemma EmptyBlock(log: Log, at: nat)
    requires at <= |log|
    ensures IsBlock(map[], log, at, at)
  {
  }

  lemma BlockKeyed(bucket: Bucket, log: Log, lo: nat, hi: nat)
    requires IsBlock(bucket, log, lo, hi)
    ensures Keyed(bucket)
  {
    forall t | t in bucket ensures bucket[t].token == t {
      assert At(log, lo, hi, bucket[t], t);
    }
  }

  /** A cached record of an increasing log is found under its own token. */
  lemma BlockLookup(bucket: Bucket, log: Log, lo: nat, hi: nat, i: nat)
    requires Increasing(log) && IsBlock(bucket, log, lo, hi) && lo <= i < hi
    ensures log[i].token in bucket && bucket[log[i].token] == log[i]
  {
    var t := log[i].token;
    assert At(log, lo, hi, bucket[t], t);
    var j :| lo <= j < hi && log[j] == bucket[t] && bucket[t].token == t;
    UptoAt(log, i);
    UptoAt(log, j);
  }

  /** The log only ever grows, and growing leaves every block a block. */
  lemma BlockInLongerLog(bucket: Bucket, log: Log, log': Log, lo: nat, hi: nat)
    requires IsBlock(bucket, log, lo, hi) && log <= log'
    ensures IsBlock(bucket, log', lo, hi)
  {
    forall t | t in bucket ensures At(log', lo, hi, bucket[t], t) {
      assert At(log, lo, hi, bucket[t], t);
      var i :| lo <= i < hi && log[i] == bucket[t] && bucket[t].token == t;
      assert log'[i] == bucket[t];
    }
  }

  lemma ReverseHolds(s: Log)
    ensures forall r :: r in Reverse(s) <==> r in s
  {
    forall r | r in s ensures r in Reverse(s) {
      var i :| 0 <= i < |s| && s[i] == r;
      assert Reverse(s)[|s| - 1 - i] == r;
    }
  }

  /** Saving a stretch of the log that touches a block, in either order, extends the block. */
  lemma SavedExtends(bucket: Bucket, log: Log, lo: nat, hi: nat, page: Log, a: nat, z: nat)
    requires IsBlock(bucket, log, lo, hi) && a <= z <= |log|
    requires page == log[a..z] || page == Reverse(log[a..z])
    requires a == hi || z == lo || lo == hi
    ensures IsBlock(Saved(bucket, page), log, if lo == hi || z == lo then a else lo, if lo == hi || a == hi then z else hi)
  {
    BlockKeyed(bucket, log, lo, hi);
    SavedHolds(bucket, page);
    ReverseHolds(log[a..z]);
    StretchSaved(bucket, log, lo, hi, page, a, z,
      if lo == hi || z == lo then a else lo, if lo == hi || a == hi then z else hi);
  }

  predicate Within(i: int, lo: int, hi: int) {
    lo <= i < hi
  }

  lemma StretchSaved(bucket: Bucket, log: Log, lo: nat, hi: nat, page: Log, a: nat, z: nat, l: nat, h: nat)
    requires IsBlock(bucket, log, lo, hi) && Keyed(bucket) && a <= z <= |log| && l <= h <= |log|
    requires forall r :: r in page <==> r in log[a..z]
    requires Keyed(Saved(bucket, page))
    requires forall t :: t in Saved(bucket, page) <==> t in bucket || exists i :: 0 <= i < |page| && page[i].token == t
    requires forall t :: t in Saved(bucket, page) ==>
      Saved(bucket, page)[t] in page || (t in bucket && Saved(bucket, page)[t] == bucket[t])
    requires forall i :: Within(i, l, h) <==> Within(i, lo, hi) || Within(i, a, z)
    ensures IsBlock(Saved(bucket, page), log, l, h)
  {
    hide Saved;
    var saved := Saved(bucket, page);
    forall i | l <= i < h ensures log[i].token in saved {
      assert Within(i, l, h);
      if Within(i, a, z) {
        assert log[a..z][i - a] in log[a..z];
        assert log[i] in page;
        var k :| 0 <= k < |page| && page[k] == log[i];
      }
    }
    forall t | t in saved ensures At(log, l, h, saved[t], t) {
      if saved[t] in page {
        var k :| 0 <= k < z - a && log[a..z][k] == saved[t];
        assert log[a + k] == saved[t] && Within(a + k, a, z);
        assert Within(a + k, l, h);
      } else {
        assert At(log, lo, hi, bucket[t], t);
        var i :| lo <= i < hi && log[i] == bucket[t] && bucket[t].token == t;
        assert log[i] == saved[t] && Within(i, lo, hi);
        assert Within(i, l, h);
      }
    }
  }

  // ---------- pages of an increasing log are stretches of it ----------

  lemma PageAfterStretch(log: Log, i: nat, limit: nat)
    requires Increasing(log) && i < |log|
    ensures PageAfter(log, log[i].token, limit) == log[i + 1..Min(i + 1 + limit, |log|)]
  {
    UptoAt(log, i);
  }

  lemma PageBeforeStretch(log: Log, i: nat, limit: nat)
    requires Increasing(log) && i < |log|
    ensures PageBefore(log, Some(log[i].token), limit) == Reverse(log[Max(i - limit, 0)..i])
  {
    UptoAt(log, i);
  }

  // ---------- reading a bucket newest first ----------

  /** The order the datastore sorts by: paging tokens, for trades close times first. */
  predicate Later(a: Record, b: Record, byTime: bool) {
    if byTime && a.time != b.time then a.time > b.time else a.token > b.token
  }

  predicate IsNewest(bucket: Bucket, t: nat, byTime: bool) {
    t in bucket && forall u :: u in bucket && u != t ==> Later(bucket[t], bucket[u], byTime)
  }

  lemma {:induction false} NewestExists(bucket: Bucket, byTime: bool)
    requires Keyed(bucket) && bucket != map[]
    ensures exists t :: IsNewest(bucket, t, byTime)
    decreases |bucket|
  {
    var t :| t in bucket;
    var rest := bucket - {t};
    if rest == map[] {
      assert forall u :: u in bucket && u != t ==> u in rest;
      assert IsNewest(bucket, t, byTime);
    } else {
      NewestExists(rest, byTime);
      var u :| IsNewest(rest, u, byTime);
      var best := if Later(bucket[t], bucket[u], byTime) then t else u;
      forall v | v in bucket && v != best ensures Later(bucket[best], bucket[v], byTime) {
        if v != t { assert v in rest; }
      }
      assert IsNewest(bucket, best, byTime);
    }
  }

  /** The records of a bucket, newest first. */
  function NewestFirst(bucket: Bucket, byTime: bool): Log
    requires Keyed(bucket)
    decreases |bucket|
  {
    if bucket == map[] then
      []
    else
      NewestExists(bucket, byTime);
      var t :| IsNewest(bucket, t, byTime);
      [bucket[t]] + NewestFirst(bucket - {t}, byTime)
  }

  /** The first `limit` records in that order, or all of them. */
  function Listing(bucket: Bucket, byTime: bool, limit: Option<nat>): Log
    requires Keyed(bucket)
  {
    var items := NewestFirst(bucket, byTime);
    if limit.None? || |items| <= limit.value then items else items[..limit.value]
  }

  lemma NewestFirstHead(bucket: Bucket, byTime: bool) returns (t: nat)
    requires Keyed(bucket) && bucket != map[]
    ensures IsNewest(bucket, t, byTime)
    ensures Keyed(bucket - {t}) && |bucket - {t}| == |bucket| - 1
    ensures NewestFirst(bucket, byTime) == [bucket[t]] + NewestFirst(bucket - {t}, byTime)
  {
    NewestExists(bucket, byTime);
    t :| IsNewest(bucket, t, byTime) && NewestFirst(bucket, byTime) == [bucket[t]] + NewestFirst(bucket - {t}, byTime);
    assert (bucket - {t}).Keys == bucket.Keys - {t};
  }

  /** Reading loses and invents nothing, and puts the later record first. */
  lemma {:induction false} NewestFirstSorts(bucket: Bucket, byTime: bool)
    requires Keyed(bucket)
    ensures var s := NewestFirst(bucket, byTime);
      && |s| == |bucket|
      && (forall r :: r in s <==> r.token in bucket && bucket[r.token] == r)
      && (forall i, j :: 0 <= i < j < |s| ==> Later(s[i], s[j], byTime))
    decreases |bucket|
  {
    if bucket == map[] {
      assert NewestFirst(bucket, byTime) == [];
    } else {
      hide NewestFirst;
      var t := NewestFirstHead(bucket, byTime);
      NewestFirstSorts(bucket - {t}, byTime);
      var rest := NewestFirst(bucket - {t}, byTime);
      var s := [bucket[t]] + rest;
      hide Later, Keyed;
      forall i, j | 0 <= i < j < |s| ensures Later(s[i], s[j], byTime) {
        if i == 0 { assert rest[j - 1] in rest; } else { assert Later(rest[i - 1], rest[j - 1], byTime); }
      }
      forall r ensures r in s <==> r.token in bucket && bucket[r.token] == r {
        assert r in s <==> r == bucket[t] || r in rest;
      }
    }
  }

  /** The newest `count` records of a bucket, in order: nothing left out is later than anything listed. */
  ghost predicate NewestOf(items: Log, bucket: Bucket, byTime: bool, count: nat) {
    && |items| == count
    && (forall r :: r in items ==> r.token in bucket && bucket[r.token] == r)
    && (forall i, j :: 0 <= i < j < |items| ==> Later(items[i], items[j], byTime))
    && (forall r, t :: r in items && t in bucket && bucket[t] !in items ==> Later(r, bucket[t], byTime))
  }

  function CountUpTo(bucket: Bucket, limit: Option<nat>): nat {
    if limit.None? then |bucket| else Min(|bucket|, limit.value)
  }

  /** What a caller of a listing gets. */
  lemma ListingIsNewest(bucket: Bucket, byTime: bool, limit: Option<nat>)
    requires Keyed(bucket)
    ensures NewestOf(Listing(bucket, byTime, limit), bucket, byTime, CountUpTo(bucket, limit))
  {
    hide NewestFirst, Later;
    NewestFirstSorts(bucket, byTime);
    PrefixIsNewest(NewestFirst(bucket, byTime), bucket, byTime, CountUpTo(bucket, limit));
  }

  lemma PrefixIsNewest(all: Log, bucket: Bucket, byTime: bool, count: nat)
    requires count <= |all|
    requires forall r :: r in all <==> r.token in bucket && bucket[r.token] == r
    requires forall t :: t in bucket ==> bucket[t] in all
    requires forall i, j :: 0 <= i < j < |all| ==> Later(all[i], all[j], byTime)
    ensures NewestOf(all[..count], bucket, byTime, count)
  {
    hide Later;
    var items := all[..count];
    forall r, t | r in items && t in bucket && bucket[t] !in items ensures Later(r, bucket[t], byTime) {
      var i :| 0 <= i < count && items[i] == r;
      var j :| 0 <= j < |all| && all[j] == bucket[t];
      assert forall k :: 0 <= k < count ==> items[k] == all[k] && items[k] in items;
      assert count <= j && all[i] == r;
    }
  }

  lemma LastIsLatest(log: Log, hi: nat, byTime: bool)
    requires Increasing(log) && 0 < hi <= |log|
    ensures forall j :: 0 <= j < hi - 1 ==> !Later(log[j], log[hi - 1], byTime) && log[j].token != log[hi - 1].token
  {
  }

  lemma NewestBeats(bucket: Bucket, t: nat, u: nat, byTime: bool)
    requires IsNewest(bucket, t, byTime) && u in bucket
    ensures u == t || Later(bucket[t], bucket[u], byTime)
  {
  }

  lemma NoneLaterThanLast(bucket: Bucket, log: Log, lo: nat, hi: nat, byTime: bool, t: nat)
    requires Increasing(log) && IsBlock(bucket, log, lo, hi) && lo < hi && t in bucket
    ensures !Later(bucket[t], log[hi - 1], byTime)
  {
    assert At(log, lo, hi, bucket[t], t);
    var j :| lo <= j < hi && log[j] == bucket[t] && bucket[t].token == t;
    LastIsLatest(log, hi, byTime);
  }

  /** The newest record of a block is the last of the stretch. */
  lemma NewestIsLast(bucket: Bucket, log: Log, lo: nat, hi: nat, byTime: bool, t: nat)
    requires Increasing(log) && IsBlock(bucket, log, lo, hi) && lo < hi
    requires IsNewest(bucket, t, byTime)
    ensures t == log[hi - 1].token && bucket[t] == log[hi - 1]
  {
    hide Increasing, IsBlock, Later;
    BlockInRange(bucket, log, lo, hi);
    BlockLookup(bucket, log, lo, hi, hi - 1);
    NoneLaterThanLast(bucket, log, lo, hi, byTime, t);
    NewestBeats(bucket, t, log[hi - 1].token, byTime);
  }

  lemma BlockWithoutLast(bucket: Bucket, log: Log, lo: nat, hi: nat)
    requires Increasing(log) && IsBlock(bucket, log, lo, hi) && lo < hi
    ensures IsBlock(bucket - {log[hi - 1].token}, log, lo, hi - 1)
  {
    var last := log[hi - 1].token;
    LastIsLatest(log, hi, false);
    hide Increasing;
    forall u | u in bucket && u != last ensures At(log, lo, hi - 1, bucket[u], u) {
      assert At(log, lo, hi, bucket[u], u);
    }
  }

  lemma ReverseStep(log: Log, lo: nat, hi: nat)
    requires lo < hi <= |log|
    ensures Reverse(log[lo..hi]) == [log[hi - 1]] + Reverse(log[lo..hi - 1])
  {
  }

  /** A block reads as its stretch of the log backwards, whichever order the datastore sorts by. */
  lemma {:induction false} BlockNewestFirst(bucket: Bucket, log: Log, lo: nat, hi: nat, byTime: bool)
    requires Increasing(log) && IsBlock(bucket, log, lo, hi)
    ensures Keyed(bucket) && NewestFirst(bucket, byTime) == Reverse(log[lo..hi])
    decreases hi - lo
  {
    BlockKeyed(bucket, log, lo, hi);
    if lo == hi {
      BlockIsEmpty(bucket, log, lo);
    } else {
      BlockLookup(bucket, log, lo, hi, hi - 1);
      hide NewestFirst, IsBlock, Increasing, Reverse, IsNewest, Keyed;
      var t := NewestFirstHead(bucket, byTime);
      NewestIsLast(bucket, log, lo, hi, byTime, t);
      BlockWithoutLast(bucket, log, lo, hi);
      BlockNewestFirst(bucket - {t}, log, lo, hi - 1, byTime);
      ReverseStep(log, lo, hi);
    }
  }

  lemma BlockIsEmpty(bucket: Bucket, log: Log, at: nat)
    requires IsBlock(bucket, log, at, at)
    ensures bucket == map[]
  {
    assert forall t :: t in bucket ==> At(log, at, at, bucket[t], t);
  }

  /** Listing a block reads the newest end of its stretch backwards. */
  lemma BlockListing(bucket: Bucket, log: Log, lo: nat, hi: nat, byTime: bool, limit: Option<nat>)
    requires Increasing(log) && IsBlock(bucket, log, lo, hi)
    ensures Keyed(bucket) && lo <= hi <= |log|
    ensures Listing(bucket, byTime, limit) == Reverse(log[if limit.None? then lo else Max(lo, hi - limit.value)..hi])
  {
    hide NewestFirst, Increasing, Later;
    BlockNewestFirst(bucket, log, lo, hi, byTime);
    if limit.Some? && limit.value < hi - lo { ReversePrefix(log, lo, hi, limit.value); }
  }

  lemma ReversePrefix(log: Log, lo: nat, hi: nat, count: nat)
    requires lo <= hi <= |log| && count <= hi - lo
    ensures Reverse(log[lo..hi])[..count] == Reverse(log[hi - count..hi])
  {
  }

  /** What the ends of a listing say about the block it lists. */
  lemma ListingEnds(bucket: Bucket, log: Log, lo: nat, hi: nat, byTime: bool, limit: Option<nat>)
    requires Increasing(log) && IsBlock(bucket, log, lo, hi) && limit != Some(0)
    ensures Keyed(bucket) && lo <= hi <= |log|
    ensures var items := Listing(bucket, byTime, limit);
      && (items == [] <==> lo == hi) && (lo == hi ==> bucket == map[])
      && (lo < hi ==> items[0].token == log[hi - 1].token)
      && (lo < hi && limit.None? ==> items[|items| - 1].token == log[lo].token)
  {
    hide Listing, Increasing;
    BlockListing(bucket, log, lo, hi, byTime, limit);
    if lo == hi { BlockIsEmpty(bucket, log, lo); }
  }

  // ---------- trimming ----------

  function Tokens(records: Log): set<nat> {
    set r | r in records :: r.token
  }

  /** `trim_operations`: only the newest `limit` records by token. */
  function KeepNewest(bucket: Bucket, limit: nat): Bucket
    requires Keyed(bucket)
  {
    if |bucket| <= limit then
      bucket
    else
      NewestFirstSorts(bucket, false);
      var kept := Tokens(NewestFirst(bucket, false)[..limit]);
      map t | t in bucket && t in kept :: bucket[t]
  }

  /** Trimming a block cuts its old end. */
  lemma TrimmedBlock(bucket: Bucket, log: Log, lo: nat, hi: nat, limit: nat)
    requires Increasing(log) && IsBlock(bucket, log, lo, hi)
    ensures Keyed(bucket) && |bucket| == hi - lo
    ensures IsBlock(KeepNewest(bucket, limit), log, Max(lo, hi - limit), hi)
  {
    hide NewestFirst, Increasing, IsBlock, Later;
    BlockInRange(bucket, log, lo, hi);
    BlockNewestFirst(bucket, log, lo, hi, false);
    NewestFirstSorts(bucket, false);
    assert |Reverse(log[lo..hi])| == hi - lo;
    if limit < hi - lo {
      hide Tokens, Reverse;
      KeptStretch(log, lo, hi, limit);
      KeptBlock(bucket, log, lo, hi, limit, KeepNewest(bucket, limit));
    }
  }

  lemma KeptBlock(bucket: Bucket, log: Log, lo: nat, hi: nat, limit: nat, trimmed: Bucket)
    requires Increasing(log) && IsBlock(bucket, log, lo, hi) && limit < hi - lo
    requires forall i :: hi - limit <= i < hi && log[i].token in bucket ==> log[i].token in trimmed
    requires forall t :: t in trimmed ==>
      t in bucket && trimmed[t] == bucket[t] && exists i :: hi - limit <= i < hi && log[i].token == t
    ensures IsBlock(trimmed, log, hi - limit, hi)
  {
    hide Increasing;
    var from := hi - limit;
    forall t | t in trimmed ensures At(log, from, hi, trimmed[t], t) {
      var i :| from <= i < hi && log[i].token == t;
      BlockLookup(bucket, log, lo, hi, i);
    }
  }

  lemma KeptStretch(log: Log, lo: nat, hi: nat, limit: nat)
    requires lo <= hi <= |log| && limit < hi - lo
    ensures forall i :: hi - limit <= i < hi ==> log[i].token in Tokens(Reverse(log[lo..hi])[..limit])
    ensures forall t :: t in Tokens(Reverse(log[lo..hi])[..limit]) ==> exists i :: hi - limit <= i < hi && log[i].token == t
  {
    var kept := Reverse(log[lo..hi])[..limit];
    forall i | hi - limit <= i < hi ensures log[i].token in Tokens(kept) {
      assert kept[hi - 1 - i] == log[i];
      assert log[i] in kept;
    }
    forall t | t in Tokens(kept) ensures exists i :: hi - limit <= i < hi && log[i].token == t {
      var r :| r in kept && r.token == t;
      var k :| 0 <= k < |kept| && kept[k] == r;
      assert log[hi - 1 - k] == r;
    }
  }

  // ---------- one page of a sync ----------

  /** The page after the newest cached record carries the block forwards. */
  lemma ForwardPage(bucket: Bucket, log: Log, lo: nat, hi: nat, limit: nat)
    requires Increasing(log) && IsBlock(bucket, log, lo, hi) && lo < hi
    ensures var page := PageAfter(log, log[hi - 1].token, limit);
      var z: nat := Min(hi + limit, |log|);
      && |page| == z - hi && hi <= z <= |log|
      && (page != [] ==> page[|page| - 1].token == log[z - 1].token && page[|page| - 1].token != log[hi - 1].token)
      && IsBlock(Saved(bucket, page), log, lo, z)
  {
    hide Saved, IsBlock;
    BlockInRange(bucket, log, lo, hi);
    PageAfterStretch(log, hi - 1, limit);
    SavedExtends(bucket, log, lo, hi, log[hi..Min(hi + limit, |log|)], hi, Min(hi + limit, |log|));
  }

  lemma BlockInRange(bucket: Bucket, log: Log, lo: nat, hi: nat)
    requires IsBlock(bucket, log, lo, hi)
    ensures lo <= hi <= |log|
  {
  }

  /** The page before the oldest cached record carries it backwards. */
  lemma BackwardPage(bucket: Bucket, log: Log, lo: nat, hi: nat, limit: nat)
    requires Increasing(log) && IsBlock(bucket, log, lo, hi) && lo < hi
    ensures var page := PageBefore(log, Some(log[lo].token), limit);
      var a: nat := Max(lo - limit, 0);
      && |page| == lo - a
      && (page != [] ==> page[|page| - 1].token == log[a].token && page[|page| - 1].token != log[lo].token)
      && IsBlock(Saved(bucket, page), log, a, hi)
  {
    hide Saved, IsBlock;
    BlockInRange(bucket, log, lo, hi);
    PageBeforeStretch(log, lo, limit);
    SavedExtends(bucket, log, lo, hi, Reverse(log[Max(lo - limit, 0)..lo]), Max(lo - limit, 0), lo);
  }

  /** The first page of all starts a block at the head. */
  lemma FirstPage(log: Log, limit: nat)
    requires Increasing(log)
    ensures var page := PageBefore(log, None, limit);
      var a: nat := Max(|log| - limit, 0);
      && |page| == |log| - a
      && (page != [] ==> page[|page| - 1].token == log[a].token)
      && IsBlock(Saved(map[], page), log, a, |log|)
  {
    hide Saved, IsBlock;
    EmptyBlock(log, |log|);
    assert log[Max(|log| - limit, 0)..|log|] == log[Max(|log| - limit, 0)..];
    SavedExtends(map[], log, |log|, |log|, Reverse(log[Max(|log| - limit, 0)..|log|]), Max(|log| - limit, 0), |log|);
  }

  /** A bucket that holds anything is a block in one way only. */
  lemma BlockUnique(bucket: Bucket, log: Log, lo: nat, hi: nat, lo': nat, hi': nat)
    requires Increasing(log) && IsBlock(bucket, log, lo, hi) && IsBlock(bucket, log, lo', hi')
    ensures lo == hi <==> lo' == hi'
    ensures lo < hi ==> lo == lo' && hi == hi'
  {
    hide IsBlock, Increasing;
    ListingEnds(bucket, log, lo, hi, false, None);
    ListingEnds(bucket, log, lo', hi', false, None);
    if lo < hi {
      UptoAt(log, lo);
      UptoAt(log, lo');
      UptoAt(log, hi - 1);
      UptoAt(log, hi' - 1);
    }
  }
}
