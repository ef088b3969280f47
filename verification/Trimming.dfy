/** Keeping the newest records page by page keeps what one trim at the end would. */
module Trimming {
  import opened Models
  import opened RemoteLogs

  function Above(bucket: Bucket, t: nat): set<nat> {
    set u | u in bucket && t < u
  }

  lemma {:induction false} SubsetSize(a: set<nat>, b: set<nat>)
    requires a <= b
    ensures |a| <= |b|
  {
    if a != {} {
      var x :| x in a;
      SubsetSize(a - {x}, b - {x});
    }
  }

  lemma {:induction false} DistinctTokens(s: Log)
    requires forall i, j :: 0 <= i < j < |s| ==> s[i].token > s[j].token
    ensures |Tokens(s)| == |s|
  {
    if s != [] {
      var n := |s| - 1;
      DistinctTokens(s[..n]);
      assert Tokens(s) == Tokens(s[..n]) + {s[n].token} by {
        assert forall r :: r in s <==> r in s[..n] || r == s[n];
      }
    }
  }

  /** The records before a record in newest-first order are those with a larger token. */
  lemma RankIsCount(bucket: Bucket, k: nat)
    requires Keyed(bucket) && k < |bucket|
    ensures var s := NewestFirst(bucket, false);
      |s| == |bucket| && Above(bucket, s[k].token) == Tokens(s[..k]) && |Above(bucket, s[k].token)| == k
  {
    hide NewestFirst, Above, Tokens;
    NewestFirstSorts(bucket, false);
    DistinctTokens(NewestFirst(bucket, false)[..k]);
    AboveIsPrefix(bucket, NewestFirst(bucket, false), k);
  }

  lemma AboveIsPrefix(bucket: Bucket, s: Log, k: nat)
    requires k < |s| && forall r :: r in s <==> r.token in bucket && bucket[r.token] == r
    requires forall t :: t in bucket ==> bucket[t] in s && bucket[t].token == t
    requires forall i, j :: 0 <= i < j < |s| ==> Later(s[i], s[j], false)
    ensures Above(bucket, s[k].token) == Tokens(s[..k])
  {
    var t := s[k].token;
    forall u | u in Above(bucket, t) ensures u in Tokens(s[..k]) {
      var i :| 0 <= i < |s| && s[i] == bucket[u];
      assert i < k;
      assert s[..k][i] in s[..k];
    }
    forall u | u in Tokens(s[..k]) ensures u in Above(bucket, t) {
      var r :| r in s[..k] && r.token == u;
      var i :| 0 <= i < k && s[..k][i] == r;
      assert s[i] in s;
    }
  }

  lemma TopHasFewNewer(bucket: Bucket, limit: nat, t: nat)
    requires Keyed(bucket) && limit <= |bucket|
    ensures |NewestFirst(bucket, false)| == |bucket|
    ensures t in Tokens(NewestFirst(bucket, false)[..limit]) ==> |Above(bucket, t)| < limit
  {
    hide NewestFirst;
    NewestFirstSorts(bucket, false);
    var top := NewestFirst(bucket, false)[..limit];
    if t in Tokens(top) {
      var r :| r in top && r.token == t;
      var i :| 0 <= i < |top| && top[i] == r;
      RankIsCount(bucket, i);
    }
  }

  lemma FewerNewerIsNewer(bucket: Bucket, t: nat, u: nat)
    requires |Above(bucket, t)| < |Above(bucket, u)|
    ensures u < t
  {
    if t <= u { SubsetSize(Above(bucket, u), Above(bucket, t)); }
  }

  /** A record is kept exactly when fewer than `limit` are newer. */
  lemma KeptIffFewNewer(bucket: Bucket, limit: nat, t: nat)
    requires Keyed(bucket)
    ensures t in KeepNewest(bucket, limit) <==> t in bucket && |Above(bucket, t)| < limit
    ensures t in KeepNewest(bucket, limit) ==> KeepNewest(bucket, limit)[t] == bucket[t]
  {
    hide NewestFirst;
    if t in bucket {
      NewestFirstSorts(bucket, false);
      var s := NewestFirst(bucket, false);
      var k :| 0 <= k < |s| && s[k] == bucket[t];
      RankIsCount(bucket, k);
      if limit < |bucket| {
        TopHasFewNewer(bucket, limit, t);
        if k < limit { assert s[..limit][k] in s[..limit]; }
      }
    }
  }

  /** With `limit` newer records in the bucket there are as many among the kept ones. */
  lemma NewerSurvive(bucket: Bucket, limit: nat, u: nat)
    requires Keyed(bucket) && limit <= |Above(bucket, u)|
    ensures limit <= |Above(KeepNewest(bucket, limit), u)|
  {
    hide NewestFirst;
    NewestFirstSorts(bucket, false);
    var s, kept := NewestFirst(bucket, false), KeepNewest(bucket, limit);
    SubsetSize(Above(bucket, u), bucket.Keys);
    DistinctTokens(s[..limit]);
    forall t | t in Tokens(s[..limit]) ensures t in Above(kept, u) {
      TopHasFewNewer(bucket, limit, t);
      KeptIffFewNewer(bucket, limit, t);
      FewerNewerIsNewer(bucket, t, u);
    }
    SubsetSize(Tokens(s[..limit]), Above(kept, u));
  }

  lemma {:induction false} SavedIsMerge(bucket: Bucket, page: Log)
    ensures Saved(bucket, page) == bucket + Saved(map[], page)
  {
    if page != [] { SavedIsMerge(bucket, page[..|page| - 1]); }
  }

  lemma KeepNewestKeyed(bucket: Bucket, limit: nat)
    requires Keyed(bucket)
    ensures Keyed(KeepNewest(bucket, limit))
    ensures KeepNewest(bucket, limit).Keys <= bucket.Keys
  {
    forall t | t in KeepNewest(bucket, limit)
      ensures t in bucket && KeepNewest(bucket, limit)[t].token == t
    {
      KeptIffFewNewer(bucket, limit, t);
    }
  }

  /** Trimming before a page is saved changes nothing about what is left after the next trim. */
  lemma PerPageTrimHarmless(bucket: Bucket, page: Log, limit: nat)
    requires Keyed(bucket)
    ensures Keyed(KeepNewest(bucket, limit)) && Keyed(Saved(KeepNewest(bucket, limit), page)) && Keyed(Saved(bucket, page))
    ensures KeepNewest(Saved(KeepNewest(bucket, limit), page), limit) == KeepNewest(Saved(bucket, page), limit)
  {
    hide KeepNewest, Saved;
    KeepNewestKeyed(bucket, limit);
    var kept := KeepNewest(bucket, limit);
    SavedKeyed(bucket, page);
    SavedKeyed(kept, page);
    var a, b := Saved(kept, page), Saved(bucket, page);
    var early, late := KeepNewest(a, limit), KeepNewest(b, limit);
    assert early.Keys == late.Keys by {
      forall t ensures t in early <==> t in late {
        KeptIffFewNewer(a, limit, t);
        KeptIffFewNewer(b, limit, t);
        SameSurvivors(bucket, page, limit, t);
      }
    }
    forall t | t in early ensures early[t] == late[t] {
      assert t in late;
      SameSurvivingValue(bucket, page, limit, t);
    }
  }

  lemma SavedKeyed(bucket: Bucket, page: Log)
    requires Keyed(bucket)
    ensures Keyed(Saved(bucket, page))
  {
    SavedHolds(bucket, page);
  }

  lemma SameSurvivingValue(bucket: Bucket, page: Log, limit: nat, t: nat)
    requires Keyed(bucket) && Keyed(Saved(bucket, page))
    requires Keyed(KeepNewest(bucket, limit)) && Keyed(Saved(KeepNewest(bucket, limit), page))
    requires t in KeepNewest(Saved(KeepNewest(bucket, limit), page), limit) && t in KeepNewest(Saved(bucket, page), limit)
    ensures KeepNewest(Saved(KeepNewest(bucket, limit), page), limit)[t] == KeepNewest(Saved(bucket, page), limit)[t]
  {
    hide KeepNewest, Saved;
    var kept := KeepNewest(bucket, limit);
    SavedIsMerge(bucket, page);
    SavedIsMerge(kept, page);
    KeptIffFewNewer(bucket, limit, t);
    KeptIffFewNewer(Saved(kept, page), limit, t);
    KeptIffFewNewer(Saved(bucket, page), limit, t);
  }

  lemma SameSurvivors(bucket: Bucket, page: Log, limit: nat, t: nat)
    requires Keyed(bucket)
    ensures var a, b := Saved(KeepNewest(bucket, limit), page), Saved(bucket, page);
      t in a && |Above(a, t)| < limit <==> t in b && |Above(b, t)| < limit
  {
    hide KeepNewest, Saved;
    var kept, saved := KeepNewest(bucket, limit), Saved(map[], page);
    SavedIsMerge(bucket, page);
    SavedIsMerge(kept, page);
    KeepNewestKeyed(bucket, limit);
    KeptIffFewNewer(bucket, limit, t);
    var a, b := kept + saved, bucket + saved;
    SubsetSize(Above(a, t), Above(b, t));
    if t in b && |Above(b, t)| < limit {
      if t in bucket { SubsetSize(Above(bucket, t), Above(b, t)); }
    }
    if t in a && |Above(a, t)| < limit {
      forall u | u in Above(b, t) ensures u in Above(a, t) {
        KeptIffFewNewer(bucket, limit, u);
        if u !in a {
          NewerSurvive(bucket, limit, u);
          SubsetSize(Above(kept, u), Above(a, t));
          assert false;
        }
      }
      SubsetSize(Above(b, t), Above(a, t));
    }
  }
}
