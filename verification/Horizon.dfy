/** The remote side: append-only record logs per account, and a list of open offers. */
module HorizonServer {
  import opened Models
  import opened RemoteLogs

  datatype Feed = Operations(account: string) | Trades(account: string)

  /** An open offer record; a well-formed one carries a paging token. */
  datatype OfferRecord = OfferRecord(token: Option<nat>, body: string)

  /** Open offers in the order Horizon lists them, newest first. */
  predicate Listed(offers: seq<OfferRecord>) {
    && (forall i :: 0 <= i < |offers| ==> offers[i].token.Some?)
    && (forall i, j :: 0 <= i < j < |offers| ==> offers[i].token.value > offers[j].token.value)
  }

  /** How many listed offers stand at or above a cursor. */
  function Passed(offers: seq<OfferRecord>, cursor: Option<nat>): nat {
    if cursor.None? || offers == [] then 0
    else if offers[0].token.Some? && offers[0].token.value >= cursor.value then 1 + Passed(offers[1..], cursor)
    else 0
  }

  lemma {:induction false} PassedSplits(offers: seq<OfferRecord>, cursor: Option<nat>)
    requires Listed(offers)
    ensures Passed(offers, cursor) <= |offers|
    ensures cursor.Some? ==>
      forall i :: 0 <= i < |offers| ==> (i < Passed(offers, cursor) <==> offers[i].token.value >= cursor.value)
  {
    if cursor.Some? && offers != [] && offers[0].token.value >= cursor.value {
      PassedSplits(offers[1..], cursor);
      forall i | 0 <= i < |offers| ensures i < Passed(offers, cursor) <==> offers[i].token.value >= cursor.value {
        if 0 < i { assert offers[1..][i - 1] == offers[i]; }
      }
    }
  }

  /** The `limit` offers strictly beyond the cursor. */
  function OfferPage(offers: seq<OfferRecord>, cursor: Option<nat>, limit: nat): seq<OfferRecord> {
    var rest := if Passed(offers, cursor) <= |offers| then offers[Passed(offers, cursor)..] else [];
    if limit <= |rest| then rest[..limit] else rest
  }

  /** A page that does not move the cursor: full, and ending without a token or on the cursor itself. */
  predicate StalledPage(page: seq<OfferRecord>, cursor: Option<nat>, limit: nat) {
    0 < limit == |page| && (page[limit - 1].token.None? || page[limit - 1].token == cursor)
  }

  function LogIn(logs: map<Feed, Log>, feed: Feed): Log {
    if feed in logs then logs[feed] else []
  }

  /** Logs only grow: every log before is a prefix of the same log after. */
  predicate Extends(before: map<Feed, Log>, after: map<Feed, Log>) {
    forall f :: f in before ==> f in after && before[f] <= after[f]
  }

  lemma ExtendsItself(a: map<Feed, Log>)
    ensures Extends(a, a)
  {
  }

  lemma ExtendsTransitive(a: map<Feed, Log>, b: map<Feed, Log>, c: map<Feed, Log>)
    requires Extends(a, b) && Extends(b, c)
    ensures Extends(a, c)
  {
  }

  lemma ExtendsLog(a: map<Feed, Log>, b: map<Feed, Log>, feed: Feed)
    requires Extends(a, b)
    ensures LogIn(a, feed) <= LogIn(b, feed)
  {
  }

  lemma ExtendsLength(a: map<Feed, Log>, b: map<Feed, Log>, feed: Feed)
    requires Extends(a, b)
    ensures |LogIn(a, feed)| <= |LogIn(b, feed)|
  {
  }

  /** What calls for records have come to so far: how many records were served, how many calls failed. */
  datatype Traffic = Traffic(served: nat, failed: nat) {
    function Counting(page: Result<Log>): Traffic {
      match page
      case Success(records) => Traffic(served + |records|, failed)
      case Failure(_) => Traffic(served, failed + 1)
    }
  }

  class Horizon {
    /** Every record the logs will come to hold; what is visible at any time is a prefix. */
    const archive: map<Feed, Log>
    var logs: map<Feed, Log>
    var offers: map<string, seq<OfferRecord>>

    var traffic: Traffic

    /** Every answer to a call for offers, in order. */
    var answers: seq<Result<seq<OfferRecord>>>

    /** While steady, no call fails and nothing changes during a call. */
    var steady: bool

    constructor (archive: map<Feed, Log>, steady: bool)
      requires forall f :: f in archive ==> Increasing(archive[f])
      ensures Valid() && this.archive == archive && this.steady == steady
      ensures logs == map[] && offers == map[] && traffic == Traffic(0, 0) && answers == []
    {
      this.archive, this.steady := archive, steady;
      logs, offers, traffic, answers := map[], map[], Traffic(0, 0), [];
    }

    predicate Valid()
      reads this
    {
      && (forall f :: f in logs ==> Increasing(logs[f]) && logs[f] <= ArchiveOf(f))
      && (forall a :: a in offers ==> Listed(offers[a]))
    }

    function ArchiveOf(feed: Feed): Log {
      if feed in archive then archive[feed] else []
    }

    function LogOf(feed: Feed): Log
      reads this
    {
      LogIn(logs, feed)
    }

    function OffersOf(account: string): seq<OfferRecord>
      reads this
    {
      if account in offers then offers[account] else []
    }

    /** New records may be appended to any log at any time; nothing is rewritten. */
    method Tick()
      requires Valid()
      modifies this`logs
      ensures Valid()
      ensures Extends(old(logs), logs)
    {
      var grown: map<Feed, Log> := *;
      if Extends(logs, grown) && (forall f :: f in grown ==> Increasing(grown[f]) && grown[f] <= ArchiveOf(f)) {
        logs := grown;
      }
    }

    /** `get_operations` and `get_account_trades` of the adapter. */
    method Fetch(feed: Feed, limit: nat, cursor: Option<nat>, desc: bool) returns (page: Result<Log>)
      requires Valid()
      modifies this`logs, this`traffic
      ensures Valid()
      ensures Extends(old(logs), logs)
      ensures steady ==> page.Success? && logs == old(logs)
      ensures page.Success? ==> page.value == Page(LogOf(feed), cursor, limit, desc)
      ensures traffic == old(traffic).Counting(page)
    {
      page := Failure(NetworkFailure);
      if steady {
        page := Success(Page(LogOf(feed), cursor, limit, desc));
      } else {
        Tick();
        if * {
          page := Success(Page(LogOf(feed), cursor, limit, desc));
        }
      }
      traffic := traffic.Counting(page);
    }

    /** `get_offers` of the adapter: an honest page, a stalled one, or a failed call. */
    method FetchOffers(account: string, limit: nat, cursor: Option<nat>) returns (page: Result<seq<OfferRecord>>)
      requires Valid()
      modifies this`offers, this`answers
      ensures Valid()
      ensures steady ==> page.Success? && offers == old(offers)
      ensures page.Success? ==>
        page.value == OfferPage(OffersOf(account), cursor, limit) || (!steady && StalledPage(page.value, cursor, limit))
      ensures answers == old(answers) + [page]
    {
      if !steady {
        var changed: map<string, seq<OfferRecord>> := *;
        if forall a :: a in changed ==> Listed(changed[a]) {
          offers := changed;
        }
      }
      page := Success(OfferPage(OffersOf(account), cursor, limit));
      if !steady {
        var stalled: seq<OfferRecord> := *;
        if StalledPage(stalled, cursor, limit) {
          page := Success(stalled);
        } else if * {
          page := Failure(NetworkFailure);
        }
      }
      answers := answers + [page];
    }
  }
}
