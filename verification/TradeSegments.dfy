/** Account trades and their aggregation into fills of one user order (trade_segments.py). */
module TradeSegments {
  import opened Models
  import opened PriceRatios
  import opened SegmentKeys

  datatype Trade = Trade(
    tradeId: string,
    pair: MarketPair,
    baseAmount: int,
    counterAmount: int,
    price: PriceRatio,
    side: Side,
    time: Option<string>,
    baseAccount: Option<string>,
    counterAccount: Option<string>,
    baseOffer: Option<string>,
    counterOffer: Option<string>,
    raw: string)

  datatype Segment = Segment(
    key: string,
    pair: MarketPair,
    side: Side,
    baseAmount: int,
    counterAmount: int,
    price: PriceRatio,
    offer: Option<string>,
    tradeCount: nat,
    firstTime: Option<string>,
    lastTime: Option<string>,
    firstTradeId: string,
    lastTradeId: string,
    raw: seq<string>)

  function UserOffer(trade: Trade, address: string): Option<string> {
    if trade.baseAccount == Some(address) then trade.baseOffer
    else if trade.counterAccount == Some(address) then trade.counterOffer
    else None
  }

  /** The order a fill is counted to is the account's own: the other side's offer never matters. */
  lemma OtherSideIgnored(trade: Trade, address: string, other: Option<string>)
    ensures trade.baseAccount == Some(address) ==>
      UserOffer(trade.(counterOffer := other), address) == UserOffer(trade, address)
      && UserOffer(trade.(baseOffer := other), address) == other
    ensures trade.baseAccount != Some(address) && trade.counterAccount == Some(address) ==>
      UserOffer(trade.(baseOffer := other), address) == UserOffer(trade, address)
      && UserOffer(trade.(counterOffer := other), address) == other
    ensures trade.baseAccount != Some(address) && trade.counterAccount != Some(address) ==> UserOffer(trade, address).None?
  {
  }

  function SegmentFromTrade(trade: Trade, address: string): Segment {
    var offer := UserOffer(trade, address);
    Segment(
      SegmentIdentity(trade.pair, trade.side, trade.price, offer),
      trade.pair, trade.side, trade.baseAmount, trade.counterAmount, trade.price, offer, 1,
      trade.time, trade.time, trade.tradeId, trade.tradeId, [trade.raw])
  }

  predicate CanMerge(first: Segment, last: Segment) {
    first.offer.Some? && last.offer.Some? && first.key == last.key
  }

  /** Both are fills of one order the account has placed: market, side, price and order id are the same. */
  predicate OneUserOrder(a: Trade, b: Trade, address: string) {
    && UserOffer(a, address).Some? && UserOffer(a, address) == UserOffer(b, address)
    && a.pair == b.pair && a.side == b.side && a.price == b.price
  }

  predicate AllClean(trades: seq<Trade>) {
    forall i :: 0 <= i < |trades| ==> Clean(trades[i].pair.base) && Clean(trades[i].pair.counter)
  }

  /** Two fills can be merged exactly when they are of one order. */
  lemma MergedExactly(a: Trade, b: Trade, address: string)
    requires AllClean([a, b])
    ensures CanMerge(SegmentFromTrade(a, address), SegmentFromTrade(b, address)) <==> OneUserOrder(a, b, address)
  {
    assert Clean([a, b][0].pair.base) && Clean([a, b][1].pair.base);
    KeyIdentifies(a.pair, a.side, a.price, UserOffer(a, address), b.pair, b.side, b.price, UserOffer(b, address));
  }

  function Merge(first: Segment, last: Segment): Segment {
    first.(
      baseAmount := first.baseAmount + last.baseAmount,
      counterAmount := first.counterAmount + last.counterAmount,
      tradeCount := first.tradeCount + last.tradeCount,
      lastTime := last.lastTime,
      lastTradeId := last.lastTradeId,
      raw := first.raw + last.raw)
  }

  /** One more segment after the ones already made. */
  function Appended(result: seq<Segment>, segment: Segment): seq<Segment> {
    if result != [] && CanMerge(result[|result| - 1], segment) then
      result[|result| - 1 := Merge(result[|result| - 1], segment)]
    else
      result + [segment]
  }

  function Compress(trades: seq<Trade>, address: string): seq<Segment> {
    if trades == [] then
      []
    else
      Appended(Compress(trades[..|trades| - 1], address), SegmentFromTrade(trades[|trades| - 1], address))
  }

  /** `compress_account_trades`: one pass that overwrites the last segment when it can grow. */
  method CompressAccountTrades(records: seq<Trade>, address: string) returns (result: seq<Segment>)
    ensures result == Compress(records, address)
  {
    hide SegmentFromTrade, Merge, CanMerge;
    result := [];
    for i := 0 to |records|
      invariant result == Compress(records[..i], address)
    {
      var segment := SegmentFromTrade(records[i], address);
      assert records[..i + 1][..i] == records[..i];
      assert Compress(records[..i + 1], address) == Appended(result, segment);
      if result != [] && CanMerge(result[|result| - 1], segment) {
        result := result[|result| - 1 := Merge(result[|result| - 1], segment)];
      } else {
        result := result + [segment];
      }
    }
    assert records[..|records|] == records;
  }

  // ---------- nothing is lost ----------

  function BaseOf(trades: seq<Trade>): int {
    if trades == [] then 0 else BaseOf(trades[..|trades| - 1]) + trades[|trades| - 1].baseAmount
  }

  function CounterOf(trades: seq<Trade>): int {
    if trades == [] then 0 else CounterOf(trades[..|trades| - 1]) + trades[|trades| - 1].counterAmount
  }

  function RawOf(trades: seq<Trade>): seq<string> {
    seq(|trades|, i requires 0 <= i < |trades| => trades[i].raw)
  }

  datatype Totals = Totals(base: int, counter: int, count: nat, raw: seq<string>)

  /** The totals of a list of segments, with their raw trades end to end. */
  function TotalsOf(segments: seq<Segment>): Totals {
    if segments == [] then
      Totals(0, 0, 0, [])
    else
      var t, s := TotalsOf(segments[..|segments| - 1]), segments[|segments| - 1];
      Totals(t.base + s.baseAmount, t.counter + s.counterAmount, t.count + s.tradeCount, t.raw + s.raw)
  }

  lemma AppendedTotals(result: seq<Segment>, s: Segment)
    ensures var t := TotalsOf(result);
      TotalsOf(Appended(result, s))
        == Totals(t.base + s.baseAmount, t.counter + s.counterAmount, t.count + s.tradeCount, t.raw + s.raw)
  {
    hide CanMerge;
    if result != [] && CanMerge(result[|result| - 1], s) {
      var merged := Appended(result, s);
      assert merged[..|merged| - 1] == result[..|result| - 1];
    } else {
      assert (result + [s])[..|result|] == result;
    }
  }

  /** Amounts, the number of trades and the raw trades in their order all survive. */
  lemma {:induction false} CompressionConserves(trades: seq<Trade>, address: string)
    ensures TotalsOf(Compress(trades, address)) == Totals(BaseOf(trades), CounterOf(trades), |trades|, RawOf(trades))
  {
    hide SegmentIdentity, Appended;
    if trades != [] {
      var n := |trades| - 1;
      CompressionConserves(trades[..n], address);
      AppendedTotals(Compress(trades[..n], address), SegmentFromTrade(trades[n], address));
      assert RawOf(trades) == RawOf(trades[..n]) + [trades[n].raw];
    }
  }

  // ---------- the canonical decomposition ----------

  /** Two neighbouring trades are fills of the same identified user order. */
  predicate SameOrder(first: Trade, last: Trade, address: string) {
    CanMerge(SegmentFromTrade(first, address), SegmentFromTrade(last, address))
  }

  function Flatten(runs: seq<seq<Trade>>): seq<Trade> {
    if runs == [] then [] else Flatten(runs[..|runs| - 1]) + runs[|runs| - 1]
  }

  /** Trades cut into maximal runs of fills of one order. */
  ghost predicate Canonical(runs: seq<seq<Trade>>, trades: seq<Trade>, address: string) {
    && Flatten(runs) == trades
    && (forall i :: 0 <= i < |runs| ==> runs[i] != [] && OneOrder(runs[i], address))
    && (forall i :: 0 <= i < |runs| - 1 ==> Apart(runs[i], runs[i + 1], address))
  }

  ghost predicate OneOrder(run: seq<Trade>, address: string) {
    forall j :: 0 <= j < |run| - 1 ==> SameOrder(run[j], run[j + 1], address)
  }

  predicate Apart(run: seq<Trade>, next: seq<Trade>, address: string) {
    run != [] && next != [] ==> !SameOrder(run[|run| - 1], next[0], address)
  }

  /** One run as one segment, read off the run itself. */
  function Summary(run: seq<Trade>, address: string): Segment
    requires run != []
  {
    var first, last := run[0], run[|run| - 1];
    var offer := UserOffer(first, address);
    Segment(
      SegmentIdentity(first.pair, first.side, first.price, offer),
      first.pair, first.side, BaseOf(run), CounterOf(run), first.price, offer, |run|,
      first.time, last.time, first.tradeId, last.tradeId, RawOf(run))
  }

  function Summaries(runs: seq<seq<Trade>>, address: string): seq<Segment>
    requires forall i :: 0 <= i < |runs| ==> runs[i] != []
  {
    seq(|runs|, i requires 0 <= i < |runs| => Summary(runs[i], address))
  }

  /** The runs one pass over the trades makes. */
  function Runs(trades: seq<Trade>, address: string): (runs: seq<seq<Trade>>)
    ensures forall i :: 0 <= i < |runs| ==> runs[i] != []
  {
    if trades == [] then
      []
    else
      var t := trades[|trades| - 1];
      var before := Runs(trades[..|trades| - 1], address);
      if before != [] && SameOrder(before[|before| - 1][|before[|before| - 1]| - 1], t, address) then
        before[|before| - 1 := before[|before| - 1] + [t]]
      else
        before + [[t]]
  }

  /** The last trade of the last run. */
  function LastOf(runs: seq<seq<Trade>>): Trade
    requires runs != [] && runs[|runs| - 1] != []
  {
    runs[|runs| - 1][|runs[|runs| - 1]| - 1]
  }

  /** A trade of the order the last run is of makes that run longer. */
  lemma RunGrows(before: seq<seq<Trade>>, trades: seq<Trade>, t: Trade, address: string)
    requires Canonical(before, trades, address) && before != [] && SameOrder(LastOf(before), t, address)
    ensures Canonical(before[|before| - 1 := before[|before| - 1] + [t]], trades + [t], address)
  {
    hide SameOrder;
    var k := |before| - 1;
    var runs := before[k := before[k] + [t]];
    assert runs[..k] == before[..k];
    assert OneOrder(runs[k], address) by {
      forall j | 0 <= j < |runs[k]| - 1 ensures SameOrder(runs[k][j], runs[k][j + 1], address) {
        if j < |before[k]| - 1 { assert SameOrder(before[k][j], before[k][j + 1], address); }
      }
    }
    hide OneOrder;
    forall i | 0 <= i < |runs| - 1 ensures Apart(runs[i], runs[i + 1], address) {
      assert Apart(before[i], before[i + 1], address);
    }
  }

  /** A trade of another order starts a run. */
  lemma RunStarts(before: seq<seq<Trade>>, trades: seq<Trade>, t: Trade, address: string)
    requires Canonical(before, trades, address)
    requires before != [] ==> !SameOrder(LastOf(before), t, address)
    ensures Canonical(before + [[t]], trades + [t], address)
  {
    hide SameOrder;
    var runs := before + [[t]];
    assert runs[..|before|] == before;
    assert OneOrder([t], address);
    hide OneOrder;
    forall i | 0 <= i < |runs| - 1 ensures Apart(runs[i], runs[i + 1], address) {
      if i < |before| - 1 { assert Apart(before[i], before[i + 1], address); }
    }
  }

  lemma {:induction false} RunsAreCanonical(trades: seq<Trade>, address: string)
    ensures Canonical(Runs(trades, address), trades, address)
  {
    hide SameOrder, OneOrder, Apart;
    if trades != [] {
      var n := |trades| - 1;
      var before := Runs(trades[..n], address);
      RunsAreCanonical(trades[..n], address);
      assert trades == trades[..n] + [trades[n]];
      if before != [] && SameOrder(LastOf(before), trades[n], address) {
        RunGrows(before, trades[..n], trades[n], address);
      } else {
        RunStarts(before, trades[..n], trades[n], address);
      }
    }
  }

  /** Along a run every trade has the key and, when there are several, the order of the first. */
  lemma {:induction false} RunSharesKey(run: seq<Trade>, address: string, j: nat)
    requires OneOrder(run, address) && j < |run|
    ensures SegmentFromTrade(run[j], address).key == SegmentFromTrade(run[0], address).key
    ensures 2 <= |run| ==> UserOffer(run[j], address).Some?
  {
    hide SegmentIdentity;
    if j == 0 {
      if 2 <= |run| { assert SameOrder(run[0], run[1], address); }
    } else {
      RunSharesKey(run, address, j - 1);
      assert SameOrder(run[j - 1], run[j - 1 + 1], address);
    }
  }

  lemma SummaryMerges(run: seq<Trade>, next: seq<Trade>, address: string)
    requires run != [] && next != [] && OneOrder(run, address)
    ensures CanMerge(Summary(run, address), Summary(next, address))
       <==> SameOrder(run[|run| - 1], next[0], address)
  {
    hide SegmentIdentity;
    RunSharesKey(run, address, |run| - 1);
    RunSharesKey(run, address, 0);
  }

  lemma SummaryGrows(run: seq<Trade>, t: Trade, address: string)
    requires run != []
    ensures Summary(run + [t], address) == Merge(Summary(run, address), SegmentFromTrade(t, address))
  {
    hide SegmentIdentity;
    assert (run + [t])[..|run|] == run;
    assert RawOf(run + [t]) == RawOf(run) + [t.raw];
  }

  lemma SingleSummary(t: Trade, address: string)
    ensures Summary([t], address) == SegmentFromTrade(t, address)
  {
    hide SegmentIdentity;
    assert [t][..0] == [];
    assert BaseOf([t]) == BaseOf([t][..0]) + t.baseAmount;
    assert CounterOf([t]) == CounterOf([t][..0]) + t.counterAmount;
    assert RawOf([t]) == [t.raw];
  }

  /** A fill of the order the last run is of is merged into that run's segment. */
  lemma SummariesGrow(before: seq<seq<Trade>>, t: Trade, address: string)
    requires before != [] && forall i :: 0 <= i < |before| ==> before[i] != [] && OneOrder(before[i], address)
    requires SameOrder(LastOf(before), t, address)
    ensures var k := |before| - 1;
      Appended(Summaries(before, address), SegmentFromTrade(t, address))
        == Summaries(before[k := before[k] + [t]], address)
  {
    hide SegmentFromTrade, CanMerge, Merge, Summary, OneOrder, SameOrder;
    var k := |before| - 1;
    SingleSummary(t, address);
    SummaryMerges(before[k], [t], address);
    SummaryGrows(before[k], t, address);
    var segments := Summaries(before, address);
    assert segments[k] == Summary(before[k], address);
  }

  /** A fill of another order becomes a segment of its own. */
  lemma SummariesStart(before: seq<seq<Trade>>, t: Trade, address: string)
    requires forall i :: 0 <= i < |before| ==> before[i] != [] && OneOrder(before[i], address)
    requires before != [] ==> !SameOrder(LastOf(before), t, address)
    ensures Appended(Summaries(before, address), SegmentFromTrade(t, address)) == Summaries(before + [[t]], address)
  {
    hide SegmentFromTrade, CanMerge, Merge, Summary, OneOrder, SameOrder;
    SingleSummary(t, address);
    if before != [] {
      SummaryMerges(before[|before| - 1], [t], address);
    }
  }

  lemma RunsHoldOrders(trades: seq<Trade>, address: string)
    ensures forall i :: 0 <= i < |Runs(trades, address)| ==> OneOrder(Runs(trades, address)[i], address)
  {
    hide OneOrder, Runs, Apart;
    RunsAreCanonical(trades, address);
  }

  /** Compression is the canonical decomposition, summarised run by run. */
  lemma {:induction false} CompressSummarises(trades: seq<Trade>, address: string)
    ensures Compress(trades, address) == Summaries(Runs(trades, address), address)
  {
    hide SegmentFromTrade, CanMerge, Merge, Summary, OneOrder, SameOrder, Appended, Summaries;
    if trades == [] {
      NothingSummarised(address);
    } else {
      var n := |trades| - 1;
      var before := Runs(trades[..n], address);
      CompressSummarises(trades[..n], address);
      RunsHoldOrders(trades[..n], address);
      if before != [] && SameOrder(LastOf(before), trades[n], address) {
        SummariesGrow(before, trades[n], address);
      } else {
        SummariesStart(before, trades[n], address);
      }
    }
  }

  lemma NothingSummarised(address: string)
    ensures Summaries([], address) == []
  {
  }

  /** Taking the last trade off a longer last run leaves a canonical cut. */
  lemma RunShrinks(runs: seq<seq<Trade>>, trades: seq<Trade>, address: string)
    requires Canonical(runs, trades, address) && runs != [] && 2 <= |runs[|runs| - 1]|
    ensures trades != [] && trades[|trades| - 1] == LastOf(runs)
    ensures var last := runs[|runs| - 1];
      var before := runs[|runs| - 1 := last[..|last| - 1]];
      Canonical(before, trades[..|trades| - 1], address) && SameOrder(LastOf(before), LastOf(runs), address)
  {
    hide SameOrder;
    var k := |runs| - 1;
    var last := runs[k];
    var shorter := last[..|last| - 1];
    var before := runs[k := shorter];
    assert before[..k] == runs[..k];
    assert trades[..|trades| - 1] == Flatten(runs[..k]) + shorter;
    assert OneOrder(shorter, address) by {
      forall j | 0 <= j < |shorter| - 1 ensures SameOrder(shorter[j], shorter[j + 1], address) {
        assert SameOrder(last[j], last[j + 1], address);
      }
    }
    assert SameOrder(last[|last| - 2], last[|last| - 2 + 1], address);
    hide OneOrder;
    forall i | 0 <= i < |before| - 1 ensures Apart(before[i], before[i + 1], address) {
      assert Apart(runs[i], runs[i + 1], address);
    }
  }

  /** Taking off a last run of a single trade leaves one as well. */
  lemma RunDropped(runs: seq<seq<Trade>>, trades: seq<Trade>, address: string)
    requires Canonical(runs, trades, address) && runs != [] && |runs[|runs| - 1]| == 1
    ensures trades != [] && [trades[|trades| - 1]] == runs[|runs| - 1]
    ensures var before := runs[..|runs| - 1];
      && Canonical(before, trades[..|trades| - 1], address)
      && (before != [] ==> !SameOrder(LastOf(before), LastOf(runs), address))
  {
    hide SameOrder, OneOrder;
    var k := |runs| - 1;
    assert trades[..|trades| - 1] == Flatten(runs[..k]);
    if k != 0 { assert Apart(runs[k - 1], runs[k - 1 + 1], address); }
  }

  /** There is only one way to cut trades into maximal runs. */
  lemma {:induction false} CanonicalIsUnique(runs: seq<seq<Trade>>, trades: seq<Trade>, address: string)
    requires Canonical(runs, trades, address)
    ensures runs == Runs(trades, address)
    decreases |trades|
  {
    hide SameOrder, Canonical, Flatten;
    assert (runs == [] ==> trades == []) && (runs != [] ==> runs[|runs| - 1] != []) by { EndsOfCut(runs, trades, address); }
    if runs != [] {
      var k := |runs| - 1;
      var last := runs[k];
      if |last| == 1 {
        RunDropped(runs, trades, address);
        CanonicalIsUnique(runs[..k], trades[..|trades| - 1], address);
        assert runs == runs[..k] + [last];
      } else {
        RunShrinks(runs, trades, address);
        var shorter := last[..|last| - 1];
        CanonicalIsUnique(runs[k := shorter], trades[..|trades| - 1], address);
        assert last == shorter + [LastOf(runs)];
        assert runs == runs[k := shorter][k := last];
      }
    }
  }

  lemma EndsOfCut(runs: seq<seq<Trade>>, trades: seq<Trade>, address: string)
    requires Canonical(runs, trades, address)
    ensures runs == [] ==> trades == []
    ensures runs != [] ==> runs[|runs| - 1] != []
  {
  }

  /** Whoever cuts the trades into maximal runs and summarises them gets what compression gives. */
  lemma CompressionIsCanonical(runs: seq<seq<Trade>>, trades: seq<Trade>, address: string)
    requires Canonical(runs, trades, address)
    ensures Compress(trades, address) == Summaries(runs, address)
  {
    hide Summary, Canonical;
    CanonicalIsUnique(runs, trades, address);
    CompressSummarises(trades, address);
  }

  /** Trades cut where the order changes, in the trades' own fields. */
  ghost predicate CutByOrder(runs: seq<seq<Trade>>, trades: seq<Trade>, address: string) {
    && Flatten(runs) == trades
    && (forall i :: 0 <= i < |runs| ==> runs[i] != [] && FillsOneOrder(runs[i], address))
    && (forall i :: 0 <= i < |runs| - 1 ==> OrderChanges(runs[i], runs[i + 1], address))
  }

  ghost predicate FillsOneOrder(run: seq<Trade>, address: string) {
    forall j :: 0 <= j < |run| - 1 ==> OneUserOrder(run[j], run[j + 1], address)
  }

  predicate OrderChanges(run: seq<Trade>, next: seq<Trade>, address: string) {
    run != [] && next != [] ==> !OneUserOrder(run[|run| - 1], next[0], address)
  }

  lemma {:induction false} CleanRuns(runs: seq<seq<Trade>>)
    requires AllClean(Flatten(runs))
    ensures forall i :: 0 <= i < |runs| ==> AllClean(runs[i])
  {
    if runs != [] {
      var k := |runs| - 1;
      var all := Flatten(runs);
      assert forall j :: 0 <= j < |Flatten(runs[..k])| ==> Flatten(runs[..k])[j] == all[j];
      assert forall j :: 0 <= j < |runs[k]| ==> runs[k][j] == all[|Flatten(runs[..k])| + j];
      CleanRuns(runs[..k]);
    }
  }

  lemma CleanRun(run: seq<Trade>, address: string)
    requires AllClean(run)
    ensures FillsOneOrder(run, address) <==> OneOrder(run, address)
  {
    hide OneUserOrder, SameOrder;
    forall j | 0 <= j < |run| - 1 ensures OneUserOrder(run[j], run[j + 1], address) <==> SameOrder(run[j], run[j + 1], address) {
      SameOrderExactly(run[j], run[j + 1], address);
    }
  }

  lemma SameOrderExactly(a: Trade, b: Trade, address: string)
    requires AllClean([a, b])
    ensures SameOrder(a, b, address) <==> OneUserOrder(a, b, address)
  {
    MergedExactly(a, b, address);
  }

  lemma CleanChange(run: seq<Trade>, next: seq<Trade>, address: string)
    requires AllClean(run) && AllClean(next)
    ensures OrderChanges(run, next, address) <==> Apart(run, next, address)
  {
    hide OneUserOrder, SameOrder;
    if run != [] && next != [] { SameOrderExactly(run[|run| - 1], next[0], address); }
  }

  /** For well-formed assets the canonical runs are the runs of consecutive fills of one order. */
  lemma CanonicalByOrder(runs: seq<seq<Trade>>, trades: seq<Trade>, address: string)
    requires AllClean(trades)
    ensures CutByOrder(runs, trades, address) <==> Canonical(runs, trades, address)
  {
    hide OneOrder, FillsOneOrder, Apart, OrderChanges;
    if Flatten(runs) == trades {
      CleanRuns(runs);
      hide Flatten;
      forall i | 0 <= i < |runs| ensures FillsOneOrder(runs[i], address) <==> OneOrder(runs[i], address) {
        CleanRun(runs[i], address);
      }
      forall i | 0 <= i < |runs| - 1 ensures OrderChanges(runs[i], runs[i + 1], address) <==> Apart(runs[i], runs[i + 1], address) {
        CleanChange(runs[i], runs[i + 1], address);
      }
    }
  }

  /** One segment for every run of consecutive fills of one order, and a new one wherever the order changes. */
  lemma CompressionByOrder(runs: seq<seq<Trade>>, trades: seq<Trade>, address: string)
    requires AllClean(trades)
    ensures CutByOrder(Runs(trades, address), trades, address)
    ensures CutByOrder(runs, trades, address) ==> Compress(trades, address) == Summaries(runs, address)
  {
    hide Summary, Compress, Summaries, CutByOrder, Canonical, Runs;
    CanonicalByOrder(runs, trades, address);
    CanonicalByOrder(Runs(trades, address), trades, address);
    RunsAreCanonical(trades, address);
    if CutByOrder(runs, trades, address) {
      NonEmptyRuns(runs, trades, address);
      CompressionIsCanonical(runs, trades, address);
    }
  }

  lemma NonEmptyRuns(runs: seq<seq<Trade>>, trades: seq<Trade>, address: string)
    requires CutByOrder(runs, trades, address)
    ensures forall i :: 0 <= i < |runs| ==> runs[i] != []
  {
  }

  /** No two neighbours of a compressed list could still be merged. */
  lemma NeighboursStayApart(trades: seq<Trade>, address: string, i: nat)
    requires i + 1 < |Compress(trades, address)|
    ensures !CanMerge(Compress(trades, address)[i], Compress(trades, address)[i + 1])
  {
    hide Summary, SegmentFromTrade, CanMerge, Compress;
    var runs := Runs(trades, address);
    CompressSummarises(trades, address);
    RunsAreCanonical(trades, address);
    assert Apart(runs[i], runs[i + 1], address);
    SummaryMerges(runs[i], runs[i + 1], address);
  }

  /** In the segments' own fields: no two neighbours are of the same present order, market, side and price. */
  lemma NeighboursDiffer(trades: seq<Trade>, address: string, i: nat)
    requires i + 1 < |Compress(trades, address)|
    ensures var s, t := Compress(trades, address)[i], Compress(trades, address)[i + 1];
      !(s.offer.Some? && s.offer == t.offer && s.pair == t.pair && s.side == t.side && s.price == t.price)
  {
    hide SegmentFromTrade, Compress, Runs;
    CompressSummarises(trades, address);
    NeighboursStayApart(trades, address, i);
  }

  /** Fills in one run of several share market, side, price and a present order. */
  lemma RunIsOneOrder(run: seq<Trade>, address: string, j: nat)
    requires OneOrder(run, address) && 2 <= |run| && j < |run|
    requires forall t :: t in run ==> Clean(t.pair.base) && Clean(t.pair.counter)
    ensures run[j].pair == run[0].pair && run[j].side == run[0].side && run[j].price == run[0].price
    ensures UserOffer(run[0], address).Some? && UserOffer(run[j], address) == UserOffer(run[0], address)
  {
    RunSharesKey(run, address, j);
    RunSharesKey(run, address, 0);
    var a, b := run[0], run[j];
    KeyIdentifies(a.pair, a.side, a.price, UserOffer(a, address), b.pair, b.side, b.price, UserOffer(b, address));
  }

  // ---------- compressing in parts ----------

  /** Two compressed lists end to end, with at most one merge where they meet. */
  function Joined(left: seq<Segment>, right: seq<Segment>): seq<Segment> {
    if left != [] && right != [] && CanMerge(left[|left| - 1], right[0]) then
      left[..|left| - 1] + [Merge(left[|left| - 1], right[0])] + right[1..]
    else
      left + right
  }

  lemma MergeAssociates(a: Segment, b: Segment, c: Segment)
    ensures Merge(Merge(a, b), c) == Merge(a, Merge(b, c))
    ensures CanMerge(a, b) ==> CanMerge(Merge(a, b), c) == CanMerge(b, c)
    ensures CanMerge(b, c) ==> CanMerge(a, Merge(b, c)) == CanMerge(a, b)
  {
    assert (a.raw + b.raw) + c.raw == a.raw + (b.raw + c.raw);
  }

  lemma JoinedAppends(left: seq<Segment>, right: seq<Segment>, s: Segment)
    requires right != []
    ensures Joined(left, Appended(right, s)) == Appended(Joined(left, right), s)
  {
    hide Merge, CanMerge;
    if left != [] {
      if |right| == 1 { JoinedAppendsOne(left, right[0], s); } else { JoinedAppendsMore(left, right, s); }
    }
  }

  lemma JoinedAppendsOne(left: seq<Segment>, b: Segment, s: Segment)
    requires left != []
    ensures Joined(left, Appended([b], s)) == Appended(Joined(left, [b]), s)
  {
    hide Merge, CanMerge;
    MergeAssociates(left[|left| - 1], b, s);
  }

  lemma JoinedAppendsMore(left: seq<Segment>, right: seq<Segment>, s: Segment)
    requires left != [] && 2 <= |right|
    ensures Joined(left, Appended(right, s)) == Appended(Joined(left, right), s)
  {
    hide Merge, CanMerge;
    var n := |right| - 1;
    var joined := Joined(left, right);
    assert joined[|joined| - 1] == right[n];
    if CanMerge(right[n], s) {
      assert Appended(right, s) == right[..n] + [Merge(right[n], s)];
    } else {
      assert Appended(right, s) == right + [s];
    }
  }

  lemma JoinedStarts(left: seq<Segment>, s: Segment)
    ensures Joined(left, [s]) == Appended(left, s)
  {
    hide Merge, CanMerge;
  }

  /** Compressing a list in two parts and joining them is compressing it whole. */
  lemma {:induction false} CompressInParts(xs: seq<Trade>, ys: seq<Trade>, address: string)
    ensures Compress(xs + ys, address) == Joined(Compress(xs, address), Compress(ys, address))
  {
    hide SegmentFromTrade, Merge, CanMerge, Joined, Appended;
    if ys == [] {
      assert xs + ys == xs;
      JoinedNothing(Compress(xs, address));
    } else {
      var n := |ys| - 1;
      var s := SegmentFromTrade(ys[n], address);
      assert (xs + ys)[..|xs + ys| - 1] == xs + ys[..n];
      CompressInParts(xs, ys[..n], address);
      if n == 0 {
        assert Compress(ys[..n], address) == [];
        JoinedNothing(Compress(xs, address));
        AppendedFirst(s);
        JoinedStarts(Compress(xs, address), s);
      } else {
        CompressNonEmpty(ys[..n], address);
        JoinedAppends(Compress(xs, address), Compress(ys[..n], address), s);
      }
    }
  }

  lemma JoinedNothing(left: seq<Segment>)
    ensures Joined(left, []) == left
  {
  }

  lemma AppendedFirst(s: Segment)
    ensures Appended([], s) == [s]
  {
  }

  lemma CompressNonEmpty(trades: seq<Trade>, address: string)
    requires trades != []
    ensures Compress(trades, address) != []
  {
    hide SegmentFromTrade, Merge, CanMerge;
  }

  // ---------- market orientation ----------

  function Opposite(side: Side): Side {
    if side == Buy then Sell else Buy
  }

  function Inverse(price: PriceRatio): PriceRatio {
    PriceRatio(price.d, price.n)
  }

  function Reversed(pair: MarketPair): MarketPair {
    MarketPair(pair.counter, pair.base)
  }

  /** `_side_for_account`. */
  function SideForAccount(trade: Trade, address: string): Side {
    if trade.baseAccount == Some(address) then Sell
    else if trade.counterAccount == Some(address) then Buy
    else trade.side
  }

  /** The side `account_trade_from_horizon` gives a trade record. */
  function SideFromHorizon(
    baseAccount: Option<string>, counterAccount: Option<string>, baseIsSeller: bool, address: string): Side
  {
    if baseAccount == Some(address) then Sell
    else if counterAccount == Some(address) then Buy
    else if baseIsSeller then Sell
    else Buy
  }

  /** `account_trade_for_pair`. */
  function TradeForPair(trade: Trade, pair: MarketPair, address: string): Option<Trade> {
    if trade.pair == pair then
      Some(trade.(side := SideForAccount(trade, address)))
    else if trade.pair.base != pair.counter || trade.pair.counter != pair.base then
      None
    else
      Some(trade.(
        pair := pair,
        baseAmount := trade.counterAmount,
        counterAmount := trade.baseAmount,
        price := Inverse(trade.price),
        side := Opposite(SideForAccount(trade, address)),
        baseAccount := trade.counterAccount,
        counterAccount := trade.baseAccount,
        baseOffer := trade.counterOffer,
        counterOffer := trade.baseOffer))
  }

  /** `account_trade_segment_for_pair`. */
  function SegmentForPair(segment: Segment, pair: MarketPair): Option<Segment> {
    if segment.pair == pair then
      Some(segment)
    else if segment.pair.base != pair.counter || segment.pair.counter != pair.base then
      None
    else
      var side, price := Opposite(segment.side), Inverse(segment.price);
      Some(segment.(
        key := SegmentIdentity(pair, side, price, segment.offer),
        pair := pair,
        side := side,
        baseAmount := segment.counterAmount,
        counterAmount := segment.baseAmount,
        price := price))
  }

  function TradesForPair(trades: seq<Trade>, pair: MarketPair, address: string): seq<Trade> {
    if trades == [] then
      []
    else
      TradesForPair(trades[..|trades| - 1], pair, address)
        + match TradeForPair(trades[|trades| - 1], pair, address) case None => [] case Some(t) => [t]
  }

  function SegmentsForPair(segments: seq<Segment>, pair: MarketPair): seq<Segment> {
    if segments == [] then
      []
    else
      SegmentsForPair(segments[..|segments| - 1], pair)
        + match SegmentForPair(segments[|segments| - 1], pair) case None => [] case Some(s) => [s]
  }

  /** A trade of one market, with its side derived, in which the account is on one end only. */
  predicate Oriented(trade: Trade, pair: MarketPair, address: string) {
    && trade.pair == pair
    && trade.side == SideForAccount(trade, address)
    && !(trade.baseAccount == Some(address) && trade.counterAccount == Some(address))
  }

  /** A segment of one market whose key is the identity of its own fields. */
  predicate WellKeyed(s: Segment, pair: MarketPair) {
    s.pair == pair && s.key == SegmentIdentity(pair, s.side, s.price, s.offer)
  }

  /** Trades read from Horizon carry the side of the account whenever it takes part. */
  lemma HorizonSideIsCanonical(trade: Trade, baseIsSeller: bool, address: string)
    requires trade.side == SideFromHorizon(trade.baseAccount, trade.counterAccount, baseIsSeller, address)
    ensures trade.side == SideForAccount(trade, address)
    ensures trade.baseAccount != Some(address) && trade.counterAccount != Some(address) ==> (trade.side == Sell <==> baseIsSeller)
  {
  }

  /** Records of the market are kept, with the account's own side; of the reversed market they are turned; others are left out. */
  lemma SeenFromMarket(trade: Trade, segment: Segment, pair: MarketPair, address: string)
    ensures TradeForPair(trade, pair, address).Some? <==> trade.pair == pair || trade.pair == MarketPair(pair.counter, pair.base)
    ensures SegmentForPair(segment, pair).Some? <==> segment.pair == pair || segment.pair == MarketPair(pair.counter, pair.base)
    ensures segment.pair == pair ==> SegmentForPair(segment, pair) == Some(segment)
    ensures trade.pair == pair ==>
      var seen := TradeForPair(trade, pair, address).value;
      && seen.(side := trade.side) == trade
      && (trade.baseAccount == Some(address) ==> seen.side == Sell)
      && (trade.baseAccount != Some(address) && trade.counterAccount == Some(address) ==> seen.side == Buy)
      && (trade.baseAccount != Some(address) && trade.counterAccount != Some(address) ==> seen.side == trade.side)
  {
  }

  /** A turned fill has its two ends exchanged, is still counted to the same order, and turned again is itself. */
  lemma FillTurned(trade: Trade, pair: MarketPair, address: string)
    requires pair.base != pair.counter && Oriented(trade, pair, address)
    ensures TradeForPair(trade, Reversed(pair), address).Some?
    ensures var turned := TradeForPair(trade, Reversed(pair), address).value;
      && (turned.pair.base, turned.pair.counter) == (pair.counter, pair.base)
      && (turned.baseAmount, turned.counterAmount) == (trade.counterAmount, trade.baseAmount)
      && (turned.baseAccount, turned.counterAccount) == (trade.counterAccount, trade.baseAccount)
      && (turned.baseOffer, turned.counterOffer) == (trade.counterOffer, trade.baseOffer)
      && (turned.price.n, turned.price.d) == (trade.price.d, trade.price.n) && turned.side != trade.side
      && UserOffer(turned, address) == UserOffer(trade, address)
      && TradeForPair(turned, pair, address) == Some(trade)
  {
  }

  lemma FlippedFill(trade: Trade, pair: MarketPair, address: string)
    requires pair.base != pair.counter && Oriented(trade, pair, address)
    ensures TradeForPair(trade, Reversed(pair), address).Some?
    ensures SegmentForPair(SegmentFromTrade(trade, address), Reversed(pair))
         == Some(SegmentFromTrade(TradeForPair(trade, Reversed(pair), address).value, address))
    ensures WellKeyed(SegmentFromTrade(trade, address), pair)
  {
    hide SegmentIdentity;
  }

  /** Merging and projecting into the other orientation commute. */
  lemma FlippedMerge(a: Segment, b: Segment, pair: MarketPair)
    requires pair.base != pair.counter && WellKeyed(a, pair) && WellKeyed(b, pair)
    ensures var q := Reversed(pair);
      && SegmentForPair(a, q).Some? && SegmentForPair(b, q).Some?
      && CanMerge(SegmentForPair(a, q).value, SegmentForPair(b, q).value) == CanMerge(a, b)
      && SegmentForPair(Merge(a, b), q) == Some(Merge(SegmentForPair(a, q).value, SegmentForPair(b, q).value))
      && WellKeyed(Merge(a, b), pair)
  {
    hide SegmentIdentity;
    SameMarketKey(pair, a.side, a.price, a.offer, b.side, b.price, b.offer);
    SameMarketKey(Reversed(pair), Opposite(a.side), Inverse(a.price), a.offer, Opposite(b.side), Inverse(b.price), b.offer);
  }

  /** A segment seen from the other side and back is the same segment, key included. */
  lemma FlipTwice(s: Segment, pair: MarketPair)
    requires pair.base != pair.counter && WellKeyed(s, pair)
    ensures var flipped := SegmentForPair(s, Reversed(pair));
      flipped.Some? && SegmentForPair(flipped.value, pair) == Some(s)
  {
    hide SegmentIdentity;
  }

  lemma {:induction false} FlippedPrefix(segments: seq<Segment>, pair: MarketPair)
    requires pair.base != pair.counter && forall s :: s in segments ==> WellKeyed(s, pair)
    ensures var flipped := SegmentsForPair(segments, Reversed(pair));
      |flipped| == |segments|
      && forall i :: 0 <= i < |segments| ==> SegmentForPair(segments[i], Reversed(pair)) == Some(flipped[i])
  {
    hide SegmentIdentity;
    if segments != [] {
      var last := segments[|segments| - 1];
      FlippedPrefix(segments[..|segments| - 1], pair);
      FlipTwice(last, pair);
    }
  }

  lemma FlippedAppend(result: seq<Segment>, s: Segment, pair: MarketPair)
    requires pair.base != pair.counter && WellKeyed(s, pair)
    requires forall x :: x in result ==> WellKeyed(x, pair)
    ensures forall x :: x in Appended(result, s) ==> WellKeyed(x, pair)
    ensures SegmentForPair(s, Reversed(pair)).Some?
    ensures SegmentsForPair(Appended(result, s), Reversed(pair))
         == Appended(SegmentsForPair(result, Reversed(pair)), SegmentForPair(s, Reversed(pair)).value)
  {
    hide SegmentForPair, Merge, CanMerge, WellKeyed;
    var q := Reversed(pair);
    FlippedMerge(s, s, pair);
    FlippedPrefix(result, pair);
    if result != [] {
      var last := result[|result| - 1];
      FlippedMerge(last, s, pair);
      if CanMerge(last, s) {
        assert Appended(result, s)[..|result| - 1] == result[..|result| - 1];
      } else {
        assert Appended(result, s)[..|result|] == result;
      }
    }
  }

  /** Compressing in one orientation and projecting is projecting and then compressing. */
  lemma {:induction false} OrientationCommutes(trades: seq<Trade>, pair: MarketPair, address: string)
    requires pair.base != pair.counter
    requires forall t :: t in trades ==> Oriented(t, pair, address)
    ensures Compress(TradesForPair(trades, Reversed(pair), address), address)
         == SegmentsForPair(Compress(trades, address), Reversed(pair))
    ensures forall s :: s in Compress(trades, address) ==> WellKeyed(s, pair)
  {
    hide SegmentForPair, TradeForPair, SegmentFromTrade, Merge, CanMerge, WellKeyed, Oriented, Appended;
    if trades != [] {
      var n := |trades| - 1;
      OrientationCommutes(trades[..n], pair, address);
      FlippedFill(trades[n], pair, address);
      FlippedAppend(Compress(trades[..n], address), SegmentFromTrade(trades[n], address), pair);
      var flipped := TradesForPair(trades[..n], Reversed(pair), address);
      var t := TradeForPair(trades[n], Reversed(pair), address).value;
      assert (flipped + [t])[..|flipped|] == flipped;
    }
  }
}
