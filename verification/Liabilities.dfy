/**
 * The two liabilities of a resting offer: the `exchangeV10` rounding rules of the Stellar
 * ledger as CAP-0003 uses them (offer_service.py). Wheat is the asset the offer sells,
 * sheep the one it buys, and a price n/d is sheep per wheat.
 */
module Liabilities {
  import opened Models
  import opened Arithmetic
  import opened PriceRatios

  /** What an offer owes: `selling` of the asset it sells, room for `buying` of the other. */
  datatype Owed = Owed(selling: nat, buying: nat)

  /** `_ceil_div` for the operands it is called on. */
  function CeilDiv(a: nat, b: pos): nat {
    (a + b - 1) / b
  }

  lemma CeilDivBounds(a: nat, b: pos)
    ensures CeilDiv(a, b) * b - b < a <= CeilDiv(a, b) * b
  {
    DivIsLargest(a + b - 1, b, 0);
  }

  /** `amount` converted at n/d, in the favour of whoever hands it over. */
  function ConvertDown(amount: nat, n: pos, d: pos): nat {
    amount * n / d
  }

  /** `amount` converted at n/d, in the favour of whoever receives the result. */
  function ConvertUp(amount: nat, n: pos, d: pos): nat {
    CeilDiv(amount * n, d)
  }

  function WheatValue(n: pos, d: pos, maxWheatSend: nat, maxSheepReceive: nat): nat {
    Min(maxWheatSend * n, maxSheepReceive * d)
  }

  function SheepValue(n: pos, d: pos): nat {
    Min(INT64_MAX * d, INT64_MAX * n)
  }

  predicate WheatStays(n: pos, d: pos, maxWheatSend: nat, maxSheepReceive: nat) {
    SheepValue(n, d) < WheatValue(n, d, maxWheatSend, maxSheepReceive)
  }

  /** `_exchange_v10_normal_liabilities` on the inputs it does not refuse. */
  function Exchange(n: pos, d: pos, maxWheatSend: nat, maxSheepReceive: nat): Owed {
    var wheatValue := WheatValue(n, d, maxWheatSend, maxSheepReceive);
    var sheepValue := SheepValue(n, d);
    if wheatValue > sheepValue then
      if n > d then
        var wheatReceive := sheepValue / n;
        Owed(wheatReceive, ConvertUp(wheatReceive, n, d))
      else
        var sheepSend := sheepValue / d;
        Owed(ConvertDown(sheepSend, d, n), sheepSend)
    else if n > d then
      var wheatReceive := wheatValue / n;
      Owed(wheatReceive, ConvertDown(wheatReceive, n, d))
    else
      var sheepSend := wheatValue / d;
      Owed(ConvertUp(sheepSend, d, n), sheepSend)
  }

  /** `_exchange_v10_normal_liabilities` with its refusal of non-positive prices and negative limits. */
  function CheckedExchange(n: int, d: int, maxWheatSend: int, maxSheepReceive: int): (r: Result<Owed>)
    ensures r.Success? <==> 0 < n && 0 < d && 0 <= maxWheatSend && 0 <= maxSheepReceive
    ensures r.Success? ==> r.value.selling <= INT64_MAX && r.value.buying <= INT64_MAX
    ensures r.Failure? ==> r.error == TransactionRefused
  {
    if n <= 0 || d <= 0 || maxWheatSend < 0 || maxSheepReceive < 0 then
      Failure(TransactionRefused)
    else
      LiabilitiesFitInt64(n, d, maxWheatSend, maxSheepReceive);
      Success(Exchange(n, d, maxWheatSend, maxSheepReceive))
  }

  /** `_offer_liabilities`: a buy is the mirror image of a sell at the inverted price. */
  function OfferLiabilities(side: Side, amount: nat, price: PriceRatio): Owed {
    match side
    case Sell => Exchange(price.n, price.d, amount, INT64_MAX)
    case Buy => Exchange(price.d, price.n, INT64_MAX, amount)
  }

  /**
   * What the rounding promises: the side rounded first is as large as the two limits allow,
   * and the other is the nearest amount that does not favour the taker.
   */
  ghost predicate MeetsLimits(n: pos, d: pos, maxWheatSend: nat, maxSheepReceive: nat, o: Owed) {
    && o.selling <= maxWheatSend && o.buying <= maxSheepReceive
    && 0 <= o.selling * n - o.buying * d < Min(n, d)
    && (n > d ==> forall w: nat ::
          w <= o.selling <==> w * n <= maxWheatSend * n && w * n <= maxSheepReceive * d)
    && (n <= d ==> forall s: nat ::
          s <= o.buying <==> s * d <= maxWheatSend * n && s * d <= maxSheepReceive * d)
  }

  lemma Int64LimitsNeverStay(n: pos, d: pos, maxWheatSend: nat, maxSheepReceive: nat)
    requires maxWheatSend <= INT64_MAX && maxSheepReceive <= INT64_MAX
    ensures !WheatStays(n, d, maxWheatSend, maxSheepReceive)
  {
    MulMonotone(maxWheatSend, INT64_MAX, n);
    MulMonotone(maxSheepReceive, INT64_MAX, d);
  }

  lemma CancelFactor(a: int, b: int, c: int)
    requires 0 < c && a * c <= b * c
    ensures a <= b
  {
    if b + 1 <= a { MulMonotone(b + 1, a, c); }
  }

  lemma SmallMultiple(a: int, b: int, c: int)
    requires 0 < c && a * c < b * c + c
    ensures a <= b
  {
    assert a * c < (b + 1) * c;
    if b + 1 <= a { MulMonotone(b + 1, a, c); }
  }

  /** Below the int64 ceiling the rounding keeps its promise. */
  lemma ExchangeMeetsLimits(n: pos, d: pos, maxWheatSend: nat, maxSheepReceive: nat)
    requires !WheatStays(n, d, maxWheatSend, maxSheepReceive)
    ensures MeetsLimits(n, d, maxWheatSend, maxSheepReceive, Exchange(n, d, maxWheatSend, maxSheepReceive))
  {
    var v := WheatValue(n, d, maxWheatSend, maxSheepReceive);
    var o := Exchange(n, d, maxWheatSend, maxSheepReceive);
    var w, s := o.selling, o.buying;
    if n > d {
      DivIsLargest(v, n, w);
      DivIsLargest(w * n, d, s);
      CancelFactor(w, maxWheatSend, n);
      CancelFactor(s, maxSheepReceive, d);
      forall x: nat ensures x <= w <==> x * n <= maxWheatSend * n && x * n <= maxSheepReceive * d {
        DivIsLargest(v, n, x);
      }
    } else {
      DivIsLargest(v, d, s);
      CeilDivBounds(s * d, n);
      CancelFactor(s, maxSheepReceive, d);
      SmallMultiple(w, maxWheatSend, n);
      forall x: nat ensures x <= s <==> x * d <= maxWheatSend * n && x * d <= maxSheepReceive * d {
        DivIsLargest(v, d, x);
      }
    }
  }

  /** The promise leaves no choice: it is met by one pair of liabilities only. */
  lemma LimitsDetermineLiabilities(n: pos, d: pos, maxWheatSend: nat, maxSheepReceive: nat, o: Owed)
    requires !WheatStays(n, d, maxWheatSend, maxSheepReceive)
    ensures MeetsLimits(n, d, maxWheatSend, maxSheepReceive, o)
       <==> o == Exchange(n, d, maxWheatSend, maxSheepReceive)
  {
    var e := Exchange(n, d, maxWheatSend, maxSheepReceive);
    ExchangeMeetsLimits(n, d, maxWheatSend, maxSheepReceive);
    if MeetsLimits(n, d, maxWheatSend, maxSheepReceive, o) {
      if n > d {
        assert e.selling <= o.selling <= e.selling;
        SmallMultiple(o.buying, e.buying, d);
        SmallMultiple(e.buying, o.buying, d);
      } else {
        assert e.buying <= o.buying <= e.buying;
        SmallMultiple(o.selling, e.selling, n);
        SmallMultiple(e.selling, o.selling, n);
      }
    }
  }

  /** Whatever the limits, both liabilities fit int64 and owe no more than the ledger can count. */
  lemma LiabilitiesFitInt64(n: pos, d: pos, maxWheatSend: nat, maxSheepReceive: nat)
    ensures var o := Exchange(n, d, maxWheatSend, maxSheepReceive);
      o.selling <= INT64_MAX && o.buying <= INT64_MAX && (n > d ==> o.selling * n <= INT64_MAX * d)
  {
    var v := WheatValue(n, d, maxWheatSend, maxSheepReceive);
    var x := Min(v, SheepValue(n, d));
    var o := Exchange(n, d, maxWheatSend, maxSheepReceive);
    var w, s := o.selling, o.buying;
    if n > d {
      DivIsLargest(x, n, w);
      DivIsLargest(w * n, d, s);
      CeilDivBounds(w * n, d);
      CancelFactor(w, INT64_MAX, n);
      SmallMultiple(s, INT64_MAX, d);
    } else {
      DivIsLargest(x, d, s);
      DivIsLargest(s * d, n, w);
      CeilDivBounds(s * d, n);
      CancelFactor(s, INT64_MAX, d);
      SmallMultiple(w, INT64_MAX, n);
    }
  }

  lemma MultiplesUpTo(a: nat, c: pos, bound: nat)
    requires a * c <= bound < a * c + c
    ensures forall x: nat :: x <= a <==> x * c <= bound
  {
    forall x: nat ensures x <= a <==> x * c <= bound {
      if x <= a { MulMonotone(x, a, c); } else { MulMonotone(a + 1, x, c); }
    }
  }

  /** A pair that already balances at the price is a fixed point of the sell form. */
  lemma BalancedPairRests(n: pos, d: pos, o: Owed)
    requires o.selling <= INT64_MAX && o.buying <= INT64_MAX
    requires n > d ==> o.selling * n <= INT64_MAX * d
    requires 0 <= o.selling * n - o.buying * d < Min(n, d)
    ensures Exchange(n, d, o.selling, INT64_MAX) == o
  {
    hide Exchange, WheatStays;
    Int64LimitsNeverStay(n, d, o.selling, INT64_MAX);
    LimitsDetermineLiabilities(n, d, o.selling, INT64_MAX, o);
    if n > d {
      MultiplesUpTo(o.selling, n, o.selling * n);
    } else {
      MulMonotone(o.buying, INT64_MAX, d);
      MultiplesUpTo(o.buying, d, o.selling * n);
      forall s: nat | s <= o.buying ensures s * d <= INT64_MAX * d {
        MulMonotone(s, INT64_MAX, d);
      }
    }
  }

  /** Under the ceiling branch nothing has to be rounded a second time; a matter of the price alone. */
  predicate CeilingExact(n: pos, d: pos) {
    if n > d then (INT64_MAX * d / n * n) % d == 0 else (INT64_MAX * n / d * d) % n == 0
  }

  /** The ceiling branch gives the same pair whatever the limits. */
  lemma CeilingResult(n: pos, d: pos, maxWheatSend: nat, maxSheepReceive: nat)
    requires WheatStays(n, d, maxWheatSend, maxSheepReceive)
    ensures var o := Exchange(n, d, maxWheatSend, maxSheepReceive);
      && (n > d ==> o.selling == INT64_MAX * d / n && o.buying == CeilDiv(o.selling * n, d))
      && (n <= d ==> o.buying == INT64_MAX * n / d && o.selling == o.buying * d / n)
  {
    if n > d { MulMonotone(d, n, INT64_MAX); } else { MulMonotone(n, d, INT64_MAX); }
  }

  lemma DividedEvenly(a: nat, b: pos)
    ensures a / b * b == a <==> a % b == 0
    ensures CeilDiv(a, b) * b == a <==> a % b == 0
    ensures a % b == 0 ==> CeilDiv(a, b) == a / b
    ensures a % b != 0 ==> CeilDiv(a, b) == a / b + 1
  {
    var q, r := a / b, a % b;
    assert a == q * b + r;
    CeilDivBounds(a, b);
    DivIsLargest(a + b - 1, b, q);
    DivIsLargest(a + b - 1, b, q + 1);
    DivIsLargest(a + b - 1, b, q + 2);
  }

  /** The ceiling pair balances at the price exactly when it was exact. */
  lemma CeilingBalances(n: pos, d: pos, maxWheatSend: nat, maxSheepReceive: nat)
    requires WheatStays(n, d, maxWheatSend, maxSheepReceive)
    ensures var o := Exchange(n, d, maxWheatSend, maxSheepReceive);
      o.selling * n == o.buying * d <==> CeilingExact(n, d)
  {
    hide Exchange, WheatStays, CeilDiv;
    var o := Exchange(n, d, maxWheatSend, maxSheepReceive);
    CeilingResult(n, d, maxWheatSend, maxSheepReceive);
    if n > d { DividedEvenly(o.selling * n, d); } else { DividedEvenly(o.buying * d, n); }
  }

  /** A ceiling pair that does not balance owes less than it takes in, which no sell form does. */
  lemma UnbalancedCeiling(n: pos, d: pos, maxWheatSend: nat, maxSheepReceive: nat)
    requires WheatStays(n, d, maxWheatSend, maxSheepReceive)
    ensures var o := Exchange(n, d, maxWheatSend, maxSheepReceive); o.selling * n <= o.buying * d
  {
    hide Exchange, WheatStays;
    var o := Exchange(n, d, maxWheatSend, maxSheepReceive);
    CeilingResult(n, d, maxWheatSend, maxSheepReceive);
    CeilDivBounds(o.selling * n, d);
    if n <= d { DivIsLargest(o.buying * d, n, o.selling); }
  }

  /**
   * Recomputing the liabilities from the amount an offer sells gives them back exactly when
   * the ceiling branch was not taken or the price leaves nothing to round in it.
   */
  lemma SellFormIsFixedPoint(n: pos, d: pos, maxWheatSend: nat, maxSheepReceive: nat)
    ensures var o := Exchange(n, d, maxWheatSend, maxSheepReceive);
      Exchange(n, d, o.selling, INT64_MAX) == o
      <==> !WheatStays(n, d, maxWheatSend, maxSheepReceive) || CeilingExact(n, d)
  {
    hide CeilingExact, Exchange, WheatStays;
    var o := Exchange(n, d, maxWheatSend, maxSheepReceive);
    LiabilitiesFitInt64(n, d, maxWheatSend, maxSheepReceive);
    if !WheatStays(n, d, maxWheatSend, maxSheepReceive) {
      ExchangeMeetsLimits(n, d, maxWheatSend, maxSheepReceive);
      BalancedPairRests(n, d, o);
    } else {
      CeilingBalances(n, d, maxWheatSend, maxSheepReceive);
      if o.selling * n == o.buying * d {
        BalancedPairRests(n, d, o);
      } else {
        UnbalancedCeiling(n, d, maxWheatSend, maxSheepReceive);
        Int64LimitsNeverStay(n, d, o.selling, INT64_MAX);
        ExchangeMeetsLimits(n, d, o.selling, INT64_MAX);
      }
    }
  }

  /** At 3/5 the ceiling pair is not its own sell form. */
  lemma CeilingNotFixed()
    ensures var o := Exchange(3, 5, INT64_MAX + 1, INT64_MAX);
      Exchange(3, 5, o.selling, INT64_MAX) != o
  {
  }

  /** The price the ledger stores: an offer always rests as a sell. */
  function StoredPrice(side: Side, price: PriceRatio): PriceRatio {
    match side
    case Sell => price
    case Buy => PriceRatio(price.d, price.n)
  }

  /**
   * An offer rests as a sell of its selling liability; the update path, which always reads
   * the stored sell form, recomputes exactly the liabilities of the intent that made it.
   */
  lemma StoredOfferAgrees(side: Side, amount: nat, price: PriceRatio)
    requires amount <= INT64_MAX
    ensures var o := OfferLiabilities(side, amount, price);
      OfferLiabilities(Sell, o.selling, StoredPrice(side, price)) == o
  {
    match side
    case Sell =>
      Int64LimitsNeverStay(price.n, price.d, amount, INT64_MAX);
      SellFormIsFixedPoint(price.n, price.d, amount, INT64_MAX);
    case Buy =>
      Int64LimitsNeverStay(price.d, price.n, INT64_MAX, amount);
      SellFormIsFixedPoint(price.d, price.n, INT64_MAX, amount);
  }

  lemma CeilDivMonotone(a: nat, b: nat, c: pos)
    requires a <= b
    ensures CeilDiv(a, c) <= CeilDiv(b, c)
  {
    CeilDivBounds(a, c);
    CeilDivBounds(b, c);
    SmallMultiple(CeilDiv(a, c), CeilDiv(b, c), c);
  }

  lemma DivMonotone(a: nat, b: nat, c: pos)
    requires a <= b
    ensures a / c <= b / c
  {
    DivIsLargest(a, c, a / c);
    DivIsLargest(b, c, a / c);
  }

  lemma ExchangeMonotone(n: pos, d: pos, w: nat, w': nat, s: nat, s': nat)
    requires w <= w' && s <= s' && !WheatStays(n, d, w, s) && !WheatStays(n, d, w', s')
    ensures Exchange(n, d, w, s).selling <= Exchange(n, d, w', s').selling
    ensures Exchange(n, d, w, s).buying <= Exchange(n, d, w', s').buying
  {
    MulMonotone(w, w', n);
    MulMonotone(s, s', d);
    var o, o' := Exchange(n, d, w, s), Exchange(n, d, w', s');
    if n > d {
      DivMonotone(WheatValue(n, d, w, s), WheatValue(n, d, w', s'), n);
      MulMonotone(o.selling, o'.selling, n);
      DivMonotone(o.selling * n, o'.selling * n, d);
    } else {
      DivMonotone(WheatValue(n, d, w, s), WheatValue(n, d, w', s'), d);
      MulMonotone(o.buying, o'.buying, d);
      CeilDivMonotone(o.buying * d, o'.buying * d, n);
    }
  }

  /** Asking for less never owes more, on either side of the book. */
  lemma LiabilitiesMonotone(side: Side, amount: nat, amount': nat, price: PriceRatio)
    requires amount <= amount' <= INT64_MAX
    ensures OwesNoMore(side, amount, amount', price)
  {
    hide Exchange, WheatStays;
    NeverStaysInInt64(side, amount, price);
    NeverStaysInInt64(side, amount', price);
    MonotoneBelowCeiling(side, amount, amount', price);
  }

  predicate OwesNoMore(side: Side, amount: nat, amount': nat, price: PriceRatio) {
    && OfferLiabilities(side, amount, price).selling <= OfferLiabilities(side, amount', price).selling
    && OfferLiabilities(side, amount, price).buying <= OfferLiabilities(side, amount', price).buying
  }

  /** The ceiling branch is taken for an offer of this amount. */
  predicate OfferStays(side: Side, amount: nat, price: PriceRatio) {
    match side
    case Sell => WheatStays(price.n, price.d, amount, INT64_MAX)
    case Buy => WheatStays(price.d, price.n, INT64_MAX, amount)
  }

  lemma MonotoneBelowCeiling(side: Side, amount: nat, amount': nat, price: PriceRatio)
    requires amount <= amount' && !OfferStays(side, amount, price) && !OfferStays(side, amount', price)
    ensures OwesNoMore(side, amount, amount', price)
  {
    hide Exchange, WheatStays;
    match side
    case Sell => ExchangeMonotone(price.n, price.d, amount, amount', INT64_MAX, INT64_MAX);
    case Buy => ExchangeMonotone(price.d, price.n, INT64_MAX, INT64_MAX, amount, amount');
  }

  lemma NeverStaysInInt64(side: Side, amount: nat, price: PriceRatio)
    requires amount <= INT64_MAX
    ensures !OfferStays(side, amount, price)
  {
    hide WheatStays;
    match side
    case Sell => Int64LimitsNeverStay(price.n, price.d, amount, INT64_MAX);
    case Buy => Int64LimitsNeverStay(price.d, price.n, INT64_MAX, amount);
  }

  /** An offer meets the ceiling exactly past int64, and only where the limited side is the cheaper one. */
  lemma StaysPastInt64(side: Side, amount: nat, price: PriceRatio)
    ensures OfferStays(side, amount, price) <==> price.n < price.d && INT64_MAX < amount
  {
    var n, d := price.n, price.d;
    if n <= d { MulMonotone(n, d, INT64_MAX); } else { MulMonotone(d, n, INT64_MAX); }
    if n < d { MulMonotone(n + 1, d, INT64_MAX); }
    if amount <= INT64_MAX {
      NeverStaysInInt64(side, amount, price);
    } else {
      MulMonotone(INT64_MAX + 1, amount, n);
    }
  }

  /** For this price, asking for less never owes more, however large the amounts. */
  ghost predicate MonotoneInAmount(side: Side, price: PriceRatio) {
    forall a: nat, b: nat :: a <= b ==> OwesNoMore(side, a, b, price)
  }

  /** What lies past int64 against INT64_MAX itself: the same quotient, rounded the other way. */
  lemma PastInt64(side: Side, amount: nat, price: PriceRatio)
    requires price.n < price.d && INT64_MAX < amount
    ensures var top, past := OfferLiabilities(side, INT64_MAX, price), OfferLiabilities(side, amount, price);
      match side
      case Buy =>
        && past.selling == top.selling
        && past.buying == top.buying + if CeilingExact(price.n, price.d) then 0 else 1
      case Sell =>
        && past.buying == top.buying
        && past.selling == top.selling - if CeilingExact(price.n, price.d) then 0 else 1
  {
    hide WheatStays, OwesNoMore;
    var n, d := price.n, price.d;
    StaysPastInt64(side, amount, price);
    NeverStaysInInt64(side, INT64_MAX, price);
    MulMonotone(n, d, INT64_MAX);
    match side
    case Sell =>
      CeilingResult(n, d, amount, INT64_MAX);
      DividedEvenly(INT64_MAX * n / d * d, n);
    case Buy =>
      CeilingResult(d, n, INT64_MAX, amount);
      DividedEvenly(INT64_MAX * n / d * d, n);
  }

  /**
   * Over all amounts, past int64 too, buys are monotone at every price; sells are at prices
   * of one and above, and below one exactly where the ceiling rounds nothing.
   */
  lemma MonotoneExactly(side: Side, price: PriceRatio)
    ensures MonotoneInAmount(side, price) <==> side == Buy || price.n >= price.d || CeilingExact(price.n, price.d)
  {
    hide OfferLiabilities, OfferStays, CeilingExact;
    var fine := side == Buy || price.n >= price.d || CeilingExact(price.n, price.d);
    if fine {
      forall a: nat, b: nat | a <= b ensures OwesNoMore(side, a, b, price) {
        StaysPastInt64(side, a, price);
        StaysPastInt64(side, b, price);
        if !OfferStays(side, b, price) {
          MonotoneBelowCeiling(side, a, b, price);
        } else {
          PastInt64(side, b, price);
          if OfferStays(side, a, price) { SameCeiling(side, a, b, price); }
          else { LiabilitiesMonotone(side, a, INT64_MAX, price); }
        }
      }
    } else {
      PastInt64(side, INT64_MAX + 1, price);
      assert !OwesNoMore(side, INT64_MAX, INT64_MAX + 1, price);
    }
  }

  lemma SameCeiling(side: Side, a: nat, b: nat, price: PriceRatio)
    requires OfferStays(side, a, price) && OfferStays(side, b, price)
    ensures OfferLiabilities(side, a, price) == OfferLiabilities(side, b, price)
  {
    hide Exchange, WheatStays;
    match side
    case Sell => { CeilingResult(price.n, price.d, a, INT64_MAX); CeilingResult(price.n, price.d, b, INT64_MAX); }
    case Buy => { CeilingResult(price.d, price.n, INT64_MAX, a); CeilingResult(price.d, price.n, INT64_MAX, b); }
  }

  /** The sell form breaks at 3/5: one stroop more than INT64_MAX owes one stroop less. */
  lemma NotMonotonePastInt64()
    ensures OfferLiabilities(Sell, INT64_MAX, PriceRatio(3, 5)).selling == INT64_MAX
    ensures OfferLiabilities(Sell, INT64_MAX + 1, PriceRatio(3, 5)).selling == INT64_MAX - 1
    ensures !MonotoneInAmount(Sell, PriceRatio(3, 5))
  {
    MonotoneExactly(Sell, PriceRatio(3, 5));
  }

  /**
   * What an offer owes, from the amount asked for: a sell hands over at most the amount, a buy
   * takes in at most the amount, and of all pairs that meet the rounding promise under that
   * limit it owes the only one. Where the amount is past int64 at a price below one, see `PastInt64`.
   */
  lemma OfferMeetsRequest(side: Side, amount: nat, price: PriceRatio)
    requires amount <= INT64_MAX || price.d <= price.n
    ensures match side
      case Sell => forall o :: MeetsLimits(price.n, price.d, amount, INT64_MAX, o) <==> o == OfferLiabilities(side, amount, price)
      case Buy => forall o :: MeetsLimits(price.d, price.n, INT64_MAX, amount, o) <==> o == OfferLiabilities(side, amount, price)
  {
    hide MeetsLimits, Exchange, WheatStays;
    StaysPastInt64(side, amount, price);
    match side
    case Sell =>
      forall o ensures MeetsLimits(price.n, price.d, amount, INT64_MAX, o) <==> o == OfferLiabilities(side, amount, price) {
        LimitsDetermineLiabilities(price.n, price.d, amount, INT64_MAX, o);
      }
    case Buy =>
      forall o ensures MeetsLimits(price.d, price.n, INT64_MAX, amount, o) <==> o == OfferLiabilities(side, amount, price) {
        LimitsDetermineLiabilities(price.d, price.n, INT64_MAX, amount, o);
      }
  }

  /** Nothing is sold exactly when nothing is bought. */
  lemma NothingForNothing(side: Side, amount: nat, price: PriceRatio)
    requires amount <= INT64_MAX
    ensures var o := OfferLiabilities(side, amount, price); o.selling == 0 <==> o.buying == 0
  {
    var n, d := StoredPrice(side, price).n, StoredPrice(side, price).d;
    var w, s := if side == Sell then amount else INT64_MAX, if side == Sell then INT64_MAX else amount;
    Int64LimitsNeverStay(n, d, w, s);
    ExchangeMeetsLimits(n, d, w, s);
    var o := Exchange(n, d, w, s);
    if o.selling == 0 && 1 <= o.buying { MulMonotone(1, o.buying, d); }
    if o.buying == 0 && 1 <= o.selling { MulMonotone(1, o.selling, n); }
  }
}
