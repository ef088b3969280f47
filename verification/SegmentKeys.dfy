/** The text key that says which fills belong to one user order (trade_segments.py). */
module SegmentKeys {
  import opened Models
  import opened PriceRatios

  function Digit(k: nat): char
    requires k < 10
  {
    '0' + (k as char)
  }

  /** The decimal text of a number. */
  function Digits(n: nat): (s: string)
    ensures s != []
  {
    if n < 10 then [Digit(n)] else Digits(n / 10) + [Digit(n % 10)]
  }

  lemma {:induction false} DigitsAreDigits(n: nat)
    ensures forall c :: c in Digits(n) ==> '0' <= c <= '9'
  {
    if 10 <= n { DigitsAreDigits(n / 10); }
  }

  lemma {:induction false} DigitsInjective(m: nat, n: nat)
    requires Digits(m) == Digits(n)
    ensures m == n
  {
    var a, b := Digits(m), Digits(n);
    assert a[|a| - 1] == Digit(m % 10) && b[|b| - 1] == Digit(n % 10);
    if 10 <= m && 10 <= n {
      assert a[..|a| - 1] == Digits(m / 10) && b[..|b| - 1] == Digits(n / 10);
      DigitsInjective(m / 10, n / 10);
    }
  }

  function AssetKey(asset: Asset): string {
    match asset
    case Native => "XLM"
    case Credit(code, issuer) => code + ":" + issuer
  }

  function SideText(side: Side): string {
    if side == Buy then "buy" else "sell"
  }

  function RatioText(price: PriceRatio): string {
    Digits(price.n) + ":" + Digits(price.d)
  }

  function OfferText(offer: Option<string>): string {
    match offer
    case None => ""
    case Some(id) => id
  }

  /** The part of the key that does not depend on the assets. */
  function OrderKey(side: Side, price: PriceRatio, offer: Option<string>): string {
    SideText(side) + "|" + (RatioText(price) + "|" + OfferText(offer))
  }

  /** `_segment_identity`: the five parts joined with bars. */
  function SegmentIdentity(pair: MarketPair, side: Side, price: PriceRatio, offer: Option<string>): string {
    AssetKey(pair.base) + "|" + (AssetKey(pair.counter) + "|" + OrderKey(side, price, offer))
  }

  /** The key in full: both assets, the side, the price and the order, with bars between them. */
  lemma KeyText(pair: MarketPair, side: Side, price: PriceRatio, offer: Option<string>)
    ensures SegmentIdentity(pair, side, price, offer) ==
      (if pair.base.Native? then "XLM" else pair.base.code + ":" + pair.base.issuer) + "|"
      + ((if pair.counter.Native? then "XLM" else pair.counter.code + ":" + pair.counter.issuer) + "|"
      + ((match side case Buy => "buy" case Sell => "sell") + "|"
      + (Digits(price.n) + ":" + Digits(price.d) + "|"
      + match offer case None => "" case Some(id) => id)))
  {
    hide Digits;
  }

  /** Stellar codes and addresses are alphanumeric; only the separators matter here. */
  predicate Clean(asset: Asset) {
    asset.Credit? ==> '|' !in asset.code && '|' !in asset.issuer && ':' !in asset.code
  }

  /** Text up to the first separator is determined by the whole. */
  lemma SplitUnique(a: string, x: string, b: string, y: string, c: char)
    requires c !in a && c !in b
    requires a + [c] + x == b + [c] + y
    ensures a == b && x == y
  {
    var s := a + [c] + x;
    assert s[|a|] == c && s[|b|] == c;
    assert forall k :: 0 <= k < |a| ==> s[k] == a[k] && a[k] in a;
    assert forall k :: 0 <= k < |b| ==> s[k] == b[k] && b[k] in b;
    assert a == s[..|a|] && b == s[..|b|];
    assert x == s[|a| + 1..] && y == s[|b| + 1..];
  }

  lemma AssetKeyInjective(a: Asset, b: Asset)
    requires Clean(a) && Clean(b)
    ensures '|' !in AssetKey(a)
    ensures AssetKey(a) == AssetKey(b) ==> a == b
  {
    if a.Credit? { assert AssetKey(a)[|a.code|] == ':'; }
    if b.Credit? { assert AssetKey(b)[|b.code|] == ':'; }
    if AssetKey(a) == AssetKey(b) && a.Credit? && b.Credit? {
      SplitUnique(a.code, a.issuer, b.code, b.issuer, ':');
    }
  }

  lemma RatioTextInjective(p: PriceRatio, q: PriceRatio)
    ensures '|' !in RatioText(p)
    ensures RatioText(p) == RatioText(q) ==> p == q
  {
    DigitsAreDigits(p.n);
    DigitsAreDigits(p.d);
    DigitsAreDigits(q.n);
    if RatioText(p) == RatioText(q) {
      SplitUnique(Digits(p.n), Digits(p.d), Digits(q.n), Digits(q.d), ':');
      DigitsInjective(p.n, q.n);
      DigitsInjective(p.d, q.d);
    }
  }

  lemma OrderKeyIdentifies(s: Side, p: PriceRatio, o: Option<string>, s': Side, p': PriceRatio, o': Option<string>)
    ensures OrderKey(s, p, o) == OrderKey(s', p', o') <==> s == s' && p == p' && OfferText(o) == OfferText(o')
  {
    if OrderKey(s, p, o) == OrderKey(s', p', o') {
      var rest, rest' := RatioText(p) + "|" + OfferText(o), RatioText(p') + "|" + OfferText(o');
      SplitUnique(SideText(s), rest, SideText(s'), rest', '|');
      assert SideText(s)[0] == SideText(s')[0];
      RatioTextInjective(p, p');
      RatioTextInjective(p', p);
      SplitUnique(RatioText(p), OfferText(o), RatioText(p'), OfferText(o'), '|');
    }
  }

  /** Within one market the key identifies side, price and order, whatever the assets are called. */
  lemma SameMarketKey(
    pair: MarketPair, s: Side, p: PriceRatio, o: Option<string>, s': Side, p': PriceRatio, o': Option<string>)
    ensures SegmentIdentity(pair, s, p, o) == SegmentIdentity(pair, s', p', o')
       <==> s == s' && p == p' && OfferText(o) == OfferText(o')
  {
    var head := AssetKey(pair.base) + "|" + (AssetKey(pair.counter) + "|");
    var k, k' := SegmentIdentity(pair, s, p, o), SegmentIdentity(pair, s', p', o');
    assert k == head + OrderKey(s, p, o) && k' == head + OrderKey(s', p', o');
    assert k[|head|..] == OrderKey(s, p, o) && k'[|head|..] == OrderKey(s', p', o');
    OrderKeyIdentifies(s, p, o, s', p', o');
  }

  /** Across markets of well-formed assets it identifies the market as well. */
  lemma KeyIdentifies(
    m: MarketPair, s: Side, p: PriceRatio, o: Option<string>, m': MarketPair, s': Side, p': PriceRatio, o': Option<string>)
    requires Clean(m.base) && Clean(m.counter) && Clean(m'.base) && Clean(m'.counter)
    ensures SegmentIdentity(m, s, p, o) == SegmentIdentity(m', s', p', o')
       <==> m == m' && s == s' && p == p' && OfferText(o) == OfferText(o')
  {
    if SegmentIdentity(m, s, p, o) == SegmentIdentity(m', s', p', o') {
      AssetKeyInjective(m.base, m'.base);
      AssetKeyInjective(m'.base, m.base);
      AssetKeyInjective(m.counter, m'.counter);
      AssetKeyInjective(m'.counter, m.counter);
      var rest, rest' := AssetKey(m.counter) + "|" + OrderKey(s, p, o), AssetKey(m'.counter) + "|" + OrderKey(s', p', o');
      SplitUnique(AssetKey(m.base), rest, AssetKey(m'.base), rest', '|');
      SplitUnique(AssetKey(m.counter), OrderKey(s, p, o), AssetKey(m'.counter), OrderKey(s', p', o'), '|');
      OrderKeyIdentifies(s, p, o, s', p', o');
    }
  }
}
