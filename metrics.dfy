/** The per-symbol metric calculation: the body of the loop at
    app.py:367-421, lifted out of `main_app` as a function of one symbol's
    rows and its optional reference record. Prices and open interest are
    real numbers; floating-point rounding and NaN are not modelled. */
module Metrics {
  import opened Wrappers

  /** One observation: time, mark price and open interest. */
  datatype Row = Row(time: int, price: real, oi: real)

  /** The reference record of a symbol (`supply_data[sym]`). A field is
      `None` when the table holds no usable value for it. */
  datatype Reference = Reference(circulatingSupply: Option<real>, marketCap: Option<real>)

  /** The values the loop body derives for one symbol. */
  datatype SymbolMetrics = SymbolMetrics(
    minOi: real,
    currentOi: real,
    growthTokens: real,
    growthUsd: real,
    intensity: real,
    marketCap: real)

  /** Which rule of the fallback ladder decided the intensity. */
  datatype Tier = MarketCapTier | SupplyTier | OiProxyTier | NoTier

  /** The down-weighting factor of the open-interest proxy tier. */
  const OiProxyFactor: real := 0.1

  /** A reference field is used only when it is there and positive: the
      source tests the field's truthiness and then `> 0`, so an absent field
      and a field equal to 0 are treated alike. */
  predicate Usable(field: Option<real>)
  {
    field.Some? && field.value > 0.0
  }

  /** The smallest open interest of a non-empty series (`df['oi'].min()`). */
  function MinOi(rows: seq<Row>): (m: real)
    requires |rows| > 0
    ensures forall i :: 0 <= i < |rows| ==> m <= rows[i].oi
    ensures exists i :: 0 <= i < |rows| && m == rows[i].oi
  {
    if |rows| == 1 then rows[0].oi
    else
      var rest := MinOi(rows[1..]);
      if rows[0].oi <= rest then rows[0].oi else rest
  }

  /** The tier that the if/elif/else at app.py:393-407 selects: the first
      whose condition holds. */
  function SelectTier(reference: Option<Reference>, minOi: real): Tier
  {
    if reference.Some? && Usable(reference.value.marketCap) then MarketCapTier
    else if reference.Some? && Usable(reference.value.circulatingSupply) then SupplyTier
    else if minOi > 0.0 then OiProxyTier
    else NoTier
  }

  lemma SignOfProduct(a: real, b: real)
    requires a >= 0.0
    ensures b >= 0.0 ==> a * b >= 0.0
    ensures a == 0.0 ==> a * b == 0.0
  {
  }

  lemma SignOfRatio(a: real, b: real)
    requires b > 0.0
    ensures a >= 0.0 ==> a / b >= 0.0
    ensures a == 0.0 ==> a / b == 0.0
  {
  }

  /** The intensity and the reported market cap that the selected tier
      gives (app.py:389-407). */
  function Ladder(reference: Option<Reference>, minOi: real, growthTokens: real, growthUsd: real): (r: (real, real))
    ensures growthTokens >= 0.0 && growthUsd >= 0.0 ==> r.0 >= 0.0
    ensures growthTokens == 0.0 && growthUsd == 0.0 ==> r.0 == 0.0
    ensures r.1 >= 0.0 && (r.1 > 0.0 <==> SelectTier(reference, minOi) == MarketCapTier)
  {
    match SelectTier(reference, minOi)
    case MarketCapTier => (
      var cap := reference.value.marketCap.value;
      SignOfRatio(growthUsd, cap);
      (growthUsd / cap, cap))
    case SupplyTier => (
      var supply := reference.value.circulatingSupply.value;
      SignOfRatio(growthTokens, supply);
      (growthTokens / supply, 0.0))
    case OiProxyTier => (
      SignOfRatio(growthTokens, minOi);
      ((growthTokens / minOi) * OiProxyFactor, 0.0))
    case NoTier =>
      (0.0, 0.0)
  }

  /** The metrics of one symbol's series (app.py:373-407). */
  function Compute(rows: seq<Row>, reference: Option<Reference>): (m: SymbolMetrics)
    requires |rows| > 0
    ensures forall i :: 0 <= i < |rows| ==> m.minOi <= rows[i].oi
    ensures exists i :: 0 <= i < |rows| && m.minOi == rows[i].oi
    ensures m.currentOi == rows[|rows| - 1].oi
    ensures m.growthTokens == m.currentOi - m.minOi >= 0.0
    ensures m.growthUsd == m.growthTokens * rows[|rows| - 1].price
    ensures rows[|rows| - 1].price >= 0.0 ==> m.growthUsd >= 0.0 && m.intensity >= 0.0
    ensures m.growthTokens == 0.0 ==> m.intensity == 0.0
    ensures m.marketCap >= 0.0
    ensures m.marketCap > 0.0 <==> SelectTier(reference, m.minOi) == MarketCapTier
  {
    var last := rows[|rows| - 1];
    var currentPrice := last.price;
    var minOi := MinOi(rows);
    var currentOi := last.oi;
    var growthTokens := currentOi - minOi;
    var growthUsd := growthTokens * currentPrice;
    SignOfProduct(growthTokens, currentPrice);
    var ladder := Ladder(reference, minOi, growthTokens, growthUsd);
    SymbolMetrics(minOi, currentOi, growthTokens, growthUsd, ladder.0, ladder.1)
  }
}

/** Properties of the intensity ladder. */
module MetricsLemmas {
  import opened Wrappers
  import opened Metrics

  /** The ladder, rule by rule: market cap first, circulating supply second,
      the down-weighted open-interest proxy third, and 0 when even the
      proxy's denominator is not positive. Only the first rule reports a
      market cap. */
  lemma IntensityLadder(rows: seq<Row>, reference: Option<Reference>)
    requires |rows| > 0
    ensures var m := Compute(rows, reference);
      && (reference.Some? && Usable(reference.value.marketCap) ==>
            m.intensity == m.growthUsd / reference.value.marketCap.value
            && m.marketCap == reference.value.marketCap.value)
      && (reference.Some? && !Usable(reference.value.marketCap) && Usable(reference.value.circulatingSupply) ==>
            m.intensity == m.growthTokens / reference.value.circulatingSupply.value && m.marketCap == 0.0)
      && ((reference.None? || (!Usable(reference.value.marketCap) && !Usable(reference.value.circulatingSupply))) ==>
            m.marketCap == 0.0
            && m.intensity == if m.minOi > 0.0 then (m.growthTokens / m.minOi) * OiProxyFactor else 0.0)
  {
  }

  /** A field that is present but not positive counts as absent, and a
      record with neither field counts as no record at all. */
  lemma NonPositiveIsAbsent(rows: seq<Row>, supply: Option<real>, cap: Option<real>)
    requires |rows| > 0
    ensures !Usable(cap) ==> Compute(rows, Some(Reference(supply, cap))) == Compute(rows, Some(Reference(supply, None)))
    ensures !Usable(supply) ==> Compute(rows, Some(Reference(supply, cap))) == Compute(rows, Some(Reference(None, cap)))
    ensures Compute(rows, Some(Reference(None, None))) == Compute(rows, None)
  {
  }

  /** The first two rules agree whenever the market cap is the circulating
      supply valued at the price the growth is valued at: both measure growth
      against the token's size, once in dollars and once in tokens. */
  lemma CapAndSupplyAgree(minOi: real, tokens: real, price: real, supply: real)
    requires supply > 0.0 && price > 0.0
    ensures Ladder(Some(Reference(Some(supply), Some(supply * price))), minOi, tokens, tokens * price).0
      == Ladder(Some(Reference(Some(supply), None)), minOi, tokens, tokens * price).0
  {
    var cap := supply * price;
    assert cap > 0.0 by { SignOfProduct(supply, price); assert cap != 0.0; }
    RatioCancels(tokens, price, supply);
  }

  /** Scaling numerator and denominator by the same positive factor keeps a ratio. */
  lemma RatioCancels(t: real, p: real, s: real)
    requires p > 0.0 && s > 0.0
    ensures (t * p) / (s * p) == t / s
  {
    var q := t / s;
    assert q * s == t;
    assert q * (s * p) == t * p;
  }

  /** The worked case: prices 10, 12, 11, open interest 100, 150, 140 and a
      market cap of 1000 give growth of 40 tokens, 440 dollars and an
      intensity of 0.44. */
  lemma WorkedExample()
    ensures var rows := [Row(1, 10.0, 100.0), Row(2, 12.0, 150.0), Row(3, 11.0, 140.0)];
      var m := Compute(rows, Some(Reference(None, Some(1000.0))));
      m.minOi == 100.0 && m.growthTokens == 40.0 && m.growthUsd == 440.0
      && m.intensity == 0.44 && m.marketCap == 1000.0
  {
  }

  /** Without a reference record and with a zero minimum, no rule divides
      and the intensity is 0. */
  lemma ZeroMinimumWithoutReference()
    ensures var rows := [Row(1, 5.0, 0.0), Row(2, 6.0, 30.0)];
      Compute(rows, None).intensity == 0.0
  {
  }
}
