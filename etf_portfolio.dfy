/**
 * Look-through decomposition of a portfolio of ETFs (app.py,
 * `calculate_etf_portfolio`): the value of each ETF position is spread over
 * the stocks it holds according to its weight table, contributions to the
 * same stock from different ETFs are merged, and every stock's share of the
 * total portfolio value is reported as a percentage, largest first.
 *
 * Prices, share counts and weights are exact reals. Python dictionaries are
 * sequences of (key, value) pairs in insertion order where their order
 * matters (the ETF positions, each weight table, the accumulated stock
 * values), and a map where only lookup matters (the weight tables by ETF).
 */
module EtfPortfolio {
  import opened Seqs
  import opened StableSort

  /** The `{'price': ..., 'shares': ...}` record of one ETF position. */
  datatype EtfInfo = EtfInfo(price: real, shares: real)

  /** One ETF's `{stock: weight}` table, in insertion order. */
  type WeightTable = seq<(string, real)>

  /** The weight of one entry of a weight table. */
  function Weight(entry: (string, real)): real
  {
    entry.1
  }

  /** An ETF position together with the weight table looked up for it. */
  datatype Holding = Holding(info: EtfInfo, weights: WeightTable)

  datatype Option<T> = None | Some(value: T)

  /** The exceptions `calculate_etf_portfolio` can raise. */
  datatype Error =
    | KeyError(etf: string)   // an ETF of etf_info has no entry in stock_weights
    | ZeroDivisionError       // some stock was accumulated but the portfolio value is 0

  datatype Result<T> = Ok(value: T) | Err(error: Error)

  function EtfValue(info: EtfInfo): real
  {
    info.price * info.shares
  }

  /** Every ETF of etfs has a weight table. */
  predicate AllKnown(etfs: seq<(string, EtfInfo)>, weights: map<string, WeightTable>)
  {
    forall i :: 0 <= i < |etfs| ==> etfs[i].0 in weights
  }

  /** The first ETF, in iteration order, whose weight table is missing. */
  function FirstUnknown(etfs: seq<(string, EtfInfo)>, weights: map<string, WeightTable>): (r: Option<string>)
    ensures r.None? <==> AllKnown(etfs, weights)
    ensures r.Some? ==>
      exists i :: 0 <= i < |etfs| && etfs[i].0 == r.value && r.value !in weights && AllKnown(etfs[..i], weights)
  {
    if etfs == [] then None
    else
      var init := etfs[..|etfs| - 1];
      var last := etfs[|etfs| - 1].0;
      assert forall i :: 0 <= i < |init| ==> init[i] == etfs[i];
      match FirstUnknown(init, weights)
      case Some(n) => Some(n)
      case None => if last in weights then None else assert etfs[..|etfs| - 1] == init; Some(last)
  }

  /** Pairs every ETF position with its weight table `stock_weights[etf]`. */
  function Resolve(etfs: seq<(string, EtfInfo)>, weights: map<string, WeightTable>): (h: seq<Holding>)
    requires AllKnown(etfs, weights)
  {
    if etfs == [] then []
    else
      var init := etfs[..|etfs| - 1];
      assert AllKnown(init, weights) by {
        assert forall i :: 0 <= i < |init| ==> init[i] == etfs[i];
      }
      var last := etfs[|etfs| - 1];
      Resolve(init, weights) + [Holding(last.1, weights[last.0])]
  }

  /** The total value of all positions: `portfolio_value` after the loop. */
  function PortfolioValue(h: seq<Holding>): real
  {
    if h == [] then 0.0 else PortfolioValue(h[..|h| - 1]) + EtfValue(h[|h| - 1].info)
  }

  /** What one ETF of value `value` contributes to `stock` through the entries of table t. */
  function Contribution(value: real, t: WeightTable, stock: string): real
  {
    if t == [] then 0.0
    else
      var (s, w) := t[|t| - 1];
      Contribution(value, t[..|t| - 1], stock) + (if s == stock then value * w else 0.0)
  }

  /** The value held in `stock` across all ETFs: `stock_values[stock]` after the loop. */
  function Exposure(h: seq<Holding>, stock: string): real
  {
    if h == [] then 0.0
    else
      var e := h[|h| - 1];
      Exposure(h[..|h| - 1], stock) + Contribution(EtfValue(e.info), e.weights, stock)
  }

  /** The keys of `order` followed by the stocks of t not yet among them, in first-insertion order. */
  function Merge(order: seq<string>, t: WeightTable): seq<string>
  {
    if t == [] then order
    else
      var o := Merge(order, t[..|t| - 1]);
      var s := t[|t| - 1].0;
      if s in o then o else o + [s]
  }

  /** The keys of `stock_values` after the loop, in insertion order. */
  function StockOrder(h: seq<Holding>): seq<string>
  {
    if h == [] then [] else Merge(StockOrder(h[..|h| - 1]), h[|h| - 1].weights)
  }

  /** Every stock named in some weight table of h. */
  ghost function HeldStocks(h: seq<Holding>): set<string>
  {
    set i, k | 0 <= i < |h| && 0 <= k < |h[i].weights| :: h[i].weights[k].0
  }

  /** The `stock_values` dictionary after the loop. */
  function StockValues(h: seq<Holding>): map<string, real>
  {
    map s | s in StockOrder(h) :: Exposure(h, s)
  }

  /** The `stock_percentages` comprehension: each stock's value over the total, times 100. */
  function Percentages(order: seq<string>, values: map<string, real>, total: real): seq<Entry>
    requires forall s :: s in order ==> s in values
    requires order == [] || total != 0.0
  {
    if order == [] then []
    else [(order[0], values[order[0]] / total * 100.0)] + Percentages(order[1..], values, total)
  }

  /** The whole of `calculate_etf_portfolio` as one expression. */
  function Portfolio(etfs: seq<(string, EtfInfo)>, weights: map<string, WeightTable>): Result<seq<Entry>>
  {
    match FirstUnknown(etfs, weights)
    case Some(etf) => Err(KeyError(etf))
    case None =>
      var h := Resolve(etfs, weights);
      var order := StockOrder(h);
      var total := PortfolioValue(h);
      if order != [] && total == 0.0 then Err(ZeroDivisionError)
      else Ok(SortDescending(Percentages(order, StockValues(h), total)))
  }

  // ---------------------------------------------------------------------
  // The loop of app.py:25-33.

  method CalculateEtfPortfolio(etfInfo: seq<(string, EtfInfo)>, stockWeights: map<string, WeightTable>)
    returns (r: Result<seq<Entry>>)
    ensures r == Portfolio(etfInfo, stockWeights)
  {
    var portfolioValue := 0.0;
    // the dictionary stock_values: its keys in insertion order, and its contents
    var order: seq<string> := [];
    var stockValues: map<string, real> := map[];
    ghost var done: seq<Holding> := [];
    var i := 0;
    while i < |etfInfo|
      invariant 0 <= i <= |etfInfo|
      invariant AllKnown(etfInfo[..i], stockWeights)
      invariant done == Resolve(etfInfo[..i], stockWeights)
      invariant portfolioValue == PortfolioValue(done)
      invariant order == StockOrder(done)
      invariant stockValues == StockValues(done)
    {
      var etf, info := etfInfo[i].0, etfInfo[i].1;
      var etfValue := EtfValue(info);
      portfolioValue := portfolioValue + etfValue;
      if etf !in stockWeights {
        FirstUnknownAt(etfInfo, stockWeights, i);
        return Err(KeyError(etf));
      }
      var table := stockWeights[etf];
      RunningValuesStart(done, etfValue, table);
      var j := 0;
      while j < |table|
        invariant 0 <= j <= |table|
        invariant order == Merge(StockOrder(done), table[..j])
        invariant stockValues == RunningValues(done, etfValue, table[..j])
      {
        var stock, weight := table[j].0, table[j].1;
        ghost var orderBefore, valuesBefore := order, stockValues;
        if stock !in stockValues {
          stockValues := stockValues[stock := 0.0];
          order := order + [stock];
        }
        ghost var inserted := stockValues;
        stockValues := stockValues[stock := stockValues[stock] + etfValue * weight];
        InnerStep(done, etfValue, table, j, stock, weight, orderBefore, valuesBefore, order, inserted, stockValues);
        j := j + 1;
      }
      assert table[..j] == table;
      ResolveStep(etfInfo, stockWeights, i);
      HoldingStep(done, Holding(info, table));
      done := done + [Holding(info, table)];
      i := i + 1;
    }
    assert etfInfo[..i] == etfInfo;
    if order != [] && portfolioValue == 0.0 {
      return Err(ZeroDivisionError);
    }
    var stockPercentages := Percentages(order, stockValues, portfolioValue);
    r := Ok(SortDescending(stockPercentages));
  }

  /** `stock_values` part way through the inner loop: the sums so far, plus what t adds. */
  ghost function RunningValues(done: seq<Holding>, value: real, t: WeightTable): map<string, real>
  {
    map s | s in Merge(StockOrder(done), t) :: Exposure(done, s) + Contribution(value, t, s)
  }

  lemma {:induction false} RunningValuesStart(done: seq<Holding>, value: real, t: WeightTable)
    ensures RunningValues(done, value, t[..0]) == StockValues(done)
  {
    assert t[..0] == [];
  }

  /** One pass of the inner loop body: the entry t[j] extends the key order and one stock's sum. */
  lemma {:induction false} TableStep(order: seq<string>, value: real, t: WeightTable, j: nat, stock: string, weight: real)
    requires j < |t| && t[j] == (stock, weight)
    ensures Merge(order, t[..j + 1]) ==
      (if stock in Merge(order, t[..j]) then Merge(order, t[..j]) else Merge(order, t[..j]) + [stock])
    ensures forall s ::
      Contribution(value, t[..j + 1], s) == Contribution(value, t[..j], s) + (if stock == s then value * weight else 0.0)
  {
    assert t[..j + 1][..j] == t[..j];
  }

  /**
   * One pass of the inner loop body: inserting `stock` at 0 when it is new,
   * then adding `etf_value * weight`, keeps every entry of `stock_values`
   * equal to its running sum and the keys in first-insertion order.
   */
  lemma {:induction false} InnerStep(
    done: seq<Holding>, value: real, t: WeightTable, j: nat, stock: string, weight: real,
    order: seq<string>, values: map<string, real>,
    order': seq<string>, inserted: map<string, real>, values': map<string, real>)
    requires j < |t| && t[j] == (stock, weight)
    requires order == Merge(StockOrder(done), t[..j])
    requires values == RunningValues(done, value, t[..j])
    requires order' == if stock in values then order else order + [stock]
    requires inserted == if stock in values then values else values[stock := 0.0]
    requires values' == inserted[stock := inserted[stock] + value * weight]
    ensures order' == Merge(StockOrder(done), t[..j + 1])
    ensures values' == RunningValues(done, value, t[..j + 1])
  {
    TableStep(StockOrder(done), value, t, j, stock, weight);
    assert inserted[stock] == Exposure(done, stock) + Contribution(value, t[..j], stock) by {
      if stock !in values {
        MergeMembers(StockOrder(done), t[..j]);
        assert stock !in Merge(StockOrder(done), t[..j]);
        ExposureNotInOrder(done, stock);
        ContributionOutside(value, t[..j], stock);
      }
    }
    var target := RunningValues(done, value, t[..j + 1]);
    assert forall s :: s in values' <==> s in order' by {
      assert forall s :: s in values <==> s in order;
    }
    assert forall s :: s in target <==> s in order';
    forall s | s in values'
      ensures values'[s] == target[s]
    {
      if s != stock {
        assert values'[s] == values[s];
      }
    }
  }

  /** Resolving one more ETF appends its holding. */
  lemma {:induction false} ResolveStep(etfs: seq<(string, EtfInfo)>, weights: map<string, WeightTable>, i: nat)
    requires i < |etfs| && AllKnown(etfs[..i], weights) && etfs[i].0 in weights
    ensures AllKnown(etfs[..i + 1], weights)
    ensures Resolve(etfs[..i + 1], weights) == Resolve(etfs[..i], weights) + [Holding(etfs[i].1, weights[etfs[i].0])]
  {
    assert etfs[..i + 1][..i] == etfs[..i];
  }

  /** One pass of the outer loop body: the totals after one more holding. */
  lemma {:induction false} HoldingStep(h: seq<Holding>, e: Holding)
    ensures PortfolioValue(h + [e]) == PortfolioValue(h) + EtfValue(e.info)
    ensures StockOrder(h + [e]) == Merge(StockOrder(h), e.weights)
    ensures StockValues(h + [e]) == RunningValues(h, EtfValue(e.info), e.weights)
  {
    assert (h + [e])[..|h|] == h;
  }

  // ---------------------------------------------------------------------
  // Facts about the specification functions.

  lemma {:induction false} FirstUnknownAt(etfs: seq<(string, EtfInfo)>, weights: map<string, WeightTable>, i: nat)
    requires i < |etfs| && AllKnown(etfs[..i], weights) && etfs[i].0 !in weights
    ensures FirstUnknown(etfs, weights) == Some(etfs[i].0)
  {
    var init := etfs[..|etfs| - 1];
    if i == |etfs| - 1 {
      assert init == etfs[..i];
    } else {
      assert init[..i] == etfs[..i];
      FirstUnknownAt(init, weights, i);
    }
  }

  lemma {:induction false} MergeMembers(order: seq<string>, t: WeightTable)
    ensures forall s :: s in Merge(order, t) <==> s in order || exists k :: 0 <= k < |t| && t[k].0 == s
    ensures Distinct(order) ==> Distinct(Merge(order, t))
  {
    if t != [] {
      var init := t[..|t| - 1];
      MergeMembers(order, init);
      assert forall k :: 0 <= k < |init| ==> init[k] == t[k];
    }
  }

  /** The stocks of StockOrder(h) are the held stocks, each listed once. */
  lemma {:induction false} StockOrderMembers(h: seq<Holding>)
    ensures forall s :: s in StockOrder(h) <==> s in HeldStocks(h)
    ensures Distinct(StockOrder(h))
  {
    if h != [] {
      var init := h[..|h| - 1];
      var t := h[|h| - 1].weights;
      StockOrderMembers(init);
      MergeMembers(StockOrder(init), t);
      forall s
        ensures s in HeldStocks(h) <==> s in HeldStocks(init) || exists k :: 0 <= k < |t| && t[k].0 == s
      {
        if s in HeldStocks(h) {
          var i, k :| 0 <= i < |h| && 0 <= k < |h[i].weights| && h[i].weights[k].0 == s;
          if i < |h| - 1 {
            assert init[i].weights[k].0 == s;
          }
        }
        if s in HeldStocks(init) {
          var i, k :| 0 <= i < |init| && 0 <= k < |init[i].weights| && init[i].weights[k].0 == s;
          assert h[i].weights[k].0 == s;
        }
        if exists k :: 0 <= k < |t| && t[k].0 == s {
          var k :| 0 <= k < |t| && t[k].0 == s;
          assert h[|h| - 1].weights[k].0 == s;
        }
      }
    }
  }

  lemma {:induction false} ContributionOutside(value: real, t: WeightTable, stock: string)
    requires forall k :: 0 <= k < |t| ==> t[k].0 != stock
    ensures Contribution(value, t, stock) == 0.0
  {
    if t != [] {
      var init := t[..|t| - 1];
      assert forall k :: 0 <= k < |init| ==> init[k] == t[k];
      ContributionOutside(value, init, stock);
    }
  }

  /** When t names each stock once, a stock's contribution is the ETF value times its one weight. */
  lemma {:induction false} ContributionAt(value: real, t: WeightTable, k: nat)
    requires DistinctKeys(t) && k < |t|
    ensures Contribution(value, t, t[k].0) == value * t[k].1
  {
    var init := t[..|t| - 1];
    assert forall i :: 0 <= i < |init| ==> init[i] == t[i];
    if k == |t| - 1 {
      ContributionOutside(value, init, t[k].0);
    } else {
      ContributionAt(value, init, k);
    }
  }

  lemma {:induction false} ExposureSnoc(h: seq<Holding>, e: Holding, stock: string)
    ensures Exposure(h + [e], stock) == Exposure(h, stock) + Contribution(EtfValue(e.info), e.weights, stock)
  {
    assert (h + [e])[..|h|] == h;
  }

  /** A stock that no weight table names has no value. */
  lemma {:induction false} ExposureNotInOrder(h: seq<Holding>, stock: string)
    requires stock !in StockOrder(h)
    ensures Exposure(h, stock) == 0.0
  {
    StockOrderMembers(h);
    ExposureOutside(h, stock);
  }

  lemma {:induction false} ExposureOutside(h: seq<Holding>, stock: string)
    requires stock !in HeldStocks(h)
    ensures Exposure(h, stock) == 0.0
  {
    if h != [] {
      var init := h[..|h| - 1];
      var t := h[|h| - 1].weights;
      forall k | 0 <= k < |t|
        ensures t[k].0 != stock
      {
        assert h[|h| - 1].weights[k].0 == t[k].0;
      }
      ContributionOutside(EtfValue(h[|h| - 1].info), t, stock);
      forall i, k | 0 <= i < |init| && 0 <= k < |init[i].weights|
        ensures init[i].weights[k].0 != stock
      {
        assert init[i] == h[i];
      }
      ExposureOutside(init, stock);
    }
  }

  lemma {:induction false} PercentagesAt(order: seq<string>, values: map<string, real>, total: real, i: nat)
    requires forall s :: s in order ==> s in values
    requires order == [] || total != 0.0
    requires i < |order|
    ensures |Percentages(order, values, total)| == |order|
    ensures Percentages(order, values, total)[i] == (order[i], values[order[i]] / total * 100.0)
  {
    if i > 0 {
      PercentagesAt(order[1..], values, total, i - 1);
    } else if |order| > 1 {
      PercentagesAt(order[1..], values, total, 0);
    }
  }

  lemma {:induction false} PercentagesLength(order: seq<string>, values: map<string, real>, total: real)
    requires forall s :: s in order ==> s in values
    requires order == [] || total != 0.0
    ensures |Percentages(order, values, total)| == |order|
  {
    if order != [] {
      PercentagesLength(order[1..], values, total);
    }
  }

  /** The entries of the comprehension: one per stock of `order`, each its value's share of the total. */
  lemma {:induction false} PercentagesEntries(order: seq<string>, values: map<string, real>, total: real)
    requires forall s :: s in order ==> s in values
    requires order == [] || total != 0.0
    ensures var p := Percentages(order, values, total);
      |p| == |order| && forall i :: 0 <= i < |p| ==> p[i] == (order[i], values[order[i]] / total * 100.0)
  {
    PercentagesLength(order, values, total);
    forall i | 0 <= i < |order|
      ensures Percentages(order, values, total)[i] == (order[i], values[order[i]] / total * 100.0)
    {
      PercentagesAt(order, values, total, i);
    }
  }

  // ---------------------------------------------------------------------
  // What calculate_etf_portfolio promises.

  /**
   * The outcome: a KeyError names the first ETF without a weight table; a
   * ZeroDivisionError happens exactly when every ETF is known, some stock
   * is held and the portfolio is worth 0; otherwise the call succeeds.
   */
  lemma {:induction false} PortfolioOutcome(etfs: seq<(string, EtfInfo)>, weights: map<string, WeightTable>)
    ensures Portfolio(etfs, weights).Ok? <==>
      AllKnown(etfs, weights) &&
      (HeldStocks(Resolve(etfs, weights)) == {} || PortfolioValue(Resolve(etfs, weights)) != 0.0)
    ensures Portfolio(etfs, weights) == Err(ZeroDivisionError) <==>
      AllKnown(etfs, weights) &&
      HeldStocks(Resolve(etfs, weights)) != {} && PortfolioValue(Resolve(etfs, weights)) == 0.0
    ensures forall i :: 0 <= i < |etfs| && AllKnown(etfs[..i], weights) && etfs[i].0 !in weights ==>
      Portfolio(etfs, weights) == Err(KeyError(etfs[i].0))
  {
    if AllKnown(etfs, weights) {
      var h := Resolve(etfs, weights);
      StockOrderMembers(h);
      assert StockOrder(h) == [] <==> HeldStocks(h) == {} by {
        if StockOrder(h) != [] {
          assert StockOrder(h)[0] in HeldStocks(h);
        }
        if HeldStocks(h) != {} {
          var s :| s in HeldStocks(h);
          assert s in StockOrder(h);
        }
      }
    }
    forall i | 0 <= i < |etfs| && AllKnown(etfs[..i], weights) && etfs[i].0 !in weights
      ensures Portfolio(etfs, weights) == Err(KeyError(etfs[i].0))
    {
      FirstUnknownAt(etfs, weights, i);
    }
  }

  /**
   * A successful result lists every held stock exactly once and nothing
   * else, and gives each its merged value over the total portfolio value,
   * times 100.
   */
  lemma {:induction false} PortfolioEntries(etfs: seq<(string, EtfInfo)>, weights: map<string, WeightTable>)
    requires Portfolio(etfs, weights).Ok?
    ensures AllKnown(etfs, weights)
    ensures var r, h := Portfolio(etfs, weights).value, Resolve(etfs, weights);
      && Names(r) == HeldStocks(h)
      && DistinctKeys(r)
      && forall i :: 0 <= i < |r| ==> r[i].1 == Exposure(h, r[i].0) / PortfolioValue(h) * 100.0
  {
    var h := Resolve(etfs, weights);
    var order, values, total := StockOrder(h), StockValues(h), PortfolioValue(h);
    var p := Percentages(order, values, total);
    var r := SortDescending(p);
    assert Portfolio(etfs, weights).value == r;
    StockOrderMembers(h);
    PercentagesFacts(order, values, total);
    SortDescendingNames(p);
    SortDescendingPermutes(p);
    assert Names(p) == HeldStocks(h);
    forall i | 0 <= i < |r|
      ensures r[i].1 == Exposure(h, r[i].0) / total * 100.0
    {
      assert r[i] in multiset(p);
    }
  }

  /** The comprehension's entries carry the stocks of `order`, each with its share of the total. */
  lemma {:induction false} PercentagesFacts(order: seq<string>, values: map<string, real>, total: real)
    requires forall s :: s in order ==> s in values
    requires order == [] || total != 0.0
    ensures forall s :: s in Names(Percentages(order, values, total)) <==> s in order
    ensures Distinct(order) ==> DistinctKeys(Percentages(order, values, total))
    ensures forall e :: e in Percentages(order, values, total) ==> e.0 in values && e.1 == values[e.0] / total * 100.0
  {
    var p := Percentages(order, values, total);
    PercentagesEntries(order, values, total);
    forall s | s in order ensures s in Names(p) {
      var k :| 0 <= k < |order| && order[k] == s;
      assert p[k] in p;
    }
    forall e | e in p ensures e.0 in order && e.1 == values[e.0] / total * 100.0 {
      var k :| 0 <= k < |p| && p[k] == e;
    }
  }

  /**
   * A successful result is the comprehension's entries sorted by percentage,
   * largest first, by a stable sort: a rearrangement of those entries in
   * which stocks with equal percentages keep the order in which they were
   * first inserted into `stock_values`.
   */
  lemma {:induction false} PortfolioOrder(etfs: seq<(string, EtfInfo)>, weights: map<string, WeightTable>)
    requires Portfolio(etfs, weights).Ok?
    ensures AllKnown(etfs, weights)
    ensures var r, h := Portfolio(etfs, weights).value, Resolve(etfs, weights);
      && NonIncreasing(r)
      && multiset(r) == multiset(Percentages(StockOrder(h), StockValues(h), PortfolioValue(h)))
      && forall i, j :: 0 <= i < j < |r| && r[i].1 == r[j].1 ==>
           exists a, b :: 0 <= a < b < |StockOrder(h)| && StockOrder(h)[a] == r[i].0 && StockOrder(h)[b] == r[j].0
  {
    var h := Resolve(etfs, weights);
    var order, values, total := StockOrder(h), StockValues(h), PortfolioValue(h);
    var p := Percentages(order, values, total);
    var r := SortDescending(p);
    assert Portfolio(etfs, weights).value == r;
    SortDescendingIsStable(p);
    PercentagesEntries(order, values, total);
    forall i, j | 0 <= i < j < |r| && r[i].1 == r[j].1
      ensures exists a, b :: 0 <= a < b < |order| && order[a] == r[i].0 && order[b] == r[j].0
    {
      StableKeepsInputOrder(r, p, i, j);
      var a, b :| 0 <= a < b < |p| && p[a] == r[i] && p[b] == r[j];
      assert order[a] == r[i].0 && order[b] == r[j].0;
    }
  }

  // ---------------------------------------------------------------------
  // Full weight tables account for the whole portfolio.

  /** The sum of the weights in table t. */
  function TableSum(t: WeightTable): real
  {
    Sum(t, Weight)
  }

  /** Over a list of distinct stocks that includes every stock of t, t's contributions add up to value times its weights. */
  lemma {:induction false} ContributionSum(value: real, t: WeightTable, order: seq<string>)
    requires Distinct(order)
    requires forall k :: 0 <= k < |t| ==> t[k].0 in order
    ensures Sum(order, s => Contribution(value, t, s)) == value * TableSum(t)
  {
    if t == [] {
      SumZero(order, s => Contribution(value, t, s));
    } else {
      var init, k, w := t[..|t| - 1], t[|t| - 1].0, t[|t| - 1].1;
      assert t == init + [(k, w)];
      ContributionSum(value, init, order) by {
        forall i | 0 <= i < |init| ensures init[i].0 in order {
          assert init[i] == t[i];
        }
      }
      var whole := s => Contribution(value, t, s);
      var before := s => Contribution(value, init, s);
      var point := s => if s == k then value * w else 0.0;
      assert Sum(order, whole) == Sum(order, before) + Sum(order, point) by {
        forall s ensures whole(s) == before(s) + point(s) {
          ContributionSnoc(value, init, k, w, s);
        }
        SumAdd(order, before, point, whole);
      }
      assert Sum(order, point) == value * w by {
        SumPoint(order, k, point);
      }
      assert TableSum(t) == TableSum(init) + w by {
        SumSnoc(init, (k, w), Weight);
      }
      assert value * TableSum(t) == value * TableSum(init) + value * w;
    }
  }

  lemma {:induction false} ContributionSnoc(value: real, t: WeightTable, k: string, w: real, s: string)
    ensures Contribution(value, t + [(k, w)], s) == Contribution(value, t, s) + (if s == k then value * w else 0.0)
  {
    assert (t + [(k, w)])[..|t|] == t;
  }

  lemma {:induction false} HeldStocksPrefix(h: seq<Holding>)
    requires h != []
    ensures HeldStocks(h[..|h| - 1]) <= HeldStocks(h)
    ensures var t := h[|h| - 1].weights; forall k :: 0 <= k < |t| ==> t[k].0 in HeldStocks(h)
  {
    var init := h[..|h| - 1];
    forall s | s in HeldStocks(init) ensures s in HeldStocks(h) {
      var i, k :| 0 <= i < |init| && 0 <= k < |init[i].weights| && init[i].weights[k].0 == s;
      assert h[i].weights[k].0 == s;
    }
  }

  /** Every ETF's weight table sums to 1, so the ETF's value is fully spread over its stocks. */
  predicate FullyWeighted(h: seq<Holding>)
  {
    forall i :: 0 <= i < |h| ==> TableSum(h[i].weights) == 1.0
  }

  /**
   * When every weight table sums to 1, the merged stock values, summed over
   * all held stocks, give back the total portfolio value.
   */
  lemma {:induction false} ExposureSum(h: seq<Holding>, order: seq<string>)
    requires Distinct(order)
    requires forall s :: s in HeldStocks(h) ==> s in order
    requires FullyWeighted(h)
    ensures Sum(order, s => Exposure(h, s)) == PortfolioValue(h)
  {
    if h == [] {
      SumZero(order, s => Exposure(h, s));
    } else {
      var init, e := h[..|h| - 1], h[|h| - 1];
      HeldStocksPrefix(h);
      ExposureSum(init, order);
      ContributionSum(EtfValue(e.info), e.weights, order);
      SumAdd(order, s => Exposure(init, s), s => Contribution(EtfValue(e.info), e.weights, s), s => Exposure(h, s));
    }
  }

  /** The comprehension's percentages add up to the values' sum over the total, times 100. */
  lemma {:induction false} PercentagesSum(order: seq<string>, values: map<string, real>, total: real, f: string -> real)
    requires forall s :: s in order ==> s in values && values[s] == f(s)
    requires total != 0.0
    ensures Sum(Percentages(order, values, total), Value) == Sum(order, f) / total * 100.0
  {
    if order != [] {
      var rest := Percentages(order[1..], values, total);
      PercentagesSum(order[1..], values, total, f);
      assert ([(order[0], values[order[0]] / total * 100.0)] + rest)[1..] == rest;
      assert f(order[0]) / total * 100.0 + Sum(order[1..], f) / total * 100.0 == (f(order[0]) + Sum(order[1..], f)) / total * 100.0;
    }
  }

  /**
   * When every ETF's weights sum to 1 and the portfolio is worth something,
   * the call succeeds and its percentages sum to 100.
   */
  lemma {:induction false} PercentagesSumTo100(etfs: seq<(string, EtfInfo)>, weights: map<string, WeightTable>)
    requires AllKnown(etfs, weights)
    requires forall i :: 0 <= i < |etfs| ==> TableSum(weights[etfs[i].0]) == 1.0
    requires PortfolioValue(Resolve(etfs, weights)) != 0.0
    ensures Portfolio(etfs, weights).Ok?
    ensures Sum(Portfolio(etfs, weights).value, Value) == 100.0
  {
    var h := Resolve(etfs, weights);
    assert FullyWeighted(h) by {
      ResolveAt(etfs, weights);
      forall i | 0 <= i < |h| ensures TableSum(h[i].weights) == 1.0 {
        assert h[i].weights == weights[etfs[i].0];
      }
    }
    assert Portfolio(etfs, weights) == Ok(SortDescending(Percentages(StockOrder(h), StockValues(h), PortfolioValue(h))));
    HoldingsSumTo100(h);
  }

  lemma {:induction false} HoldingsSumTo100(h: seq<Holding>)
    requires FullyWeighted(h)
    requires PortfolioValue(h) != 0.0
    ensures Sum(SortDescending(Percentages(StockOrder(h), StockValues(h), PortfolioValue(h))), Value) == 100.0
  {
    var order, values, total := StockOrder(h), StockValues(h), PortfolioValue(h);
    var p := Percentages(order, values, total);
    StockOrderMembers(h);
    var exposure := s => Exposure(h, s);
    assert Sum(order, exposure) == total by {
      ExposureSum(h, order);
    }
    assert Sum(p, Value) == Sum(order, exposure) / total * 100.0 by {
      PercentagesSum(order, values, total, exposure);
    }
    SortDescendingSum(p, Value);
    assert total / total * 100.0 == 100.0;
  }

  /** portfolio_value is the sum of price * shares over every position of etf_info. */
  lemma {:induction false} PortfolioValueIsSum(etfs: seq<(string, EtfInfo)>, weights: map<string, WeightTable>)
    requires AllKnown(etfs, weights)
    ensures PortfolioValue(Resolve(etfs, weights)) == Sum(etfs, (p: (string, EtfInfo)) => EtfValue(p.1))
  {
    if etfs != [] {
      var init, last := etfs[..|etfs| - 1], etfs[|etfs| - 1];
      assert AllKnown(init, weights) by {
        assert forall i :: 0 <= i < |init| ==> init[i] == etfs[i];
      }
      var h, e := Resolve(init, weights), Holding(last.1, weights[last.0]);
      var value := (p: (string, EtfInfo)) => EtfValue(p.1);
      assert PortfolioValue(Resolve(etfs, weights)) == PortfolioValue(h) + EtfValue(last.1) by {
        assert Resolve(etfs, weights) == h + [e];
        HoldingStep(h, e);
      }
      assert Sum(etfs, value) == Sum(init, value) + EtfValue(last.1) by {
        assert etfs == init + [last];
        SumSnoc(init, last, value);
      }
      PortfolioValueIsSum(init, weights);
    }
  }

  /** A stock's merged value is the sum, over every holding, of what that holding's table gives it. */
  lemma {:induction false} ExposureIsSum(h: seq<Holding>, stock: string)
    ensures Exposure(h, stock) == Sum(h, (e: Holding) => Contribution(EtfValue(e.info), e.weights, stock))
  {
    if h != [] {
      var init, last := h[..|h| - 1], h[|h| - 1];
      ExposureIsSum(init, stock);
      assert h == init + [last];
      SumSnoc(init, last, (e: Holding) => Contribution(EtfValue(e.info), e.weights, stock));
    }
  }

  lemma {:induction false} ResolveAt(etfs: seq<(string, EtfInfo)>, weights: map<string, WeightTable>)
    requires AllKnown(etfs, weights)
    ensures |Resolve(etfs, weights)| == |etfs|
    ensures forall i :: 0 <= i < |etfs| ==> Resolve(etfs, weights)[i] == Holding(etfs[i].1, weights[etfs[i].0])
  {
    if etfs != [] {
      var init := etfs[..|etfs| - 1];
      assert forall i :: 0 <= i < |init| ==> init[i] == etfs[i];
      ResolveAt(init, weights);
    }
  }
}
