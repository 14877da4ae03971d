/** The example call at the end of app.py, and its outcome. */
module EtfExample {
  import opened StableSort
  import opened EtfPortfolio

  const EtfInfoExample: seq<(string, EtfInfo)> :=
    [("ETF One", EtfInfo(50.0, 2.0)), ("ETF Two", EtfInfo(100.0, 1.0))]

  const TableOne: WeightTable := [("AAPL", 0.8), ("MSFT", 0.2)]
  const TableTwo: WeightTable := [("AAPL", 0.25), ("MSFT", 0.25), ("TSLA", 0.25), ("AMZN", 0.25)]

  const StockWeightsExample: map<string, WeightTable> := map["ETF One" := TableOne, "ETF Two" := TableTwo]

  /**
   * Both positions are worth 100; AAPL holds 80 + 25 of the 200, MSFT 20 + 25,
   * TSLA and AMZN 25 each. TSLA and AMZN tie and keep their insertion order.
   */
  lemma {:induction false} ExampleResult()
    ensures Portfolio(EtfInfoExample, StockWeightsExample) ==
      Ok([("AAPL", 52.5), ("MSFT", 22.5), ("TSLA", 12.5), ("AMZN", 12.5)])
  {
    var a, b := Holding(EtfInfo(50.0, 2.0), TableOne), Holding(EtfInfo(100.0, 1.0), TableTwo);
    ExampleHoldings(a, b);
    ExampleValues(a, b);
    ExamplePercentages(["AAPL", "MSFT", "TSLA", "AMZN"], map["AAPL" := 105.0, "MSFT" := 45.0, "TSLA" := 25.0, "AMZN" := 25.0]);
  }

  /** A third position whose ETF has no weight table stops the call with a KeyError naming it. */
  lemma {:induction false} ExampleMissingTable()
    ensures Portfolio(EtfInfoExample + [("ETF Three", EtfInfo(10.0, 1.0))], StockWeightsExample) ==
      Err(KeyError("ETF Three"))
  {
    var etfs := EtfInfoExample + [("ETF Three", EtfInfo(10.0, 1.0))];
    assert etfs[..2] == EtfInfoExample;
    ExampleHoldings(Holding(EtfInfo(50.0, 2.0), TableOne), Holding(EtfInfo(100.0, 1.0), TableTwo));
    FirstUnknownAt(etfs, StockWeightsExample, 2);
  }

  /** Both ETFs have weight tables; the positions are worth 100 each. */
  lemma {:induction false} ExampleHoldings(a: Holding, b: Holding)
    requires a == Holding(EtfInfo(50.0, 2.0), TableOne)
    requires b == Holding(EtfInfo(100.0, 1.0), TableTwo)
    ensures FirstUnknown(EtfInfoExample, StockWeightsExample) == None
    ensures AllKnown(EtfInfoExample, StockWeightsExample)
    ensures Resolve(EtfInfoExample, StockWeightsExample) == [a, b]
    ensures PortfolioValue([a, b]) == 200.0
  {
    var etfs, weights := EtfInfoExample, StockWeightsExample;
    assert FirstUnknown(etfs, weights) == None;
    assert Resolve(etfs, weights) == [a, b] by {
      assert etfs[..1][..0] == [];
      assert Resolve(etfs[..1], weights) == [a];
    }
    assert PortfolioValue([a, b]) == 200.0 by {
      assert [a, b][..1] == [a] && [a][..0] == [];
      assert PortfolioValue([a]) == 100.0;
    }
  }

  /** stock_values after the loop: the keys in insertion order, and the merged values. */
  lemma {:induction false} ExampleValues(a: Holding, b: Holding)
    requires a == Holding(EtfInfo(50.0, 2.0), TableOne)
    requires b == Holding(EtfInfo(100.0, 1.0), TableTwo)
    ensures StockOrder([a, b]) == ["AAPL", "MSFT", "TSLA", "AMZN"]
    ensures StockValues([a, b]) == map["AAPL" := 105.0, "MSFT" := 45.0, "TSLA" := 25.0, "AMZN" := 25.0]
  {
    ExampleOrder(a, b);
    ExampleExposure(a, b);
  }

  lemma {:induction false} ExamplePercentages(order: seq<string>, values: map<string, real>)
    requires order == ["AAPL", "MSFT", "TSLA", "AMZN"]
    requires values == map["AAPL" := 105.0, "MSFT" := 45.0, "TSLA" := 25.0, "AMZN" := 25.0]
    ensures SortDescending(Percentages(order, values, 200.0)) ==
      [("AAPL", 52.5), ("MSFT", 22.5), ("TSLA", 12.5), ("AMZN", 12.5)]
  {
    var p := [("AAPL", 52.5), ("MSFT", 22.5), ("TSLA", 12.5), ("AMZN", 12.5)];
    assert Percentages(order, values, 200.0) == p by {
      var q := Percentages(order, values, 200.0);
      PercentagesEntries(order, values, 200.0);
      assert q[0] == p[0] && q[1] == p[1] && q[2] == p[2] && q[3] == p[3];
    }
    assert NonIncreasing(p) by {
      forall i, j | 0 <= i < j < |p| ensures p[i].1 >= p[j].1 {
        assert p[i].1 >= p[|p| - 1].1 && p[0].1 >= p[j].1;
      }
    }
    SortDescendingSorted(p);
  }

  lemma {:induction false} ExampleOrder(a: Holding, b: Holding)
    requires a.weights == TableOne && b.weights == TableTwo
    ensures StockOrder([a, b]) == ["AAPL", "MSFT", "TSLA", "AMZN"]
  {
    var one, two := TableOne, TableTwo;
    assert [a, b][..1] == [a] && [a][..0] == [];
    assert one[..1][..0] == [] && one[..1] == [one[0]];
    assert Merge([], one[..1]) == ["AAPL"];
    assert StockOrder([a]) == ["AAPL", "MSFT"];
    var o := ["AAPL", "MSFT"];
    assert two[..1][..0] == [] && two[..1] == [two[0]];
    assert Merge(o, two[..1]) == o;
    assert two[..2][..1] == two[..1];
    assert Merge(o, two[..2]) == o;
    assert two[..3][..2] == two[..2];
    assert Merge(o, two[..3]) == o + ["TSLA"];
    assert two[..4] == two;
    assert two[..3] == two[..|two| - 1];
  }

  lemma {:induction false} ExampleExposure(a: Holding, b: Holding)
    requires a == Holding(EtfInfo(50.0, 2.0), TableOne)
    requires b == Holding(EtfInfo(100.0, 1.0), TableTwo)
    ensures Exposure([a, b], "AAPL") == 105.0 && Exposure([a, b], "MSFT") == 45.0
    ensures Exposure([a, b], "TSLA") == 25.0 && Exposure([a, b], "AMZN") == 25.0
  {
    var one, two := TableOne, TableTwo;
    forall s ensures Exposure([a, b], s) == Contribution(100.0, one, s) + Contribution(100.0, two, s) {
      assert [a, b] == [a] + [b] && [a] == [] + [a];
      ExposureSnoc([a], b, s);
      ExposureSnoc([], a, s);
    }
    ContributionAt(100.0, one, 0);
    ContributionAt(100.0, one, 1);
    ContributionOutside(100.0, one, "TSLA");
    ContributionOutside(100.0, one, "AMZN");
    ContributionAt(100.0, two, 0);
    ContributionAt(100.0, two, 1);
    ContributionAt(100.0, two, 2);
    ContributionAt(100.0, two, 3);
  }
}
