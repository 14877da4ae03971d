# ETF look-through portfolio, modelled in Dafny

This project models `calculate_etf_portfolio` from `app.py`. Its inputs are:

- ETF positions: for each ETF, a price and a number of shares;
- for each ETF, a weight table giving the weight of each stock it holds.

It returns every stock's share of the total portfolio value, as a percentage, sorted from largest to smallest. The steps are:

1. Each position is worth `price * shares`. These values add up to `portfolio_value`.
2. Each ETF's value is spread over its stocks by weight. Amounts that different ETFs give the same stock are added together in `stock_values`.
3. Each accumulated value is divided by `portfolio_value` and multiplied by 100.
4. The pairs are sorted by a stable descending sort.

Files:

- `etf_portfolio.dfy` (module `EtfPortfolio`):
  - the data model;
  - the loop of `app.py:25-33` as an imperative method, `CalculateEtfPortfolio`, with loop invariants;
  - the pure specification `Portfolio`, which the method is proved to compute;
  - lemmas stating what a result is: its outcome, its entries, its order, and its total.
- `stable_sort.dfy` (module `StableSort`): Python's `sorted(..., key=lambda item: item[1], reverse=True)`. It is modelled as an insertion sort, which is proved to be a stable descending sort and the only one.
- `seqs.dfy` (module `Seqs`): sums of real-valued functions over sequences, and sequences without repeats.
- `worked_example.dfy` (module `EtfExample`): the example at the end of `app.py`, with its exact result, and a variant that raises `KeyError`.

Representation:

- `etf_info` is a sequence of `(name, EtfInfo(price, shares))` pairs in iteration order.
- `stock_weights` is a `map` from ETF name to a weight table, because it is only looked up.
- A weight table is a sequence of `(stock, weight)` pairs in insertion order.
- Inside the method, `stock_values` is a `map` plus a sequence of its keys in insertion order. That key order is what the stable sort preserves for ties.
- Numbers are exact `real`s.
- The two Python exceptions the function can raise are results of a `Result` datatype:
  - `KeyError(etf)` from `stock_weights[etf]`;
  - `ZeroDivisionError` from the division in the comprehension.

Three behaviours of the code at its edges:

- **Ties.** Equal percentages keep the order in which their stocks were first inserted into `stock_values`, because Python's `sorted` is stable, also with `reverse=True`.
- **Zero total.** A zero `portfolio_value` raises `ZeroDivisionError` only when at least one stock was accumulated. With no stocks, the comprehension divides nothing and the result is the empty list.
- **Missing weight table.** An ETF without a weight table raises `KeyError`. The first such ETF in iteration order is the one reported.

## Model

| member | source | states |
|---|---|---|
| EtfPortfolio.CalculateEtfPortfolio | app.py:10-41 | The loop program returns exactly `Portfolio(etf_info, stock_weights)`. Its invariants keep `portfolio_value` equal to the total value of the ETFs processed so far, and `stock_values` equal to the merged exposure of every stock seen so far, with its keys in first-insertion order. |
| EtfPortfolio.InnerStep | app.py:30-33 | One pass of the inner loop: default-on-insert then `+= etf_value * weight` keeps every entry of `stock_values` equal to its running sum. New stocks are appended to the key order; known stocks do not move. |
| EtfPortfolio.HoldingStep | app.py:25-33 | The unfolding of the specification on one more ETF that the loop proof uses: the total grows by `price * shares`, the key order is merged with the ETF's table, and each stock's value grows by that ETF's contribution. |
| EtfPortfolio.FirstUnknown | app.py:25-30 | It is `None` exactly when every ETF of `etf_info` has a weight table. Otherwise it names an ETF that has none, and every ETF before it has one. |
| EtfPortfolio.FirstUnknownAt | app.py:25-30 | If position `i` is the first ETF without a weight table, the lookup fails on that ETF's name. |
| EtfPortfolio.PortfolioOutcome | app.py:25-36 | The call succeeds iff every ETF has a weight table and either no stock is held or the total is non-zero. It raises `ZeroDivisionError` iff every ETF is known, some stock is held and the total is 0. Otherwise it raises `KeyError` naming the first ETF that lacks a table. |
| EtfPortfolio.PortfolioValueIsSum | app.py:21-27 | `portfolio_value` equals the sum of `price * shares` over every position of `etf_info`. |
| EtfPortfolio.ExposureIsSum | app.py:30-33 | A stock's accumulated value is the sum, over all ETFs, of what each ETF's weight table gives it. |
| EtfPortfolio.ContributionAt | app.py:30-33 | When a table names each stock once, it gives a listed stock exactly `etf_value * weight`. |
| EtfPortfolio.ContributionOutside | app.py:30-33 | A table gives nothing to a stock it does not list. |
| EtfPortfolio.MergeMembers | app.py:30-32 | After one table, the keys of `stock_values` are the old keys plus the table's stocks. Keys stay free of repeats. |
| EtfPortfolio.StockOrderMembers | app.py:25-32 | After the loop, the keys of `stock_values` are exactly the stocks named in some weight table, each once. |
| EtfPortfolio.PercentagesEntries | app.py:36 | The comprehension has one entry per key of `stock_values`, in key order. Each entry is `(stock, value / portfolio_value * 100)`. |
| EtfPortfolio.PercentagesFacts | app.py:36 | The comprehension's stocks are exactly the keys of `stock_values`, each at most once. Every entry carries its stock's value over the total, times 100. |
| EtfPortfolio.PortfolioEntries | app.py:25-39 | A successful result names every held stock exactly once and no other stock. Each entry's percentage is the stock's merged value over the total portfolio value, times 100. |
| EtfPortfolio.PortfolioOrder | app.py:31-39 | A successful result is in non-increasing order of percentage and is a permutation of the comprehension's entries. Two entries with equal percentage appear in the order their stocks were first inserted into `stock_values`. |
| EtfPortfolio.ContributionSum | app.py:30-33 | Summed over the stocks, an ETF's contributions give its value times the sum of its weights. |
| EtfPortfolio.ExposureSum | app.py:25-33 | When every weight table sums to 1, the merged stock values add up to the total portfolio value. |
| EtfPortfolio.PercentagesSum | app.py:36 | The comprehension's percentages add up to the sum of the values over the total, times 100. |
| EtfPortfolio.HoldingsSumTo100 | app.py:25-39 | When every weight table sums to 1 and the total is non-zero, the sorted percentages sum to 100. |
| EtfPortfolio.PercentagesSumTo100 | app.py:25-39 | When every ETF has a weight table, every table sums to 1 and the total is non-zero, the call succeeds and its percentages sum to 100. |
| StableSort.Insert | app.py:39 | Inserting an entry adds exactly that entry to the multiset of entries. |
| StableSort.SortDescendingNonIncreasing | app.py:39 | The sorted list is in non-increasing order of value. |
| StableSort.SortDescendingPermutes | app.py:39 | The sorted list is a permutation of its input. |
| StableSort.SortDescendingTies | app.py:39 | For every value p, the entries valued p appear in the sorted list in the same order as in the input. |
| StableSort.SortDescendingIsStable | app.py:39 | The sort is a stable descending sort: ordered, a permutation, and order-preserving on ties. |
| StableSort.SameTiesEqual | app.py:39 | Two ordered lists that agree on the order of every group of equal-valued entries are equal. |
| StableSort.StableSortUnique | app.py:39 | Any stable descending sort of a list equals `SortDescending` of it, so the result is fully determined by the input. |
| StableSort.StableKeepsInputOrder | app.py:39 | In a stable descending sort, equal-valued entries at positions i < j come from input positions a < b. |
| StableSort.SortDescendingSorted | app.py:39 | Sorting an already ordered list leaves it unchanged. |
| StableSort.SortDescendingSum | app.py:39 | Sorting does not change the total of any function of the entries. |
| StableSort.SortDescendingNames | app.py:39 | Sorting keeps the set of stock names, and keeps them distinct when they were distinct. |
| EtfExample.ExampleResult | app.py:44-55 | On the example positions and weight tables, the result is AAPL 52.5, MSFT 22.5, TSLA 12.5, AMZN 12.5. TSLA precedes AMZN because it was inserted first. |
| EtfExample.ExampleValues | app.py:44-55 | On the example, `stock_values` ends with keys AAPL, MSFT, TSLA, AMZN in that order, holding 105, 45, 25 and 25. |
| EtfExample.ExampleMissingTable | app.py:25-30 | Adding a third position whose ETF has no weight table makes the call raise `KeyError` naming that ETF. |

## Left out

- The Flask application, the `/` route `hello_world` and `app.run()` (app.py:1-8, 62-63) are web transport with no logic.
- The module-level call at app.py:55 discards its result. It appears only as the worked example.
- Floating-point rounding is not modelled. Prices, shares, weights and percentages are exact reals, so no Python `float` rounding happens and no NaN or infinity can occur.
- The distinction between Python `int` and `float` is not modelled. `portfolio_value` starts as the integer 0, but this changes no value the function computes.
- Records without a `price` or `shares` key are not modelled. `EtfInfo` always has both fields, so the `KeyError` that `info['price']` or `info['shares']` could raise cannot occur.
- Repeated keys are not ruled out. Python dictionaries cannot repeat a key, but the model accepts a position list or a weight table that repeats one. Repeated table entries each add their amount, which matches the code's per-entry accumulation. `ContributionAt` alone assumes distinct keys.
- Weight tables are taken as given inputs; `app.py` contains no code that produces them.
