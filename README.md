# Triangular arbitrage engine — a Dafny model

This project models the triangular-arbitrage engine of `tri_arb.py`.
The engine works in four stages:

- It turns a list of trading pairs (`BTC_USDT`, or `BTC/USDT`, which is
  normalised to the underscore form) into a directed currency graph. Each
  market gives a sell edge `base → quote` with direction `1` and a buy edge
  `quote → base` with direction `-1`.
- It discovers every three-leg cycle that starts and ends in the base
  currency, in the graph's successor order.
- On each bar it evaluates every cycle's theoretical profit rate at the
  current close prices and keeps those above the threshold. It sorts them
  best first, caps the count by the available cash and `max_positions`, and
  executes each selected cycle against a single cash balance.
- After any attempt it pauses trading for `skip_seconds`.

The discovered cycles can also be saved as JSON text and loaded again.

Modules, one per part of the engine:

- `Symbols` (`symbols.dfy`): symbol normalisation and the `base_quote` split.
- `CurrencyGraph` (`graph.dfy`): `build_currency_graph`. The networkx
  `DiGraph` becomes an insertion-ordered sequence of edges with at most one
  edge per ordered currency pair. Adding an edge that already exists
  overwrites its attributes in place.
- `PathFinder` (`paths.dfy`): `find_triangular_paths`,
  `extract_required_pairs`, the path description text, and the
  `BTC_USDT / ETH_BTC / ETH_USDT` discovery example.
- `ProfitEval` (`profit.dfy`): `_calculate_profit`. Its three outcomes are a
  rate, the `-1` sentinel (`Failure`) and an exception (`Raised`). Also the
  leg arithmetic of `_execute_trade`, which settles a trade.
- `Selection` (`selection.dfy`): the threshold filter of
  `_check_paths_chunk`, the stable descending sort, and the capital cap of
  `next`.
- `Strategy` (`strategy.dfy`): the `TriangularArbStrategy` class. Its fields
  are cash, `active_trades`, `num_trades`, `total_profit`, `trade_records`,
  `skip_until` and `last_trade_time`. It also holds the functional
  specification `Tick` that `next` is proved to follow. An exception that
  escapes `next` is modelled as its `crashed` result and the state it leaves.
- `PathFile` (`pathfile.dfy`): the `[[[`-locating loader of
  `load_paths_from_file`, together with the `json.dumps` text it reads.

Prices are a per-bar `map<string, real>` from pair name to close price;
`getprice` is a lookup in that map. Money is `real`. Times are integer
seconds.

## Model

| member | source | states |
|---|---|---|
| Symbols.Normalize | tri_arb.py:26-27 | the normalised symbol has the same length, contains no `/`, and differs from the input exactly where a `/` became `_` |
| Symbols.NormalizeIdempotent | tri_arb.py:154 | normalising twice gives the same symbol as normalising once, so the second replace in `calculate_arb_paths` changes nothing |
| Symbols.SplitPair | tri_arb.py:28 | a successful split is `base + "_" + quote` with no `_` in either part; a failed one had no `_` or at least two |
| Symbols.SplitJoin | tri_arb.py:28 | joining two underscore-free names with `_` and splitting gives the two names back |
| CurrencyGraph.FindEdge | tri_arb.py:30-31 | the position returned is the first edge with that ordered key, or the end of the graph exactly when no such edge exists |
| CurrencyGraph.Lookup | tri_arb.py:63-65 | `graph[u][v]` exists exactly when an edge `u → v` does, and returns that edge's symbol and direction |
| CurrencyGraph.SuccessorsExact | tri_arb.py:52 | `v` is a successor of `n` if and only if there is an edge `n → v` |
| CurrencyGraph.SuccessorsAppend | tri_arb.py:30-31 | a new edge appends its target to its source's successor list and leaves every other node's list unchanged |
| CurrencyGraph.SuccessorsOverwrite | tri_arb.py:30-31 | overwriting an existing edge's attributes leaves every successor list unchanged |
| CurrencyGraph.AddEdge | tri_arb.py:30-31 | after `add_edge(u, v, attrs)`, `graph[u][v]` is `attrs`; every other ordered pair looks up as before; an existing edge is overwritten, otherwise one edge is appended; at most one edge per key is kept |
| CurrencyGraph.AddEdgeSuccessors | tri_arb.py:30-31 | `add_edge(u, v)` appends `v` to `u`'s successors only when `u → v` is new; successor order is insertion order |
| CurrencyGraph.AddPair | tri_arb.py:25-33 | a symbol that does not split into two parts leaves the graph unchanged; otherwise `quote → base` is (symbol, -1), and `base → quote` is (symbol, 1) unless base equals quote; no other key changes; one edge per key is kept |
| CurrencyGraph.BothDirections | tri_arb.py:30-31 | the two `add_edge` calls of one market set both directions and touch no other key |
| CurrencyGraph.BuildGraph | tri_arb.py:21-34 | the built graph has one edge per ordered pair, and every edge's symbol splits into its endpoints in the direction its sign says |
| CurrencyGraph.BuildGraphEdges | tri_arb.py:24-33 | an edge `x → y` is in the graph if and only if some well-formed symbol names the market between `x` and `y`; malformed symbols add nothing and do not stop later ones |
| CurrencyGraph.BuildGraphSize | tri_arb.py:24-31 | for well-formed symbols naming distinct markets with distinct currencies, the graph has exactly two edges per symbol |
| CurrencyGraph.BuildCurrencyGraph | tri_arb.py:21-34 | the loop over the pairs builds exactly `BuildGraph(pairs)` |
| PathFinder.PathsViaExact | tri_arb.py:60-67 | a path comes out of the inner loop for `mid` if and only if it is the triangle through some successor `end` that passes the closing test |
| PathFinder.PathsFromExact | tri_arb.py:59-67 | a path comes out of the two loops if and only if it is the triangle of some `mid` in the list and some successor `end` of `mid` that closes |
| PathFinder.SuccessorsNoDuplicates | tri_arb.py:52 | in a graph with one edge per ordered pair, every currency's successor list names each successor once |
| PathFinder.TriangularPathsNoDuplicates | tri_arb.py:36-70 | discovery from any pair list returns every cycle at most once |
| PathFinder.TriangularPathsExact | tri_arb.py:36-70 | a path is discovered if and only if it is built from edges `base → mid`, `mid → end` and `end → base` with `end` different from `base` and `mid`; the result is empty when base is absent or has no successors |
| PathFinder.FindTriangularPaths | tri_arb.py:36-70 | the nested loops return exactly `TriangularPaths(graph, base)`, in discovery order |
| PathFinder.ClosingPaths | tri_arb.py:60-67 | the inner loop over `mid`'s successors returns exactly the triangles through `mid`, in successor order |
| PathFinder.LegOfChains | tri_arb.py:63-65 | the leg taken from edge `u → v` of a built graph has a well-formed symbol and carries the held currency from `u` to `v` |
| PathFinder.TriangleChains | tri_arb.py:62-66 | a discovered triangle has well-formed legs and brings the base currency back to itself |
| PathFinder.DiscoveredPathsChain | tri_arb.py:21-70 | every path discovered from any pair list has three well-formed legs and returns to base, so profit evaluation never fails on a currency mismatch |
| PathFinder.RequiredPairsExact | tri_arb.py:182-190 | a symbol is required if and only if it is the symbol of some leg of some path |
| PathFinder.ExtractRequiredPairs | tri_arb.py:182-190 | the returned list holds exactly the required symbols, each once, in an unspecified order |
| PathFinder.DescribeAppend | tri_arb.py:446 | the description of two joined paths is their two descriptions joined by ` → `, so every path is described as its legs' `symbol(+)`/`symbol(-)` texts joined by arrows |
| PathFinder.DescribeExample | tri_arb.py:102 | the first example path is described as `BTC_USDT(-) → ETH_BTC(-) → ETH_USDT(+)` |
| PathFinder.AddPairFresh | tri_arb.py:25-31 | a market whose two keys are both new appends exactly its sell edge and then its buy edge |
| PathFinder.GraphOfThree | tri_arb.py:21-34 | three markets `b_a`, `c_b`, `c_a` over three distinct currencies build exactly six edges, in insertion order |
| PathFinder.SuccessorsOfThree | tri_arb.py:52-60 | in that graph the successors of `a`, `b` and `c` are `[b, c]`, `[a, c]` and `[b, a]` |
| PathFinder.DiscoveryOfThree | tri_arb.py:36-70 | that graph yields exactly two triangles from `a`, through `b` first and then through `c` |
| PathFinder.DiscoveryExample | tri_arb.py:21-70 | pairs `BTC_USDT, ETH_BTC, ETH_USDT` with base `USDT` yield exactly `[(BTC_USDT,-1),(ETH_BTC,-1),(ETH_USDT,1)]` and then `[(ETH_USDT,-1),(ETH_BTC,1),(BTC_USDT,1)]` |
| ProfitEval.AmountClosedForm | tri_arb.py:348-368 | walking the legs multiplies the amount by the product of the leg factors: `price·(1−fee)` for direction 1, `(1/price)·(1−fee)` otherwise |
| ProfitEval.CalculateProfit | tri_arb.py:341-372 | the leg loop returns `Evaluate` for every path: the sentinel at the first leg whose price is missing or zero or whose currency does not match, or when the path does not end in base; an exception at the first such-priced leg whose symbol does not split, and on a zero amount; otherwise `(final − amount)/amount` |
| ProfitEval.RaisesExactly | tri_arb.py:346-353 | evaluation raises on a split if and only if some leg is reached (all earlier legs priced and chaining), has a usable price, and has a symbol that does not split in two |
| ProfitEval.WellFormedNeverRaises | tri_arb.py:353 | a path whose every symbol splits in two never raises on a split |
| ProfitEval.ProfitWellFormed | tri_arb.py:353-372 | a path that evaluates to a rate has every symbol splitting in two |
| ProfitEval.ProfitRate | tri_arb.py:341-372 | a rate comes from a non-zero amount and usable prices, and equals the product of the leg factors minus one |
| ProfitEval.NotionalIndependent | tri_arb.py:344-372 | the outcome is the same for every non-zero traded amount |
| ProfitEval.FactorProductPositive | tri_arb.py:358-365 | with positive prices and a fee below 1, every leg factor and their product are positive |
| ProfitEval.SentinelRanksLast | tri_arb.py:351-372 | with positive prices and a fee below 1, a rate is always above −1, so an evaluation that does not raise scores −1 exactly when it is the sentinel |
| ProfitEval.DiscoveredPathProfit | tri_arb.py:341-372 | on a discovered path with a non-zero amount, evaluation never raises, and it is the sentinel if and only if some leg's price is missing or zero |
| ProfitEval.SettleMatchesProfit | tri_arb.py:404-437 | when the profit rate is `r`, the executed legs settle to `amount·(1 + r)` |
| ProfitEval.ZeroSellPriceSettles | tri_arb.py:350-418 | a zero price on a sell leg makes evaluation fail but still settles in execution, to zero |
| ProfitEval.ExampleProfit | tri_arb.py:341-372 | the first example path at prices 50000, 0.05 and 2600 with fee 0.0005 has profit rate 0.03844077987 |
| Selection.ChunkRaisesExact | tri_arb.py:309-332 | the chunk check raises if and only if the evaluation of some path that is not active raises |
| Selection.WellFormedChunkRuns | tri_arb.py:309-332 | with a non-zero amount, a chunk of paths whose symbols all split never raises |
| Selection.KeptIndicesExact | tri_arb.py:311-330 | an index is kept if and only if its path is not active, its evaluation does not raise, and its score is strictly above the threshold |
| Selection.CheckChunkIndices | tri_arb.py:309-332 | the chunk result lists (profit, path) for exactly the kept indices, in increasing index order |
| Selection.CheckChunkMembers | tri_arb.py:309-332 | every returned entry is an inactive input path paired with its own profit, which is above the threshold |
| Selection.SortDescSpec | tri_arb.py:279 | the sort is non-increasing by profit, is a permutation, and keeps the input order among equal profits |
| Selection.Trunc | tri_arb.py:271 | `int(x)` truncates toward zero, for positive and for negative `x` |
| Selection.CapAffordable | tri_arb.py:268-274 | the cap is at most `max_positions`; a positive cap is affordable in cash; the cap is positive when `max_positions` is positive and one trade is affordable |
| Selection.SelectedBounds | tri_arb.py:279-282 | the selection has at most `cap` entries, is sorted best first, is empty only when nothing passed the filter, and takes only entries that passed |
| Selection.SelectedMembers | tri_arb.py:282 | every selected entry is an inactive input path with its own score above the threshold; with a threshold of at least −1 it is a real rate of a path whose symbols all split |
| Selection.SelectedBest | tri_arb.py:279-282 | no entry left out of the selection has a higher profit than any selected entry |
| Strategy.ExecuteEffect | tri_arb.py:404-455 | when the legs raise, the ledger is unchanged; when they settle to `s`, cash and total profit grow by `s − amount`, the trade count by one, and exactly one record is appended with rate `(s − amount)/amount` and final amount `s` |
| Strategy.ExecuteConsistent | tri_arb.py:437-455 | every trade keeps cash equal to the starting cash plus the total profit, the total profit equal to the sum of the recorded gains, and the trade count equal to the number of records |
| Strategy.ExecutePriced | tri_arb.py:437-455 | executing a path whose evaluated profit is `r` appends a record whose rate is exactly `r` |
| Strategy.RunSelectedConsistent | tri_arb.py:282-289 | running the selection keeps the ledger balanced |
| Strategy.RunSelectedBound | tri_arb.py:282-289 | running the selection adds between zero and one trade per selected path |
| Strategy.RunSelectedPriced | tri_arb.py:282-289 | when every selected path evaluates as it was selected, the records added are one per path, in selection order, at the selected rates |
| Strategy.FirstUnsplit | tri_arb.py:389-397 | the position of the first selected path with a reverse leg whose symbol does not split, or the selection's length when there is none |
| Strategy.TickRuns | tri_arb.py:256-293 | a tick that gets past every early return and does not raise executes the capped selection and arms the cooldown at `now + skip_seconds` |
| Strategy.TickSuppressed | tri_arb.py:258-265 | with no paths, or while `now < skip_until`, a tick changes nothing and does not raise |
| Strategy.TickCooldown | tri_arb.py:263-293 | a tick that does not raise leaves the active set as it was; it arms `skip_until` and `last_trade_time` exactly when it attempts trades and does not raise; a tick that raises leaves them alone; a tick that does not attempt trades changes nothing |
| Strategy.TickEarly | tri_arb.py:256-278 | a tick that returns before the execution loop changes nothing, and raises exactly when the trade amount is zero or, with a positive cap, the chunk check raises |
| Strategy.TickExecution | tri_arb.py:280-293 | a tick that reaches the execution loop runs the selection up to its first unsplittable path; it raises exactly when there is one, which stays active with the cooldown untouched, and otherwise arms the cooldown |
| Strategy.TickCrash | tri_arb.py:280-289 | a tick that raises in its execution loop leaves exactly one more path active: an input path, not active before, with a reverse leg that does not split |
| Strategy.TickLedger | tri_arb.py:268-293 | a tick, raising or not, keeps the ledger balanced and never lowers the trade count; the trades it adds are at most the cap, and the cap is at most `max_positions` |
| Strategy.TickTrades | tri_arb.py:268-293 | when the threshold is at least −1, an attempting tick does not raise, keeps the earlier records, and appends between one and cap records dated `now`, each with a rate above the threshold, in non-increasing rate order |
| Strategy.WellFormedNeverCrashes | tri_arb.py:256-297 | with a non-zero trade amount and paths whose symbols all split, `next` never raises |
| Strategy.WellFormedReverse | tri_arb.py:396 | every reverse leg of a path whose symbols all split gets past the split of the first loop of `_execute_trade` |
| Strategy.DiscoveredWellFormed | tri_arb.py:238-242 | every path the constructor discovers has well-formed legs |
| Strategy.SellLeg | tri_arb.py:413-418 | selling `size` at `price` yields `size·price − size·price·fee` |
| Strategy.BuyLeg | tri_arb.py:424-429 | buying with `current` at `price` yields `current/price − (current/price)·fee` |
| Strategy.TriangularArbStrategy.constructor | tri_arb.py:207-253 | a new strategy has the given cash, no trades, no records and no cooldown; its paths are the paths loaded from the file's text, whatever they are, or the paths discovered from the pairs |
| Strategy.TriangularArbStrategy.CheckPathsChunk | tri_arb.py:299-332 | the loop raises exactly when `ChunkRaises` holds for the current active set, and otherwise returns exactly `CheckChunk` |
| Strategy.TriangularArbStrategy.WalkLegs | tri_arb.py:404-435 | the leg loop settles exactly to `Settle`, or raises (`None`) on a missing price, a zero buy price, a currency mismatch or a path that does not end in base |
| Strategy.TriangularArbStrategy.ExecuteTrade | tri_arb.py:374-473 | it raises exactly when a reverse leg's symbol does not split, and then changes nothing and the path stays active; otherwise the account becomes `Execute` of the old account and the path stops being active, whether the legs settled or not; the cooldown fields are untouched |
| Strategy.TriangularArbStrategy.ExecuteSelected | tri_arb.py:280-289 | the selected paths are attempted in order and counted, failed ones included, up to the first that raises; the account follows `RunSelected` on the paths before it; it raises exactly when there is one, which then stays active, and otherwise the active set is empty again |
| Strategy.TriangularArbStrategy.Next | tri_arb.py:256-297 | a bar moves the strategy's whole state from `s` to `Tick(s, paths, config, now, prices)`, raises exactly when `Crashes` holds, keeps the books balanced, and keeps the class invariant when it does not raise |
| PathFile.Find | tri_arb.py:128 | `find` returns the first position from `from` at which the pattern occurs, or nothing exactly when it occurs nowhere |
| PathFile.ParseSymbol | tri_arb.py:128-133 | a decoded symbol is the text up to the closing quote, and holds no quote, backslash or control character |
| PathFile.ControlCharRejected | tri_arb.py:125-138 | a file holding `[[["A<tab>B", 1]]]` loads no paths, as the strict JSON decoder refuses control characters in strings and the loader then returns the empty list |
| PathFile.LoadPaths | tri_arb.py:115-138 | a text without `[[[` loads as the empty list; when the text from the first `[[[` decodes, the result is exactly the decoded paths; a non-empty result always comes from that decode |
| PathFile.LegsRoundTrip | tri_arb.py:110-133 | the dumped legs of a path parse back to the same legs, leaving the rest of the text |
| PathFile.PathsRoundTrip | tri_arb.py:110-133 | the dumped paths parse back to the same paths, leaving the rest of the text |
| PathFile.LoadsDumps | tri_arb.py:110-133 | loading the dumped JSON of a non-empty list of paths gives the same paths |
| PathFile.LoadSaved | tri_arb.py:110-133 | a file whose header has no `[` followed by the dumped paths loads back exactly those paths |
| PathFile.ExampleRoundTrip | tri_arb.py:110-133 | the first example path, saved after a comment line, loads back unchanged |

## Left out

- backtrader is not modelled: the `bt.Strategy` lifecycle, data feeds, the broker and `log`/`stop`. Prices are a map passed to each bar. The broker's cash is a field of the class.
- networkx is replaced by the ordered edge sequence described above.
- `hash(str(path))` is replaced by the path value itself as its identity. Distinct paths cannot collide in the model.
- Wall-clock timing is not modelled: `time.time()` and `execution_times`, which are latency statistics only. Bar datetimes are integer seconds, and `timedelta(seconds=…)` is addition.
- Logging and the strings built only for it are not modelled: price lists, fee lists, `currency_pairs`, `total_fee` and the debug examples.
- Directory creation at import is not modelled, nor the file writing in `save_paths_to_file`. Only its JSON line and its path description are modelled.
- `export_trade_records` and its Excel output are not modelled.
- Floating point is not modelled: money is `real`. For example, `size·price − size·price·fee` is kept as written but is not rounded.
- `broker.getvalue()` is taken to be the cash. The strategy never opens positions, so the two agree.
- Strategy.TriangularArbStrategy.ExecuteSelected: the skip of an already-active path in `next`'s loop (tri_arb.py:284-285) is not reachable in the model. The active set is empty between bars, and distinct paths have distinct identities.
- Strategy.TriangularArbStrategy.constructor: the pair list is a parameter. `available_pairs` versus the feed names is not modelled, nor DataManager's setup rule (at least three pairs and the base present), nor the configuration loader. The configuration is a parameter.
- Strategy.TriangularArbStrategy.constructor: `pathsFile` stands for the file name and the file's text together. `Some(text)` is a non-empty `paths_file` whose file reads as `text`; `None` is an empty or absent name. A missing or unreadable file, which makes `open` raise, is not modelled.
- Exceptions are modelled as outcomes, not as Python control flow: `Raised` for `_calculate_profit`, a `raised` result for `_check_paths_chunk` and `_execute_trade`, and `crashed` for `next`. What happens after `next` raises (backtrader ending the run) is not modelled.
- `_execute_trade`'s own `try`/`except` (tri_arb.py:404-470) is modelled by the walk settling or not. The exception text it logs is not modelled.
- The execution members and `Execute` require a non-zero trade amount: `next` divides by it before any trade (tri_arb.py:271), and the model's `Next` returns `crashed` there instead of calling them.
- PathFinder.ExtractRequiredPairs takes the symbols out of the set in an unspecified order, as Python's set iteration order is unspecified. Its contract states membership and distinctness only.
- PathFile.LoadsDumps and PathFile.LoadSaved cover only the text `json.dumps` writes for paths whose symbols are printable ASCII other than `"` and `\`, with directions `1` and `-1`. Other valid JSON, such as other spacing or escapes, is not parsed, and it loads as the empty list. Raw non-ASCII characters in a symbol are parsed, as Python parses them.
- PathFile.LoadPaths: a loaded path is whatever the text decodes to, so its symbols need not split. Profit evaluation and execution handle such paths as the source does, raising where it raises. A file holding any other JSON value loads no paths at all in the model. Examples are a direction other than `1` or `-1`, or an empty path. Python loads such a file. It then evaluates a path with an unknown direction as a buy (the `else` at tri_arb.py:362) and an empty path as a rate of 0.0 (tri_arb.py:370-372), or fails later on other shapes.
- The save file's metadata lines, its numbered path list and its required-pairs line are not modelled. `calculate_arb_paths` itself is not modelled as an operation either, since it only composes `build_currency_graph`, `find_triangular_paths` and `extract_required_pairs`. Its extra normalisation is covered by Symbols.NormalizeIdempotent.
