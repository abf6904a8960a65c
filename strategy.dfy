/**
 * The per-tick strategy `TriangularArbStrategy` (tri_arb.py:192-473): the
 * cooldown gate and capital cap of `next`, `_check_paths_chunk`, and the
 * simulated execution of `_execute_trade` against one cash balance.
 */
module Strategy {
  import opened Symbols
  import opened CurrencyGraph
  import opened PathFinder
  import opened ProfitEval
  import opened Selection
  import opened PathFile

  /** The parameters the trading logic reads (tri_arb.py:194-205); times are whole seconds. */
  datatype Config = Config(fee: real, baseCurrency: string, tradeAmount: real, threshold: real, maxPositions: int, skipSeconds: int)

  /** One entry of `trade_records`. */
  datatype TradeRecord = TradeRecord(datetime: int, path: string, profitRate: real, amount: real, finalAmount: real)

  /** The broker's cash and the strategy's running totals. */
  datatype Ledger = Ledger(cash: real, totalProfit: real, numTrades: int, records: seq<TradeRecord>)

  /** Everything a tick can change. */
  datatype State = State(ledger: Ledger, active: set<Path>, skipUntil: Option<int>, lastTradeTime: Option<int>)

  /**
   * What `_execute_trade` does to the account: when the legs settle to `s`
   * the cash becomes `cash - amount + s` and the gain is booked and
   * recorded; when they raise, nothing changes.
   */
  function Execute(l: Ledger, path: Path, prices: Prices, cfg: Config, amount: real, now: int): Ledger
    requires amount != 0.0
  {
    match Settle(path, prices, cfg.baseCurrency, cfg.fee, amount)
    case None => l
    case Some(current) =>
      var finalAmount := l.cash - amount + current;
      var actualProfit := finalAmount - l.cash;
      Ledger(finalAmount, l.totalProfit + actualProfit, l.numTrades + 1,
             l.records + [TradeRecord(now, Describe(path), actualProfit / amount, amount, current)])
  }

  /** The gains of a list of trade records: what each returned less what it put in. */
  function Realised(rs: seq<TradeRecord>): real {
    if rs == [] then 0.0 else Realised(rs[..|rs| - 1]) + (rs[|rs| - 1].finalAmount - rs[|rs| - 1].amount)
  }

  /**
   * The bookkeeping agrees with itself: one record per trade, the total
   * profit is the sum of the recorded gains, and the cash is the starting
   * cash plus the total profit.
   */
  predicate Balanced(l: Ledger, start: real) {
    l.numTrades == |l.records| && l.totalProfit == Realised(l.records) && l.cash == start + l.totalProfit
  }

  /** One trade keeps the books consistent, whether it settles or not. */
  lemma ExecuteConsistent(l: Ledger, start: real, path: Path, prices: Prices, cfg: Config, amount: real, now: int)
    requires amount != 0.0 && Balanced(l, start)
    ensures Balanced(Execute(l, path, prices, cfg, amount, now), start)
  {
    match Settle(path, prices, cfg.baseCurrency, cfg.fee, amount)
    case None =>
    case Some(current) =>
      var r := Execute(l, path, prices, cfg, amount, now);
      assert r.records[..|r.records| - 1] == l.records;
  }

  /**
   * A trade that fails changes nothing; one that settles to `s` moves the
   * cash by `s - amount`, books that gain, counts one trade and appends
   * exactly one record holding the realised rate and `s`.
   */
  lemma {:induction false} ExecuteEffect(l: Ledger, path: Path, prices: Prices, cfg: Config, amount: real, now: int)
    requires amount != 0.0
    ensures Settle(path, prices, cfg.baseCurrency, cfg.fee, amount).None? ==> Execute(l, path, prices, cfg, amount, now) == l
    ensures Settle(path, prices, cfg.baseCurrency, cfg.fee, amount).Some? ==>
      var s := Settle(path, prices, cfg.baseCurrency, cfg.fee, amount).value;
      var r := Execute(l, path, prices, cfg, amount, now);
      r.cash == l.cash + (s - amount) && r.totalProfit == l.totalProfit + (s - amount) && r.numTrades == l.numTrades + 1 &&
      r.records == l.records + [TradeRecord(now, Describe(path), (s - amount) / amount, amount, s)]
  {
  }

  /** The rate booked for settling to `amount * (1 + r)` is `r`. */
  lemma BookedRate(cash: real, amount: real, s: real, r: real)
    requires amount != 0.0 && s == amount * (1.0 + r)
    ensures ((cash - amount + s) - cash) / amount == r
  {
    assert (cash - amount + s) - cash == amount * r;
  }

  /** The record a trade priced at rate `r` leaves. */
  function Planned(e: Entry, cfg: Config, now: int): TradeRecord {
    TradeRecord(now, Describe(e.1), e.0, cfg.tradeAmount, cfg.tradeAmount * (1.0 + e.0))
  }

  /**
   * A path that evaluated to rate `r` settles on the same prices, and
   * books exactly the predicted rate.
   */
  lemma ExecutePriced(l: Ledger, e: Entry, prices: Prices, cfg: Config, now: int)
    requires cfg.tradeAmount != 0.0
    requires Evaluate(e.1, prices, cfg.baseCurrency, cfg.fee, cfg.tradeAmount) == Profit(e.0)
    ensures Execute(l, e.1, prices, cfg, cfg.tradeAmount, now).records == l.records + [Planned(e, cfg, now)]
    ensures Execute(l, e.1, prices, cfg, cfg.tradeAmount, now).numTrades == l.numTrades + 1
  {
    var amount := cfg.tradeAmount;
    SettleMatchesProfit(e.1, prices, cfg.baseCurrency, cfg.fee, amount, e.0);
    var s := amount * (1.0 + e.0);
    BookedRate(l.cash, amount, s, e.0);
    var rec := TradeRecord(now, Describe(e.1), ((l.cash - amount + s) - l.cash) / amount, amount, s);
    assert rec == Planned(e, cfg, now);
    assert Execute(l, e.1, prices, cfg, amount, now).records == l.records + [rec];
  }

  /** The execution loop of `next`: each selected path in turn. */
  function RunSelected(l: Ledger, sel: seq<Entry>, prices: Prices, cfg: Config, now: int): Ledger
    requires cfg.tradeAmount != 0.0
  {
    if sel == [] then l
    else Execute(RunSelected(l, sel[..|sel| - 1], prices, cfg, now), sel[|sel| - 1].1, prices, cfg, cfg.tradeAmount, now)
  }

  lemma {:induction false} RunSelectedPrefix(l: Ledger, sel: seq<Entry>, k: nat, prices: Prices, cfg: Config, now: int)
    requires cfg.tradeAmount != 0.0 && k < |sel|
    ensures RunSelected(l, sel[..k + 1], prices, cfg, now)
         == Execute(RunSelected(l, sel[..k], prices, cfg, now), sel[k].1, prices, cfg, cfg.tradeAmount, now)
  {
    assert sel[..k + 1][..k] == sel[..k];
  }

  /** Running the selection keeps the books consistent. */
  lemma {:induction false} RunSelectedConsistent(l: Ledger, start: real, sel: seq<Entry>, prices: Prices, cfg: Config, now: int)
    requires cfg.tradeAmount != 0.0 && Balanced(l, start)
    ensures Balanced(RunSelected(l, sel, prices, cfg, now), start)
  {
    if sel != [] {
      RunSelectedConsistent(l, start, sel[..|sel| - 1], prices, cfg, now);
      ExecuteConsistent(RunSelected(l, sel[..|sel| - 1], prices, cfg, now), start, sel[|sel| - 1].1, prices, cfg, cfg.tradeAmount, now);
    }
  }

  /** Running the selection makes at most one trade per entry. */
  lemma {:induction false} RunSelectedBound(l: Ledger, sel: seq<Entry>, prices: Prices, cfg: Config, now: int)
    requires cfg.tradeAmount != 0.0
    ensures l.numTrades <= RunSelected(l, sel, prices, cfg, now).numTrades <= l.numTrades + |sel|
  {
    if sel != [] {
      var prev := RunSelected(l, sel[..|sel| - 1], prices, cfg, now);
      RunSelectedBound(l, sel[..|sel| - 1], prices, cfg, now);
      ExecuteEffect(prev, sel[|sel| - 1].1, prices, cfg, cfg.tradeAmount, now);
    }
  }

  /** Entries whose score is the evaluated rate of their path. */
  predicate AllPricedAt(sel: seq<Entry>, prices: Prices, cfg: Config)
    requires cfg.tradeAmount != 0.0
  {
    forall k :: 0 <= k < |sel| ==>
      Evaluate(sel[k].1, prices, cfg.baseCurrency, cfg.fee, cfg.tradeAmount) == Profit(sel[k].0)
  }

  /** The records a list of priced entries leaves, in order. */
  function PlannedAll(sel: seq<Entry>, cfg: Config, now: int): seq<TradeRecord> {
    if sel == [] then [] else PlannedAll(sel[..|sel| - 1], cfg, now) + [Planned(sel[|sel| - 1], cfg, now)]
  }

  /** When every entry is priced, every trade goes through and books its predicted rate. */
  lemma {:induction false} RunSelectedPriced(l: Ledger, sel: seq<Entry>, prices: Prices, cfg: Config, now: int)
    requires cfg.tradeAmount != 0.0 && AllPricedAt(sel, prices, cfg)
    ensures RunSelected(l, sel, prices, cfg, now).records == l.records + PlannedAll(sel, cfg, now)
    ensures RunSelected(l, sel, prices, cfg, now).numTrades == l.numTrades + |sel|
  {
    if sel != [] {
      var init := sel[..|sel| - 1];
      assert AllPricedAt(init, prices, cfg) by {
        assert forall k :: 0 <= k < |init| ==> init[k] == sel[k];
      }
      RunSelectedPriced(l, init, prices, cfg, now);
      ExecutePriced(RunSelected(l, init, prices, cfg, now), sel[|sel| - 1], prices, cfg, now);
    }
  }

  lemma {:induction false} PlannedAllExact(sel: seq<Entry>, cfg: Config, now: int)
    ensures |PlannedAll(sel, cfg, now)| == |sel|
    ensures forall k :: 0 <= k < |sel| ==> PlannedAll(sel, cfg, now)[k] == Planned(sel[k], cfg, now)
  {
    if sel != [] {
      var init := sel[..|sel| - 1];
      PlannedAllExact(init, cfg, now);
      assert forall k :: 0 <= k < |init| ==> init[k] == sel[k];
    }
  }

  /** Whether the cooldown holds the strategy back at time `now`. */
  predicate Suppressed(st: State, now: int) {
    st.skipUntil.Some? && now < st.skipUntil.value
  }

  /**
   * Whether `_execute_trade` gets past its unguarded first loop, which
   * splits the symbol of every reverse leg (tri_arb.py:389-397): those
   * symbols must split.
   */
  predicate ReverseLegsSplit(path: Path) {
    forall i :: 0 <= i < |path| && path[i].dir != 1 ==> WellFormedSymbol(path[i].symbol)
  }

  /** A path whose every symbol splits gets past that loop (the split of tri_arb.py:396). */
  lemma WellFormedReverse(path: Path)
    requires LegsWellFormed(path)
    ensures ReverseLegsSplit(path)
  {
  }

  /**
   * The position of the first selected entry whose reverse legs do not
   * split, where the execution loop of `next` raises; the length of the
   * selection when there is none.
   */
  function FirstUnsplit(sel: seq<Entry>): (k: nat)
    ensures k <= |sel|
    ensures forall j :: 0 <= j < k ==> ReverseLegsSplit(sel[j].1)
    ensures k < |sel| ==> !ReverseLegsSplit(sel[k].1)
  {
    if sel == [] || !ReverseLegsSplit(sel[0].1) then 0
    else
      var k := FirstUnsplit(sel[1..]);
      assert forall j :: 0 < j <= k ==> sel[j] == sel[1..][j - 1];
      1 + k
  }

  /**
   * `next` as a function of the state: nothing without paths or inside the
   * cooldown or without room for a trade or without a path above the
   * threshold; otherwise the best paths up to the cap are executed in
   * order and the cooldown is armed.  Where `next` raises, this is the
   * state the exception leaves behind: unchanged when the cap divides by a
   * zero trade amount or the check raises, and when the execution loop
   * raises, the trades before the failing path made and that path left
   * marked as being traded.
   */
  function Tick(st: State, paths: seq<Path>, cfg: Config, now: int, prices: Prices): State
  {
    if paths == [] || Suppressed(st, now) || cfg.tradeAmount == 0.0 then st
    else
      var cap := Cap(cfg.maxPositions, st.ledger.cash, cfg.tradeAmount);
      if cap <= 0 then st
      else if ChunkRaises(paths, st.active, prices, cfg.baseCurrency, cfg.fee, cfg.tradeAmount) then st
      else if CheckChunk(paths, st.active, prices, cfg.baseCurrency, cfg.fee, cfg.tradeAmount, cfg.threshold) == [] then st
      else
        var sel := Selected(paths, st.active, prices, cfg.baseCurrency, cfg.fee, cfg.tradeAmount, cfg.threshold, cap);
        var k := FirstUnsplit(sel);
        if k < |sel| then st.(ledger := RunSelected(st.ledger, sel[..k], prices, cfg, now), active := st.active + {sel[k].1})
        else st.(ledger := RunSelected(st.ledger, sel, prices, cfg, now), skipUntil := Some(now + cfg.skipSeconds), lastTradeTime := Some(now))
  }

  /** Whether a tick gets past every early return and reaches the execution loop. */
  predicate Attempts(st: State, paths: seq<Path>, cfg: Config, now: int, prices: Prices) {
    paths != [] && !Suppressed(st, now) && cfg.tradeAmount != 0.0 &&
    Cap(cfg.maxPositions, st.ledger.cash, cfg.tradeAmount) > 0 &&
    !ChunkRaises(paths, st.active, prices, cfg.baseCurrency, cfg.fee, cfg.tradeAmount) &&
    CheckChunk(paths, st.active, prices, cfg.baseCurrency, cfg.fee, cfg.tradeAmount, cfg.threshold) != []
  }

  /**
   * Whether `next` raises: the cap divides by a zero trade amount, a path
   * raises in the check, or a selected path raises in the unguarded part
   * of its execution.
   */
  predicate Crashes(st: State, paths: seq<Path>, cfg: Config, now: int, prices: Prices) {
    paths != [] && !Suppressed(st, now) &&
    (cfg.tradeAmount == 0.0 ||
     (Cap(cfg.maxPositions, st.ledger.cash, cfg.tradeAmount) > 0 &&
      (ChunkRaises(paths, st.active, prices, cfg.baseCurrency, cfg.fee, cfg.tradeAmount) ||
       (CheckChunk(paths, st.active, prices, cfg.baseCurrency, cfg.fee, cfg.tradeAmount, cfg.threshold) != [] &&
        var sel := Selected(paths, st.active, prices, cfg.baseCurrency, cfg.fee, cfg.tradeAmount, cfg.threshold,
                            Cap(cfg.maxPositions, st.ledger.cash, cfg.tradeAmount));
        FirstUnsplit(sel) < |sel|))))
  }

  /** A tick that attempts trades and does not raise runs the whole selection and arms the cooldown. */
  lemma TickRuns(st: State, paths: seq<Path>, cfg: Config, now: int, prices: Prices)
    requires Attempts(st, paths, cfg, now, prices) && !Crashes(st, paths, cfg, now, prices)
    ensures var cap := Cap(cfg.maxPositions, st.ledger.cash, cfg.tradeAmount);
      var sel := Selected(paths, st.active, prices, cfg.baseCurrency, cfg.fee, cfg.tradeAmount, cfg.threshold, cap);
      Tick(st, paths, cfg, now, prices) == st.(ledger := RunSelected(st.ledger, sel, prices, cfg, now), skipUntil := Some(now + cfg.skipSeconds), lastTradeTime := Some(now))
  {
  }

  /** Without paths, or inside the cooldown, a tick changes nothing and does not raise. */
  lemma TickSuppressed(st: State, paths: seq<Path>, cfg: Config, now: int, prices: Prices)
    requires paths == [] || Suppressed(st, now)
    ensures Tick(st, paths, cfg, now, prices) == st
    ensures !Crashes(st, paths, cfg, now, prices)
  {
  }

  /**
   * The cooldown is armed, and the trade time set, exactly on a tick that
   * attempts a trade and does not raise; a tick that does not attempt one
   * changes nothing at all.  The set of paths being traded is the same
   * after every tick that does not raise.
   */
  lemma TickCooldown(st: State, paths: seq<Path>, cfg: Config, now: int, prices: Prices)
    ensures !Crashes(st, paths, cfg, now, prices) ==> Tick(st, paths, cfg, now, prices).active == st.active
    ensures Attempts(st, paths, cfg, now, prices) && !Crashes(st, paths, cfg, now, prices) ==>
      Tick(st, paths, cfg, now, prices).skipUntil == Some(now + cfg.skipSeconds) &&
      Tick(st, paths, cfg, now, prices).lastTradeTime == Some(now)
    ensures Crashes(st, paths, cfg, now, prices) ==>
      Tick(st, paths, cfg, now, prices).skipUntil == st.skipUntil &&
      Tick(st, paths, cfg, now, prices).lastTradeTime == st.lastTradeTime
    ensures !Attempts(st, paths, cfg, now, prices) ==> Tick(st, paths, cfg, now, prices) == st
  {
  }

  /**
   * A tick that returns before the execution loop changes nothing; it
   * raises exactly when the cap divides by a zero trade amount or a path
   * raises in the check.
   */
  lemma TickEarly(st: State, paths: seq<Path>, cfg: Config, now: int, prices: Prices)
    requires !Attempts(st, paths, cfg, now, prices)
    ensures Tick(st, paths, cfg, now, prices) == st
    ensures Crashes(st, paths, cfg, now, prices) <==>
      paths != [] && !Suppressed(st, now) &&
      (cfg.tradeAmount == 0.0 ||
       (Cap(cfg.maxPositions, st.ledger.cash, cfg.tradeAmount) > 0 &&
        ChunkRaises(paths, st.active, prices, cfg.baseCurrency, cfg.fee, cfg.tradeAmount)))
  {
  }

  /**
   * A tick that reaches the execution loop runs the selection up to the
   * first path that raises; it raises exactly when there is one, which then
   * stays marked, and arms the cooldown otherwise.
   */
  lemma TickExecution(st: State, paths: seq<Path>, cfg: Config, now: int, prices: Prices)
    requires Attempts(st, paths, cfg, now, prices)
    ensures var sel := Selected(paths, st.active, prices, cfg.baseCurrency, cfg.fee, cfg.tradeAmount, cfg.threshold,
                                Cap(cfg.maxPositions, st.ledger.cash, cfg.tradeAmount));
      var k := FirstUnsplit(sel);
      var after := Tick(st, paths, cfg, now, prices);
      (Crashes(st, paths, cfg, now, prices) <==> k < |sel|) &&
      after.ledger == RunSelected(st.ledger, sel[..k], prices, cfg, now) &&
      (k < |sel| ==> after.active == st.active + {sel[k].1} && after.skipUntil == st.skipUntil && after.lastTradeTime == st.lastTradeTime) &&
      (k == |sel| ==> after.active == st.active && after.skipUntil == Some(now + cfg.skipSeconds) && after.lastTradeTime == Some(now))
  {
    var sel := Selected(paths, st.active, prices, cfg.baseCurrency, cfg.fee, cfg.tradeAmount, cfg.threshold,
                        Cap(cfg.maxPositions, st.ledger.cash, cfg.tradeAmount));
    assert FirstUnsplit(sel) == |sel| ==> sel[..FirstUnsplit(sel)] == sel;
  }

  /**
   * A tick that raises in its execution loop leaves exactly one more path
   * marked as being traded: a selected path, from the tick's paths, whose
   * reverse legs do not split.
   */
  lemma TickCrash(st: State, paths: seq<Path>, cfg: Config, now: int, prices: Prices)
    requires Attempts(st, paths, cfg, now, prices) && Crashes(st, paths, cfg, now, prices)
    ensures exists p :: (p in paths && p !in st.active && !ReverseLegsSplit(p) &&
      Tick(st, paths, cfg, now, prices).active == st.active + {p})
  {
    var cap := Cap(cfg.maxPositions, st.ledger.cash, cfg.tradeAmount);
    var sel := Selected(paths, st.active, prices, cfg.baseCurrency, cfg.fee, cfg.tradeAmount, cfg.threshold, cap);
    var k := FirstUnsplit(sel);
    SelectedMembers(paths, st.active, prices, cfg.baseCurrency, cfg.fee, cfg.tradeAmount, cfg.threshold, cap);
    assert sel[k] in sel;
    var p := sel[k].1;
    assert p in paths && p !in st.active && !ReverseLegsSplit(p) && Tick(st, paths, cfg, now, prices).active == st.active + {p};
  }

  /**
   * A tick keeps the books consistent, raising or not, and trades at most
   * the cap, and never more than `max_positions`.
   */
  lemma TickLedger(st: State, start: real, paths: seq<Path>, cfg: Config, now: int, prices: Prices)
    requires Balanced(st.ledger, start)
    ensures Balanced(Tick(st, paths, cfg, now, prices).ledger, start)
    ensures st.ledger.numTrades <= Tick(st, paths, cfg, now, prices).ledger.numTrades
    ensures Attempts(st, paths, cfg, now, prices) ==>
      Tick(st, paths, cfg, now, prices).ledger.numTrades - st.ledger.numTrades <= Cap(cfg.maxPositions, st.ledger.cash, cfg.tradeAmount) <= cfg.maxPositions
  {
    if Attempts(st, paths, cfg, now, prices) {
      var cap := Cap(cfg.maxPositions, st.ledger.cash, cfg.tradeAmount);
      var sel := Selected(paths, st.active, prices, cfg.baseCurrency, cfg.fee, cfg.tradeAmount, cfg.threshold, cap);
      var run := sel[..FirstUnsplit(sel)];
      SelectedBounds(paths, st.active, prices, cfg.baseCurrency, cfg.fee, cfg.tradeAmount, cfg.threshold, cap);
      RunSelectedConsistent(st.ledger, start, run, prices, cfg, now);
      RunSelectedBound(st.ledger, run, prices, cfg, now);
      assert FirstUnsplit(sel) == |sel| ==> run == sel;
    }
  }

  /**
   * With a threshold of at least -1 neither the sentinel nor a raising path
   * is ever selected, so a tick that attempts trades does not raise and
   * every attempted path goes through: the tick appends one record per
   * selected path, best first, each booking exactly the rate it was
   * selected with, which is above the threshold.
   */
  lemma TickTrades(st: State, paths: seq<Path>, cfg: Config, now: int, prices: Prices)
    requires cfg.threshold >= -1.0 && Attempts(st, paths, cfg, now, prices)
    ensures !Crashes(st, paths, cfg, now, prices)
    ensures |st.ledger.records| <= |Tick(st, paths, cfg, now, prices).ledger.records|
    ensures var after := Tick(st, paths, cfg, now, prices).ledger;
      var added := after.records[|st.ledger.records|..];
      after.records[..|st.ledger.records|] == st.ledger.records &&
      after.numTrades == st.ledger.numTrades + |added| &&
      0 < |added| <= Cap(cfg.maxPositions, st.ledger.cash, cfg.tradeAmount) &&
      (forall k :: 0 <= k < |added| ==> added[k].profitRate > cfg.threshold && added[k].datetime == now) &&
      (forall k1, k2 :: 0 <= k1 < k2 < |added| ==> added[k1].profitRate >= added[k2].profitRate)
  {
    var cap := Cap(cfg.maxPositions, st.ledger.cash, cfg.tradeAmount);
    var sel := Selected(paths, st.active, prices, cfg.baseCurrency, cfg.fee, cfg.tradeAmount, cfg.threshold, cap);
    SelectedBounds(paths, st.active, prices, cfg.baseCurrency, cfg.fee, cfg.tradeAmount, cfg.threshold, cap);
    SelectedMembers(paths, st.active, prices, cfg.baseCurrency, cfg.fee, cfg.tradeAmount, cfg.threshold, cap);
    assert AllPricedAt(sel, prices, cfg) by {
      forall k | 0 <= k < |sel|
        ensures Evaluate(sel[k].1, prices, cfg.baseCurrency, cfg.fee, cfg.tradeAmount) == Profit(sel[k].0)
      {
        assert sel[k] in sel;
      }
    }
    if FirstUnsplit(sel) < |sel| {
      var k := FirstUnsplit(sel);
      assert sel[k] in sel;
      WellFormedReverse(sel[k].1);
    }
    RunSelectedPriced(st.ledger, sel, prices, cfg, now);
    PlannedAllExact(sel, cfg, now);
    var after := Tick(st, paths, cfg, now, prices).ledger;
    assert after.records == st.ledger.records + PlannedAll(sel, cfg, now);
    assert after.records[|st.ledger.records|..] == PlannedAll(sel, cfg, now);
    forall k | 0 <= k < |sel|
      ensures sel[k].0 > cfg.threshold
    {
      assert sel[k] in sel;
    }
  }

  /**
   * On discovered paths, or any whose symbols all split, with a non-zero
   * trade amount, `next` never raises.
   */
  lemma WellFormedNeverCrashes(st: State, paths: seq<Path>, cfg: Config, now: int, prices: Prices)
    requires cfg.tradeAmount != 0.0 && AllWellFormed(paths)
    ensures !Crashes(st, paths, cfg, now, prices)
  {
    WellFormedChunkRuns(paths, st.active, prices, cfg.baseCurrency, cfg.fee, cfg.tradeAmount);
    if Attempts(st, paths, cfg, now, prices) {
      var cap := Cap(cfg.maxPositions, st.ledger.cash, cfg.tradeAmount);
      var sel := Selected(paths, st.active, prices, cfg.baseCurrency, cfg.fee, cfg.tradeAmount, cfg.threshold, cap);
      SelectedMembers(paths, st.active, prices, cfg.baseCurrency, cfg.fee, cfg.tradeAmount, cfg.threshold, cap);
      forall j | 0 <= j < |sel|
        ensures ReverseLegsSplit(sel[j].1)
      {
        assert sel[j] in sel;
        var i :| 0 <= i < |paths| && paths[i] == sel[j].1;
        WellFormedReverse(paths[i]);
      }
    }
  }

  /**
   * A selling leg as execution computes it: the fee is worked out on the
   * proceeds and then subtracted.  It comes to the evaluator's amount.
   */
  method SellLeg(size: real, price: real, fee: real) returns (proceeds: real)
    ensures proceeds == Sell(size, price, fee)
  {
    var feeAmount := size * price * fee;
    proceeds := size * price - feeAmount;
  }

  /**
   * A buying leg as execution computes it: the size bought is the amount
   * held over the price, and the fee is taken off that size.  It comes to
   * the evaluator's amount.
   */
  method BuyLeg(currentAmount: real, price: real, fee: real) returns (bought: real)
    requires price != 0.0
    ensures bought == Buy(currentAmount, price, fee)
  {
    var size := currentAmount / price;
    var feeAmount := size * fee;
    bought := size - feeAmount;
  }

  class TriangularArbStrategy {
    const cfg: Config
    const arbPaths: seq<Path>
    var cash: real
    var activeTrades: set<Path>
    var numTrades: int
    var totalProfit: real
    var tradeRecords: seq<TradeRecord>
    var skipUntil: Option<int>
    var lastTradeTime: Option<int>
    ghost const startingCash: real

    function Account(): Ledger
      reads this
    {
      Ledger(cash, totalProfit, numTrades, tradeRecords)
    }

    function Snapshot(): State
      reads this
    {
      State(Account(), activeTrades, skipUntil, lastTradeTime)
    }

    /**
     * Between ticks no path is being traded and the books are consistent
     * with the starting cash.
     */
    ghost predicate Valid()
      reads this
    {
      activeTrades == {} && Balanced(Account(), startingCash)
    }

    /**
     * `__init__`: the paths are loaded from a paths file when one is given,
     * and are otherwise discovered from the available pairs.  `pathsFile`
     * is `Some(text)` when `paths_file` is a non-empty name, `text` being
     * what reading the named file yields, and `None` when it is empty or
     * not given.
     */
    constructor (config: Config, pairs: seq<string>, pathsFile: Option<string>, initialCash: real)
      ensures Valid()
      ensures cfg == config && cash == initialCash && numTrades == 0 && totalProfit == 0.0 && tradeRecords == []
      ensures skipUntil == None && lastTradeTime == None
      ensures pathsFile.Some? ==> arbPaths == LoadPaths(pathsFile.value)
      ensures pathsFile.None? ==> arbPaths == TriangularPaths(BuildGraph(pairs), config.baseCurrency)
    {
      cfg := config;
      cash := initialCash;
      activeTrades := {};
      numTrades := 0;
      totalProfit := 0.0;
      tradeRecords := [];
      skipUntil := None;
      lastTradeTime := None;
      startingCash := initialCash;
      if pathsFile.Some? {
        arbPaths := LoadPaths(pathsFile.value);
      } else {
        var graph := BuildCurrencyGraph(pairs);
        var found := FindTriangularPaths(graph, config.baseCurrency);
        DiscoveredWellFormed(pairs, config.baseCurrency);
        arbPaths := found;
      }
    }

    /**
     * `_check_paths_chunk`: the paths not being traded whose evaluation
     * scores strictly above the threshold, with their scores, in input
     * order; `raised` when the evaluation of one of them raises.
     */
    method CheckPathsChunk(paths: seq<Path>, amount: real, prices: Prices) returns (profitable: seq<Entry>, raised: bool)
      ensures raised == ChunkRaises(paths, activeTrades, prices, cfg.baseCurrency, cfg.fee, amount)
      ensures !raised ==> profitable == CheckChunk(paths, activeTrades, prices, cfg.baseCurrency, cfg.fee, amount, cfg.threshold)
    {
      profitable := [];
      for i := 0 to |paths|
        invariant !ChunkRaises(paths[..i], activeTrades, prices, cfg.baseCurrency, cfg.fee, amount)
        invariant profitable == CheckChunk(paths[..i], activeTrades, prices, cfg.baseCurrency, cfg.fee, amount, cfg.threshold)
      {
        CheckChunkPrefix(paths, i, activeTrades, prices, cfg.baseCurrency, cfg.fee, amount, cfg.threshold);
        ChunkRaisesPrefix(paths, i, activeTrades, prices, cfg.baseCurrency, cfg.fee, amount);
        var path := paths[i];
        if path in activeTrades {
          continue;
        }
        var profit := CalculateProfit(path, prices, cfg.baseCurrency, cfg.fee, amount);
        if profit.Raised? {
          ChunkRaisesExtends(paths, i + 1, activeTrades, prices, cfg.baseCurrency, cfg.fee, amount);
          return profitable, true;
        }
        if Score(profit) > cfg.threshold {
          profitable := profitable + [(Score(profit), path)];
        }
      }
      assert paths[..|paths|] == paths;
      raised := false;
    }

    /**
     * The guarded walk of `_execute_trade`: the amount the legs leave in the
     * base currency, with the fee taken off each leg, or None where the
     * guarded block raises (a symbol that does not split, a missing price, a
     * zero price on a buying leg, a leg that does not start from the
     * currency held, or a walk that does not end in the base currency).
     */
    method WalkLegs(path: Path, amount: real, prices: Prices) returns (settled: Option<real>)
      ensures settled == Settle(path, prices, cfg.baseCurrency, cfg.fee, amount)
    {
      var currentAmount := amount;
      var currentCurrency := cfg.baseCurrency;
      for i := 0 to |path|
        invariant AllTradable(path[..i], prices)
        invariant CurrencyAfter(path[..i], cfg.baseCurrency) == Some(currentCurrency)
        invariant currentAmount == AmountAfter(path[..i], prices, cfg.fee, amount)
      {
        var leg := path[i];
        ChainSnoc(path, i, cfg.baseCurrency);
        var split := SplitPair(leg.symbol);
        if split.None? {
          ChainFailed(path, i + 1, cfg.baseCurrency);
          return None;
        }
        var (baseCurrency, quoteCurrency) := split.value;
        if leg.dir == 1 {
          if currentCurrency != baseCurrency {
            ChainFailed(path, i + 1, cfg.baseCurrency);
            return None;
          }
          if leg.symbol !in prices {
            return None;
          }
          var price := prices[leg.symbol];
          TradableSnoc(path, i, prices);
          AmountSnoc(path, i, prices, cfg.fee, amount);
          currentAmount := SellLeg(currentAmount, price, cfg.fee);
          currentCurrency := quoteCurrency;
        } else {
          if currentCurrency != quoteCurrency {
            ChainFailed(path, i + 1, cfg.baseCurrency);
            return None;
          }
          if leg.symbol !in prices || prices[leg.symbol] == 0.0 {
            return None;
          }
          var price := prices[leg.symbol];
          TradableSnoc(path, i, prices);
          AmountSnoc(path, i, prices, cfg.fee, amount);
          currentAmount := BuyLeg(currentAmount, price, cfg.fee);
          currentCurrency := baseCurrency;
        }
      }
      assert path[..|path|] == path;
      if currentCurrency != cfg.baseCurrency {
        return None;
      }
      return Some(currentAmount);
    }

    /**
     * `_execute_trade`: it raises, changing nothing and leaving the path
     * marked, when the symbol of a reverse leg does not split; otherwise,
     * when the walk settles, the cash becomes what it was less the amount
     * put in plus what came back, and the gain is booked and recorded, and
     * when the walk raises, the books stay as they were.  Unless it raised,
     * the path stops being traded.
     */
    method ExecuteTrade(path: Path, amount: real, now: int, prices: Prices) returns (raised: bool)
      requires path in activeTrades && amount != 0.0
      modifies this
      ensures raised == !ReverseLegsSplit(path)
      ensures raised ==> Account() == old(Account()) && activeTrades == old(activeTrades)
      ensures !raised ==> Account() == Execute(old(Account()), path, prices, cfg, amount, now)
      ensures !raised ==> activeTrades == old(activeTrades) - {path}
      ensures skipUntil == old(skipUntil) && lastTradeTime == old(lastTradeTime)
    {
      for i := 0 to |path|
        invariant forall j :: 0 <= j < i && path[j].dir != 1 ==> WellFormedSymbol(path[j].symbol)
      {
        if path[i].dir != 1 && SplitPair(path[i].symbol).None? {
          return true;
        }
      }
      var settled := WalkLegs(path, amount, prices);
      if settled.Some? {
        var currentAmount := settled.value;
        var initialAmount := cash;
        var finalAmount := initialAmount - amount + currentAmount;
        cash := finalAmount;
        var actualProfit := finalAmount - initialAmount;
        var profitRate := actualProfit / amount;
        totalProfit := totalProfit + actualProfit;
        numTrades := numTrades + 1;
        tradeRecords := tradeRecords + [TradeRecord(now, Describe(path), profitRate, amount, currentAmount)];
      }
      activeTrades := activeTrades - {path};
      raised := false;
    }

    /**
     * The execution loop of `next`: each chosen path is marked as being
     * traded, executed, and counted, until one raises; then the trades
     * before it stand and it stays marked.
     */
    method ExecuteSelected(chosen: seq<Entry>, now: int, prices: Prices) returns (executedCount: int, raised: bool)
      requires activeTrades == {} && cfg.tradeAmount != 0.0
      modifies this
      ensures raised == (FirstUnsplit(chosen) < |chosen|)
      ensures Account() == RunSelected(old(Account()), chosen[..FirstUnsplit(chosen)], prices, cfg, now)
      ensures !raised ==> executedCount == |chosen| && activeTrades == {}
      ensures raised ==> activeTrades == {chosen[FirstUnsplit(chosen)].1}
      ensures skipUntil == old(skipUntil) && lastTradeTime == old(lastTradeTime)
    {
      ghost var start := Account();
      executedCount := 0;
      for k := 0 to |chosen|
        invariant k <= FirstUnsplit(chosen)
        invariant activeTrades == {}
        invariant executedCount == k
        invariant Account() == RunSelected(start, chosen[..k], prices, cfg, now)
        invariant skipUntil == old(skipUntil) && lastTradeTime == old(lastTradeTime)
      {
        var (profit, path) := chosen[k];
        if path in activeTrades {
          // a path already being traded is skipped; between ticks none is
          assert false;
        }
        activeTrades := activeTrades + {path};
        RunSelectedPrefix(start, chosen, k, prices, cfg, now);
        raised := ExecuteTrade(path, cfg.tradeAmount, now, prices);
        if raised {
          return;
        }
        executedCount := executedCount + 1;
      }
      assert chosen[..|chosen|] == chosen;
      raised := false;
    }

    /**
     * `next`: one tick of the strategy at time `now` with the prices of
     * that tick; `crashed` when it raises, which ends the run.
     */
    method Next(now: int, prices: Prices) returns (crashed: bool)
      requires Valid()
      modifies this
      ensures crashed == Crashes(old(Snapshot()), arbPaths, cfg, now, prices)
      ensures Snapshot() == Tick(old(Snapshot()), arbPaths, cfg, now, prices)
      ensures Balanced(Account(), startingCash)
      ensures !crashed ==> Valid()
    {
      ghost var st := Snapshot();
      if !Attempts(st, arbPaths, cfg, now, prices) {
        TickEarly(st, arbPaths, cfg, now, prices);
      } else {
        TickExecution(st, arbPaths, cfg, now, prices);
      }
      if |arbPaths| == 0 || (skipUntil.Some? && now < skipUntil.value) {
        return false;
      }
      var totalAvailableCash := cash;
      var perTradeAmount := cfg.tradeAmount;
      if perTradeAmount == 0.0 {
        // the division of the cap raises
        return true;
      }
      var maxPossibleTrades := Cap(cfg.maxPositions, totalAvailableCash, perTradeAmount);
      if maxPossibleTrades <= 0 {
        return false;
      }
      var profitablePaths, chunkRaised := CheckPathsChunk(arbPaths, perTradeAmount, prices);
      if chunkRaised || |profitablePaths| == 0 {
        return chunkRaised;
      }
      var chosen := Take(SortDesc(profitablePaths), maxPossibleTrades);
      assert chosen == Selected(arbPaths, activeTrades, prices, cfg.baseCurrency, cfg.fee, perTradeAmount, cfg.threshold, maxPossibleTrades);
      RunSelectedConsistent(Account(), startingCash, chosen[..FirstUnsplit(chosen)], prices, cfg, now);
      var executedCount, raised := ExecuteSelected(chosen, now, prices);
      crashed := raised;
      if !raised && executedCount > 0 {
        lastTradeTime := Some(now);
        skipUntil := Some(now + cfg.skipSeconds);
      }
    }
  }

  /** Every discovered path is well formed. */
  lemma {:induction false} DiscoveredWellFormed(pairs: seq<string>, base: string)
    ensures AllWellFormed(TriangularPaths(BuildGraph(pairs), base))
  {
    var paths := TriangularPaths(BuildGraph(pairs), base);
    forall i | 0 <= i < |paths|
      ensures LegsWellFormed(paths[i])
    {
      DiscoveredPathsChain(pairs, base, paths[i]);
    }
  }
}
