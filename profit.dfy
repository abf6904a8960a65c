/**
 * Pricing a path: `_calculate_profit` (tri_arb.py:341-372), which predicts the
 * return of a cycle from the current prices, and the amount the leg loop of
 * `_execute_trade` (tri_arb.py:404-435) settles to.
 */
module ProfitEval {
  import opened Symbols
  import opened PathFinder

  /** The close price of every pair that has a data feed this tick (`getprice`). */
  type Prices = map<string, real>

  /**
   * What `_calculate_profit` does: return the -1 sentinel, return the
   * predicted rate of return, or raise (a priced leg whose symbol does not
   * split into two codes, or a division by a zero amount).
   */
  datatype Outcome = Failure | Profit(rate: real) | Raised

  /**
   * The number the strategy compares with its threshold: the sentinel counts
   * as -1.  An evaluation that raises yields no number; the -1 given to it
   * here is never compared, because the chunk check stops at it.
   */
  function Score(o: Outcome): real {
    match o
    case Profit(r) => r
    case _ => -1.0
  }

  /** The evaluation accepts a price when there is one and it is not zero (zero is falsy). */
  predicate Priced(prices: Prices, sym: string) {
    sym in prices && prices[sym] != 0.0
  }

  predicate AllPriced(path: Path, prices: Prices) {
    forall i :: 0 <= i < |path| ==> Priced(prices, path[i].symbol)
  }

  /**
   * Execution can do a leg's arithmetic when the leg has a price and, buying
   * the base, that price is not zero (selling at a zero price goes through).
   */
  predicate Tradable(prices: Prices, leg: Leg) {
    leg.symbol in prices && (leg.dir == 1 || prices[leg.symbol] != 0.0)
  }

  predicate AllTradable(path: Path, prices: Prices) {
    forall i :: 0 <= i < |path| ==> Tradable(prices, path[i])
  }

  /** The conversion factor of one leg: what one unit of the currency it starts from turns into. */
  function Factor(leg: Leg, prices: Prices, fee: real): real
    requires Tradable(prices, leg)
  {
    Step(1.0, leg, prices, fee)
  }

  /** The product of the factors of all legs. */
  function FactorProduct(path: Path, prices: Prices, fee: real): real
    requires AllTradable(path, prices)
  {
    if path == [] then 1.0
    else FactorProduct(path[..|path| - 1], prices, fee) * Factor(path[|path| - 1], prices, fee)
  }

  /**
   * The amount held after one leg, in the loop's own arithmetic: selling the
   * base multiplies by the price, buying it divides by the price, and either
   * way the fee is taken off what comes out.
   */
  function Step(cur: real, leg: Leg, prices: Prices, fee: real): real
    requires Tradable(prices, leg)
  {
    if leg.dir == 1 then Sell(cur, prices[leg.symbol], fee) else Buy(cur, prices[leg.symbol], fee)
  }

  /** Proceeds of selling `cur` units of a base at `price`, net of the fee. */
  function Sell(cur: real, price: real, fee: real): real {
    cur * price * (1.0 - fee)
  }

  /** Units of a base bought with `cur` of its quote at a nonzero `price`, net of the fee. */
  function Buy(cur: real, price: real, fee: real): real
    requires price != 0.0
  {
    (cur / price) * (1.0 - fee)
  }

  /** The amount held after the legs of `path`, starting from `amount`. */
  function AmountAfter(path: Path, prices: Prices, fee: real, amount: real): real
    requires AllTradable(path, prices)
  {
    if path == [] then amount
    else
      TradablePrefix(path, |path| - 1, prices);
      Step(AmountAfter(path[..|path| - 1], prices, fee, amount), path[|path| - 1], prices, fee)
  }

  /** Every prefix of a tradable path is tradable. */
  lemma TradablePrefix(path: Path, k: nat, prices: Prices)
    requires k <= |path| && AllTradable(path, prices)
    ensures AllTradable(path[..k], prices)
  {
    assert forall i :: 0 <= i < k ==> path[..k][i] == path[i];
  }

  /** One leg multiplies the amount by that leg's factor. */
  lemma StepFactor(cur: real, leg: Leg, prices: Prices, fee: real, f: real)
    requires Tradable(prices, leg) && f == Factor(leg, prices, fee)
    ensures Step(cur, leg, prices, fee) == cur * f
  {
  }

  /** The product over one more leg, with the factors named. */
  lemma {:induction false} ProductStep(path: Path, prices: Prices, fee: real, y: real, f: real, p: real)
    requires path != [] && AllTradable(path, prices) && AllTradable(path[..|path| - 1], prices)
    requires y == FactorProduct(path[..|path| - 1], prices, fee) && f == Factor(path[|path| - 1], prices, fee)
    requires p == FactorProduct(path, prices, fee)
    ensures p == y * f
  {
  }

  /**
   * The loop's running amount is the starting amount times the product of
   * the factors: the amount after the legs scales with the amount put in.
   */
  lemma {:induction false} AmountClosedForm(path: Path, prices: Prices, fee: real, amount: real)
    requires AllTradable(path, prices)
    ensures AmountAfter(path, prices, fee, amount) == amount * FactorProduct(path, prices, fee)
  {
    if path != [] {
      TradablePrefix(path, |path| - 1, prices);
      AmountClosedForm(path[..|path| - 1], prices, fee, amount);
      ClosedFormStep(path, prices, fee, amount);
    }
  }

  /** The inductive step of the closed form: one more leg multiplies both sides by its factor. */
  lemma {:induction false} ClosedFormStep(path: Path, prices: Prices, fee: real, amount: real)
    requires path != [] && AllTradable(path, prices) && AllTradable(path[..|path| - 1], prices)
    requires AmountAfter(path[..|path| - 1], prices, fee, amount) == amount * FactorProduct(path[..|path| - 1], prices, fee)
    ensures AmountAfter(path, prices, fee, amount) == amount * FactorProduct(path, prices, fee)
  {
    var init, last := path[..|path| - 1], path[|path| - 1];
    var t, x, y, f, p :=
      AmountAfter(path, prices, fee, amount), AmountAfter(init, prices, fee, amount),
      FactorProduct(init, prices, fee), Factor(last, prices, fee), FactorProduct(path, prices, fee);
    AmountStep(path, prices, fee, amount, t, x, f);
    ProductStep(path, prices, fee, y, f, p);
    MulCongr(amount, y, FactorProduct(init, prices, fee));
    ScaleStep(t, x, amount, y, f, p);
    MulCongr(amount, p, FactorProduct(path, prices, fee));
  }

  /** Scaling equal amounts gives equal amounts. */
  lemma MulCongr(a: real, b: real, c: real)
    requires b == c
    ensures a * b == a * c
  {
  }

  /** The amount over one more leg, with the factor named. */
  lemma {:induction false} AmountStep(path: Path, prices: Prices, fee: real, amount: real, t: real, x: real, f: real)
    requires path != [] && AllTradable(path, prices) && AllTradable(path[..|path| - 1], prices)
    requires x == AmountAfter(path[..|path| - 1], prices, fee, amount) && f == Factor(path[|path| - 1], prices, fee)
    requires t == AmountAfter(path, prices, fee, amount)
    ensures t == x * f
  {
    StepFactor(x, path[|path| - 1], prices, fee, f);
  }

  /** The last leg of the amount and of the product, one level each. */
  lemma {:induction false} Unfold(path: Path, prices: Prices, fee: real, amount: real)
    requires path != [] && AllTradable(path, prices)
    ensures AllTradable(path[..|path| - 1], prices)
    ensures AmountAfter(path, prices, fee, amount)
         == Step(AmountAfter(path[..|path| - 1], prices, fee, amount), path[|path| - 1], prices, fee)
    ensures FactorProduct(path, prices, fee)
         == FactorProduct(path[..|path| - 1], prices, fee) * Factor(path[|path| - 1], prices, fee)
  {
    TradablePrefix(path, |path| - 1, prices);
  }

  lemma ScaleStep(t: real, x: real, a: real, y: real, f: real, p: real)
    requires t == x * f && x == a * y && p == y * f
    ensures t == a * p
  {
  }

  /** Every priced leg is tradable. */
  lemma PricedTradable(path: Path, prices: Prices)
    requires AllPriced(path, prices)
    ensures AllTradable(path, prices)
  {
  }

  /**
   * The evaluation loop gets through every leg of `prefix` without
   * returning: each leg has a usable price and starts from the currency held.
   */
  predicate Walks(prefix: Path, prices: Prices, base: string) {
    AllPriced(prefix, prices) && CurrencyAfter(prefix, base).Some?
  }

  /**
   * Whether `_calculate_profit` raises on the split of some leg: the loop
   * gets through the legs before it, the leg has a usable price (the price
   * test comes first), and its symbol does not split into two codes.
   */
  predicate Raises(path: Path, prices: Prices, base: string)
    decreases |path|
  {
    if path == [] then false
    else
      var init, last := path[..|path| - 1], path[|path| - 1];
      Raises(init, prices, base) ||
      (Walks(init, prices, base) && Priced(prices, last.symbol) && !WellFormedSymbol(last.symbol))
  }

  /**
   * What `_calculate_profit` computes: it raises on a reached priced leg that
   * does not split; it is the sentinel when some leg has no usable price or
   * the legs do not chain from base back to base; otherwise it is the rate
   * `(final - amount) / amount` of the amount the legs end with, which raises
   * when that amount is zero.
   */
  function Evaluate(path: Path, prices: Prices, base: string, fee: real, amount: real): Outcome {
    if Raises(path, prices, base) then Raised
    else if !(AllPriced(path, prices) && CurrencyAfter(path, base) == Some(base)) then Failure
    else if amount == 0.0 then Raised
    else
      PricedTradable(path, prices);
      Profit((AmountAfter(path, prices, fee, amount) - amount) / amount)
  }

  /** Leg `k` is reached, has a usable price and does not split: the leg the evaluation raises on. */
  predicate RaisesAt(path: Path, k: int, prices: Prices, base: string) {
    0 <= k < |path| && Walks(path[..k], prices, base) && Priced(prices, path[k].symbol) && !WellFormedSymbol(path[k].symbol)
  }

  /** A leg that raises in a prefix raises in the whole path. */
  lemma RaisesAtPrefix(path: Path, n: nat, k: int, prices: Prices, base: string)
    requires n <= |path| && 0 <= k < n
    ensures RaisesAt(path[..n], k, prices, base) <==> RaisesAt(path, k, prices, base)
  {
    assert path[..n][..k] == path[..k];
  }

  /**
   * The evaluation raises exactly when some leg is reached with a usable
   * price and its symbol does not split.
   */
  lemma {:induction false} RaisesExactly(path: Path, prices: Prices, base: string)
    ensures Raises(path, prices, base) <==> exists k :: RaisesAt(path, k, prices, base)
    decreases |path|
  {
    if path != [] {
      var n := |path| - 1;
      var init := path[..n];
      RaisesExactly(init, prices, base);
      if Raises(path, prices, base) {
        if Raises(init, prices, base) {
          var k :| RaisesAt(init, k, prices, base);
          RaisesAtPrefix(path, n, k, prices, base);
        } else {
          assert RaisesAt(path, n, prices, base);
        }
      }
      if exists k :: RaisesAt(path, k, prices, base) {
        var k :| RaisesAt(path, k, prices, base);
        if k < n {
          RaisesAtPrefix(path, n, k, prices, base);
        } else {
          assert path[..k] == init;
        }
      }
    }
  }

  /** A path whose legs all split never raises. */
  lemma {:induction false} WellFormedNeverRaises(path: Path, prices: Prices, base: string)
    requires LegsWellFormed(path)
    ensures !Raises(path, prices, base)
  {
    RaisesExactly(path, prices, base);
  }

  /** Legs that chain from a currency to some currency all split. */
  lemma {:induction false} ChainedWellFormed(path: Path, c: string)
    requires CurrencyAfter(path, c).Some?
    ensures LegsWellFormed(path)
    decreases |path|
  {
    if path != [] {
      var init := path[..|path| - 1];
      ChainedWellFormed(init, c);
      assert forall k :: 0 <= k < |init| ==> init[k] == path[k];
    }
  }

  /** A path that evaluates to a rate has legs that all split. */
  lemma ProfitWellFormed(path: Path, prices: Prices, base: string, fee: real, amount: real)
    requires Evaluate(path, prices, base, fee, amount).Profit?
    ensures LegsWellFormed(path)
  {
    ChainedWellFormed(path, base);
  }

  /**
   * The sentinel at a leg: once the loop has returned before the end of a
   * prefix without raising, no later leg is reached.
   */
  lemma {:induction false} StaysStopped(path: Path, k: nat, prices: Prices, base: string)
    requires k <= |path| && !Walks(path[..k], prices, base) && !Raises(path[..k], prices, base)
    ensures !Walks(path, prices, base) && !Raises(path, prices, base)
    decreases |path| - k
  {
    if k < |path| {
      var q := path[..k + 1];
      assert q[..k] == path[..k];
      ChainSnoc(path, k, base);
      if !AllPriced(path[..k], prices) {
        var j :| 0 <= j < k && !Priced(prices, path[..k][j].symbol);
        assert q[j] == path[..k][j];
      }
      StaysStopped(path, k + 1, prices, base);
    } else {
      assert path[..k] == path;
    }
  }

  /** A prefix at which the loop has returned without raising makes the evaluation the sentinel. */
  lemma {:induction false} EvaluateStopped(path: Path, k: nat, prices: Prices, base: string, fee: real, amount: real)
    requires k <= |path| && !Walks(path[..k], prices, base) && !Raises(path[..k], prices, base)
    ensures Evaluate(path, prices, base, fee, amount) == Failure
  {
    StaysStopped(path, k, prices, base);
  }

  /** A prefix that raises makes the evaluation raise. */
  lemma {:induction false} EvaluateRaised(path: Path, k: nat, prices: Prices, base: string, fee: real, amount: real)
    requires k <= |path| && Raises(path[..k], prices, base)
    ensures Evaluate(path, prices, base, fee, amount) == Raised
  {
    RaisesPersists(path, k, prices, base);
  }

  /** A leg whose symbol splits does not make the prefix raise. */
  lemma {:induction false} SplitStep(path: Path, i: nat, prices: Prices, base: string)
    requires i < |path| && !Raises(path[..i], prices, base) && WellFormedSymbol(path[i].symbol)
    ensures !Raises(path[..i + 1], prices, base)
  {
    assert path[..i + 1][..i] == path[..i] && path[..i + 1][i] == path[i];
  }

  /** Once a prefix raises, the whole path does. */
  lemma {:induction false} RaisesPersists(path: Path, k: nat, prices: Prices, base: string)
    requires k <= |path| && Raises(path[..k], prices, base)
    ensures Raises(path, prices, base)
    decreases |path| - k
  {
    if k < |path| {
      assert path[..k + 1][..k] == path[..k];
      RaisesPersists(path, k + 1, prices, base);
    } else {
      assert path[..k] == path;
    }
  }

  /** The rate of return of ending with `a * s` after putting in `a`, and its inverse. */
  lemma RateArithmetic(final: real, s: real, a: real)
    requires a != 0.0 && final == a * s
    ensures (final - a) / a == s - 1.0
  {
    assert (final - a) / a == final / a - a / a;
    assert final / a == s;
  }

  /** Growing `a` by the rate of return of ending with `final` gives `final` back. */
  lemma RateInverse(final: real, a: real, r: real)
    requires a != 0.0 && r == (final - a) / a
    ensures a * (1.0 + r) == final
  {
    assert a * r == final - a;
  }

  /** A rate is the return on the amount the legs end with, from a non-zero amount. */
  lemma {:induction false} ProfitUnfold(path: Path, prices: Prices, base: string, fee: real, amount: real)
    requires Evaluate(path, prices, base, fee, amount).Profit?
    ensures amount != 0.0 && AllTradable(path, prices)
    ensures Evaluate(path, prices, base, fee, amount).rate == (AmountAfter(path, prices, fee, amount) - amount) / amount
  {
    PricedTradable(path, prices);
  }

  /** The predicted rate is the factor product less one. */
  lemma {:induction false} ProfitRate(path: Path, prices: Prices, base: string, fee: real, amount: real)
    requires Evaluate(path, prices, base, fee, amount).Profit?
    ensures amount != 0.0 && AllTradable(path, prices)
    ensures Evaluate(path, prices, base, fee, amount).rate == FactorProduct(path, prices, fee) - 1.0
  {
    ProfitUnfold(path, prices, base, fee, amount);
    ReturnOnLegs(path, prices, fee, amount);
  }

  /** The return on the amount tradable legs end with is their factor product less one. */
  lemma {:induction false} ReturnOnLegs(path: Path, prices: Prices, fee: real, amount: real)
    requires amount != 0.0 && AllTradable(path, prices)
    ensures (AmountAfter(path, prices, fee, amount) - amount) / amount == FactorProduct(path, prices, fee) - 1.0
  {
    AmountClosedForm(path, prices, fee, amount);
    RateArithmetic(AmountAfter(path, prices, fee, amount), FactorProduct(path, prices, fee), amount);
  }

  /** The outcome does not depend on the notional the path is priced with. */
  lemma NotionalIndependent(path: Path, prices: Prices, base: string, fee: real, a1: real, a2: real)
    requires a1 != 0.0 && a2 != 0.0
    ensures Evaluate(path, prices, base, fee, a1) == Evaluate(path, prices, base, fee, a2)
  {
    if Evaluate(path, prices, base, fee, a1).Profit? {
      ProfitRate(path, prices, base, fee, a1);
      ProfitRate(path, prices, base, fee, a2);
    }
  }

  /** A product of positive factors is positive. */
  lemma {:induction false} FactorProductPositive(path: Path, prices: Prices, fee: real)
    requires AllPriced(path, prices) && fee < 1.0
    requires forall i :: 0 <= i < |path| ==> prices[path[i].symbol] > 0.0
    ensures AllTradable(path, prices)
    ensures FactorProduct(path, prices, fee) > 0.0
  {
    if path != [] {
      var init := path[..|path| - 1];
      var leg := path[|path| - 1];
      assert forall i :: 0 <= i < |init| ==> init[i] == path[i];
      FactorProductPositive(init, prices, fee);
      var p := prices[leg.symbol];
      assert Factor(leg, prices, fee) > 0.0 by {
        if leg.dir != 1 {
          assert 1.0 / p > 0.0;
        }
      }
      PositiveProduct(FactorProduct(init, prices, fee), Factor(leg, prices, fee));
    }
  }

  lemma PositiveProduct(x: real, y: real)
    requires x > 0.0 && y > 0.0
    ensures x * y > 0.0
  {
  }

  /**
   * With positive prices and a fee below 100% a real outcome is always above
   * -1, so the sentinel ranks below every path that can be priced.
   */
  lemma SentinelRanksLast(path: Path, prices: Prices, base: string, fee: real, amount: real)
    requires amount != 0.0 && fee < 1.0
    requires forall s :: s in prices ==> prices[s] > 0.0
    ensures !Evaluate(path, prices, base, fee, amount).Raised? ==>
      (Score(Evaluate(path, prices, base, fee, amount)) == -1.0 <==> Evaluate(path, prices, base, fee, amount).Failure?)
    ensures Evaluate(path, prices, base, fee, amount).Profit? ==> Evaluate(path, prices, base, fee, amount).rate > -1.0
  {
    if Evaluate(path, prices, base, fee, amount).Profit? {
      FactorProductPositive(path, prices, fee);
      ProfitRate(path, prices, base, fee, amount);
    }
  }

  /**
   * On a discovered cycle the split never raises and the currency checks
   * never fire: it is the sentinel exactly when some leg has no usable price.
   */
  lemma {:induction false} DiscoveredPathProfit(pairs: seq<string>, base: string, p: Path, prices: Prices, fee: real, amount: real)
    requires p in TriangularPaths(CurrencyGraph.BuildGraph(pairs), base) && amount != 0.0
    ensures LegsWellFormed(p)
    ensures !Evaluate(p, prices, base, fee, amount).Raised?
    ensures Evaluate(p, prices, base, fee, amount).Failure? <==> !AllPriced(p, prices)
  {
    DiscoveredPathsChain(pairs, base, p);
    WellFormedNeverRaises(p, prices, base);
  }

  /** The currency checks over a prefix: once a prefix fails to chain, the whole path does. */
  lemma {:induction false} ChainFailed(path: Path, k: nat, c: string)
    requires k <= |path| && CurrencyAfter(path[..k], c).None?
    ensures CurrencyAfter(path, c).None?
    decreases |path| - k
  {
    if k < |path| {
      assert path[..k + 1][..k] == path[..k];
      ChainFailed(path, k + 1, c);
    } else {
      assert path[..k] == path;
    }
  }

  /** Extending a priced prefix by a priced leg. */
  lemma PricedSnoc(path: Path, i: nat, prices: Prices)
    requires i < |path| && AllPriced(path[..i], prices) && Priced(prices, path[i].symbol)
    ensures AllPriced(path[..i + 1], prices) && AllTradable(path[..i + 1], prices)
  {
    assert forall k :: 0 <= k < i ==> path[..i][k] == path[k];
    assert forall k :: 0 <= k <= i ==> path[..i + 1][k] == path[k];
  }

  /** Extending a tradable prefix by a tradable leg. */
  lemma TradableSnoc(path: Path, i: nat, prices: Prices)
    requires i < |path| && AllTradable(path[..i], prices) && Tradable(prices, path[i])
    ensures AllTradable(path[..i + 1], prices)
  {
    assert forall k :: 0 <= k < i ==> path[..i][k] == path[k];
    assert forall k :: 0 <= k <= i ==> path[..i + 1][k] == path[k];
  }

  /** The amount after one more leg. */
  lemma {:induction false} AmountSnoc(path: Path, i: nat, prices: Prices, fee: real, amount: real)
    requires i < |path| && AllTradable(path[..i + 1], prices)
    ensures AllTradable(path[..i], prices) && Tradable(prices, path[i])
    ensures AmountAfter(path[..i + 1], prices, fee, amount) == Step(AmountAfter(path[..i], prices, fee, amount), path[i], prices, fee)
  {
    var q := path[..i + 1];
    assert q[..i] == path[..i];
    assert q[i] == path[i];
  }

  /** Extending the chain of currencies by one leg. */
  lemma {:induction false} ChainSnoc(path: Path, i: nat, c: string)
    requires i < |path|
    ensures CurrencyAfter(path[..i + 1], c) == ChainStep(CurrencyAfter(path[..i], c), path[i])
  {
    assert path[..i + 1][..i] == path[..i];
  }

  /** A reached leg without a usable price: the evaluation is the sentinel. */
  lemma {:induction false} UnpricedStops(path: Path, i: nat, prices: Prices, base: string, fee: real, amount: real)
    requires i < |path| && !Raises(path[..i], prices, base) && !Priced(prices, path[i].symbol)
    ensures Evaluate(path, prices, base, fee, amount) == Failure
  {
    assert path[..i + 1][..i] == path[..i] && path[..i + 1][i] == path[i];
    assert !Walks(path[..i + 1], prices, base);
    EvaluateStopped(path, i + 1, prices, base, fee, amount);
  }

  /** A reached, priced leg whose symbol does not split: the evaluation raises. */
  lemma UnsplitRaises(path: Path, i: nat, prices: Prices, base: string, fee: real, amount: real)
    requires i < |path| && Walks(path[..i], prices, base)
    requires Priced(prices, path[i].symbol) && !WellFormedSymbol(path[i].symbol)
    ensures Evaluate(path, prices, base, fee, amount) == Raised
  {
    assert path[..i + 1][..i] == path[..i] && path[..i + 1][i] == path[i];
    EvaluateRaised(path, i + 1, prices, base, fee, amount);
  }

  /**
   * A reached, priced leg whose symbol splits extends the loop's invariant by
   * one leg; when it starts from the wrong currency the evaluation is the
   * sentinel.
   */
  lemma {:induction false} LoopStep(path: Path, i: nat, prices: Prices, base: string, fee: real, amount: real, cur: string)
    requires i < |path| && AllPriced(path[..i], prices) && AllTradable(path[..i], prices)
    requires CurrencyAfter(path[..i], base) == Some(cur) && !Raises(path[..i], prices, base)
    requires Priced(prices, path[i].symbol) && WellFormedSymbol(path[i].symbol)
    ensures AllPriced(path[..i + 1], prices) && AllTradable(path[..i + 1], prices)
    ensures !Raises(path[..i + 1], prices, base)
    ensures CurrencyAfter(path[..i + 1], base) == ChainStep(Some(cur), path[i])
    ensures AmountAfter(path[..i + 1], prices, fee, amount) == Step(AmountAfter(path[..i], prices, fee, amount), path[i], prices, fee)
    ensures ChainStep(Some(cur), path[i]).None? ==> Evaluate(path, prices, base, fee, amount) == Failure
  {
    SplitStep(path, i, prices, base);
    PricedSnoc(path, i, prices);
    ChainSnoc(path, i, base);
    AmountSnoc(path, i, prices, fee, amount);
    if ChainStep(Some(cur), path[i]).None? {
      EvaluateStopped(path, i + 1, prices, base, fee, amount);
    }
  }

  /**
   * `_calculate_profit` as the loop it is: it returns the sentinel at the
   * first leg without a usable price or starting from the wrong currency,
   * raises at a leg whose symbol does not split, returns the sentinel after
   * the last leg unless it holds the base currency, and raises on the final
   * division when the amount is zero.
   */
  method CalculateProfit(path: Path, prices: Prices, baseCurrency: string, fee: real, amount: real)
    returns (profit: Outcome)
    ensures profit == Evaluate(path, prices, baseCurrency, fee, amount)
  {
    var initial := amount;
    var current := amount;
    var currentCurrency := baseCurrency;
    for i := 0 to |path|
      invariant AllPriced(path[..i], prices) && AllTradable(path[..i], prices)
      invariant CurrencyAfter(path[..i], baseCurrency) == Some(currentCurrency)
      invariant !Raises(path[..i], prices, baseCurrency)
      invariant current == AmountAfter(path[..i], prices, fee, amount)
    {
      var leg := path[i];
      if !(leg.symbol in prices) || prices[leg.symbol] == 0.0 {
        UnpricedStops(path, i, prices, baseCurrency, fee, amount);
        return Failure;
      }
      var split := SplitPair(leg.symbol);
      if split.None? {
        UnsplitRaises(path, i, prices, baseCurrency, fee, amount);
        return Raised;
      }
      LoopStep(path, i, prices, baseCurrency, fee, amount, currentCurrency);
      var price := prices[leg.symbol];
      var (base, quote) := split.value;
      if leg.dir == 1 {
        if currentCurrency == base {
          current := Sell(current, price, fee);
          currentCurrency := quote;
        } else {
          return Failure;
        }
      } else {
        if currentCurrency == quote {
          current := Buy(current, price, fee);
          currentCurrency := base;
        } else {
          return Failure;
        }
      }
    }
    assert path[..|path|] == path;
    if currentCurrency != baseCurrency {
      return Failure;
    }
    if initial == 0.0 {
      return Raised;
    }
    return Profit((current - initial) / initial);
  }

  /**
   * The amount of base currency the leg loop of `_execute_trade` ends with
   * when a trade of `amount` goes through, or None when it raises: a symbol
   * that does not split, a currency mismatch, a missing price, a division by
   * a zero price, or an end away from base.
   */
  function Settle(path: Path, prices: Prices, base: string, fee: real, amount: real): Option<real> {
    if AllTradable(path, prices) && CurrencyAfter(path, base) == Some(base) then
      Some(AmountAfter(path, prices, fee, amount))
    else None
  }

  /**
   * A path priced at rate `r` settles to `amount * (1 + r)` on the same
   * prices: execution realises exactly the predicted profit.
   */
  lemma SettleMatchesProfit(path: Path, prices: Prices, base: string, fee: real, amount: real, r: real)
    requires Evaluate(path, prices, base, fee, amount) == Profit(r)
    ensures Settle(path, prices, base, fee, amount) == Some(amount * (1.0 + r))
  {
    assert AllPriced(path, prices) && CurrencyAfter(path, base) == Some(base);
    PricedTradable(path, prices);
    var final := AmountAfter(path, prices, fee, amount);
    assert Settle(path, prices, base, fee, amount) == Some(final);
    RateInverse(final, amount, r);
    assert amount * (1.0 + r) == final;
  }

  /**
   * Execution is more lenient than evaluation: with a zero price on a selling
   * leg the cycle is the sentinel, yet executing it settles (to nothing).
   */
  lemma ZeroSellPriceSettles()
    ensures LegsWellFormed([Leg("A_B", 1), Leg("B_A", 1)])
    ensures Evaluate([Leg("A_B", 1), Leg("B_A", 1)], map["A_B" := 0.0, "B_A" := 2.0], "A", 0.001, 1.0) == Failure
    ensures Settle([Leg("A_B", 1), Leg("B_A", 1)], map["A_B" := 0.0, "B_A" := 2.0], "A", 0.001, 1.0) == Some(0.0)
  {
    var path := [Leg("A_B", 1), Leg("B_A", 1)];
    var prices := map["A_B" := 0.0, "B_A" := 2.0];
    RoundTripChains();
    WellFormedNeverRaises(path, prices, "A");
    assert !Priced(prices, path[0].symbol);
    assert AllTradable(path, prices);
    RoundTripAmount(prices);
  }

  /** Selling A for B and then B for A chains from A back to A. */
  lemma RoundTripChains()
    ensures LegsWellFormed([Leg("A_B", 1), Leg("B_A", 1)])
    ensures CurrencyAfter([Leg("A_B", 1), Leg("B_A", 1)], "A") == Some("A")
  {
    var path := [Leg("A_B", 1), Leg("B_A", 1)];
    SplitJoin("A", "B");
    SplitJoin("B", "A");
    assert "A" + "_" + "B" == "A_B";
    assert "B" + "_" + "A" == "B_A";
    assert path[..0] == [];
    ChainSnoc(path, 0, "A");
    ChainSnoc(path, 1, "A");
    assert path[..2] == path;
  }

  /** Selling at a zero price leaves nothing, whatever the second leg does. */
  lemma RoundTripAmount(prices: Prices)
    requires prices == map["A_B" := 0.0, "B_A" := 2.0]
    ensures AllTradable([Leg("A_B", 1), Leg("B_A", 1)], prices)
    ensures AmountAfter([Leg("A_B", 1), Leg("B_A", 1)], prices, 0.001, 1.0) == 0.0
  {
    var path := [Leg("A_B", 1), Leg("B_A", 1)];
    assert AllTradable(path, prices);
    Unfold(path, prices, 0.001, 1.0);
    Unfold(path[..1], prices, 0.001, 1.0);
    assert path[..1][..0] == [];
    assert AmountAfter(path[..1], prices, 0.001, 1.0) == 0.0;
  }

  /** The three markets of the example: BTC/USDT at 50000, ETH/BTC at 0.05 and ETH/USDT at 2600. */
  function ExamplePrices(): Prices {
    map["BTC_USDT" := 50000.0, "ETH_BTC" := 0.05, "ETH_USDT" := 2600.0]
  }

  /** The example's first cycle: USDT buys BTC, BTC buys ETH, ETH sells for USDT. */
  function ExamplePath(): Path {
    [Leg("BTC_USDT", -1), Leg("ETH_BTC", -1), Leg("ETH_USDT", 1)]
  }

  /** The legs of a cycle of the example's shape split into their two codes. */
  lemma CycleWellFormed(a: string, b: string, c: string)
    requires '_' !in a && '_' !in b && '_' !in c
    ensures LegsWellFormed([Leg(b + "_" + a, -1), Leg(c + "_" + b, -1), Leg(c + "_" + a, 1)])
  {
    SplitJoin(b, a);
    SplitJoin(c, b);
    SplitJoin(c, a);
  }

  /** A cycle of the example's shape, quote to base to third currency and back, chains from `a` to `a`. */
  lemma {:induction false} CycleChains(a: string, b: string, c: string)
    requires '_' !in a && '_' !in b && '_' !in c
    ensures CurrencyAfter([Leg(b + "_" + a, -1), Leg(c + "_" + b, -1), Leg(c + "_" + a, 1)], a) == Some(a)
  {
    var path := [Leg(b + "_" + a, -1), Leg(c + "_" + b, -1), Leg(c + "_" + a, 1)];
    SplitJoin(b, a);
    SplitJoin(c, b);
    SplitJoin(c, a);
    assert path[..0] == [];
    ChainSnoc(path, 0, a);
    assert CurrencyAfter(path[..1], a) == Some(b);
    ChainSnoc(path, 1, a);
    assert CurrencyAfter(path[..2], a) == Some(c);
    ChainSnoc(path, 2, a);
    assert path[..3] == path;
  }

  /** The example cycle's legs split and chain from USDT back to USDT. */
  lemma ExampleChains()
    ensures LegsWellFormed(ExamplePath())
    ensures CurrencyAfter(ExamplePath(), "USDT") == Some("USDT")
  {
    CycleWellFormed("USDT", "BTC", "ETH");
    CycleChains("USDT", "BTC", "ETH");
    assert "BTC" + "_" + "USDT" == "BTC_USDT";
    assert "ETH" + "_" + "BTC" == "ETH_BTC";
    assert "ETH" + "_" + "USDT" == "ETH_USDT";
  }

  /** 0.1 USDT becomes 0.000001999 BTC, then 0.00003996001 ETH, then 0.103844077987 USDT at a 0.05% fee. */
  lemma ExampleAmount()
    ensures AllTradable(ExamplePath(), ExamplePrices())
    ensures AmountAfter(ExamplePath(), ExamplePrices(), 0.0005, 0.1) == 0.103844077987
  {
    var path, prices := ExamplePath(), ExamplePrices();
    assert AllTradable(path, prices);
    Unfold(path, prices, 0.0005, 0.1);
    Unfold(path[..2], prices, 0.0005, 0.1);
    Unfold(path[..2][..1], prices, 0.0005, 0.1);
    assert path[..2][..1][..0] == [];
    assert AmountAfter(path[..2][..1], prices, 0.0005, 0.1) == 0.000001999;
    assert AmountAfter(path[..2], prices, 0.0005, 0.1) == 0.00003996001;
  }

  /** Every leg of the example cycle has a usable price. */
  lemma ExamplePriced()
    ensures AllPriced(ExamplePath(), ExamplePrices())
  {
    var path, prices := ExamplePath(), ExamplePrices();
    assert Priced(prices, path[0].symbol) && Priced(prices, path[1].symbol) && Priced(prices, path[2].symbol);
  }

  /**
   * The first cycle of the three-market example priced with a 0.05% fee:
   * 1.04 * 0.9995^3 - 1.
   */
  lemma ExampleProfit()
    ensures LegsWellFormed(ExamplePath())
    ensures Evaluate(ExamplePath(), ExamplePrices(), "USDT", 0.0005, 0.1) == Profit(0.03844077987)
  {
    var path, prices := ExamplePath(), ExamplePrices();
    ExampleChains();
    ExampleAmount();
    ExamplePriced();
    WellFormedNeverRaises(path, prices, "USDT");
    assert Evaluate(path, prices, "USDT", 0.0005, 0.1) == Profit((0.103844077987 - 0.1) / 0.1);
  }
}
