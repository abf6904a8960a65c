/**
 * Triangular cycles through the base currency: `find_triangular_paths`
 * (tri_arb.py:36-70), `extract_required_pairs` (tri_arb.py:182-190) and the
 * path description used in the trade ledger (tri_arb.py:446).
 */
module PathFinder {
  import opened Symbols
  import opened CurrencyGraph

  /** One conversion step: the pair symbol traded and the direction (1 sells its base). */
  datatype Leg = Leg(symbol: string, dir: int)

  /** A path is a list of legs; discovered paths have three. */
  type Path = seq<Leg>

  /** The leg that trades along the edge u -> v: its symbol and direction. */
  function LegOf(g: Graph, u: string, v: string): Leg {
    match Lookup(g, u, v)
    case Some(a) => Leg(a.symbol, a.dir)
    case None => Leg("", 0)
  }

  /** The path base -> mid -> end -> base (tri_arb.py:62-66). */
  function Triangle(g: Graph, base: string, mid: string, end: string): Path {
    [LegOf(g, base, mid), LegOf(g, mid, end), LegOf(g, end, base)]
  }

  /** The test of tri_arb.py:61 that an `end` reached from `mid` closes a cycle. */
  predicate Closes(g: Graph, base: string, mid: string, end: string) {
    end != base && end != mid && base in Successors(g, end)
  }

  /** base -> mid -> end -> base is a cycle the discovery reports. */
  ghost predicate IsTriangle(g: Graph, base: string, mid: string, end: string) {
    HasEdge(g, base, mid) && HasEdge(g, mid, end) && end != base && end != mid && HasEdge(g, end, base)
  }

  /** The inner loop over `ends` (successors of `mid`), as a fold from the first end to the last. */
  function PathsVia(g: Graph, base: string, mid: string, ends: seq<string>): seq<Path>
  {
    if ends == [] then []
    else
      var end := ends[|ends| - 1];
      PathsVia(g, base, mid, ends[..|ends| - 1]) + (if Closes(g, base, mid, end) then [Triangle(g, base, mid, end)] else [])
  }

  /** The outer loop over `mids` (successors of base), as a fold from the first mid to the last. */
  function PathsFrom(g: Graph, base: string, mids: seq<string>): seq<Path>
  {
    if mids == [] then []
    else
      var mid := mids[|mids| - 1];
      PathsFrom(g, base, mids[..|mids| - 1]) + PathsVia(g, base, mid, Successors(g, mid))
  }

  lemma {:induction false} PathsViaExact(g: Graph, base: string, mid: string, ends: seq<string>, p: Path)
    ensures p in PathsVia(g, base, mid, ends) <==> exists end :: end in ends && Closes(g, base, mid, end) && p == Triangle(g, base, mid, end)
  {
    if ends != [] {
      var init := ends[..|ends| - 1];
      assert forall x :: x in ends <==> x in init || x == ends[|ends| - 1];
      PathsViaExact(g, base, mid, init, p);
    }
  }

  lemma {:induction false} PathsFromExact(g: Graph, base: string, mids: seq<string>, p: Path)
    ensures p in PathsFrom(g, base, mids) <==>
            exists mid, end :: mid in mids && end in Successors(g, mid) && Closes(g, base, mid, end) && p == Triangle(g, base, mid, end)
  {
    if mids != [] {
      var init := mids[..|mids| - 1];
      var last := mids[|mids| - 1];
      assert forall x :: x in mids <==> x in init || x == last;
      PathsFromExact(g, base, init, p);
      PathsViaExact(g, base, last, Successors(g, last), p);
    }
  }

  /**
   * What `find_triangular_paths` returns: no paths when base is not a node or
   * has no successors; otherwise every (mid, end) combination that closes,
   * in successor order.
   */
  function TriangularPaths(g: Graph, base: string): seq<Path> {
    if !HasNode(g, base) then [] else PathsFrom(g, base, Successors(g, base))
  }

  /**
   * What discovery finds: exactly the cycles base -> mid -> end -> base with
   * end different from base and from mid, each built from the graph's edges
   * (so nothing when base has no successors).
   */
  lemma TriangularPathsExact(g: Graph, base: string, p: Path)
    ensures p in TriangularPaths(g, base) <==>
            exists mid, end :: IsTriangle(g, base, mid, end) && p == Triangle(g, base, mid, end)
  {
    PathsFromExact(g, base, Successors(g, base), p);
    if p in TriangularPaths(g, base) {
      var mid, end :| mid in Successors(g, base) && end in Successors(g, mid) && Closes(g, base, mid, end) && p == Triangle(g, base, mid, end);
      SuccessorsExact(g, base, mid);
      SuccessorsExact(g, mid, end);
      SuccessorsExact(g, end, base);
      assert IsTriangle(g, base, mid, end);
    }
    if exists mid, end :: IsTriangle(g, base, mid, end) && p == Triangle(g, base, mid, end) {
      var mid, end :| IsTriangle(g, base, mid, end) && p == Triangle(g, base, mid, end);
      SuccessorsExact(g, base, mid);
      SuccessorsExact(g, mid, end);
      SuccessorsExact(g, end, base);
      assert g[FindEdge(g, base, mid)].src == base;
      assert HasNode(g, base);
      assert Closes(g, base, mid, end);
    }
  }

  /** No entry of `s` occurs twice. */
  predicate NoDuplicates<T(==)>(s: seq<T>) {
    forall i, j :: 0 <= i < j < |s| ==> s[i] != s[j]
  }

  lemma NoDuplicatesAppend<T>(a: seq<T>, b: seq<T>)
    requires NoDuplicates(a) && NoDuplicates(b)
    requires forall x :: x in a ==> x !in b
    ensures NoDuplicates(a + b)
  {
    forall i, j | 0 <= i < j < |a + b|
      ensures (a + b)[i] != (a + b)[j]
    {
      if i < |a| && j >= |a| {
        assert (a + b)[i] in a && (a + b)[j] == b[j - |a|];
      }
    }
  }

  /** In a graph with one edge per ordered pair, a currency's successors are listed once each. */
  lemma {:induction false} SuccessorsNoDuplicates(g: Graph, n: string)
    requires UniqueKeys(g)
    ensures NoDuplicates(Successors(g, n))
  {
    if g != [] {
      var init, e := g[..|g| - 1], g[|g| - 1];
      SuccessorsNoDuplicates(init, n);
      if e.src == n {
        assert !HasEdge(init, n, e.dst) by {
          forall j | 0 <= j < |init|
            ensures init[j].src != n || init[j].dst != e.dst
          {
            assert init[j] == g[j];
          }
        }
        SuccessorsExact(init, n, e.dst);
        NoDuplicatesAppend(Successors(init, n), [e.dst]);
      } else {
        assert Successors(g, n) == Successors(init, n) + [];
      }
    }
  }

  /** On a consistent graph, distinct edges out of `u` have distinct legs. */
  lemma LegOfDistinct(g: Graph, u: string, v1: string, v2: string)
    requires AllConsistent(g) && HasEdge(g, u, v1) && HasEdge(g, u, v2) && v1 != v2
    ensures LegOf(g, u, v1) != LegOf(g, u, v2)
  {
    LegOfChains(g, u, v1);
    LegOfChains(g, u, v2);
  }

  /** A cycle through an end the inner loop has not yet seen is not among those it has listed. */
  lemma {:induction false} PathsViaFresh(g: Graph, base: string, mid: string, ends: seq<string>, last: string)
    requires AllConsistent(g) && last !in ends && HasEdge(g, mid, last)
    requires forall x :: x in ends ==> HasEdge(g, mid, x)
    ensures Triangle(g, base, mid, last) !in PathsVia(g, base, mid, ends)
  {
    var t := Triangle(g, base, mid, last);
    forall end | end in ends
      ensures t != Triangle(g, base, mid, end)
    {
      LegOfDistinct(g, mid, end, last);
      assert t[1] != Triangle(g, base, mid, end)[1];
    }
    PathsViaExact(g, base, mid, ends, t);
  }

  /** The inner loop lists a cycle once per end: distinct ends of edges out of `mid` give distinct paths. */
  lemma {:induction false} PathsViaNoDuplicates(g: Graph, base: string, mid: string, ends: seq<string>)
    requires AllConsistent(g) && NoDuplicates(ends)
    requires forall x :: x in ends ==> HasEdge(g, mid, x)
    ensures NoDuplicates(PathsVia(g, base, mid, ends))
  {
    if ends != [] {
      var init, last := ends[..|ends| - 1], ends[|ends| - 1];
      assert forall x :: x in init ==> x in ends;
      assert NoDuplicates(init);
      assert last !in init by {
        forall k | 0 <= k < |init|
          ensures init[k] != last
        {
          assert init[k] == ends[k];
        }
      }
      PathsViaNoDuplicates(g, base, mid, init);
      PathsViaFresh(g, base, mid, init, last);
      var t := if Closes(g, base, mid, last) then [Triangle(g, base, mid, last)] else [];
      NoDuplicatesAppend(PathsVia(g, base, mid, init), t);
    }
  }

  /** The cycles through a middle currency the outer loop has not yet seen are not among those it has listed. */
  lemma {:induction false} PathsFromFresh(g: Graph, base: string, mids: seq<string>, last: string, p: Path)
    requires AllConsistent(g) && last !in mids && HasEdge(g, base, last)
    requires forall x :: x in mids ==> HasEdge(g, base, x)
    requires p in PathsFrom(g, base, mids)
    ensures p !in PathsVia(g, base, last, Successors(g, last))
  {
    PathsFromExact(g, base, mids, p);
    var mid, end :| mid in mids && end in Successors(g, mid) && Closes(g, base, mid, end) && p == Triangle(g, base, mid, end);
    LegOfDistinct(g, base, mid, last);
    forall end' | end' in Successors(g, last)
      ensures p != Triangle(g, base, last, end')
    {
      assert p[0] != Triangle(g, base, last, end')[0];
    }
    PathsViaExact(g, base, last, Successors(g, last), p);
  }

  /** The outer loop lists each cycle once: the mids, and then the ends, tell the paths apart. */
  lemma {:induction false} PathsFromNoDuplicates(g: Graph, base: string, mids: seq<string>)
    requires UniqueKeys(g) && AllConsistent(g) && NoDuplicates(mids)
    requires forall x :: x in mids ==> HasEdge(g, base, x)
    ensures NoDuplicates(PathsFrom(g, base, mids))
  {
    if mids != [] {
      var init, last := mids[..|mids| - 1], mids[|mids| - 1];
      assert forall x :: x in init ==> x in mids;
      assert NoDuplicates(init);
      assert last !in init by {
        forall k | 0 <= k < |init|
          ensures init[k] != last
        {
          assert init[k] == mids[k];
        }
      }
      PathsFromNoDuplicates(g, base, init);
      var ends := Successors(g, last);
      SuccessorsNoDuplicates(g, last);
      forall x | x in ends
        ensures HasEdge(g, last, x)
      {
        SuccessorsExact(g, last, x);
      }
      PathsViaNoDuplicates(g, base, last, ends);
      forall p | p in PathsFrom(g, base, init)
        ensures p !in PathsVia(g, base, last, ends)
      {
        PathsFromFresh(g, base, init, last, p);
      }
      NoDuplicatesAppend(PathsFrom(g, base, init), PathsVia(g, base, last, ends));
    }
  }

  /** Discovery lists every cycle it finds exactly once. */
  lemma {:induction false} TriangularPathsNoDuplicates(pairs: seq<string>, base: string)
    ensures NoDuplicates(TriangularPaths(BuildGraph(pairs), base))
  {
    var g := BuildGraph(pairs);
    var mids := Successors(g, base);
    if HasNode(g, base) {
      SuccessorsNoDuplicates(g, base);
      forall x | x in mids
        ensures HasEdge(g, base, x)
      {
        SuccessorsExact(g, base, x);
      }
      PathsFromNoDuplicates(g, base, mids);
    }
  }

  /** One more successor examined by the inner loop (or, for `j == |ends|`, all of them). */
  lemma {:induction false} PathsViaPrefix(g: Graph, base: string, mid: string, ends: seq<string>, j: nat)
    requires j <= |ends|
    ensures j == |ends| ==> PathsVia(g, base, mid, ends[..j]) == PathsVia(g, base, mid, ends)
    ensures j < |ends| ==> (PathsVia(g, base, mid, ends[..j + 1]) ==
      PathsVia(g, base, mid, ends[..j]) + (if Closes(g, base, mid, ends[j]) then [Triangle(g, base, mid, ends[j])] else []))
  {
    assert ends[..|ends|] == ends;
    if j < |ends| {
      assert ends[..j + 1][..j] == ends[..j];
    }
  }

  /** One more middle currency examined by the outer loop (or, for `i == |mids|`, all of them). */
  lemma {:induction false} PathsFromPrefix(g: Graph, base: string, mids: seq<string>, i: nat)
    requires i <= |mids|
    ensures i == |mids| ==> PathsFrom(g, base, mids[..i]) == PathsFrom(g, base, mids)
    ensures i < |mids| ==> (PathsFrom(g, base, mids[..i + 1]) ==
      PathsFrom(g, base, mids[..i]) + PathsVia(g, base, mids[i], Successors(g, mids[i])))
  {
    assert mids[..|mids|] == mids;
    if i < |mids| {
      assert mids[..i + 1][..i] == mids[..i];
    }
  }

  /**
   * `find_triangular_paths` (tri_arb.py:36-70): the two nested successor
   * loops with the early returns of lines 47-55.
   */
  method FindTriangularPaths(graph: Graph, baseCurrency: string) returns (triangles: seq<Path>)
    ensures triangles == TriangularPaths(graph, baseCurrency)
  {
    triangles := [];
    if !HasNode(graph, baseCurrency) {
      return;
    }
    var midCurrencies := Successors(graph, baseCurrency);
    if |midCurrencies| == 0 {
      return;
    }
    for i := 0 to |midCurrencies|
      invariant triangles == PathsFrom(graph, baseCurrency, midCurrencies[..i])
    {
      var mid := midCurrencies[i];
      var found := ClosingPaths(graph, baseCurrency, mid);
      PathsFromPrefix(graph, baseCurrency, midCurrencies, i);
      triangles := triangles + found;
    }
    PathsFromPrefix(graph, baseCurrency, midCurrencies, |midCurrencies|);
  }

  /** The inner loop of `find_triangular_paths`: every successor of `mid` that closes a cycle back to base. */
  method ClosingPaths(graph: Graph, baseCurrency: string, mid: string) returns (found: seq<Path>)
    ensures found == PathsVia(graph, baseCurrency, mid, Successors(graph, mid))
  {
    found := [];
    var ends := Successors(graph, mid);
    for j := 0 to |ends|
      invariant found == PathsVia(graph, baseCurrency, mid, ends[..j])
    {
      var end := ends[j];
      PathsViaPrefix(graph, baseCurrency, mid, ends, j);
      if end != baseCurrency && end != mid && baseCurrency in Successors(graph, end) {
        found := found + [Triangle(graph, baseCurrency, mid, end)];
      }
    }
    PathsViaPrefix(graph, baseCurrency, mid, ends, |ends|);
  }

  /**
   * The currency held after one leg from `cur`, or None when the leg's symbol
   * does not split or the leg does not start from the currency held
   * (direction 1 needs the symbol's base, any other direction its quote).
   */
  function ChainStep(cur: Option<string>, leg: Leg): Option<string> {
    match cur
    case None => None
    case Some(c) =>
      match SplitPair(leg.symbol)
      case None => None
      case Some((b, q)) =>
        if leg.dir == 1 then (if c == b then Some(q) else None)
        else (if c == q then Some(b) else None)
  }

  /** The currency held after following `legs` from currency `c`. */
  function CurrencyAfter(legs: seq<Leg>, c: string): Option<string> {
    if legs == [] then Some(c) else ChainStep(CurrencyAfter(legs[..|legs| - 1], c), legs[|legs| - 1])
  }

  predicate LegsWellFormed(legs: seq<Leg>) {
    forall i :: 0 <= i < |legs| ==> WellFormedSymbol(legs[i].symbol)
  }

  /** A leg read off a consistent edge turns the edge's source into its target. */
  lemma LegOfChains(g: Graph, u: string, v: string)
    requires AllConsistent(g) && HasEdge(g, u, v)
    ensures WellFormedSymbol(LegOf(g, u, v).symbol)
    ensures ChainStep(Some(u), LegOf(g, u, v)) == Some(v)
  {
    var a := Lookup(g, u, v).value;
    assert Consistent(Edge(u, v, a.symbol, a.dir));
  }

  /**
   * On a graph whose edges agree with their symbols (every graph the builder
   * returns), a discovered cycle hands each leg the currency it expects and
   * comes back to base: the currency checks of the evaluation never fire.
   */
  lemma {:induction false} TriangleChains(g: Graph, base: string, mid: string, end: string)
    requires AllConsistent(g) && IsTriangle(g, base, mid, end)
    ensures LegsWellFormed(Triangle(g, base, mid, end))
    ensures CurrencyAfter(Triangle(g, base, mid, end), base) == Some(base)
  {
    LegOfChains(g, base, mid);
    LegOfChains(g, mid, end);
    LegOfChains(g, end, base);
    ChainOfThree(LegOf(g, base, mid), LegOf(g, mid, end), LegOf(g, end, base), base);
    WellFormedThree(LegOf(g, base, mid), LegOf(g, mid, end), LegOf(g, end, base));
  }

  lemma WellFormedThree(l1: Leg, l2: Leg, l3: Leg)
    requires WellFormedSymbol(l1.symbol) && WellFormedSymbol(l2.symbol) && WellFormedSymbol(l3.symbol)
    ensures LegsWellFormed([l1, l2, l3])
  {
  }

  /** Following three legs from `c`: one step per leg, in order. */
  lemma {:induction false} ChainOfThree(l1: Leg, l2: Leg, l3: Leg, c: string)
    ensures CurrencyAfter([l1, l2, l3], c) == ChainStep(ChainStep(ChainStep(Some(c), l1), l2), l3)
  {
    assert [l1][..0] == [];
    assert CurrencyAfter([l1], c) == ChainStep(Some(c), l1);
    assert [l1, l2][..1] == [l1];
    assert CurrencyAfter([l1, l2], c) == ChainStep(CurrencyAfter([l1], c), l2);
    assert [l1, l2, l3][..2] == [l1, l2];
  }

  /** Every path discovered on a built graph is well formed and returns to base. */
  lemma {:induction false} DiscoveredPathsChain(pairs: seq<string>, base: string, p: Path)
    requires p in TriangularPaths(BuildGraph(pairs), base)
    ensures |p| == 3 && LegsWellFormed(p)
    ensures CurrencyAfter(p, base) == Some(base)
  {
    var g := BuildGraph(pairs);
    TriangularPathsExact(g, base, p);
    var mid, end :| IsTriangle(g, base, mid, end) && p == Triangle(g, base, mid, end);
    TriangleChains(g, base, mid, end);
  }

  /** The symbols of one path's legs. */
  function LegSymbols(p: Path): set<string> {
    if p == [] then {} else LegSymbols(p[..|p| - 1]) + {p[|p| - 1].symbol}
  }

  /** The distinct leg symbols of all paths. */
  function RequiredPairs(paths: seq<Path>): set<string> {
    if paths == [] then {} else RequiredPairs(paths[..|paths| - 1]) + LegSymbols(paths[|paths| - 1])
  }

  /** A symbol is required exactly when some leg of some path trades it. */
  lemma {:induction false} RequiredPairsExact(paths: seq<Path>, s: string)
    ensures s in RequiredPairs(paths) <==> exists i, j :: 0 <= i < |paths| && 0 <= j < |paths[i]| && paths[i][j].symbol == s
  {
    if paths != [] {
      var init := paths[..|paths| - 1];
      var last := paths[|paths| - 1];
      RequiredPairsExact(init, s);
      LegSymbolsExact(last, s);
      if exists i, j :: 0 <= i < |paths| && 0 <= j < |paths[i]| && paths[i][j].symbol == s {
        var i, j :| 0 <= i < |paths| && 0 <= j < |paths[i]| && paths[i][j].symbol == s;
        if i < |init| { assert init[i] == paths[i]; }
      }
      if exists i, j :: 0 <= i < |init| && 0 <= j < |init[i]| && init[i][j].symbol == s {
        var i, j :| 0 <= i < |init| && 0 <= j < |init[i]| && init[i][j].symbol == s;
        assert paths[i] == init[i];
      }
    }
  }

  lemma {:induction false} LegSymbolsExact(p: Path, s: string)
    ensures s in LegSymbols(p) <==> exists j :: 0 <= j < |p| && p[j].symbol == s
  {
    if p != [] {
      var init := p[..|p| - 1];
      LegSymbolsExact(init, s);
      if exists j :: 0 <= j < |p| && p[j].symbol == s {
        var j :| 0 <= j < |p| && p[j].symbol == s;
        if j < |init| { assert init[j] == p[j]; }
      }
      if exists j :: 0 <= j < |init| && init[j].symbol == s {
        var j :| 0 <= j < |init| && init[j].symbol == s;
        assert p[j] == init[j];
      }
    }
  }

  /**
   * `extract_required_pairs` (tri_arb.py:182-190): collects the leg symbols in
   * a set and lists it.  Python's set order is not specified, so neither is
   * the order here: the result lists every required symbol exactly once.
   */
  method ExtractRequiredPairs(paths: seq<Path>) returns (requiredPairsList: seq<string>)
    ensures forall s :: s in requiredPairsList <==> s in RequiredPairs(paths)
    ensures forall i, j :: 0 <= i < j < |requiredPairsList| ==> requiredPairsList[i] != requiredPairsList[j]
  {
    var requiredPairs: set<string> := {};
    for i := 0 to |paths|
      invariant requiredPairs == RequiredPairs(paths[..i])
    {
      assert paths[..i + 1][..i] == paths[..i];
      var path := paths[i];
      for j := 0 to |path|
        invariant requiredPairs == RequiredPairs(paths[..i]) + LegSymbols(path[..j])
      {
        assert path[..j + 1][..j] == path[..j];
        requiredPairs := requiredPairs + {path[j].symbol};
      }
      assert path[..|path|] == path;
    }
    assert paths[..|paths|] == paths;
    requiredPairsList := [];
    var rest := requiredPairs;
    while rest != {}
      invariant rest <= requiredPairs
      invariant forall s :: s in requiredPairsList <==> s in requiredPairs && s !in rest
      invariant forall i, j :: 0 <= i < j < |requiredPairsList| ==> requiredPairsList[i] != requiredPairsList[j]
      decreases rest
    {
      var s :| s in rest;
      requiredPairsList := requiredPairsList + [s];
      rest := rest - {s};
    }
  }

  /** A leg as the trade log writes it: the symbol, then `(+)` for direction 1 and `(-)` otherwise. */
  function LegText(l: Leg): string {
    l.symbol + "(" + (if l.dir == 1 then "+" else "-") + ")"
  }

  /** The path description stored in a trade record: the legs' texts separated by an arrow. */
  function Describe(p: Path): string {
    if p == [] then ""
    else if |p| == 1 then LegText(p[0])
    else Describe(p[..|p| - 1]) + " → " + LegText(p[|p| - 1])
  }

  /**
   * Describing a path in two parts joins the two descriptions with an arrow;
   * with the description of a single leg being its text, this makes the
   * description of any path its legs' texts joined by arrows.
   */
  lemma {:induction false} DescribeAppend(p: Path, q: Path)
    requires p != [] && q != []
    ensures Describe(p + q) == Describe(p) + " → " + Describe(q)
    decreases |q|
  {
    var last := q[|q| - 1];
    if |q| == 1 {
      assert (p + q)[..|p + q| - 1] == p && (p + q)[|p + q| - 1] == last;
      assert Describe(q) == LegText(last);
    } else {
      var q0 := q[..|q| - 1];
      assert (p + q)[..|p + q| - 1] == p + q0 && (p + q)[|p + q| - 1] == last;
      DescribeAppend(p, q0);
      assert Describe(p + q) == (Describe(p) + " → " + Describe(q0)) + " → " + LegText(last);
    }
  }

  /** The description of the first cycle of the three-market example, as a trade record shows it. */
  lemma DescribeExample()
    ensures Describe([Leg("BTC_USDT", -1), Leg("ETH_BTC", -1), Leg("ETH_USDT", 1)])
         == "BTC_USDT(-) → ETH_BTC(-) → ETH_USDT(+)"
  {
    var p := [Leg("BTC_USDT", -1), Leg("ETH_BTC", -1), Leg("ETH_USDT", 1)];
    assert p[..2][..1] == [p[0]];
    assert Describe(p[..2]) == "BTC_USDT(-) → ETH_BTC(-)";
  }

  /** A symbol without slashes is already normalised. */
  lemma {:induction false} NormalizePlain(s: string)
    requires '/' !in s
    ensures Normalize(s) == s
  {
  }

  /** Adding an edge the graph does not have appends it. */
  lemma AddEdgeFresh(g: Graph, u: string, v: string, a: Attr)
    requires forall e :: e in g ==> e.src != u || e.dst != v
    ensures AddEdge(g, u, v, a) == g + [Edge(u, v, a.symbol, a.dir)]
  {
    assert !HasEdge(g, u, v) by {
      forall j | 0 <= j < |g| ensures g[j].src != u || g[j].dst != v {
        assert g[j] in g;
      }
    }
  }

  /** Neither direction between b and q is an edge of `g`. */
  ghost predicate Unlinked(g: Graph, b: string, q: string) {
    forall e :: e in g ==> (e.src != b || e.dst != q) && (e.src != q || e.dst != b)
  }

  lemma UnlinkedAppend(g: Graph, h: Graph, b: string, q: string)
    requires Unlinked(g, b, q) && Unlinked(h, b, q)
    ensures Unlinked(g + h, b, q)
  {
  }

  /** A new market `s` splitting into b and q appends base -> quote, then quote -> base. */
  lemma AddPairFresh(g: Graph, s: string, b: string, q: string)
    requires '/' !in s && SplitPair(s) == Some((b, q)) && b != q && Unlinked(g, b, q)
    ensures AddPair(g, s) == g + [Edge(b, q, s, 1), Edge(q, b, s, -1)]
  {
    var e1, e2 := Edge(b, q, s, 1), Edge(q, b, s, -1);
    AddEdgeFresh(g, b, q, Attr(s, 1));
    AddEdgeFresh(g + [e1], q, b, Attr(s, -1));
    assert g + [e1] + [e2] == g + [e1, e2];
    NormalizePlain(s);
  }

  /** Building from one more, new, market appends that market's two edges. */
  lemma {:induction false} BuildGraphFresh(pairs: seq<string>, g: Graph, s: string, b: string, q: string, all: seq<string>)
    requires BuildGraph(pairs) == g && all == pairs + [s]
    requires '/' !in s && SplitPair(s) == Some((b, q)) && b != q && Unlinked(g, b, q)
    ensures BuildGraph(all) == g + [Edge(b, q, s, 1), Edge(q, b, s, -1)]
  {
    assert all[..|pairs|] == pairs;
    AddPairFresh(g, s, b, q);
  }

  /** The graph of the three markets x = b_a, y = c_b and z = c_a: each adds base -> quote, then quote -> base. */
  function ThreeMarkets(x: string, y: string, z: string, a: string, b: string, c: string): Graph {
    [Edge(b, a, x, 1), Edge(a, b, x, -1)] + [Edge(c, b, y, 1), Edge(b, c, y, -1)] + [Edge(c, a, z, 1), Edge(a, c, z, -1)]
  }

  /** The first market x = b_a of the three-market graph. */
  lemma GraphOfOne(x: string, a: string, b: string)
    requires '/' !in x && SplitPair(x) == Some((b, a)) && a != b
    ensures BuildGraph([x]) == [Edge(b, a, x, 1), Edge(a, b, x, -1)]
  {
    var m1 := [Edge(b, a, x, 1), Edge(a, b, x, -1)];
    AddPairFresh([], x, b, a);
    assert [] + m1 == m1;
    assert [x][..0] == [];
  }

  /** The first two markets x = b_a and y = c_b of the three-market graph. */
  lemma GraphOfTwo(x: string, y: string, a: string, b: string, c: string)
    requires '/' !in x && '/' !in y
    requires SplitPair(x) == Some((b, a)) && SplitPair(y) == Some((c, b))
    requires a != b && b != c && a != c
    ensures BuildGraph([x, y]) == [Edge(b, a, x, 1), Edge(a, b, x, -1)] + [Edge(c, b, y, 1), Edge(b, c, y, -1)]
  {
    var m1 := [Edge(b, a, x, 1), Edge(a, b, x, -1)];
    assert Unlinked(m1, c, b);
    GraphOfOne(x, a, b);
    BuildGraphFresh([x], m1, y, c, b, [x, y]);
  }

  /**
   * The graph of three markets x = b_a, y = c_b and z = c_a over distinct
   * codes: each market adds its two directions, in the order the markets are
   * listed.
   */
  lemma GraphOfThree(x: string, y: string, z: string, a: string, b: string, c: string)
    requires '/' !in x && '/' !in y && '/' !in z
    requires SplitPair(x) == Some((b, a)) && SplitPair(y) == Some((c, b)) && SplitPair(z) == Some((c, a))
    requires a != b && b != c && a != c
    ensures BuildGraph([x, y, z]) == ThreeMarkets(x, y, z, a, b, c)
  {
    var m1, m2 := [Edge(b, a, x, 1), Edge(a, b, x, -1)], [Edge(c, b, y, 1), Edge(b, c, y, -1)];
    assert [x, y, z] == [x, y] + [z];
    assert Unlinked(m1 + m2, c, a) by {
      assert Unlinked(m1, c, a) && Unlinked(m2, c, a);
      UnlinkedAppend(m1, m2, c, a);
    }
    assert BuildGraph([x, y]) == m1 + m2 by {
      GraphOfTwo(x, y, a, b, c);
    }
    BuildGraphFresh([x, y], m1 + m2, z, c, a, [x, y, z]);
  }

  /** Successors across a graph extended by one market's two edges. */
  lemma {:induction false} SuccessorsMarket(g: Graph, e1: Edge, e2: Edge, n: string)
    ensures Successors(g + [e1, e2], n)
         == Successors(g, n) + (if e1.src == n then [e1.dst] else []) + (if e2.src == n then [e2.dst] else [])
  {
    assert g + [e1, e2] == g + [e1] + [e2];
    SuccessorsAppend(g, e1, n);
    SuccessorsAppend(g + [e1], e2, n);
  }

  /** Each code of the three-market graph reaches the other two, in the order their edges were added. */
  lemma {:induction false} SuccessorsOfThree(x: string, y: string, z: string, a: string, b: string, c: string, n: string)
    requires a != b && b != c && a != c
    ensures n == a ==> Successors(ThreeMarkets(x, y, z, a, b, c), n) == [b, c]
    ensures n == b ==> Successors(ThreeMarkets(x, y, z, a, b, c), n) == [a, c]
    ensures n == c ==> Successors(ThreeMarkets(x, y, z, a, b, c), n) == [b, a]
  {
    var m1, m2, m3 := [Edge(b, a, x, 1), Edge(a, b, x, -1)], [Edge(c, b, y, 1), Edge(b, c, y, -1)], [Edge(c, a, z, 1), Edge(a, c, z, -1)];
    assert m1 == [] + m1;
    SuccessorsMarket([], m1[0], m1[1], n);
    SuccessorsMarket(m1, m2[0], m2[1], n);
    SuccessorsMarket(m1 + m2, m3[0], m3[1], n);
  }

  /** In a graph with one edge per ordered pair, looking up an edge's endpoints finds that edge. */
  lemma LookupMember(g: Graph, e: Edge)
    requires UniqueKeys(g) && e in g
    ensures Lookup(g, e.src, e.dst) == Some(Attr(e.symbol, e.dir))
  {
    var i :| 0 <= i < |g| && g[i] == e;
    assert FindEdge(g, e.src, e.dst) == i;
  }

  /** The legs of the two triangles through a, read off the three-market graph. */
  lemma TrianglesOfThree(x: string, y: string, z: string, a: string, b: string, c: string)
    requires UniqueKeys(ThreeMarkets(x, y, z, a, b, c))
    ensures Triangle(ThreeMarkets(x, y, z, a, b, c), a, b, c) == [Leg(x, -1), Leg(y, -1), Leg(z, 1)]
    ensures Triangle(ThreeMarkets(x, y, z, a, b, c), a, c, b) == [Leg(z, -1), Leg(y, 1), Leg(x, 1)]
  {
    var g := ThreeMarkets(x, y, z, a, b, c);
    LookupMember(g, Edge(a, b, x, -1));
    LookupMember(g, Edge(b, c, y, -1));
    LookupMember(g, Edge(c, a, z, 1));
    LookupMember(g, Edge(a, c, z, -1));
    LookupMember(g, Edge(c, b, y, 1));
    LookupMember(g, Edge(b, a, x, 1));
  }

  /** The inner loop over two ends: the first end's cycle, if it closes, then the second's. */
  lemma {:induction false} PathsViaTwo(g: Graph, base: string, mid: string, e1: string, e2: string)
    ensures PathsVia(g, base, mid, [e1, e2])
         == (if Closes(g, base, mid, e1) then [Triangle(g, base, mid, e1)] else [])
          + (if Closes(g, base, mid, e2) then [Triangle(g, base, mid, e2)] else [])
  {
    var t1 := if Closes(g, base, mid, e1) then [Triangle(g, base, mid, e1)] else [];
    assert [e1, e2][..1] == [e1];
    assert [e1][..0] == [];
    assert PathsVia(g, base, mid, [e1]) == [] + t1;
    assert [] + t1 == t1;
  }

  /** The outer loop over two mids: the paths through the first, then those through the second. */
  lemma {:induction false} PathsFromTwo(g: Graph, base: string, m1: string, m2: string)
    ensures PathsFrom(g, base, [m1, m2]) == PathsVia(g, base, m1, Successors(g, m1)) + PathsVia(g, base, m2, Successors(g, m2))
  {
    var p1 := PathsVia(g, base, m1, Successors(g, m1));
    assert [m1, m2][..1] == [m1];
    assert [m1][..0] == [];
    assert PathsFrom(g, base, [m1]) == [] + p1;
    assert [] + p1 == p1;
  }

  /** From a through b, only the end c closes a cycle (the other end is a itself). */
  lemma {:induction false} ThroughFirst(x: string, y: string, z: string, a: string, b: string, c: string)
    requires a != b && b != c && a != c && UniqueKeys(ThreeMarkets(x, y, z, a, b, c))
    ensures PathsVia(ThreeMarkets(x, y, z, a, b, c), a, b, Successors(ThreeMarkets(x, y, z, a, b, c), b))
         == [[Leg(x, -1), Leg(y, -1), Leg(z, 1)]]
  {
    var g := ThreeMarkets(x, y, z, a, b, c);
    SuccessorsOfThree(x, y, z, a, b, c, b);
    SuccessorsOfThree(x, y, z, a, b, c, c);
    PathsViaTwo(g, a, b, a, c);
    TrianglesOfThree(x, y, z, a, b, c);
    assert [] + [Triangle(g, a, b, c)] == [Triangle(g, a, b, c)];
  }

  /** From a through c, only the end b closes a cycle (the other end is a itself). */
  lemma {:induction false} ThroughSecond(x: string, y: string, z: string, a: string, b: string, c: string)
    requires a != b && b != c && a != c && UniqueKeys(ThreeMarkets(x, y, z, a, b, c))
    ensures PathsVia(ThreeMarkets(x, y, z, a, b, c), a, c, Successors(ThreeMarkets(x, y, z, a, b, c), c))
         == [[Leg(z, -1), Leg(y, 1), Leg(x, 1)]]
  {
    var g := ThreeMarkets(x, y, z, a, b, c);
    SuccessorsOfThree(x, y, z, a, b, c, c);
    SuccessorsOfThree(x, y, z, a, b, c, b);
    PathsViaTwo(g, a, c, b, a);
    TrianglesOfThree(x, y, z, a, b, c);
    assert [Triangle(g, a, c, b)] + [] == [Triangle(g, a, c, b)];
  }

  /**
   * Discovery from a over the three markets finds the two orientations of the
   * one cycle: through b first (b is a's first successor), then through c.
   */
  lemma DiscoveryOfThree(x: string, y: string, z: string, a: string, b: string, c: string)
    requires a != b && b != c && a != c && UniqueKeys(ThreeMarkets(x, y, z, a, b, c))
    ensures TriangularPaths(ThreeMarkets(x, y, z, a, b, c), a)
         == [[Leg(x, -1), Leg(y, -1), Leg(z, 1)], [Leg(z, -1), Leg(y, 1), Leg(x, 1)]]
  {
    var g := ThreeMarkets(x, y, z, a, b, c);
    assert HasNode(g, a) by { assert g[1].src == a; }
    SuccessorsOfThree(x, y, z, a, b, c, a);
    PathsFromTwo(g, a, b, c);
    ThroughFirst(x, y, z, a, b, c);
    ThroughSecond(x, y, z, a, b, c);
  }

  /** A symbol written as two underscore-free, slash-free codes around one underscore splits into them. */
  lemma SymbolOf(s: string, b: string, q: string)
    requires s == b + "_" + q && '_' !in b && '_' !in q && '/' !in b && '/' !in q
    ensures SplitPair(s) == Some((b, q)) && '/' !in s
  {
    SplitJoin(b, q);
  }

  /** The example symbol BTC_USDT splits into BTC and USDT. */
  lemma SymbolBtcUsdt()
    ensures SplitPair("BTC_USDT") == Some(("BTC", "USDT")) && '/' !in "BTC_USDT"
  {
    SymbolOf("BTC_USDT", "BTC", "USDT");
  }

  /** The example symbol ETH_BTC splits into ETH and BTC. */
  lemma SymbolEthBtc()
    ensures SplitPair("ETH_BTC") == Some(("ETH", "BTC")) && '/' !in "ETH_BTC"
  {
    SymbolOf("ETH_BTC", "ETH", "BTC");
  }

  /** The example symbol ETH_USDT splits into ETH and USDT. */
  lemma SymbolEthUsdt()
    ensures SplitPair("ETH_USDT") == Some(("ETH", "USDT")) && '/' !in "ETH_USDT"
  {
    SymbolOf("ETH_USDT", "ETH", "USDT");
  }

  /**
   * Discovery on the markets BTC_USDT, ETH_BTC and ETH_USDT from USDT: first
   * USDT -> BTC -> ETH -> USDT, then USDT -> ETH -> BTC -> USDT.
   */
  lemma DiscoveryExample()
    ensures TriangularPaths(BuildGraph(["BTC_USDT", "ETH_BTC", "ETH_USDT"]), "USDT")
         == [[Leg("BTC_USDT", -1), Leg("ETH_BTC", -1), Leg("ETH_USDT", 1)],
             [Leg("ETH_USDT", -1), Leg("ETH_BTC", 1), Leg("BTC_USDT", 1)]]
  {
    var x, y, z := "BTC_USDT", "ETH_BTC", "ETH_USDT";
    var a, b, c := "USDT", "BTC", "ETH";
    SymbolBtcUsdt();
    SymbolEthBtc();
    SymbolEthUsdt();
    GraphOfThree(x, y, z, a, b, c);
    DiscoveryOfThree(x, y, z, a, b, c);
  }
}
