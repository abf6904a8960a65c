/**
 * The currency graph of `build_currency_graph` (tri_arb.py:21-34).
 *
 * networkx's DiGraph keeps one edge per ordered pair of currencies, in the
 * order the pair was first added, and a later `add_edge` on the same ordered
 * pair overwrites its attributes in place.  The model is that dictionary: a
 * sequence of edges with pairwise distinct (src, dst) keys.
 */
module CurrencyGraph {
  import opened Symbols

  /** Trading `symbol` in direction `dir` turns currency `src` into `dst`. */
  datatype Edge = Edge(src: string, dst: string, symbol: string, dir: int)

  /** The attributes networkx stores on an edge. */
  datatype Attr = Attr(symbol: string, dir: int)

  type Graph = seq<Edge>

  /** At most one edge per ordered pair of currencies. */
  ghost predicate UniqueKeys(g: Graph) {
    forall i, j :: 0 <= i < j < |g| ==> g[i].src != g[j].src || g[i].dst != g[j].dst
  }

  predicate HasEdge(g: Graph, u: string, v: string) {
    exists j :: 0 <= j < |g| && g[j].src == u && g[j].dst == v
  }

  /** Graph membership: a currency is a node once some edge starts or ends at it. */
  predicate HasNode(g: Graph, n: string) {
    exists j :: 0 <= j < |g| && (g[j].src == n || g[j].dst == n)
  }

  /** Position of the edge u -> v, or |g| when there is none. */
  function FindEdge(g: Graph, u: string, v: string): (i: nat)
    ensures i <= |g|
    ensures i < |g| ==> g[i].src == u && g[i].dst == v
    ensures forall j :: 0 <= j < i ==> g[j].src != u || g[j].dst != v
    ensures i < |g| <==> HasEdge(g, u, v)
  {
    if g == [] then 0
    else if g[0].src == u && g[0].dst == v then 0
    else
      var k := FindEdge(g[1..], u, v);
      assert forall j :: 1 <= j < 1 + k ==> g[j] == g[1..][j - 1];
      assert HasEdge(g[1..], u, v) ==> HasEdge(g, u, v) by {
        if HasEdge(g[1..], u, v) {
          var j :| 0 <= j < |g[1..]| && g[1..][j].src == u && g[1..][j].dst == v;
          assert g[j + 1] == g[1..][j];
        }
      }
      assert HasEdge(g, u, v) ==> HasEdge(g[1..], u, v) by {
        if HasEdge(g, u, v) {
          var j :| 0 <= j < |g| && g[j].src == u && g[j].dst == v;
          assert j > 0 && g[1..][j - 1] == g[j];
        }
      }
      1 + k
  }

  /** The attributes of the edge u -> v, if present. */
  function Lookup(g: Graph, u: string, v: string): (r: Option<Attr>)
    ensures r.Some? <==> HasEdge(g, u, v)
    ensures r.Some? ==> Edge(u, v, r.value.symbol, r.value.dir) in g
  {
    var i := FindEdge(g, u, v);
    if i < |g| then Some(Attr(g[i].symbol, g[i].dir)) else None
  }

  /**
   * The successors of `n`: the targets of the edges leaving `n`, in the order
   * in which those edges were first added.
   */
  function Successors(g: Graph, n: string): (s: seq<string>) {
    if g == [] then []
    else
      var e := g[|g| - 1];
      Successors(g[..|g| - 1], n) + (if e.src == n then [e.dst] else [])
  }

  /** The successors of `n` are exactly the targets of the edges leaving `n`. */
  lemma {:induction false} SuccessorsExact(g: Graph, n: string, v: string)
    ensures v in Successors(g, n) <==> HasEdge(g, n, v)
  {
    if g != [] {
      var init := g[..|g| - 1];
      var e := g[|g| - 1];
      SuccessorsExact(init, n, v);
      if HasEdge(g, n, v) {
        var j :| 0 <= j < |g| && g[j].src == n && g[j].dst == v;
        if j < |g| - 1 { assert init[j] == g[j]; }
      }
      if HasEdge(init, n, v) {
        var j :| 0 <= j < |init| && init[j].src == n && init[j].dst == v;
        assert g[j] == init[j];
      }
    }
  }

  /** Successors of a graph extended by one edge at the end. */
  lemma {:induction false} SuccessorsAppend(g: Graph, e: Edge, n: string)
    ensures Successors(g + [e], n) == Successors(g, n) + (if e.src == n then [e.dst] else [])
  {
    assert (g + [e])[..|g|] == g;
  }

  /** Overwriting the attributes of an edge keeps every successor list, order included. */
  lemma {:induction false} SuccessorsOverwrite(g: Graph, i: nat, e: Edge, n: string)
    requires i < |g| && g[i].src == e.src && g[i].dst == e.dst
    ensures Successors(g[i := e], n) == Successors(g, n)
    decreases |g|
  {
    var r := g[i := e];
    if i < |g| - 1 {
      assert r[..|r| - 1] == g[..|g| - 1][i := e];
      SuccessorsOverwrite(g[..|g| - 1], i, e, n);
    } else {
      assert r[..|r| - 1] == g[..|g| - 1];
    }
  }

  /** Whether edge `e` is the edge u -> v. */
  predicate IsKey(e: Edge, u: string, v: string) {
    e.src == u && e.dst == v
  }

  /** Two graphs that have the edge x -> y at the same positions find it at the same position. */
  lemma {:induction false} FindEdgeAgree(g: Graph, r: Graph, x: string, y: string)
    requires |g| == |r|
    requires forall j :: 0 <= j < |g| ==> (IsKey(g[j], x, y) <==> IsKey(r[j], x, y))
    ensures FindEdge(g, x, y) == FindEdge(r, x, y)
  {
    if g != [] && !IsKey(g[0], x, y) {
      assert forall j :: 0 <= j < |g| - 1 ==> g[1..][j] == g[j + 1] && r[1..][j] == r[j + 1];
      FindEdgeAgree(g[1..], r[1..], x, y);
    }
  }

  /** Searching a graph extended by one edge at the end. */
  lemma {:induction false} FindEdgeAppend(g: Graph, e: Edge, x: string, y: string)
    ensures FindEdge(g + [e], x, y)
         == if FindEdge(g, x, y) < |g| then FindEdge(g, x, y)
            else if IsKey(e, x, y) then |g| else |g| + 1
  {
    if g != [] && !IsKey(g[0], x, y) {
      assert (g + [e])[1..] == g[1..] + [e];
      FindEdgeAppend(g[1..], e, x, y);
    }
  }

  /**
   * Adding the edge u -> v with its symbol and direction: overwrites the
   * attributes of an existing u -> v edge in place, otherwise appends it.
   */
  function AddEdge(g: Graph, u: string, v: string, a: Attr): (r: Graph)
    ensures Lookup(r, u, v) == Some(a)
    ensures forall x, y :: (x != u || y != v) ==> Lookup(r, x, y) == Lookup(g, x, y)
    ensures forall e :: e in r ==> e in g || e == Edge(u, v, a.symbol, a.dir)
    ensures |r| == if HasEdge(g, u, v) then |g| else |g| + 1
    ensures UniqueKeys(g) ==> UniqueKeys(r)
  {
    var i := FindEdge(g, u, v);
    var e := Edge(u, v, a.symbol, a.dir);
    if i < |g| then
      OverwritePositions(g, i, e);
      g[i := e]
    else
      AppendPositions(g, e);
      g + [e]
  }

  /** Overwriting an edge with one of the same key moves no edge. */
  lemma {:induction false} OverwritePositions(g: Graph, i: nat, e: Edge)
    requires i < |g| && IsKey(g[i], e.src, e.dst)
    ensures forall x, y :: FindEdge(g[i := e], x, y) == FindEdge(g, x, y)
  {
    forall x, y ensures FindEdge(g[i := e], x, y) == FindEdge(g, x, y) {
      FindEdgeAgree(g, g[i := e], x, y);
    }
  }

  /** Appending an edge moves no edge; the new one is found only when its key was absent. */
  lemma {:induction false} AppendPositions(g: Graph, e: Edge)
    ensures forall x, y :: FindEdge(g + [e], x, y)
                        == if FindEdge(g, x, y) < |g| then FindEdge(g, x, y)
                           else if IsKey(e, x, y) then |g| else |g| + 1
  {
    forall x, y ensures FindEdge(g + [e], x, y)
                     == if FindEdge(g, x, y) < |g| then FindEdge(g, x, y)
                        else if IsKey(e, x, y) then |g| else |g| + 1 {
      FindEdgeAppend(g, e, x, y);
    }
  }

  /** How `add_edge` reorders successors: a new edge goes last, an overwrite moves nothing. */
  lemma {:induction false} AddEdgeSuccessors(g: Graph, u: string, v: string, a: Attr, n: string)
    ensures Successors(AddEdge(g, u, v, a), n)
         == if n == u && !HasEdge(g, u, v) then Successors(g, n) + [v] else Successors(g, n)
  {
    var i := FindEdge(g, u, v);
    if i < |g| {
      SuccessorsOverwrite(g, i, Edge(u, v, a.symbol, a.dir), n);
    } else {
      SuccessorsAppend(g, Edge(u, v, a.symbol, a.dir), n);
    }
  }

  /**
   * An edge agrees with its symbol: direction 1 sells the symbol's base for
   * its quote, direction -1 buys the base with the quote.
   */
  predicate Consistent(e: Edge) {
    match SplitPair(e.symbol)
    case None => false
    case Some((b, q)) => (e.dir == 1 && e.src == b && e.dst == q) || (e.dir == -1 && e.src == q && e.dst == b)
  }

  ghost predicate AllConsistent(g: Graph) {
    forall e :: e in g ==> Consistent(e)
  }

  /** The edges an ordered pair of currencies gets from one pair symbol, if it splits into two codes. */
  predicate Touches(pair: string, x: string, y: string) {
    match SplitPair(Normalize(pair))
    case None => false
    case Some((b, q)) => (x == b && y == q) || (x == q && y == b)
  }

  /**
   * One iteration of the loop of `build_currency_graph` (tri_arb.py:25-33):
   * a symbol that splits into two codes adds base -> quote with direction 1,
   * then quote -> base with direction -1, both carrying the normalised symbol;
   * any other symbol leaves the graph as it was.
   */
  function AddPair(g: Graph, pair: string): (r: Graph)
    ensures SplitPair(Normalize(pair)).None? ==> r == g
    ensures SplitPair(Normalize(pair)).Some? ==>
      var (b, q) := SplitPair(Normalize(pair)).value;
      && Lookup(r, q, b) == Some(Attr(Normalize(pair), -1))
      && (b != q ==> Lookup(r, b, q) == Some(Attr(Normalize(pair), 1)))
    ensures forall x, y :: !Touches(pair, x, y) ==> Lookup(r, x, y) == Lookup(g, x, y)
    ensures forall x, y :: HasEdge(r, x, y) <==> HasEdge(g, x, y) || Touches(pair, x, y)
    ensures UniqueKeys(g) ==> UniqueKeys(r)
    ensures AllConsistent(g) ==> AllConsistent(r)
  {
    var sym := Normalize(pair);
    match SplitPair(sym)
    case None => g
    case Some((b, q)) =>
      BothDirections(g, sym, b, q);
      AddEdge(AddEdge(g, b, q, Attr(sym, 1)), q, b, Attr(sym, -1))
  }

  /** The two `add_edge` calls for one market b/q, stated without reference to the pair text. */
  lemma BothDirections(g: Graph, sym: string, b: string, q: string)
    requires SplitPair(sym) == Some((b, q))
    ensures var r := AddEdge(AddEdge(g, b, q, Attr(sym, 1)), q, b, Attr(sym, -1));
      && Lookup(r, q, b) == Some(Attr(sym, -1))
      && (b != q ==> Lookup(r, b, q) == Some(Attr(sym, 1)))
      && (forall x, y :: !((x == b && y == q) || (x == q && y == b)) ==> Lookup(r, x, y) == Lookup(g, x, y))
      && (forall x, y :: HasEdge(r, x, y) <==> HasEdge(g, x, y) || (x == b && y == q) || (x == q && y == b))
      && (UniqueKeys(g) ==> UniqueKeys(r))
      && (AllConsistent(g) ==> AllConsistent(r))
  {
    var g1 := AddEdge(g, b, q, Attr(sym, 1));
    var r := AddEdge(g1, q, b, Attr(sym, -1));
    assert Consistent(Edge(b, q, sym, 1)) && Consistent(Edge(q, b, sym, -1));
    assert forall x, y :: HasEdge(r, x, y) <==> Lookup(r, x, y).Some?;
    assert forall x, y :: HasEdge(g, x, y) <==> Lookup(g, x, y).Some?;
  }

  /** The graph `build_currency_graph` builds: the pairs folded into the empty graph, first to last. */
  function BuildGraph(pairs: seq<string>): (g: Graph)
    ensures UniqueKeys(g)
    ensures AllConsistent(g)
  {
    if pairs == [] then [] else AddPair(BuildGraph(pairs[..|pairs| - 1]), pairs[|pairs| - 1])
  }

  /**
   * The graph has an edge x -> y exactly when some pair symbol splits into the
   * codes x and y (in either order); every other symbol was skipped.
   */
  lemma {:induction false} BuildGraphEdges(pairs: seq<string>, x: string, y: string)
    ensures HasEdge(BuildGraph(pairs), x, y) <==> SomeTouches(pairs, x, y)
  {
    if pairs != [] {
      var init := pairs[..|pairs| - 1];
      var last := pairs[|pairs| - 1];
      BuildGraphEdges(init, x, y);
      assert HasEdge(BuildGraph(pairs), x, y) <==> HasEdge(BuildGraph(init), x, y) || Touches(last, x, y);
      SomeTouchesSnoc(pairs, x, y);
    }
  }

  /** Some symbol of `pairs` splits into the codes x and y. */
  ghost predicate SomeTouches(pairs: seq<string>, x: string, y: string) {
    exists k :: 0 <= k < |pairs| && Touches(pairs[k], x, y)
  }

  lemma SomeTouchesSnoc(pairs: seq<string>, x: string, y: string)
    requires pairs != []
    ensures SomeTouches(pairs, x, y) <==> SomeTouches(pairs[..|pairs| - 1], x, y) || Touches(pairs[|pairs| - 1], x, y)
  {
    var init := pairs[..|pairs| - 1];
    var last := |pairs| - 1;
    assert forall k :: 0 <= k < |init| ==> init[k] == pairs[k];
    if SomeTouches(pairs, x, y) && !Touches(pairs[last], x, y) {
      var k :| 0 <= k < |pairs| && Touches(pairs[k], x, y);
      assert k != last;
      assert Touches(init[k], x, y);
    }
  }

  /** The two directed edges of a symbol that splits into two different codes. */
  predicate ProperPair(pair: string) {
    match SplitPair(Normalize(pair))
    case None => false
    case Some((b, q)) => b != q
  }

  /** No two symbols connect the same two currencies. */
  ghost predicate DistinctMarkets(pairs: seq<string>) {
    forall i, j, x, y :: 0 <= i < j < |pairs| && Touches(pairs[i], x, y) ==> !Touches(pairs[j], x, y)
  }

  /**
   * N well-formed symbols over N different currency pairs give exactly 2N
   * edges, two per symbol.  (Symbols sharing their two currencies share edges,
   * the later one overwriting the earlier, so no such count holds in general.)
   */
  lemma {:induction false} BuildGraphSize(pairs: seq<string>)
    requires forall k :: 0 <= k < |pairs| ==> ProperPair(pairs[k])
    requires DistinctMarkets(pairs)
    ensures |BuildGraph(pairs)| == 2 * |pairs|
  {
    if pairs != [] {
      var init := pairs[..|pairs| - 1];
      var last := pairs[|pairs| - 1];
      assert DistinctMarkets(init) && forall k :: 0 <= k < |init| ==> ProperPair(init[k]) by {
        assert forall k :: 0 <= k < |init| ==> init[k] == pairs[k];
      }
      BuildGraphSize(init);
      var (b, q) := SplitPair(Normalize(last)).value;
      NewMarket(pairs, b, q);
      NewMarket(pairs, q, b);
      BuildGraphEdges(init, b, q);
      BuildGraphEdges(init, q, b);
      AddPairGrows(BuildGraph(init), last);
    }
  }

  /** A symbol over two different, not yet connected, currencies adds two edges. */
  lemma {:induction false} AddPairGrows(g: Graph, pair: string)
    requires ProperPair(pair)
    requires var (b, q) := SplitPair(Normalize(pair)).value; !HasEdge(g, b, q) && !HasEdge(g, q, b)
    ensures |AddPair(g, pair)| == |g| + 2
  {
    var sym := Normalize(pair);
    var (b, q) := SplitPair(sym).value;
    var g1 := AddEdge(g, b, q, Attr(sym, 1));
    assert |g1| == |g| + 1;
    assert Lookup(g1, q, b) == Lookup(g, q, b);
  }

  /** Under distinct markets, the last symbol's currencies are touched by no earlier symbol. */
  lemma NewMarket(pairs: seq<string>, x: string, y: string)
    requires pairs != [] && DistinctMarkets(pairs) && Touches(pairs[|pairs| - 1], x, y)
    ensures !SomeTouches(pairs[..|pairs| - 1], x, y)
  {
    var init := pairs[..|pairs| - 1];
    forall k | 0 <= k < |init| ensures !Touches(init[k], x, y) {
      assert init[k] == pairs[k];
    }
  }

  /**
   * `build_currency_graph` (tri_arb.py:21-34): adds, pair by pair, the two
   * edges of each symbol that splits into two codes; a symbol that does not
   * is skipped (the exception is caught) and the loop goes on.
   */
  method BuildCurrencyGraph(pairs: seq<string>) returns (graph: Graph)
    ensures graph == BuildGraph(pairs)
  {
    graph := [];
    for i := 0 to |pairs|
      invariant graph == BuildGraph(pairs[..i])
    {
      assert pairs[..i + 1][..i] == pairs[..i];
      var pair := pairs[i];
      if '/' in pair {
        pair := Normalize(pair);
      }
      assert pair == Normalize(pairs[i]) by {
        if '/' !in pairs[i] {
          assert forall k :: 0 <= k < |pair| ==> Normalize(pair)[k] == pair[k];
        }
      }
      var parts := SplitPair(pair);
      if parts.Some? {
        var (base, quote) := parts.value;
        graph := AddEdge(graph, base, quote, Attr(pair, 1));
        graph := AddEdge(graph, quote, base, Attr(pair, -1));
      }
    }
    assert pairs[..|pairs|] == pairs;
  }
}
