/**
 * Choosing what to trade on one tick: the threshold filter of
 * `_check_paths_chunk` (tri_arb.py:299-332), the descending sort and the
 * capital cap of `next` (tri_arb.py:268-282).
 */
module Selection {
  import opened Symbols
  import opened PathFinder
  import opened ProfitEval

  /** A candidate: the evaluated score of a path, and the path. */
  type Entry = (real, Path)

  predicate AllWellFormed(paths: seq<Path>) {
    forall i :: 0 <= i < |paths| ==> LegsWellFormed(paths[i])
  }

  /** The score `_check_paths_chunk` computes for a path: the sentinel counts as -1. */
  function ScoreOf(p: Path, prices: Prices, base: string, fee: real, amount: real): real
  {
    Score(Evaluate(p, prices, base, fee, amount))
  }

  /**
   * Whether `_check_paths_chunk` keeps a path: not being traded, evaluated
   * without raising, and scoring strictly above the threshold. (A path whose
   * evaluation raises ends the whole check; see `ChunkRaises`.)
   */
  predicate Keeps(p: Path, active: set<Path>, prices: Prices, base: string, fee: real, amount: real, threshold: real)
  {
    p !in active && !Evaluate(p, prices, base, fee, amount).Raised? && ScoreOf(p, prices, base, fee, amount) > threshold
  }

  /**
   * Whether `_check_paths_chunk` raises: some path that is not being traded
   * raises when evaluated, which propagates out of the check.
   */
  predicate ChunkRaises(paths: seq<Path>, active: set<Path>, prices: Prices, base: string, fee: real, amount: real)
  {
    if paths == [] then false
    else
      var p := paths[|paths| - 1];
      ChunkRaises(paths[..|paths| - 1], active, prices, base, fee, amount) ||
      (p !in active && Evaluate(p, prices, base, fee, amount).Raised?)
  }

  /** The check raises exactly when one of its paths, not being traded, raises. */
  lemma {:induction false} ChunkRaisesExact(paths: seq<Path>, active: set<Path>, prices: Prices, base: string, fee: real, amount: real)
    ensures ChunkRaises(paths, active, prices, base, fee, amount) <==>
      exists i :: 0 <= i < |paths| && paths[i] !in active && Evaluate(paths[i], prices, base, fee, amount).Raised?
  {
    if paths != [] {
      var init := paths[..|paths| - 1];
      ChunkRaisesExact(init, active, prices, base, fee, amount);
      if ChunkRaises(paths, active, prices, base, fee, amount) {
        if ChunkRaises(init, active, prices, base, fee, amount) {
          var i :| 0 <= i < |init| && init[i] !in active && Evaluate(init[i], prices, base, fee, amount).Raised?;
          assert paths[i] == init[i];
        } else {
          assert paths[|paths| - 1] == paths[|paths| - 1];
        }
      } else {
        forall i | 0 <= i < |paths|
          ensures !(paths[i] !in active && Evaluate(paths[i], prices, base, fee, amount).Raised?)
        {
          if i < |init| {
            assert paths[i] == init[i];
          }
        }
      }
    }
  }

  /** Well-formed paths with a non-zero amount never make the check raise. */
  lemma {:induction false} WellFormedChunkRuns(paths: seq<Path>, active: set<Path>, prices: Prices, base: string, fee: real, amount: real)
    requires amount != 0.0 && AllWellFormed(paths)
    ensures !ChunkRaises(paths, active, prices, base, fee, amount)
  {
    ChunkRaisesExact(paths, active, prices, base, fee, amount);
    forall i | 0 <= i < |paths|
      ensures !Evaluate(paths[i], prices, base, fee, amount).Raised?
    {
      WellFormedNeverRaises(paths[i], prices, base);
    }
  }

  /** A check that raises on a prefix of the paths raises on all of them. */
  lemma {:induction false} ChunkRaisesExtends(paths: seq<Path>, n: nat, active: set<Path>, prices: Prices, base: string, fee: real, amount: real)
    requires n <= |paths| && ChunkRaises(paths[..n], active, prices, base, fee, amount)
    ensures ChunkRaises(paths, active, prices, base, fee, amount)
  {
    ChunkRaisesExact(paths[..n], active, prices, base, fee, amount);
    ChunkRaisesExact(paths, active, prices, base, fee, amount);
    var i :| 0 <= i < n && paths[..n][i] !in active && Evaluate(paths[..n][i], prices, base, fee, amount).Raised?;
    assert paths[i] == paths[..n][i];
  }

  /** One more path of `_check_paths_chunk`'s loop, for raising. */
  lemma {:induction false} ChunkRaisesPrefix(paths: seq<Path>, i: nat, active: set<Path>, prices: Prices, base: string, fee: real, amount: real)
    requires i < |paths|
    ensures ChunkRaises(paths[..i + 1], active, prices, base, fee, amount)
        <==> ChunkRaises(paths[..i], active, prices, base, fee, amount) ||
             (paths[i] !in active && Evaluate(paths[i], prices, base, fee, amount).Raised?)
  {
    assert paths[..i + 1][..i] == paths[..i];
  }

  /** `_check_paths_chunk` as a fold from the first path to the last. */
  function CheckChunk(paths: seq<Path>, active: set<Path>, prices: Prices, base: string, fee: real, amount: real, threshold: real): seq<Entry>
  {
    if paths == [] then []
    else
      var p := paths[|paths| - 1];
      var init := CheckChunk(paths[..|paths| - 1], active, prices, base, fee, amount, threshold);
      if Keeps(p, active, prices, base, fee, amount, threshold) then init + [(ScoreOf(p, prices, base, fee, amount), p)]
      else init
  }

  /** The positions of the kept paths among the first `n`, in increasing order. */
  function KeptIndices(paths: seq<Path>, n: nat, active: set<Path>, prices: Prices, base: string, fee: real, amount: real, threshold: real): seq<nat>
    requires n <= |paths|
  {
    if n == 0 then []
    else
      KeptIndices(paths, n - 1, active, prices, base, fee, amount, threshold)
        + (if Keeps(paths[n - 1], active, prices, base, fee, amount, threshold) then [n - 1] else [])
  }

  /** The kept positions among the first `n` are below `n` and increasing. */
  lemma {:induction false} KeptIndicesIncreasing(paths: seq<Path>, n: nat, active: set<Path>, prices: Prices, base: string, fee: real, amount: real, threshold: real)
    requires n <= |paths|
    ensures var idx := KeptIndices(paths, n, active, prices, base, fee, amount, threshold);
      (forall k :: 0 <= k < |idx| ==> idx[k] < n) &&
      (forall k1, k2 :: 0 <= k1 < k2 < |idx| ==> idx[k1] < idx[k2])
  {
    if n > 0 {
      KeptIndicesIncreasing(paths, n - 1, active, prices, base, fee, amount, threshold);
      KeptIndicesLast(paths, n, active, prices, base, fee, amount, threshold);
    }
  }

  /** The last position is listed after the others exactly when its path is kept. */
  lemma KeptIndicesLast(paths: seq<Path>, n: nat, active: set<Path>, prices: Prices, base: string, fee: real, amount: real, threshold: real)
    requires 0 < n <= |paths|
    ensures Keeps(paths[n - 1], active, prices, base, fee, amount, threshold) ==>
      KeptIndices(paths, n, active, prices, base, fee, amount, threshold) == KeptIndices(paths, n - 1, active, prices, base, fee, amount, threshold) + [n - 1]
    ensures !Keeps(paths[n - 1], active, prices, base, fee, amount, threshold) ==>
      KeptIndices(paths, n, active, prices, base, fee, amount, threshold) == KeptIndices(paths, n - 1, active, prices, base, fee, amount, threshold)
  {
  }

  /** A position among the first `n` is listed exactly when its path is kept. */
  lemma {:induction false} KeptIndicesExact(paths: seq<Path>, n: nat, active: set<Path>, prices: Prices, base: string, fee: real, amount: real, threshold: real)
    requires n <= |paths|
    ensures forall i :: 0 <= i < n ==>
      (i in KeptIndices(paths, n, active, prices, base, fee, amount, threshold) <==> Keeps(paths[i], active, prices, base, fee, amount, threshold))
  {
    if n > 0 {
      KeptIndicesExact(paths, n - 1, active, prices, base, fee, amount, threshold);
      KeptIndicesIncreasing(paths, n - 1, active, prices, base, fee, amount, threshold);
      KeptIndicesLast(paths, n, active, prices, base, fee, amount, threshold);
    }
  }

  /**
   * The chunk check returns one entry per kept position, in input order,
   * each the path at that position with its score.
   */
  lemma {:induction false} CheckChunkIndices(paths: seq<Path>, active: set<Path>, prices: Prices, base: string, fee: real, amount: real, threshold: real)
    ensures var r := CheckChunk(paths, active, prices, base, fee, amount, threshold);
      var idx := KeptIndices(paths, |paths|, active, prices, base, fee, amount, threshold);
      |r| == |idx| && (forall k :: 0 <= k < |idx| ==> idx[k] < |paths|) &&
      forall k :: 0 <= k < |r| ==> r[k] == (ScoreOf(paths[idx[k]], prices, base, fee, amount), paths[idx[k]])
  {
    if paths != [] {
      var n := |paths| - 1;
      var init, p := paths[..n], paths[n];
      KeptIndicesPrefix(paths, n, active, prices, base, fee, amount, threshold);
      CheckChunkIndices(init, active, prices, base, fee, amount, threshold);
      KeptIndicesIncreasing(paths, n, active, prices, base, fee, amount, threshold);
      KeptIndicesLast(paths, n + 1, active, prices, base, fee, amount, threshold);
      var idx0 := KeptIndices(paths, n, active, prices, base, fee, amount, threshold);
      var r0 := CheckChunk(init, active, prices, base, fee, amount, threshold);
      var idx := KeptIndices(paths, n + 1, active, prices, base, fee, amount, threshold);
      var r := CheckChunk(paths, active, prices, base, fee, amount, threshold);
      assert forall k :: 0 <= k < |idx0| ==> init[idx0[k]] == paths[idx0[k]];
      if Keeps(p, active, prices, base, fee, amount, threshold) {
        assert r == r0 + [(ScoreOf(p, prices, base, fee, amount), p)];
        assert idx == idx0 + [n];
        forall k | 0 <= k < |r| ensures r[k] == (ScoreOf(paths[idx[k]], prices, base, fee, amount), paths[idx[k]]) {
          if k < |r0| {
            assert r[k] == r0[k] && idx[k] == idx0[k];
          }
        }
      } else {
        assert r == r0 && idx == idx0;
      }
    }
  }

  /** The kept positions among the first `n` do not depend on the paths after them. */
  lemma {:induction false} KeptIndicesPrefix(paths: seq<Path>, n: nat, active: set<Path>, prices: Prices, base: string, fee: real, amount: real, threshold: real)
    requires n <= |paths|
    ensures KeptIndices(paths[..n], n, active, prices, base, fee, amount, threshold)
         == KeptIndices(paths, n, active, prices, base, fee, amount, threshold)
    decreases n
  {
    assert forall i :: 0 <= i < n ==> paths[..n][i] == paths[i];
    if n > 0 {
      KeptIndicesPrefix(paths, n - 1, active, prices, base, fee, amount, threshold);
      KeptIndicesPrefix(paths[..n], n - 1, active, prices, base, fee, amount, threshold);
      assert paths[..n][..n - 1] == paths[..n - 1];
    }
  }

  /** Every entry of the chunk check is a kept path paired with its score. */
  lemma {:induction false} CheckChunkMembers(paths: seq<Path>, active: set<Path>, prices: Prices, base: string, fee: real, amount: real, threshold: real)
    ensures forall e :: e in CheckChunk(paths, active, prices, base, fee, amount, threshold) ==>
      e.1 in paths && e.1 !in active && !Evaluate(e.1, prices, base, fee, amount).Raised? &&
      e.0 == ScoreOf(e.1, prices, base, fee, amount) && e.0 > threshold &&
      (threshold >= -1.0 ==> Evaluate(e.1, prices, base, fee, amount).Profit? && LegsWellFormed(e.1))
  {
    var r := CheckChunk(paths, active, prices, base, fee, amount, threshold);
    var idx := KeptIndices(paths, |paths|, active, prices, base, fee, amount, threshold);
    CheckChunkIndices(paths, active, prices, base, fee, amount, threshold);
    KeptIndicesExact(paths, |paths|, active, prices, base, fee, amount, threshold);
    forall e | e in r
      ensures e.1 in paths && e.1 !in active && !Evaluate(e.1, prices, base, fee, amount).Raised? &&
      e.0 == ScoreOf(e.1, prices, base, fee, amount) && e.0 > threshold &&
      (threshold >= -1.0 ==> Evaluate(e.1, prices, base, fee, amount).Profit? && LegsWellFormed(e.1))
    {
      var k :| 0 <= k < |r| && r[k] == e;
      assert idx[k] in idx;
      if threshold >= -1.0 && Evaluate(e.1, prices, base, fee, amount).Profit? {
        ProfitWellFormed(e.1, prices, base, fee, amount);
      }
    }
  }

  /** One more path of `_check_paths_chunk`'s loop. */
  lemma {:induction false} CheckChunkPrefix(paths: seq<Path>, i: nat, active: set<Path>, prices: Prices, base: string, fee: real, amount: real, threshold: real)
    requires i < |paths|
    ensures CheckChunk(paths[..i + 1], active, prices, base, fee, amount, threshold)
         == if Keeps(paths[i], active, prices, base, fee, amount, threshold)
            then CheckChunk(paths[..i], active, prices, base, fee, amount, threshold) + [(ScoreOf(paths[i], prices, base, fee, amount), paths[i])]
            else CheckChunk(paths[..i], active, prices, base, fee, amount, threshold)
  {
    assert forall k :: 0 <= k <= i ==> paths[..i + 1][k] == paths[k];
    assert paths[..i + 1][..i] == paths[..i];
  }

  /** Sorted by score, highest first. */
  predicate SortedDesc(s: seq<Entry>) {
    forall i, j :: 0 <= i < j < |s| ==> s[i].0 >= s[j].0
  }

  /**
   * Inserts `x` after every entry scoring at least as much: into a list
   * sorted highest first, after the entries that tie with it.
   */
  function Insert(x: Entry, s: seq<Entry>): seq<Entry> {
    if s == [] then [x]
    else if s[0].0 >= x.0 then [s[0]] + Insert(x, s[1..])
    else [x] + s
  }

  /**
   * The descending sort of `next` by score: Python's sort is stable also
   * when reversed, which insertion in input order reproduces.
   */
  function SortDesc(s: seq<Entry>): seq<Entry> {
    if s == [] then [] else Insert(s[|s| - 1], SortDesc(s[..|s| - 1]))
  }

  /** The entries of `s` with score `k`, in order. */
  function WithScore(s: seq<Entry>, k: real): seq<Entry> {
    if s == [] then [] else (if s[0].0 == k then [s[0]] else []) + WithScore(s[1..], k)
  }

  lemma {:induction false} WithScoreAppend(a: seq<Entry>, b: seq<Entry>, k: real)
    ensures WithScore(a + b, k) == WithScore(a, k) + WithScore(b, k)
  {
    if a == [] {
      assert a + b == b;
    } else {
      var h := if a[0].0 == k then [a[0]] else [];
      assert (a + b)[0] == a[0];
      assert (a + b)[1..] == a[1..] + b;
      assert WithScore(a + b, k) == h + WithScore(a[1..] + b, k);
      WithScoreAppend(a[1..], b, k);
      assert h + (WithScore(a[1..], k) + WithScore(b, k)) == (h + WithScore(a[1..], k)) + WithScore(b, k);
    }
  }

  lemma {:induction false} WithScoreNone(s: seq<Entry>, k: real)
    requires forall i :: 0 <= i < |s| ==> s[i].0 < k
    ensures WithScore(s, k) == []
  {
    if s != [] {
      WithScoreNone(s[1..], k);
    }
  }

  /** Inserting adds exactly `x`. */
  lemma {:induction false} InsertPermutes(x: Entry, s: seq<Entry>)
    ensures multiset(Insert(x, s)) == multiset(s) + multiset{x}
  {
    if s != [] && s[0].0 >= x.0 {
      var t := s[1..];
      InsertPermutes(x, t);
      assert s == [s[0]] + t;
      calc {
        multiset(Insert(x, s));
        multiset([s[0]] + Insert(x, t));
        multiset([s[0]]) + multiset(Insert(x, t));
        multiset([s[0]]) + multiset(t) + multiset{x};
        multiset(s) + multiset{x};
      }
    }
  }

  /** Inserting into a sorted list keeps it sorted. */
  lemma {:induction false} InsertSorted(x: Entry, s: seq<Entry>)
    requires SortedDesc(s)
    ensures SortedDesc(Insert(x, s))
  {
    if s != [] && s[0].0 >= x.0 {
      var t := s[1..];
      InsertSorted(x, t);
      InsertPermutes(x, t);
      var r := Insert(x, s);
      forall j | 0 < j < |r|
        ensures r[0].0 >= r[j].0
      {
        assert r[j] in multiset(Insert(x, t));
      }
    }
  }

  /** Inserting into a sorted list puts `x` after the entries that tie with it. */
  lemma {:induction false} InsertStable(x: Entry, s: seq<Entry>, k: real)
    requires SortedDesc(s)
    ensures WithScore(Insert(x, s), k) == WithScore(s, k) + WithScore([x], k)
  {
    if s == [] {
    } else if s[0].0 >= x.0 {
      var t := s[1..];
      InsertStable(x, t, k);
      WithScoreAppend([s[0]], Insert(x, t), k);
      WithScoreAppend([s[0]], t, k);
      assert s == [s[0]] + t;
    } else {
      WithScoreAppend([x], s, k);
      if k == x.0 {
        WithScoreNone(s, k);
      }
    }
  }

  /**
   * The sort is a stable descending sort: sorted, a permutation of its
   * input, and the entries of any one score in their input order.
   */
  lemma {:induction false} SortDescSpec(s: seq<Entry>)
    ensures SortedDesc(SortDesc(s))
    ensures multiset(SortDesc(s)) == multiset(s)
    ensures forall k :: WithScore(SortDesc(s), k) == WithScore(s, k)
  {
    if s != [] {
      var init, x := s[..|s| - 1], s[|s| - 1];
      SortDescSpec(init);
      InsertSorted(x, SortDesc(init));
      InsertPermutes(x, SortDesc(init));
      assert s == init + [x];
      forall k
        ensures WithScore(SortDesc(s), k) == WithScore(s, k)
      {
        InsertStable(x, SortDesc(init), k);
        WithScoreAppend(init, [x], k);
      }
    }
  }

  /** Python's `int()` on a float: truncation toward zero. */
  function Trunc(x: real): (n: int)
    ensures 0.0 <= x ==> n as real <= x < n as real + 1.0
    ensures x < 0.0 ==> n as real - 1.0 < x <= n as real
  {
    if x >= 0.0 then x.Floor else -((-x).Floor)
  }

  /** The number of trades a tick may attempt: `max_positions`, or fewer when the cash buys fewer trades of the fixed amount. */
  function Cap(maxPositions: int, cash: real, amount: real): int
    requires amount != 0.0
  {
    var affordable := Trunc(cash / amount);
    if maxPositions <= affordable then maxPositions else affordable
  }

  /**
   * The cap never commits more than the cash: with a positive trade amount,
   * `cap` trades of it cost at most the cash, and the cap is at most
   * `max_positions`.
   */
  lemma CapAffordable(maxPositions: int, cash: real, amount: real)
    requires amount > 0.0
    ensures Cap(maxPositions, cash, amount) <= maxPositions
    ensures Cap(maxPositions, cash, amount) > 0 ==> Cap(maxPositions, cash, amount) as real * amount <= cash
    ensures 0 < maxPositions && amount <= cash ==> Cap(maxPositions, cash, amount) > 0
  {
    var c := Cap(maxPositions, cash, amount);
    var q := cash / amount;
    assert q * amount == cash;
    if c > 0 {
      assert c as real <= q;
      MonotoneProduct(c as real, q, amount);
    }
    if 0 < maxPositions && amount <= cash {
      assert 1.0 <= q by {
        MonotoneProduct(1.0, q, amount);
        if q < 1.0 {
          MonotoneProduct(q, 1.0, amount);
        }
      }
    }
  }

  lemma MonotoneProduct(x: real, y: real, a: real)
    requires x <= y && a > 0.0
    ensures x * a <= y * a
  {
  }

  /** The first `n` entries (all of them when there are fewer), for a positive `n`. */
  function Take(s: seq<Entry>, n: int): seq<Entry>
    requires n > 0
  {
    if n < |s| then s[..n] else s
  }

  /** What one tick attempts: the kept paths, best first, at most `cap` of them. */
  function Selected(paths: seq<Path>, active: set<Path>, prices: Prices, base: string, fee: real, amount: real, threshold: real, cap: int): seq<Entry>
    requires cap > 0
  {
    Take(SortDesc(CheckChunk(paths, active, prices, base, fee, amount, threshold)), cap)
  }

  /** Sorting keeps the same entries and as many of them. */
  lemma {:induction false} SortDescMembers(s: seq<Entry>)
    ensures |SortDesc(s)| == |s|
    ensures forall e :: e in SortDesc(s) <==> e in s
  {
    SortDescSpec(s);
    assert |multiset(SortDesc(s))| == |multiset(s)|;
    forall e
      ensures e in SortDesc(s) <==> e in s
    {
      assert e in SortDesc(s) <==> e in multiset(SortDesc(s));
      assert e in s <==> e in multiset(s);
    }
  }

  /**
   * The selection holds at most `cap` entries, best first, taken from the
   * kept entries, and is empty only when nothing was kept.
   */
  lemma {:induction false} SelectedBounds(paths: seq<Path>, active: set<Path>, prices: Prices, base: string, fee: real, amount: real, threshold: real, cap: int)
    requires cap > 0
    ensures var sel := Selected(paths, active, prices, base, fee, amount, threshold, cap);
      var kept := CheckChunk(paths, active, prices, base, fee, amount, threshold);
      |sel| <= cap && |sel| <= |kept| && (sel == [] <==> kept == []) && SortedDesc(sel) &&
      (forall e :: e in sel ==> e in kept)
  {
    var kept := CheckChunk(paths, active, prices, base, fee, amount, threshold);
    SortDescSpec(kept);
    SortDescMembers(kept);
  }

  /** Every selected entry is a path that is not being traded, with its score, above the threshold. */
  lemma SelectedMembers(paths: seq<Path>, active: set<Path>, prices: Prices, base: string, fee: real, amount: real, threshold: real, cap: int)
    requires cap > 0
    ensures forall e :: e in Selected(paths, active, prices, base, fee, amount, threshold, cap) ==>
      e.1 in paths && e.1 !in active && !Evaluate(e.1, prices, base, fee, amount).Raised? &&
      e.0 == ScoreOf(e.1, prices, base, fee, amount) && e.0 > threshold &&
      (threshold >= -1.0 ==> Evaluate(e.1, prices, base, fee, amount).Profit? && LegsWellFormed(e.1))
  {
    SelectedBounds(paths, active, prices, base, fee, amount, threshold, cap);
    CheckChunkMembers(paths, active, prices, base, fee, amount, threshold);
  }

  /** No kept entry is passed over in favour of a worse one. */
  lemma {:induction false} SelectedBest(paths: seq<Path>, active: set<Path>, prices: Prices, base: string, fee: real, amount: real, threshold: real, cap: int)
    requires cap > 0
    ensures var sel := Selected(paths, active, prices, base, fee, amount, threshold, cap);
      var kept := CheckChunk(paths, active, prices, base, fee, amount, threshold);
      forall e, d :: e in sel && d in kept && d !in sel ==> e.0 >= d.0
  {
    var kept := CheckChunk(paths, active, prices, base, fee, amount, threshold);
    var sorted := SortDesc(kept);
    var sel := Take(sorted, cap);
    SortDescSpec(kept);
    SortDescMembers(kept);
    forall e, d | e in sel && d in kept && d !in sel
      ensures e.0 >= d.0
    {
      var i :| 0 <= i < |sel| && sel[i] == e;
      var j :| 0 <= j < |sorted| && sorted[j] == d;
      assert sel == sorted[..cap];
      assert j >= cap;
    }
  }
}
